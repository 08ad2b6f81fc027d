/** Entries of fstab field by field: when one describes the sync root, whether it mounts by itself, and what the
    installer writes into its options. */
module FstabMeaning {
  import opened Text
  import opened Fstab

  /** Three characters read as a byte exactly when they are octal digits up to 377, or a plus sign and two digits. */
  lemma OctalByteExactly(a: char, b: char, c: char)
    ensures OctalByte([a, b, c]).Some? <==> ('0' <= a <= '3' || a == '+') && '0' <= b <= '7' && '0' <= c <= '7'
    ensures OctalByte([a, b, c]).Some? ==>
      OctalByte([a, b, c]).value ==
        (if a == '+' then 0 else 64 * (a as int - '0' as int)) + 8 * (b as int - '0' as int) + (c as int - '0' as int)
  {
    OctalOfTwo(b, c);
    OctalOfThree(a, b, c);
    assert [a, b, c][1..] == [b, c];
  }

  lemma OctalOfTwo(b: char, c: char)
    ensures OctalValue([b, c]) ==
      if IsOctal(b) && IsOctal(c) then Some(8 * (b as int - '0' as int) + (c as int - '0' as int)) else None
  {
    assert [b, c][..1] == [b] && [b][..0] == "";
    assert OctalValue("") == Some(0);
    assert OctalValue([b]) == if IsOctal(b) then Some(b as int - '0' as int) else None;
  }

  lemma OctalOfThree(a: char, b: char, c: char)
    ensures OctalValue([a, b, c]) ==
      if IsOctal(a) && IsOctal(b) && IsOctal(c)
      then Some(64 * (a as int - '0' as int) + 8 * (b as int - '0' as int) + (c as int - '0' as int)) else None
  {
    OctalOfTwo(a, b);
    assert [a, b, c][..2] == [a, b];
  }

  /** No option contains a comma. */
  predicate AreOptions(options: seq<string>) {
    options != [] && forall i :: 0 <= i < |options| ==> Lacks(options[i], ',')
  }

  /** A line describes the sync root exactly when it has at least four fields, does not start with a hash sign, and
      its second field is the root with its octal escapes. */
  lemma DescribesExactly(fields: seq<string>, want: string)
    requires AllWords(fields) && fields != []
    ensures Describes(Join(fields, ' '), want) <==> |fields| >= 4 && fields[0][0] != '#' && Unescaped(fields[1]) == want
  {
    hide SplitWhitespace, Unescaped;
    SplitJoin(fields, ' ');
    JoinStarts(fields, ' ');
  }

  lemma JoinStarts(parts: seq<string>, sep: char)
    requires parts != [] && parts[0] != ""
    ensures Join(parts, sep) != "" && Join(parts, sep)[0] == parts[0][0]
  {
  }

  /** It mounts by itself exactly when `noauto` is none of its options. */
  lemma JudgeExactly(fields: seq<string>, options: seq<string>, want: string)
    requires AllWords(fields) && |fields| >= 4 && AreOptions(options) && fields[3] == Join(options, ',')
    requires Describes(Join(fields, ' '), want)
    ensures Judge(Join(fields, ' '), want) == if "noauto" in options then NoAuto else Automatic(Join(fields, ' '))
  {
    hide SplitWhitespace, Describes, Split;
    SplitJoin(fields, ' ');
    SplitJoinOn(options, ',');
  }

  lemma {:induction false} SubvolumeOf(options: seq<string>, k: nat)
    requires k <= |options| && forall i :: 0 <= i < k ==> !("subvol=" <= options[i])
    requires k < |options| ==> "subvol=" <= options[k]
    ensures Subvolume(options) == if k < |options| then options[k][7..] else "/"
  {
    if k > 0 { SubvolumeOf(options[1..], k - 1); }
  }

  /** The options written: on btrfs the first subvolume named among the mounted ones or the top one, and everywhere
      neither at boot nor in its way. */
  lemma OptionsExactly(fstype: string, options: seq<string>, k: nat)
    requires AreOptions(options) && k <= |options| && forall i :: 0 <= i < k ==> !("subvol=" <= options[i])
    requires k < |options| ==> "subvol=" <= options[k]
    ensures fstype != "btrfs" ==> MountOptions(fstype, Join(options, ',')) == "noauto,nofail"
    ensures fstype == "btrfs" ==>
      MountOptions(fstype, Join(options, ',')) ==
        "subvol=" + (if k < |options| then options[k][7..] else "/") + ",noatime,noauto,nofail"
  {
    hide Subvolume;
    SplitJoinOn(options, ',');
    SubvolumeOf(options, k);
  }

  /** The line written has the device, the mount point, the file system and the options as its first fields. */
  lemma SuggestionFields(what: string, point: string, fstype: string, superOptions: string)
    requires IsWord(what) && IsWord(point) && IsWord(fstype) && IsWord(MountOptions(fstype, superOptions))
    ensures SplitWhitespace(Suggestion(what, point, fstype, superOptions))
      == [what, point, fstype, MountOptions(fstype, superOptions), "0", "0"]
  {
    hide MountOptions, SplitWhitespace, IsWord;
    var fields := [what, point, fstype, MountOptions(fstype, superOptions), "0", "0"];
    assert AllWords(fields) by { assert IsWord("0") by { ZeroIsWord(); } }
    SplitJoin(fields, ' ');
    JoinSix(what, point, fstype, MountOptions(fstype, superOptions), "0", "0");
    var line := what + " " + point + " " + fstype + " " + MountOptions(fstype, superOptions);
    assert line + " " + "0" + " " + "0" == line + " 0 0";
  }

  lemma ZeroIsWord()
    ensures IsWord("0")
  {
  }

  lemma JoinSix(a: string, b: string, c: string, d: string, e: string, f: string)
    ensures Join([a, b, c, d, e, f], ' ') == a + " " + b + " " + c + " " + d + " " + e + " " + f
  {
    assert [a, b, c, d, e, f][1..] == [b, c, d, e, f] && [b, c, d, e, f][1..] == [c, d, e, f];
    assert [c, d, e, f][1..] == [d, e, f] && [d, e, f][1..] == [e, f] && [e, f][1..] == [f];
    assert Join([e, f], ' ') == e + " " + f;
    assert Join([d, e, f], ' ') == d + " " + (e + " " + f);
    assert Join([c, d, e, f], ' ') == c + " " + (d + " " + (e + " " + f));
    assert Join([b, c, d, e, f], ' ') == b + " " + (c + " " + (d + " " + (e + " " + f)));
  }
}
