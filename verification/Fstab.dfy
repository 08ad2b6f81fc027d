/** The mount table and fstab: escapes, the entry of the sync root, and the line the installer appends. */
module Fstab {
  import opened Text

  predicate IsOctal(c: char) { '0' <= c <= '7' }

  function OctalValue(s: string): (n: Option<nat>)
  {
    if s == "" then Some(0) else
      var front := OctalValue(s[..|s| - 1]);
      if front.Some? && IsOctal(s[|s| - 1]) then Some(front.value * 8 + (s[|s| - 1] as int - '0' as int)) else None
  }

  /** `u8::from_str_radix(s, 8)`: a plus sign is accepted, a value above 255 is not. */
  function OctalByte(s: string): (n: Option<nat>)
    ensures n.Some? ==> n.value < 256
  {
    var digits := if s != "" && s[0] == '+' then s[1..] else s;
    if digits == "" then None else
      var value := OctalValue(digits);
      if value.Some? && value.value < 256 then value else None
  }

  /** An escape starts at `i`: a backslash, and three characters that read as an octal byte. */
  predicate EscapeAt(s: string, i: nat) {
    i + 3 < |s| && s[i] == '\\' && OctalByte(s[i + 1..i + 4]).Some?
  }

  function EscapedChar(s: string, i: nat): char
    requires EscapeAt(s, i)
  {
    OctalByte(s[i + 1..i + 4]).value as char
  }

  function Unescaped(s: string): (out: string)
    ensures |out| <= |s|
    decreases |s|
  {
    if s == "" then ""
    else if EscapeAt(s, 0) then [EscapedChar(s, 0)] + Unescaped(s[4..])
    else [s[0]] + Unescaped(s[1..])
  }

  /** `unescape`. */
  method Unescape(s: string) returns (out: string)
    ensures out == Unescaped(s)
  {
    out := "";
    var i := 0;
    assert s[0..] == s;
    while i < |s|
      invariant i <= |s| && out + Unescaped(s[i..]) == Unescaped(s)
    {
      assert i + 3 < |s| ==> s[i..][1..4] == s[i + 1..i + 4];
      if s[i] == '\\' && i + 3 < |s| {
        var c := OctalByte(s[i + 1..i + 4]);
        if c.Some? {
          assert s[i..][4..] == s[i + 4..];
          Assoc(out, [c.value as char], Unescaped(s[i + 4..]));
          out := out + [c.value as char];
          i := i + 4;
          continue;
        }
      }
      assert s[i..][1..] == s[i + 1..];
      Assoc(out, [s[i]], Unescaped(s[i + 1..]));
      out := out + [s[i]];
      i := i + 1;
    }
    assert s[i..] == "" && out + "" == out;
  }

  predicate HasEscape(s: string) {
    exists i :: 0 <= i < |s| && EscapeAt(s, i)
  }

  lemma EscapeShifts(s: string, i: nat)
    requires s != ""
    ensures EscapeAt(s[1..], i) <==> EscapeAt(s, i + 1)
  {
    if i + 4 < |s| {
      assert s[1..][i + 1..i + 4] == s[i + 2..i + 5];
    }
  }

  /** A text stays as it is exactly when nothing in it reads as an escape. */
  lemma {:induction false} UnescapedIsSame(s: string)
    ensures Unescaped(s) == s <==> !HasEscape(s)
  {
    hide EscapeAt;
    if s != "" {
      if EscapeAt(s, 0) {
        assert |Unescaped(s)| < |s| by { assert |s| > 3 by { EscapeIsLong(s); } }
      } else {
        UnescapedIsSame(s[1..]);
        assert HasEscape(s) <==> HasEscape(s[1..]) by {
          if HasEscape(s) {
            var i :| 0 <= i < |s| && EscapeAt(s, i);
            EscapeShifts(s, i - 1);
          }
          if HasEscape(s[1..]) {
            var i :| 0 <= i < |s[1..]| && EscapeAt(s[1..], i);
            EscapeShifts(s, i);
          }
        }
        assert s == [s[0]] + s[1..];
        assert Unescaped(s)[1..] == Unescaped(s[1..]);
      }
    }
  }

  lemma EscapeIsLong(s: string)
    requires EscapeAt(s, 0)
    ensures |s| > 3
  {
  }

  // ---- what the kernel writes ----

  predicate IsByteChar(c: char) { c < 256 as char }

  function Octal3(n: nat): (s: string)
    requires n < 256
    ensures |s| == 3 && OctalByte(s) == Some(n)
  {
    var s := [('0' as int + n / 64) as char, ('0' as int + n / 8 % 8) as char, ('0' as int + n % 8) as char];
    assert s[..2][..1][..0] == "" && s[..2][..1] == [s[0]] && s[..2] == [s[0], s[1]];
    assert OctalValue([s[0]]) == Some(n / 64) by { assert [s[0]][..0] == ""; assert OctalValue("") == Some(0); }
    assert OctalValue([s[0], s[1]]) == Some(n / 64 * 8 + n / 8 % 8) by { assert [s[0], s[1]][..1] == [s[0]]; }
    s
  }

  /** The mount table's escape of one character. */
  function KernelEscape(c: char): string
    requires IsByteChar(c)
  {
    if c in {' ', '\t', '\n', '\\'} then "\\" + Octal3(c as int) else [c]
  }

  function KernelEscaped(s: string): string
    requires forall i :: 0 <= i < |s| ==> IsByteChar(s[i])
  {
    if s == "" then "" else KernelEscape(s[0]) + KernelEscaped(s[1..])
  }

  /** Reading the mount table gives back the kernel's own names. */
  lemma {:induction false} UnescapeUndoesTheKernel(s: string)
    requires forall i :: 0 <= i < |s| ==> IsByteChar(s[i])
    ensures Unescaped(KernelEscaped(s)) == s
  {
    hide OctalByte;
    if s != "" {
      var rest := KernelEscaped(s[1..]);
      UnescapeUndoesTheKernel(s[1..]);
      var all := KernelEscape(s[0]) + rest;
      if s[0] in {' ', '\t', '\n', '\\'} {
        assert all[0] == '\\' && all[1..4] == Octal3(s[0] as int) && all[4..] == rest;
        assert EscapedChar(all, 0) == s[0];
      } else {
        assert all[0] == s[0] && all[1..] == rest;
      }
      assert s == [s[0]] + s[1..];
    }
  }

  // ---- the entry of the sync root ----

  datatype Entry = NoAuto | Automatic(line: string) | Absent

  predicate Skipped(line: string) {
    line == "" || line[0] == '#'
  }

  /** A line (already trimmed) that describes `want`. */
  predicate Describes(line: string, want: string) {
    !Skipped(line)
    && var f := SplitWhitespace(line);
      |f| >= 4 && Unescaped(f[1]) == want
  }

  function Judge(line: string, want: string): Entry
    requires Describes(line, want)
  {
    if "noauto" in Split(SplitWhitespace(line)[3], ',') then NoAuto else Automatic(line)
  }

  /** The first line that describes the sync root decides. */
  function FirstEntry(lines: seq<string>, want: string): Entry {
    if lines == [] then Absent
    else if Describes(Trim(lines[0]), want) then Judge(Trim(lines[0]), want)
    else FirstEntry(lines[1..], want)
  }

  function EntryIn(text: string, want: string): Entry {
    FirstEntry(Lines(text), want)
  }

  /** `fstab_entry`. */
  method FstabEntry(text: string, want: string) returns (entry: Entry)
    ensures entry == EntryIn(text, want)
    ensures entry == Absent <==> forall k :: 0 <= k < |Lines(text)| ==> !Describes(Trim(Lines(text)[k]), want)
    ensures entry != Absent ==>
      (exists k :: 0 <= k < |Lines(text)| && Describes(Trim(Lines(text)[k]), want)
         && entry == Judge(Trim(Lines(text)[k]), want)
         && forall j :: 0 <= j < k ==> !Describes(Trim(Lines(text)[j]), want))
  {
    hide Trim, SplitWhitespace, Unescaped, Lines, Split;
    var lines := Lines(text);
    assert lines[0..] == lines;
    for i := 0 to |lines|
      invariant forall j :: 0 <= j < i ==> !Describes(Trim(lines[j]), want)
      invariant FirstEntry(lines[i..], want) == FirstEntry(lines, want)
    {
      assert lines[i..][0] == lines[i] && lines[i..][1..] == lines[i + 1..];
      var line := Trim(lines[i]);
      if line == "" || line[0] == '#' { continue; }
      var f := SplitWhitespace(line);
      if |f| < 4 { continue; }
      var point := Unescape(f[1]);
      if point != want { continue; }
      assert Describes(Trim(Lines(text)[i]), want) && Judge(Trim(Lines(text)[i]), want) != Absent;
      if "noauto" in Split(f[3], ',') { return NoAuto; }
      return Automatic(line);
    }
    return Absent;
  }

  lemma {:induction false} FirstEntryAppend(a: seq<string>, b: seq<string>, want: string)
    ensures FirstEntry(a + b, want) == if FirstEntry(a, want) == Absent then FirstEntry(b, want) else FirstEntry(a, want)
  {
    hide Describes, Judge;
    if a == [] {
      assert a + b == b;
    } else {
      assert (a + b)[0] == a[0] && (a + b)[1..] == a[1..] + b;
      FirstEntryAppend(a[1..], b, want);
      JudgeIsFinal(Trim(a[0]), want);
    }
  }

  lemma JudgeIsFinal(line: string, want: string)
    ensures Describes(line, want) ==> Judge(line, want) != Absent
  {
  }

  // ---- the appended line ----

  /** The filesystems an installation is possible on. */
  const ALLOW_HSM := {"ext4", "btrfs", "xfs"}

  /** The first `subvol=` among comma-separated options. */
  function Subvolume(options: seq<string>): string {
    if options == [] then "/"
    else if StartsWith(options[0], "subvol=") then options[0][7..]
    else Subvolume(options[1..])
  }

  function MountOptions(fstype: string, superOptions: string): string {
    if fstype == "btrfs" then "subvol=" + Subvolume(Split(superOptions, ',')) + ",noatime,noauto,nofail" else "noauto,nofail"
  }

  function Suggestion(what: string, point: string, fstype: string, superOptions: string): string {
    what + " " + point + " " + fstype + " " + MountOptions(fstype, superOptions) + " 0 0"
  }

  const COMMENT1: string := "#" + " " + "OneDrive" + " " + "hydration" + " " + "sync" + " " + MORE
  const MORE := "root. noauto on" + " purpose: the mount" + " must not exist"
  const COMMENT2: string := "# before the helper" + " that marks it (see" + " hydrationd.service)."

  function Appended(text: string, line: string): string {
    text + (COMMENT1 + "\n" + (COMMENT2 + "\n" + (line + "\n" + "")))
  }

  predicate Newlined(text: string) {
    text == "" || text[|text| - 1] == '\n'
  }

  lemma SuggestionEnds(what: string, point: string, fstype: string, superOptions: string)
    requires IsWord(what)
    ensures var line := Suggestion(what, point, fstype, superOptions);
      |line| > 4 && line[0] == what[0] && line[|line| - 1] == '0'
  {
  }

  lemma CommentIsSkipped(line: string, want: string)
    requires line != "" && line[0] == '#'
    ensures !Describes(Trim(line), want)
  {
    hide TrimEnd;
    assert TrimStart(line) == line;
  }

  predicate OneLine(line: string) {
    line != "" && Lacks(line, '\n') && line[|line| - 1] != '\r'
  }

  lemma ThreeLines(a: string, b: string, c: string)
    requires OneLine(a) && OneLine(b) && OneLine(c)
    ensures Lines(a + "\n" + (b + "\n" + (c + "\n" + ""))) == [a, b, c]
  {
    hide Lines;
    LinesFirst(c, "");
    LinesFirst(b, c + "\n" + "");
    LinesFirst(a, b + "\n" + (c + "\n" + ""));
    NoLines();
    assert Chomp(a) == a && Chomp(b) == b && Chomp(c) == c;
    assert [c] + [] == [c] && [b] + [c] == [b, c] && [a] + [b, c] == [a, b, c];
  }

  lemma CommentShape()
    ensures OneLine(COMMENT1) && COMMENT1[0] == '#'
    ensures OneLine(COMMENT2) && COMMENT2[0] == '#'
  {
    assert COMMENT1[0] == '#' && COMMENT2[0] == '#';
    assert Lacks(COMMENT1, '\n');
    assert Lacks(COMMENT2, '\n');
  }

  lemma NoLines()
    ensures Lines("") == []
  {
  }

  /** Where the last line starts if it is not terminated, the end of the text otherwise. */
  function LineStart(text: string): (n: nat)
    ensures n <= |text| && (n == 0 || text[n - 1] == '\n')
    ensures forall i :: n <= i < |text| ==> text[i] != '\n'
  {
    if Newlined(text) then |text| else LineStart(text[..|text| - 1])
  }

  /** What follows the last newline. */
  function Unterminated(text: string): string {
    text[LineStart(text)..]
  }

  /** The line that the first line of the appended block becomes part of. */
  function Joined(text: string): string {
    Trim(Unterminated(text) + COMMENT1)
  }

  /** After appending, the first entry is that of the line the comment was joined to, if that line describes
      the sync root now, or else the one the appended line itself describes, if it does. */
  lemma AppendedEntry(text: string, line: string, want: string)
    requires EntryIn(text, want) == Absent
    requires Lacks(line, '\n') && line != "" && !IsWhite(line[0]) && !IsWhite(line[|line| - 1])
    ensures EntryIn(Appended(text, line), want)
      == if Describes(Joined(text), want) then Judge(Joined(text), want)
         else if Describes(line, want) then Judge(line, want) else Absent
  {
    assert line[|line| - 1] != '\r';
    hide EntryIn, Trim, Describes, Judge, IsWhite, Unterminated, OneLine;
    var body, last := text[..LineStart(text)], Unterminated(text);
    assert text == body + last;
    CommentShape();
    AbsentInBody(body, last, want);
    assert OneLine(line) by { IsOneLine(line); }
    JoinedBlock(body, last, COMMENT1, COMMENT2, line, want);
  }

  lemma IsOneLine(line: string)
    requires line != "" && Lacks(line, '\n') && line[|line| - 1] != '\r'
    ensures OneLine(line)
  {
  }

  lemma JoinedBlock(body: string, last: string, a: string, b: string, line: string, want: string)
    requires Newlined(body) && Lacks(last, '\n') && EntryIn(body, want) == Absent
    requires OneLine(a) && OneLine(b) && OneLine(line) && b[0] == '#'
    requires !IsWhite(line[0]) && !IsWhite(line[|line| - 1])
    ensures var joined := Trim(last + a);
      EntryIn(body + last + (a + "\n" + (b + "\n" + (line + "\n" + ""))), want)
        == if Describes(joined, want) then Judge(joined, want) else if Describes(line, want) then Judge(line, want) else Absent
  {
    hide EntryIn, Trim, Describes, Judge, IsWhite;
    assert OneLine(last + a) by { assert (last + a)[|last + a| - 1] == a[|a| - 1]; }
    BlockEntry(body, last + a, b, line, want);
    var rest := b + "\n" + (line + "\n" + "");
    assert body + last + (a + "\n" + rest) == body + (last + a + "\n" + rest);
  }

  lemma AbsentInBody(body: string, last: string, want: string)
    requires Newlined(body) && Lacks(last, '\n') && EntryIn(body + last, want) == Absent
    ensures EntryIn(body, want) == Absent
    ensures last != "" ==> !Describes(Trim(last), want)
  {
    hide Trim, Describes, Judge;
    LinesAppend(body, last);
    FirstEntryAppend(Lines(body), Lines(last), want);
    if last != "" {
      assert Lines(last) == [last];
      JudgeIsFinal(Trim(last), want);
    }
  }

  lemma UnterminatedIsAbsent(text: string, want: string)
    requires EntryIn(text, want) == Absent
    ensures Unterminated(text) != "" ==> !Describes(Trim(Unterminated(text)), want)
  {
    hide EntryIn, Describes, Trim;
    assert text == text[..LineStart(text)] + Unterminated(text);
    AbsentInBody(text[..LineStart(text)], Unterminated(text), want);
  }

  lemma BlockEntry(body: string, a: string, b: string, line: string, want: string)
    requires Newlined(body) && EntryIn(body, want) == Absent
    requires OneLine(a) && OneLine(b) && OneLine(line) && b[0] == '#'
    requires !IsWhite(line[0]) && !IsWhite(line[|line| - 1])
    ensures EntryIn(body + (a + "\n" + (b + "\n" + (line + "\n" + ""))), want)
      == if Describes(Trim(a), want) then Judge(Trim(a), want) else if Describes(line, want) then Judge(line, want) else Absent
  {
    hide Lines, Trim, Describes, Judge, IsWhite;
    var block := a + "\n" + (b + "\n" + (line + "\n" + ""));
    LinesAppend(body, block);
    ThreeLines(a, b, line);
    FirstEntryAppend(Lines(body), [a, b, line], want);
    CommentIsSkipped(b, want);
    TrimTight(line);
    assert [a, b, line][1..] == [b, line] && [b, line][1..] == [line] && [line][1..] == [];
    assert FirstEntry([], want) == Absent;
    assert FirstEntry([line], want) == if Describes(line, want) then Judge(line, want) else Absent;
    assert FirstEntry([b, line], want) == FirstEntry([line], want);
    assert FirstEntry([a, b, line], want)
      == if Describes(Trim(a), want) then Judge(Trim(a), want) else FirstEntry([b, line], want);
  }

  // ---- the line the comment is joined to ----

  predicate FieldsDescribe(f: seq<string>, want: string)
    requires AllWords(f)
  {
    |f| >= 4 && f[0][0] != '#' && Unescaped(f[1]) == want
  }

  lemma DescribesByFields(line: string, want: string)
    ensures Describes(Trim(line), want) <==> FieldsDescribe(SplitWhitespace(line), want)
  {
    hide Trim, SplitWhitespace, Unescaped;
    TrimFields(line);
  }

  /** The last word and a comment mark right after it become one. */
  predicate Glued(last: string) {
    last != "" && !IsWhite(last[|last| - 1])
  }

  /** An unterminated last line that the comment makes an entry of the sync root: it has two or three words,
      and the mount point for its second, where a comment mark glued to that word counts. */
  predicate Spoils(last: string, point: string) {
    SpoilsFields(SplitWhitespace(last), Glued(last), point)
  }

  predicate SpoilsFields(f: seq<string>, glued: bool, point: string)
    requires AllWords(f)
  {
    2 <= |f| <= 3 && f[0][0] != '#' && Unescaped(if |f| == 2 && glued then f[1] + "#" else f[1]) == point
  }

  lemma CommentWords() returns (more: seq<string>)
    ensures |COMMENT1| > 1 && COMMENT1 == "#" + COMMENT1[1..] && COMMENT1[1] == ' '
    ensures SplitWhitespace(COMMENT1) == ["#", "OneDrive", "hydration", "sync"] + more
    ensures SplitWhitespace(COMMENT1[1..]) == ["OneDrive", "hydration", "sync"] + more
  {
    hide SplitWhitespace;
    more := WordsOf("#", "OneDrive", "hydration", "sync", MORE, COMMENT1);
  }

  lemma WordsOf(a: string, b: string, c: string, d: string, rest: string, all: string) returns (more: seq<string>)
    requires IsWord(a) && IsWord(b) && IsWord(c) && IsWord(d) && |a| == 1
    requires all == a + " " + b + " " + c + " " + d + " " + rest
    ensures |all| > 1 && all == a + all[1..] && all[1] == ' '
    ensures SplitWhitespace(all) == [a, b, c, d] + more && SplitWhitespace(all[1..]) == [b, c, d] + more
  {
    hide SplitWhitespace, IsWhite;
    FourFields(a, b, c, d, rest);
    more := SplitWhitespace(rest);
    assert all[0] == a[0] && all == a + all[1..];
    HashIsInk();
    SplitWordFirst(a, all[1..]);
    var tail := SplitWhitespace(all[1..]);
    assert ([a] + tail)[1..] == tail && ([a, b, c, d] + more)[1..] == [b, c, d] + more;
  }

  lemma PlainWordIsSame(s: string)
    requires Lacks(s, '\\')
    ensures Unescaped(s) == s
  {
    hide Unescaped, OctalByte;
    UnescapedIsSame(s);
  }

  /** Of the three options the joined line can end up with, none is `noauto`. */
  lemma NotNoAuto(option: string)
    requires option in {"#", "OneDrive", "hydration"}
    ensures "noauto" !in Split(option, ',')
  {
    hide Split;
    assert |option| in {1, 8, 9} && Lacks(option, ',');
    SplitWhole(option, ',');
    assert |"noauto"| == 6;
  }

  /** The words of a line that the comment is joined to. */
  function WithComment(f: seq<string>, glued: bool, more: seq<string>): seq<string>
    requires glued ==> f != []
  {
    if glued then f[..|f| - 1] + [f[|f| - 1] + "#"] + (["OneDrive", "hydration", "sync"] + more)
    else f + (["#", "OneDrive", "hydration", "sync"] + more)
  }

  lemma CommentFields(last: string, comment: string, more: seq<string>)
    requires |comment| > 1 && comment == "#" + comment[1..] && comment[1] == ' '
    requires SplitWhitespace(comment) == ["#", "OneDrive", "hydration", "sync"] + more
    requires SplitWhitespace(comment[1..]) == ["OneDrive", "hydration", "sync"] + more
    ensures Glued(last) ==> SplitWhitespace(last) != []
    ensures SplitWhitespace(last + comment) == WithComment(SplitWhitespace(last), Glued(last), more)
  {
    hide SplitWhitespace, IsWhite, AllWords;
    HashIsInk();
    if Glued(last) {
      SplitGlued(last, '#');
      var tail := comment[1..];
      SplitSpaced(last + ['#'], tail);
      Assoc(last, ['#'], tail);
    } else {
      SplitSpaced(last, comment);
    }
  }

  lemma WithCommentDescribes(f: seq<string>, glued: bool, more: seq<string>, point: string)
    requires AllWords(f) && (glued ==> f != []) && !FieldsDescribe(f, point)
    requires AllWords(WithComment(f, glued, more))
    requires Unescaped("#") != point && Unescaped("OneDrive") != point
    ensures FieldsDescribe(WithComment(f, glued, more), point) <==> SpoilsFields(f, glued, point)
    ensures SpoilsFields(f, glued, point) ==> WithComment(f, glued, more)[3] in {"#", "OneDrive", "hydration"}
  {
    hide Unescaped, IsWord;
    var g := WithComment(f, glued, more);
    if |f| == 0 {
      assert g[1] == "OneDrive";
    } else if |f| == 1 {
      assert g[1] == if glued then "OneDrive" else "#";
    } else {
      assert g[0] == f[0] && g[1] == if |f| == 2 && glued then f[1] + "#" else f[1];
      if |f| <= 3 { assert g[3] in {"#", "OneDrive", "hydration"}; }
    }
  }

  lemma HashIsInk()
    ensures !IsWhite('#') && IsWhite(' ')
  {
  }

  /** The joined line is an entry of the sync root exactly when the last line spoils, and never a good one. */
  lemma JoinedDescribes(text: string, point: string)
    requires point != "" && point[0] == '/'
    requires Unterminated(text) != "" ==> !Describes(Trim(Unterminated(text)), point)
    ensures Describes(Joined(text), point) <==> Spoils(Unterminated(text), point)
    ensures Spoils(Unterminated(text), point) ==> Judge(Joined(text), point) == Automatic(Joined(text))
  {
    hide SplitWhitespace, IsWhite, Unescaped, Describes, Trim, Split, Unterminated, SpoilsFields, WithComment;
    var last := Unterminated(text);
    var more := CommentWords();
    CommentFields(last, COMMENT1, more);
    DescribesByFields(last, point);
    DescribesByFields(last + COMMENT1, point);
    NothingDescribed(last, point);
    PlainWordIsSame("#");
    PlainWordIsSame("OneDrive");
    WithCommentDescribes(SplitWhitespace(last), Glued(last), more, point);
    if Spoils(last, point) {
      TrimFields(last + COMMENT1);
      NotNoAuto(SplitWhitespace(last + COMMENT1)[3]);
    }
  }

  lemma NothingDescribed(last: string, point: string)
    ensures last == "" ==> !FieldsDescribe(SplitWhitespace(last), point)
  {
  }

  // ---- the fields of the line ----

  /** A point without white space is the second field. */
  lemma WordPointFields(what: string, point: string, fstype: string, opts: string)
    requires IsWord(what) && IsWord(point) && IsWord(fstype) && IsWord(opts)
    ensures SplitWhitespace(what + " " + point + " " + fstype + " " + opts + " 0 0") == [what, point, fstype, opts, "0", "0"]
  {
    hide SplitWhitespace;
    var words := [what, point, fstype, opts, "0", "0"];
    assert AllWords(words) by { assert IsWord("0"); }
    SplitJoin(words, ' ');
    JoinedFields(what, point, fstype, opts);
  }

  lemma JoinedFields(what: string, point: string, fstype: string, opts: string)
    ensures Join([what, point, fstype, opts, "0", "0"], ' ') == what + " " + point + " " + fstype + " " + opts + " 0 0"
  {
    var words := [what, point, fstype, opts, "0", "0"];
    assert words[5..] == ["0"] && words[4..] == ["0", "0"];
    assert Join(words[5..], ' ') == "0";
    assert words[4..][1..] == words[5..] && Join(words[4..], ' ') == "0 0";
    assert words[3..][1..] == words[4..] && Join(words[3..], ' ') == opts + [' '] + "0 0";
    assert words[2..][1..] == words[3..] && Join(words[2..], ' ') == fstype + [' '] + (opts + [' '] + "0 0");
    assert words[1..][1..] == words[2..] && Join(words[1..], ' ') == point + [' '] + (fstype + [' '] + (opts + [' '] + "0 0"));
    assert words[0..] == words && Join(words, ' ') == what + [' '] + (point + [' '] + (fstype + [' '] + (opts + [' '] + "0 0")));
  }

  /** A point with white space is cut at the first of it. */
  lemma CutPointField(what: string, point: string, rest: string)
    requires IsWord(what) && point != "" && !IsWhite(point[0]) && !NoWhite(point)
    ensures var f := SplitWhitespace(what + " " + point + rest);
      |f| >= 2 && |f[1]| < |point|
  {
    hide SplitWhitespace;
    var n := WordLength(point);
    assert n < |point| && n > 0;
    var w, tail := point[..n], point[n..] + rest;
    assert point == w + point[n..];
    assert IsWord(w);
    SplitWordFirst(what, " " + point + rest);
    SplitWordFirst(w, tail);
    SkipBlank(point + rest);
    assert what + " " + point + rest == what + (" " + point + rest);
    assert " " + point + rest == " " + (point + rest);
    assert point + rest == w + tail;
  }

  lemma SkipBlank(s: string)
    ensures SplitWhitespace(" " + s) == SplitWhitespace(s)
  {
    assert (" " + s)[1..] == s;
  }

  // ---- the appended line is read back ----

  lemma BareOptions()
    ensures Split("noauto,nofail", ',') == ["noauto"] + Split("nofail", ',')
  {
    hide Split;
    SplitHead("noauto", ',', "nofail");
    assert "noauto" + [','] + "nofail" == "noauto,nofail";
  }

  /** Whatever the subvolume is called, `noauto` is among the options. */
  lemma NoAutoIsThere(fstype: string, superOptions: string)
    ensures "noauto" in Split(MountOptions(fstype, superOptions), ',')
  {
    hide Split, Subvolume;
    BareOptions();
    var tail := "noauto,nofail";
    assert Split(tail, ',')[0] == "noauto";
    if fstype == "btrfs" {
      var front := "subvol=" + Subvolume(Split(superOptions, ','));
      NoAutoLater(front, tail);
      assert ",noatime,noauto,nofail" == [','] + ("noatime" + [','] + "noauto,nofail");
      Assoc(front, [','], "noatime" + [','] + tail);
    }
  }

  lemma NoAutoLater(front: string, tail: string)
    requires "noauto" in Split(tail, ',')
    ensures "noauto" in Split(front + [','] + ("noatime" + [','] + tail), ',')
  {
    hide Split;
    SplitAt(front, ',', "noatime" + [','] + tail);
    SplitAt("noatime", ',', tail);
  }

  lemma {:induction false} SubvolumeIsPlain(options: seq<string>)
    requires forall i :: 0 <= i < |options| ==> NoWhite(options[i])
    ensures NoWhite(Subvolume(options))
  {
    if options != [] && !StartsWith(options[0], "subvol=") { SubvolumeIsPlain(options[1..]); }
  }

  lemma {:induction false} PiecesArePlain(s: string)
    requires NoWhite(s)
    ensures forall i :: 0 <= i < |Split(s, ',')| ==> NoWhite(Split(s, ',')[i])
    decreases |s|
  {
    var n := IndexOf(s, ',');
    if n < |s| {
      PiecesArePlain(s[n + 1..]);
      assert NoWhite(s[..n]);
    }
  }

  lemma OptionsAreWord(fstype: string, superOptions: string)
    requires NoWhite(superOptions)
    ensures IsWord(MountOptions(fstype, superOptions))
  {
    hide Split, Subvolume;
    PiecesArePlain(superOptions);
    SubvolumeIsPlain(Split(superOptions, ','));
    assert NoWhite("subvol=") && NoWhite(",noatime,noauto,nofail") && NoWhite("noauto,nofail");
  }

  lemma SuggestionLacksNewline(what: string, point: string, fstype: string, superOptions: string)
    requires IsWord(what) && Lacks(point, '\n') && fstype in ALLOW_HSM && NoWhite(superOptions)
    ensures Lacks(Suggestion(what, point, fstype, superOptions), '\n')
  {
    OptionsAreWord(fstype, superOptions);
    var opts := MountOptions(fstype, superOptions);
    hide MountOptions;
    assert IsWhite('\n');
    assert Lacks(what, '\n') && Lacks(opts, '\n') && Lacks(fstype, '\n') && Lacks(" ", '\n') && Lacks(" 0 0", '\n');
  }

  /** A mount point that fstab can name as it stands. */
  predicate Nameable(point: string) {
    NoWhite(point) && !HasEscape(point)
  }

  lemma SuggestionDescribes(what: string, point: string, fstype: string, superOptions: string)
    requires IsWord(what) && what[0] != '#' && point != "" && point[0] == '/'
    requires fstype in ALLOW_HSM && NoWhite(superOptions)
    ensures var line := Suggestion(what, point, fstype, superOptions);
      && (Describes(line, point) <==> Nameable(point))
      && (Nameable(point) ==> Judge(line, point) == NoAuto)
  {
    hide SplitWhitespace, Unescaped, HasEscape, MountOptions, Split;
    var line, opts := Suggestion(what, point, fstype, superOptions), MountOptions(fstype, superOptions);
    SuggestionEnds(what, point, fstype, superOptions);
    OptionsAreWord(fstype, superOptions);
    assert IsWord(fstype);
    if NoWhite(point) {
      WordPointFields(what, point, fstype, opts);
      UnescapedIsSame(point);
      NoAutoIsThere(fstype, superOptions);
    } else {
      var rest := " " + fstype + " " + opts + " 0 0";
      CutPointField(what, point, rest);
      assert line == what + " " + point + rest;
    }
  }

  /** The next look at fstab finds the sync root `noauto` exactly when its mount point can be written as it
      stands (no white space and nothing that reads as an escape) and the text did not end in an unterminated
      line that the comment completes. With such a line it finds an automatic entry, otherwise nothing. */
  lemma AppendedLineReadsBack(text: string, what: string, point: string, fstype: string, superOptions: string)
    requires EntryIn(text, point) == Absent
    requires IsWord(what) && what[0] != '#' && point != "" && point[0] == '/' && Lacks(point, '\n')
    requires fstype in ALLOW_HSM && NoWhite(superOptions)
    ensures EntryIn(Appended(text, Suggestion(what, point, fstype, superOptions)), point)
      == if Spoils(Unterminated(text), point) then Automatic(Joined(text)) else if Nameable(point) then NoAuto else Absent
  {
    hide Suggestion, Describes, Judge, EntryIn, Appended, IsWhite, Unterminated, Joined, Spoils;
    SuggestionEnds(what, point, fstype, superOptions);
    ZeroIsInk();
    SuggestionLacksNewline(what, point, fstype, superOptions);
    SuggestionDescribes(what, point, fstype, superOptions);
    AppendedEntry(text, Suggestion(what, point, fstype, superOptions), point);
    UnterminatedIsAbsent(text, point);
    JoinedDescribes(text, point);
  }

  lemma ZeroIsInk()
    ensures !IsWhite('0')
  {
  }

  /** So a sync root below `/mnt/my drive` gets a line that is never found again. */
  lemma BlankInMountPoint()
    ensures EntryIn(Appended("", Suggestion("/dev/sda1", "/mnt/my drive", "ext4", "rw")), "/mnt/my drive") == Absent
  {
    hide Appended, Suggestion, EntryIn;
    var point := "/mnt/my drive";
    assert IsWhite(point[7]);
    assert EntryIn("", point) == Absent by { NothingIn(point); }
    AppendedLineReadsBack("", "/dev/sda1", point, "ext4", "rw");
  }

  lemma NothingIn(want: string)
    ensures EntryIn("", want) == Absent
  {
    NoLines();
  }

  lemma FourFields(a: string, b: string, c: string, d: string, rest: string)
    requires IsWord(a) && IsWord(b) && IsWord(c) && IsWord(d)
    ensures SplitWhitespace(a + " " + b + " " + c + " " + d + " " + rest) == [a, b, c, d] + SplitWhitespace(rest)
  {
    hide SplitWhitespace, IsWord;
    var r3 := d + (" " + rest);
    var r2 := c + (" " + r3);
    var r1 := b + (" " + r2);
    assert a + " " + b + " " + c + " " + d + " " + rest == a + (" " + r1);
    SplitWordFirst(a, " " + r1);
    SplitWordFirst(b, " " + r2);
    SplitWordFirst(c, " " + r3);
    SplitWordFirst(d, " " + rest);
    SkipBlank(r1);
    SkipBlank(r2);
    SkipBlank(r3);
    SkipBlank(rest);
  }

  lemma ThreeFields(a: string, b: string, c: string)
    requires IsWord(a) && IsWord(b) && IsWord(c)
    ensures SplitWhitespace(a + " " + b + " " + c) == [a, b, c]
  {
    SplitJoin([a, b, c], ' ');
    assert [a, b, c][1..] == [b, c] && [b, c][1..] == [c];
    assert Join([b, c], ' ') == b + [' '] + c;
    assert Join([a, b, c], ' ') == a + [' '] + (b + [' '] + c);
    assert a + " " + b + " " + c == a + [' '] + (b + [' '] + c);
  }

  lemma UnterminatedIs(body: string, last: string)
    requires Newlined(body) && Lacks(last, '\n')
    ensures Unterminated(body + last) == last
  {
    hide LineStart;
    var text, n := body + last, LineStart(body + last);
    assert text[|body|..] == last;
    assert forall i :: 0 <= i < |last| ==> text[|body| + i] == last[i];
  }

  /** An unterminated last line that named the sync root without options takes the comment in and becomes an
      entry that refuses the deployment, whatever stands before it. */
  lemma UnterminatedLineSpoils(body: string, what: string, point: string, fstype: string, row: string, superOptions: string)
    requires Newlined(body) && EntryIn(body, point) == Absent && point != "" && point[0] == '/'
    requires IsWord(what) && what[0] != '#' && IsWord(point) && Nameable(point) && IsWord(fstype)
    requires row in ALLOW_HSM && NoWhite(superOptions)
    ensures var text, line := body + (what + " " + point + " " + fstype), Suggestion(what, point, row, superOptions);
      EntryIn(text, point) == Absent && EntryIn(Appended(text, line), point).Automatic?
  {
    var last := what + " " + point + " " + fstype;
    hide SplitWhitespace, Unescaped, HasEscape, EntryIn, Appended, Suggestion, Unterminated, Describes, IsWhite, Joined;
    ThreeFields(what, point, fstype);
    UnescapedIsSame(point);
    WordsLackNewline(what, point, fstype);
    UnterminatedIs(body, last);
    DescribesByFields(last, point);
    AbsentBefore(body, last, point);
    AppendedLineReadsBack(body + last, what, point, row, superOptions);
  }

  lemma WordsLackNewline(a: string, b: string, c: string)
    requires IsWord(a) && IsWord(b) && IsWord(c)
    ensures Lacks(a + " " + b + " " + c, '\n') && Lacks(b, '\n')
  {
    assert IsWhite('\n');
  }

  lemma AbsentBefore(body: string, last: string, want: string)
    requires Newlined(body) && Lacks(last, '\n') && last != "" && EntryIn(body, want) == Absent && !Describes(Trim(last), want)
    ensures EntryIn(body + last, want) == Absent
  {
    hide Trim, Describes, Judge;
    LinesAppend(body, last);
    FirstEntryAppend(Lines(body), Lines(last), want);
    assert Lines(last) == [last] && [last][1..] == [];
  }
}
