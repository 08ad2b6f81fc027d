/** The scan of the generated helper units for directives that would give them a mount namespace. */
module UnitScan {
  import opened Text

  const MEASURED := ["PrivateTmp", "PrivateNetwork", "ProtectKernelTunables", "ProtectControlGroups", "ProtectKernelModules"]

  const DOCUMENTED := [
    "PrivateMounts", "PrivateDevices", "PrivateUsers", "ProtectHome", "ProtectSystem", "ProtectProc", "ProcSubset",
    "ProtectKernelLogs", "ReadWritePaths", "ReadOnlyPaths", "InaccessiblePaths", "ExecPaths", "NoExecPaths", "BindPaths",
    "BindReadOnlyPaths", "TemporaryFileSystem", "MountAPIVFS", "MountFlags", "RootDirectory", "RootImage"]

  function Lower(c: char): char {
    if 'A' <= c <= 'Z' then (c as int + 32) as char else c
  }

  /** `eq_ignore_ascii_case`. */
  predicate SameIgnoringCase(a: string, b: string) {
    |a| == |b| && forall i :: 0 <= i < |a| ==> Lower(a[i]) == Lower(b[i])
  }

  predicate Forbidden(key: string) {
    exists i :: 0 <= i < |MEASURED + DOCUMENTED| && SameIgnoringCase((MEASURED + DOCUMENTED)[i], key)
  }

  /** The key a line assigns, if it is an assignment and no comment. */
  function KeyOf(raw: string): Option<string> {
    var line := TrimStart(raw);
    if line == "" || line[0] == '#' || line[0] == ';' || SplitOnce(line, '=').None? then None
    else Some(Trim(SplitOnce(line, '=').value.0))
  }

  predicate Hit(raw: string) {
    KeyOf(raw).Some? && Forbidden(KeyOf(raw).value)
  }

  /** `namespace_directives`: line numbers, from one, and keys. */
  method NamespaceDirectives(text: string) returns (hits: seq<(nat, string)>)
    ensures forall i, j :: 0 <= i < j < |hits| ==> hits[i].0 < hits[j].0
    ensures forall n, key :: (n, key) in hits <==>
      1 <= n <= |Lines(text)| && Hit(Lines(text)[n - 1]) && KeyOf(Lines(text)[n - 1]) == Some(key)
    ensures hits == [] <==> forall k :: 0 <= k < |Lines(text)| ==> !Hit(Lines(text)[k])
  {
    hide Lines, KeyOf, Forbidden;
    var lines := Lines(text);
    hits := [];
    for i := 0 to |lines|
      invariant forall a, b :: 0 <= a < b < |hits| ==> hits[a].0 < hits[b].0
      invariant forall a :: 0 <= a < |hits| ==> hits[a].0 <= i
      invariant forall n, key :: (n, key) in hits <==> 1 <= n <= i && Hit(lines[n - 1]) && KeyOf(lines[n - 1]) == Some(key)
      invariant hits == [] <==> forall k :: 0 <= k < i ==> !Hit(lines[k])
    {
      var key := ReadKey(lines[i]);
      if key.Some? && Forbidden(key.value) {
        hits := hits + [(i + 1, key.value)];
      }
    }
  }

  /** The steps of the loop body before the comparison. */
  method ReadKey(raw: string) returns (key: Option<string>)
    ensures key == KeyOf(raw)
  {
    hide TrimStart, Trim, SplitOnce;
    var line := TrimStart(raw);
    if line == "" || line[0] == '#' || line[0] == ';' { return None; }
    var assignment := SplitOnce(line, '=');
    if assignment.None? { return None; }
    return Some(Trim(assignment.value.0));
  }

  predicate Blank(s: string) {
    forall i :: 0 <= i < |s| ==> IsWhite(s[i])
  }

  lemma {:induction false} TrimStartBlank(blank: string, s: string)
    requires Blank(blank) && s != "" && !IsWhite(s[0])
    ensures TrimStart(blank + s) == s
  {
    hide IsWhite;
    if blank == "" {
      assert blank + s == s;
    } else {
      assert (blank + s)[0] == blank[0] && (blank + s)[1..] == blank[1..] + s;
      TrimStartBlank(blank[1..], s);
    }
  }

  lemma {:induction false} TrimEndBlank(s: string, blank: string)
    requires Blank(blank) && s != "" && !IsWhite(s[|s| - 1])
    ensures TrimEnd(s + blank) == s
    decreases |blank|
  {
    hide IsWhite;
    if blank == "" {
      assert s + blank == s;
    } else {
      var n := |blank| - 1;
      assert (s + blank)[|s + blank| - 1] == blank[n] && (s + blank)[..|s + blank| - 1] == s + blank[..n];
      TrimEndBlank(s, blank[..n]);
    }
  }

  predicate IsLetter(c: char) {
    'A' <= c <= 'Z' || 'a' <= c <= 'z'
  }

  predicate IsName(s: string) {
    s != "" && forall i :: 0 <= i < |s| ==> IsLetter(s[i])
  }

  /** Blanks around the key change nothing. */
  lemma KeyIsSeen(before: string, key: string, after: string, value: string)
    requires Blank(before) && IsName(key) && Blank(after)
    ensures KeyOf(before + (key + after + "=" + value)) == Some(key)
  {
    var line := key + after + "=" + value;
    LettersAreInk(key);
    assert line[0] == key[0];
    TrimStartBlank(before, line);
    assert Lacks(key + after, '=');
    SplitOnceAt(key + after, '=', value);
    assert (key + after)[0] == key[0];
    assert TrimStart(key + after) == key + after;
    TrimEndBlank(key, after);
  }

  lemma LettersAreInk(key: string)
    requires IsName(key)
    ensures forall i :: 0 <= i < |key| ==> !IsWhite(key[i]) && key[i] != '#' && key[i] != ';' && key[i] != '='
  {
  }

  /** No spelling of a forbidden directive gets past: any letter case, any blanks around it, any value, on any
      line of the text, however the text ends. */
  lemma DirectiveIsCaught(text: string, before: string, key: string, after: string, value: string, more: string)
    requires text == "" || text[|text| - 1] == '\n'
    requires Blank(before) && Lacks(before, '\n') && IsName(key) && Forbidden(key)
    requires Blank(after) && Lacks(after, '\n') && Lacks(value, '\n')
    ensures var lines, k := Lines(text + (before + (key + after + "=" + value) + "\n" + more)), |Lines(text)|;
      k < |lines| && Hit(lines[k])
  {
    hide Forbidden;
    var line := before + (key + after + "=" + value);
    KeyIsSeen(before, key, after, value);
    assert Lacks(line, '\n');
    LinesAppend(text, line + "\n" + more);
    LinesFirst(line, more);
    ChompKeepsKey(before, key, after, value);
  }

  lemma ChompKeepsKey(before: string, key: string, after: string, value: string)
    requires Blank(before) && IsName(key) && Blank(after)
    ensures KeyOf(Chomp(before + (key + after + "=" + value))) == Some(key)
  {
    hide KeyOf;
    var line := before + (key + after + "=" + value);
    if value != "" && value[|value| - 1] == '\r' {
      var shorter := value[..|value| - 1];
      assert line[|line| - 1] == '\r' && line[..|line| - 1] == before + (key + after + "=" + shorter);
      KeyIsSeen(before, key, after, shorter);
    } else {
      assert line[|line| - 1] == if value == "" then '=' else value[|value| - 1];
      KeyIsSeen(before, key, after, value);
    }
  }

  // ---- what is a hit ----

  /** The directives that were measured, and those that are documented, to give a unit its own mount namespace. */
  predicate Namespacing(d: string) {
    || d in {"PrivateTmp", "PrivateNetwork", "ProtectKernelTunables", "ProtectControlGroups", "ProtectKernelModules"}
    || d in {"PrivateMounts", "PrivateDevices", "PrivateUsers", "ProtectHome", "ProtectSystem", "ProtectProc", "ProcSubset"}
    || d in {"ProtectKernelLogs", "ReadWritePaths", "ReadOnlyPaths", "InaccessiblePaths", "ExecPaths", "NoExecPaths"}
    || d in {"BindPaths", "BindReadOnlyPaths", "TemporaryFileSystem", "MountAPIVFS", "MountFlags", "RootDirectory", "RootImage"}
  }

  lemma ListedExactly(d: string)
    ensures d in MEASURED + DOCUMENTED <==> Namespacing(d)
  {
    assert d in MEASURED + DOCUMENTED <==> d in MEASURED || d in DOCUMENTED;
  }

  /** An assignment is a hit exactly when its key is one of them in some letter case. */
  lemma HitExactly(before: string, key: string, after: string, value: string)
    requires Blank(before) && IsName(key) && Blank(after)
    ensures Hit(before + (key + after + "=" + value)) <==> exists d :: Namespacing(d) && SameIgnoringCase(d, key)
  {
    hide Namespacing, SameIgnoringCase, KeyOf;
    KeyIsSeen(before, key, after, value);
    var all := MEASURED + DOCUMENTED;
    hide MEASURED, DOCUMENTED;
    if Forbidden(key) {
      var i :| 0 <= i < |all| && SameIgnoringCase(all[i], key);
      ListedExactly(all[i]);
    }
    if d :| Namespacing(d) && SameIgnoringCase(d, key) {
      ListedExactly(d);
      var i :| 0 <= i < |all| && all[i] == d;
    }
  }

  /** A comment is none, whatever it mentions, nor is a line without an equals sign. */
  lemma NoHit(before: string, rest: string)
    requires Blank(before)
    ensures rest != "" && rest[0] in {'#', ';'} ==> !Hit(before + rest)
    ensures Lacks(rest, '=') && rest != "" && !IsWhite(rest[0]) ==> !Hit(before + rest)
  {
    hide IsWhite;
    if rest != "" && rest[0] in {'#', ';'} {
      assert !IsWhite('#') && !IsWhite(';') by { MarksAreInk(); }
      TrimStartBlank(before, rest);
    } else if rest != "" && !IsWhite(rest[0]) {
      TrimStartBlank(before, rest);
    }
  }

  lemma MarksAreInk()
    ensures !IsWhite('#') && !IsWhite(';')
  {
  }
}
