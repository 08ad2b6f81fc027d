/** The `key=value` lines of the daemon's two `watch` streams, as the state service reads them. */
module StateLine {
  import opened Text
  import opened DaemonTypes

  const UPLOADING := " uploading="

  // ---- the counter line ----

  datatype Key = Unsent | Excluded | Exposures | Downloading | Scanning

  type Setting = Option<(Key, nat)>

  function KeyName(key: Key): string {
    match key
    case Unsent => "unsent"
    case Excluded => "excluded"
    case Exposures => "exposures"
    case Downloading => "downloading"
    case Scanning => "scanning"
  }

  function KeyOf(name: string): Option<Key> {
    if name == "unsent" then Some(Unsent)
    else if name == "excluded" then Some(Excluded)
    else if name == "exposures" then Some(Exposures)
    else if name == "downloading" then Some(Downloading)
    else if name == "scanning" then Some(Scanning)
    else None
  }

  /** What a token assigns: `key=<u64>` with a known key. Everything else is skipped. */
  function Assignment(token: string): Setting {
    match SplitOnce(token, '=')
    case None => None
    case Some((name, text)) =>
      var n, key := ParseU64(text), KeyOf(name);
      if n.Some? && key.Some? then Some((key.value, n.value)) else None
  }

  function SetKey(key: Key, n: nat, s: DaemonState): DaemonState {
    match key
    case Unsent => s.(unsent := n)
    case Excluded => s.(excluded := n)
    case Exposures => s.(exposures := n)
    case Downloading => s.(downloading := n)
    case Scanning => s.(indexing := n != 0)
  }

  /** What each token assigns, read before any of it is applied. */
  function Assignments(tokens: seq<string>): (settings: seq<Setting>)
    ensures |settings| == |tokens|
    ensures forall i :: 0 <= i < |tokens| ==> settings[i] == Assignment(tokens[i])
  {
    seq(|tokens|, i requires 0 <= i < |tokens| => Assignment(tokens[i]))
  }

  function ApplyAll(settings: seq<Setting>, s: DaemonState): DaemonState {
    if settings == [] then s else
      var before := ApplyAll(settings[..|settings| - 1], s);
      match settings[|settings| - 1]
      case None => before
      case Some((key, n)) => SetKey(key, n, before)
  }

  predicate Recognizes(settings: seq<Setting>) {
    exists i :: 0 <= i < |settings| && settings[i].Some?
  }

  predicate OccursAt(s: string, pattern: string, i: int) {
    0 <= i && i + |pattern| <= |s| && s[i..i + |pattern|] == pattern
  }

  /** Where `rsplit_once` splits: the last occurrence at or before `from`, or -1. */
  function LastOccurrence(s: string, pattern: string, from: int): (r: int)
    requires -1 <= from <= |s|
    ensures -1 <= r <= from
    ensures r >= 0 ==> OccursAt(s, pattern, r)
    ensures forall i :: r < i <= from ==> !OccursAt(s, pattern, i)
    decreases from
  {
    if from < 0 then -1
    else if OccursAt(s, pattern, from) then from
    else LastOccurrence(s, pattern, from - 1)
  }

  /** The part of the line read as numbers, and the upload list if the line carries one. */
  function SplitLine(line: string): (string, Option<string>) {
    var r := LastOccurrence(line, UPLOADING, |line|);
    if r < 0 then (line, None) else (line[..r], Some(line[r + |UPLOADING|..]))
  }

  function DecodeAll(parts: seq<string>, decode: string -> string): (paths: seq<string>)
    ensures |paths| == |parts|
    ensures forall i :: 0 <= i < |parts| ==> paths[i] == decode(parts[i])
  {
    if parts == [] then [] else [decode(parts[0])] + DecodeAll(parts[1..], decode)
  }

  function UploadList(value: string, decode: string -> string): seq<string> {
    if value == "" then [] else DecodeAll(Split(value, ' '), decode)
  }

  /** Fold one line into a state. `decode` is the framework's path escape. */
  function ApplyLine(line: string, s: DaemonState, decode: string -> string): DaemonState {
    var (head, uploading) := SplitLine(line);
    var counted := ApplyAll(Assignments(SplitWhitespace(head)), s);
    if uploading.Some? then counted.(uploading := UploadList(uploading.value, decode)) else counted
  }

  /** Whether the line carries a key this build knows. */
  predicate IsStateLine(line: string) {
    var (head, uploading) := SplitLine(line);
    Recognizes(Assignments(SplitWhitespace(head))) || uploading.Some?
  }

  /** The token loop of `apply_state_line`. */
  method ApplyEach(tokens: seq<string>, state: DaemonState) returns (next: DaemonState, recognized: bool)
    ensures next == ApplyAll(Assignments(tokens), state)
    ensures recognized == Recognizes(Assignments(tokens))
  {
    hide Assignment;
    next, recognized := state, false;
    ghost var settings: seq<Setting> := Assignments(tokens);
    for i := 0 to |tokens|
      invariant next == ApplyAll(settings[..i], state)
      invariant recognized == Recognizes(settings[..i])
    {
      assert settings[..i + 1][..i] == settings[..i] && settings[..i + 1][i] == settings[i];
      assert forall j: nat :: j < i ==> settings[..i + 1][j] == settings[..i][j];
      match Assignment(tokens[i]) {
        case None =>
        case Some((key, n)) =>
          next := SetKey(key, n, next);
          recognized := true;
      }
    }
    assert settings[..|tokens|] == settings;
  }

  /** `apply_state_line`: the counters, then the upload list when the line carries one. */
  method ApplyStateLine(line: string, state: DaemonState, decode: string -> string)
    returns (next: DaemonState, recognized: bool)
    ensures next == ApplyLine(line, state, decode)
    ensures recognized == IsStateLine(line)
  {
    var (head, uploading) := SplitLine(line);
    var tokens := SplitWhitespace(head);
    next, recognized := ApplyEach(tokens, state);
    if uploading.Some? {
      next := next.(uploading := UploadList(uploading.value, decode));
      recognized := true;
    }
  }

  // ---- what a line does to a state, without saying in which order ----

  /** The last number the tokens assign to `key`. */
  function LastAssigned(settings: seq<Setting>, key: Key): Option<nat> {
    if settings == [] then None else
      var a := settings[|settings| - 1];
      if a.Some? && a.value.0 == key then Some(a.value.1) else LastAssigned(settings[..|settings| - 1], key)
  }

  /** The number a state holds under a key. */
  function Held(s: DaemonState, key: Key): nat {
    match key
    case Unsent => s.unsent
    case Excluded => s.excluded
    case Exposures => s.exposures
    case Downloading => s.downloading
    case Scanning => if s.indexing then 1 else 0
  }

  /** Each counter takes the last value settings to its key and otherwise keeps its own; the flag
      is "not zero"; nothing else moves. */
  lemma {:induction false} StateByKey(settings: seq<Setting>, s: DaemonState, key: Key)
    ensures var t, n := ApplyAll(settings, s), LastAssigned(settings, key);
      && t.running == s.running && t.uploading == s.uploading
      && (n.None? ==> Held(t, key) == Held(s, key))
      && (n.Some? ==> Held(t, key) == if key == Scanning && n.value != 0 then 1 else n.value)
  {
    if settings != [] {
      StateByKey(settings[..|settings| - 1], s, key);
    }
  }

  lemma {:induction false} SkippedChangesNothing(before: seq<Setting>, after: seq<Setting>, s: DaemonState)
    ensures ApplyAll(before + [None] + after, s) == ApplyAll(before + after, s)
  {
    if after == [] {
      assert (before + [None] + after)[..|before|] == before && before + after == before;
    } else {
      var most := after[..|after| - 1];
      assert (before + [None] + after)[..|before| + |after|] == before + [None] + most;
      assert (before + after)[..|before| + |after| - 1] == before + most;
      SkippedChangesNothing(before, most, s);
    }
  }

  lemma AssignmentsAppend(a: seq<string>, b: seq<string>)
    ensures Assignments(a + b) == Assignments(a) + Assignments(b)
  {
    hide Assignment;
  }

  /** A token this build does not know can stand anywhere among the others. */
  lemma UnknownTokenChangesNothing(before: seq<string>, token: string, after: seq<string>, s: DaemonState)
    requires Assignment(token).None?
    ensures ApplyAll(Assignments(before + [token] + after), s) == ApplyAll(Assignments(before + after), s)
  {
    hide Assignment, ApplyAll;
    AssignmentsAppend(before, after);
    AssignmentsAppend(before + [token], after);
    AssignmentsAppend(before, [token]);
    assert Assignments([token]) == [None];
    SkippedChangesNothing(Assignments(before), Assignments(after), s);
  }

  // ---- the words of the protocol ----

  /** The five tokens of the surface's contract, with any 64-bit number. */
  lemma TokenWords(n: nat)
    requires n < U64_LIMIT
    ensures Assignment("unsent=" + Decimal(n)) == Some((Unsent, n))
    ensures Assignment("excluded=" + Decimal(n)) == Some((Excluded, n))
    ensures Assignment("exposures=" + Decimal(n)) == Some((Exposures, n))
    ensures Assignment("downloading=" + Decimal(n)) == Some((Downloading, n))
    ensures Assignment("scanning=" + Decimal(n)) == Some((Scanning, n))
  {
    hide Assignment;
    PairIsAssignment(Unsent, n);
    PairIsAssignment(Excluded, n);
    PairIsAssignment(Exposures, n);
    PairIsAssignment(Downloading, n);
    PairIsAssignment(Scanning, n);
    assert "unsent=" == "unsent" + ['='] && "excluded=" == "excluded" + ['='] && "exposures=" == "exposures" + ['='];
    assert "downloading=" == "downloading" + ['='] && "scanning=" == "scanning" + ['='];
  }

  /** A line carries a key this build knows exactly when it has an upload list anywhere, or a token that assigns. */
  lemma StateLineExactly(line: string)
    ensures IsStateLine(line) <==>
      || (exists o :: OccursAt(line, " uploading=", o))
      || (exists i :: 0 <= i < |SplitWhitespace(line)| && Assignment(SplitWhitespace(line)[i]).Some?)
  {
    hide Assignment, SplitWhitespace;
    var r := LastOccurrence(line, UPLOADING, |line|);
    if o :| OccursAt(line, " uploading=", o) { assert r >= o; }
  }

  // ---- the round trip ----

  function Pair(key: string, n: nat): string {
    key + ['='] + Decimal(n)
  }

  function HeadPairs(s: DaemonState): seq<(Key, nat)> {
    [(Unsent, s.unsent), (Excluded, s.excluded), (Exposures, s.exposures),
     (Downloading, s.downloading), (Scanning, Held(s, Scanning))]
  }

  function TokensOf(pairs: seq<(Key, nat)>): (tokens: seq<string>)
    ensures |tokens| == |pairs|
    ensures forall i :: 0 <= i < |pairs| ==> tokens[i] == Pair(KeyName(pairs[i].0), pairs[i].1)
  {
    seq(|pairs|, i requires 0 <= i < |pairs| => Pair(KeyName(pairs[i].0), pairs[i].1))
  }

  /** The full line the daemon writes, in the order the surface's contract fixes: `uploading` last. */
  function PrintLine(s: DaemonState, escaped: seq<string>): string {
    Join(TokensOf(HeadPairs(s)), ' ') + UPLOADING + Join(escaped, ' ')
  }

  predicate Counters64(s: DaemonState) {
    s.unsent < U64_LIMIT && s.excluded < U64_LIMIT && s.exposures < U64_LIMIT && s.downloading < U64_LIMIT
  }

  /** `escaped` is the path list under an escape that leaves no white space and can be undone. */
  ghost predicate Escapes(paths: seq<string>, escaped: seq<string>, decode: string -> string) {
    && |escaped| == |paths|
    && forall i :: 0 <= i < |paths| ==> NoWhite(escaped[i]) && decode(escaped[i]) == paths[i]
  }

  /** No list of one empty escape, and no later path that itself looks like the key. */
  predicate ReadsBack(escaped: seq<string>) {
    && escaped != [""]
    && forall i :: 1 <= i < |escaped| ==> !StartsWith(escaped[i], "uploading=")
  }

  lemma NamesAreKeys(key: Key)
    ensures KeyOf(KeyName(key)) == Some(key)
    ensures IsWord(KeyName(key)) && Lacks(KeyName(key), '=')
  {
  }

  lemma PairIsAssignment(key: Key, n: nat)
    requires n < U64_LIMIT
    ensures IsWord(Pair(KeyName(key), n)) && Assignment(Pair(KeyName(key), n)) == Some((key, n))
  {
    NamesAreKeys(key);
    var name := KeyName(key);
    SplitOnceAt(name, '=', Decimal(n));
    ParseDecimal(n);
    var token := Pair(name, n);
    forall i | 0 <= i < |token| ensures !IsWhite(token[i]) {
      if i > |name| { assert token[i] == Decimal(n)[i - |name| - 1]; }
    }
  }

  lemma TokensReadBack(pairs: seq<(Key, nat)>)
    requires forall i :: 0 <= i < |pairs| ==> pairs[i].1 < U64_LIMIT
    ensures AllWords(TokensOf(pairs))
    ensures Assignments(TokensOf(pairs)) == seq(|pairs|, i requires 0 <= i < |pairs| => Some(pairs[i]))
  {
    forall i | 0 <= i < |pairs|
      ensures IsWord(TokensOf(pairs)[i]) && Assignment(TokensOf(pairs)[i]) == Some(pairs[i])
    {
      PairIsAssignment(pairs[i].0, pairs[i].1);
    }
  }

  lemma ApplyLast(settings: seq<Setting>, key: Key, n: nat, s: DaemonState)
    ensures ApplyAll(settings + [Some((key, n))], s) == SetKey(key, n, ApplyAll(settings, s))
  {
    assert (settings + [Some((key, n))])[..|settings|] == settings;
  }

  lemma HeadReadsBack(s: DaemonState, before: DaemonState)
    requires Counters64(s)
    ensures AllWords(TokensOf(HeadPairs(s)))
    ensures Recognizes(Assignments(TokensOf(HeadPairs(s))))
    ensures ApplyAll(Assignments(TokensOf(HeadPairs(s))), before)
         == s.(running := before.running, uploading := before.uploading)
  {
    hide Assignment, Pair;
    var pairs := HeadPairs(s);
    TokensReadBack(pairs);
    var t := Assignments(TokensOf(pairs));
    assert t[0].Some?;
    assert t == [Some(pairs[0]), Some(pairs[1]), Some(pairs[2]), Some(pairs[3]), Some(pairs[4])];
    FiveApplied(s, before);
  }

  lemma FiveApplied(s: DaemonState, before: DaemonState)
    ensures ApplyAll([Some((Unsent, s.unsent)), Some((Excluded, s.excluded)), Some((Exposures, s.exposures)),
                      Some((Downloading, s.downloading)), Some((Scanning, Held(s, Scanning)))], before)
         == s.(running := before.running, uploading := before.uploading)
  {
    var none: seq<Setting> := [];
    var one: seq<Setting> := [Some((Unsent, s.unsent))];
    var two := one + [Some((Excluded, s.excluded))];
    var three := two + [Some((Exposures, s.exposures))];
    var four := three + [Some((Downloading, s.downloading))];
    assert ApplyAll(none, before) == before && none + one == one;
    hide ApplyAll;
    ApplyLast(none, Unsent, s.unsent, before);
    ApplyLast(one, Excluded, s.excluded, before);
    ApplyLast(two, Exposures, s.exposures, before);
    ApplyLast(three, Downloading, s.downloading, before);
    ApplyLast(four, Scanning, Held(s, Scanning), before);
    assert four + [Some((Scanning, Held(s, Scanning)))]
      == [Some((Unsent, s.unsent)), Some((Excluded, s.excluded)), Some((Exposures, s.exposures)),
          Some((Downloading, s.downloading)), Some((Scanning, Held(s, Scanning)))];
  }

  /** The key can be found inside a list exactly where a later path starts with it. */
  lemma {:induction false} KeyInsideList(escaped: seq<string>, o: int)
    requires forall i :: 0 <= i < |escaped| ==> NoWhite(escaped[i])
    requires OccursAt(Join(escaped, ' '), UPLOADING, o)
    ensures exists i :: 1 <= i < |escaped| && StartsWith(escaped[i], "uploading=")
  {
    var value := Join(escaped, ' ');
    assert value[o..o + 11][0] == value[o] == ' ';
    assert |escaped| > 1;
    var first, rest := escaped[0], Join(escaped[1..], ' ');
    assert value == first + [' '] + rest;
    hide Join;
    assert forall i :: 0 <= i < |first| ==> value[i] == first[i] != ' ';
    if o == |first| {
      assert rest[..10] == UPLOADING[1..] == "uploading=";
      StartOfJoin(escaped[1..]);
      assert StartsWith(escaped[1], "uploading=");
    } else {
      KeyInsideList(escaped[1..], o - |first| - 1);
      var i :| 1 <= i < |escaped[1..]| && StartsWith(escaped[1..][i], "uploading=");
      assert escaped[i + 1] == escaped[1..][i];
    }
  }

  lemma StartOfJoin(parts: seq<string>)
    requires parts != [] && "uploading=" <= Join(parts, ' ')
    ensures "uploading=" <= parts[0]
  {
    var value := Join(parts, ' ');
    assert forall i :: 0 <= i < 10 ==> value[i] == "uploading="[i] && value[i] != ' ';
    assert |parts| > 1 ==> value[|parts[0]|] == ' ';
  }

  lemma {:induction false} ListHoldsKey(escaped: seq<string>, i: nat)
    requires 1 <= i < |escaped| && StartsWith(escaped[i], "uploading=")
    ensures exists o :: OccursAt(Join(escaped, ' '), UPLOADING, o)
  {
    var first, rest := escaped[0], Join(escaped[1..], ' ');
    var value := Join(escaped, ' ');
    if i == 1 {
      assert escaped[1] <= rest;
      assert value[|first|..|first| + 11] == [' '] + rest[..10];
      assert OccursAt(value, UPLOADING, |first|);
    } else {
      assert escaped[1..][i - 1] == escaped[i];
      ListHoldsKey(escaped[1..], i - 1);
      var o :| OccursAt(rest, UPLOADING, o);
      assert value[o + |first| + 1..o + |first| + 12] == rest[o..o + 11];
      assert OccursAt(value, UPLOADING, o + |first| + 1);
    }
  }

  /** Where the printed line is split. */
  lemma SplitOfPrinted(head: string, value: string)
    requires forall o :: !OccursAt(value, UPLOADING, o)
    ensures SplitLine(head + UPLOADING + value) == (head, Some(value))
  {
    var line := head + UPLOADING + value;
    assert line[|head|..|head| + 11] == UPLOADING;
    assert OccursAt(line, UPLOADING, |head|);
    assert forall i :: 1 <= i < 11 ==> UPLOADING[i] != ' ';
    forall r | |head| < r && r + 11 <= |line|
      ensures !OccursAt(line, UPLOADING, r)
    {
      assert line[r..r + 11][0] == line[r];
      if r < |head| + 11 {
        assert line[r] == UPLOADING[r - |head|];
      } else {
        assert line[r..r + 11] == value[r - |head| - 11..r - |head|];
        assert !OccursAt(value, UPLOADING, r - |head| - 11);
      }
    }
    assert line[..|head|] == head && line[|head| + 11..] == value;
  }

  /** Folding the printed line of any state into any earlier state restores every printed field
      and leaves the running flag, which is not printed, alone. */
  lemma StateLineRoundTrip(s: DaemonState, escaped: seq<string>, before: DaemonState, decode: string -> string)
    requires Counters64(s) && Escapes(s.uploading, escaped, decode) && ReadsBack(escaped)
    ensures IsStateLine(PrintLine(s, escaped))
    ensures ApplyLine(PrintLine(s, escaped), before, decode) == s.(running := before.running)
  {
    hide HeadPairs, TokensOf, Join, Split, SplitWhitespace, ApplyAll, Assignments, UploadList, LastOccurrence;
    var head, value := Join(TokensOf(HeadPairs(s)), ' '), Join(escaped, ' ');
    forall o ensures !OccursAt(value, UPLOADING, o) {
      if OccursAt(value, UPLOADING, o) { KeyInsideList(escaped, o); }
    }
    SplitOfPrinted(head, value);
    HeadReadsBack(s, before);
    SplitJoin(TokensOf(HeadPairs(s)), ' ');
    ListReadsBack(s.uploading, escaped, decode);
  }

  lemma ListReadsBack(paths: seq<string>, escaped: seq<string>, decode: string -> string)
    requires Escapes(paths, escaped, decode) && escaped != [""]
    ensures UploadList(Join(escaped, ' '), decode) == paths
  {
    hide Split;
    var value := Join(escaped, ' ');
    if escaped == [] {
      assert UploadList(value, decode) == [] == paths;
    } else {
      assert value != "" by { if |escaped| > 1 { assert |value| > 0; } }
      forall i | 0 <= i < |escaped| ensures Lacks(escaped[i], ' ') {}
      SplitJoinOn(escaped, ' ');
      assert UploadList(value, decode) == paths;
    }
  }

  function Spaces(s: string): nat {
    if s == "" then 0 else (if s[0] == ' ' then 1 else 0) + Spaces(s[1..])
  }

  lemma {:induction false} SpacesAdd(a: string, b: string)
    ensures Spaces(a + b) == Spaces(a) + Spaces(b)
  {
    if a == "" { assert a + b == b; } else {
      assert (a + b)[1..] == a[1..] + b;
      SpacesAdd(a[1..], b);
    }
  }

  lemma {:induction false} NoSpaces(s: string)
    requires Lacks(s, ' ')
    ensures Spaces(s) == 0
  {
    if s != "" { NoSpaces(s[1..]); }
  }

  lemma {:induction false} PiecesAreSpaces(s: string)
    ensures |Split(s, ' ')| == Spaces(s) + 1
    decreases |s|
  {
    var n := IndexOf(s, ' ');
    if n < |s| {
      PiecesAreSpaces(s[n + 1..]);
      hide Split;
      NoSpaces(s[..n]);
      SpacesAround(s[..n], s[n + 1..]);
      assert s == s[..n] + ([' '] + s[n + 1..]);
    } else {
      NoSpaces(s);
    }
  }

  lemma SpacesAround(a: string, b: string)
    ensures Spaces(a + ([' '] + b)) == Spaces(a) + 1 + Spaces(b)
  {
    SpacesAdd(a, [' '] + b);
    assert ([' '] + b)[1..] == b;
  }

  lemma FewerPieces(before: string, list: string)
    ensures |Split(list, ' ')| < |Split(before + (UPLOADING + list), ' ')|
  {
    SpacesAdd(before, UPLOADING + list);
    SpacesAdd(UPLOADING, list);
    assert Spaces(UPLOADING) >= 1;
    PiecesAreSpaces(before + (UPLOADING + list));
    PiecesAreSpaces(list);
  }

  lemma TailInside(head: string, key: string, value: string, r: int)
    requires |head| + |key| <= r && r + |key| <= |head + key + value| && (head + key + value)[r..r + |key|] == key
    ensures var at := r - |head| - |key|;
      value == value[..at] + (key + (head + key + value)[r + |key|..])
  {
    var line, at := head + key + value, r - |head| - |key|;
    assert line[r..r + |key|] == value[at..at + |key|];
    assert line[r + |key|..] == value[at + |key|..];
    assert value == value[..at] + value[at..at + |key|] + value[at + |key|..];
  }

  /** The line is split at the last key it contains, which leaves a proper tail of the list. */
  lemma SplitInsideList(head: string, value: string, o: int)
    requires OccursAt(value, UPLOADING, o)
    ensures var (_, list) := SplitLine(head + UPLOADING + value);
      list.Some? && |Split(list.value, ' ')| < |Split(value, ' ')|
  {
    hide Split;
    var line := head + UPLOADING + value;
    assert OccursAt(head + UPLOADING + value, UPLOADING, o + |head| + |UPLOADING|);
    var r := LastOccurrence(line, UPLOADING, |line|);
    TailInside(head, UPLOADING, value, r);
    FewerPieces(value[..r - |head| - |UPLOADING|], line[r + |UPLOADING|..]);
  }

  /** When a later path starts with the key, the split drops at least one path. */
  lemma LaterKeyLosesPaths(s: DaemonState, escaped: seq<string>, before: DaemonState, decode: string -> string)
    requires Escapes(s.uploading, escaped, decode)
    requires exists i :: 1 <= i < |escaped| && StartsWith(escaped[i], "uploading=")
    ensures |ApplyLine(PrintLine(s, escaped), before, decode).uploading| < |s.uploading|
  {
    var i :| 1 <= i < |escaped| && StartsWith(escaped[i], "uploading=");
    ListHoldsKey(escaped, i);
    var value := Join(escaped, ' ');
    var o :| OccursAt(value, UPLOADING, o);
    SplitInsideList(Join(TokensOf(HeadPairs(s)), ' '), value, o);
    forall j | 0 <= j < |escaped| ensures Lacks(escaped[j], ' ') {}
    SplitJoinOn(escaped, ' ');
  }

  /** The upload list survives exactly under that condition. */
  lemma UploadListSurvivesExactly(s: DaemonState, escaped: seq<string>, before: DaemonState, decode: string -> string)
    requires Counters64(s) && Escapes(s.uploading, escaped, decode)
    ensures ApplyLine(PrintLine(s, escaped), before, decode).uploading == s.uploading <==> ReadsBack(escaped)
  {
    if ReadsBack(escaped) {
      StateLineRoundTrip(s, escaped, before, decode);
    } else if escaped == [""] {
      var head := Join(TokensOf(HeadPairs(s)), ' ');
      assert Join(escaped, ' ') == "";
      SplitOfPrinted(head, "");
    } else {
      LaterKeyLosesPaths(s, escaped, before, decode);
    }
  }

  // ---- the credential line ----

  function CredentialIn(token: string): Option<CredentialState> {
    match SplitOnce(token, '=')
    case None => None
    case Some((key, value)) => if key == "credential" then Some(FromWire(value)) else None
  }

  function LastSome<T>(found: seq<Option<T>>): Option<T> {
    if found == [] then None
    else if found[|found| - 1].Some? then found[|found| - 1]
    else LastSome(found[..|found| - 1])
  }

  function CredentialsIn(tokens: seq<string>): (found: seq<Option<CredentialState>>)
    ensures |found| == |tokens|
    ensures forall i :: 0 <= i < |tokens| ==> found[i] == CredentialIn(tokens[i])
  {
    seq(|tokens|, i requires 0 <= i < |tokens| => CredentialIn(tokens[i]))
  }

  /** The last credential the line names. */
  function CredentialOf(line: string): Option<CredentialState> {
    LastSome(CredentialsIn(SplitWhitespace(line)))
  }

  method ApplyCredentialLine(line: string) returns (found: Option<CredentialState>)
    ensures found == CredentialOf(line)
  {
    found := None;
    var tokens := SplitWhitespace(line);
    ghost var all := CredentialsIn(tokens);
    for i := 0 to |tokens|
      invariant found == LastSome(all[..i])
    {
      assert all[..i + 1][..i] == all[..i];
      var here := CredentialIn(tokens[i]);
      if here.Some? { found := here; }
    }
    assert all[..|tokens|] == all;
  }

  /** The line the auth-state socket writes for a state. */
  function CredentialLine(c: CredentialState): string {
    "credential" + ['='] + AsWire(c)
  }

  lemma CredentialLineIsWord(c: CredentialState)
    requires c != CredentialState.Unknown
    ensures IsWord(CredentialLine(c)) && CredentialIn(CredentialLine(c)) == Some(c)
  {
    SplitOnceAt("credential", '=', AsWire(c));
  }

  /** The three lines the daemon writes, to the letter. */
  lemma CredentialWords()
    ensures CredentialIn("credential=healthy") == Some(Healthy)
    ensures CredentialIn("credential=unsaved") == Some(Unsaved)
    ensures CredentialIn("credential=rejected") == Some(Rejected)
  {
    hide SplitOnce;
    SplitOnceAt("credential", '=', "healthy");
    SplitOnceAt("credential", '=', "unsaved");
    SplitOnceAt("credential", '=', "rejected");
    assert "credential=healthy" == "credential" + ['='] + "healthy";
    assert "credential=unsaved" == "credential" + ['='] + "unsaved";
    assert "credential=rejected" == "credential" + ['='] + "rejected";
  }

  lemma {:induction false} OnlyFirstIsSome<T>(found: seq<Option<T>>)
    requires found != [] && found[0].Some? && forall i :: 1 <= i < |found| ==> found[i].None?
    ensures LastSome(found) == found[0]
  {
    if |found| > 1 {
      OnlyFirstIsSome(found[..|found| - 1]);
    }
  }

  lemma FirstTokenDecides(tokens: seq<string>, c: CredentialState)
    requires tokens != [] && CredentialIn(tokens[0]) == Some(c)
    requires forall i :: 1 <= i < |tokens| ==> CredentialIn(tokens[i]).None?
    ensures LastSome(CredentialsIn(tokens)) == Some(c)
  {
    OnlyFirstIsSome(CredentialsIn(tokens));
  }

  /** Every state the daemon can send arrives as itself, with any later keys behind it. */
  lemma CredentialLineRoundTrip(c: CredentialState, tokens: seq<string>)
    requires c != CredentialState.Unknown
    requires tokens != [] && tokens[0] == CredentialLine(c)
    requires forall i :: 1 <= i < |tokens| ==> IsWord(tokens[i]) && CredentialIn(tokens[i]).None?
    ensures CredentialOf(Join(tokens, ' ')) == Some(c)
  {
    CredentialLineIsWord(c);
    SplitJoin(tokens, ' ');
    FirstTokenDecides(tokens, c);
  }
}
