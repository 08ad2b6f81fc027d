/** What the panel can rely on over any connections and lines. */
module ReconnectGuarantees {
  import opened Text
  import opened DaemonTypes
  import StateLine
  import opened Reconnect
  import ReconnectLoops
  import opened Sorting

  /** No published state equals the one before it, the first not even the initial one. */
  lemma {:induction false} NeverPublishesTwice<S>(start: S, handed: seq<S>)
    ensures NoRepeats([start] + Changes(start, handed))
  {
    if handed != [] {
      var before := handed[..|handed| - 1];
      NeverPublishesTwice(start, before);
      ChangesKeepLast(start, before);
      var d, all := Changes(start, before), Changes(start, handed);
      forall i | 0 < i < |[start] + all| ensures ([start] + all)[i - 1] != ([start] + all)[i] {
        if i <= |d| { assert ([start] + d)[i - 1] != ([start] + d)[i]; }
      }
    }
  }

  /** After every attempt the last published state is the loop's own state. */
  lemma PublishedIsCurrent<S>(f: Feed<S>, attempts: seq<Attempt>)
    ensures LastOf(f.start, Changes(f.start, Handed(f, attempts))) == StateAfter(f, attempts)
  {
    ChangesKeepLast(f.start, Handed(f, attempts));
  }

  lemma {:induction false} SilenceChangesNothing<S>(f: Feed<S>, s: S, lines: seq<string>)
    requires forall i :: 0 <= i < |lines| ==> !f.counts(lines[i])
    ensures TakeAll(f, s, lines) == s && HandedBy(f, s, lines) == []
  {
    if lines != [] {
      SilenceChangesNothing(f, s, lines[..|lines| - 1]);
    }
  }

  predicate CountsAt<S>(f: Feed<S>, lines: seq<string>, i: nat) {
    i < |lines| && f.counts(lines[i])
  }

  /** One state is handed over for each line that counts: the one after that line. */
  lemma {:induction false} HandedIsEachLine<S>(f: Feed<S>, s: S, lines: seq<string>) returns (at: seq<nat>)
    ensures Increasing(at) && forall i :: i in at <==> CountsAt(f, lines, i)
    ensures |HandedBy(f, s, lines)| == |at|
    ensures forall k :: 0 <= k < |at| ==> at[k] < |lines| && HandedBy(f, s, lines)[k] == TakeAll(f, s, lines[..at[k] + 1])
  {
    at := [];
    if lines != [] {
      var n := |lines| - 1;
      var front := lines[..n];
      at := HandedIsEachLine(f, s, front);
      forall i: nat ensures i != n ==> (CountsAt(f, front, i) <==> CountsAt(f, lines, i)) {}
      forall k | 0 <= k < |at| ensures at[k] < n && front[..at[k] + 1] == lines[..at[k] + 1] { assert at[k] in at; }
      assert lines[..n + 1] == lines;
      hide TakeAll;
      if f.counts(lines[n]) {
        OneMoreAt(f, front, lines, at);
        at := at + [n];
      } else {
        assert !CountsAt(f, lines, n);
      }
    }
  }

  lemma OneMoreAt<S>(f: Feed<S>, front: seq<string>, lines: seq<string>, at: seq<nat>)
    requires lines != [] && front == lines[..|lines| - 1] && f.counts(lines[|front|])
    requires Increasing(at) && (forall i :: i in at <==> CountsAt(f, front, i)) && forall k :: 0 <= k < |at| ==> at[k] < |front|
    ensures Increasing(at + [|front|]) && forall i :: i in at + [|front|] <==> CountsAt(f, lines, i)
  {
    forall i: nat ensures i in at + [|front|] <==> CountsAt(f, lines, i) {
      assert i in at + [|front|] <==> i in at || i == |front|;
    }
  }

  // ---- the flag ----

  /** Every state a connection hands over says that the daemon is running. */
  lemma {:induction false} HandedIsRunning(decode: string -> string, s: DaemonState, lines: seq<string>)
    ensures forall i :: 0 <= i < |HandedBy(StateFeed(decode), s, lines)| ==> HandedBy(StateFeed(decode), s, lines)[i].running
  {
    hide StateLine.IsStateLine, StateLine.ApplyLine;
    if lines != [] { HandedIsRunning(decode, s, lines[..|lines| - 1]); }
  }

  /** The connection brought a line that this build recognises. */
  predicate BringsState(a: Attempt) {
    a.Connected? && exists j :: 0 <= j < |a.lines| && StateLine.IsStateLine(a.lines[j])
  }

  lemma {:induction false} HandedUnlessSilent(decode: string -> string, s: DaemonState, lines: seq<string>)
    ensures HandedBy(StateFeed(decode), s, lines) != [] <==> BringsState(Connected(lines))
  {
    hide StateLine.IsStateLine, StateLine.ApplyLine;
    if lines != [] {
      var front := lines[..|lines| - 1];
      HandedUnlessSilent(decode, s, front);
      assert forall j :: 0 <= j < |front| ==> front[j] == lines[j];
    }
  }

  predicate SaysRunning(states: seq<DaemonState>) {
    exists i :: 0 <= i < |states| && states[i].running
  }

  lemma SaysRunningAppend(a: seq<DaemonState>, b: seq<DaemonState>)
    ensures SaysRunning(a + b) <==> SaysRunning(a) || SaysRunning(b)
  {
    if i :| 0 <= i < |a| && a[i].running { assert (a + b)[i].running; }
    if i :| 0 <= i < |b| && b[i].running { assert (a + b)[|a| + i].running; }
  }

  /** Between connections the daemon counts as stopped, and the panel was told that it runs exactly when some
      connection brought a recognised line. */
  lemma {:induction false} RunningIsTold(decode: string -> string, attempts: seq<Attempt>)
    ensures !StateAfter(StateFeed(decode), attempts).running
    ensures SaysRunning(Handed(StateFeed(decode), attempts)) <==> exists i :: 0 <= i < |attempts| && BringsState(attempts[i])
  {
    hide BringsState, TakeAll, HandedBy, SaysRunning;
    var f := StateFeed(decode);
    if attempts == [] {
      NobodySays();
    } else {
      var n := |attempts| - 1;
      var before, last := attempts[..n], attempts[n];
      RunningIsTold(decode, before);
      var handed := HandedBy(f, StateAfter(f, before), Received(last));
      HandedUnlessSilent(decode, StateAfter(f, before), Received(last));
      HandedIsRunning(decode, StateAfter(f, before), Received(last));
      SaysRunningAppend(Handed(f, before), handed);
      SaysRunningAppend(Handed(f, before) + handed, [StateAfter(f, attempts)]);
      NothingFromRefused(last);
      AllOrNone(handed);
      OnlyOne(StateAfter(f, attempts));
      assert forall i :: 0 <= i < n ==> before[i] == attempts[i];
    }
  }

  lemma NobodySays()
    ensures !SaysRunning([])
  {
  }

  lemma AllOrNone(states: seq<DaemonState>)
    requires forall i :: 0 <= i < |states| ==> states[i].running
    ensures SaysRunning(states) <==> states != []
  {
    if states != [] { assert states[0].running; }
  }

  lemma OnlyOne(s: DaemonState)
    ensures SaysRunning([s]) <==> s.running
  {
    if s.running { assert [s][0].running; }
  }

  lemma NothingFromRefused(a: Attempt)
    ensures BringsState(Connected(Received(a))) <==> BringsState(a)
  {
  }

  lemma {:induction false} ChangesSayRunning(start: DaemonState, handed: seq<DaemonState>)
    requires !start.running
    ensures SaysRunning(Changes(start, handed)) <==> SaysRunning(handed)
  {
    hide SaysRunning;
    if handed == [] {
      NobodySays();
    } else {
      var before, last := handed[..|handed| - 1], handed[|handed| - 1];
      ChangesSayRunning(start, before);
      assert handed == before + [last];
      SaysRunningAppend(before, [last]);
      SaysRunningAppend(Changes(start, before), [last]);
      OnlyOne(last);
      if last == LastOf(start, before) {
        assert Changes(start, before) + [] == Changes(start, before);
        if last.running { LastSays(before); }
      }
    }
  }

  lemma LastSays(states: seq<DaemonState>)
    requires states != [] && states[|states| - 1].running
    ensures SaysRunning(states)
  {
  }

  /** So that is what the publications say too: none is lost on the way from the loop to the panel. */
  lemma RunningIsPublished(decode: string -> string, attempts: seq<Attempt>)
    ensures SaysRunning(Changes(DEFAULT_STATE, Handed(StateFeed(decode), attempts)))
      <==> exists i :: 0 <= i < |attempts| && BringsState(attempts[i])
  {
    hide Changes, Handed, BringsState, SaysRunning;
    RunningIsTold(decode, attempts);
    ChangesSayRunning(DEFAULT_STATE, Handed(StateFeed(decode), attempts));
  }

  // ---- the states themselves ----

  function Fold(decode: string -> string, s: DaemonState, lines: seq<string>): DaemonState {
    if lines == [] then s else StateLine.ApplyLine(lines[|lines| - 1], Fold(decode, s, lines[..|lines| - 1]), decode)
  }

  /** The counters a connection leaves are those of folding all its lines, recognised or not. */
  lemma {:induction false} CountersAreFolded(decode: string -> string, s: DaemonState, lines: seq<string>)
    ensures SameCounters(TakeAll(StateFeed(decode), s, lines), Fold(decode, s, lines))
  {
    if lines != [] {
      var front, line := lines[..|lines| - 1], lines[|lines| - 1];
      CountersAreFolded(decode, s, front);
      LineIgnoresFlag(decode, TakeAll(StateFeed(decode), s, front), Fold(decode, s, front), line);
      if !StateLine.IsStateLine(line) { ReconnectLoops.OtherLinesChangeNothing(line, Fold(decode, s, front), decode); }
    }
  }

  lemma LineIgnoresFlag(decode: string -> string, a: DaemonState, b: DaemonState, line: string)
    requires SameCounters(a, b)
    ensures SameCounters(StateLine.ApplyLine(line, a, decode), StateLine.ApplyLine(line, b, decode))
  {
    var (head, _) := StateLine.SplitLine(line);
    FlagDoesNotReachCounters(StateLine.Assignments(SplitWhitespace(head)), a, b);
  }

  /** The sign-in loop hands over, for each line that names a state, the state it names last. */
  lemma {:induction false} CredentialIsTheLines(s: CredentialState, lines: seq<string>, k: nat)
    requires k < |lines| && StateLine.CredentialOf(lines[k]).Some?
    ensures TakeAll(CredentialFeed(), s, lines[..k + 1]) == StateLine.CredentialOf(lines[k]).value
    ensures StateLine.CredentialOf(lines[k]).value in HandedBy(CredentialFeed(), s, lines)
    decreases |lines|
  {
    hide StateLine.CredentialOf;
    assert lines[..k + 1][..k] == lines[..k];
    if k == |lines| - 1 {
      assert lines[..k + 1] == lines;
    } else {
      var front := lines[..|lines| - 1];
      assert front[..k + 1] == lines[..k + 1];
      CredentialIsTheLines(s, front, k);
    }
  }

  ghost predicate Settles<S(!new)>(f: Feed<S>) {
    f.gone(f.start) == f.start && forall s :: f.gone(f.gone(s)) == f.gone(s)
  }

  /** An attempt that brings no state line, a refusal included, publishes nothing. */
  lemma SilentAttemptPublishesNothing<S(!new)>(f: Feed<S>, attempts: seq<Attempt>, a: Attempt)
    requires Settles(f) && !Spoke(f, a)
    ensures StateAfter(f, attempts + [a]) == StateAfter(f, attempts)
    ensures Changes(f.start, Handed(f, attempts + [a])) == Changes(f.start, Handed(f, attempts))
  {
    var all := attempts + [a];
    assert all[..|attempts|] == attempts;
    SilenceChangesNothing(f, StateAfter(f, attempts), Received(a));
    var handed := Handed(f, attempts);
    assert handed + [] + [StateAfter(f, all)] == handed + [StateAfter(f, all)];
    assert (handed + [StateAfter(f, all)])[..|handed|] == handed;
  }

  lemma BothFeedsSettle(decode: string -> string)
    ensures Settles(StateFeed(decode)) && Settles(CredentialFeed())
  {
  }

  function AllLines(attempts: seq<Attempt>): seq<string> {
    if attempts == [] then [] else AllLines(attempts[..|attempts| - 1]) + Received(attempts[|attempts| - 1])
  }

  lemma {:induction false} TakeAllAppend<S>(f: Feed<S>, s: S, a: seq<string>, b: seq<string>)
    ensures TakeAll(f, s, a + b) == TakeAll(f, TakeAll(f, s, a), b)
  {
    if b == [] {
      assert a + b == a;
    } else {
      assert (a + b)[..|a + b| - 1] == a + b[..|b| - 1];
      TakeAllAppend(f, s, a, b[..|b| - 1]);
    }
  }

  /** Two daemon states that differ at most in the running flag. */
  predicate SameCounters(a: DaemonState, b: DaemonState) {
    a.(running := false) == b.(running := false)
  }

  lemma {:induction false} FlagDoesNotReachCounters(settings: seq<StateLine.Setting>, a: DaemonState, b: DaemonState)
    requires SameCounters(a, b)
    ensures SameCounters(StateLine.ApplyAll(settings, a), StateLine.ApplyAll(settings, b))
  {
    if settings != [] {
      FlagDoesNotReachCounters(settings[..|settings| - 1], a, b);
    }
  }

  lemma {:induction false} TakeAllIgnoresFlag(decode: string -> string, a: DaemonState, b: DaemonState, lines: seq<string>)
    requires SameCounters(a, b)
    ensures SameCounters(TakeAll(StateFeed(decode), a, lines), TakeAll(StateFeed(decode), b, lines))
  {
    if lines != [] {
      var front, line := lines[..|lines| - 1], lines[|lines| - 1];
      TakeAllIgnoresFlag(decode, a, b, front);
      var (head, _) := StateLine.SplitLine(line);
      FlagDoesNotReachCounters(StateLine.Assignments(SplitWhitespace(head)),
                               TakeAll(StateFeed(decode), a, front), TakeAll(StateFeed(decode), b, front));
    }
  }

  /** The counter loop holds its counters: after any number of connections they are what one
      connection with all the lines would have left, and only the flag says "stopped". */
  lemma {:induction false} CountersAreHeld(decode: string -> string, attempts: seq<Attempt>)
    ensures StateAfter(StateFeed(decode), attempts)
         == TakeAll(StateFeed(decode), DEFAULT_STATE, AllLines(attempts)).(running := false)
  {
    if attempts != [] {
      var f := StateFeed(decode);
      var before, last := attempts[..|attempts| - 1], attempts[|attempts| - 1];
      CountersAreHeld(decode, before);
      TakeAllAppend(f, DEFAULT_STATE, AllLines(before), Received(last));
      TakeAllIgnoresFlag(decode, StateAfter(f, before), TakeAll(f, DEFAULT_STATE, AllLines(before)), Received(last));
    }
  }

  /** The credential loop forgets: between connections nobody asserts anything. */
  lemma CredentialIsForgotten(attempts: seq<Attempt>)
    ensures StateAfter(CredentialFeed(), attempts) == CredentialState.Unknown
  {
  }

  /** The wait after `k` silent attempts in a row is the closed form, whatever came before. */
  lemma {:induction false} WaitAfterSilence<S>(f: Feed<S>, attempts: seq<Attempt>, k: nat)
    requires k < |attempts| && forall i :: |attempts| - k - 1 <= i < |attempts| ==> !Spoke(f, attempts[i])
    requires k + 1 == |attempts| || Spoke(f, attempts[|attempts| - k - 2])
    ensures LastOf(0, Sleeps(f, attempts)) == Backoff(k)
  {
    SilentRun(f, attempts[..|attempts| - 1], k);
  }

  /** In seconds: one after a connection that brought something; else 1, 2, 4, 8, 16 and from then on 30. */
  lemma WaitInSeconds<S>(f: Feed<S>, attempts: seq<Attempt>)
    requires attempts != []
    ensures Spoke(f, attempts[|attempts| - 1]) ==> LastOf(0, Sleeps(f, attempts)) == 1
    ensures Backoff(0) == 1 && Backoff(1) == 2 && Backoff(2) == 4 && Backoff(3) == 8 && Backoff(4) == 16
    ensures forall k :: k >= 5 ==> Backoff(k) == 30
  {
    forall k | k >= 5 ensures Backoff(k) == 30 { PowerGrows(k); }
    assert Pow2(0) == 1 && Pow2(1) == 2 && Pow2(2) == 4 && Pow2(3) == 8 && Pow2(4) == 16;
  }

  lemma {:induction false} PowerGrows(k: nat)
    requires k >= 5
    ensures Pow2(k) >= 32
  {
    if k > 5 { PowerGrows(k - 1); }
    else { assert Pow2(1) == 2 && Pow2(2) == 4 && Pow2(3) == 8 && Pow2(4) == 16; }
  }

  lemma {:induction false} SilentRun<S>(f: Feed<S>, attempts: seq<Attempt>, k: nat)
    requires k <= |attempts| && forall i :: |attempts| - k <= i < |attempts| ==> !Spoke(f, attempts[i])
    requires k == |attempts| || Spoke(f, attempts[|attempts| - k - 1])
    ensures SilentBefore(f, attempts) == k
  {
    if k > 0 {
      SilentRun(f, attempts[..|attempts| - 1], k - 1);
    }
  }
}
