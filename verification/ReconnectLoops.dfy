/** The two reconnect loops, proved against their specification. */
module ReconnectLoops {
  import opened Text
  import opened DaemonTypes
  import StateLine
  import opened Reconnect
  import opened Sorting

  /** Doubling up to the ceiling is the closed form. */
  lemma DoublingIsBackoff(k: nat)
    ensures Min(RETRY_CEILING, Backoff(k) * 2) == Backoff(k + 1)
  {
  }

  /** `publish_distinct`, with the list of published states in place of the callback. */
  method PublishChange<S(==)>(s: S, lastPublished: S, already: seq<S>) returns (last: S, published: seq<S>)
    ensures last == s
    ensures published == if s == lastPublished then already else already + [s]
  {
    last, published := lastPublished, already;
    if s != lastPublished {
      last := s;
      published := published + [s];
    }
  }

  /** A line without a recognised key leaves the state as it was. */
  lemma OtherLinesChangeNothing(line: string, s: DaemonState, decode: string -> string)
    requires !StateLine.IsStateLine(line)
    ensures StateLine.ApplyLine(line, s, decode) == s
  {
    var (head, uploading) := StateLine.SplitLine(line);
    NothingSet(StateLine.Assignments(SplitWhitespace(head)), s);
  }

  lemma {:induction false} NothingSet(settings: seq<StateLine.Setting>, s: DaemonState)
    requires !StateLine.Recognizes(settings)
    ensures StateLine.ApplyAll(settings, s) == s
  {
    if settings != [] {
      var before := settings[..|settings| - 1];
      assert settings[|settings| - 1].None?;
      assert forall i :: 0 <= i < |before| ==> before[i] == settings[i];
      NothingSet(before, s);
    }
  }

  lemma OneMore<S>(start: S, all: seq<S>, s: S)
    ensures Changes(start, all + [s]) == if s == LastOf(start, all) then Changes(start, all) else Changes(start, all) + [s]
    ensures LastOf(start, all + [s]) == s
  {
    assert (all + [s])[..|all|] == all;
  }

  lemma NothingYet<S>(start: S)
    ensures Changes(start, []) == [] && LastOf(start, []) == start
    ensures Backoff(0) == RETRY_FLOOR
  {
  }

  lemma OneMoreAttempt<S>(f: Feed<S>, attempts: seq<Attempt>, i: nat)
    requires i < |attempts|
    ensures StateAfter(f, attempts[..i + 1]) == f.gone(TakeAll(f, StateAfter(f, attempts[..i]), Received(attempts[i])))
    ensures Handed(f, attempts[..i + 1])
      == Handed(f, attempts[..i]) + HandedBy(f, StateAfter(f, attempts[..i]), Received(attempts[i]))
        + [StateAfter(f, attempts[..i + 1])]
    ensures SilentBefore(f, attempts[..i + 1]) == if Spoke(f, attempts[i]) then 0 else 1 + SilentBefore(f, attempts[..i])
    ensures Sleeps(f, attempts[..i + 1])
      == Sleeps(f, attempts[..i]) + [if Spoke(f, attempts[i]) then RETRY_FLOOR else Backoff(SilentBefore(f, attempts[..i]))]
  {
    hide TakeAll, HandedBy, Counted, Backoff;
    assert attempts[..i + 1][..i] == attempts[..i] && attempts[..i + 1][i] == attempts[i];
  }

  lemma NoAttempts<S>(f: Feed<S>)
    ensures StateAfter(f, []) == f.start && Handed(f, []) == [] && SilentBefore(f, []) == 0 && Sleeps(f, []) == []
  {
  }

  lemma OneMoreLine<S>(f: Feed<S>, s: S, lines: seq<string>, j: nat)
    ensures TakeAll(f, s, lines[..0]) == s && HandedBy(f, s, lines[..0]) == []
    ensures j < |lines| ==>
      var before, after := TakeAll(f, s, lines[..j]), TakeAll(f, s, lines[..j + 1]);
      && after == (if f.counts(lines[j]) then f.take(before, lines[j]) else before)
      && HandedBy(f, s, lines[..j + 1]) == HandedBy(f, s, lines[..j]) + (if f.counts(lines[j]) then [after] else [])
  {
    if j < |lines| { assert lines[..j + 1][..j] == lines[..j]; }
  }

  /** `watch_once`: publish every state line until the daemon hangs up. */
  method WatchOnce(lines: seq<string>, start: DaemonState, lastPublished: DaemonState, already: seq<DaemonState>,
                   ghost handed: seq<DaemonState>, decode: string -> string)
    returns (state: DaemonState, last: DaemonState, published: seq<DaemonState>, saw: bool)
    requires lastPublished == LastOf(DEFAULT_STATE, handed) && already == Changes(DEFAULT_STATE, handed)
    ensures state == TakeAll(StateFeed(decode), start, lines)
    ensures published == Changes(DEFAULT_STATE, handed + HandedBy(StateFeed(decode), start, lines))
    ensures last == LastOf(DEFAULT_STATE, handed + HandedBy(StateFeed(decode), start, lines))
    ensures saw == Counted(StateFeed(decode), lines)
  {
    hide StateLine.IsStateLine, StateLine.ApplyLine, StateLine.CredentialOf, Changes, LastOf, TakeAll, HandedBy;
    ghost var f, all := StateFeed(decode), handed;
    state, last, published, saw := start, lastPublished, already, false;
    OneMoreLine(f, start, lines, 0);
    for j := 0 to |lines|
      invariant state == TakeAll(f, start, lines[..j])
      invariant all == handed + HandedBy(f, start, lines[..j])
      invariant published == Changes(DEFAULT_STATE, all) && last == LastOf(DEFAULT_STATE, all)
      invariant saw <==> exists k :: 0 <= k < j && f.counts(lines[k])
    {
      OneMoreLine(f, start, lines, j);
      if StateLine.IsStateLine(lines[j]) {
        state := StateLine.ApplyLine(lines[j], state, decode).(running := true);
        saw := true;
        Assoc(handed, HandedBy(f, start, lines[..j]), [state]);
        OneMore(DEFAULT_STATE, all, state);
        all := all + [state];
        last, published := PublishChange(state, last, published);
      }
    }
    assert lines[..|lines|] == lines;
  }

  /** `watch_credential_once`. */
  method WatchCredentialOnce(lines: seq<string>, start: CredentialState, lastPublished: CredentialState,
                             already: seq<CredentialState>, ghost handed: seq<CredentialState>)
    returns (state: CredentialState, last: CredentialState, published: seq<CredentialState>, saw: bool)
    requires lastPublished == LastOf(CredentialState.Unknown, handed) && already == Changes(CredentialState.Unknown, handed)
    ensures state == TakeAll(CredentialFeed(), start, lines)
    ensures published == Changes(CredentialState.Unknown, handed + HandedBy(CredentialFeed(), start, lines))
    ensures last == LastOf(CredentialState.Unknown, handed + HandedBy(CredentialFeed(), start, lines))
    ensures saw == Counted(CredentialFeed(), lines)
  {
    hide StateLine.IsStateLine, StateLine.ApplyLine, StateLine.CredentialOf, Changes, LastOf, TakeAll, HandedBy;
    ghost var f, all := CredentialFeed(), handed;
    state, last, published, saw := start, lastPublished, already, false;
    OneMoreLine(f, start, lines, 0);
    for j := 0 to |lines|
      invariant state == TakeAll(f, start, lines[..j])
      invariant all == handed + HandedBy(f, start, lines[..j])
      invariant published == Changes(CredentialState.Unknown, all) && last == LastOf(CredentialState.Unknown, all)
      invariant saw <==> exists k :: 0 <= k < j && f.counts(lines[k])
    {
      OneMoreLine(f, start, lines, j);
      var found := StateLine.ApplyCredentialLine(lines[j]);
      if found.Some? {
        state := found.value;
        saw := true;
        Assoc(handed, HandedBy(f, start, lines[..j]), [state]);
        OneMore(CredentialState.Unknown, all, state);
        all := all + [state];
        last, published := PublishChange(state, last, published);
      }
    }
    assert lines[..|lines|] == lines;
  }

  /** `watch_daemon`, for as many attempts as `keep_going` allows. */
  method WatchDaemon(attempts: seq<Attempt>, decode: string -> string) returns (published: seq<DaemonState>, sleeps: seq<nat>)
    ensures published == Changes(DEFAULT_STATE, Handed(StateFeed(decode), attempts))
    ensures sleeps == Sleeps(StateFeed(decode), attempts)
  {
    hide StateLine.IsStateLine, StateLine.ApplyLine, StateLine.CredentialOf;
    hide Changes, LastOf, Backoff, HandedBy, TakeAll, Counted, StateAfter, Handed, SilentBefore, Sleeps;
    ghost var f := StateFeed(decode);
    var state, lastPublished, delay := DEFAULT_STATE, DEFAULT_STATE, RETRY_FLOOR;
    published, sleeps := [], [];
    NothingYet(DEFAULT_STATE);
    NoAttempts(f);
    for i := 0 to |attempts|
      invariant state == StateAfter(f, attempts[..i])
      invariant published == Changes(DEFAULT_STATE, Handed(f, attempts[..i]))
      invariant lastPublished == LastOf(DEFAULT_STATE, Handed(f, attempts[..i]))
      invariant delay == Backoff(SilentBefore(f, attempts[..i]))
      invariant sleeps == Sleeps(f, attempts[..i])
    {
      OneMoreAttempt(f, attempts, i);
      ghost var handed := Handed(f, attempts[..i]) + HandedBy(f, state, Received(attempts[i]));
      DoublingIsBackoff(SilentBefore(f, attempts[..i]));
      var saw;
      state, lastPublished, published, saw :=
        WatchOnce(Received(attempts[i]), state, lastPublished, published, Handed(f, attempts[..i]), decode);
      state := state.(running := false);
      OneMore(DEFAULT_STATE, handed, state);
      lastPublished, published := PublishChange(state, lastPublished, published);
      if saw {
        delay := RETRY_FLOOR;
        sleeps := sleeps + [delay];
      } else {
        sleeps := sleeps + [delay];
        delay := Min(RETRY_CEILING, delay * 2);
      }
    }
    assert attempts[..|attempts|] == attempts;
  }

  /** `watch_credential`: the same loop, except that a dead connection forgets the state. */
  method WatchCredential(attempts: seq<Attempt>) returns (published: seq<CredentialState>, sleeps: seq<nat>)
    ensures published == Changes(CredentialState.Unknown, Handed(CredentialFeed(), attempts))
    ensures sleeps == Sleeps(CredentialFeed(), attempts)
  {
    hide StateLine.IsStateLine, StateLine.ApplyLine, StateLine.CredentialOf;
    hide Changes, LastOf, Backoff, HandedBy, TakeAll, Counted, StateAfter, Handed, SilentBefore, Sleeps;
    ghost var f := CredentialFeed();
    var state, lastPublished, delay := CredentialState.Unknown, CredentialState.Unknown, RETRY_FLOOR;
    published, sleeps := [], [];
    NothingYet(CredentialState.Unknown);
    NoAttempts(f);
    for i := 0 to |attempts|
      invariant state == StateAfter(f, attempts[..i])
      invariant published == Changes(CredentialState.Unknown, Handed(f, attempts[..i]))
      invariant lastPublished == LastOf(CredentialState.Unknown, Handed(f, attempts[..i]))
      invariant delay == Backoff(SilentBefore(f, attempts[..i]))
      invariant sleeps == Sleeps(f, attempts[..i])
    {
      OneMoreAttempt(f, attempts, i);
      ghost var handed := Handed(f, attempts[..i]) + HandedBy(f, state, Received(attempts[i]));
      DoublingIsBackoff(SilentBefore(f, attempts[..i]));
      var saw;
      state, lastPublished, published, saw :=
        WatchCredentialOnce(Received(attempts[i]), state, lastPublished, published, Handed(f, attempts[..i]));
      state := CredentialState.Unknown;
      OneMore(CredentialState.Unknown, handed, state);
      lastPublished, published := PublishChange(state, lastPublished, published);
      if saw {
        delay := RETRY_FLOOR;
        sleeps := sleeps + [delay];
      } else {
        sleeps := sleeps + [delay];
        delay := Min(RETRY_CEILING, delay * 2);
      }
    }
    assert attempts[..|attempts|] == attempts;
  }
}
