/** When the publisher restarts onto an enrollment, over every history of ticks. */
module AdoptionGuarantees {
  import opened Text
  import opened DaemonTypes
  import opened Adoption

  /** The whole loop over any history of turns. */
  method Serve(ticks: seq<Tick>, sampled: Health, watchesFile: bool) returns (restarts: seq<Restart>)
    ensures restarts == RestartsAfter(ticks, watchesFile)
  {
    var publisher := new Publisher(sampled, watchesFile);
    restarts := [];
    for i := 0 to |ticks|
      invariant publisher.watchesFile == watchesFile
      invariant publisher.Value() == if watchesFile then MemoryAfter(ticks[..i]) else FRESH
      invariant restarts == RestartsAfter(ticks[..i], watchesFile)
    {
      assert ticks[..i + 1][..i] == ticks[..i];
      var more := publisher.Turn(ticks[i]);
      restarts := restarts + more;
    }
    assert ticks[..|ticks|] == ticks;
  }

  /** Turn `i` restarts the daemon for the enrollment file. */
  predicate AdoptsAt(ticks: seq<Tick>, i: nat)
    requires i < |ticks|
  {
    AdoptsFile(MemoryAfter(ticks[..i]), ticks[i])
  }

  /** Turn `i` is rejected with the very file that was adopted last, and is passed over. */
  predicate PassedOver(ticks: seq<Tick>, i: nat)
    requires i < |ticks|
  {
    IsRejected(ticks[i]) && ticks[i].file.Some? && MemoryAfter(ticks[..i]).adopted == ticks[i].file
  }

  /** The last turn before `n` that was not passed over was rejected with `snapshot`. */
  ghost predicate SettledBefore(ticks: seq<Tick>, n: nat, snapshot: Snapshot)
    requires n <= |ticks|
  {
    exists j :: 0 <= j < n && RejectedWith(ticks[j], snapshot) && !PassedOver(ticks, j) &&
      forall k :: j < k < n ==> PassedOver(ticks, k)
  }

  lemma MemoryStep(ticks: seq<Tick>, n: nat)
    requires n < |ticks|
    ensures MemoryAfter(ticks[..n + 1]) == AfterFile(MemoryAfter(ticks[..n]), ticks[n])
  {
    assert ticks[..n + 1][..n] == ticks[..n];
  }

  lemma SettledStep(ticks: seq<Tick>, n: nat, snapshot: Snapshot)
    requires 0 < n <= |ticks|
    ensures SettledBefore(ticks, n, snapshot) <==>
      if PassedOver(ticks, n - 1) then SettledBefore(ticks, n - 1, snapshot) else RejectedWith(ticks[n - 1], snapshot)
  {
    hide PassedOver, RejectedWith;
    if PassedOver(ticks, n - 1) && SettledBefore(ticks, n - 1, snapshot) {
      var j :| 0 <= j < n - 1 && RejectedWith(ticks[j], snapshot) && !PassedOver(ticks, j) &&
        forall k :: j < k < n - 1 ==> PassedOver(ticks, k);
      assert forall k :: j < k < n ==> PassedOver(ticks, k);
    }
  }

  lemma {:induction false} PendingMeansSettled(ticks: seq<Tick>, n: nat, snapshot: Snapshot)
    requires n <= |ticks|
    ensures MemoryAfter(ticks[..n]).pending == Some(snapshot) <==> SettledBefore(ticks, n, snapshot)
  {
    hide SettledBefore;
    if n > 0 {
      MemoryStep(ticks, n - 1);
      PendingMeansSettled(ticks, n - 1, snapshot);
      SettledStep(ticks, n, snapshot);
    } else {
      NothingSettled(ticks, snapshot);
    }
  }

  lemma NothingSettled(ticks: seq<Tick>, snapshot: Snapshot)
    ensures !SettledBefore(ticks, 0, snapshot)
  {
  }

  /** Exactly when a file is adopted: the turn is rejected with it, it was not the last one
      adopted, and the last turn that was not passed over was rejected with it too. */
  lemma AdoptionExactly(ticks: seq<Tick>, i: nat, snapshot: Snapshot)
    requires i < |ticks| && ticks[i].file == Some(snapshot)
    ensures AdoptsAt(ticks, i) <==>
      IsRejected(ticks[i]) && !PassedOver(ticks, i) && SettledBefore(ticks, i, snapshot)
  {
    PendingMeansSettled(ticks, i, snapshot);
  }

  /** No file is ever adopted while the sign-in works. */
  lemma AdoptsOnlyWhileRejected(ticks: seq<Tick>, i: nat)
    requires i < |ticks| && AdoptsAt(ticks, i)
    ensures !ticks[i].sampled.signedIn
  {
  }

  lemma {:induction false} NothingAdoptedYet(ticks: seq<Tick>, n: nat)
    requires n <= |ticks| && forall j :: 0 <= j < n ==> !AdoptsAt(ticks, j)
    ensures MemoryAfter(ticks[..n]).adopted == None
  {
    if n > 0 {
      NothingAdoptedYet(ticks, n - 1);
      MemoryStep(ticks, n - 1);
      assert !AdoptsAt(ticks, n - 1);
    }
  }

  /** The first adoption is exactly the second of two consecutive turns that are both rejected
      with the same snapshot. */
  lemma FirstAdoptionIsSecondOfTwo(ticks: seq<Tick>, i: nat)
    requires i < |ticks| && forall j :: 0 <= j < i ==> !AdoptsAt(ticks, j)
    ensures AdoptsAt(ticks, i) <==>
      i > 0 && ticks[i].file.Some? && RejectedWith(ticks[i - 1], ticks[i].file.value) && IsRejected(ticks[i])
  {
    NothingAdoptedYet(ticks, i);
    if i > 0 {
      NothingAdoptedYet(ticks, i - 1);
      MemoryStep(ticks, i - 1);
    }
  }

  /** The snapshot adopted by the last adoption before turn `n` is the one remembered. */
  lemma {:induction false} AdoptedIsRemembered(ticks: seq<Tick>, j: nat, n: nat)
    requires j < n <= |ticks| && AdoptsAt(ticks, j)
    requires forall k :: j < k < n ==> !AdoptsAt(ticks, k)
    ensures MemoryAfter(ticks[..n]).adopted == ticks[j].file
  {
    MemoryStep(ticks, n - 1);
    if j < n - 1 {
      AdoptedIsRemembered(ticks, j, n - 1);
      assert !AdoptsAt(ticks, n - 1);
    }
  }

  /** Two adoptions in a row are never of the same snapshot. */
  lemma NeverTwiceInARow(ticks: seq<Tick>, j: nat, i: nat)
    requires j < i < |ticks| && AdoptsAt(ticks, j) && AdoptsAt(ticks, i)
    requires forall k :: j < k < i ==> !AdoptsAt(ticks, k)
    ensures ticks[j].file != ticks[i].file
  {
    AdoptedIsRemembered(ticks, j, i);
  }

  /** What an adoption says about the turn before it: that one was rejected with the same snapshot
      exactly when it was not passed over. */
  lemma AdoptionSettlesExactly(ticks: seq<Tick>, i: nat)
    requires i < |ticks| && AdoptsAt(ticks, i)
    ensures i > 0
    ensures RejectedWith(ticks[i - 1], ticks[i].file.value) <==> !PassedOver(ticks, i - 1)
  {
    AdoptionExactly(ticks, i, ticks[i].file.value);
    MemoryStep(ticks, i - 1);
  }

  /** A later adoption needs no two consecutive turns: while the file last adopted is back,
      the turns are passed over and an older sighting still counts as settled. */
  lemma LaterAdoptionMaySkipTheSettleTest()
    ensures exists ticks: seq<Tick>, i: nat ::
      && 0 < i < |ticks| && AdoptsAt(ticks, i)
      && ticks[i - 1].file != ticks[i].file
  {
    var rejected := Health(false, None);
    var a, b := Snapshot(1, 1), Snapshot(2, 2);
    var ta, tb := Tick(rejected, false, Some(a)), Tick(rejected, false, Some(b));
    var ticks := [ta, ta, tb, ta, tb];
    assert ticks[..0] == [] && MemoryAfter(ticks[..0]) == FRESH;
    MemoryStep(ticks, 0);
    MemoryStep(ticks, 1);
    MemoryStep(ticks, 2);
    MemoryStep(ticks, 3);
    assert AdoptsAt(ticks, 4);
  }

  function RequestsIn(ticks: seq<Tick>): nat {
    if ticks == [] then 0
    else RequestsIn(ticks[..|ticks| - 1]) + (if ticks[|ticks| - 1].requested then 1 else 0)
  }

  function CountRequests(restarts: seq<Restart>): nat {
    if restarts == [] then 0
    else CountRequests(restarts[..|restarts| - 1]) + (if restarts[|restarts| - 1].ForRequest? then 1 else 0)
  }

  lemma {:induction false} CountRequestsAdds(a: seq<Restart>, b: seq<Restart>)
    ensures CountRequests(a + b) == CountRequests(a) + CountRequests(b)
  {
    if b == [] {
      assert a + b == a;
    } else {
      assert (a + b)[..|a + b| - 1] == a + b[..|b| - 1];
      CountRequestsAdds(a, b[..|b| - 1]);
    }
  }

  /** Every request seen causes exactly one restart, whatever the enrollment file does. */
  lemma {:induction false} OneRestartPerRequest(ticks: seq<Tick>, watchesFile: bool)
    ensures CountRequests(RestartsAfter(ticks, watchesFile)) == RequestsIn(ticks)
  {
    if ticks != [] {
      var before, t := ticks[..|ticks| - 1], ticks[|ticks| - 1];
      OneRestartPerRequest(before, watchesFile);
      var m := if watchesFile then MemoryAfter(before) else FRESH;
      var ask := if t.requested then [ForRequest] else [];
      var file := if watchesFile && AdoptsFile(m, t) then [ForFile(t.file.value)] else [];
      CountRequestsAdds(ask, file);
      CountRequestsAdds(RestartsAfter(before, watchesFile), RestartsIn(m, t, watchesFile));
    }
  }

  // ---- restarts for the file ----

  function CountAdoptions(restarts: seq<Restart>, snapshot: Snapshot): nat {
    if restarts == [] then 0
    else CountAdoptions(restarts[..|restarts| - 1], snapshot) + (if restarts[|restarts| - 1] == ForFile(snapshot) then 1 else 0)
  }

  /** Turn `i` is rejected with a snapshot that was noted before, and not the one adopted last. */
  ghost predicate Settled(ticks: seq<Tick>, i: nat, snapshot: Snapshot)
    requires i < |ticks|
  {
    RejectedWith(ticks[i], snapshot) && !PassedOver(ticks, i) && SettledBefore(ticks, i, snapshot)
  }

  ghost function SettledTurns(ticks: seq<Tick>, n: nat, snapshot: Snapshot): nat
    requires n <= |ticks|
  {
    if n == 0 then 0 else SettledTurns(ticks, n - 1, snapshot) + (if Settled(ticks, n - 1, snapshot) then 1 else 0)
  }

  lemma {:induction false} CountAdoptionsAdds(a: seq<Restart>, b: seq<Restart>, snapshot: Snapshot)
    ensures CountAdoptions(a + b, snapshot) == CountAdoptions(a, snapshot) + CountAdoptions(b, snapshot)
  {
    if b == [] {
      assert a + b == a;
    } else {
      assert (a + b)[..|a + b| - 1] == a + b[..|b| - 1];
      CountAdoptionsAdds(a, b[..|b| - 1], snapshot);
    }
  }

  lemma CountInTurn(m: Memory, t: Tick, watchesFile: bool, snapshot: Snapshot)
    ensures CountAdoptions(RestartsIn(m, t, watchesFile), snapshot)
      == if watchesFile && AdoptsFile(m, t) && t.file == Some(snapshot) then 1 else 0
  {
    var ask := if t.requested then [ForRequest] else [];
    var file := if watchesFile && AdoptsFile(m, t) then [ForFile(t.file.value)] else [];
    CountAdoptionsAdds(ask, file, snapshot);
    assert [ForRequest][..0] == [] && forall r: Restart :: [r][..0] == [];
  }

  /** The daemon restarts for an enrollment file exactly once for every turn that finds it settled, and not at
      all when no file is watched. */
  lemma {:induction false} OneRestartPerAdoption(ticks: seq<Tick>, n: nat, snapshot: Snapshot)
    requires n <= |ticks|
    ensures CountAdoptions(RestartsAfter(ticks[..n], true), snapshot) == SettledTurns(ticks, n, snapshot)
    ensures CountAdoptions(RestartsAfter(ticks[..n], false), snapshot) == 0
  {
    hide Settled, RestartsIn;
    if n > 0 {
      var before, t := ticks[..n - 1], ticks[n - 1];
      assert ticks[..n][..n - 1] == before;
      OneRestartPerAdoption(ticks, n - 1, snapshot);
      CountAdoptionsAdds(RestartsAfter(before, true), RestartsIn(MemoryAfter(before), t, true), snapshot);
      CountAdoptionsAdds(RestartsAfter(before, false), RestartsIn(FRESH, t, false), snapshot);
      CountInTurn(MemoryAfter(before), t, true, snapshot);
      CountInTurn(FRESH, t, false, snapshot);
      SettledIsAdopting(ticks, n - 1, snapshot);
    }
  }

  lemma SettledIsAdopting(ticks: seq<Tick>, i: nat, snapshot: Snapshot)
    requires i < |ticks|
    ensures Settled(ticks, i, snapshot) <==> AdoptsAt(ticks, i) && ticks[i].file == Some(snapshot)
  {
    if ticks[i].file == Some(snapshot) { AdoptionExactly(ticks, i, snapshot); }
  }

  /** In one turn the request comes before the file. */
  lemma RequestComesFirst(m: Memory, t: Tick, watchesFile: bool, i: nat)
    requires i < |RestartsIn(m, t, watchesFile)|
    ensures t.requested <==> RestartsIn(m, t, watchesFile)[0].ForRequest?
    ensures RestartsIn(m, t, watchesFile)[i].ForRequest? ==> i == 0
  {
  }

  // ---- the announcement ----

  /** The file has been there without a break since a turn that found it while the sign-in worked. */
  ghost predicate Waiting(ticks: seq<Tick>, n: nat)
    requires n <= |ticks|
  {
    exists j :: 0 <= j < n && !IsRejected(ticks[j]) && forall k :: j <= k < n ==> ticks[k].file.Some?
  }

  /** A file that appears while the sign-in works is announced once for as long as it stays. */
  lemma {:induction false} AnnouncedExactly(ticks: seq<Tick>, n: nat)
    requires n <= |ticks|
    ensures MemoryAfter(ticks[..n]).announced <==> Waiting(ticks, n)
  {
    if n > 0 {
      MemoryStep(ticks, n - 1);
      AnnouncedExactly(ticks, n - 1);
      if Waiting(ticks, n - 1) && ticks[n - 1].file.Some? {
        var j :| 0 <= j < n - 1 && !IsRejected(ticks[j]) && forall k :: j <= k < n - 1 ==> ticks[k].file.Some?;
        assert forall k :: j <= k < n ==> ticks[k].file.Some?;
      }
      if Waiting(ticks, n) {
        var j :| 0 <= j < n && !IsRejected(ticks[j]) && forall k :: j <= k < n ==> ticks[k].file.Some?;
        assert ticks[n - 1].file.Some?;
      }
    }
  }
}
