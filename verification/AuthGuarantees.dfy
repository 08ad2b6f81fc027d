/** What watchers of the sign-in channel can rely on in every interleaving of its two threads. */
module AuthGuarantees {
  import opened DaemonTypes
  import opened AuthProtocol
  import opened Sorting
  import Text

  ghost predicate LocksHeld(p: Protocol) {
    && (p.currentLock == HeldByPublisher <==> p.publisher.HoldCurrent?)
    && (p.currentLock == HeldByAcceptor <==> p.acceptor.StatusHoldCurrent? || p.acceptor.WatchHoldBoth?)
    && (p.watchersLock == HeldByPublisher <==> p.publisher.Broadcasting? || p.publisher.Culling?)
    && (p.watchersLock == HeldByAcceptor <==>
        p.acceptor.WatchHoldRegistry? || p.acceptor.WatchWantCurrent? || p.acceptor.WatchHoldBoth? || p.acceptor.WatchWriting?)
  }

  ghost predicate Bounded(p: Protocol) {
    && |p.watchers| <= MAX_WATCHERS
    && (p.acceptor.WatchWantCurrent? || p.acceptor.WatchHoldBoth? || p.acceptor.WatchWriting? ==>
        |p.watchers| < MAX_WATCHERS)
  }

  /** What the publisher's local values say about the history. */
  ghost predicate PublisherKnows(p: Protocol) {
    && p.published != []
    && Latest(p) == p.current.State()
    && (match p.publisher
        case WantCurrent(previous) => previous == Latest(p)
        case HoldCurrent(previous) => previous == Latest(p)
        case Compare(previous) =>
          p.health == p.current &&
          (p.health.State() != previous ==> |p.published| >= 2 && p.published[|p.published| - 2] == previous)
        case WantBroadcast(state) => p.health == p.current && state == Latest(p) && |p.published| >= 2
        case Broadcasting(state, next) =>
          p.health == p.current && state == Latest(p) && |p.published| >= 2 && next <= |p.watchers|
        case _ => p.health == p.current)
  }

  function Latest(p: Protocol): CredentialState
    requires p.published != []
  {
    p.published[|p.published| - 1]
  }

  /** Every line a watcher that registered at `origin` must have received when the broadcasts
      before position `upTo` are done: its first line, then each later state, in order. */
  ghost function Expected(published: seq<CredentialState>, origin: nat, echoed: bool, upTo: nat): seq<CredentialState>
    requires origin < |published| && upTo <= |published|
  {
    var next := if echoed then origin else origin + 1;
    [published[origin]] + (if next <= upTo then published[next..upTo] else [])
  }

  ghost predicate ToldEverything(p: Protocol, w: Watcher, owed: bool) {
    var upTo := if owed then |p.published| - 1 else |p.published|;
    && w.origin < |p.published|
    && (if w.echoed then w.origin else w.origin + 1) <= upTo
    && w.lines == Expected(p.published, w.origin, w.echoed, upTo)
  }

  ghost predicate FeedComplete(p: Protocol)
    requires p.published != []
  {
    && (forall i :: 0 <= i < |p.watchers| ==> ToldEverything(p, p.watchers[i], Owed(p, i)))
    && (p.acceptor.WatchWriting? ==>
        var WatchWriting(id, read, origin, echoed) := p.acceptor;
        ToldEverything(p, Watcher(id, [read], origin, echoed), BroadcastPending(p)))
  }

  ghost predicate Invariant(p: Protocol) {
    && LocksHeld(p)
    && Bounded(p)
    && PublisherKnows(p)
    && NoRepeats(p.published)
    && FeedComplete(p)
    && RequestsCovered(p)
  }

  lemma StepKeepsLocks(p: Protocol, e: Event)
    requires LocksHeld(p)
    ensures LocksHeld(Step(p, e))
  {
  }

  lemma StepKeepsBound(p: Protocol, e: Event)
    requires LocksHeld(p) && Bounded(p)
    ensures Bounded(Step(p, e))
  {
  }

  /** Restarts, and a request still standing, are paid for by requests received. */
  ghost predicate RequestsCovered(p: Protocol) {
    p.restarts + (if p.restartRequested then 1 else 0) <= p.requests
  }

  lemma StepKeepsRequests(p: Protocol, e: Event)
    requires RequestsCovered(p)
    ensures RequestsCovered(Step(p, e))
  {
  }

  /** A step that leaves the registry, the history and the debts alone keeps the feed complete. */
  lemma FeedFrame(p: Protocol, q: Protocol)
    requires p.published != [] && FeedComplete(p)
    requires q.published == p.published && q.watchers == p.watchers
    requires forall i :: 0 <= i < |p.watchers| ==> Owed(q, i) == Owed(p, i)
    requires q.acceptor.WatchWriting? ==> q.acceptor == p.acceptor && BroadcastPending(q) == BroadcastPending(p)
    ensures FeedComplete(q)
  {
    forall i | 0 <= i < |q.watchers|
      ensures ToldEverything(q, q.watchers[i], Owed(q, i))
    {
      assert ToldEverything(p, p.watchers[i], Owed(p, i));
    }
  }

  lemma ExpectedExtends(published: seq<CredentialState>, more: seq<CredentialState>, w: Watcher)
    requires published <= more && w.origin < |published|
    ensures Expected(published, w.origin, w.echoed, |published|) == Expected(more, w.origin, w.echoed, |published|)
  {
    var next := if w.echoed then w.origin else w.origin + 1;
    assert published[next..|published|] == more[next..|published|];
  }

  lemma NewDebt(p: Protocol, q: Protocol, w: Watcher)
    requires p.published != [] && ToldEverything(p, w, false)
    requires p.published <= q.published && |q.published| <= |p.published| + 1
    ensures ToldEverything(q, w, |q.published| > |p.published|)
  {
    hide Expected;
    ExpectedExtends(p.published, q.published, w);
  }

  lemma Store(p: Protocol)
    requires PublisherKnows(p) && p.publisher.HoldCurrent?
    ensures var q := PublisherStep(p);
      && p.published <= q.published && |q.published| <= |p.published| + 1 && q.watchers == p.watchers && q.acceptor == p.acceptor
      && (BroadcastPending(q) <==> |q.published| > |p.published|) && q.publisher.Compare?
      && !BroadcastPending(p)
  {
  }

  /** Storing a new state puts every watcher in debt by exactly that state. */
  lemma StoreKeepsFeed(p: Protocol)
    requires Invariant(p) && p.publisher.HoldCurrent?
    ensures PublisherStep(p).published != [] && FeedComplete(PublisherStep(p))
  {
    Store(p);
    hide PublisherStep, ToldEverything, BroadcastPending;
    var q := PublisherStep(p);
    forall i | 0 <= i < |p.watchers|
      ensures ToldEverything(q, q.watchers[i], Owed(q, i))
    {
      assert ToldEverything(p, p.watchers[i], Owed(p, i));
      NewDebt(p, q, p.watchers[i]);
    }
    if p.acceptor.WatchWriting? {
      var WatchWriting(id, read, origin, echoed) := p.acceptor;
      NewDebt(p, q, Watcher(id, [read], origin, echoed));
    }
  }

  lemma SettleDebt(p: Protocol, w: Watcher, state: CredentialState)
    requires p.published != [] && state == Latest(p) && ToldEverything(p, w, true)
    ensures ToldEverything(p, w.(lines := w.lines + [state]), false)
  {
    var n := |p.published|;
    var from := if w.echoed then w.origin else w.origin + 1;
    assert p.published[from..n] == p.published[from..n - 1] + [state];
  }

  /** A broadcast line settles what one watcher is owed; a failed write drops the watcher. */
  lemma WriteKeepsFeed(p: Protocol, ok: bool)
    requires Invariant(p) && p.publisher.Broadcasting? && p.publisher.next < |p.watchers|
    ensures FeedComplete(PublisherWrite(p, ok))
  {
    var q := PublisherWrite(p, ok);
    var next := p.publisher.next;
    if ok {
      assert ToldEverything(p, p.watchers[next], true);
      SettleDebt(p, p.watchers[next], p.publisher.state);
    }
    forall i | 0 <= i < |q.watchers| && !(ok && i == next)
      ensures ToldEverything(q, q.watchers[i], Owed(q, i))
    {
      var j := if ok || i < next then i else i + 1;
      assert q.watchers[i] == p.watchers[j];
      assert ToldEverything(p, p.watchers[j], Owed(p, j));
    }
  }

  lemma CullKeepsFeed(p: Protocol, gone: set<nat>)
    requires Invariant(p) && p.publisher.Culling?
    ensures FeedComplete(Step(p, Cull(gone)))
  {
    var q := Step(p, Cull(gone));
    forall i | 0 <= i < |q.watchers|
      ensures ToldEverything(q, q.watchers[i], Owed(q, i))
    {
      assert q.watchers[i] in p.watchers;
      var j :| 0 <= j < |p.watchers| && p.watchers[j] == q.watchers[i];
      assert ToldEverything(p, p.watchers[j], Owed(p, j));
    }
  }

  /** Reading `current` makes its state the first thing the new watcher is told. */
  lemma ReadKeepsFeed(p: Protocol)
    requires Invariant(p) && p.acceptor.WatchHoldBoth?
    ensures FeedComplete(AcceptorStep(p))
  {
    var q := AcceptorStep(p);
    var n := |p.published|;
    assert p.published[n - 1..n - 1] == [] == p.published[n..n];
    forall i | 0 <= i < |q.watchers|
      ensures ToldEverything(q, q.watchers[i], Owed(q, i))
    {
      assert ToldEverything(p, p.watchers[i], Owed(p, i));
    }
  }

  lemma GreetKeepsFeed(p: Protocol, ok: bool)
    requires Invariant(p) && p.acceptor.WatchWriting?
    ensures FeedComplete(AcceptorGreet(p, ok))
  {
    var q := AcceptorGreet(p, ok);
    forall i | 0 <= i < |p.watchers|
      ensures ToldEverything(q, q.watchers[i], Owed(q, i))
    {
      assert ToldEverything(p, p.watchers[i], Owed(p, i));
    }
  }

  lemma PublisherKeepsKnowing(p: Protocol, e: Event)
    requires LocksHeld(p) && PublisherKnows(p) && (e.Sample? || e.Publisher? || e.Write? || e.Cull?)
    ensures PublisherKnows(Step(p, e))
  {
  }

  lemma StepKeepsPublisher(p: Protocol, e: Event)
    requires LocksHeld(p) && PublisherKnows(p)
    ensures PublisherKnows(Step(p, e))
  {
    if e.Sample? || e.Publisher? || e.Write? || e.Cull? {
      PublisherKeepsKnowing(p, e);
    } else {
      OtherThreadIsFramed(p, e);
    }
  }

  /** The acceptor changes nothing the publisher relies on. */
  lemma OtherThreadIsFramed(p: Protocol, e: Event)
    requires LocksHeld(p) && (e.Status? || e.Watch? || e.EnrollmentComplete? || e.Acceptor? || e.Greet?)
    ensures var q := Step(p, e);
      && q.health == p.health && q.current == p.current && q.published == p.published && q.publisher == p.publisher
      && (p.publisher.Broadcasting? ==> q.watchers == p.watchers)
  {
  }

  lemma StepKeepsHistory(p: Protocol, e: Event)
    requires PublisherKnows(p) && NoRepeats(p.published)
    ensures NoRepeats(Step(p, e).published)
  {
    if e.Publisher? && p.publisher.HoldCurrent? {
      assert p.publisher.previous == Latest(p);
    } else {
      assert Step(p, e).published == p.published;
    }
  }

  /** The steps that touch neither the registry nor the history. */
  predicate Quiet(p: Protocol, e: Event) {
    && (e.Publisher? ==> !p.publisher.HoldCurrent?)
    && (e.Write? ==> !p.publisher.Broadcasting? || p.publisher.next >= |p.watchers|)
    && (e.Cull? ==> !p.publisher.Culling?)
    && (e.Acceptor? ==> !p.acceptor.WatchHoldBoth?)
    && (e.Greet? ==> !p.acceptor.WatchWriting?)
  }

  ghost predicate DebtsKept(p: Protocol, q: Protocol) {
    && q.published == p.published && q.watchers == p.watchers
    && (forall i :: 0 <= i < |p.watchers| ==> Owed(q, i) == Owed(p, i))
    && (q.acceptor.WatchWriting? ==> q.acceptor == p.acceptor && BroadcastPending(q) == BroadcastPending(p))
  }

  lemma QuietPublisher(p: Protocol, e: Event)
    requires LocksHeld(p) && PublisherKnows(p) && Quiet(p, e) && (e.Publisher? || e.Sample? || e.Write? || e.Cull?)
    ensures DebtsKept(p, Step(p, e))
  {
    hide AcceptorStep, AcceptorGreet;
  }

  lemma QuietAcceptor(p: Protocol, e: Event)
    requires LocksHeld(p) && Quiet(p, e) && !(e.Publisher? || e.Sample? || e.Write? || e.Cull?)
    ensures DebtsKept(p, Step(p, e))
  {
    hide PublisherStep, PublisherSample, PublisherWrite;
  }

  lemma QuietKeepsDebts(p: Protocol, e: Event)
    requires LocksHeld(p) && PublisherKnows(p) && Quiet(p, e)
    ensures DebtsKept(p, Step(p, e))
  {
    hide Step, DebtsKept;
    if e.Publisher? || e.Sample? || e.Write? || e.Cull? { QuietPublisher(p, e); } else { QuietAcceptor(p, e); }
  }

  lemma StepKeepsFeed(p: Protocol, e: Event)
    requires Invariant(p)
    ensures Step(p, e).published != [] && FeedComplete(Step(p, e))
  {
    if Quiet(p, e) {
      QuietKeepsDebts(p, e);
      FeedFrame(p, Step(p, e));
    } else {
      match e
      case Publisher => StoreKeepsFeed(p);
      case Write(ok) => WriteKeepsFeed(p, ok);
      case Cull(gone) => CullKeepsFeed(p, gone);
      case Acceptor => ReadKeepsFeed(p);
      case Greet(ok) => GreetKeepsFeed(p, ok);
    }
  }

  /** The invariant holds after every interleaving of the two threads. */
  lemma {:induction false} RunKeepsInvariant(h: Health, events: seq<Event>)
    ensures Invariant(Run(Start(h), events))
  {
    if events != [] {
      var p, e := Run(Start(h), events[..|events| - 1]), events[|events| - 1];
      RunKeepsInvariant(h, events[..|events| - 1]);
      StepKeepsLocks(p, e);
      StepKeepsBound(p, e);
      StepKeepsRequests(p, e);
      StepKeepsPublisher(p, e);
      StepKeepsHistory(p, e);
      StepKeepsFeed(p, e);
    }
  }

  // ---- what the publisher has seen ----

  /** The samples the publisher took, the first one at its start: a sample is taken when it is ready for one. */
  function Samples(h: Health, events: seq<Event>): (samples: seq<Health>)
    ensures samples != []
  {
    if events == [] then [h] else
      var front, e := events[..|events| - 1], events[|events| - 1];
      Samples(h, front) + (if e.Sample? && Run(Start(h), front).publisher.Sampling? then [e.health] else [])
  }

  function LastSample(h: Health, events: seq<Event>): Health {
    var samples := Samples(h, events);
    samples[|samples| - 1]
  }

  /** A changed sample is on its way to `current`. */
  predicate Storing(p: Protocol) {
    p.publisher.WantCurrent? || p.publisher.HoldCurrent?
  }

  /** The publisher holds the last sample, and has stored it unless it is just about to. */
  lemma {:induction false} SampleIsTaken(h: Health, events: seq<Event>)
    ensures Run(Start(h), events).health == LastSample(h, events)
    ensures !Storing(Run(Start(h), events)) ==> Run(Start(h), events).current == LastSample(h, events)
  {
    hide AcceptorStep, AcceptorGreet;
    RunKeepsInvariant(h, events);
    if events != [] {
      var front := events[..|events| - 1];
      SampleIsTaken(h, front);
      RunKeepsInvariant(h, front);
      SampleMoves(Run(Start(h), front), events[|events| - 1]);
    }
  }

  lemma SampleMoves(p: Protocol, e: Event)
    ensures Step(p, e).health == if e.Sample? && p.publisher.Sampling? then e.health else p.health
  {
  }

  function StatesOf(samples: seq<Health>): seq<CredentialState> {
    if samples == [] then [] else StatesOf(samples[..|samples| - 1]) + [samples[|samples| - 1].State()]
  }

  /** The samples that have reached `current`. */
  function Stored(h: Health, events: seq<Event>): seq<Health> {
    var samples := Samples(h, events);
    if Storing(Run(Start(h), events)) then samples[..|samples| - 1] else samples
  }

  lemma StatesGrow(samples: seq<Health>, x: Health)
    ensures StatesOf(samples + [x]) == StatesOf(samples) + [x.State()]
  {
    assert (samples + [x])[..|samples|] == samples;
  }

  lemma ChangesGrow(start: CredentialState, samples: seq<Health>, x: Health)
    ensures Changes(start, StatesOf(samples + [x]))
       == Changes(start, StatesOf(samples))
        + (if x.State() == LastOf(start, Changes(start, StatesOf(samples))) then [] else [x.State()])
  {
    StatesGrow(samples, x);
    var xs := StatesOf(samples);
    ChangesKeepLast(start, xs);
    assert (xs + [x.State()])[..|xs|] == xs;
  }

  /** What is published is what was sampled: the states of the samples stored so far, each time one differs
      from the one before it. */
  lemma {:induction false} PublishedIsSampled(h: Health, events: seq<Event>)
    ensures Run(Start(h), events).published == [h.State()] + Changes(h.State(), StatesOf(Stored(h, events)))
  {
    hide Step, StatesOf, Changes, Invariant;
    if events == [] {
      OneSample(h);
    } else {
      var front, e := events[..|events| - 1], events[|events| - 1];
      var p, samples := Run(Start(h), front), Samples(h, front);
      PublishedIsSampled(h, front);
      RunKeepsInvariant(h, front);
      SampleIsTaken(h, front);
      PublishedMoves(h, p, e, samples);
    }
  }

  lemma OneSample(h: Health)
    ensures Changes(h.State(), StatesOf([h])) == []
  {
    assert [h][..0] == [];
    assert StatesOf([h]) == [h.State()] && [h.State()][..0] == [];
  }

  /** What one event does to the sampled and the published states, by where the publisher stands. */
  lemma HistoryMoves(p: Protocol, e: Event)
    requires Invariant(p)
    ensures var q := Step(p, e);
      if e.Sample? && p.publisher.Sampling? then
        q.published == p.published && (Storing(q) || e.health == p.health)
      else if e.Publisher? && p.publisher.HoldCurrent? then
        !Storing(q) && q.published == p.published + (if p.health.State() == Latest(p) then [] else [p.health.State()])
      else q.published == p.published && Storing(q) == Storing(p)
  {
    if e.Sample? || e.Publisher? || e.Write? || e.Cull? {
      hide AcceptorStep, AcceptorGreet;
    } else {
      OtherThreadIsFramed(p, e);
      hide Step;
    }
  }

  lemma PublishedMoves(h: Health, p: Protocol, e: Event, samples: seq<Health>)
    requires Invariant(p) && samples != [] && p.health == samples[|samples| - 1]
    requires var stored := if Storing(p) then samples[..|samples| - 1] else samples;
      p.published == [h.State()] + Changes(h.State(), StatesOf(stored))
    ensures var now := samples + (if e.Sample? && p.publisher.Sampling? then [e.health] else []);
      var stored := if Storing(Step(p, e)) then now[..|now| - 1] else now;
      Step(p, e).published == [h.State()] + Changes(h.State(), StatesOf(stored))
  {
    hide StatesOf, Changes, Step, Invariant;
    HistoryMoves(p, e);
    if e.Sample? && p.publisher.Sampling? {
      assert (samples + [e.health])[..|samples|] == samples;
      ChangesGrow(h.State(), samples, e.health);
      LatestIsLast(h, p, samples);
    } else if e.Publisher? && p.publisher.HoldCurrent? {
      var front := samples[..|samples| - 1];
      assert front + [p.health] == samples && samples + [] == samples;
      ChangesGrow(h.State(), front, p.health);
      LatestIsLast(h, p, front);
      Text.Assoc([h.State()], Changes(h.State(), StatesOf(front)),
                 if p.health.State() == Latest(p) then [] else [p.health.State()]);
    } else {
      assert samples + [] == samples;
    }
  }

  lemma LatestIsLast(h: Health, p: Protocol, stored: seq<Health>)
    requires Invariant(p) && p.published == [h.State()] + Changes(h.State(), StatesOf(stored))
    ensures Latest(p) == LastOf(h.State(), Changes(h.State(), StatesOf(stored)))
    ensures !Storing(p) ==> Latest(p) == p.health.State()
  {
    hide Changes, StatesOf;
  }

  // ---- what the watchers can rely on ----

  /** What the pending broadcast writes: the state the publisher took along, or is about to. */
  function ToBroadcast(p: Protocol): CredentialState
    requires BroadcastPending(p)
  {
    match p.publisher
    case WantBroadcast(state) => state
    case Broadcasting(state, _) => state
    case _ => p.health.State()
  }

  lemma PendingIsCurrent(p: Protocol)
    requires PublisherKnows(p) && BroadcastPending(p)
    ensures ToBroadcast(p) == p.current.State()
    ensures p.publisher.Compare? ==> Step(p, Publisher).publisher == WantBroadcast(ToBroadcast(p))
  {
  }

  lemma LastLine(p: Protocol, i: nat)
    requires Invariant(p) && i < |p.watchers|
    ensures p.watchers[i].lines != []
    ensures !Owed(p, i) ==> p.watchers[i].lines[|p.watchers[i].lines| - 1] == p.current.State()
    ensures Owed(p, i) ==> BroadcastPending(p) && ToBroadcast(p) == p.current.State()
  {
    assert ToldEverything(p, p.watchers[i], Owed(p, i));
    if Owed(p, i) { PendingIsCurrent(p); }
  }

  /** No update is lost: at every moment of every interleaving a watcher has received its first
      line and then every later state in order, and at most the last state is still to come. */
  lemma WatcherIsToldEverything(h: Health, events: seq<Event>, p: Protocol, i: nat)
    requires p == Run(Start(h), events) && i < |p.watchers|
    ensures p.published == [h.State()] + Changes(h.State(), StatesOf(Stored(h, events)))
    ensures p.published != [] && ToldEverything(p, p.watchers[i], Owed(p, i))
    ensures p.watchers[i].lines != []
    ensures !Owed(p, i) ==> p.watchers[i].lines[|p.watchers[i].lines| - 1] == p.current.State()
    ensures Owed(p, i) ==> BroadcastPending(p) && ToBroadcast(p) == p.current.State()
    ensures !Storing(p) ==> p.current == LastSample(h, events)
  {
    hide Changes, StatesOf, Step;
    RunKeepsInvariant(h, events);
    LastLine(p, i);
    PublishedIsSampled(h, events);
    SampleIsTaken(h, events);
  }

  /** The lines after the first are a run of the history. */
  lemma LaterLine(p: Protocol, w: Watcher, owed: bool, j: nat)
    requires p.published != [] && ToldEverything(p, w, owed) && 1 <= j < |w.lines|
    ensures var at := (if w.echoed then w.origin else w.origin + 1) + j - 1;
      at < |p.published| && w.lines[j] == p.published[at]
  {
  }

  /** Only the first two lines can be equal, when the first was read before its own broadcast. */
  lemma NoRepeatAfterSecondLine(h: Health, events: seq<Event>, p: Protocol, i: nat, j: nat)
    requires p == Run(Start(h), events) && i < |p.watchers|
    requires 1 <= j && j + 1 < |p.watchers[i].lines|
    ensures p.watchers[i].lines[j] != p.watchers[i].lines[j + 1]
  {
    RunKeepsInvariant(h, events);
    assert ToldEverything(p, p.watchers[i], Owed(p, i));
    hide ToldEverything, Run, Owed;
    LaterLine(p, p.watchers[i], Owed(p, i), j);
    LaterLine(p, p.watchers[i], Owed(p, i), j + 1);
  }

  /** Once the publisher is back at its sample, everybody's last line is what it sampled last. */
  lemma CaughtUpBetweenSamples(h: Health, events: seq<Event>, p: Protocol, i: nat)
    requires p == Run(Start(h), events) && p.publisher.Sampling? && i < |p.watchers|
    ensures p.watchers[i].lines != []
    ensures p.watchers[i].lines[|p.watchers[i].lines| - 1] == LastSample(h, events).State()
  {
    RunKeepsInvariant(h, events);
    LastLine(p, i);
    SampleIsTaken(h, events);
  }

  lemma NeverMoreThanEight(h: Health, events: seq<Event>)
    ensures |Run(Start(h), events).watchers| <= 8
  {
    RunKeepsInvariant(h, events);
  }

  predicate PublisherBlocked(p: Protocol) {
    || (p.publisher.WantCurrent? && !p.currentLock.Free?)
    || ((p.publisher.WantBroadcast? || p.publisher.WantCull?) && !p.watchersLock.Free?)
  }

  predicate AcceptorBlocked(p: Protocol) {
    || ((p.acceptor.StatusWantCurrent? || p.acceptor.WatchWantCurrent?) && !p.currentLock.Free?)
    || (p.acceptor.WatchWantRegistry? && !p.watchersLock.Free?)
  }

  /** The acceptor takes `current` while it holds `watchers`; the publisher never holds both, so
      the two threads cannot wait for each other, nor a thread for itself. */
  lemma NoDeadlock(h: Health, events: seq<Event>)
    ensures !(PublisherBlocked(Run(Start(h), events)) && AcceptorBlocked(Run(Start(h), events)))
  {
    RunKeepsInvariant(h, events);
  }

  /** A request survives every interleaving until the check that restarts because of it, and
      requests are never outnumbered by the restarts they cause. */
  lemma {:induction false} RequestIsHonoured(p: Protocol, events: seq<Event>)
    requires p.restartRequested
    ensures Run(p, events).restartRequested || Run(p, events).restarts > p.restarts
    ensures Run(p, events).restarts >= p.restarts
    ensures Run(p, events).publisher.CheckRestart? ==> Step(Run(p, events), Publisher).restarts > p.restarts
  {
    if events != [] {
      RequestIsHonoured(p, events[..|events| - 1]);
    }
  }

  lemma RestartsNeverOutnumberRequests(h: Health, events: seq<Event>)
    ensures Run(Start(h), events).restarts <= Run(Start(h), events).requests
  {
    RunKeepsInvariant(h, events);
  }
}
