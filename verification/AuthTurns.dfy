/** What the two threads of the sign-in channel do when nothing comes between: a whole turn of the publisher,
    a whole request of a client, and who leaves the registry. */
module AuthTurns {
  import opened Text
  import opened DaemonTypes
  import opened AuthProtocol
  import opened AuthGuarantees

  // ---- runs in parts ----

  lemma RunOne(p: Protocol, e: Event)
    ensures Run(p, [e]) == Step(p, e)
  {
    assert [e][..0] == [] && Run(p, []) == p;
  }

  lemma {:induction false} RunAppend(p: Protocol, a: seq<Event>, b: seq<Event>)
    ensures Run(p, a + b) == Run(Run(p, a), b)
  {
    hide Step;
    if b == [] {
      assert a + b == a;
    } else {
      assert (a + b)[..|a + b| - 1] == a + b[..|b| - 1];
      RunAppend(p, a, b[..|b| - 1]);
    }
  }

  lemma RunFirst(p: Protocol, e: Event, more: seq<Event>)
    ensures Run(p, [e] + more) == Run(Step(p, e), more)
  {
    hide Step, Run;
    RunAppend(p, [e], more);
    RunOne(p, e);
  }

  // ---- a request for the feed ----

  predicate BothFree(p: Protocol) {
    p.currentLock.Free? && p.watchersLock.Free?
  }

  const ASK: seq<Event> := [Watch, Acceptor, Acceptor, Acceptor, Acceptor]

  /** A client that asks for the feed is registered with the state in `current` as its first line when fewer than
      eight are and the line gets through; it is dropped without a line otherwise. */
  lemma WatchIsServed(p: Protocol, ok: bool)
    requires p.acceptor.Listening? && BothFree(p)
    ensures |p.watchers| < 8 ==>
      Run(p, ASK + [Greet(ok)]) == p.(connections := p.connections + 1, watchers :=
        if ok then p.watchers + [Watcher(p.connections, [p.current.State()], Position(p), BroadcastPending(p))] else p.watchers)
    ensures |p.watchers| >= 8 ==> Run(p, [Watch, Acceptor, Acceptor]) == p.(connections := p.connections + 1)
  {
    hide Run, Step, BroadcastPending, Position;
    var holding := Holding(p);
    AskSteps(p);
    if |p.watchers| < 8 {
      RoomSteps(p, holding);
      RunFive(p, Watch, Acceptor, Acceptor, Acceptor, Acceptor);
      RunAppend(p, ASK, [Greet(ok)]);
      RunOne(Reading(p), Greet(ok));
      GreetStep(p, ok);
    } else {
      NoRoomStep(p, holding);
      RunThree(p, Watch, Acceptor, Acceptor);
    }
  }

  /** A status query takes the lock on `current` for itself, reads, and leaves everything as it was. */
  lemma StatusIsServed(p: Protocol)
    requires p.acceptor.Listening? && BothFree(p)
    ensures var holding := Step(Step(p, Status), Acceptor);
      && holding == p.(currentLock := HeldByAcceptor, acceptor := StatusHoldCurrent)
      && Step(holding, Acceptor) == p
  {
    hide PublisherStep, PublisherSample, PublisherWrite, AcceptorGreet;
  }

  /** The request holds the registry. */
  function Holding(p: Protocol): Protocol {
    p.(connections := p.connections + 1, watchersLock := HeldByAcceptor, acceptor := WatchHoldRegistry(p.connections))
  }

  /** The request has read `current` and is about to write its first line. */
  function Reading(p: Protocol): Protocol {
    Holding(p).(acceptor := WatchWriting(p.connections, p.current.State(), Position(p), BroadcastPending(p)))
  }

  lemma AskSteps(p: Protocol)
    requires p.acceptor.Listening? && BothFree(p)
    ensures Step(Step(p, Watch), Acceptor) == Holding(p)
  {
    hide PublisherStep, PublisherSample, PublisherWrite, AcceptorGreet;
    assert Step(p, Watch) == p.(connections := p.connections + 1, acceptor := WatchWantRegistry(p.connections));
  }

  lemma RoomSteps(p: Protocol, holding: Protocol)
    requires BothFree(p) && holding == Holding(p) && |p.watchers| < 8
    ensures Step(Step(Step(holding, Acceptor), Acceptor), Acceptor) == Reading(p)
  {
    hide PublisherStep, PublisherSample, PublisherWrite, AcceptorGreet, BroadcastPending, Position;
    var wanting := holding.(acceptor := WatchWantCurrent(p.connections));
    var both := wanting.(currentLock := HeldByAcceptor, acceptor := WatchHoldBoth(p.connections));
    assert Step(holding, Acceptor) == wanting;
    assert Step(wanting, Acceptor) == both;
    SamePlace(p, both);
  }

  lemma NoRoomStep(p: Protocol, holding: Protocol)
    requires p.acceptor.Listening? && BothFree(p) && holding == Holding(p) && |p.watchers| >= 8
    ensures Step(holding, Acceptor) == p.(connections := p.connections + 1)
  {
    hide PublisherStep, PublisherSample, PublisherWrite, AcceptorGreet;
  }

  lemma GreetStep(p: Protocol, ok: bool)
    requires p.acceptor.Listening? && BothFree(p)
    ensures Step(Reading(p), Greet(ok)) == p.(connections := p.connections + 1, watchers :=
      if ok then p.watchers + [Watcher(p.connections, [p.current.State()], Position(p), BroadcastPending(p))] else p.watchers)
  {
    hide PublisherStep, PublisherSample, PublisherWrite, AcceptorStep, Position, BroadcastPending;
  }

  lemma SamePlace(p: Protocol, q: Protocol)
    requires q.published == p.published && q.publisher == p.publisher && q.health == p.health
    ensures Position(q) == Position(p) && BroadcastPending(q) == BroadcastPending(p)
  {
  }

  lemma RunThree(p: Protocol, a: Event, b: Event, c: Event)
    ensures Run(p, [a, b, c]) == Step(Step(Step(p, a), b), c)
  {
    hide Step, Run;
    RunOne(p, a);
    RunOne(Step(p, a), b);
    RunOne(Step(Step(p, a), b), c);
    RunAppend(p, [a], [b]);
    RunAppend(p, [a] + [b], [c]);
    assert [a] + [b] + [c] == [a, b, c];
  }

  lemma RunFive(p: Protocol, a: Event, b: Event, c: Event, d: Event, e: Event)
    ensures Run(p, [a, b, c, d, e]) == Step(Step(Step(Step(Step(p, a), b), c), d), e)
  {
    hide Step, Run;
    RunThree(p, a, b, c);
    var q := Step(Step(Step(p, a), b), c);
    RunOne(q, d);
    RunOne(Step(q, d), e);
    RunAppend(p, [a, b, c], [d]);
    RunAppend(p, [a, b, c] + [d], [e]);
    assert [a, b, c] + [d] + [e] == [a, b, c, d, e];
  }

  // ---- who leaves ----

  /** The step is a failed line to watcher `i`, or finds its peer gone. */
  predicate Loses(p: Protocol, e: Event, i: nat)
    requires i < |p.watchers|
  {
    || (e == Write(false) && p.publisher.Broadcasting? && p.publisher.next == i)
    || (e.Cull? && p.publisher.Culling? && p.watchers[i].id in e.gone)
  }

  /** The watcher is still there with every line it was sent. */
  ghost predicate Stays(w: Watcher, ws: seq<Watcher>) {
    exists j :: 0 <= j < |ws| && ws[j].id == w.id && w.lines <= ws[j].lines
  }

  /** A watcher leaves the registry only when a line to it fails or its peer has hung up. */
  lemma OnlyTheGoneLeave(p: Protocol, e: Event, i: nat)
    requires i < |p.watchers| && !Loses(p, e, i)
    ensures Stays(p.watchers[i], Step(p, e).watchers)
  {
    var w, q := p.watchers[i], Step(p, e);
    if e.Write? && p.publisher.Broadcasting? && p.publisher.next < |p.watchers| {
      var j := if !e.ok && i > p.publisher.next then i - 1 else i;
      assert q.watchers[j].id == w.id && w.lines <= q.watchers[j].lines;
    } else if e.Cull? && p.publisher.Culling? {
      assert w in q.watchers;
    } else {
      hide PublisherStep, PublisherSample;
      StaysPut(p, e);
      assert q.watchers[i] == w;
    }
  }

  lemma StaysPut(p: Protocol, e: Event)
    requires !(e.Write? && p.publisher.Broadcasting? && p.publisher.next < |p.watchers|) && !(e.Cull? && p.publisher.Culling?)
    ensures p.watchers <= Step(p, e).watchers
  {
  }

  // ---- a turn of the publisher ----

  /** The watchers, each with one more line. */
  function Told(ws: seq<Watcher>, state: CredentialState): (r: seq<Watcher>)
    ensures |r| == |ws| && forall i :: 0 <= i < |ws| ==> r[i] == ws[i].(lines := ws[i].lines + [state])
  {
    if ws == [] then [] else Told(ws[..|ws| - 1], state) + [ws[|ws| - 1].(lines := ws[|ws| - 1].lines + [state])]
  }

  function Writes(n: nat): seq<Event> {
    seq(n, _ => Write(true))
  }

  /** One line to each watcher from number `k` on. */
  lemma {:induction false} WritesReachAll(p: Protocol, state: CredentialState, k: nat)
    requires k <= |p.watchers| && p.publisher == Broadcasting(state, k)
    ensures Run(p, Writes(|p.watchers| - k)) == p.(
      watchers := p.watchers[..k] + Told(p.watchers[k..], state), publisher := Broadcasting(state, |p.watchers|))
    decreases |p.watchers| - k
  {
    hide Run;
    var n := |p.watchers|;
    if k == n {
      assert Writes(0) == [] && Told([], state) == [] && p.watchers[..k] + [] == p.watchers && p.watchers[k..] == [];
      NoEvents(p);
    } else {
      var w := p.watchers[k];
      var q := p.(watchers := p.watchers[k := w.(lines := w.lines + [state])], publisher := Broadcasting(state, k + 1));
      assert Step(p, Write(true)) == q;
      hide Step, Told;
      WritesReachAll(q, state, k + 1);
      assert Writes(n - k) == [Write(true)] + Writes(n - k - 1);
      RunFirst(p, Write(true), Writes(n - k - 1));
      OneMoreTold(p.watchers, q.watchers, k, state);
    }
  }

  lemma OneMoreTold(ws: seq<Watcher>, more: seq<Watcher>, k: nat, state: CredentialState)
    requires k < |ws| && more == ws[k := ws[k].(lines := ws[k].lines + [state])]
    ensures more[..k + 1] + Told(more[k + 1..], state) == ws[..k] + Told(ws[k..], state)
  {
    TellFirst(ws[k..], state);
    hide Told;
    assert ws[k..][1..] == ws[k + 1..] == more[k + 1..];
    assert more[..k + 1] == ws[..k] + [more[k]];
    Assoc(ws[..k], [more[k]], Told(ws[k + 1..], state));
  }

  lemma NoEvents(p: Protocol)
    ensures Run(p, []) == p
  {
  }

  lemma TellFirst(ws: seq<Watcher>, state: CredentialState)
    requires ws != []
    ensures Told(ws, state) == [ws[0].(lines := ws[0].lines + [state])] + Told(ws[1..], state)
  {
  }

  /** The broadcast of a changed state. */
  function BroadcastEvents(n: nat): seq<Event> {
    [Publisher] + Writes(n) + [Publisher]
  }

  lemma BroadcastTells(p: Protocol, state: CredentialState)
    requires p.publisher == WantBroadcast(state) && p.watchersLock.Free?
    ensures Run(p, BroadcastEvents(|p.watchers|)) == p.(watchers := Told(p.watchers, state), publisher := WantCull)
  {
    hide Run, Step, Told;
    var n, q := |p.watchers|, p.(watchersLock := HeldByPublisher, publisher := Broadcasting(state, 0));
    BroadcastEnds(p, state);
    RunFirst(p, Publisher, Writes(n) + [Publisher]);
    assert BroadcastEvents(n) == [Publisher] + (Writes(n) + [Publisher]);
    WritesReachAll(q, state, 0);
    var told := Told(p.watchers, state);
    assert q.watchers[0..] == p.watchers && q.watchers[..0] + told == told;
    RunAppend(q, Writes(n), [Publisher]);
    RunOne(Run(q, Writes(n)), Publisher);
  }

  lemma BroadcastEnds(p: Protocol, state: CredentialState)
    requires p.publisher == WantBroadcast(state) && p.watchersLock.Free?
    ensures var q := p.(watchersLock := HeldByPublisher, publisher := Broadcasting(state, 0));
      && Step(p, Publisher) == q
      && forall ws: seq<Watcher> :: |ws| == |p.watchers| ==>
        Step(q.(watchers := ws, publisher := Broadcasting(state, |ws|)), Publisher) == p.(watchers := ws, publisher := WantCull)
  {
    hide AcceptorStep, AcceptorGreet, PublisherSample, PublisherWrite;
  }

  /** The end of a turn: peers that hung up are dropped, and a request that came in restarts the daemon. */
  lemma EndOfTurn(p: Protocol, gone: set<nat>)
    requires p.publisher.WantCull? && p.watchersLock.Free?
    ensures Run(p, [Publisher, Cull(gone), Publisher]) == p.(
      watchers := Retain(p.watchers, gone), publisher := Sampling,
      restartRequested := false, restarts := p.restarts + (if p.restartRequested then 1 else 0))
  {
    hide Run, Retain, PublisherSample, PublisherWrite, AcceptorStep, AcceptorGreet;
    RunThree(p, Publisher, Cull(gone), Publisher);
    var culling := p.(watchersLock := HeldByPublisher, publisher := Culling);
    assert Step(p, Publisher) == culling;
    assert Step(culling, Cull(gone)) == p.(watchers := Retain(p.watchers, gone), publisher := CheckRestart);
  }

  /** The start of a turn: a changed sample is stored, and a changed state is to be broadcast. */
  lemma StartOfTurn(p: Protocol, h: Health)
    requires p.publisher.Sampling? && p.currentLock.Free?
    ensures h == p.health ==> Run(p, [Sample(h)]) == p.(publisher := WantCull)
    ensures h != p.health ==>
      Run(p, [Sample(h), Publisher, Publisher] + [Publisher]) == p.(health := h, current := h,
        publisher := if h.State() != p.health.State() then WantBroadcast(h.State()) else WantCull,
        published := if h.State() != p.health.State() then p.published + [h.State()] else p.published)
  {
    hide Run;
    RunOne(p, Sample(h));
    RunThree(p, Sample(h), Publisher, Publisher);
    RunAppend(p, [Sample(h), Publisher, Publisher], [Publisher]);
    RunOne(Run(p, [Sample(h), Publisher, Publisher]), Publisher);
  }

  function TurnEvents(p: Protocol, h: Health, gone: set<nat>): seq<Event> {
    (if h == p.health then [Sample(h)] else [Sample(h), Publisher, Publisher] + [Publisher])
    + (if h.State() != p.health.State() then BroadcastEvents(|p.watchers|) else [])
    + [Publisher, Cull(gone), Publisher]
  }

  /** A turn that nothing delays: the sample is stored, a changed state goes to every watcher and nothing to any
      otherwise, peers that hung up are dropped, and a request restarts the daemon. */
  lemma TurnIsComplete(p: Protocol, h: Health, gone: set<nat>)
    requires p.publisher.Sampling? && BothFree(p) && p.current == p.health
    ensures var q := Run(p, TurnEvents(p, h, gone));
      var changed := h.State() != p.health.State();
      && q.publisher.Sampling? && BothFree(q) && q.health == q.current == h
      && q.watchers == Retain(if changed then Told(p.watchers, h.State()) else p.watchers, gone)
      && q.published == (if changed then p.published + [h.State()] else p.published)
      && !q.restartRequested && q.restarts == p.restarts + (if p.restartRequested then 1 else 0)
  {
    hide Run, Step, BroadcastEvents, Retain;
    var first := if h == p.health then [Sample(h)] else [Sample(h), Publisher, Publisher] + [Publisher];
    var changed := h.State() != p.health.State();
    var second := if changed then BroadcastEvents(|p.watchers|) else [];
    var last := [Publisher, Cull(gone), Publisher];
    StartOfTurn(p, h);
    var p1 := Run(p, first);
    if changed { BroadcastTells(p1, h.State()); } else { NoEvents(p1); }
    var p2 := Run(p1, second);
    RunAppend(p, first, second);
    EndOfTurn(p2, gone);
    RunAppend(p, first + second, last);
  }

  /** An enrollment-complete command is a request, and the publisher's next check restarts because of it. */
  lemma EnrollmentRestarts(p: Protocol, events: seq<Event>)
    requires p.acceptor.Listening?
    ensures var asked := Step(p, EnrollmentComplete);
      && asked == p.(restartRequested := true, requests := p.requests + 1)
      && (Run(asked, events).publisher.CheckRestart? && Run(asked, events).restarts == p.restarts ==>
            Step(Run(asked, events), Publisher).restarts == p.restarts + 1)
  {
    RequestIsHonoured(Step(p, EnrollmentComplete), events);
  }
}
