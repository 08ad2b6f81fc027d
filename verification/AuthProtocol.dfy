/** The two-thread publish protocol of the auth-state socket.

    A publisher thread samples the credential and broadcasts changes; an acceptor
    thread registers watchers. They share two mutexes, `current` and `watchers`.
    One event is one step of one thread, so a sequence of events is an interleaving. */
module AuthProtocol {
  import opened DaemonTypes

  const MAX_WATCHERS := 8

  /** A registered connection and the lines written to it. `origin` and `echoed` are history:
      the position of its first line among all published states, and whether that same
      state was still to be broadcast when the first line was read. */
  datatype Watcher = Watcher(id: nat, lines: seq<CredentialState>, origin: nat, echoed: bool)

  datatype Holder = Free | HeldByPublisher | HeldByAcceptor

  datatype PublisherPc =
    | Sampling
    | WantCurrent(previous: CredentialState)
    | HoldCurrent(previous: CredentialState)
    | Compare(previous: CredentialState)
    | WantBroadcast(state: CredentialState)
    | Broadcasting(state: CredentialState, next: nat)
    | WantCull
    | Culling
    | CheckRestart

  datatype AcceptorPc =
    | Listening
    | StatusWantCurrent
    | StatusHoldCurrent
    | WatchWantRegistry(id: nat)
    | WatchHoldRegistry(id: nat)
    | WatchWantCurrent(id: nat)
    | WatchHoldBoth(id: nat)
    | WatchWriting(id: nat, read: CredentialState, origin: nat, echoed: bool)

  datatype Protocol = Protocol(
    health: Health,                  // the publisher's own copy
    current: Health,                 // behind the `current` mutex
    watchers: seq<Watcher>,          // behind the `watchers` mutex
    currentLock: Holder,
    watchersLock: Holder,
    publisher: PublisherPc,
    acceptor: AcceptorPc,
    connections: nat,
    restartRequested: bool,
    requests: nat,                   // history: enrollment-complete commands received
    restarts: nat,                   // history: restarts made because of them
    published: seq<CredentialState>) // history: the states `current` went through

  datatype Event =
    | Sample(health: Health)         // publisher: one turn of the sampling loop begins
    | Publisher                      // publisher: any step without an outcome of its own
    | Write(ok: bool)                // publisher: one line of a broadcast
    | Cull(gone: set<nat>)           // publisher: peers that hung up
    | Status                         // acceptor: a command arrives
    | Watch
    | EnrollmentComplete
    | Acceptor                       // acceptor: any step without an outcome of its own
    | Greet(ok: bool)                // acceptor: the first line to a new watcher

  function Start(h: Health): Protocol {
    Protocol(h, h, [], Free, Free, Sampling, Listening, 0, false, 0, 0, [h.State()])
  }

  /** `retain(|conn| !peer_gone(conn))`. */
  function Retain(ws: seq<Watcher>, gone: set<nat>): (r: seq<Watcher>)
    ensures |r| <= |ws|
    ensures forall w :: w in r ==> w in ws && w.id !in gone
    ensures forall w :: w in ws && w.id !in gone ==> w in r
  {
    if ws == [] then []
    else if ws[0].id in gone then Retain(ws[1..], gone)
    else [ws[0]] + Retain(ws[1..], gone)
  }

  /** One step. An event whose thread is not ready for it changes nothing, and a thread
      that needs a mutex somebody holds does not move. */
  function Step(p: Protocol, e: Event): Protocol {
    match e
    case Sample(h) => PublisherSample(p, h)
    case Publisher => PublisherStep(p)
    case Write(ok) => PublisherWrite(p, ok)
    case Cull(gone) =>
      if p.publisher.Culling? then
        p.(watchers := Retain(p.watchers, gone), watchersLock := Free, publisher := CheckRestart)
      else p
    case Status => if p.acceptor.Listening? then p.(acceptor := StatusWantCurrent) else p
    case Watch =>
      if p.acceptor.Listening? then
        p.(acceptor := WatchWantRegistry(p.connections), connections := p.connections + 1)
      else p
    case EnrollmentComplete =>
      if p.acceptor.Listening? then p.(restartRequested := true, requests := p.requests + 1) else p
    case Acceptor => AcceptorStep(p)
    case Greet(ok) => AcceptorGreet(p, ok)
  }

  function PublisherSample(p: Protocol, h: Health): Protocol {
    if !p.publisher.Sampling? then p
    else if h != p.health then p.(health := h, publisher := WantCurrent(p.health.State()))
    else p.(publisher := WantCull)
  }

  function PublisherStep(p: Protocol): Protocol {
    match p.publisher
    case WantCurrent(previous) =>
      if p.currentLock.Free? then p.(currentLock := HeldByPublisher, publisher := HoldCurrent(previous)) else p
    case HoldCurrent(previous) =>
      var state := p.health.State();
      p.(current := p.health, currentLock := Free, publisher := Compare(previous),
         published := if state != previous then p.published + [state] else p.published)
    case Compare(previous) =>
      var state := p.health.State();
      p.(publisher := if state != previous then WantBroadcast(state) else WantCull)
    case WantBroadcast(state) =>
      if p.watchersLock.Free? then p.(watchersLock := HeldByPublisher, publisher := Broadcasting(state, 0)) else p
    case Broadcasting(state, next) =>
      if next >= |p.watchers| then p.(watchersLock := Free, publisher := WantCull) else p
    case WantCull =>
      if p.watchersLock.Free? then p.(watchersLock := HeldByPublisher, publisher := Culling) else p
    case CheckRestart =>
      p.(restartRequested := false, publisher := Sampling,
         restarts := if p.restartRequested then p.restarts + 1 else p.restarts)
    case _ => p
  }

  /** `retain_mut(|conn| writeln!(conn, line).is_ok())`, one connection at a time. */
  function PublisherWrite(p: Protocol, ok: bool): Protocol {
    if p.publisher.Broadcasting? && p.publisher.next < |p.watchers| then
      var Broadcasting(state, i) := p.publisher;
      var w := p.watchers[i];
      if ok then
        p.(watchers := p.watchers[i := w.(lines := w.lines + [state])], publisher := Broadcasting(state, i + 1))
      else
        p.(watchers := p.watchers[..i] + p.watchers[i + 1..])
    else p
  }

  /** Where the state in `current` stands among the published ones. */
  function Position(p: Protocol): nat {
    if p.published == [] then 0 else |p.published| - 1
  }

  function AcceptorStep(p: Protocol): Protocol {
    match p.acceptor
    case StatusWantCurrent =>
      if p.currentLock.Free? then p.(currentLock := HeldByAcceptor, acceptor := StatusHoldCurrent) else p
    case StatusHoldCurrent => p.(currentLock := Free, acceptor := Listening)
    case WatchWantRegistry(id) =>
      if p.watchersLock.Free? then p.(watchersLock := HeldByAcceptor, acceptor := WatchHoldRegistry(id)) else p
    case WatchHoldRegistry(id) =>
      if |p.watchers| < MAX_WATCHERS then p.(acceptor := WatchWantCurrent(id))
      else p.(watchersLock := Free, acceptor := Listening)
    case WatchWantCurrent(id) =>
      if p.currentLock.Free? then p.(currentLock := HeldByAcceptor, acceptor := WatchHoldBoth(id)) else p
    case WatchHoldBoth(id) =>
      p.(currentLock := Free,
         acceptor := WatchWriting(id, p.current.State(), Position(p), BroadcastPending(p)))
    case _ => p
  }

  function AcceptorGreet(p: Protocol, ok: bool): Protocol {
    if p.acceptor.WatchWriting? then
      var WatchWriting(id, read, origin, echoed) := p.acceptor;
      p.(watchers := if ok then p.watchers + [Watcher(id, [read], origin, echoed)] else p.watchers,
         watchersLock := Free, acceptor := Listening)
    else p
  }

  /** A changed state is stored in `current` and its broadcast is not finished. */
  predicate BroadcastPending(p: Protocol) {
    || (p.publisher.Compare? && p.health.State() != p.publisher.previous)
    || p.publisher.WantBroadcast?
    || p.publisher.Broadcasting?
  }

  /** Watcher number `i` has not yet been sent the last published state by broadcast. */
  predicate Owed(p: Protocol, i: nat) {
    BroadcastPending(p) && (p.publisher.Broadcasting? ==> p.publisher.next <= i)
  }

  function Run(p: Protocol, events: seq<Event>): Protocol {
    if events == [] then p else Step(Run(p, events[..|events| - 1]), events[|events| - 1])
  }
}
