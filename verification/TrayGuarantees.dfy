/** What the tray can rely on, whatever the interleaving: nothing is lost on the way to the menu. */
module TrayGuarantees {
  import opened Text
  import opened DaemonTypes
  import opened TrayMenu
  import opened MenuGuarantees
  import opened TrayFeed

  /** The signal that would carry the service's present value of a kind. */
  function Current(service: Service, k: Kind): Signal {
    match k
    case Counters => CountersAre(service.state.running, service.state.unsent, service.state.excluded, service.state.exposures)
    case Download => DownloadIs(service.state.downloading)
    case IndexingPass => IndexingIs(service.state.indexing)
    case Uploads => UploadsAre(service.state.uploading)
    case Credential => CredentialIs(AsWire(service.credential))
    case DesktopInfo => DesktopIs(service.desktop)
  }

  function SignalsIn(queue: seq<Queued>): seq<Signal> {
    if queue == [] then []
    else (if queue[0].Forwarded? then [queue[0].signal] else []) + SignalsIn(queue[1..])
  }

  /** The signals of a kind still under way, oldest first. */
  function UnderWay(s: System, k: Kind): seq<Signal> {
    Only(SignalsIn(s.queue), k) + (if k in s.streams then s.streams[k] else [])
  }

  /** The merged value of a property is the one the signal carries. */
  predicate Agrees(m: Merged, current: Signal, p: Property)
    requires KindOf(current) == KindOfProperty(p)
  {
    match p
    case Running => m.state.Some? && m.state.value.running == current.running
    case Unsent => m.state.Some? && m.state.value.unsent == current.unsent
    case Excluded => m.state.Some? && m.state.value.excluded == current.excluded
    case Exposures => m.state.Some? && m.state.value.exposures == current.exposures
    case Downloading => m.state.Some? && m.state.value.downloading == current.n
    case Indexing => m.state.Some? && m.state.value.indexing == current.b
    case Uploading => m.state.Some? && m.state.value.uploading == current.paths
    case CredentialWord => m.credential == FromWire(current.word)
    case DesktopProperty => m.desktop == current.text.parsed
  }

  ghost predicate WellSorted(s: System) {
    s.streams.Keys == ALL_KINDS && s.merged.state.Some?
  }

  ghost predicate StreamsSorted(s: System) {
    forall j :: j in s.streams ==> forall i :: 0 <= i < |s.streams[j]| ==> KindOf(s.streams[j][i]) == j
  }

  ghost predicate Converging(s: System, k: Kind) {
    && (UnderWay(s, k) != [] ==> UnderWay(s, k)[|UnderWay(s, k)| - 1] == Current(s.service, k))
    && (UnderWay(s, k) == [] ==>
        forall p :: KindOfProperty(p) == k && p !in s.reading ==> Agrees(s.merged, Current(s.service, k), p))
  }

  ghost predicate ShowsMerged(s: System) {
    s.reading == [] ==> s.shown != [] && s.shown[|s.shown| - 1] == Picture(s.merged)
  }

  ghost predicate Invariant(s: System) {
    WellSorted(s) && (forall k :: Converging(s, k)) && ShowsMerged(s)
  }

  lemma {:induction false} OnlyAppend(a: seq<Signal>, b: seq<Signal>, k: Kind)
    ensures Only(a + b, k) == Only(a, k) + Only(b, k)
  {
    hide KindOf;
    if a == [] {
      assert a + b == b;
    } else {
      assert (a + b)[1..] == a[1..] + b;
      OnlyAppend(a[1..], b, k);
      Assoc(if KindOf(a[0]) == k then [a[0]] else [], Only(a[1..], k), Only(b, k));
    }
  }

  lemma OnlyOne(signal: Signal, k: Kind)
    ensures Only([signal], k) == if KindOf(signal) == k then [signal] else []
  {
    hide KindOf;
    assert [signal][1..] == [];
  }

  lemma {:induction false} QueueAppend(q: seq<Queued>, e: Queued)
    ensures SignalsIn(q + [e]) == SignalsIn(q) + (if e.Forwarded? then [e.signal] else [])
  {
    if q == [] {
      assert (q + [e])[1..] == [];
    } else {
      assert (q + [e])[1..] == q[1..] + [e];
      QueueAppend(q[1..], e);
      Assoc(if q[0].Forwarded? then [q[0].signal] else [], SignalsIn(q[1..]), if e.Forwarded? then [e.signal] else []);
    }
  }

  // How each kind of step changes what is under way.

  lemma EmitUnderWay(s: System, t: System, signals: seq<Signal>, k: Kind)
    requires WellSorted(s) && t == s.(service := t.service, streams := Emit(s.streams, signals))
    ensures UnderWay(t, k) == UnderWay(s, k) + Only(signals, k)
  {
    hide Only, SignalsIn;
    Assoc(Only(SignalsIn(s.queue), k), s.streams[k], Only(signals, k));
  }

  lemma QueueUnderWay(s: System, t: System, e: Queued, k: Kind)
    requires WellSorted(s) && WellSorted(t) && t.queue == s.queue + [e]
    requires s.streams[k] == (if e.Forwarded? && KindOf(e.signal) == k then [e.signal] else []) + t.streams[k]
    ensures UnderWay(t, k) == UnderWay(s, k)
  {
    hide Only, SignalsIn, KindOf;
    var moved := if e.Forwarded? && KindOf(e.signal) == k then [e.signal] else [];
    QueueAppend(s.queue, e);
    if e.Forwarded? {
      OnlyAppend(SignalsIn(s.queue), [e.signal], k);
      OnlyOne(e.signal, k);
    }
    Assoc(Only(SignalsIn(s.queue), k), moved, t.streams[k]);
    assert Only(SignalsIn(s.queue), k) + [] == Only(SignalsIn(s.queue), k);
    assert SignalsIn(s.queue) + [] == SignalsIn(s.queue);
  }

  lemma TakeUnderWay(s: System, t: System, k: Kind)
    requires WellSorted(s) && s.queue != [] && t.queue == s.queue[1..] && t.streams == s.streams
    ensures var e := s.queue[0];
      UnderWay(s, k) == (if e.Forwarded? && KindOf(e.signal) == k then [e.signal] else []) + UnderWay(t, k)
  {
    hide KindOf;
    var e := s.queue[0];
    var head := if e.Forwarded? then [e.signal] else [];
    OnlyAppend(head, SignalsIn(t.queue), k);
    if e.Forwarded? { OnlyOne(e.signal, k); }
    Assoc(Only(head, k), Only(SignalsIn(t.queue), k), s.streams[k]);
  }

  /** A step that changes the service announces every kind whose current value moved. */
  lemma EmitConverges(s: System, t: System, signals: seq<Signal>, k: Kind)
    requires WellSorted(s) && Converging(s, k)
    requires t == s.(service := t.service, streams := Emit(s.streams, signals))
    requires Only(signals, k) == [Current(t.service, k)]
      || (Only(signals, k) == [] && Current(t.service, k) == Current(s.service, k))
    ensures Converging(t, k)
  {
    hide Only, SignalsIn, KindOf, Current, Agrees, Emit, UnderWay;
    EmitUnderWay(s, t, signals, k);
    if Only(signals, k) == [] {
      assert UnderWay(s, k) + [] == UnderWay(s, k);
    }
  }

  lemma StateSignalsByKind(service: Service, now: DaemonState, k: Kind)
    ensures var t, signals := service.(state := now), StateSignals(service.state, now);
      || Only(signals, k) == [Current(t, k)]
      || (Only(signals, k) == [] && Current(t, k) == Current(service, k))
  {
    hide Only, KindOf;
    var previous := service.state;
    var a := [CountersAre(now.running, now.unsent, now.excluded, now.exposures)];
    var b := if previous.downloading != now.downloading then [DownloadIs(now.downloading)] else [];
    var c := if previous.indexing != now.indexing then [IndexingIs(now.indexing)] else [];
    var d := if previous.uploading != now.uploading then [UploadsAre(now.uploading)] else [];
    OnlyAppend(a, b, k);
    OnlyAppend(a + b, c, k);
    OnlyAppend(a + b + c, d, k);
    OnlyOne(a[0], k);
    OnlyMaybe(previous.downloading != now.downloading, DownloadIs(now.downloading), k);
    OnlyMaybe(previous.indexing != now.indexing, IndexingIs(now.indexing), k);
    OnlyMaybe(previous.uploading != now.uploading, UploadsAre(now.uploading), k);
    KindsOfParts(now);
  }

  lemma KindsOfParts(now: DaemonState)
    ensures KindOf(CountersAre(now.running, now.unsent, now.excluded, now.exposures)) == Counters
    ensures KindOf(DownloadIs(now.downloading)) == Download && KindOf(IndexingIs(now.indexing)) == IndexingPass
    ensures KindOf(UploadsAre(now.uploading)) == Uploads
  {
  }

  lemma OnlyMaybe(sent: bool, signal: Signal, k: Kind)
    ensures Only(if sent then [signal] else [], k) == if sent && KindOf(signal) == k then [signal] else []
  {
    hide Only, KindOf;
    OnlyOne(signal, k);
    OnlyNone(k);
  }

  lemma OnlyNone(k: Kind)
    ensures Only([], k) == []
  {
  }

  lemma PublishConverges(s: System, e: Event, k: Kind)
    requires WellSorted(s) && Converging(s, k)
    requires e.PublishState? || e.PublishCredential? || e.PublishDesktop?
    ensures Converging(Step(s, e), k)
  {
    hide Converging, Only, Emit, StateSignals;
    var t := Step(s, e);
    match e
    case PublishState(state) =>
      StateSignalsByKind(s.service, state, k);
      EmitConverges(s, t, StateSignals(s.service.state, state), k);
    case PublishCredential(c) =>
      OnlyOne(CredentialIs(AsWire(c)), k);
      EmitConverges(s, t, [CredentialIs(AsWire(c))], k);
    case PublishDesktop(text) =>
      if text != s.service.desktop {
        OnlyOne(DesktopIs(text), k);
        EmitConverges(s, t, [DesktopIs(text)], k);
      }
  }

  /** Forwarding and owner changes move nothing that is under way past its own kind. */
  lemma ForwardConverges(s: System, e: Event, k: Kind)
    requires WellSorted(s) && StreamsSorted(s) && Converging(s, k) && (e.Forward? || e.OwnerChange?)
    ensures Converging(Step(s, e), k)
  {
    hide UnderWay, KindOf, Current, Agrees;
    var t := Step(s, e);
    if t != s {
      var last := t.queue[|s.queue|];
      assert t.queue == s.queue + [last];
      if e.Forward? {
        assert s.streams[e.kind] == [last.signal] + t.streams[e.kind];
        assert KindOf(s.streams[e.kind][0]) == e.kind;
      }
      assert [] + t.streams[k] == t.streams[k];
      QueueUnderWay(s, t, last, k);
    }
  }

  lemma MergeAgrees(m: Merged, signal: Signal, current: Signal, p: Property)
    requires m.state.Some? && KindOf(current) == KindOfProperty(p)
    requires signal == current || (KindOf(signal) != KindOf(current) && Agrees(m, current, p))
    ensures Merge(m, signal).state.Some? && Agrees(Merge(m, signal), current, p)
  {
  }

  lemma ReturnConverges(s: System, k: Kind)
    requires WellSorted(s) && Converging(s, k) && s.reading == [] && s.queue != [] && s.queue[0].ServiceReturned?
    ensures Converging(Step(s, Receive), k)
  {
    hide UnderWay, KindOf, Current, Agrees, Picture, Merge;
    var t := Step(s, Receive);
    TakeUnderWay(s, t, k);
    assert [] + UnderWay(t, k) == UnderWay(t, k);
    forall p | KindOfProperty(p) == k ensures p in t.reading { InReturnOrder(p); }
  }

  lemma SignalConverges(s: System, k: Kind)
    requires WellSorted(s) && Converging(s, k) && s.reading == [] && s.queue != [] && s.queue[0].Forwarded?
    ensures Converging(Step(s, Receive), k)
  {
    hide UnderWay, KindOf, Current, Agrees, Picture, Merge;
    var t, signal := Step(s, Receive), s.queue[0].signal;
    KindOfCurrent(s.service, k);
    TakeUnderWay(s, t, k);
    assert [] + UnderWay(t, k) == UnderWay(t, k);
    if UnderWay(t, k) == [] {
      forall p | KindOfProperty(p) == k
        ensures Agrees(t.merged, Current(s.service, k), p)
      {
        MergeAgrees(s.merged, signal, Current(s.service, k), p);
      }
    }
  }

  lemma ReceiveConverges(s: System, k: Kind)
    requires WellSorted(s) && Converging(s, k) && s.reading == [] && s.queue != []
    ensures Converging(Step(s, Receive), k)
  {
    hide Converging, Step;
    match s.queue[0]
    case ServiceReturned => ReturnConverges(s, k);
    case Forwarded(_) => SignalConverges(s, k);
  }

  lemma KindOfCurrent(service: Service, k: Kind)
    ensures KindOf(Current(service, k)) == k
  {
  }

  lemma InReturnOrder(p: Property)
    ensures p in RETURN_ORDER && p in STARTUP_ORDER
  {
    match p
    case Running => assert RETURN_ORDER[1] == p && STARTUP_ORDER[0] == p;
    case Unsent => assert RETURN_ORDER[2] == p && STARTUP_ORDER[1] == p;
    case Excluded => assert RETURN_ORDER[3] == p && STARTUP_ORDER[2] == p;
    case Exposures => assert RETURN_ORDER[4] == p && STARTUP_ORDER[3] == p;
    case Downloading => assert RETURN_ORDER[5] == p && STARTUP_ORDER[4] == p;
    case Indexing => assert RETURN_ORDER[6] == p && STARTUP_ORDER[5] == p;
    case Uploading => assert RETURN_ORDER[7] == p && STARTUP_ORDER[6] == p;
    case CredentialWord => assert RETURN_ORDER[8] == p && STARTUP_ORDER[8] == p;
    case DesktopProperty => assert RETURN_ORDER[0] == p && STARTUP_ORDER[7] == p;
  }

  lemma ReadAgrees(m: Merged, service: Service, q: Property, p: Property)
    requires m.state.Some?
    requires q != p ==> Agrees(m, Current(service, KindOfProperty(p)), p)
    ensures ReadProperty(m, q, service).state.Some?
    ensures Agrees(ReadProperty(m, q, service), Current(service, KindOfProperty(p)), p)
  {
  }

  lemma ReadConverges(s: System, k: Kind)
    requires WellSorted(s) && Converging(s, k) && s.reading != []
    ensures Converging(Step(s, Read), k)
  {
    hide Current, Agrees, Picture, ReadProperty, SignalsIn, Only;
    var t := Step(s, Read);
    KindOfCurrent(s.service, k);
    assert UnderWay(t, k) == UnderWay(s, k);
    if UnderWay(t, k) == [] {
      forall p | KindOfProperty(p) == k && p !in t.reading
        ensures Agrees(t.merged, Current(s.service, k), p)
      {
        assert s.reading == [s.reading[0]] + t.reading;
        ReadAgrees(s.merged, s.service, s.reading[0], p);
      }
    }
  }

  lemma {:induction false} OnlyIsSorted(signals: seq<Signal>, k: Kind)
    ensures forall i :: 0 <= i < |Only(signals, k)| ==> KindOf(Only(signals, k)[i]) == k
  {
    if signals != [] { OnlyIsSorted(signals[1..], k); }
  }

  lemma EmitKeepsStreams(streams: map<Kind, seq<Signal>>, signals: seq<Signal>)
    requires forall j :: j in streams ==> forall i :: 0 <= i < |streams[j]| ==> KindOf(streams[j][i]) == j
    ensures forall j :: j in Emit(streams, signals) ==>
      forall i :: 0 <= i < |Emit(streams, signals)[j]| ==> KindOf(Emit(streams, signals)[j][i]) == j
    ensures Emit(streams, signals).Keys == streams.Keys
  {
    hide KindOf, Only;
    forall k { OnlyIsSorted(signals, k); }
  }

  lemma StepKeepsStreams(s: System, e: Event)
    requires WellSorted(s) && StreamsSorted(s)
    ensures WellSorted(Step(s, e)) && StreamsSorted(Step(s, e))
  {
    hide KindOf, Emit, StateSignals, Picture;
    match e
    case PublishState(state) => EmitKeepsStreams(s.streams, StateSignals(s.service.state, state));
    case PublishCredential(c) => EmitKeepsStreams(s.streams, [CredentialIs(AsWire(c))]);
    case PublishDesktop(text) => EmitKeepsStreams(s.streams, [DesktopIs(text)]);
    case _ =>
  }

  lemma StepKeepsShown(s: System, e: Event)
    requires ShowsMerged(s)
    ensures ShowsMerged(Step(s, e))
  {
  }

  lemma StepConverges(s: System, e: Event, k: Kind)
    requires WellSorted(s) && StreamsSorted(s) && Converging(s, k)
    ensures Converging(Step(s, e), k)
  {
    match e
    case PublishState(_) => PublishConverges(s, e, k);
    case PublishCredential(_) => PublishConverges(s, e, k);
    case PublishDesktop(_) => PublishConverges(s, e, k);
    case Forward(_) => ForwardConverges(s, e, k);
    case OwnerChange => ForwardConverges(s, e, k);
    case Read => if s.reading != [] { ReadConverges(s, k); }
    case Receive => if s.reading == [] && s.queue != [] { ReceiveConverges(s, k); }
  }

  lemma {:induction false} RunKeepsInvariant(service: Service, events: seq<Event>)
    ensures Invariant(Run(Start(service), events)) && StreamsSorted(Run(Start(service), events))
  {
    hide Step;
    if events == [] {
      forall p: Property ensures p in STARTUP_ORDER { InReturnOrder(p); }
    } else {
      var s, e := Run(Start(service), events[..|events| - 1]), events[|events| - 1];
      RunKeepsInvariant(service, events[..|events| - 1]);
      StepKeepsStreams(s, e);
      StepKeepsShown(s, e);
      forall k ensures Converging(Step(s, e), k) { StepConverges(s, e, k); }
    }
  }

  /** Nothing is under way and no cold read is open. */
  predicate Drained(s: System) {
    s.queue == [] && s.reading == [] && forall k :: k in s.streams ==> s.streams[k] == []
  }

  // ---- what was published ----

  function LastState(service: Service, events: seq<Event>): DaemonState {
    if events == [] then service.state else
      var e := events[|events| - 1];
      if e.PublishState? then e.state else LastState(service, events[..|events| - 1])
  }

  function LastCredential(service: Service, events: seq<Event>): CredentialState {
    if events == [] then service.credential else
      var e := events[|events| - 1];
      if e.PublishCredential? then e.credential else LastCredential(service, events[..|events| - 1])
  }

  function LastDesktop(service: Service, events: seq<Event>): DesktopText {
    if events == [] then service.desktop else
      var e := events[|events| - 1];
      if e.PublishDesktop? then e.text else LastDesktop(service, events[..|events| - 1])
  }

  /** The service serves what was published last. */
  lemma {:induction false} ServiceIsPublished(service: Service, events: seq<Event>)
    ensures Run(Start(service), events).service
      == Service(LastState(service, events), LastCredential(service, events), LastDesktop(service, events))
  {
    hide Emit, StateSignals, Picture, Merge, ReadProperty;
    if events != [] { ServiceIsPublished(service, events[..|events| - 1]); }
  }

  /** For every sequence of published states and every interleaving of the signal streams, the
      cold reads and the run loop: once everything is drained the merged state is the one published
      last, and the tray shows exactly what that state calls for. */
  lemma MergedStateConverges(service: Service, events: seq<Event>, s: System)
    requires s == Run(Start(service), events) && Drained(s)
    ensures var state, credential := LastState(service, events), LastCredential(service, events);
      var desktop := LastDesktop(service, events).parsed;
      && s.merged == Merged(Some(state), credential, desktop)
      && s.shown != [] && s.shown[|s.shown| - 1] == PresentWithDesktop(Some(state), credential, desktop)
  {
    RunKeepsInvariant(service, events);
    ServiceIsPublished(service, events);
    hide PresentWithDesktop, Run;
    forall p ensures Agrees(s.merged, Current(s.service, KindOfProperty(p)), p) {
      hide Current, Agrees;
      assert Converging(s, KindOfProperty(p));
      assert UnderWay(s, KindOfProperty(p)) == [];
    }
    AgreementIsEquality(s.merged, s.service);
    assert s.shown[|s.shown| - 1] == Picture(s.merged);
  }

  lemma AgreementIsEquality(m: Merged, service: Service)
    requires forall p :: Agrees(m, Current(service, KindOfProperty(p)), p)
    ensures m == Merged(Some(service.state), service.credential, service.desktop.parsed)
  {
    assert Agrees(m, Current(service, Counters), Running);
    assert Agrees(m, Current(service, Counters), Unsent);
    assert Agrees(m, Current(service, Counters), Excluded);
    assert Agrees(m, Current(service, Counters), Exposures);
    assert Agrees(m, Current(service, Download), Downloading);
    assert Agrees(m, Current(service, IndexingPass), Indexing);
    assert Agrees(m, Current(service, Uploads), Uploading);
    assert Agrees(m, Current(service, Credential), CredentialWord);
    assert Agrees(m, Current(service, DesktopInfo), DesktopProperty);
  }

  /** From the daemon's state to the panel: a host that read the menu once and then only took the
      updates holds, when all is drained, the menu of the state published last. */
  lemma HostMenuConverges(service: Service, events: seq<Event>, s: System, hasMount: bool)
    requires s == Run(Start(service), events) && Drained(s)
    ensures HostAfter(Present(None, CredentialState.Unknown), hasMount, s.shown)
      == FullMenu(PresentWithDesktop(
           Some(LastState(service, events)), LastCredential(service, events), LastDesktop(service, events).parsed), hasMount)
  {
    hide FullMenu, HostAfter, PresentWithDesktop;
    MergedStateConverges(service, events, s);
    HostIsCurrent(Present(None, CredentialState.Unknown), hasMount, s.shown);
  }

  // ---- draining ----

  function Waiting(s: System): nat
    requires s.streams.Keys == ALL_KINDS
  {
    |s.streams[Counters]| + |s.streams[Download]| + |s.streams[IndexingPass]|
    + |s.streams[Uploads]| + |s.streams[Credential]| + |s.streams[DesktopInfo]|
  }

  /** Steps still needed until all is drained, at most: a returned service costs a whole cold read. */
  function Work(s: System): nat
    requires s.streams.Keys == ALL_KINDS
  {
    11 * Waiting(s) + 10 * |s.queue| + |s.reading|
  }

  predicate Delivers(e: Event) {
    e.Forward? || e.Read? || e.Receive?
  }

  /** The next step that brings something further. */
  ghost function NextStep(s: System): Event
    requires s.streams.Keys == ALL_KINDS && !Drained(s)
  {
    if s.reading != [] then Read
    else if s.queue != [] then Receive
    else
      var k :| k in s.streams && s.streams[k] != [];
      Forward(k)
  }

  lemma StepDelivers(s: System)
    requires s.streams.Keys == ALL_KINDS && !Drained(s)
    ensures var t := Step(s, NextStep(s));
      && Delivers(NextStep(s)) && t.streams.Keys == ALL_KINDS && t.service == s.service
      && Work(t) < Work(s)
  {
    hide Picture, Merge, ReadProperty;
  }

  lemma RunFirst(s: System, e: Event, more: seq<Event>)
    ensures Run(s, [e] + more) == Run(Step(s, e), more)
  {
    hide Step;
    if more == [] {
      assert [e] + more == [e] && [e][..0] == [];
    } else {
      var front := more[..|more| - 1];
      assert ([e] + more)[..|more|] == [e] + front;
      RunFirst(s, e, front);
    }
  }

  /** Whatever is under way arrives: from any point, forwarding, reading and receiving alone drain everything
      in a bounded number of steps. */
  lemma {:induction false} Drains(s: System) returns (events: seq<Event>)
    requires s.streams.Keys == ALL_KINDS
    ensures |events| <= Work(s) && forall i :: 0 <= i < |events| ==> Delivers(events[i])
    ensures Drained(Run(s, events)) && Run(s, events).service == s.service
    decreases Work(s)
  {
    hide Step, Drained, NextStep, Work, Run;
    if Drained(s) {
      events := [];
      NothingRuns(s);
    } else {
      var e := NextStep(s);
      StepDelivers(s);
      var more := Drains(Step(s, e));
      events := [e] + more;
      RunFirst(s, e, more);
    }
  }

  lemma NothingRuns(s: System)
    ensures Run(s, []) == s
  {
  }

  // ---- a service that comes back ----

  function Reads(n: nat): seq<Event> {
    if n == 0 then [] else [Read] + Reads(n - 1)
  }

  lemma {:induction false} ReadsToTheEnd(s: System)
    requires s.merged.state.Some? && s.reading != []
    requires forall p :: p !in s.reading ==> Agrees(s.merged, Current(s.service, KindOfProperty(p)), p)
    ensures var t := Run(s, Reads(|s.reading|));
      && t.merged == Merged(Some(s.service.state), s.service.credential, s.service.desktop.parsed)
      && t.shown == s.shown + [Picture(t.merged)]
      && t.reading == [] && t.service == s.service && t.queue == s.queue && t.streams == s.streams
    decreases |s.reading|
  {
    hide Agrees, Current, Picture, ReadProperty, Run;
    var t := Step(s, Read);
    assert s.reading == [s.reading[0]] + s.reading[1..];
    forall k: Kind ensures KindOf(Current(s.service, k)) == k { KindOfCurrent(s.service, k); }
    forall p | p !in s.reading[1..] ensures Agrees(t.merged, Current(s.service, KindOfProperty(p)), p) {
      ReadAgrees(s.merged, s.service, s.reading[0], p);
    }
    assert t.merged.state.Some? by { ReadAgrees(s.merged, s.service, s.reading[0], s.reading[0]); }
    RunFirst(s, Read, Reads(|s.reading| - 1));
    if s.reading[1..] == [] {
      NothingRuns(t);
      AgreementIsEquality(t.merged, s.service);
    } else {
      ReadsToTheEnd(t);
    }
  }

  /** Whatever the tray held: once it notices that the service is back, it reads every property, and shows the
      service's present state. */
  lemma ReturnIsReadWhole(s: System)
    requires Drained(s) && s.merged.state.Some?
    ensures var t := Run(s, [OwnerChange] + ([Receive] + Reads(9)));
      && t.merged == Merged(Some(s.service.state), s.service.credential, s.service.desktop.parsed)
      && t.shown == s.shown + [Picture(t.merged)] && Drained(t) && t.service == s.service
  {
    hide Agrees, Current, Picture, ReadProperty, Run, Merge;
    var noticed := Step(s, OwnerChange);
    var reading := Step(noticed, Receive);
    RunFirst(s, OwnerChange, [Receive] + Reads(9));
    RunFirst(noticed, Receive, Reads(9));
    forall p: Property ensures p in reading.reading { InReturnOrder(p); }
    ReadsToTheEnd(reading);
  }

  // ---- the run loop over the objects it serves ----

  function MergeAll(m: Merged, signals: seq<Signal>): Merged {
    if signals == [] then m else Merge(MergeAll(m, signals[..|signals| - 1]), signals[|signals| - 1])
  }

  /** The `loop` of `run` on signals alone, with a host that read the layout before the first one. */
  method RunLoop(tray: Tray, start: Merged, signals: seq<Signal>)
    returns (merged: Merged, host: map<int, Properties>)
    requires tray.item == tray.menu == Picture(start)
    modifies tray
    ensures merged == MergeAll(start, signals)
    ensures tray.item == tray.menu == Picture(merged)
    ensures host == FullMenu(tray.menu, tray.hasMount)
  {
    hide Picture, FullMenu, MergeUpdates, Diff;
    merged := start;
    host := FullMenu(tray.menu, tray.hasMount);
    for i := 0 to |signals|
      invariant merged == MergeAll(start, signals[..i])
      invariant tray.item == tray.menu == Picture(merged)
      invariant host == FullMenu(tray.menu, tray.hasMount)
    {
      assert signals[..i + 1][..i] == signals[..i];
      var known := merged.state.Some? || !(signals[i].DownloadIs? || signals[i].IndexingIs? || signals[i].UploadsAre?);
      merged := Merge(merged, signals[i]);
      if known {
        ghost var before := tray.menu;
        var _, updates := tray.ApplyPresentation(Picture(merged));
        DiffIsExact(before, tray.menu, tray.hasMount);
        host := MergeUpdates(host, updates);
      }
    }
    assert signals[..|signals|] == signals;
  }

  /** Without a cold read the activity values that arrive before the first counters are dropped,
      although each is signalled only when it moves. */
  lemma {:induction false} WithoutColdRead(m: Merged, early: seq<Signal>, first: Signal, later: seq<Signal>)
    requires m.state.None? && first.CountersAre?
    requires forall i :: 0 <= i < |early| ==> !early[i].CountersAre?
    ensures MergeAll(m, early + [first] + later).state
         == MergeAll(m.(state := Some(DEFAULT_STATE)), [first] + later).state
  {
    if later != [] {
      var front := later[..|later| - 1];
      assert (early + [first] + later)[..|early| + |later|] == early + [first] + front;
      assert ([first] + later)[..|later|] == [first] + front;
      WithoutColdRead(m, early, first, front);
    } else {
      assert early + [first] + later == early + [first];
      assert (early + [first])[..|early|] == early;
      assert [first] + later == [first] && [first][..0] == [];
      EarlyDropped(m, early);
    }
  }

  lemma {:induction false} EarlyDropped(m: Merged, early: seq<Signal>)
    requires m.state.None? && forall i :: 0 <= i < |early| ==> !early[i].CountersAre?
    ensures MergeAll(m, early).state.None?
  {
    if early != [] { EarlyDropped(m, early[..|early| - 1]); }
  }

  lemma MergeTwo(m: Merged, a: Signal, b: Signal)
    ensures MergeAll(m, [a, b]) == Merge(Merge(m, a), b)
  {
    assert [a, b][..1] == [a] && [a][..0] == [];
    assert MergeAll(m, [a]) == Merge(MergeAll(m, []), a);
  }

  /** So two interleavings of the same streams can end in different states: the cold read is needed. */
  lemma ColdReadIsNeeded(m: Merged)
    requires m.state.None?
    ensures exists a: Signal, b: Signal :: KindOf(a) != KindOf(b) && MergeAll(m, [a, b]).state != MergeAll(m, [b, a]).state
  {
    var a, b := DownloadIs(1), CountersAre(true, 0, 0, 0);
    MergeTwo(m, a, b);
    MergeTwo(m, b, a);
    assert MergeAll(m, [a, b]).state.value.downloading != MergeAll(m, [b, a]).state.value.downloading;
  }
}
