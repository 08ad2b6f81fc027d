/** How the state service's signals become one state in the tray again.

    The service splits each state over several signals. The bus keeps every signal's own order;
    one thread per signal forwards it into a single queue, so different signals overtake each
    other. The run loop merges the queue into a state and shows it. Everything here happens
    while the service stays on the bus. */
module TrayFeed {
  import opened Text
  import opened DaemonTypes
  import opened TrayMenu

  /** A text of the desktop property and what the tray parses out of it. */
  datatype DesktopText = DesktopText(parsed: Desktop, rest: string)

  datatype Kind = Counters | Download | IndexingPass | Uploads | Credential | DesktopInfo

  datatype Signal =
    | CountersAre(running: bool, unsent: nat, excluded: nat, exposures: nat)
    | DownloadIs(n: nat)
    | IndexingIs(b: bool)
    | UploadsAre(paths: seq<string>)
    | CredentialIs(word: string)
    | DesktopIs(text: DesktopText)

  function KindOf(s: Signal): Kind {
    match s
    case CountersAre(_, _, _, _) => Counters
    case DownloadIs(_) => Download
    case IndexingIs(_) => IndexingPass
    case UploadsAre(_) => Uploads
    case CredentialIs(_) => Credential
    case DesktopIs(_) => DesktopInfo
  }

  /** The properties behind a kind; a cold read asks for them one at a time. */
  datatype Property =
    | Running | Unsent | Excluded | Exposures | Downloading | Indexing | Uploading | CredentialWord | DesktopProperty

  function KindOfProperty(p: Property): Kind {
    match p
    case Running => Counters
    case Unsent => Counters
    case Excluded => Counters
    case Exposures => Counters
    case Downloading => Download
    case Indexing => IndexingPass
    case Uploading => Uploads
    case CredentialWord => Credential
    case DesktopProperty => DesktopInfo
  }

  const STARTUP_ORDER := [Running, Unsent, Excluded, Exposures, Downloading, Indexing, Uploading, DesktopProperty, CredentialWord]
  const RETURN_ORDER := [DesktopProperty, Running, Unsent, Excluded, Exposures, Downloading, Indexing, Uploading, CredentialWord]

  /** The served properties. */
  datatype Service = Service(state: DaemonState, credential: CredentialState, desktop: DesktopText)

  datatype Queued = Forwarded(signal: Signal) | ServiceReturned

  /** What the run loop renders. */
  datatype Merged = Merged(state: Option<DaemonState>, credential: CredentialState, desktop: Desktop)

  datatype System = System(
    service: Service,
    streams: map<Kind, seq<Signal>>,   // delivered by the bus, not yet forwarded
    queue: seq<Queued>,                // the run loop's event queue
    merged: Merged,
    reading: seq<Property>,            // what a cold read still has to ask for; [] in the loop
    shown: seq<Presentation>)          // every presentation applied so far

  datatype Event =
    | PublishState(state: DaemonState)
    | PublishCredential(credential: CredentialState)
    | PublishDesktop(text: DesktopText)
    | Forward(kind: Kind)              // a signal thread moves one signal to the queue
    | OwnerChange                      // a (re)appearance event lands in the queue
    | Read                             // the cold read gets its next property
    | Receive                          // the run loop takes one event

  const ALL_KINDS := {Counters, Download, IndexingPass, Uploads, Credential, DesktopInfo}

  /** Subscriptions exist, nothing has been signalled, and the cold read is about to begin. */
  function Start(service: Service): System {
    System(service, map k | k in ALL_KINDS :: [], [],
           Merged(Some(DEFAULT_STATE), CredentialState.Unknown, Desktop(false, 0, 0, false)), STARTUP_ORDER, [])
  }

  /** `publish_state`: the counters always, the other three only when they moved. */
  function StateSignals(previous: DaemonState, now: DaemonState): seq<Signal> {
    [CountersAre(now.running, now.unsent, now.excluded, now.exposures)]
    + (if previous.downloading != now.downloading then [DownloadIs(now.downloading)] else [])
    + (if previous.indexing != now.indexing then [IndexingIs(now.indexing)] else [])
    + (if previous.uploading != now.uploading then [UploadsAre(now.uploading)] else [])
  }

  function Emit(streams: map<Kind, seq<Signal>>, signals: seq<Signal>): map<Kind, seq<Signal>> {
    map k | k in streams :: streams[k] + Only(signals, k)
  }

  /** The signals of one kind, in order. */
  function Only(signals: seq<Signal>, k: Kind): seq<Signal> {
    if signals == [] then []
    else (if KindOf(signals[0]) == k then [signals[0]] else []) + Only(signals[1..], k)
  }

  /** The run loop's answer to one signal. */
  function Merge(m: Merged, s: Signal): Merged {
    match s
    case CountersAre(running, unsent, excluded, exposures) =>
      var bare := DaemonState(running, unsent, excluded, exposures, 0, false, []);
      m.(state := Some(match m.state
         case None => bare
         case Some(p) => bare.(downloading := p.downloading, indexing := p.indexing, uploading := p.uploading)))
    case DownloadIs(n) => if m.state.Some? then m.(state := Some(m.state.value.(downloading := n))) else m
    case IndexingIs(b) => if m.state.Some? then m.(state := Some(m.state.value.(indexing := b))) else m
    case UploadsAre(paths) => if m.state.Some? then m.(state := Some(m.state.value.(uploading := paths))) else m
    case CredentialIs(word) => m.(credential := FromWire(word))
    case DesktopIs(text) => m.(desktop := text.parsed)
  }

  /** One property of a cold read. The service answers between publishes, never during one. */
  function ReadProperty(m: Merged, p: Property, service: Service): Merged {
    var s := if m.state.Some? then m.state.value else DEFAULT_STATE;
    match p
    case Running => m.(state := Some(s.(running := service.state.running)))
    case Unsent => m.(state := Some(s.(unsent := service.state.unsent)))
    case Excluded => m.(state := Some(s.(excluded := service.state.excluded)))
    case Exposures => m.(state := Some(s.(exposures := service.state.exposures)))
    case Downloading => m.(state := Some(s.(downloading := service.state.downloading)))
    case Indexing => m.(state := Some(s.(indexing := service.state.indexing)))
    case Uploading => m.(state := Some(s.(uploading := service.state.uploading)))
    case CredentialWord => m.(credential := FromWire(AsWire(service.credential)))
    case DesktopProperty => m.(desktop := service.desktop.parsed)
  }

  function Picture(m: Merged): Presentation {
    PresentWithDesktop(m.state, m.credential, m.desktop)
  }

  function Show(s: System): System {
    s.(shown := s.shown + [Picture(s.merged)])
  }

  function Step(s: System, e: Event): System {
    match e
    case PublishState(state) =>
      s.(service := s.service.(state := state), streams := Emit(s.streams, StateSignals(s.service.state, state)))
    case PublishCredential(c) =>
      s.(service := s.service.(credential := c), streams := Emit(s.streams, [CredentialIs(AsWire(c))]))
    case PublishDesktop(text) =>
      if text == s.service.desktop then s
      else s.(service := s.service.(desktop := text), streams := Emit(s.streams, [DesktopIs(text)]))
    case Forward(k) =>
      if k in s.streams && s.streams[k] != [] then
        s.(streams := s.streams[k := s.streams[k][1..]], queue := s.queue + [Forwarded(s.streams[k][0])])
      else s
    case OwnerChange => s.(queue := s.queue + [ServiceReturned])
    case Read =>
      if s.reading == [] then s else
        var t := s.(merged := ReadProperty(s.merged, s.reading[0], s.service), reading := s.reading[1..]);
        if t.reading == [] then Show(t) else t
    case Receive =>
      if s.reading != [] || s.queue == [] then s else
        var rest := s.(queue := s.queue[1..]);
        match s.queue[0]
        case ServiceReturned => rest.(reading := RETURN_ORDER)
        case Forwarded(signal) => Show(rest.(merged := Merge(rest.merged, signal)))
  }

  function Run(s: System, events: seq<Event>): System {
    if events == [] then s else Step(Run(s, events[..|events| - 1]), events[|events| - 1])
  }
}
