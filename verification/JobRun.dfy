/** An availability job as its threads run it: requests that start or cancel, snapshots between
    any two steps, and a worker that takes the state lock for one update at a time. */
module JobRun {
  import opened Text

  const MAX_ERRORS := 100

  datatype Operation = Keep | Free

  /** The locked state; the text fields a snapshot also shows are left out. */
  datatype Job = Job(id: nat, running: bool, done: nat, total: nat, bytes: nat, cancelled: bool, errors: seq<string>)

  /** Where a worker stands between two of its steps. */
  datatype Phase =
    | Selecting(items: nat)  // top of the loop over the selection
    | Probing(items: nat)    // an item in hand, `items` after it
    | Listed(files: nat)     // the file list is sorted; its length is not published yet
    | Counted(files: nat)
    | Filing(left: nat)      // top of the loop over the files
    | Handling(left: nat)    // a file in hand, `left` after it
    | Settled(left: nat)     // the file's result is recorded, the progress is not
    | Failing(message: string)
    | Ending

  /** How a step that depends on the outside turns out. */
  datatype Outcome = Fine | Report(message: string) | Accept(bytes: nat) | Fail(message: string) | Found(files: nat)

  datatype State = State(
    job: Job,
    cancel: bool,
    starting: Option<nat>,     // a start request holds the lock, with this many items
    workers: seq<Phase>,
    reports: seq<string>,      // every error of this job, kept or not
    replies: seq<nat>)         // every byte count of this job

  datatype Event =
    | Start(items: nat)        // the locked check and the new job
    | Release                  // the flag is reset, the lock dropped, the worker spawned
    | Cancel
    | Work(worker: nat, outcome: Outcome)

  const IDLE := State(Job(0, false, 0, 0, 0, false, []), false, None, [], [], [])

  function AddError(errors: seq<string>, message: string): seq<string> {
    if |errors| < MAX_ERRORS then errors + [message] else errors
  }

  function Record(s: State, message: string): State {
    s.(job := s.job.(errors := AddError(s.job.errors, message)), reports := s.reports + [message])
  }

  function At(s: State, i: nat, p: Phase): State
    requires i < |s.workers|
  {
    s.(workers := s.workers[i := p])
  }

  function Step(s: State, e: Event): State {
    match e
    case Start(items) =>
      if s.starting.Some? || s.job.running then s
      else s.(job := Job(if s.job.id + 1 < U64_LIMIT then s.job.id + 1 else s.job.id, true, 0, 0, 0, false, []),
              starting := Some(items), reports := [], replies := [])
    case Release =>
      if s.starting.None? then s
      else s.(cancel := false, starting := None, workers := s.workers + [Selecting(s.starting.value)])
    case Cancel => s.(cancel := true)
    case Work(i, outcome) =>
      if i < |s.workers| then Advance(s, i, outcome) else s
  }

  /** Steps that need the lock wait while a start request holds it. */
  function Advance(s: State, i: nat, o: Outcome): State
    requires i < |s.workers|
  {
    var locked := s.starting.Some?;
    match s.workers[i]
    case Selecting(n) =>
      if n == 0 then (if o.Found? then At(s, i, Listed(o.files)) else s)
      else if s.cancel then At(s, i, Ending)
      else At(s, i, Probing(n - 1))
    case Probing(n) =>
      if o.Fine? then At(s, i, Selecting(n))
      else if o.Fail? then At(s, i, Failing(o.message))
      else if o.Report? && !locked then At(Record(s, o.message), i, Selecting(n))
      else s
    case Listed(n) =>
      if locked then s else At(s.(job := s.job.(total := n)), i, Counted(n))
    case Counted(n) =>
      if o.Fine? then At(s, i, Filing(n))
      else if o.Fail? then At(s, i, Failing(o.message))
      else s
    case Filing(n) =>
      if n == 0 || s.cancel then At(s, i, Ending) else At(s, i, Handling(n - 1))
    case Handling(n) =>
      if o.Fine? then At(s, i, Settled(n))
      else if o.Fail? then At(s, i, Failing(o.message))
      else if o.Report? && !locked then At(Record(s, o.message), i, Settled(n))
      else if o.Accept? && !locked then
        At(s.(job := s.job.(bytes := (s.job.bytes + o.bytes) % U64_LIMIT), replies := s.replies + [o.bytes]), i, Settled(n))
      else s
    case Settled(n) =>
      if locked then s else At(s.(job := s.job.(done := s.job.done + 1)), i, Filing(n))
    case Failing(message) =>
      if locked then s else At(Record(s, message), i, Ending)
    case Ending =>
      if locked then s
      else s.(job := s.job.(cancelled := s.cancel, running := false), workers := s.workers[..i] + s.workers[i + 1..])
  }

  function Run(s: State, events: seq<Event>): State {
    if events == [] then s else Step(Run(s, events[..|events| - 1]), events[|events| - 1])
  }
}
