/** The sampling loop of the auth-state publisher as far as it decides to restart the daemon:
    at once for an enrollment-complete request, and for an enrollment file that held still. */
module Adoption {
  import opened Text
  import opened DaemonTypes

  /** Size and modification time of the enrollment file. */
  datatype Snapshot = Snapshot(size: nat, modified: int)

  /** What one turn of the loop observes: the sampled health, whether a restart request was
      swapped out, and the enrollment file if it is private, regular and not empty. */
  datatype Tick = Tick(sampled: Health, requested: bool, file: Option<Snapshot>)

  datatype Restart = ForRequest | ForFile(snapshot: Snapshot)

  datatype Memory = Memory(pending: Option<Snapshot>, adopted: Option<Snapshot>, announced: bool)

  const FRESH := Memory(None, None, false)

  predicate IsRejected(t: Tick) {
    t.sampled.State() == CredentialState.Rejected
  }

  predicate RejectedWith(t: Tick, snapshot: Snapshot) {
    IsRejected(t) && t.file == Some(snapshot)
  }

  /** The file part of one turn. */
  function AfterFile(m: Memory, t: Tick): Memory {
    match t.file
    case None => m.(pending := None, announced := false)
    case Some(snapshot) =>
      if !IsRejected(t) then m.(pending := None, announced := true)
      else if m.adopted == t.file then m
      else if m.pending == t.file then m.(adopted := t.file)
      else m.(pending := t.file)
  }

  predicate AdoptsFile(m: Memory, t: Tick) {
    IsRejected(t) && t.file.Some? && m.adopted != t.file && m.pending == t.file
  }

  function RestartsIn(m: Memory, t: Tick, watchesFile: bool): seq<Restart> {
    (if t.requested then [ForRequest] else []) +
    (if watchesFile && AdoptsFile(m, t) then [ForFile(t.file.value)] else [])
  }

  /** The memory after a history of turns in which the enrollment file is watched. */
  function MemoryAfter(ticks: seq<Tick>): Memory {
    if ticks == [] then FRESH
    else AfterFile(MemoryAfter(ticks[..|ticks| - 1]), ticks[|ticks| - 1])
  }

  function RestartsAfter(ticks: seq<Tick>, watchesFile: bool): seq<Restart> {
    if ticks == [] then [] else
      var before := ticks[..|ticks| - 1];
      RestartsAfter(before, watchesFile) +
      RestartsIn(if watchesFile then MemoryAfter(before) else FRESH, ticks[|ticks| - 1], watchesFile)
  }

  /** The publisher as the source keeps it: fields the loop assigns. */
  class Publisher {
    const watchesFile: bool
    var health: Health
    var pending: Option<Snapshot>
    var adopted: Option<Snapshot>
    var announced: bool

    ghost function Value(): Memory
      reads this
    {
      Memory(pending, adopted, announced)
    }

    constructor (sampled: Health, watchesFile: bool)
      ensures Value() == FRESH && health == sampled && this.watchesFile == watchesFile
    {
      health := sampled;
      this.watchesFile := watchesFile;
      pending, adopted, announced := None, None, false;
    }

    /** One turn of the sampling loop; `restarts` are the calls of `adopt` in order. */
    method Turn(t: Tick) returns (restarts: seq<Restart>)
      modifies this
      ensures health == t.sampled
      ensures Value() == if watchesFile then AfterFile(old(Value()), t) else old(Value())
      ensures restarts == RestartsIn(old(Value()), t, watchesFile)
    {
      restarts := [];
      if t.sampled != health {
        health := t.sampled;
      }
      if t.requested {
        restarts := restarts + [ForRequest];
      }
      if watchesFile {
        match t.file {
          case Some(snapshot) =>
            if health.State() == CredentialState.Rejected {
              if adopted == Some(snapshot) {
              } else if pending == Some(snapshot) {
                adopted := Some(snapshot);
                restarts := restarts + [ForFile(snapshot)];
              } else {
                pending := Some(snapshot);
              }
            } else {
              announced := true;
              pending := None;
            }
          case None =>
            pending := None;
            announced := false;
        }
      }
    }
  }
}
