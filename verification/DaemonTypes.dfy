/** Values that travel from the sync daemon to the panel. */
module DaemonTypes {
  import opened Text

  /** The sign-in conclusion. `Unknown` is the reader's word for "nobody said". */
  datatype CredentialState = Unknown | Healthy | Unsaved | Rejected

  function AsWire(c: CredentialState): string {
    match c
    case Unknown => "unknown"
    case Healthy => "healthy"
    case Unsaved => "unsaved"
    case Rejected => "rejected"
  }

  /** Words this build does not know degrade to `Unknown`. */
  function FromWire(value: string): CredentialState {
    if value == "healthy" then Healthy
    else if value == "unsaved" then Unsaved
    else if value == "rejected" then Rejected
    else Unknown
  }

  /** The words the two sides agree on; every other one means that nobody said. */
  lemma WireWords(word: string)
    ensures FromWire("healthy") == Healthy && FromWire("unsaved") == Unsaved && FromWire("rejected") == Rejected
    ensures FromWire(word) != Unknown ==> AsWire(FromWire(word)) == word && word in {"healthy", "unsaved", "rejected"}
  {
  }

  /** One sample of the token cache; an `io::ErrorKind` is a number here. */
  datatype Health = Health(signedIn: bool, storeError: Option<nat>) {
    /** A refused credential outranks a store that does not save. */
    function State(): (c: CredentialState)
      ensures c != Unknown
      ensures c == Rejected <==> !signedIn
      ensures c == Unsaved <==> signedIn && storeError.Some?
    {
      if !signedIn then Rejected
      else if storeError.Some? then Unsaved
      else Healthy
    }
  }

  /** What the state service knows about the daemon; the numbers are `u64`. */
  datatype DaemonState = DaemonState(
    running: bool,
    unsent: nat,
    excluded: nat,
    exposures: nat,
    downloading: nat,
    indexing: bool,
    uploading: seq<string>)

  const DEFAULT_STATE := DaemonState(false, 0, 0, 0, 0, false, [])
}
