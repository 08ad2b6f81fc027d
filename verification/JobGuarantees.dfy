/** What every snapshot of an availability job shows, and that jobs end. */
module JobGuarantees {
  import opened Text
  import opened JobRun

  function Sum(ns: seq<nat>): nat {
    if ns == [] then 0 else Sum(ns[..|ns| - 1]) + ns[|ns| - 1]
  }

  function FirstErrors(reports: seq<string>): seq<string> {
    if |reports| <= MAX_ERRORS then reports else reports[..MAX_ERRORS]
  }

  predicate OneWorker(s: State) {
    && (s.job.running <==> s.starting.Some? || s.workers != [])
    && |s.workers| <= 1 && (s.starting.Some? ==> s.workers == [])
  }

  predicate Progress(s: State) {
    && s.job.done <= s.job.total
    && (s.starting.Some? ==> s.job.done == s.job.total == 0)
    && forall i :: 0 <= i < |s.workers| ==> PhaseProgress(s.job, s.workers[i])
  }

  predicate PhaseProgress(job: Job, p: Phase) {
    match p
    case Selecting(_) => job.done == job.total == 0
    case Probing(_) => job.done == job.total == 0
    case Listed(_) => job.done == job.total == 0
    case Counted(n) => job.done == 0 && job.total == n
    case Filing(n) => job.done + n == job.total
    case Handling(n) => job.done + n + 1 == job.total
    case Settled(n) => job.done + n + 1 == job.total
    case Failing(_) => true
    case Ending => true
  }

  /** Why a worker stopped. */
  predicate Reasons(s: State) {
    && (s.job.id > 0 && !s.job.running ==> s.job.cancelled || s.job.errors != [] || s.job.done == s.job.total)
    && (s.starting.Some? || s.workers != [] ==> s.job.id > 0)
    && forall i :: 0 <= i < |s.workers| && s.workers[i].Ending? ==> s.cancel || s.job.errors != [] || s.job.done == s.job.total
  }

  /** 1 while a result is recorded and the progress is still to follow. */
  function Unfinished(s: State): nat {
    if |s.workers| == 1 && s.workers[0].Settled? then 1 else 0
  }

  predicate Accounts(s: State) {
    && s.job.errors == FirstErrors(s.reports)
    && s.job.bytes == Sum(s.replies) % U64_LIMIT
    && |s.replies| <= s.job.done + Unfinished(s)
  }

  predicate Invariant(s: State) {
    OneWorker(s) && Progress(s) && Reasons(s) && Accounts(s)
  }

  lemma StepKeepsOneWorker(s: State, e: Event)
    requires OneWorker(s)
    ensures OneWorker(Step(s, e))
  {
  }

  lemma AdvanceKeepsProgress(s: State, p: Phase, o: Outcome)
    requires s.workers == [p] && s.starting.None? && Progress(s)
    ensures Progress(Advance(s, 0, o))
  {
    assert PhaseProgress(s.job, s.workers[0]);
    var t := Advance(s, 0, o);
    assert t.workers != [] ==> PhaseProgress(t.job, t.workers[0]);
  }

  lemma StepKeepsProgress(s: State, e: Event)
    requires OneWorker(s) && Progress(s)
    ensures Progress(Step(s, e))
  {
    hide Advance;
    if e.Work? && e.worker < |s.workers| { AdvanceKeepsProgress(s, s.workers[0], e.outcome); }
  }

  lemma StepKeepsReasons(s: State, e: Event)
    requires OneWorker(s) && Progress(s) && Reasons(s)
    ensures Reasons(Step(s, e))
  {
  }

  lemma RecordKeepsFirst(errors: seq<string>, reports: seq<string>, message: string)
    requires errors == FirstErrors(reports)
    ensures AddError(errors, message) == FirstErrors(reports + [message])
  {
    if |reports| >= MAX_ERRORS {
      assert (reports + [message])[..MAX_ERRORS] == reports[..MAX_ERRORS];
    }
  }

  lemma AcceptKeepsSum(bytes: nat, replies: seq<nat>, n: nat)
    requires bytes == Sum(replies) % U64_LIMIT
    ensures (bytes + n) % U64_LIMIT == Sum(replies + [n]) % U64_LIMIT
  {
    assert (replies + [n])[..|replies|] == replies;
  }

  lemma AdvanceKeepsAccounts(s: State, p: Phase, o: Outcome)
    requires s.workers == [p] && Accounts(s)
    ensures Accounts(Advance(s, 0, o))
  {
    hide AddError, FirstErrors, Sum;
    if o.Report? { RecordKeepsFirst(s.job.errors, s.reports, o.message); }
    if o.Accept? { AcceptKeepsSum(s.job.bytes, s.replies, o.bytes); }
    if p.Failing? { RecordKeepsFirst(s.job.errors, s.reports, p.message); }
  }

  lemma NothingYet()
    ensures FirstErrors([]) == [] && Sum([]) == 0
  {
  }

  lemma StepKeepsAccounts(s: State, e: Event)
    requires OneWorker(s) && Accounts(s)
    ensures Accounts(Step(s, e))
  {
    hide FirstErrors, Sum, Advance;
    NothingYet();
    if e.Work? && e.worker < |s.workers| { AdvanceKeepsAccounts(s, s.workers[0], e.outcome); }
  }

  lemma {:induction false} RunKeepsInvariant(events: seq<Event>)
    ensures Invariant(Run(IDLE, events))
  {
    hide Step, OneWorker, Progress, Reasons, Accounts;
    if events == [] {
      IdleIsFine();
    } else {
      var s, e := Run(IDLE, events[..|events| - 1]), events[|events| - 1];
      RunKeepsInvariant(events[..|events| - 1]);
      StepKeepsOneWorker(s, e);
      StepKeepsProgress(s, e);
      StepKeepsReasons(s, e);
      StepKeepsAccounts(s, e);
    }
  }

  lemma IdleIsFine()
    ensures Invariant(IDLE)
  {
  }

  /** What any snapshot shows, at any moment of any run. */
  lemma SnapshotsAreConsistent(events: seq<Event>)
    ensures var s := Run(IDLE, events);
      && |s.workers| <= 1
      && s.job.done <= s.job.total
      && |s.job.errors| <= MAX_ERRORS && s.job.errors <= s.reports
      && (|s.reports| <= MAX_ERRORS ==> s.job.errors == s.reports)
      && (Sum(s.replies) < U64_LIMIT ==> s.job.bytes == Sum(s.replies))
      && |s.replies| <= s.job.done + 1
      && (s.job.id > 0 && !s.job.running ==>
            s.job.cancelled || s.job.errors != [] || (s.job.done == s.job.total && |s.replies| <= s.job.done))
  {
    hide Step, Sum;
    RunKeepsInvariant(events);
    var s := Run(IDLE, events);
    SmallMod(Sum(s.replies));
  }

  lemma SmallMod(n: nat)
    ensures n < U64_LIMIT ==> n % U64_LIMIT == n
  {
  }

  // ---- jobs end, and cancelling ends them soon ----

  /** Distance of a worker from its end, highest digit first. */
  function Rank(p: Phase): (nat, nat) {
    match p
    case Selecting(n) => (4, 2 * n)
    case Probing(n) => (4, 2 * n + 1)
    case Listed(_) => (3, 1)
    case Counted(_) => (3, 0)
    case Filing(n) => (2, 3 * n)
    case Handling(n) => (2, 3 * n + 2)
    case Settled(n) => (2, 3 * n + 1)
    case Failing(_) => (1, 0)
    case Ending => (0, 0)
  }

  predicate Closer(a: Phase, b: Phase) {
    Rank(a).0 < Rank(b).0 || (Rank(a).0 == Rank(b).0 && Rank(a).1 < Rank(b).1)
  }

  /** What a step does to the worker, whatever else it does. */
  lemma MovesTo(s: State, i: nat, o: Outcome) returns (p: Phase)
    requires i < |s.workers| && Advance(s, i, o) != s && !s.workers[i].Ending?
    ensures Advance(s, i, o).workers == s.workers[i := p] && Closer(p, s.workers[i])
  {
    p := Advance(s, i, o).workers[i];
    match s.workers[i]
    case Selecting(n) =>
    case Probing(n) =>
    case Listed(n) =>
    case Counted(n) =>
    case Filing(n) =>
    case Handling(n) =>
    case Settled(n) =>
    case Failing(m) =>
  }

  /** Every step of the worker that does anything brings it closer to its end. */
  lemma WorkerAdvances(s: State, i: nat, o: Outcome)
    requires i < |s.workers| && Advance(s, i, o) != s
    ensures var t := Advance(s, i, o);
      if s.workers[i].Ending? then t.workers == s.workers[..i] + s.workers[i + 1..] && !t.job.running
      else |t.workers| == |s.workers| && Closer(t.workers[i], s.workers[i])
  {
    if !s.workers[i].Ending? {
      hide Advance, Closer;
      var p := MovesTo(s, i, o);
    }
  }

  /** And there is always such a step: no snapshot, start or cancel can hold the worker for ever. */
  lemma WorkerIsNeverStuck(events: seq<Event>, i: nat)
    requires i < |Run(IDLE, events).workers|
    ensures exists o :: Advance(Run(IDLE, events), i, o) != Run(IDLE, events)
  {
    hide Progress, Reasons, Accounts;
    var s := Run(IDLE, events);
    RunKeepsInvariant(events);
    var o := if s.workers[i] == Selecting(0) then Found(0) else Fine;
    assert s.starting.None?;
    Moves(s, i, o);
  }

  lemma Moves(s: State, i: nat, o: Outcome)
    requires i < |s.workers| && s.starting.None?
    requires o == if s.workers[i] == Selecting(0) then Found(0) else Fine
    ensures Advance(s, i, o) != s
  {
    var t := Advance(s, i, o);
    if s.workers[i].Ending? {
      assert |t.workers| < |s.workers|;
    } else {
      assert t.workers[i] != s.workers[i];
    }
  }

  /** Files the worker may still finish after the flag is set: the one in hand. */
  function InHand(s: State): (n: nat)
    ensures n <= 1
  {
    if |s.workers| == 1 && (s.workers[0].Handling? || s.workers[0].Settled?) then 1 else 0
  }

  predicate NoStart(events: seq<Event>) {
    forall i :: 0 <= i < |events| ==> !events[i].Start?
  }

  lemma CancelledStep(s: State, e: Event)
    requires OneWorker(s) && s.cancel && s.starting.None? && !e.Start?
    ensures var t := Step(s, e);
      && t.cancel && t.starting.None?
      && t.job.done + InHand(t) <= s.job.done + InHand(s)
      && (s.job.running && !t.job.running ==> t.job.cancelled)
      && (!s.job.running ==> t.job == s.job)
  {
  }

  /** Once the flag is set the job finishes at most the file in hand, and ends as cancelled. */
  lemma {:induction false} CancelIsHonoured(s: State, events: seq<Event>)
    requires Invariant(s) && s.cancel && s.starting.None? && s.job.running && NoStart(events)
    ensures var t := Run(s, events);
      && OneWorker(t) && t.cancel && t.starting.None?
      && t.job.done + InHand(t) <= s.job.done + InHand(s) <= s.job.done + 1
      && (!t.job.running ==> t.job.cancelled)
  {
    hide Step, OneWorker, InHand;
    assert InHand(s) <= 1;
    if events == [] {
      assert OneWorker(s);
    } else {
      var front, e := events[..|events| - 1], events[|events| - 1];
      assert forall i :: 0 <= i < |front| ==> front[i] == events[i];
      CancelIsHonoured(s, front);
      StepKeepsOneWorker(Run(s, front), e);
      CancelledStep(Run(s, front), e);
    }
  }

  // ---- one file ----

  /** What `run` makes of a file: whether it is still the file that was listed, its mark
      (None when it cannot be read), and the helper's reply when one is asked for. */
  function FileOutcome(op: Operation, same: bool, dehydrated: Option<bool>, reply: string): Outcome {
    if !same then Report("moved")
    else if dehydrated.None? then Report("metadata")
    else if (op.Free? && dehydrated.value) || (op.Keep? && !dehydrated.value) then Fine
    else
      var bytes := ReplyBytes(op, reply);
      if op.Free? && Trim(reply) == "kept: AlreadyDehydrated" then Fine
      else if bytes.Some? then Accept(bytes.value)
      else Report(reply)
  }

  function Prefix(op: Operation): string {
    if op.Keep? then "hydrated " else "reclaimed "
  }

  function ReplyBytes(op: Operation, reply: string): (bytes: Option<nat>)
    ensures bytes.Some? ==> bytes.value < U64_LIMIT
  {
    var t := Trim(reply);
    if !StartsWith(t, Prefix(op)) then None else
      var rest := t[|Prefix(op)|..];
      if !EndsWith(rest, " bytes") then None else ParseU64(rest[..|rest| - 6])
  }

  lemma PrintedCount(n: nat)
    requires n < U64_LIMIT
    ensures EndsWith(Decimal(n) + " bytes", " bytes")
    ensures (Decimal(n) + " bytes")[..|Decimal(n) + " bytes"| - 6] == Decimal(n)
    ensures ParseU64(Decimal(n)) == Some(n)
  {
    hide ParseU64, Decimal;
    ParseDecimal(n);
  }

  /** A helper's report of any 64-bit count is taken at its word, with or without a line end. */
  lemma RepliesAreCounted(op: Operation, n: nat, end: string)
    requires n < U64_LIMIT && end in {"", "\n"}
    ensures FileOutcome(op, true, Some(op.Keep?), Prefix(op) + (Decimal(n) + " bytes") + end) == Accept(n)
  {
    hide ParseU64, Decimal, Trim, Prefix, EndsWith;
    var count := Decimal(n) + " bytes";
    var text := Prefix(op) + count;
    PrintedCount(n);
    PrefixStart(op);
    TrimLineEnd(text, end);
    assert text[|Prefix(op)|..] == count;
    assert text != "kept: AlreadyDehydrated" by { assert text[0] != 'k'; }
  }

  lemma PrefixStart(op: Operation)
    ensures Prefix(op) != "" && Prefix(op)[0] in {'h', 'r'}
  {
  }

  lemma TrimLineEnd(text: string, end: string)
    requires text != "" && text[0] in {'h', 'r'} && text[|text| - 1] == 's' && end in {"", "\n"}
    ensures Trim(text + end) == text
  {
    TrimTight(text);
    if end == "" {
      assert text + end == text;
    } else {
      assert (text + end)[..|text|] == text;
      assert TrimEnd(text + end) == TrimEnd(text);
    }
    assert (text + end)[0] == text[0];
  }
}
