/** An availability job's accounts, told from the events themselves. */
module JobHistory {
  import opened Text
  import opened JobRun
  import opened JobGuarantees

  /** What the events since the last accepted start amount to: `starts` in all, and of the present job the
      items selected, the items and files whose outcome came in, the messages and the byte counts. */
  datatype History = History(starts: nat, items: nat, probes: nat, handled: nat, messages: seq<string>, bytes: seq<nat>,
                             asked: bool)

  const NO_HISTORY := History(0, 0, 0, 0, [], [], false)

  predicate Startable(s: State) {
    s.starting.None? && !s.job.running
  }

  function Noted(h: History, s: State, e: Event): History {
    match e
    case Start(items) => if Startable(s) then History(h.starts + 1, items, 0, 0, [], [], h.asked) else h
    case Release => if s.starting.Some? then h.(asked := false) else h
    case Cancel => h.(asked := true)
    case Work(i, o) => if i < |s.workers| then WorkNoted(h, s, s.workers[i], o) else h
  }

  function WorkNoted(h: History, s: State, p: Phase, o: Outcome): History {
    match p
    case Probing(_) =>
      if o.Fine? then h.(probes := h.probes + 1)
      else if o.Report? && s.starting.None? then h.(probes := h.probes + 1, messages := h.messages + [o.message])
      else h
    case Handling(_) =>
      if o.Fine? then h.(handled := h.handled + 1)
      else if o.Report? && s.starting.None? then h.(handled := h.handled + 1, messages := h.messages + [o.message])
      else if o.Accept? && s.starting.None? then h.(handled := h.handled + 1, bytes := h.bytes + [o.bytes])
      else h
    case Failing(message) => if s.starting.None? then h.(messages := h.messages + [message]) else h
    case _ => h
  }

  function Past(events: seq<Event>): History {
    if events == [] then NO_HISTORY else
      var front := events[..|events| - 1];
      Noted(Past(front), Run(IDLE, front), events[|events| - 1])
  }

  /** Where the worker stands, against what has come in. */
  predicate PhaseTells(h: History, job: Job, p: Phase) {
    match p
    case Selecting(n) => h.probes + n == h.items && h.handled == 0
    case Probing(n) => h.probes + n + 1 == h.items && h.handled == 0
    case Listed(_) => h.probes == h.items && h.handled == 0
    case Counted(_) => h.probes == h.items && h.handled == 0
    case Filing(_) => h.probes == h.items && h.handled == job.done
    case Handling(_) => h.probes == h.items && h.handled == job.done
    case Settled(_) => h.probes == h.items && h.handled == job.done + 1
    case Failing(_) => h.handled == job.done
    case Ending => h.handled == job.done
  }

  predicate Tells(h: History, s: State) {
    && s.reports == h.messages && s.replies == h.bytes
    && s.cancel == h.asked
    && s.job.id == (if h.starts < U64_LIMIT then h.starts else U64_LIMIT - 1)
    && (s.starting.Some? ==> s.starting == Some(h.items) && h.probes == h.handled == 0 && s.job.done == 0)
    && (s.starting.None? && s.workers == [] ==> h.handled == s.job.done)
    && forall i :: 0 <= i < |s.workers| ==> PhaseTells(h, s.job, s.workers[i])
  }

  lemma WorkTells(h: History, s: State, p: Phase, o: Outcome)
    requires s.workers == [p] && s.starting.None? && Tells(h, s) && PhaseProgress(s.job, p)
    ensures Tells(WorkNoted(h, s, p, o), Advance(s, 0, o))
  {
    assert PhaseTells(h, s.job, s.workers[0]);
    var t := Advance(s, 0, o);
    assert t.workers != [] ==> PhaseTells(WorkNoted(h, s, p, o), t.job, t.workers[0]);
  }

  lemma StepTells(h: History, s: State, e: Event)
    requires OneWorker(s) && Progress(s) && Tells(h, s)
    ensures Tells(Noted(h, s, e), Step(s, e))
  {
    hide Advance, WorkNoted;
    if e.Work? && e.worker < |s.workers| {
      assert PhaseProgress(s.job, s.workers[0]);
      WorkTells(h, s, s.workers[0], e.outcome);
    }
  }

  lemma {:induction false} PastTells(events: seq<Event>)
    ensures Tells(Past(events), Run(IDLE, events))
  {
    hide Step, Noted, Tells, OneWorker, Progress, Reasons, Accounts;
    if events == [] {
      NothingTold();
    } else {
      var front := events[..|events| - 1];
      PastTells(front);
      RunKeepsInvariant(front);
      StepTells(Past(front), Run(IDLE, front), events[|events| - 1]);
    }
  }

  lemma NothingTold()
    ensures Tells(NO_HISTORY, IDLE)
  {
  }

  /** In every snapshot the errors are the first hundred messages that came in, the bytes the sum of the accepted
      counts, the files done those whose outcome came in, and the number is that of the accepted starts. */
  lemma SnapshotTellsEvents(events: seq<Event>)
    ensures var s, h := Run(IDLE, events), Past(events);
      && s.job.errors == (if |h.messages| <= 100 then h.messages else h.messages[..100])
      && s.job.bytes == Sum(h.bytes) % 18446744073709551616
      && s.job.done <= h.handled <= s.job.done + 1
      && (!s.job.running ==> h.handled == s.job.done)
      && (h.starts < 18446744073709551616 ==> s.job.id == h.starts)
  {
    hide Run, Past, Sum;
    PastTells(events);
    RunKeepsInvariant(events);
    var s, h := Run(IDLE, events), Past(events);
    assert forall i :: 0 <= i < |s.workers| ==> PhaseTells(h, s.job, s.workers[i]);
  }

  /** A worker that has its list of files. */
  predicate Begun(w: Phase) {
    w.Listed? || w.Counted? || w.Filing? || w.Handling? || w.Settled?
  }

  /** No list is taken up before every selected item was looked at. */
  lemma EveryItemIsProbed(events: seq<Event>)
    ensures var s := Run(IDLE, events);
      |s.workers| == 1 && Begun(s.workers[0]) ==> Past(events).probes == Past(events).items
  {
    hide Run, Past;
    PastTells(events);
    var s := Run(IDLE, events);
    if |s.workers| == 1 { assert PhaseTells(Past(events), s.job, s.workers[0]); }
  }

  // ---- starting ----

  lemma RunTwo(s: State, a: Event, b: Event)
    ensures Run(s, [a, b]) == Step(Step(s, a), b)
  {
    assert [a, b][..1] == [a] && [a][..0] == [];
    assert Run(s, [a]) == Step(Run(s, []), a);
  }

  /** An accepted start clears the accounts and the cancel flag and hands the worker the whole selection; while a
      job runs a start changes nothing. */
  lemma StartGivesAll(s: State, items: nat)
    ensures Startable(s) ==>
      var t := Run(s, [Start(items), Release]);
      && t.workers == s.workers + [Selecting(items)] && t.starting.None? && !t.cancel
      && t.job.running && t.job.done == t.job.total == t.job.bytes == 0 && t.job.errors == [] && !t.job.cancelled
    ensures !Startable(s) ==> Step(s, Start(items)) == s
  {
    RunTwo(s, Start(items), Release);
  }

  // ---- cancelling ----

  predicate NoCancel(events: seq<Event>) {
    forall i :: 0 <= i < |events| ==> !events[i].Cancel?
  }

  lemma NobodyCancels(s: State, e: Event)
    requires !s.cancel && !s.job.cancelled && !e.Cancel?
    ensures !Step(s, e).cancel && !Step(s, e).job.cancelled
  {
    hide AddError;
  }

  /** No job is reported as cancelled that nobody cancelled. */
  lemma {:induction false} OnlyTheCancelled(events: seq<Event>)
    requires NoCancel(events)
    ensures !Run(IDLE, events).cancel && !Run(IDLE, events).job.cancelled
  {
    hide Step;
    if events != [] {
      var front := events[..|events| - 1];
      assert forall i :: 0 <= i < |front| ==> front[i] == events[i];
      OnlyTheCancelled(front);
      NobodyCancels(Run(IDLE, front), events[|events| - 1]);
    }
  }

  /** A cancel request at any moment of a running job: at most the file in hand is finished, and the job ends as
      cancelled. */
  lemma CancelEndsTheJob(before: seq<Event>, after: seq<Event>)
    requires Run(IDLE, before).job.running && Run(IDLE, before).starting.None? && NoStart(after)
    ensures var s := Step(Run(IDLE, before), Cancel);
      var t := Run(s, after);
      t.job.done <= s.job.done + 1 && (!t.job.running ==> t.job.cancelled)
  {
    hide Run, InHand;
    RunKeepsInvariant(before);
    var s := Run(IDLE, before);
    StepKeepsOneWorker(s, Cancel);
    StepKeepsProgress(s, Cancel);
    StepKeepsReasons(s, Cancel);
    StepKeepsAccounts(s, Cancel);
    CancelIsHonoured(Step(s, Cancel), after);
  }

  /** Where a worker that was looking at the selection, with items left, can be after a cancel request. */
  predicate StopsLooking(p: Phase, q: Phase) {
    q == p || q.Ending? || (p.Probing? && (q.Failing? || q == Selecting(p.items)))
  }

  lemma StaysPut(p: Phase)
    ensures StopsLooking(p, p)
  {
  }

  lemma LookStep(t: State, p: Phase, e: Event)
    requires t.cancel && t.starting.None? && |t.workers| <= 1 && (t.workers == [] <==> !t.job.running)
    requires (forall w :: w in t.workers ==> StopsLooking(p, w)) && (p.Selecting? || p.Probing?) && p.items > 0 && !e.Start?
    ensures var u := Step(t, e);
      && u.cancel && u.starting.None? && |u.workers| <= 1 && (u.workers == [] <==> !u.job.running)
      && forall w :: w in u.workers ==> StopsLooking(p, w)
  {
    hide AddError;
    if t.workers != [] { assert t.workers == [t.workers[0]] && t.workers[0] in t.workers; }
  }

  /** Nor is another item of the selection looked at, let alone a file. */
  lemma {:induction false} CancelStopsTheLook(s: State, p: Phase, events: seq<Event>)
    requires s.cancel && s.starting.None? && s.workers == [p] && s.job.running && NoStart(events)
    requires (p.Selecting? || p.Probing?) && p.items > 0
    ensures var t := Run(s, events);
      && t.cancel && t.starting.None? && |t.workers| <= 1 && (t.workers == [] <==> !t.job.running)
      && forall w :: w in t.workers ==> StopsLooking(p, w)
  {
    hide Step, StopsLooking;
    if events == [] {
      assert StopsLooking(p, p) by { StaysPut(p); }
    } else {
      var front, e := events[..|events| - 1], events[|events| - 1];
      assert forall i :: 0 <= i < |front| ==> front[i] == events[i];
      CancelStopsTheLook(s, p, front);
      LookStep(Run(s, front), p, e);
    }
  }

  // ---- one file ----

  /** The file is already the way the action wants it. */
  predicate AsWanted(op: Operation, dehydrated: bool) {
    if op.Free? then dehydrated else !dehydrated
  }

  /** What becomes of a file: nothing has to be done or somebody has just done it, the helper names its bytes, or
      the person is told. */
  lemma FileOutcomeExactly(op: Operation, same: bool, dehydrated: Option<bool>, reply: string)
    ensures var o := FileOutcome(op, same, dehydrated, reply);
      var usable := same && dehydrated.Some?;
      var already := op.Free? && Trim(reply) == "kept: AlreadyDehydrated";
      && (o.Fine? <==> usable && (AsWanted(op, dehydrated.value) || already))
      && (forall n: nat :: o == Accept(n) <==>
            usable && !AsWanted(op, dehydrated.value) && !already && ReplyBytes(op, reply) == Some(n))
      && (o.Report? <==> !o.Fine? && !o.Accept?)
      && (usable && o.Report? ==> o.message == reply)
  {
    hide Trim, ReplyBytes;
  }

  /** Only the helper's own sentence names bytes. */
  lemma OnlySentencesCount(op: Operation, reply: string, n: nat)
    requires ReplyBytes(op, reply) == Some(n)
    ensures exists digits :: (ParseU64(digits) == Some(n)
                              && Trim(reply) == (if op.Keep? then "hydrated " else "reclaimed ") + digits + " bytes")
  {
    hide Trim, ParseU64;
    var t := Trim(reply);
    var rest := t[|Prefix(op)|..];
    var digits := rest[..|rest| - 6];
    assert rest == digits + " bytes" && t == Prefix(op) + rest;
    assert t == Prefix(op) + digits + " bytes";
  }
}
