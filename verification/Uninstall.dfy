/** Taking a deployment down: the sync root is never left mounted without its helper. */
module Uninstall {
  import opened Text
  import opened Paths
  import opened Execute

  const HELPER_UNIT := "hydrationd.service"
  const TRIGGER_UNIT := "hydrationd.path"
  const SYNC_UNIT := "onedrive-hydration.service"
  const STATE_UNIT := "onedrive-hydration-dbus.service"
  const TRAY_UNIT := "onedrive-hydration-tray.service"
  const BUS_FILE := "io.github.franzjeger.OneDriveHydration.service"

  datatype Options = Options(prefix: Path, dryRun: bool)

  predicate Real(o: Options) {
    o.prefix == [] && !o.dryRun
  }

  function ModeOf(o: Options): Mode {
    Mode(!o.dryRun, Real(o))
  }

  function SystemDir(prefix: Path): Path {
    prefix + ["etc", "systemd", "system"]
  }

  function UserDir(prefix: Path, home: Path): Path {
    prefix + home + [".config", "systemd", "user"]
  }

  function BusDir(prefix: Path, home: Path): Path {
    prefix + home + [".local", "share", "dbus-1", "services"]
  }

  function Removals(prefix: Path, home: Path): seq<Action> {
    var sys, usr := SystemDir(prefix), UserDir(prefix, home);
    [ RemoveFile(sys + [HELPER_UNIT]),
      RemoveFile(sys + [TRIGGER_UNIT]),
      RemoveFile(sys + ["multi-user.target.wants", TRIGGER_UNIT]),
      RemoveFile(usr + [SYNC_UNIT]),
      RemoveFile(usr + [STATE_UNIT]),
      RemoveFile(usr + [TRAY_UNIT]),
      RemoveFile(BusDir(prefix, home) + [BUS_FILE]),
      RemoveFile(usr + ["default.target.wants", SYNC_UNIT]),
      RemoveFile(usr + ["default.target.wants", STATE_UNIT]),
      RemoveFile(usr + ["graphical-session.target.wants", TRAY_UNIT]) ]
  }

  function TakeDown(mounted: bool): seq<Action> {
    [RunCommand(StopTrigger)] + if mounted then [RunCommand(Umount), VerifyUnmounted] else [RunCommand(StopHelper)]
  }

  /** `uninstall`: a plan, or a refusal. */
  function UninstallPlan(home: Path, mounted: bool, andUnmount: bool, isRoot: bool, o: Options): Option<seq<Action>> {
    if (Real(o) && !isRoot) || (mounted && !andUnmount) then None
    else Some(TakeDown(mounted) + [RunCommand(DisableUserHalf)] + Removals(o.prefix, home) + [RunCommand(Reload), Manual])
  }

  /** The helper's own unit files on the machine. */
  const HELPER_FILES := {
    ["etc", "systemd", "system", HELPER_UNIT],
    ["etc", "systemd", "system", TRIGGER_UNIT],
    ["etc", "systemd", "system", "multi-user.target.wants", TRIGGER_UNIT] }

  /** While the sync root is mounted, the helper is still there to answer for it. */
  ghost predicate Safe(start: World, w: World) {
    w.Mounted() ==> Untouched(start, w)
  }

  /** The helper was not stopped directly and its files are as they were. */
  ghost predicate Untouched(start: World, w: World) {
    w.stopped == start.stopped && forall p :: p in HELPER_FILES && p in start.fs ==> p in w.fs && w.fs[p] == start.fs[p]
  }

  /** The world at any point of a run: after the first `n` actions (or the failure among them), and
      whatever happened since. */
  function PointOfRun(w: World, plan: seq<Action>, mode: Mode, turns: seq<Turn>, n: nat, moves: seq<Move>): World
    requires AllProper(plan) && |turns| == |plan| && n <= |plan|
  {
    Drift(Execute.Execute(w, plan[..n], mode, turns[..n]).world, moves)
  }

  /** At every point of every run. */
  ghost predicate AlwaysSafe(start: World, plan: seq<Action>, mode: Mode)
    requires AllProper(plan)
  {
    forall turns: seq<Turn>, n: nat, moves: seq<Move> :: |turns| == |plan| && n <= |plan| ==>
      Safe(start, PointOfRun(start, plan, mode, turns, n, moves))
  }

  lemma PlanIsProper(home: Path, mounted: bool, o: Options)
    ensures AllProper(UninstallPlan(home, mounted, true, true, o).value)
  {
    hide SystemDir, UserDir, BusDir;
  }

  // ---- what the world does by itself ----

  /** Nothing left that would start the helper. */
  predicate Calm(w: World) {
    !w.armed && w.helper.Idle?
  }

  /** And nothing mounted. */
  predicate DownForGood(w: World) {
    Calm(w) && !w.Mounted()
  }

  /** One unmount takes the root down, or else the helper cannot come back. */
  predicate Manageable(w: World) {
    w.layers <= 1 || Calm(w)
  }

  lemma {:induction false} DriftFrame(w: World, moves: seq<Move>)
    ensures var d := Drift(w, moves);
      && d.fs == w.fs && d.armed == w.armed && d.stopped == w.stopped
      && (Calm(w) ==> Calm(d)) && (DownForGood(w) ==> DownForGood(d)) && (Manageable(w) ==> Manageable(d))
  {
    if moves != [] { DriftFrame(w, moves[..|moves| - 1]); }
  }

  lemma PerformFrame(w: World, a: Action, mode: Mode, t: Turn)
    requires Proper(a)
    ensures var after := Perform(w, a, mode, t).0;
      && (Calm(w) ==> Calm(after)) && (DownForGood(w) ==> DownForGood(after)) && (Manageable(w) ==> Manageable(after))
      && (after.armed ==> w.armed)
  {
    hide Write, MakeLink, AppendBlock;
  }

  // ---- what spares the helper ----

  lemma TakeDownSpares(w: World, a: Action, mode: Mode, t: Turn)
    requires a == VerifyUnmounted || a == Manual || (a.RunCommand? && (mode.runs ==> a.command != StopHelper))
    ensures var (after, entry) := Perform(w, a, mode, t);
      && after.fs == w.fs && after.stopped == w.stopped
      && (mode.runs && a == RunCommand(StopTrigger) && entry.Some? ==> !after.armed)
      && (mode.runs && a == RunCommand(Umount) && entry.Some? && !w.armed && Manageable(w) ==> Calm(after))
      && (mode.runs && a == VerifyUnmounted && entry.Some? ==> !after.Mounted() && after == w)
  {
  }

  lemma RemovalSpares(w: World, a: Action, mode: Mode, t: Turn)
    requires a.RemoveFile? && Proper(a) && (mode.writes ==> a.path !in HELPER_FILES)
    ensures var after := Perform(w, a, mode, t).0;
      after.stopped == w.stopped && forall p :: p in HELPER_FILES && p in w.fs ==> p in after.fs && after.fs[p] == w.fs[p]
  {
  }

  /** Under a scratch prefix no removal names a file of the machine's helper. */
  lemma RehearsalPaths(prefix: Path, home: Path, i: nat)
    requires prefix != [] && i < |Removals(prefix, home)|
    ensures Removals(prefix, home)[i].path !in HELPER_FILES
  {
    var base := prefix + home;
    var p := Removals(prefix, home)[i].path;
    if i < 3 {
      var sys := SystemDir(prefix);
      assert sys[|prefix|] == "etc" && sys[|prefix| + 1] == "systemd";
      assert p[|prefix|] == "etc" && p[|prefix| + 1] == "systemd";
      assert |p| > 5 || (|prefix| == 1 && p[1] == "etc");
    } else {
      assert UserDir(prefix, home)[|base|] == ".config" && BusDir(prefix, home)[|base|] == ".local";
      assert p[|base|] in {".config", ".local"};
      assert |base| >= 1 && |p| >= |base| + 4;
    }
  }

  ghost predicate SparesHelper(a: Action, mode: Mode) {
    || a == VerifyUnmounted || a == Manual
    || (a.RunCommand? && (mode.runs ==> a.command != StopHelper))
    || (a.RemoveFile? && Proper(a) && (mode.writes ==> a.path !in HELPER_FILES))
  }

  lemma SparingKeepsUntouched(start: World, w: World, a: Action, mode: Mode, t: Turn)
    requires Proper(a) && SparesHelper(a, mode) && Untouched(start, w)
    ensures Untouched(start, Perform(w, a, mode, t).0)
  {
    hide Perform;
    if a.RemoveFile? { RemovalSpares(w, a, mode, t); } else { TakeDownSpares(w, a, mode, t); }
  }

  // ---- the plan for a mounted root ----

  function MountedPlan(home: Path, o: Options): seq<Action> {
    UninstallPlan(home, true, true, true, o).value
  }

  lemma PlanShape(home: Path, o: Options)
    ensures var plan := MountedPlan(home, o);
      && |plan| == 16 && AllProper(plan)
      && plan[0] == RunCommand(StopTrigger) && plan[1] == RunCommand(Umount) && plan[2] == VerifyUnmounted
      && plan[3] == RunCommand(DisableUserHalf) && plan[14] == RunCommand(Reload) && plan[15] == Manual
      && forall i :: 0 <= i < 10 ==> plan[4 + i] == Removals(o.prefix, home)[i] && plan[4 + i].RemoveFile?
  {
    hide SystemDir, UserDir, BusDir;
    PlanIsProper(home, true, o);
  }

  lemma StepSpares(home: Path, o: Options, n: nat)
    requires n < |MountedPlan(home, o)| && (n < 3 || !Real(o))
    ensures SparesHelper(MountedPlan(home, o)[n], ModeOf(o))
    ensures Proper(MountedPlan(home, o)[n])
  {
    hide Removals, SystemDir, UserDir, BusDir;
    PlanShape(home, o);
    if 4 <= n < 14 && !o.dryRun { RehearsalPaths(o.prefix, home, n - 4); }
  }

  /** What holds after `n` actions of a run, `r`. */
  ghost predicate Stage(start: World, n: nat, r: Outcome, onMachine: bool) {
    && (r.ok && onMachine && n >= 1 ==> !r.world.armed)
    && (n <= 3 || !onMachine ==> Untouched(start, r.world))
    && (r.ok && onMachine && n == 3 ==> !r.world.Mounted())
    && (Manageable(start) ==> ManagedStage(start, n, r, onMachine))
  }

  ghost predicate ManagedStage(start: World, n: nat, r: Outcome, onMachine: bool) {
    && Manageable(r.world)
    && (Untouched(start, r.world) || DownForGood(r.world))
    && (r.ok && onMachine && n >= 2 ==> Calm(r.world))
    && (r.ok && onMachine && n >= 3 ==> DownForGood(r.world))
  }

  lemma {:induction false} MountedStages(start: World, home: Path, o: Options, turns: seq<Turn>, n: nat)
    requires |turns| == |MountedPlan(home, o)| && n <= |turns| && AllProper(MountedPlan(home, o))
    ensures Stage(start, n, Execute.Execute(start, MountedPlan(home, o)[..n], ModeOf(o), turns[..n]), Real(o))
  {
    hide MountedPlan, Perform, Drift, Execute.Execute;
    var plan, mode := MountedPlan(home, o), ModeOf(o);
    ExecuteNothing(start, plan, mode, turns);
    if n > 0 {
      MountedStages(start, home, o, turns, n - 1);
      ExecuteStep(start, plan, mode, turns, n - 1);
      var r := Execute.Execute(start, plan[..n - 1], mode, turns[..n - 1]);
      var next := Execute.Execute(start, plan[..n], mode, turns[..n]);
      assert next == Continue(r, plan[n - 1], mode, turns[n - 1]);
      if r.ok {
        var w := Drift(r.world, turns[n - 1].drift);
        DriftFrame(r.world, turns[n - 1].drift);
        MountedStep(start, home, o, n, w, turns[n - 1]);
        var (after, entry) := Perform(w, plan[n - 1], mode, turns[n - 1]);
        assert next.world == after && next.ok == entry.Some?;
      } else {
        assert next == r;
      }
    }
  }

  /** The stage of a run as the next action finds it, after a drift: a mount may have come up since. */
  ghost predicate Found(start: World, n: nat, w: World, onMachine: bool) {
    && (onMachine && n >= 1 ==> !w.armed)
    && (n <= 3 || !onMachine ==> Untouched(start, w))
    && (Manageable(start) ==> ManagedStage(start, n, Outcome(w, [], true), onMachine))
  }

  lemma MountedStep(start: World, home: Path, o: Options, n: nat, w: World, t: Turn)
    requires 0 < n <= |MountedPlan(home, o)| && AllProper(MountedPlan(home, o))
    requires Found(start, n - 1, w, Real(o))
    ensures var (after, entry) := Perform(w, MountedPlan(home, o)[n - 1], ModeOf(o), t);
      Stage(start, n, Outcome(after, [], entry.Some?), Real(o))
  {
    hide MountedPlan, Perform, Untouched;
    var a, mode := MountedPlan(home, o)[n - 1], ModeOf(o);
    PerformFrame(w, a, mode, t);
    PlanShape(home, o);
    if n <= 3 || !Real(o) {
      StepSpares(home, o, n - 1);
      if Untouched(start, w) { SparingKeepsUntouched(start, w, a, mode, t); }
      if n <= 3 { TakeDownSpares(w, a, mode, t); }
    }
  }

  /** In the order the plan takes, for every pattern of success and failure and whatever starts, ends or
      unmounts in between, the root is never mounted without its helper, at any point of the run, when
      it is mounted once as the run begins. */
  lemma MountedRunIsSafe(start: World, home: Path, o: Options, turns: seq<Turn>, n: nat, moves: seq<Move>)
    requires |turns| == |MountedPlan(home, o)| && n <= |turns| && (Manageable(start) || !Real(o))
    ensures AllProper(MountedPlan(home, o))
    ensures Safe(start, PointOfRun(start, MountedPlan(home, o), ModeOf(o), turns, n, moves))
  {
    hide MountedPlan, Execute.Execute, Drift;
    PlanShape(home, o);
    MountedStages(start, home, o, turns, n);
    DriftFrame(Execute.Execute(start, MountedPlan(home, o)[..n], ModeOf(o), turns[..n]).world, moves);
  }

  /** When the unmount is run, the trigger is disarmed: by then its stop has succeeded. */
  lemma DisarmedBeforeUnmount(start: World, home: Path, o: Options, turns: seq<Turn>)
    requires Real(o) && |turns| == |MountedPlan(home, o)|
    ensures AllProper(MountedPlan(home, o)) && 1 < |turns| && MountedPlan(home, o)[1] == RunCommand(Umount)
    ensures var r := Execute.Execute(start, MountedPlan(home, o)[..1], ModeOf(o), turns[..1]);
      r.ok ==> !PointOfRun(start, MountedPlan(home, o), ModeOf(o), turns, 1, turns[1].drift).armed
  {
    hide MountedPlan, Execute.Execute, Drift;
    PlanShape(home, o);
    MountedStages(start, home, o, turns, 1);
    DriftFrame(Execute.Execute(start, MountedPlan(home, o)[..1], ModeOf(o), turns[..1]).world, turns[1].drift);
  }

  /** On the machine, from any state: the helper is stopped or a file of it removed only after the root was
      seen unmounted. Of a root that was mounted once nothing is left by then that could bring it up. */
  lemma NothingRemovedBeforeVerified(start: World, home: Path, o: Options, turns: seq<Turn>, n: nat)
    requires Real(o) && |turns| == |MountedPlan(home, o)| && n <= |turns|
    ensures AllProper(MountedPlan(home, o)) && 3 < |turns| && MountedPlan(home, o)[2] == VerifyUnmounted
    ensures var r := Execute.Execute(start, MountedPlan(home, o)[..n], ModeOf(o), turns[..n]);
      var seen := Execute.Execute(start, MountedPlan(home, o)[..3], ModeOf(o), turns[..3]);
      !Untouched(start, r.world) ==>
        n > 3 && seen.ok && !seen.world.Mounted() && (Manageable(start) ==> DownForGood(r.world))
  {
    hide MountedPlan, Execute.Execute, Drift, Untouched;
    var plan, mode := MountedPlan(home, o), ModeOf(o);
    PlanShape(home, o);
    MountedStages(start, home, o, turns, n);
    MountedStages(start, home, o, turns, 3);
    if n > 3 && !Execute.Execute(start, plan[..3], mode, turns[..3]).ok {
      assert plan[..n][..3] == plan[..3] && turns[..n][..3] == turns[..3];
      FailureIsFinal(start, plan[..n], mode, turns[..n], 3);
    }
  }

  // ---- a root mounted more than once ----

  /** What gets the helper running, if anything can. */
  function Wake(w: World): seq<Move> {
    if w.helper.Running? then [] else if w.helper.Restarting? then [Restart] else [Trigger]
  }

  lemma WakeWakes(w: World)
    requires !Calm(w)
    ensures Drift(w, Wake(w)) == if w.helper.Running? then w else HelperUp(w)
  {
    assert forall m: Move :: [m][..0] == [];
    assert Drift(w, []) == w;
  }

  lemma DriftOne(w: World, m: Move)
    ensures Drift(w, [m]) == Moved(w, m) && Drift(w, []) == w
  {
    assert [m][..0] == [];
  }

  function Unmounts(k: nat): seq<Move> {
    seq(k, _ => Unmount)
  }

  lemma {:induction false} UnmountsCount(w: World, k: nat)
    requires k < w.layers
    ensures Drift(w, Unmounts(k)) == w.(layers := w.layers - k)
  {
    if k > 0 {
      assert Unmounts(k)[..k - 1] == Unmounts(k - 1);
      UnmountsCount(w, k - 1);
    }
  }

  function Well(drift: seq<Move>): Turn {
    Turn(drift, None, 0, true)
  }

  /** The run in which every action succeeds and the helper ends, taking the last mount along, between the
      unmount and the look at the mount table, to be restarted after it. */
  function Comeback(start: World): seq<Turn> {
    [ Well(Wake(start)), Well(Unmounts(if start.layers >= 2 then start.layers - 2 else 0)),
      Well([Exit(true)]), Well([Restart]), Well([]) ]
    + seq(11, _ => Well([]))
  }

  predicate HelperInstalled(w: World) {
    var p := SystemDir([]) + [HELPER_UNIT];
    p in w.fs && !w.fs[p].Dir?
  }

  /** One action of the run, after its drift. */
  lemma Takes(start: World, plan: seq<Action>, mode: Mode, turns: seq<Turn>, n: nat, w: World, drifted: World)
    requires AllProper(plan) && |turns| == |plan| && n < |plan|
    requires var r := Execute.Execute(start, plan[..n], mode, turns[..n]); r.ok && r.world == w
    requires drifted == Drift(w, turns[n].drift) && Perform(drifted, plan[n], mode, turns[n]).1.Some?
    ensures var r := Execute.Execute(start, plan[..n + 1], mode, turns[..n + 1]);
      r.ok && r.world == Perform(drifted, plan[n], mode, turns[n]).0
  {
    hide Perform, Drift;
    ExecuteStep(start, plan, mode, turns, n);
  }

  /** Up to the look at the mount table: the root is down, and the helper about to be restarted. */
  function Verified(start: World): World {
    start.(layers := 0, armed := false, helper := Restarting)
  }

  lemma ComebackIsVerified(start: World, plan: seq<Action>, mode: Mode)
    requires mode == Mode(true, true) && start.layers >= 2 && !Calm(start)
    requires AllProper(plan) && |plan| == |Comeback(start)|
    requires plan[0] == RunCommand(StopTrigger) && plan[1] == RunCommand(Umount) && plan[2] == VerifyUnmounted
    ensures var r := Execute.Execute(start, plan[..3], mode, Comeback(start)[..3]);
      r.ok && r.world == Verified(start)
  {
    hide Execute.Execute, Drift;
    var turns := Comeback(start);
    ExecuteNothing(start, plan, mode, turns);
    WakeWakes(start);
    var w0 := start.(helper := Running);
    var w1 := w0.(armed := false);
    Takes(start, plan, mode, turns, 0, start, w0);
    UnmountsCount(w1, start.layers - 2);
    var w2 := w1.(layers := 1);
    Takes(start, plan, mode, turns, 1, w1, w1.(layers := 2));
    DriftOne(w2, Exit(true));
    Takes(start, plan, mode, turns, 2, w2, Verified(start));
  }

  lemma ComebackIsMounted(start: World, plan: seq<Action>, mode: Mode, p: Path)
    requires mode == Mode(true, true) && AllProper(plan) && |plan| == |Comeback(start)|
    requires plan[3] == RunCommand(DisableUserHalf) && plan[4] == RemoveFile(p) && p in start.fs && !start.fs[p].Dir?
    requires var r := Execute.Execute(start, plan[..3], mode, Comeback(start)[..3]); r.ok && r.world == Verified(start)
    ensures var w := PointOfRun(start, plan, mode, Comeback(start), 5, []);
      w.Mounted() && p !in w.fs
  {
    hide Execute.Execute, Drift;
    var turns, down := Comeback(start), Verified(start);
    var up := HelperUp(down);
    DriftOne(down, Restart);
    Takes(start, plan, mode, turns, 3, down, up);
    DriftOne(up, Restart);
    Takes(start, plan, mode, turns, 4, up, up);
    DriftOne(Execute.Execute(start, plan[..5], mode, turns[..5]).world, Restart);
  }

  /** A root mounted twice, with a helper that can come back: it is mounted again after it was seen
      unmounted, and then the helper's files go. */
  lemma StackedMountIsUnsafe(start: World, home: Path, o: Options)
    requires Real(o) && !Manageable(start) && HelperInstalled(start)
    ensures AllProper(MountedPlan(home, o)) && |Comeback(start)| == |MountedPlan(home, o)| && 5 <= |Comeback(start)|
    ensures !Safe(start, PointOfRun(start, MountedPlan(home, o), ModeOf(o), Comeback(start), 5, []))
  {
    hide MountedPlan, Execute.Execute, Drift, Comeback, PointOfRun;
    PlanShape(home, o);
    ComebackLength(start);
    var p := SystemDir([]) + [HELPER_UNIT];
    assert MountedPlan(home, o)[4 + 0] == Removals(o.prefix, home)[0] == RemoveFile(p);
    assert p == ["etc", "systemd", "system", HELPER_UNIT];
    ComebackIsVerified(start, MountedPlan(home, o), ModeOf(o));
    ComebackIsMounted(start, MountedPlan(home, o), ModeOf(o), p);
  }

  lemma ComebackLength(start: World)
    ensures |Comeback(start)| == 16
  {
  }

  /** The plan for a mounted root is safe in every run exactly when the root is mounted no more than once,
      or nothing would start the helper, as it begins. */
  lemma MountedRunIsSafeExactly(start: World, home: Path, o: Options)
    requires Real(o) && HelperInstalled(start)
    ensures AllProper(MountedPlan(home, o))
    ensures AlwaysSafe(start, MountedPlan(home, o), ModeOf(o)) <==> Manageable(start)
  {
    hide MountedPlan, Execute.Execute, Drift, Safe, Manageable;
    PlanShape(home, o);
    if Manageable(start) {
      forall turns: seq<Turn>, n: nat, moves: seq<Move> | |turns| == |MountedPlan(home, o)| && n <= |turns|
        ensures Safe(start, PointOfRun(start, MountedPlan(home, o), ModeOf(o), turns, n, moves))
      {
        MountedRunIsSafe(start, home, o, turns, n, moves);
      }
    } else {
      StackedMountIsUnsafe(start, home, o);
    }
  }

  // ---- the plan for a root that was not mounted ----

  function UnmountedPlan(home: Path, o: Options): seq<Action> {
    UninstallPlan(home, false, false, true, o).value
  }

  lemma {:induction false} DownStaysDown(start: World, plan: seq<Action>, mode: Mode, turns: seq<Turn>)
    requires AllProper(plan) && |turns| == |plan| && DownForGood(start)
    ensures DownForGood(Execute.Execute(start, plan, mode, turns).world)
  {
    hide Perform, Drift;
    if plan != [] {
      var n := |plan| - 1;
      DownStaysDown(start, plan[..n], mode, turns[..n]);
      var r := Execute.Execute(start, plan[..n], mode, turns[..n]);
      DriftFrame(r.world, turns[n].drift);
      PerformFrame(Drift(r.world, turns[n].drift), plan[n], mode, turns[n]);
    }
  }

  lemma UnmountedShape(home: Path, o: Options)
    ensures var plan := UnmountedPlan(home, o);
      AllProper(plan) && |plan| > 2 && plan[0] == RunCommand(StopTrigger) && plan[1] == RunCommand(StopHelper)
  {
    hide SystemDir, UserDir, BusDir;
    PlanIsProper(home, false, o);
    assert UnmountedPlan(home, o) == UninstallPlan(home, false, true, true, o).value;
  }

  /** What brings the mount up, if anything can: a running helper has to end first. */
  function Rise(w: World): seq<Move> {
    if w.Mounted() then [] else if w.helper.Running? then [Exit(false), Restart] else Wake(w)
  }

  lemma RiseRises(w: World)
    requires !DownForGood(w)
    ensures Drift(w, Rise(w)).Mounted()
  {
    hide Drift;
    DriftOne(w, Exit(false));
    if w.helper.Running? {
      DriftLast(w, [Exit(false)], Restart);
      assert [Exit(false)] + [Restart] == [Exit(false), Restart];
    } else if !w.Mounted() {
      WakeWakes(w);
    }
  }

  lemma DriftLast(w: World, moves: seq<Move>, m: Move)
    ensures Drift(w, moves + [m]) == Moved(Drift(w, moves), m)
  {
    assert (moves + [m])[..|moves|] == moves;
  }

  /** The mount comes up before the trigger is disarmed, and every command succeeds. */
  function Race(start: World, n: nat): seq<Turn> {
    seq(n, i => Well(if i == 0 then Rise(start) else []))
  }

  lemma RaceIsUnsafe(start: World, home: Path, o: Options)
    requires Real(o) && !DownForGood(start) && !start.stopped && AllProper(UnmountedPlan(home, o))
    ensures var turns := Race(start, |UnmountedPlan(home, o)|);
      2 <= |turns| && !Safe(start, PointOfRun(start, UnmountedPlan(home, o), ModeOf(o), turns, 2, []))
  {
    hide UnmountedPlan, Execute.Execute, Drift;
    UnmountedShape(home, o);
    var plan, mode := UnmountedPlan(home, o), ModeOf(o);
    var turns := Race(start, |plan|);
    ExecuteNothing(start, plan, mode, turns);
    assert turns[0] == Well(Rise(start)) && turns[1] == Well([]);
    RiseRises(start);
    DriftFrame(start, Rise(start));
    var w := Drift(start, Rise(start));
    Takes(start, plan, mode, turns, 0, start, w);
    var disarmed := w.(armed := false);
    DriftOne(disarmed, Restart);
    Takes(start, plan, mode, turns, 1, disarmed, disarmed);
    DriftOne(disarmed.(helper := Idle, stopped := true), Restart);
  }

  /** This plan stops the helper without looking at the mount again. On the machine it is safe in every run
      exactly when, as it starts, the root is down, the trigger is not armed and the helper idle. */
  lemma UnmountedRunIsSafeExactly(start: World, home: Path, o: Options)
    requires Real(o) && !start.stopped
    ensures AllProper(UnmountedPlan(home, o))
    ensures AlwaysSafe(start, UnmountedPlan(home, o), ModeOf(o)) <==> DownForGood(start)
  {
    hide UnmountedPlan, Execute.Execute, Drift, Safe;
    UnmountedShape(home, o);
    var plan, mode := UnmountedPlan(home, o), ModeOf(o);
    if DownForGood(start) {
      forall turns: seq<Turn>, n: nat, moves: seq<Move> | |turns| == |plan| && n <= |turns|
        ensures Safe(start, PointOfRun(start, plan, mode, turns, n, moves))
      {
        DownIsSafe(start, plan, mode, turns, n, moves);
      }
    } else {
      RaceIsUnsafe(start, home, o);
    }
  }

  lemma DownIsSafe(start: World, plan: seq<Action>, mode: Mode, turns: seq<Turn>, n: nat, moves: seq<Move>)
    requires AllProper(plan) && |turns| == |plan| && n <= |turns| && DownForGood(start)
    ensures Safe(start, PointOfRun(start, plan, mode, turns, n, moves))
  {
    hide Execute.Execute, Drift;
    DownStaysDown(start, plan[..n], mode, turns[..n]);
    DriftFrame(Execute.Execute(start, plan[..n], mode, turns[..n]).world, moves);
  }
}
