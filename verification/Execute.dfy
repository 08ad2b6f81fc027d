/** Performing a plan: one action after the other on a world that also moves by itself. */
module Execute {
  import opened Text
  import opened Paths
  import opened Files
  import opened Fstab

  datatype Command = StopTrigger | Umount | StopHelper | DisableUserHalf | DisableTray | Reload

  datatype Action =
    | WriteFile(path: Path, text: string)
    | Symlink(path: Path, target: Path)
    | Unchanged(path: Path)
    | AppendFstab(path: Path, line: string)
    | RemoveFile(path: Path)
    | RunCommand(command: Command)
    | VerifyUnmounted
    | Manual

  datatype Mode = Mode(writes: bool, runs: bool)

  /** The helper's service: its unit is restarted by itself whenever the process ends. */
  datatype Helper = Idle | Running | Restarting

  /** `layers`: how many times the sync root is mounted on its own mount point. `armed`: the trigger.
      `stopped`: the helper was told to stop by itself, not by its mount going down. */
  datatype World = World(fs: FS, layers: nat, armed: bool, helper: Helper, stopped: bool) {
    predicate Mounted() { layers > 0 }
  }

  /** What happens between two actions. Nobody mounts the root by hand. */
  datatype Move =
    | Trigger               // the trigger sees the socket and starts the helper
    | Restart               // the automatic restart of the helper comes due
    | Exit(detaches: bool)  // the helper's process ends, usually taking the mount along
    | Unmount               // somebody unmounts the root

  /** What the outside does around one action: the moves before it, the number of the file operation
      that fails and how much of a write was done by then, and how a command ends. */
  datatype Turn = Turn(drift: seq<Move>, fails: Option<nat>, cut: nat, exitsWell: bool)

  datatype Entry = Done(action: Action) | Would(action: Action) | AlreadyAbsent(action: Action)

  /** The helper starts, and its unit's requirement pulls the mount up first. */
  function HelperUp(w: World): World {
    w.(layers := if w.layers == 0 then 1 else w.layers, helper := Running)
  }

  /** One mount comes down. With the last of them the mount's stop job reaches the helper. */
  function OneDown(w: World): World
    requires w.Mounted()
  {
    w.(layers := w.layers - 1, helper := if w.layers == 1 then Idle else w.helper)
  }

  function Moved(w: World, m: Move): World {
    match m
    case Trigger => if w.armed then HelperUp(w) else w
    case Restart => if w.helper.Restarting? then HelperUp(w) else w
    case Exit(detaches) =>
      if !w.helper.Running? then w
      else w.(helper := Restarting, layers := if detaches && w.Mounted() then w.layers - 1 else w.layers)
    case Unmount => if w.Mounted() then OneDown(w) else w
  }

  function Drift(w: World, moves: seq<Move>): World {
    if moves == [] then w else Moved(Drift(w, moves[..|moves| - 1]), moves[|moves| - 1])
  }

  predicate Proper(a: Action) {
    (a.WriteFile? || a.Symlink? || a.AppendFstab? || a.RemoveFile?) ==> a.path != []
  }

  function Cut(s: string, n: nat): string {
    if n <= |s| then s[..n] else s
  }

  function TemporaryName(path: Path): Path
    requires path != []
  {
    Parent(path) + [path[|path| - 1] + ".tmp-install"]
  }

  /** The parent directories as the action needs them. */
  predicate DirsFail(fs: FS, dir: Path, t: Turn) {
    t.fails == Some(0) || !CanMakeDirs(fs, dir)
  }

  function SomeDirs(fs: FS, dir: Path, t: Turn): FS {
    if CanMakeDirs(fs, dir) && t.cut <= |dir| then WithDirs(fs, dir[..t.cut]) else fs
  }

  /** Directories, the temporary file, its owner, the rename. */
  function Write(fs: FS, path: Path, text: string, t: Turn): (FS, bool)
    requires path != []
  {
    var tmp := TemporaryName(path);
    var made := WithDirs(fs, Parent(path));
    if DirsFail(fs, Parent(path), t) then (SomeDirs(fs, Parent(path), t), false)
    else if tmp in made && !made[tmp].File? then (made, false)
    else if t.fails == Some(1) then (made[tmp := File(Cut(text, t.cut))], false)
    else if t.fails == Some(2) || t.fails == Some(3) || (path in made && made[path].Dir?) then (made[tmp := File(text)], false)
    else ((made - {tmp})[path := File(text)], true)
  }

  /** Directories, then the old link removed and the new one made, or nothing if it is right, then its owner. */
  function MakeLink(fs: FS, path: Path, target: Path, t: Turn): (FS, bool)
    requires path != []
  {
    var made := WithDirs(fs, Parent(path));
    if DirsFail(fs, Parent(path), t) then (SomeDirs(fs, Parent(path), t), false)
    else if ReadLink(made, path) == Some(target) then (made, t.fails != Some(3))
    else if ReadLink(made, path).Some? then
      (if t.fails == Some(1) then (made, false)
       else if t.fails == Some(2) then (made - {path}, false)
       else (made[path := Link(target)], t.fails != Some(3)))
    else if path in made || t.fails == Some(2) then (made, false)
    else (made[path := Link(target)], t.fails != Some(3))
  }

  function AppendBlock(fs: FS, path: Path, line: string, t: Turn): (FS, bool)
    requires path != []
  {
    var made := WithDirs(fs, Parent(path));
    if DirsFail(fs, Parent(path), t) then (SomeDirs(fs, Parent(path), t), false)
    else if (path in made && !made[path].File?) || t.fails == Some(1) then (made, false)
    else
      var was := if path in made then made[path].text else "";
      if t.fails == Some(2) then (made[path := File(Cut(Appended(was, line), |was| + t.cut))], false)
      else (made[path := File(Appended(was, line))], true)
  }

  function Command1(w: World, c: Command, t: Turn): (World, bool) {
    if !t.exitsWell then (w, false)
    else match c
      case StopTrigger => (w.(armed := false), true)
      // Of mounts stacked on the same point only the top one comes down; with none there it fails.
      case Umount => if w.Mounted() then (OneDown(w), true) else (w, false)
      case StopHelper => (w.(helper := Idle, stopped := true), true)
      case DisableUserHalf => (w, true)
      case DisableTray => (w, true)
      case Reload => (w, true)
  }

  /** One action: the world after it, and its line of the transcript unless it failed. */
  function Perform(w: World, a: Action, mode: Mode, t: Turn): (World, Option<Entry>)
    requires Proper(a)
  {
    match a
    case WriteFile(path, text) =>
      if !mode.writes then (w, Some(Would(a)))
      else var (fs, ok) := Write(w.fs, path, text, t); (w.(fs := fs), if ok then Some(Done(a)) else None)
    case Symlink(path, target) =>
      if !mode.writes then (w, Some(Would(a)))
      else var (fs, ok) := MakeLink(w.fs, path, target, t); (w.(fs := fs), if ok then Some(Done(a)) else None)
    case Unchanged(_) => (w, Some(Done(a)))
    case AppendFstab(path, line) =>
      if !mode.writes then (w, Some(Would(a)))
      else var (fs, ok) := AppendBlock(w.fs, path, line, t); (w.(fs := fs), if ok then Some(Done(a)) else None)
    case RemoveFile(path) =>
      if !mode.writes then (w, Some(Would(a)))
      else if t.fails.Some? || (path in w.fs && w.fs[path].Dir?) then (w, None)
      else if path !in w.fs then (w, Some(AlreadyAbsent(a)))
      else (w.(fs := w.fs - {path}), Some(Done(a)))
    case RunCommand(command) =>
      if !mode.runs then (w, Some(Would(a)))
      else var (after, ok) := Command1(w, command, t); (after, if ok then Some(Done(a)) else None)
    case VerifyUnmounted =>
      if !mode.runs then (w, Some(Would(a)))
      else (w, if t.fails.Some? || w.Mounted() then None else Some(Done(a)))
    case Manual => (w, Some(Done(a)))
  }

  datatype Outcome = Outcome(world: World, log: seq<Entry>, ok: bool)

  predicate AllProper(actions: seq<Action>) {
    forall i :: 0 <= i < |actions| ==> Proper(actions[i])
  }

  /** The whole plan; the first failing action ends it. */
  function Execute(w: World, actions: seq<Action>, mode: Mode, turns: seq<Turn>): Outcome
    requires AllProper(actions) && |turns| == |actions|
  {
    if actions == [] then Outcome(w, [], true) else
      var n := |actions| - 1;
      Continue(Execute(w, actions[..n], mode, turns[..n]), actions[n], mode, turns[n])
  }

  /** One action further. */
  function Continue(before: Outcome, a: Action, mode: Mode, t: Turn): Outcome
    requires Proper(a)
  {
    if !before.ok then before else
      var (after, entry) := Perform(Drift(before.world, t.drift), a, mode, t);
      if entry.None? then Outcome(after, before.log, false) else Outcome(after, before.log + [entry.value], true)
  }

  lemma ExecuteStep(w: World, actions: seq<Action>, mode: Mode, turns: seq<Turn>, n: nat)
    requires AllProper(actions) && |turns| == |actions| && n < |actions|
    ensures Execute(w, actions[..n + 1], mode, turns[..n + 1])
      == Continue(Execute(w, actions[..n], mode, turns[..n]), actions[n], mode, turns[n])
  {
    hide Continue;
    assert actions[..n + 1][..n] == actions[..n] && turns[..n + 1][..n] == turns[..n];
  }

  lemma ExecuteNothing(w: World, actions: seq<Action>, mode: Mode, turns: seq<Turn>)
    requires AllProper(actions) && |turns| == |actions|
    ensures Execute(w, actions[..0], mode, turns[..0]) == Outcome(w, [], true)
  {
  }

  lemma {:induction false} FailureIsFinal(w: World, actions: seq<Action>, mode: Mode, turns: seq<Turn>, n: nat)
    requires AllProper(actions) && |turns| == |actions| && n <= |actions|
    requires !Execute(w, actions[..n], mode, turns[..n]).ok
    ensures Execute(w, actions, mode, turns) == Execute(w, actions[..n], mode, turns[..n])
    decreases |actions|
  {
    hide Perform, Drift;
    if n < |actions| {
      var m := |actions| - 1;
      assert actions[..m][..n] == actions[..n] && turns[..m][..n] == turns[..n];
      FailureIsFinal(w, actions[..m], mode, turns[..m], n);
    } else {
      assert actions[..n] == actions && turns[..n] == turns;
    }
  }

  /** `execute_inner`. */
  method ExecuteInner(w: World, actions: seq<Action>, mode: Mode, turns: seq<Turn>) returns (result: Outcome)
    requires AllProper(actions) && |turns| == |actions|
    ensures result == Execute(w, actions, mode, turns)
  {
    hide Perform, Drift;
    var now, log := w, [];
    for i := 0 to |actions|
      invariant Execute(w, actions[..i], mode, turns[..i]) == Outcome(now, log, true)
    {
      ExecuteStep(w, actions, mode, turns, i);
      var (after, entry) := Perform(Drift(now, turns[i].drift), actions[i], mode, turns[i]);
      if entry.None? {
        FailureIsFinal(w, actions, mode, turns, i + 1);
        return Outcome(after, log, false);
      }
      now, log := after, log + [entry.value];
    }
    assert actions[..|actions|] == actions && turns[..|actions|] == turns;
    return Outcome(now, log, true);
  }

  // ---- the transcript ----

  /** The transcript has one line per completed action, in order; a failed run names exactly the
      actions before the one that failed. */
  lemma {:induction false} TranscriptIsExact(w: World, actions: seq<Action>, mode: Mode, turns: seq<Turn>)
    requires AllProper(actions) && |turns| == |actions|
    ensures var r := Execute(w, actions, mode, turns);
      && (r.ok <==> |r.log| == |actions|) && |r.log| <= |actions|
      && (forall i :: 0 <= i < |r.log| ==> r.log[i].action == actions[i])
      && (forall i :: 0 <= i < |r.log| && r.log[i].Would? ==> !mode.writes || !mode.runs)
  {
    hide Drift, Write, MakeLink, AppendBlock, Command1;
    if actions != [] {
      var n := |actions| - 1;
      TranscriptIsExact(w, actions[..n], mode, turns[..n]);
    }
  }

  /** At no point, and after no failure, does a unit file hold half of its new text. */
  lemma WritesAreWholeOrNothing(fs: FS, path: Path, text: string, t: Turn)
    requires path != []
    ensures var (after, ok) := Write(fs, path, text, t);
      if ok then path in after && after[path] == File(text)
      else (path in after <==> path in fs) && (path in fs ==> after[path] == fs[path])
  {
    var tmp := TemporaryName(path);
    assert tmp[|tmp| - 1] != path[|path| - 1];
    assert Parent(path) <= path && |Parent(path)| < |path|;
  }
}
