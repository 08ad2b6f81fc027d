/** What performing a plan does and says, mode by mode and action by action. */
module ExecuteMeaning {
  import opened Text
  import opened Paths
  import opened Files
  import Fstab
  import opened Execute

  // ---- nothing is touched that the mode leaves alone ----

  lemma {:induction false} DriftLeavesFiles(w: World, moves: seq<Move>)
    ensures Drift(w, moves).fs == w.fs
  {
    if moves != [] { DriftLeavesFiles(w, moves[..|moves| - 1]); }
  }

  lemma MovedIgnoresFiles(w: World, m: Move, fs: FS)
    ensures Moved(w.(fs := fs), m) == Moved(w, m).(fs := fs)
  {
  }

  lemma {:induction false} DriftIgnoresFiles(w: World, moves: seq<Move>, fs: FS)
    ensures Drift(w.(fs := fs), moves) == Drift(w, moves).(fs := fs)
  {
    hide Moved;
    if moves != [] {
      var front := moves[..|moves| - 1];
      DriftIgnoresFiles(w, front, fs);
      MovedIgnoresFiles(Drift(w, front), moves[|moves| - 1], fs);
    }
  }

  lemma PerformInADryRun(w: World, a: Action, mode: Mode, t: Turn)
    requires Proper(a) && !mode.writes
    ensures Perform(w, a, mode, t).0.fs == w.fs
  {
  }

  /** A dry run leaves every file, link and directory as it was, whatever the plan and however it ends. */
  lemma {:induction false} DryRunTouchesNoFile(w: World, actions: seq<Action>, mode: Mode, turns: seq<Turn>)
    requires AllProper(actions) && |turns| == |actions| && !mode.writes
    ensures Execute.Execute(w, actions, mode, turns).world.fs == w.fs
  {
    hide Drift, Perform;
    if actions != [] {
      var n := |actions| - 1;
      var before := Execute.Execute(w, actions[..n], mode, turns[..n]).world;
      DryRunTouchesNoFile(w, actions[..n], mode, turns[..n]);
      DriftLeavesFiles(before, turns[n].drift);
      PerformInADryRun(Drift(before, turns[n].drift), actions[n], mode, turns[n]);
    }
  }

  /** What the outside alone makes of the world in so many turns. */
  function Outside(w: World, turns: seq<Turn>): World {
    if turns == [] then w else Drift(Outside(w, turns[..|turns| - 1]), turns[|turns| - 1].drift)
  }

  /** The turns a run takes: one for each line of the transcript, and one more for an action that failed. */
  function Taken(r: Outcome): nat {
    if r.ok then |r.log| else |r.log| + 1
  }

  lemma PerformLeavesTheRest(w: World, a: Action, mode: Mode, t: Turn)
    requires Proper(a) && !mode.runs
    ensures Perform(w, a, mode, t).0 == w.(fs := Perform(w, a, mode, t).0.fs)
  {
    hide Write, MakeLink, AppendBlock, Command1;
  }

  /** Without commands mounts, trigger and helper are what the outside alone makes of them. */
  lemma {:induction false} RehearsalRunsNothing(w: World, actions: seq<Action>, mode: Mode, turns: seq<Turn>)
    requires AllProper(actions) && |turns| == |actions| && !mode.runs
    ensures var r := Execute.Execute(w, actions, mode, turns);
      Taken(r) <= |turns| && (r.ok ==> Taken(r) == |turns|)
      && r.world == Outside(w, turns[..Taken(r)]).(fs := r.world.fs)
  {
    hide Drift, Perform;
    if actions == [] {
      assert turns[..0] == [];
    } else {
      var n := |actions| - 1;
      var before := Execute.Execute(w, actions[..n], mode, turns[..n]);
      RehearsalRunsNothing(w, actions[..n], mode, turns[..n]);
      if before.ok {
        var out := Outside(w, turns[..n]);
        DriftIgnoresFiles(out, turns[n].drift, before.world.fs);
        PerformLeavesTheRest(Drift(before.world, turns[n].drift), actions[n], mode, turns[n]);
        assert turns[..n + 1] == turns && turns[..n][..n] == turns[..n];
      } else {
        assert turns[..n][..Taken(before)] == turns[..Taken(before)];
      }
    }
  }

  // ---- the transcript ----

  predicate OnFiles(a: Action) {
    a.WriteFile? || a.Symlink? || a.AppendFstab? || a.RemoveFile?
  }

  predicate OnSystem(a: Action) {
    a.RunCommand? || a.VerifyUnmounted?
  }

  /** A line of the transcript says what happened: that the mode kept the action from being done, that there was
      nothing to remove, or that the action was done. */
  predicate Tells(e: Execute.Entry, fs: FS, mode: Mode) {
    && (e.Would? <==> (OnFiles(e.action) && !mode.writes) || (OnSystem(e.action) && !mode.runs))
    && (e.AlreadyAbsent? <==> e.action.RemoveFile? && mode.writes && e.action.path !in fs)
  }

  lemma PerformTells(w: World, a: Action, mode: Mode, t: Turn)
    requires Proper(a)
    ensures var e := Perform(w, a, mode, t).1; e.Some? ==> Tells(e.value, w.fs, mode)
  {
    hide Write, MakeLink, AppendBlock, Command1;
  }

  lemma {:induction false} TranscriptTells(w: World, actions: seq<Action>, mode: Mode, turns: seq<Turn>, i: nat)
    requires AllProper(actions) && |turns| == |actions|
    requires i < |Execute.Execute(w, actions, mode, turns).log| <= |actions|
    ensures Tells(Execute.Execute(w, actions, mode, turns).log[i],
                  Execute.Execute(w, actions[..i], mode, turns[..i]).world.fs, mode)
    decreases |actions|
  {
    hide Drift, Perform, Tells;
    if actions != [] {
      var n := |actions| - 1;
      var before := Execute.Execute(w, actions[..n], mode, turns[..n]);
      TranscriptIsExact(w, actions[..n], mode, turns[..n]);
      if i < |before.log| {
        TranscriptTells(w, actions[..n], mode, turns[..n], i);
        assert actions[..n][..i] == actions[..i] && turns[..n][..i] == turns[..i];
      } else {
        DriftLeavesFiles(before.world, turns[n].drift);
        PerformTells(Drift(before.world, turns[n].drift), actions[n], mode, turns[n]);
      }
    }
  }

  // ---- the actions ----

  predicate Same(before: FS, after: FS, p: Path) {
    (p in after <==> p in before) && (p in before ==> after[p] == before[p])
  }

  lemma BesideTheDirs(fs: FS, dir: Path, p: Path)
    requires !(p <= dir)
    ensures (p in WithDirs(fs, dir) <==> p in fs) && (p in fs ==> WithDirs(fs, dir)[p] == fs[p])
  {
    hide WithDirs;
  }

  /** A file is written exactly when its directories can be made, nothing else stands where it or its temporary
      file goes, and none of the four operations fails; then the temporary file is gone again. */
  lemma WriteExactly(fs: FS, path: Path, text: string, t: Turn)
    requires path != []
    ensures var (after, ok) := Write(fs, path, text, t);
      var tmp := Parent(path) + [path[|path| - 1] + ".tmp-install"];
      && (ok <==> CanMakeDirs(fs, Parent(path)) && t.fails !in {Some(0), Some(1), Some(2), Some(3)}
                  && (tmp in fs ==> fs[tmp].File?) && (path in fs ==> !fs[path].Dir?))
      && (ok ==> tmp !in after && after[path] == File(text))
      && forall p :: p != path && p != tmp && !(p <= Parent(path)) ==> Same(fs, after, p)
  {
    var tmp := TemporaryName(path);
    hide CanMakeDirs, WithDirs;
    assert |tmp| == |path| && tmp[|tmp| - 1] != path[|path| - 1];
    BesideTheDirs(fs, Parent(path), tmp);
    BesideTheDirs(fs, Parent(path), path);
    SomeDirsBeside(fs, Parent(path), t);
  }

  lemma SomeDirsBeside(fs: FS, dir: Path, t: Turn)
    ensures forall p :: !(p <= dir) ==>
      (p in SomeDirs(fs, dir, t) <==> p in fs) && (p in fs ==> SomeDirs(fs, dir, t)[p] == fs[p])
    ensures forall p :: !(p <= dir) ==>
      (p in WithDirs(fs, dir) <==> p in fs) && (p in fs ==> WithDirs(fs, dir)[p] == fs[p])
  {
    hide WithDirs;
    forall p | !(p <= dir)
      ensures (p in SomeDirs(fs, dir, t) <==> p in fs) && (p in fs ==> SomeDirs(fs, dir, t)[p] == fs[p])
      ensures (p in WithDirs(fs, dir) <==> p in fs) && (p in fs ==> WithDirs(fs, dir)[p] == fs[p])
    {
      BesideTheDirs(fs, dir, p);
      if t.cut <= |dir| {
        assert p <= dir[..t.cut] ==> p <= dir;
        BesideTheDirs(fs, dir[..t.cut], p);
      }
    }
  }

  /** A link is made exactly when its directories can be made, a link or nothing stands there, and none of the
      operations it takes fails; nothing beside it changes. */
  lemma LinkExactly(fs: FS, path: Path, target: Path, t: Turn)
    requires path != []
    ensures var (after, ok) := MakeLink(fs, path, target, t);
      var linked := path in fs && fs[path].Link?;
      var right := linked && fs[path].target == target;
      && (ok <==> CanMakeDirs(fs, Parent(path)) && t.fails !in {Some(0), Some(3)}
                  && (right || (linked && t.fails !in {Some(1), Some(2)}) || (path !in fs && t.fails != Some(2))))
      && (ok ==> path in after && after[path] == Link(target))
      && forall p :: p != path && !(p <= Parent(path)) ==> Same(fs, after, p)
  {
    hide CanMakeDirs, WithDirs;
    BesideTheDirs(fs, Parent(path), path);
    SomeDirsBeside(fs, Parent(path), t);
  }

  /** A block is appended exactly when the file is one or is not there yet and no operation fails; what was in it
      stays in front of it, also when the writing fails half-way. */
  lemma AppendExactly(fs: FS, path: Path, line: string, t: Turn)
    requires path != []
    ensures var (after, ok) := AppendBlock(fs, path, line, t);
      && (ok <==> CanMakeDirs(fs, Parent(path)) && t.fails !in {Some(0), Some(1), Some(2)} && (path in fs ==> fs[path].File?))
      && (ok ==> path in after && after[path] == File(Fstab.Appended(if path in fs then fs[path].text else "", line)))
      && (path in fs && fs[path].File? ==> path in after && after[path].File? && fs[path].text <= after[path].text)
      && forall p :: p != path && !(p <= Parent(path)) ==> Same(fs, after, p)
  {
    hide CanMakeDirs, WithDirs;
    BesideTheDirs(fs, Parent(path), path);
    SomeDirsBeside(fs, Parent(path), t);
  }

  /** Removing, verifying and reporting: when they succeed and what they leave. */
  lemma OthersExactly(w: World, a: Action, mode: Mode, t: Turn)
    requires Proper(a) && mode.writes && mode.runs
    ensures a.RemoveFile? ==>
      && (Perform(w, a, mode, t).1.Some? <==> t.fails.None? && !(a.path in w.fs && w.fs[a.path].Dir?))
      && Perform(w, a, mode, t).0 == w.(fs := if Perform(w, a, mode, t).1.Some? then w.fs - {a.path} else w.fs)
    ensures a.VerifyUnmounted? ==>
      Perform(w, a, mode, t).0 == w && (Perform(w, a, mode, t).1.Some? <==> t.fails.None? && w.layers == 0)
    ensures a.Unchanged? || a.Manual? ==> Perform(w, a, mode, t) == (w, Some(Done(a)))
  {
    if a.RemoveFile? && a.path !in w.fs { assert w.fs - {a.path} == w.fs; }
  }

  /** Commands: none succeeds that ended badly; stopping the trigger disarms it, unmounting takes one mount off and
      needs one, and stopping the helper leaves it stopped. */
  lemma CommandsExactly(w: World, c: Command, mode: Mode, t: Turn)
    requires mode.runs
    ensures var (after, e) := Perform(w, RunCommand(c), mode, t);
      && (e.Some? <==> t.exitsWell && (c == Umount ==> w.layers > 0))
      && after.fs == w.fs && (e.None? ==> after == w)
      && (e.Some? ==> after.armed == (w.armed && c != StopTrigger))
      && (e.Some? ==> after.layers == if c == Umount then w.layers - 1 else w.layers)
      && (e.Some? ==> after.helper == if c == StopHelper || (c == Umount && w.layers == 1) then Idle else w.helper)
      && (e.Some? ==> after.stopped == (w.stopped || c == StopHelper))
  {
  }
}
