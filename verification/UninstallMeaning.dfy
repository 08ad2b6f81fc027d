/** What an uninstallation asks for, runs and removes, against what an installation places. */
module UninstallMeaning {
  import opened Text
  import opened Paths
  import opened Files
  import opened Execute
  import opened Uninstall
  import I = Install
  import M = InstallMeaning
  import T = InstallTwice

  /** It is refused exactly to somebody who is not root on the machine itself, and while the sync root is mounted
      and may not be unmounted. */
  lemma RefusedExactly(home: Path, mounted: bool, andUnmount: bool, isRoot: bool, o: Options)
    ensures UninstallPlan(home, mounted, andUnmount, isRoot, o).None? <==>
      (o.prefix == [] && !o.dryRun && !isRoot) || (mounted && !andUnmount)
  {
  }

  /** A dry run writes nothing, and only on the machine itself are commands run. */
  lemma ModeExactly(o: Options)
    ensures ModeOf(o).writes <==> !o.dryRun
    ensures ModeOf(o).runs <==> o.prefix == [] && !o.dryRun
  {
  }

  /** The commands of a plan, in order. */
  function Commands(actions: seq<Action>): seq<Action> {
    if actions == [] then [] else
      Commands(actions[..|actions| - 1])
      + if actions[|actions| - 1].RunCommand? || actions[|actions| - 1].VerifyUnmounted? then [actions[|actions| - 1]] else []
  }

  lemma {:induction false} CommandsAppend(a: seq<Action>, b: seq<Action>)
    ensures Commands(a + b) == Commands(a) + Commands(b)
  {
    if b == [] {
      assert a + b == a;
    } else {
      assert (a + b)[..|a + b| - 1] == a + b[..|b| - 1];
      CommandsAppend(a, b[..|b| - 1]);
    }
  }

  lemma {:induction false} NoCommands(actions: seq<Action>)
    requires forall i :: 0 <= i < |actions| ==> actions[i].RemoveFile?
    ensures Commands(actions) == []
  {
    if actions != [] { NoCommands(actions[..|actions| - 1]); }
  }

  lemma CommandsOfTwo(a: Action, b: Action)
    requires a.RunCommand?
    ensures Commands([a]) == [a]
    ensures Commands([a, b]) == [a] + if b.RunCommand? || b.VerifyUnmounted? then [b] else []
  {
    assert [a][..0] == [] && [a, b][..1] == [a];
    assert Commands([]) == [];
    assert Commands([a]) == [a];
  }

  /** The trigger is stopped first; a mounted root is unmounted, and seen unmounted, without stopping the helper by
      itself; only with nothing mounted is the helper stopped. Then the user's half, and at the end the units are
      read again. */
  lemma CommandsExactly(home: Path, mounted: bool, o: Options)
    ensures Commands(UninstallPlan(home, mounted, true, true, o).value) ==
      [RunCommand(StopTrigger)]
      + (if mounted then [RunCommand(Umount), VerifyUnmounted] else [RunCommand(StopHelper)])
      + [RunCommand(DisableUserHalf), RunCommand(Reload)]
  {
    hide Commands, Removals;
    var gone := Removals(o.prefix, home);
    var rest := if mounted then [RunCommand(Umount), VerifyUnmounted] else [RunCommand(StopHelper)];
    assert Commands(gone) == [] by { OnlyRemovals(o.prefix, home); NoCommands(gone); }
    CommandsOfTwo(RunCommand(StopTrigger), Manual);
    CommandsOfTwo(RunCommand(StopHelper), Manual);
    CommandsOfTwo(RunCommand(DisableUserHalf), Manual);
    CommandsOfTwo(RunCommand(Umount), VerifyUnmounted);
    CommandsOfTwo(RunCommand(Reload), Manual);
    CommandsOfParts([RunCommand(StopTrigger)], rest, [RunCommand(DisableUserHalf)], gone, [RunCommand(Reload), Manual]);
  }

  lemma OnlyRemovals(prefix: Path, home: Path)
    ensures forall i :: 0 <= i < |Removals(prefix, home)| ==> Removals(prefix, home)[i].RemoveFile?
  {
    hide SystemDir, UserDir, BusDir;
  }

  lemma CommandsOfParts(a: seq<Action>, b: seq<Action>, c: seq<Action>, d: seq<Action>, e: seq<Action>)
    requires Commands(a) == a && Commands(b) == b && Commands(c) == c && Commands(d) == []
    ensures Commands((a + b) + c + d + e) == a + b + (c + Commands(e))
  {
    hide Commands;
    CommandsAppend((a + b) + c + d, e);
    CommandsAppend((a + b) + c, d);
    CommandsAppend(a + b, c);
    CommandsAppend(a, b);
    assert a + b + c + [] + Commands(e) == a + b + (c + Commands(e));
  }

  /** The files of a deployment: its units, and the links that enable them. */
  function Deployment(prefix: Path, home: Path): set<Path> {
    var sys := prefix + ["etc", "systemd", "system"];
    var usr := prefix + home + [".config", "systemd", "user"];
    { sys + ["hydrationd.service"],
      sys + ["hydrationd.path"],
      sys + ["multi-user.target.wants", "hydrationd.path"],
      usr + ["onedrive-hydration.service"],
      usr + ["onedrive-hydration-dbus.service"],
      usr + ["onedrive-hydration-tray.service"],
      prefix + home + [".local", "share", "dbus-1", "services", "io.github.franzjeger.OneDriveHydration.service"],
      usr + ["default.target.wants", "onedrive-hydration.service"],
      usr + ["default.target.wants", "onedrive-hydration-dbus.service"],
      usr + ["graphical-session.target.wants", "onedrive-hydration-tray.service"] }
  }

  lemma RemovalsExactly(prefix: Path, home: Path, a: Action)
    ensures a in Removals(prefix, home) <==> a.RemoveFile? && a.path in Deployment(prefix, home)
  {
    var services, bus := [".local", "share", "dbus-1", "services"], ["io.github.franzjeger.OneDriveHydration.service"];
    Assoc(prefix + home, services, bus);
    assert services + bus == [".local", "share", "dbus-1", "services", "io.github.franzjeger.OneDriveHydration.service"];
    var sys, usr := SystemDir(prefix), UserDir(prefix, home);
    RemoveTen(a, sys + [HELPER_UNIT], sys + [TRIGGER_UNIT], sys + ["multi-user.target.wants", TRIGGER_UNIT],
              usr + [SYNC_UNIT], usr + [STATE_UNIT], usr + [TRAY_UNIT], BusDir(prefix, home) + [BUS_FILE],
              usr + ["default.target.wants", SYNC_UNIT], usr + ["default.target.wants", STATE_UNIT],
              usr + ["graphical-session.target.wants", TRAY_UNIT]);
  }

  lemma RemoveTen(a: Action, p0: Path, p1: Path, p2: Path, p3: Path, p4: Path, p5: Path, p6: Path, p7: Path, p8: Path, p9: Path)
    ensures a.RemoveFile? && a.path in {p0, p1, p2, p3, p4, p5, p6, p7, p8, p9} <==>
      a in [ RemoveFile(p0), RemoveFile(p1), RemoveFile(p2), RemoveFile(p3), RemoveFile(p4),
             RemoveFile(p5), RemoveFile(p6), RemoveFile(p7), RemoveFile(p8), RemoveFile(p9) ]
  {
  }

  /** Every unit file that an installation places is removed, whatever surface it was made for, and so is every link
      for the target that the unit is wanted by. */
  lemma EveryUnitIsRemoved(c: I.Config, a: Action, dir: I.UnitDir, name: string)
    requires M.Deployed(dir, name, I.TrayChoice(c.applet, c.chosen).0)
    ensures M.PlacesFile(a, c, dir, name) ==> RemoveFile(a.path) in Removals(c.prefix, c.home)
    ensures forall target :: M.PlacesLink(a, c, dir, name, target) && Usual(name, target) ==>
      RemoveFile(a.path) in Removals(c.prefix, c.home)
  {
    M.PlaceExactly(dir, c.prefix, c.home);
    assert "multi-user.target" + ".wants" == "multi-user.target.wants" && "default.target" + ".wants" == "default.target.wants";
    assert "graphical-session.target" + ".wants" == "graphical-session.target.wants";
    hide Removals;
    forall q | q in Deployment(c.prefix, c.home) ensures RemoveFile(q) in Removals(c.prefix, c.home) {
      RemovalsExactly(c.prefix, c.home, RemoveFile(q));
    }
    Assoc(c.prefix, c.home, [".config", "systemd", "user"]);
    Assoc(c.prefix, c.home, [".local", "share", "dbus-1", "services"]);
    var services, bus := [".local", "share", "dbus-1", "services"], ["io.github.franzjeger.OneDriveHydration.service"];
    Assoc(c.prefix + c.home, services, bus);
    assert services + bus == [".local", "share", "dbus-1", "services", "io.github.franzjeger.OneDriveHydration.service"];
  }

  /** The targets of the units as they are shipped. */
  predicate Usual(name: string, target: string) {
    || (name == "hydrationd.path" && target == "multi-user.target")
    || (name == "onedrive-hydration.service" && target == "default.target")
    || (name == "onedrive-hydration-dbus.service" && target == "default.target")
    || (name == "onedrive-hydration-tray.service" && target == "graphical-session.target")
  }

  lemma PlanFiles(home: Path, mounted: bool, o: Options, j: nat)
    ensures var plan := UninstallPlan(home, mounted, true, true, o).value;
      j < |plan| && T.OnFile(plan[j]) ==> plan[j].RemoveFile? && plan[j].path in Deployment(o.prefix, home)
  {
    hide Removals, Deployment;
    var plan := UninstallPlan(home, mounted, true, true, o).value;
    if j < |plan| && T.OnFile(plan[j]) {
      assert plan[j] in Removals(o.prefix, home);
      RemovalsExactly(o.prefix, home, plan[j]);
    }
  }

  /** A run that goes through with file writing on leaves nothing of the deployment, and everything else as it was. */
  lemma NothingIsLeft(w: World, home: Path, mounted: bool, o: Options, turns: seq<Turn>, q: Path)
    requires var plan := UninstallPlan(home, mounted, true, true, o).value;
      !o.dryRun && |turns| == |plan| && AllProper(plan) && Execute.Execute(w, plan, ModeOf(o), turns).ok
    ensures var after := Execute.Execute(w, UninstallPlan(home, mounted, true, true, o).value, ModeOf(o), turns).world.fs;
      if q in Deployment(o.prefix, home) then q !in after else T.SameAt(w.fs, after, q)
  {
    hide Removals, TakeDown, Execute.Execute, Deployment, T.After, T.SameAt;
    var plan, mode := UninstallPlan(home, mounted, true, true, o).value, ModeOf(o);
    T.StartOfRun(w, plan, mode, turns);
    forall j | 0 <= j < |plan|
      ensures T.OnFile(plan[j]) ==> plan[j].RemoveFile? && plan[j].path in Deployment(o.prefix, home)
    {
      PlanFiles(home, mounted, o, j);
    }
    if q in Deployment(o.prefix, home) {
      RemovalsExactly(o.prefix, home, RemoveFile(q));
      var j := PlaceInPlan(home, mounted, o, RemoveFile(q));
      T.RemovedIsGone(w, plan, mode, turns, q, j);
    } else {
      T.UntouchedStays(w, plan, mode, turns, q, 0, |plan|);
    }
  }

  lemma PlaceInPlan(home: Path, mounted: bool, o: Options, a: Action) returns (j: nat)
    requires a in Removals(o.prefix, home)
    ensures var plan := UninstallPlan(home, mounted, true, true, o).value; j < |plan| && plan[j] == a
  {
    hide Removals;
    var gone := Removals(o.prefix, home);
    var i :| 0 <= i < |gone| && gone[i] == a;
    j := |TakeDown(mounted)| + 1 + i;
  }
}
