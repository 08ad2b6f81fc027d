/** What an installation plan says, in terms of the file system and the options: when there is one, which files and
    links it places where, and what else is in it. */
module InstallMeaning {
  import opened Text
  import opened Paths
  import opened Files
  import opened Fstab
  import opened Execute
  import opened Install
  import opened InstallTwice

  // ---- which units, where ----

  /** The tray unit is installed exactly when it was asked for or nothing was said and no applet is there; with an
      applet and nothing said the surface is not decided. */
  lemma TrayExactly(applet: bool, chosen: Option<Tray>)
    ensures TrayChoice(applet, chosen).0 == Sni <==> chosen == Some(Sni) || (chosen.None? && !applet)
    ensures TrayChoice(applet, chosen).1 <==> chosen.Some? || !applet
  {
  }

  /** The directory a unit goes to, from the root of the file system or of a rehearsal. */
  function Place(dir: UnitDir, home: Path): Path {
    match dir
    case SystemUnits => ["etc", "systemd", "system"]
    case UserUnits => home + [".config", "systemd", "user"]
    case BusServices => home + [".local", "share", "dbus-1", "services"]
  }

  lemma PlaceExactly(dir: UnitDir, prefix: Path, home: Path)
    ensures DirOf(dir, prefix, home) == prefix + Place(dir, home)
  {
    Assoc(prefix, home, [".config", "systemd", "user"]);
    Assoc(prefix, home, [".local", "share", "dbus-1", "services"]);
  }

  /** The units of a deployment. */
  predicate Deployed(dir: UnitDir, name: string, tray: Tray) {
    match dir
    case SystemUnits => name == "hydrationd.service" || name == "hydrationd.path"
    case UserUnits =>
      || name == "onedrive-hydration.service" || name == "onedrive-hydration-dbus.service"
      || (tray == Sni && name == "onedrive-hydration-tray.service")
    case BusServices => name == "io.github.franzjeger.OneDriveHydration.service"
  }

  lemma UnitsExactly(tray: Tray, texts: string -> string, u: Unit)
    ensures u in UnitsFor(tray, texts) <==> Deployed(u.dir, u.name, tray) && u.text == texts(u.name)
  {
    var named := (dir, name) => Unit(dir, name, texts(name));
    assert UnitsFor(tray, texts)[0] == named(SystemUnits, "hydrationd.service");
    assert UnitsFor(tray, texts)[1] == named(SystemUnits, "hydrationd.path");
    assert UnitsFor(tray, texts)[2] == named(UserUnits, "onedrive-hydration.service");
    assert UnitsFor(tray, texts)[3] == named(UserUnits, "onedrive-hydration-dbus.service");
    assert tray == Sni ==> UnitsFor(tray, texts)[4] == named(UserUnits, "onedrive-hydration-tray.service");
    assert UnitsFor(tray, texts)[if tray == Sni then 5 else 4]
      == named(BusServices, "io.github.franzjeger.OneDriveHydration.service");
  }

  /** A target is named on a line of the unit that starts with `WantedBy=`. */
  predicate NamesTarget(line: string, target: string) {
    "WantedBy=" <= Trim(line) && target in SplitWhitespace(Trim(line)[9..])
  }

  lemma {:induction false} WantedExactly(lines: seq<string>, target: string)
    ensures target in Wanted(lines) <==> exists i :: 0 <= i < |lines| && NamesTarget(lines[i], target)
  {
    hide Trim, SplitWhitespace;
    if lines != [] {
      WantedExactly(lines[1..], target);
      assert forall i :: 0 < i < |lines| ==> lines[i] == lines[1..][i - 1];
      assert NamesTarget(lines[0], target) || target in Wanted(lines[1..]) <==> target in Wanted(lines);
    }
  }

  /** The file of a unit. */
  predicate PlacesFile(a: Action, c: Config, dir: UnitDir, name: string) {
    a == WriteFile(c.prefix + Place(dir, c.home) + [name], c.texts(name))
  }

  /** The link that enables a unit for a target: it leads to where the unit is at run time, also in a rehearsal. */
  predicate PlacesLink(a: Action, c: Config, dir: UnitDir, name: string, target: string) {
    a == Symlink(c.prefix + Place(dir, c.home) + [target + ".wants", name], Place(dir, c.home) + [name])
  }

  /** The text of a unit names a target. */
  ghost predicate Wants(text: string, target: string) {
    exists i :: 0 <= i < |Lines(text)| && NamesTarget(Lines(text)[i], target)
  }

  lemma {:induction false} InLinks(u: Unit, targets: seq<string>, c: Config, a: Action)
    ensures a in Links(u, targets, c) <==> exists t :: t in targets && a == LinkAction(u, t, c)
  {
    hide LinkAction;
    if targets != [] { InLinks(u, targets[1..], c, a); }
  }

  lemma {:induction false} InPlacement(units: seq<Unit>, c: Config, a: Action)
    ensures a in Placement(units, c) <==> exists u :: u in units && a in Install.Place(u, c)
  {
    hide Install.Place;
    if units != [] { InPlacement(units[1..], c, a); }
  }

  lemma LinkExactly(u: Unit, t: string, c: Config)
    ensures PlacesLink(LinkAction(u, t, c), c, u.dir, u.name, t)
    ensures PlacesFile(WriteFile(UnitPath(u, c), c.texts(u.name)), c, u.dir, u.name)
  {
    hide DirOf;
    PlaceExactly(u.dir, c.prefix, c.home);
    PlaceExactly(u.dir, [], c.home);
    assert [] + Place(u.dir, c.home) == Place(u.dir, c.home);
  }

  lemma PlacedOfUnit(u: Unit, c: Config, a: Action)
    requires u.text == c.texts(u.name)
    ensures a in Install.Place(u, c) <==>
      PlacesFile(a, c, u.dir, u.name) || exists t :: Wants(c.texts(u.name), t) && PlacesLink(a, c, u.dir, u.name, t)
  {
    hide LinkAction, UnitPath, Lines;
    InLinks(u, Wanted(Lines(u.text)), c, a);
    LinkExactly(u, "", c);
    forall t ensures t in Wanted(Lines(u.text)) <==> Wants(u.text, t) { WantedExactly(Lines(u.text), t); }
    forall t ensures a == LinkAction(u, t, c) <==> PlacesLink(a, c, u.dir, u.name, t) { LinkExactly(u, t, c); }
  }

  /** What a deployment places: the file of each of its units, and for each target a unit's text names, the link. */
  ghost predicate Belongs(a: Action, c: Config, dir: UnitDir, name: string) {
    && Deployed(dir, name, TrayChoice(c.applet, c.chosen).0)
    && (PlacesFile(a, c, dir, name) || exists t :: Wants(c.texts(name), t) && PlacesLink(a, c, dir, name, t))
  }

  lemma PlacedExactly(c: Config, a: Action)
    ensures a in Placed(c) <==> exists dir, name :: Belongs(a, c, dir, name)
  {
    hide Install.Place, UnitsFor, PlacesFile, PlacesLink, Wants, Deployed;
    var units := UnitsFor(TrayOf(c), c.texts);
    InPlacement(units, c, a);
    if a in Placed(c) {
      var u :| u in units && a in Install.Place(u, c);
      UnitsExactly(TrayOf(c), c.texts, u);
      PlacedOfUnit(u, c, a);
      assert Belongs(a, c, u.dir, u.name);
    }
    if dir, name :| Belongs(a, c, dir, name) {
      var u := Unit(dir, name, c.texts(name));
      UnitsExactly(TrayOf(c), c.texts, u);
      PlacedOfUnit(u, c, a);
    }
  }

  // ---- when there is a plan ----

  /** Where something has to be placed, nothing else is. */
  predicate Agrees(fs: FS, a: Action) {
    match a
    case WriteFile(path, text) => ReadText(fs, path) in {None, Some(text)}
    case Symlink(path, target) => path in fs && fs[path].Link? ==> fs[path].target == target
    case _ => true
  }

  /** Fstab can be read and needs nothing, or a line that was agreed to. */
  predicate FstabAgrees(fs: FS, c: Config) {
    var path := c.prefix + ["etc", "fstab"];
    var text := if Exists(fs, path) then ReadText(fs, path) else Some(c.machineFstab);
    && text.Some?
    && var entry := EntryIn(text.value, PathText(c.mount)); entry == NoAuto || (entry == Absent && c.consent)
  }

  lemma RetiringRefusesNothing(fs: FS, c: Config, i: nat)
    requires i < |Retire(fs, c)|
    ensures !Refuses(fs, Retire(fs, c)[i])
  {
  }

  lemma AgreesExactly(fs: FS, a: Action)
    ensures Agrees(fs, a) <==> !Refuses(fs, a)
  {
    hide ReadText;
  }

  /** There is a plan exactly when the machine's own checks pass, the sync root is on a file system that can do it,
      the surface is decided, fstab agrees, and so does everything in the way unless force was asked for. */
  lemma PlannedExactly(fs: FS, c: Config)
    ensures InstallPlan(fs, c).Some? <==>
      && c.othersPass
      && c.row.Some? && (c.row.value.fstype == "ext4" || c.row.value.fstype == "btrfs" || c.row.value.fstype == "xfs")
      && (c.chosen.Some? || !c.applet)
      && FstabAgrees(fs, c)
      && (c.force || forall a :: a in Placed(c) ==> Agrees(fs, a))
  {
    hide Placement, UnitsFor, Retire, Exists, ReadText, PathText, EntryIn, Agrees, Refuses;
    var all := ToPlace(fs, c);
    forall a ensures Agrees(fs, a) <==> !Refuses(fs, a) { AgreesExactly(fs, a); }
    forall i | 0 <= i < |Retire(fs, c)| ensures !Refuses(fs, Retire(fs, c)[i]) { RetiringRefusesNothing(fs, c, i); }
    assert all == Placed(c) + (if TrayOf(c) == Sni then [] else Retire(fs, c));
    assert (forall i :: 0 <= i < |all| ==> !Refuses(fs, all[i])) <==> (forall a :: a in Placed(c) ==> !Refuses(fs, a)) by {
      if forall i :: 0 <= i < |all| ==> !Refuses(fs, all[i]) {
        forall a | a in Placed(c) ensures !Refuses(fs, a) { assert a in all; }
      }
    }
  }

  // ---- what is in it ----

  /** A placing action as it stands in the plan: nothing to do where the right thing is already. */
  predicate Stands(fs: FS, planned: Action, a: Action) {
    match a
    case WriteFile(path, text) => planned == if ReadText(fs, path) == Some(text) then Unchanged(path) else a
    case Symlink(path, target) => planned == if path in fs && fs[path] == Link(target) then Unchanged(path) else a
    case _ => planned == a
  }

  /** A tray unit of an earlier installation, or its link, is there. */
  predicate TrayLeft(fs: FS, c: Config) {
    || Exists(fs, c.prefix + Place(UserUnits, c.home) + ["onedrive-hydration-tray.service"])
    || c.prefix + Place(UserUnits, c.home) + ["graphical-session.target.wants", "onedrive-hydration-tray.service"] in fs
  }

  /** Its unit is stopped and disabled before its file and its link are removed. */
  function TrayRemoval(c: Config): seq<Action> {
    [ RunCommand(DisableTray),
      RemoveFile(c.prefix + Place(UserUnits, c.home) + ["onedrive-hydration-tray.service"]),
      RemoveFile(c.prefix + Place(UserUnits, c.home) + ["graphical-session.target.wants", "onedrive-hydration-tray.service"]) ]
  }

  lemma RetireExactly(fs: FS, c: Config)
    ensures Retire(fs, c) == if TrayLeft(fs, c) then TrayRemoval(c) else []
  {
    hide Exists;
    PlaceExactly(UserUnits, c.prefix, c.home);
  }

  /** The plan places what belongs to the deployment, retires a tray unit that is not wanted but there, appends a line
      to fstab when it has no entry of the sync root, and ends with the report; there is nothing else in it. */
  lemma PlanExactly(fs: FS, c: Config)
    requires InstallPlan(fs, c).Some?
    ensures c.row.Some?
    ensures var plan, m := InstallPlan(fs, c).value, |Placed(c)|;
      var unwanted := TrayChoice(c.applet, c.chosen).0 != Sni && TrayLeft(fs, c);
      var f := c.prefix + ["etc", "fstab"];
      var text := if Exists(fs, f) then ReadText(fs, f) else Some(c.machineFstab);
      && m <= |plan| && text.Some?
      && (forall i :: 0 <= i < m ==> Stands(fs, plan[i], Placed(c)[i]))
      && var line := Suggestion(c.row.value.source, PathText(c.mount), c.row.value.fstype, c.row.value.superOptions);
         plan[m..] == (if unwanted then TrayRemoval(c) else [])
           + (if EntryIn(text.value, PathText(c.mount)) == Absent then [AppendFstab(f, line)] else [])
           + [Manual]
  {
    hide Placement, UnitsFor, Retire, Exists, ReadText, PathText, EntryIn, Suggestion, TrayLeft, TrayRemoval;
    RetireExactly(fs, c);
    var plan, m := InstallPlan(fs, c).value, |Placed(c)|;
    var retired := if TrayOf(c) != Sni && TrayLeft(fs, c) then TrayRemoval(c) else [];
    assert ToPlace(fs, c) == Placed(c) + retired;
    forall i | 0 <= i < |retired| ensures CollidedAll(fs, ToPlace(fs, c))[m + i] == retired[i] {
      RemovalStands(fs, c, i);
    }
    assert CollidedAll(fs, ToPlace(fs, c))[m..] == retired;
  }

  /** After an installation without the tray unit none is left. */
  lemma TrayIsGone(w: World, c: Config, mode: Mode, turns: seq<Turn>)
    requires WentThrough(w, c, mode, turns)
    requires LeadsAway(w.fs, PlanOf(w.fs, c), TrayPath(c)) && TrayChoice(c.applet, c.chosen).0 != Sni
    ensures !TrayLeft(Execute.Execute(w, PlanOf(w.fs, c), mode, turns).world.fs, c)
  {
    hide PlanOf, Execute.Execute, Retire, TrayLeft, LeadsAway;
    TrayIsRetired(w, c, mode, turns);
    RetireExactly(Execute.Execute(w, PlanOf(w.fs, c), mode, turns).world.fs, c);
  }

  lemma RemovalStands(fs: FS, c: Config, i: nat)
    requires i < |TrayRemoval(c)|
    ensures Collided(fs, TrayRemoval(c)[i]) == TrayRemoval(c)[i]
  {
  }
}
