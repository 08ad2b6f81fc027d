/** Planning an installation, and planning it again. */
module Install {
  import opened Text
  import opened Paths
  import opened Files
  import opened Fstab
  import opened Execute
  import U = Uninstall

  datatype Tray = Sni | Plasmoid | NoTray

  datatype UnitDir = SystemUnits | UserUnits | BusServices

  datatype Unit = Unit(dir: UnitDir, name: string, text: string)

  /** The mount of the sync root, as the mount table has it. */
  datatype Row = Row(source: string, fstype: string, superOptions: string)

  /** Everything a plan depends on besides the file system. `othersPass`: the checks of the machine
      itself (root, vantage, kernel, exposure, secrets, binaries, unit text) refuse nothing. */
  datatype Config = Config(
    prefix: Path, home: Path, mount: Path,
    force: bool, consent: bool, chosen: Option<Tray>, applet: bool,
    texts: string -> string, row: Option<Row>, machineFstab: string, othersPass: bool)

  // ---- what is placed ----

  /** The surface, and whether it could be decided: two icons are never installed by accident. */
  function TrayChoice(applet: bool, chosen: Option<Tray>): (Tray, bool) {
    match chosen
    case None => if applet then (NoTray, false) else (Sni, true)
    case Some(t) => (t, true)
  }

  function UnitsFor(tray: Tray, texts: string -> string): seq<Unit> {
    var named := (dir, name) => Unit(dir, name, texts(name));
    [ named(SystemUnits, U.HELPER_UNIT),
      named(SystemUnits, U.TRIGGER_UNIT),
      named(UserUnits, U.SYNC_UNIT),
      named(UserUnits, U.STATE_UNIT) ]
    + (if tray == Sni then [named(UserUnits, U.TRAY_UNIT)] else [])
    + [named(BusServices, U.BUS_FILE)]
  }

  function DirOf(dir: UnitDir, prefix: Path, home: Path): Path {
    match dir
    case SystemUnits => U.SystemDir(prefix)
    case UserUnits => U.UserDir(prefix, home)
    case BusServices => U.BusDir(prefix, home)
  }

  /** The targets of every `WantedBy=` line. */
  function Wanted(lines: seq<string>): seq<string> {
    if lines == [] then [] else
      var line := Trim(lines[0]);
      (if StartsWith(line, "WantedBy=") then SplitWhitespace(line[9..]) else []) + Wanted(lines[1..])
  }

  function UnitPath(u: Unit, c: Config): Path {
    DirOf(u.dir, c.prefix, c.home) + [u.name]
  }

  function LinkAction(u: Unit, target: string, c: Config): Action {
    Symlink(DirOf(u.dir, c.prefix, c.home) + [target + ".wants", u.name], DirOf(u.dir, [], c.home) + [u.name])
  }

  function Links(u: Unit, targets: seq<string>, c: Config): seq<Action> {
    if targets == [] then [] else [LinkAction(u, targets[0], c)] + Links(u, targets[1..], c)
  }

  function Place(u: Unit, c: Config): seq<Action> {
    [WriteFile(UnitPath(u, c), u.text)] + Links(u, Wanted(Lines(u.text)), c)
  }

  function Placement(units: seq<Unit>, c: Config): seq<Action> {
    if units == [] then [] else Place(units[0], c) + Placement(units[1..], c)
  }

  // ---- an earlier tray unit ----

  function TrayPath(c: Config): Path {
    U.UserDir(c.prefix, c.home) + [U.TRAY_UNIT]
  }

  function TrayLink(c: Config): Path {
    U.UserDir(c.prefix, c.home) + ["graphical-session.target.wants", U.TRAY_UNIT]
  }

  function Retire(fs: FS, c: Config): seq<Action> {
    if !Exists(fs, TrayPath(c)) && TrayLink(c) !in fs then []
    else [RunCommand(DisableTray), RemoveFile(TrayPath(c)), RemoveFile(TrayLink(c))]
  }

  // ---- collisions ----

  function Collided(fs: FS, a: Action): Action {
    match a
    case WriteFile(path, text) => if ReadText(fs, path) == Some(text) then Unchanged(path) else a
    case Symlink(path, target) => if ReadLink(fs, path) == Some(target) then Unchanged(path) else a
    case _ => a
  }

  /** Something else is there. */
  predicate Refuses(fs: FS, a: Action) {
    match a
    case WriteFile(path, text) => ReadText(fs, path).Some? && ReadText(fs, path) != Some(text)
    case Symlink(path, target) => ReadLink(fs, path).Some? && ReadLink(fs, path) != Some(target)
    case _ => false
  }

  /** `collide`: rewrites the actions in place and returns the refused paths. */
  method Collide(fs: FS, actions: array<Action>, force: bool) returns (refusals: seq<Path>)
    modifies actions
    ensures forall i :: 0 <= i < actions.Length ==> actions[i] == Collided(fs, old(actions[i]))
    ensures forall p :: p in refusals <==>
      !force && exists i :: 0 <= i < actions.Length && Refuses(fs, old(actions[i])) && old(actions[i]).path == p
  {
    hide ReadText, ReadLink;
    refusals := [];
    for i := 0 to actions.Length
      invariant forall j :: 0 <= j < i ==> actions[j] == Collided(fs, old(actions[j]))
      invariant forall j :: i <= j < actions.Length ==> actions[j] == old(actions[j])
      invariant forall p :: p in refusals <==>
        !force && exists j :: 0 <= j < i && Refuses(fs, old(actions[j])) && old(actions[j]).path == p
    {
      match actions[i] {
        case WriteFile(path, text) =>
          var existing := ReadText(fs, path);
          if existing == Some(text) { actions[i] := Unchanged(path); }
          else if existing.Some? && !force { refusals := refusals + [path]; }
        case Symlink(path, target) =>
          var existing := ReadLink(fs, path);
          if existing == Some(target) { actions[i] := Unchanged(path); }
          else if existing.Some? && !force { refusals := refusals + [path]; }
        case _ =>
      }
    }
  }

  function CollidedAll(fs: FS, actions: seq<Action>): (r: seq<Action>)
    ensures |r| == |actions| && forall i :: 0 <= i < |r| ==> r[i] == Collided(fs, actions[i])
  {
    seq(|actions|, i requires 0 <= i < |actions| => Collided(fs, actions[i]))
  }

  // ---- the whole plan ----

  function FstabPath(c: Config): Path {
    c.prefix + ["etc", "fstab"]
  }

  /** The staged fstab when there is one, the machine's otherwise; None when it cannot be read. */
  function ObservedFstab(fs: FS, c: Config): Option<string> {
    if Exists(fs, FstabPath(c)) then ReadText(fs, FstabPath(c)) else Some(c.machineFstab)
  }

  function Line(c: Config): string
    requires c.row.Some?
  {
    Suggestion(c.row.value.source, PathText(c.mount), c.row.value.fstype, c.row.value.superOptions)
  }

  /** Refused, or fine with or without a line to append. */
  datatype FstabCheck = FstabRefused | FstabFine(append: bool)

  function CheckFstab(entry: Fstab.Entry, consent: bool): FstabCheck {
    match entry
    case NoAuto => FstabFine(false)
    case Automatic(_) => FstabRefused
    case Absent => if consent then FstabFine(true) else FstabRefused
  }

  function ToPlace(fs: FS, c: Config): seq<Action> {
    var tray := TrayChoice(c.applet, c.chosen).0;
    Placement(UnitsFor(tray, c.texts), c) + if tray == Sni then [] else Retire(fs, c)
  }

  function FstabOf(fs: FS, c: Config): FstabCheck
    requires ObservedFstab(fs, c).Some?
  {
    CheckFstab(EntryIn(ObservedFstab(fs, c).value, PathText(c.mount)), c.consent)
  }

  predicate Accepted(fs: FS, c: Config) {
    && ObservedFstab(fs, c).Some?
    && c.othersPass && c.row.Some? && c.row.value.fstype in ALLOW_HSM
    && TrayChoice(c.applet, c.chosen).1
    && FstabOf(fs, c).FstabFine?
    && (c.force || forall i :: 0 <= i < |ToPlace(fs, c)| ==> !Refuses(fs, ToPlace(fs, c)[i]))
  }

  /** `install`: a plan, or a refusal. */
  function InstallPlan(fs: FS, c: Config): Option<seq<Action>> {
    if !Accepted(fs, c) then None
    else Some(CollidedAll(fs, ToPlace(fs, c))
              + (if FstabOf(fs, c).append then [AppendFstab(FstabPath(c), Line(c))] else [])
              + [Manual])
  }
}
