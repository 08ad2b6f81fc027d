/** An installation that went through is found complete by the next plan. */
module InstallTwice {
  import opened Text
  import opened Paths
  import opened Files
  import opened Fstab
  import opened Execute
  import opened Install
  import U = Uninstall

  // ---- what one successful action does to the file system ----

  predicate OnFile(a: Action) {
    a.WriteFile? || a.Symlink? || a.AppendFstab? || a.RemoveFile?
  }

  /** Paths whose content the action may replace or remove. */
  predicate Touches(a: Action, q: Path)
    requires Proper(a)
  {
    OnFile(a) && (q == a.path || (a.WriteFile? && q == TemporaryName(a.path)))
  }

  /** Paths the action may bring into existence. */
  predicate Makes(a: Action, q: Path) {
    OnFile(a) && !a.RemoveFile? && q <= a.path
  }

  ghost predicate SameAt(before: FS, after: FS, q: Path) {
    (q in before <==> q in after) && (q in before ==> before[q] == after[q])
  }

  lemma WriteEffect(fs: FS, path: Path, text: string, t: Turn, q: Path)
    requires path != [] && Write(fs, path, text, t).1
    ensures var after := Write(fs, path, text, t).0;
      && path in after && after[path] == File(text)
      && (q in fs && q != path && q != TemporaryName(path) ==> q in after && after[q] == fs[q])
      && (q in after && q !in fs ==> q <= path)
  {
    assert Parent(path) <= path;
  }

  lemma LinkEffect(fs: FS, path: Path, target: Path, t: Turn, q: Path)
    requires path != [] && MakeLink(fs, path, target, t).1
    ensures var after := MakeLink(fs, path, target, t).0;
      && path in after && after[path] == Link(target)
      && (q in fs && q != path ==> q in after && after[q] == fs[q])
      && (q in after && q !in fs ==> q <= path)
  {
    assert Parent(path) <= path;
  }

  lemma AppendEffect(fs: FS, path: Path, line: string, t: Turn, q: Path)
    requires path != [] && AppendBlock(fs, path, line, t).1
    ensures var after := AppendBlock(fs, path, line, t).0;
      && path in after && after[path] == File(Appended(if path in fs && fs[path].File? then fs[path].text else "", line))
      && (q in fs && q != path ==> q in after && after[q] == fs[q])
      && (q in after && q !in fs ==> q <= path)
  {
    hide Appended;
    assert Parent(path) <= path && |Parent(path)| < |path|;
    var made := WithDirs(fs, Parent(path));
    assert path in made ==> path in fs;
  }

  /** A path an action neither touches nor makes is left alone. */
  lemma ActionFrame(w: World, a: Action, mode: Mode, t: Turn, q: Path)
    requires Proper(a) && mode.writes && Perform(w, a, mode, t).1.Some?
    ensures var after := Perform(w, a, mode, t).0.fs;
      && (q in w.fs && !Touches(a, q) ==> q in after && after[q] == w.fs[q])
      && (q !in w.fs && !Makes(a, q) ==> q !in after)
  {
    hide Write, MakeLink, AppendBlock;
    match a {
      case WriteFile(path, text) => WriteEffect(w.fs, path, text, t, q);
      case Symlink(path, target) => LinkEffect(w.fs, path, target, t, q);
      case AppendFstab(path, line) => AppendEffect(w.fs, path, line, t, q);
      case _ =>
    }
  }

  /** The placed file or link is there as it should be. */
  predicate Right(fs: FS, a: Action) {
    match a
    case WriteFile(path, text) => ReadText(fs, path) == Some(text)
    case Symlink(path, target) => ReadLink(fs, path) == Some(target)
    case _ => true
  }

  /** A link leads to nothing that the plan makes, replaces or removes. */
  predicate LeadsAway(fs: FS, plan: seq<Action>, path: Path)
    requires AllProper(plan)
  {
    path in fs && fs[path].Link? ==>
      forall j :: 0 <= j < |plan| ==> !Makes(plan[j], fs[path].target) && !Touches(plan[j], fs[path].target)
  }

  lemma ActionIsRight(w: World, a: Action, mode: Mode, t: Turn)
    requires Proper(a) && mode.writes && Perform(w, a, mode, t).1.Some?
    ensures Right(Perform(w, a, mode, t).0.fs, a)
    ensures a.WriteFile? ==> Perform(w, a, mode, t).0.fs[a.path].File?
  {
    hide Write, MakeLink, AppendBlock;
    match a {
      case WriteFile(path, text) => WriteEffect(w.fs, path, text, t, []);
      case Symlink(path, target) => LinkEffect(w.fs, path, target, t, []);
      case _ =>
    }
  }

  // ---- runs ----

  /** The file system after the first `n` actions. */
  function After(w: World, plan: seq<Action>, mode: Mode, turns: seq<Turn>, n: nat): FS
    requires AllProper(plan) && |turns| == |plan| && n <= |plan|
  {
    Execute.Execute(w, plan[..n], mode, turns[..n]).world.fs
  }

  lemma {:induction false} PrefixSucceeds(w: World, plan: seq<Action>, mode: Mode, turns: seq<Turn>, n: nat)
    requires AllProper(plan) && |turns| == |plan| && n <= |plan| && Execute.Execute(w, plan, mode, turns).ok
    ensures Execute.Execute(w, plan[..n], mode, turns[..n]).ok
  {
    hide Execute.Execute;
    if !Execute.Execute(w, plan[..n], mode, turns[..n]).ok { FailureIsFinal(w, plan, mode, turns, n); }
  }

  /** The step from `n` to `n + 1` actions of a run that goes through. */
  lemma RunStep(w: World, plan: seq<Action>, mode: Mode, turns: seq<Turn>, n: nat) returns (v: World)
    requires AllProper(plan) && |turns| == |plan| && n < |plan| && Execute.Execute(w, plan, mode, turns).ok
    ensures v.fs == After(w, plan, mode, turns, n)
    ensures Perform(v, plan[n], mode, turns[n]).1.Some?
    ensures Perform(v, plan[n], mode, turns[n]).0.fs == After(w, plan, mode, turns, n + 1)
  {
    hide Execute.Execute, Perform, Drift;
    PrefixSucceeds(w, plan, mode, turns, n);
    PrefixSucceeds(w, plan, mode, turns, n + 1);
    ExecuteStep(w, plan, mode, turns, n);
    var before := Execute.Execute(w, plan[..n], mode, turns[..n]).world;
    v := Drift(before, turns[n].drift);
    U.DriftFrame(before, turns[n].drift);
  }

  /** A placed file stays right, and what an action places is right from then on. */
  lemma {:induction false} PlacedStaysRight(
      w: World, plan: seq<Action>, mode: Mode, turns: seq<Turn>, a: Action, from: nat, n: nat)
    requires AllProper(plan) && |turns| == |plan| && from <= n <= |plan| && mode.writes
    requires Execute.Execute(w, plan, mode, turns).ok
    requires a.WriteFile? || a.Symlink?
    requires Right(After(w, plan, mode, turns, from), a)
    requires a.WriteFile? ==> LeadsAway(After(w, plan, mode, turns, from), plan, a.path)
    requires forall j :: from <= j < |plan| && Touches(plan[j], a.path) ==> plan[j] == a
    ensures Right(After(w, plan, mode, turns, n), a)
    decreases n - from
  {
    hide After, Perform;
    if from < n {
      var v := RunStep(w, plan, mode, turns, from);
      if plan[from] == a {
        ActionIsRight(v, a, mode, turns[from]);
      } else {
        ActionFrame(v, plan[from], mode, turns[from], a.path);
        if v.fs[a.path].Link? { ActionFrame(v, plan[from], mode, turns[from], v.fs[a.path].target); }
      }
      PlacedStaysRight(w, plan, mode, turns, a, from + 1, n);
    }
  }

  lemma {:induction false} AbsentStaysAbsent(
      w: World, plan: seq<Action>, mode: Mode, turns: seq<Turn>, q: Path, from: nat, n: nat)
    requires AllProper(plan) && |turns| == |plan| && from <= n <= |plan| && mode.writes
    requires Execute.Execute(w, plan, mode, turns).ok
    requires q !in After(w, plan, mode, turns, from)
    requires forall j :: from <= j < n ==> !Makes(plan[j], q)
    ensures q !in After(w, plan, mode, turns, n)
    decreases n - from
  {
    hide After, Perform, Makes;
    if from < n {
      var v := RunStep(w, plan, mode, turns, from);
      ActionFrame(v, plan[from], mode, turns[from], q);
      AbsentStaysAbsent(w, plan, mode, turns, q, from + 1, n);
    }
  }

  lemma {:induction false} UntouchedStays(w: World, plan: seq<Action>, mode: Mode, turns: seq<Turn>, q: Path, from: nat, n: nat)
    requires AllProper(plan) && |turns| == |plan| && from <= n <= |plan| && mode.writes
    requires Execute.Execute(w, plan, mode, turns).ok
    requires forall j :: from <= j < n ==> !Makes(plan[j], q) && !Touches(plan[j], q)
    ensures SameAt(After(w, plan, mode, turns, from), After(w, plan, mode, turns, n), q)
    decreases n - from
  {
    hide After, Perform, Makes, Touches;
    if from < n {
      var v := RunStep(w, plan, mode, turns, from);
      ActionFrame(v, plan[from], mode, turns[from], q);
      UntouchedStays(w, plan, mode, turns, q, from + 1, n);
    }
  }

  lemma StartOfRun(w: World, plan: seq<Action>, mode: Mode, turns: seq<Turn>)
    requires AllProper(plan) && |turns| == |plan|
    ensures After(w, plan, mode, turns, 0) == w.fs
    ensures After(w, plan, mode, turns, |plan|) == Execute.Execute(w, plan, mode, turns).world.fs
  {
    assert plan[..|plan|] == plan && turns[..|plan|] == turns;
  }

  // ---- where things are placed ----

  ghost predicate OfUnit(a: Action, u: Unit, c: Config) {
    a == WriteFile(UnitPath(u, c), u.text) || exists t :: a == LinkAction(u, t, c)
  }

  lemma {:induction false} LinksAreOfUnit(u: Unit, targets: seq<string>, c: Config, i: nat)
    requires i < |Links(u, targets, c)|
    ensures OfUnit(Links(u, targets, c)[i], u, c)
  {
    if i > 0 { LinksAreOfUnit(u, targets[1..], c, i - 1); }
  }

  lemma {:induction false} PlacedByUnit(units: seq<Unit>, c: Config, i: nat) returns (u: Unit)
    requires i < |Placement(units, c)|
    ensures u in units && OfUnit(Placement(units, c)[i], u, c)
  {
    hide OfUnit;
    var first := Place(units[0], c);
    if i < |first| {
      u := units[0];
      assert OfUnit(first[0], u, c) by { FileIsOfUnit(u, c); }
      if i > 0 { LinksAreOfUnit(u, Wanted(Lines(u.text)), c, i - 1); }
    } else {
      u := PlacedByUnit(units[1..], c, i - |first|);
    }
  }

  lemma FileIsOfUnit(u: Unit, c: Config)
    ensures OfUnit(WriteFile(UnitPath(u, c), u.text), u, c)
  {
  }

  /** How every placed path ends, and what kind of action places it. */
  lemma PathOfUnit(a: Action, u: Unit, c: Config)
    requires OfUnit(a, u, c)
    ensures var dir := DirOf(u.dir, c.prefix, c.home);
      && (a.WriteFile? || a.Symlink?) && a.path != [] && a.path[|a.path| - 1] == u.name
      && dir <= a.path
      && (a.WriteFile? ==> a.path == dir + [u.name])
      && (a.Symlink? ==> |a.path| == |dir| + 2 && exists t :: a.path[|dir|] == t + ".wants" && a == LinkAction(u, t, c))
  {
    hide DirOf;
  }

  predicate UnitName(name: string) {
    name != "" && name[|name| - 1] in {'e', 'h'}
  }

  lemma NameShapes()
    ensures UnitName(U.HELPER_UNIT) && UnitName(U.TRIGGER_UNIT) && UnitName(U.SYNC_UNIT)
    ensures UnitName(U.STATE_UNIT) && UnitName(U.TRAY_UNIT) && UnitName(U.BUS_FILE)
    ensures |U.HELPER_UNIT| == 18 && |U.TRIGGER_UNIT| == 15 && |U.SYNC_UNIT| == 26
    ensures |U.STATE_UNIT| == |U.TRAY_UNIT| == 31 && |U.BUS_FILE| == 46
    ensures U.TRAY_UNIT != U.STATE_UNIT
  {
    assert U.TRAY_UNIT[19] == 't' && U.STATE_UNIT[19] == 'd';
  }

  lemma UnitNames(tray: Tray, texts: string -> string)
    ensures var units := UnitsFor(tray, texts);
      && (forall u :: u in units ==> UnitName(u.name) && (tray == Sni || u.name != U.TRAY_UNIT))
      && (forall u, v :: u in units && v in units && u.name == v.name ==> u == v)
  {
    NameShapes();
    var units := UnitsFor(tray, texts);
    forall u | u in units
      ensures UnitName(u.name) && (tray == Sni || u.name != U.TRAY_UNIT)
      ensures u.text == texts(u.name) && u.dir == HomeOf(u.name)
    {
    }
  }

  /** The directory a unit's name implies. */
  function HomeOf(name: string): UnitDir {
    if |name| in {15, 18} then SystemUnits else if |name| == 46 then BusServices else UserUnits
  }

  lemma SuffixIsFaithful(s: string, t: string, suffix: string)
    requires s + suffix == t + suffix
    ensures s == t
  {
    assert |s| == |t|;
    assert s == (s + suffix)[..|s|] && t == (t + suffix)[..|t|];
  }

  /** Two placing actions never fight over a path. */
  lemma SamePathSameAction(a: Action, u: Unit, b: Action, v: Unit, c: Config)
    requires OfUnit(a, u, c) && OfUnit(b, v, c) && (u.name == v.name ==> u == v)
    requires a.path == b.path
    ensures a == b
  {
    hide OfUnit, DirOf;
    PathOfUnit(a, u, c);
    PathOfUnit(b, v, c);
    assert u == v;
    var dir := DirOf(u.dir, c.prefix, c.home);
    if a.Symlink? {
      var s :| a.path[|dir|] == s + ".wants" && a == LinkAction(u, s, c);
      var t :| b.path[|dir|] == t + ".wants" && b == LinkAction(u, t, c);
      SuffixIsFaithful(s, t, ".wants");
    } else {
      WriteOfUnit(a, u, c);
      WriteOfUnit(b, u, c);
    }
  }

  lemma WriteOfUnit(a: Action, u: Unit, c: Config)
    requires OfUnit(a, u, c) && a.WriteFile?
    ensures a == WriteFile(UnitPath(u, c), u.text)
  {
    hide DirOf;
  }

  /** A temporary file is never something placed. */
  lemma TemporaryIsApart(path: Path, q: Path)
    requires path != [] && q != [] && (UnitName(q[|q| - 1]) || q[|q| - 1] == "fstab")
    ensures TemporaryName(path) != q
  {
    var name := path[|path| - 1];
    var tmp := TemporaryName(path);
    assert tmp[|tmp| - 1] == name + ".tmp-install";
    assert (name + ".tmp-install")[|name| + 11] == 'l';
    assert "fstab"[4] == 'b';
  }

  predicate Target(s: string) {
    |s| >= 6 && s[|s| - 1] == 's'
  }

  /** What stands in the directory of a placed path. */
  lemma BelowDir(a: Action, u: Unit, c: Config)
    requires OfUnit(a, u, c)
    ensures var dir := DirOf(u.dir, c.prefix, c.home);
      && (a.WriteFile? || a.Symlink?) && |a.path| in {|dir| + 1, |dir| + 2} && dir <= a.path
      && a.path[|a.path| - 1] == u.name && (|a.path| == |dir| + 2 ==> Target(a.path[|dir|]))
  {
    hide OfUnit, DirOf;
    PathOfUnit(a, u, c);
    var dir := DirOf(u.dir, c.prefix, c.home);
    if a.Symlink? {
      var t :| a.path[|dir|] == t + ".wants" && a == LinkAction(u, t, c);
      assert (t + ".wants")[|t| + 5] == 's';
    }
  }

  lemma DirComponents(c: Config)
    ensures var base := c.prefix + c.home;
      && U.SystemDir(c.prefix)[|c.prefix|] == "etc" && U.SystemDir(c.prefix)[|c.prefix| + 1] == "systemd"
      && U.UserDir(c.prefix, c.home)[|base|] == ".config" && U.BusDir(c.prefix, c.home)[|base|] == ".local"
      && |U.SystemDir(c.prefix)| == |c.prefix| + 3 && |U.UserDir(c.prefix, c.home)| == |base| + 3
      && |U.BusDir(c.prefix, c.home)| == |base| + 4
      && base <= U.UserDir(c.prefix, c.home) && base <= U.BusDir(c.prefix, c.home)
      && c.prefix <= U.SystemDir(c.prefix)
      && TrayPath(c)[|base|] == ".config" && TrayPath(c)[|base| + 3] == U.TRAY_UNIT && |TrayPath(c)| == |base| + 4
      && TrayLink(c)[|base|] == ".config" && TrayLink(c)[|base| + 4] == U.TRAY_UNIT && |TrayLink(c)| == |base| + 5
      && Target(TrayLink(c)[|base| + 3])
      && FstabPath(c)[|c.prefix|] == "etc" && FstabPath(c)[|c.prefix| + 1] == "fstab" && |FstabPath(c)| == |c.prefix| + 2
  {
  }

  /** No placed path lies at or below the tray unit's. */
  lemma TrayIsApart(a: Action, u: Unit, c: Config)
    requires OfUnit(a, u, c) && u.name != U.TRAY_UNIT
    ensures !(TrayPath(c) <= a.path) && !(TrayLink(c) <= a.path)
  {
    hide OfUnit;
    BelowDir(a, u, c);
    DirComponents(c);
    var base, dir := c.prefix + c.home, DirOf(u.dir, c.prefix, c.home);
    match u.dir {
      case SystemUnits =>
        assert a.path[|c.prefix|] == "etc" && a.path[|c.prefix| + 1] == "systemd";
      case UserUnits =>
        assert a.path[|base| + 3] == a.path[|dir|];
      case BusServices =>
        assert a.path[|base|] == ".local";
    }
  }

  predicate SensibleHome(c: Config) {
    !(["etc", "fstab"] <= c.home)
  }

  /** No placed path lies at or below fstab. */
  lemma FstabIsApart(a: Action, u: Unit, c: Config)
    requires OfUnit(a, u, c) && SensibleHome(c)
    ensures !(FstabPath(c) <= a.path)
  {
    hide OfUnit;
    BelowDir(a, u, c);
    DirComponents(c);
    var base, dir := c.prefix + c.home, DirOf(u.dir, c.prefix, c.home);
    match u.dir {
      case SystemUnits =>
        assert a.path[|c.prefix| + 1] == "systemd";
      case _ =>
        assert a.path[|base|] in {".config", ".local"};
        assert forall i :: 0 <= i < |c.home| ==> a.path[|c.prefix| + i] == c.home[i];
    }
  }

  // ---- the first plan ----

  function TrayOf(c: Config): Tray {
    TrayChoice(c.applet, c.chosen).0
  }

  function Placed(c: Config): seq<Action> {
    Placement(UnitsFor(TrayOf(c), c.texts), c)
  }

  function Appends(fs: FS, c: Config): bool
    requires Accepted(fs, c)
  {
    FstabOf(fs, c).append
  }

  function PlanOf(fs: FS, c: Config): seq<Action>
    requires Accepted(fs, c)
  {
    InstallPlan(fs, c).value
  }

  /** What a plan consists of. */
  lemma PlanElement(fs: FS, c: Config, j: nat)
    requires Accepted(fs, c) && j < |PlanOf(fs, c)|
    ensures var plan, a := PlanOf(fs, c), PlanOf(fs, c)[j];
      || (j < |Placed(c)| && a == Collided(fs, Placed(c)[j]))
      || a == RunCommand(DisableTray) || a == Manual
      || (TrayOf(c) != Sni && Retire(fs, c) != [] && a in {RemoveFile(TrayPath(c)), RemoveFile(TrayLink(c))})
      || (Appends(fs, c) && j == |plan| - 2 && a == AppendFstab(FstabPath(c), Line(c)))
  {
    hide Accepted, Placement, UnitsFor, TrayPath, TrayLink, FstabPath, Line;
    var toPlace := ToPlace(fs, c);
    var plan := PlanOf(fs, c);
    if j < |toPlace| {
      assert plan[j] == Collided(fs, toPlace[j]);
      if j >= |Placed(c)| { assert toPlace[j] == Retire(fs, c)[j - |Placed(c)|]; }
    }
  }

  /** Where the parts of a plan stand. */
  lemma PlanParts(fs: FS, c: Config)
    requires Accepted(fs, c)
    ensures var plan, m := PlanOf(fs, c), |Placed(c)|;
      && m <= |ToPlace(fs, c)| < |plan|
      && (forall i :: 0 <= i < m ==> plan[i] == Collided(fs, Placed(c)[i]))
      && (TrayOf(c) != Sni && Retire(fs, c) != [] ==>
            m + 3 <= |ToPlace(fs, c)| && plan[m + 1] == RemoveFile(TrayPath(c)) && plan[m + 2] == RemoveFile(TrayLink(c)))
      && (Appends(fs, c) ==> |plan| == |ToPlace(fs, c)| + 2 && plan[|plan| - 2] == AppendFstab(FstabPath(c), Line(c)))
  {
    hide Accepted, Placement, UnitsFor, TrayPath, TrayLink, FstabPath, Line;
    var toPlace := ToPlace(fs, c);
    assert forall i :: 0 <= i < |Placed(c)| ==> toPlace[i] == Placed(c)[i];
    assert forall i :: 0 <= i < |Retire(fs, c)| && TrayOf(c) != Sni ==> toPlace[|Placed(c)| + i] == Retire(fs, c)[i];
  }

  lemma PlacedUnit(c: Config, i: nat) returns (u: Unit)
    requires i < |Placed(c)|
    ensures OfUnit(Placed(c)[i], u, c) && UnitName(u.name) && (TrayOf(c) == Sni || u.name != U.TRAY_UNIT)
    ensures u in UnitsFor(TrayOf(c), c.texts)
  {
    hide OfUnit, UnitsFor;
    UnitNames(TrayOf(c), c.texts);
    u := PlacedByUnit(UnitsFor(TrayOf(c), c.texts), c, i);
  }

  lemma PlanIsProper(fs: FS, c: Config)
    requires Accepted(fs, c)
    ensures AllProper(PlanOf(fs, c))
  {
    hide Accepted, PlanOf, Placed, ReadText, ReadLink, OfUnit;
    var plan := PlanOf(fs, c);
    forall j | 0 <= j < |plan| ensures Proper(plan[j]) {
      PlanElement(fs, c, j);
      DirComponents(c);
      if j < |Placed(c)| {
        var u := PlacedUnit(c, j);
        PathOfUnit(Placed(c)[j], u, c);
      }
    }
  }

  /** What an element of the plan does to a placed path it does to put it right. */
  lemma OnlyPlacedTouchPlaced(fs: FS, c: Config, i: nat, j: nat)
    requires Accepted(fs, c) && i < |Placed(c)| && j < |PlanOf(fs, c)|
    requires Proper(PlanOf(fs, c)[j]) && OnFile(Placed(c)[i])
    ensures Touches(PlanOf(fs, c)[j], Placed(c)[i].path) ==> PlanOf(fs, c)[j] == Placed(c)[i]
  {
    hide Accepted, PlanOf, Placed, ReadText, ReadLink, OfUnit, UnitsFor;
    var a, b := PlanOf(fs, c)[j], Placed(c)[i];
    var u := PlacedUnit(c, i);
    PathOfUnit(b, u, c);
    PlanElement(fs, c, j);
    DirComponents(c);
    if j < |Placed(c)| && a == Placed(c)[j] && OnFile(a) {
      var v := PlacedUnit(c, j);
      PathOfUnit(a, v, c);
      UnitNames(TrayOf(c), c.texts);
      TemporaryIsApart(a.path, b.path);
      if a.path == b.path { SamePathSameAction(a, v, b, u, c); }
    } else if a.RemoveFile? {
      TrayIsApart(b, u, c);
    } else if a.AppendFstab? {
      assert FstabPath(c)[|FstabPath(c)| - 1] == "fstab";
      assert !UnitName("fstab");
    }
  }

  /** Nothing in the plan brings a retired tray unit back. */
  lemma NothingMakesTray(fs: FS, c: Config, j: nat)
    requires Accepted(fs, c) && j < |PlanOf(fs, c)| && TrayOf(c) != Sni
    ensures !Makes(PlanOf(fs, c)[j], TrayPath(c)) && !Makes(PlanOf(fs, c)[j], TrayLink(c))
  {
    hide Accepted, PlanOf, Placed, ReadText, ReadLink, OfUnit, UnitsFor, Retire;
    PlanElement(fs, c, j);
    DirComponents(c);
    if j < |Placed(c)| {
      var v := PlacedUnit(c, j);
      TrayIsApart(Placed(c)[j], v, c);
    }
  }

  /** Nothing in the plan minds a tray unit that is not there. */
  lemma NothingTouchesTray(fs: FS, c: Config, j: nat)
    requires Accepted(fs, c) && j < |PlanOf(fs, c)| && TrayOf(c) != Sni && Retire(fs, c) == []
    requires Proper(PlanOf(fs, c)[j])
    ensures !Touches(PlanOf(fs, c)[j], TrayPath(c))
  {
    hide Accepted, PlanOf, Placed, ReadText, ReadLink, OfUnit, UnitsFor, Retire;
    PlanElement(fs, c, j);
    DirComponents(c);
    if j < |Placed(c)| {
      var v := PlacedUnit(c, j);
      TrayIsApart(Placed(c)[j], v, c);
      PathOfUnit(Placed(c)[j], v, c);
      NameShapes();
      TemporaryIsApart(Placed(c)[j].path, TrayPath(c));
    }
  }

  /** Only the append concerns fstab. */
  lemma FstabLeftAlone(fs: FS, c: Config, j: nat)
    requires Accepted(fs, c) && j < |PlanOf(fs, c)| && SensibleHome(c)
    requires Proper(PlanOf(fs, c)[j]) && !PlanOf(fs, c)[j].AppendFstab?
    ensures !Makes(PlanOf(fs, c)[j], FstabPath(c)) && !Touches(PlanOf(fs, c)[j], FstabPath(c))
  {
    hide Accepted, PlanOf, Placed, ReadText, ReadLink, OfUnit, UnitsFor;
    var a := PlanOf(fs, c)[j];
    PlanElement(fs, c, j);
    DirComponents(c);
    if j < |Placed(c)| {
      var v := PlacedUnit(c, j);
      FstabIsApart(Placed(c)[j], v, c);
      if a.WriteFile? {
        assert FstabPath(c)[|FstabPath(c)| - 1] == "fstab";
        TemporaryIsApart(a.path, FstabPath(c));
      }
    }
  }

  // ---- the second plan ----

  /** The plan went through with file writing on. */
  ghost predicate WentThrough(w: World, c: Config, mode: Mode, turns: seq<Turn>): (r: bool)
    ensures r ==> Accepted(w.fs, c) && AllProper(PlanOf(w.fs, c))
  {
    && Accepted(w.fs, c) && |turns| == |PlanOf(w.fs, c)| && mode.writes
    && (PlanIsProper(w.fs, c); Execute.Execute(w, PlanOf(w.fs, c), mode, turns).ok)
  }

  /** Unit files that are links lead to nothing the plan works on. */
  ghost predicate UnitsLeadAway(fs: FS, c: Config)
    requires Accepted(fs, c) && AllProper(PlanOf(fs, c))
  {
    forall i :: 0 <= i < |Placed(c)| && Placed(c)[i].WriteFile? ==> LeadsAway(fs, PlanOf(fs, c), Placed(c)[i].path)
  }

  /** Fstab is a file of its own, and the home is no part of it. */
  predicate FstabIsItself(fs: FS, c: Config) {
    SensibleHome(c) && (FstabPath(c) in fs ==> fs[FstabPath(c)].File?)
  }

  /** The device and the mount options are single words, and the mount point has no line feed. */
  predicate PlainEntry(c: Config) {
    && (c.row.Some? ==> IsWord(c.row.value.source) && c.row.value.source[0] != '#' && NoWhite(c.row.value.superOptions))
    && Lacks(PathText(c.mount), '\n')
  }

  ghost predicate Ordinary(fs: FS, c: Config)
    requires Accepted(fs, c) && AllProper(PlanOf(fs, c))
  {
    UnitsLeadAway(fs, c) && LeadsAway(fs, PlanOf(fs, c), TrayPath(c)) && FstabIsItself(fs, c) && PlainEntry(c)
  }

  function StagedText(fs: FS, c: Config): string {
    if FstabPath(c) in fs && fs[FstabPath(c)].File? then fs[FstabPath(c)].text else ""
  }

  /** After a run that went through, everything placed is right. */
  lemma EverythingPlaced(w: World, c: Config, mode: Mode, turns: seq<Turn>, i: nat)
    requires WentThrough(w, c, mode, turns)
    requires UnitsLeadAway(w.fs, c) && i < |Placed(c)|
    ensures Right(Execute.Execute(w, PlanOf(w.fs, c), mode, turns).world.fs, Placed(c)[i])
  {
    hide Accepted, PlanOf, Placed, OfUnit, After, Perform, Execute.Execute, Touches;
    var plan, a := PlanOf(w.fs, c), Placed(c)[i];
    PlanParts(w.fs, c);
    StartOfRun(w, plan, mode, turns);
    var u := PlacedUnit(c, i);
    PathOfUnit(a, u, c);
    forall j | 0 <= j < |plan| && Touches(plan[j], a.path) ensures plan[j] == a {
      OnlyPlacedTouchPlaced(w.fs, c, i, j);
    }
    if plan[i] == a {
      var v := RunStep(w, plan, mode, turns, i);
      ActionIsRight(v, a, mode, turns[i]);
      PlacedStaysRight(w, plan, mode, turns, a, i + 1, |plan|);
    } else {
      PlacedStaysRight(w, plan, mode, turns, a, 0, |plan|);
    }
  }

  /** After a run that went through, a tray unit nobody wants is gone. */
  lemma TrayIsRetired(w: World, c: Config, mode: Mode, turns: seq<Turn>)
    requires WentThrough(w, c, mode, turns)
    requires LeadsAway(w.fs, PlanOf(w.fs, c), TrayPath(c)) && TrayOf(c) != Sni
    ensures Retire(Execute.Execute(w, PlanOf(w.fs, c), mode, turns).world.fs, c) == []
  {
    hide Accepted, PlanOf, Placed, After, Perform, Execute.Execute, Touches, Makes;
    var plan := PlanOf(w.fs, c);
    var m := |Placed(c)|;
    PlanParts(w.fs, c);
    StartOfRun(w, plan, mode, turns);
    forall j | 0 <= j < |plan| ensures !Makes(plan[j], TrayPath(c)) && !Makes(plan[j], TrayLink(c)) {
      NothingMakesTray(w.fs, c, j);
    }
    if Retire(w.fs, c) == [] {
      forall j | 0 <= j < |plan| ensures !Touches(plan[j], TrayPath(c)) { NothingTouchesTray(w.fs, c, j); }
      GoneStaysGone(w, plan, mode, turns, TrayPath(c));
      AbsentStaysAbsent(w, plan, mode, turns, TrayLink(c), 0, |plan|);
    } else {
      RemovedIsGone(w, plan, mode, turns, TrayPath(c), m + 1);
      RemovedIsGone(w, plan, mode, turns, TrayLink(c), m + 2);
    }
  }

  /** A file that is not there is not there afterwards, and neither is one behind a dangling link. */
  lemma GoneStaysGone(w: World, plan: seq<Action>, mode: Mode, turns: seq<Turn>, q: Path)
    requires AllProper(plan) && |turns| == |plan| && mode.writes && Execute.Execute(w, plan, mode, turns).ok
    requires forall j :: 0 <= j < |plan| ==> !Makes(plan[j], q) && !Touches(plan[j], q)
    requires !Exists(w.fs, q) && LeadsAway(w.fs, plan, q)
    ensures !Exists(After(w, plan, mode, turns, |plan|), q)
  {
    hide After, Execute.Execute, Makes, Touches;
    StartOfRun(w, plan, mode, turns);
    UntouchedStays(w, plan, mode, turns, q, 0, |plan|);
    if q in w.fs {
      UntouchedStays(w, plan, mode, turns, w.fs[q].target, 0, |plan|);
    }
  }

  lemma RemovedIsGone(w: World, plan: seq<Action>, mode: Mode, turns: seq<Turn>, q: Path, j: nat)
    requires AllProper(plan) && |turns| == |plan| && mode.writes && Execute.Execute(w, plan, mode, turns).ok
    requires j < |plan| && plan[j] == RemoveFile(q) && forall i :: 0 <= i < |plan| ==> !Makes(plan[i], q)
    ensures q !in After(w, plan, mode, turns, |plan|)
  {
    hide After, Execute.Execute, Makes;
    var v := RunStep(w, plan, mode, turns, j);
    assert q !in Perform(v, plan[j], mode, turns[j]).0.fs;
    AbsentStaysAbsent(w, plan, mode, turns, q, j + 1, |plan|);
  }

  lemma FstabQuiet(w: World, c: Config, mode: Mode, turns: seq<Turn>, from: nat, to: nat)
    requires WentThrough(w, c, mode, turns) && SensibleHome(c) && from <= to <= |PlanOf(w.fs, c)|
    requires forall j :: from <= j < to ==> !PlanOf(w.fs, c)[j].AppendFstab?
    ensures SameAt(After(w, PlanOf(w.fs, c), mode, turns, from), After(w, PlanOf(w.fs, c), mode, turns, to), FstabPath(c))
  {
    hide Accepted, PlanOf, After, Execute.Execute, Touches, Makes, FstabPath, SameAt;
    forall j | from <= j < to
      ensures !Makes(PlanOf(w.fs, c)[j], FstabPath(c)) && !Touches(PlanOf(w.fs, c)[j], FstabPath(c))
    {
      FstabLeftAlone(w.fs, c, j);
    }
    UntouchedStays(w, PlanOf(w.fs, c), mode, turns, FstabPath(c), from, to);
  }

  /** After a run that went through, fstab has what was announced and nothing else has changed in it. */
  lemma FstabAfter(w: World, c: Config, mode: Mode, turns: seq<Turn>)
    requires WentThrough(w, c, mode, turns) && FstabIsItself(w.fs, c)
    ensures var after, f := Execute.Execute(w, PlanOf(w.fs, c), mode, turns).world.fs, FstabPath(c);
      if Appends(w.fs, c) then c.row.Some? && f in after && after[f] == File(Appended(StagedText(w.fs, c), Line(c)))
      else SameAt(w.fs, after, f)
  {
    hide PlanOf, Placed, After, Perform, Execute.Execute, Appended, Line, ToPlace, FstabOf, FstabPath, TrayPath, TrayLink;
    var plan := PlanOf(w.fs, c);
    var n := |plan|;
    PlanParts(w.fs, c);
    StartOfRun(w, plan, mode, turns);
    forall j | 0 <= j < n ensures plan[j].AppendFstab? ==> Appends(w.fs, c) && j == n - 2 { AppendIsLast(w.fs, c, j); }
    if Appends(w.fs, c) {
      FstabQuiet(w, c, mode, turns, 0, n - 2);
      FstabQuiet(w, c, mode, turns, n - 1, n);
      var v := RunStep(w, plan, mode, turns, n - 2);
      AppendIsDone(v, FstabPath(c), Line(c), mode, turns[n - 2]);
    } else {
      FstabQuiet(w, c, mode, turns, 0, n);
    }
  }

  lemma AppendIsLast(fs: FS, c: Config, j: nat)
    requires Accepted(fs, c) && j < |PlanOf(fs, c)|
    ensures PlanOf(fs, c)[j].AppendFstab? ==> Appends(fs, c) && j == |PlanOf(fs, c)| - 2
  {
    hide Accepted, PlanOf, Placed, ReadText, ReadLink, OfUnit, UnitsFor;
    PlanElement(fs, c, j);
    if j < |Placed(c)| {
      var v := PlacedUnit(c, j);
      PathOfUnit(Placed(c)[j], v, c);
    }
  }

  lemma AppendIsDone(w: World, path: Path, line: string, mode: Mode, t: Turn)
    requires path != [] && mode.writes && Perform(w, AppendFstab(path, line), mode, t).1.Some?
    ensures var after := Perform(w, AppendFstab(path, line), mode, t).0.fs;
      path in after && after[path] == File(Appended(if path in w.fs && w.fs[path].File? then w.fs[path].text else "", line))
  {
    hide AppendBlock, Appended;
    AppendEffect(w.fs, path, line, t, []);
  }

  /** The block was appended to an unterminated line that it completes to an entry of the sync root. */
  predicate Spoiled(fs: FS, c: Config)
    requires Accepted(fs, c)
  {
    Appends(fs, c) && Spoils(Unterminated(StagedText(fs, c)), PathText(c.mount))
  }

  /** What the next look at fstab says. */
  lemma FstabNext(w: World, c: Config, mode: Mode, turns: seq<Turn>)
    requires WentThrough(w, c, mode, turns) && FstabIsItself(w.fs, c) && PlainEntry(c)
    ensures var after := Execute.Execute(w, PlanOf(w.fs, c), mode, turns).world.fs;
      && ObservedFstab(after, c).Some?
      && FstabOf(after, c) ==
        if Spoiled(w.fs, c) then FstabRefused else FstabFine(Appends(w.fs, c) && !Nameable(PathText(c.mount)))
  {
    hide PlanOf, Execute.Execute, Appended, Line, ToPlace, FstabPath, EntryIn, PathText, Nameable;
    hide Refuses, IsWhite, Unterminated, Spoils, LeadsAway;
    var after, f := Execute.Execute(w, PlanOf(w.fs, c), mode, turns).world.fs, FstabPath(c);
    var point, was := PathText(c.mount), StagedText(w.fs, c);
    FstabAfter(w, c, mode, turns);
    if Appends(w.fs, c) {
      NothingIn(point);
      assert EntryIn(was, point) == Absent;
      LineReadsBack(was, c);
      assert ObservedFstab(after, c) == Some(Appended(was, Line(c)));
    } else {
      assert ObservedFstab(after, c) == ObservedFstab(w.fs, c);
    }
  }

  lemma LineReadsBack(was: string, c: Config)
    requires c.row.Some? && c.row.value.fstype in ALLOW_HSM
    requires IsWord(c.row.value.source) && c.row.value.source[0] != '#' && NoWhite(c.row.value.superOptions)
    requires Lacks(PathText(c.mount), '\n') && EntryIn(was, PathText(c.mount)) == Absent
    ensures EntryIn(Appended(was, Line(c)), PathText(c.mount))
      == if Spoils(Unterminated(was), PathText(c.mount)) then Automatic(Joined(was))
         else if Nameable(PathText(c.mount)) then NoAuto else Absent
  {
    hide Appended, EntryIn, Nameable, IsWhite, Suggestion, Unterminated, Joined, Spoils;
    AppendedLineReadsBack(was, c.row.value.source, PathText(c.mount), c.row.value.fstype, c.row.value.superOptions);
  }

  function AllUnchanged(actions: seq<Action>): seq<Action>
    requires forall i :: 0 <= i < |actions| ==> OnFile(actions[i])
  {
    seq(|actions|, i requires 0 <= i < |actions| && OnFile(actions[i]) => Unchanged(actions[i].path))
  }

  lemma PlacedAreFiles(c: Config)
    ensures forall i :: 0 <= i < |Placed(c)| ==> OnFile(Placed(c)[i]) && (Placed(c)[i].WriteFile? || Placed(c)[i].Symlink?)
  {
    hide Placed, OfUnit, UnitsFor;
    forall i | 0 <= i < |Placed(c)| ensures Placed(c)[i].WriteFile? || Placed(c)[i].Symlink? {
      var u := PlacedUnit(c, i);
      PathOfUnit(Placed(c)[i], u, c);
    }
  }

  lemma RightIsUnchanged(fs: FS, a: Action)
    requires (a.WriteFile? || a.Symlink?) && Right(fs, a)
    ensures Collided(fs, a) == Unchanged(a.path) && !Refuses(fs, a)
  {
  }

  /** A plan that was carried out with file writing on is found complete: the next plan with the same
      configuration is not refused, places nothing, retires nothing, and appends a line again exactly when
      the first did and the mount point cannot be written to fstab as it stands. The one exception is an fstab
      whose unterminated last line spoils what was appended: then the next plan is refused. */
  lemma InstallIsIdempotent(w: World, c: Config, mode: Mode, turns: seq<Turn>)
    requires WentThrough(w, c, mode, turns) && Ordinary(w.fs, c)
    ensures forall i :: 0 <= i < |Placed(c)| ==> OnFile(Placed(c)[i])
    ensures InstallPlan(Execute.Execute(w, PlanOf(w.fs, c), mode, turns).world.fs, c) ==
      if Spoiled(w.fs, c) then None else Some(
        AllUnchanged(Placed(c))
        + (if Appends(w.fs, c) && !Nameable(PathText(c.mount)) then [AppendFstab(FstabPath(c), Line(c))] else [])
        + [Manual])
  {
    hide PlanOf, Placed, Execute.Execute, Line, FstabPath, PathText, Nameable, Retire, EntryIn;
    hide Right, Refuses, Collided, ObservedFstab, FstabOf, Spoiled, LeadsAway;
    var after := Execute.Execute(w, PlanOf(w.fs, c), mode, turns).world.fs;
    PlacedAreFiles(c);
    FstabNext(w, c, mode, turns);
    if TrayOf(c) != Sni { TrayIsRetired(w, c, mode, turns); }
    NextToPlace(after, c);
    forall i | 0 <= i < |Placed(c)|
      ensures Collided(after, Placed(c)[i]) == Unchanged(Placed(c)[i].path) && !Refuses(after, Placed(c)[i])
    {
      EverythingPlaced(w, c, mode, turns, i);
      RightIsUnchanged(after, Placed(c)[i]);
    }
    assert CollidedAll(after, ToPlace(after, c)) == AllUnchanged(Placed(c));
  }

  lemma NextToPlace(fs: FS, c: Config)
    requires TrayOf(c) == Sni || Retire(fs, c) == []
    ensures ToPlace(fs, c) == Placed(c)
  {
    hide Placement, Retire, UnitsFor;
    assert Placed(c) + [] == Placed(c);
  }
}
