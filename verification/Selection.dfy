/** Starting a job: which selections are accepted and what the worker is given to process. */
module Selection {
  import opened Text
  import opened Paths
  import opened Sorting

  datatype StartError = ChooseFiles | CannotResolve | OutsideFolder

  datatype Result<T> = Ok(value: T) | Err(error: StartError)

  const MAX_PATHS := 1000

  predicate HasLineBreak(p: Path) {
    exists i :: 0 <= i < |p| && !(Lacks(p[i], '\n') && Lacks(p[i], '\r'))
  }

  predicate Selectable(p: Path, root: Path) {
    p != root && Under(p, root) && !HasLineBreak(p)
  }

  /** What `canonicalize` answered for one selected item. */
  type Resolved = Option<Path>

  predicate Accepted(r: Resolved, root: Path) {
    r.Some? && Selectable(r.value, root)
  }

  /** Acceptable is what resolves to a path strictly below the folder without a line break in any name. */
  lemma AcceptedExactly(r: Resolved, root: Path)
    ensures Accepted(r, root) <==>
      && r.Some? && root < r.value
      && forall i, k :: 0 <= i < |r.value| && 0 <= k < |r.value[i]| ==> r.value[i][k] != '\n' && r.value[i][k] != '\r'
  {
    hide Under;
    if r.Some? {
      assert root < r.value <==> r.value != root && Under(r.value, root) by { ProperlyUnder(r.value, root); }
      assert forall i :: 0 <= i < |r.value| ==>
        (Lacks(r.value[i], '\n') <==> forall k :: 0 <= k < |r.value[i]| ==> r.value[i][k] != '\n');
      assert forall i :: 0 <= i < |r.value| ==>
        (Lacks(r.value[i], '\r') <==> forall k :: 0 <= k < |r.value[i]| ==> r.value[i][k] != '\r');
    }
  }

  lemma ProperlyUnder(p: Path, root: Path)
    ensures root < p <==> p != root && Under(p, root)
  {
  }

  /** No selected item contains another. */
  ghost predicate Antichain(paths: seq<Path>) {
    forall i, j :: 0 <= i < |paths| && 0 <= j < |paths| && i != j ==> !Under(paths[i], paths[j])
  }

  /** Not inside any other selected item. */
  ghost predicate Topmost(p: Path, paths: seq<Path>) {
    forall q :: q in paths && Under(p, q) ==> q == p
  }

  /** The `any` of the retain closure. */
  method InsideAnother(p: Path, all: seq<Path>) returns (inside: bool)
    ensures inside <==> !Topmost(p, all)
  {
    inside := false;
    for j := 0 to |all|
      invariant inside <==> !Topmost(p, all[..j])
    {
      assert forall q :: q in all[..j + 1] <==> q in all[..j] || q == all[j];
      if p != all[j] && Under(p, all[j]) { inside := true; }
    }
    assert all[..|all|] == all;
  }

  /** `retain` against a copy of the list keeps the order. */
  method Retain(all: seq<Path>) returns (kept: seq<Path>)
    requires Sorted(all, PathLe) && Distinct(all)
    ensures Sorted(kept, PathLe) && Distinct(kept)
    ensures forall p :: p in kept <==> p in all && Topmost(p, all)
  {
    hide PathLe, Topmost;
    kept := [];
    for i := 0 to |all|
      invariant Sorted(kept, PathLe) && Distinct(kept)
      invariant forall k, m :: 0 <= k < |kept| && i <= m < |all| ==> PathLe(kept[k], all[m]) && kept[k] != all[m]
      invariant forall p :: p in kept <==> p in all[..i] && Topmost(p, all)
    {
      var inside := InsideAnother(all[i], all);
      assert forall q :: q in all[..i + 1] <==> q in all[..i] || q == all[i];
      if !inside { kept := kept + [all[i]]; }
    }
    assert all[..|all|] == all;
  }

  /** `sort`, `dedup`, `retain`. */
  method Reduce(paths: seq<Path>) returns (kept: seq<Path>)
    ensures Reduces(kept, paths)
  {
    var all := SortDedup(paths, PathLe);
    PathOrder();
    SortDedupSpec(paths, PathLe);
    kept := Retain(all);
    assert forall p :: Topmost(p, all) <==> Topmost(p, paths);
  }

  /** The reduced list of a selection: increasing, and exactly the topmost items. */
  ghost predicate Reduces(kept: seq<Path>, paths: seq<Path>) {
    && Sorted(kept, PathLe) && Distinct(kept)
    && forall p :: p in kept <==> p in paths && Topmost(p, paths)
  }

  /** The whole check of a request, up to the point where the job itself is looked at. */
  method Select(operation: string, root: Resolved, paths: seq<Resolved>) returns (result: Result<seq<Path>>)
    ensures result == Err(ChooseFiles) <==> operation !in {"keep", "free"} || |paths| == 0 || |paths| > 1000
    ensures result.Ok? <==>
      && operation in {"keep", "free"} && 0 < |paths| <= 1000
      && root.Some? && forall i :: 0 <= i < |paths| ==> Accepted(paths[i], root.value)
    // The first item that is not acceptable decides which error is reported.
    ensures result.Err? && result.error != ChooseFiles && root.Some? ==>
      exists i :: 0 <= i < |paths| && !Accepted(paths[i], root.value)
        && (forall j :: 0 <= j < i ==> Accepted(paths[j], root.value))
        && result.error == if paths[i].None? then CannotResolve else OutsideFolder
    ensures result.Err? && result.error != ChooseFiles && root.None? ==> result.error == CannotResolve
    ensures result.Ok? ==> Sorted(result.value, PathLe) && Distinct(result.value)
    ensures result.Ok? ==> forall p :: p in result.value <==> Some(p) in paths && TopmostSelected(p, paths)
  {
    if operation !in {"keep", "free"} || paths == [] || |paths| > MAX_PATHS {
      return Err(ChooseFiles);
    }
    if root.None? { return Err(CannotResolve); }
    var selected := [];
    for i := 0 to |paths|
      invariant |selected| == i && forall j :: 0 <= j < i ==> Accepted(paths[j], root.value) && paths[j] == Some(selected[j])
    {
      if paths[i].None? { return Err(CannotResolve); }
      if !Selectable(paths[i].value, root.value) { return Err(OutsideFolder); }
      selected := selected + [paths[i].value];
    }
    var kept := Reduce(selected);
    assert forall p :: p in selected <==> Some(p) in paths;
    assert forall p :: Topmost(p, selected) <==> TopmostSelected(p, paths);
    return Ok(kept);
  }

  ghost predicate TopmostSelected(p: Path, paths: seq<Resolved>) {
    forall q :: Some(q) in paths && Under(p, q) ==> q == p
  }

  // ---- what the reduction means ----

  lemma ReductionIsUnique(a: seq<Path>, b: seq<Path>, paths: seq<Path>)
    requires Reduces(a, paths) && Reduces(b, paths)
    ensures a == b
  {
    PathOrder();
    IncreasingIsUnique(a, b, PathLe);
  }

  /** Every selected item lies in a kept one. */
  lemma {:induction false} Covered(kept: seq<Path>, paths: seq<Path>, p: Path)
    requires Reduces(kept, paths) && p in paths
    ensures InSome(p, kept)
    decreases |p|
  {
    if Topmost(p, paths) {
      assert Under(p, p);
    } else {
      var q :| q in paths && Under(p, q) && q != p;
      assert |q| < |p|;
      Covered(kept, paths, q);
    }
  }

  lemma KeptIsAntichain(kept: seq<Path>, paths: seq<Path>)
    requires Reduces(kept, paths)
    ensures Antichain(kept)
  {
    forall i, j | 0 <= i < |kept| && 0 <= j < |kept| && i != j ensures !Under(kept[i], kept[j]) {
      assert kept[i] in kept && kept[j] in kept;
      assert kept[i] != kept[j];
    }
  }

  ghost predicate InSome(x: Path, roots: seq<Path>) {
    exists p :: p in roots && Under(x, p)
  }

  /** The subtrees processed are disjoint, and together they are the subtrees selected. */
  lemma ReductionKeepsTheUnion(kept: seq<Path>, paths: seq<Path>)
    requires Reduces(kept, paths)
    ensures forall i, j, x :: 0 <= i < j < |kept| && Under(x, kept[i]) ==> !Under(x, kept[j])
    ensures forall x :: InSome(x, paths) <==> InSome(x, kept)
  {
    KeptIsAntichain(kept, paths);
    forall i, j, x | 0 <= i < j < |kept| && Under(x, kept[i]) ensures !Under(x, kept[j]) {
      SubtreesMeet(kept[i], kept[j]);
    }
    forall x ensures InSome(x, paths) <==> InSome(x, kept) {
      if InSome(x, paths) {
        var p :| p in paths && Under(x, p);
        Covered(kept, paths, p);
        var q :| q in kept && Under(p, q);
        assert Under(x, q);
      }
    }
  }

  /** `check_issues`: the first availability issue at or below a selected item refuses the action. */
  method CheckIssues(issues: seq<Path>, selected: seq<Path>) returns (refused: Option<Path>)
    ensures refused.None? <==> forall i :: 0 <= i < |issues| ==> !InSome(issues[i], selected)
    ensures refused.Some? ==>
      (exists i :: 0 <= i < |issues| && issues[i] == refused.value && InSome(issues[i], selected)
         && forall j :: 0 <= j < i ==> !InSome(issues[j], selected))
  {
    for i := 0 to |issues|
      invariant forall j :: 0 <= j < i ==> !InSome(issues[j], selected)
    {
      var inside := false;
      for k := 0 to |selected|
        invariant inside <==> InSome(issues[i], selected[..k])
      {
        assert forall p :: p in selected[..k + 1] <==> p in selected[..k] || p == selected[k];
        if Under(issues[i], selected[k]) { inside := true; }
      }
      assert selected[..|selected|] == selected;
      if inside { return Some(issues[i]); }
    }
    return None;
  }

  /** It makes no difference whether the check sees the selection or what the job will process. */
  lemma IssuesSeeTheReduction(kept: seq<Path>, paths: seq<Path>, issue: Path)
    requires Reduces(kept, paths)
    ensures InSome(issue, kept) <==> InSome(issue, paths)
  {
    hide Reduces;
    ReductionKeepsTheUnion(kept, paths);
  }
}
