/** Other mounts through which the sync files can be reached. */
module Exposures {
  import opened Text
  import opened Paths
  import opened Sorting

  datatype MountRow = MountRow(devno: string, root: string, point: string)

  /** `covers`: containment of subtrees, on the texts of their roots. */
  predicate Covers(outer: string, inner: string) {
    outer == "/" || outer == inner
    || (StartsWith(inner, outer) && |inner| > |outer| && inner[|outer|] == '/')
  }

  predicate Exposes(r: MountRow, ours: MountRow) {
    r.point != ours.point && r.devno == ours.devno && (Covers(r.root, ours.root) || Covers(ours.root, r.root))
  }

  /** `exposures`. */
  method FindExposures(rows: seq<MountRow>, ours: MountRow) returns (out: seq<string>)
    ensures Sorted(out, StringLe) && Distinct(out)
    ensures forall p :: p in out <==> exists i :: 0 <= i < |rows| && rows[i].point == p && Exposes(rows[i], ours)
  {
    hide Covers, StringLe;
    out := [];
    for i := 0 to |rows|
      invariant forall p :: p in out <==> exists j :: 0 <= j < i && rows[j].point == p && Exposes(rows[j], ours)
    {
      var r := rows[i];
      if r.point == ours.point || r.devno != ours.devno { continue; }
      if Covers(r.root, ours.root) || Covers(ours.root, r.root) {
        out := out + [r.point];
      }
    }
    StringOrder();
    SortDedupSpec(out, StringLe);
    out := SortDedup(out, StringLe);
  }

  // ---- what containment of texts means ----

  lemma CoversBelow(a: Path, b: Path)
    requires IsPath(a) && IsPath(b) && a <= b
    ensures Covers(PathText(a), PathText(b))
  {
    hide Join;
    var rest := b[|a|..];
    assert b == a + rest;
    EmptyJoin('/');
    if a != [] && rest != [] {
      JoinAppend(a, rest, '/');
      assert PathText(b) == PathText(a) + (['/'] + Join(rest, '/'));
    } else if rest == [] {
      assert a == b;
    }
  }

  lemma CoversOnlyBelow(a: Path, b: Path)
    requires IsPath(a) && IsPath(b) && Covers(PathText(a), PathText(b))
    ensures a <= b
  {
    hide Join, Split;
    var outer, inner := PathText(a), PathText(b);
    JoinNotEmpty(a);
    JoinNotEmpty(b);
    if outer == "/" {
      assert Join(a, '/') == outer[1..];
    } else if outer == inner {
      PathTextIsFaithful(a, b);
    } else {
      var rest := inner[|outer| + 1..];
      assert inner == outer + ['/'] + rest;
      assert Join(b, '/') == Join(a, '/') + ['/'] + rest by {
        assert inner[1..] == Join(b, '/') && outer[1..] == Join(a, '/');
      }
      SplitAt(Join(a, '/'), '/', rest);
      SplitJoinOn(b, '/');
      assert a != [];
      SplitJoinOn(a, '/');
      assert b == a + Split(rest, '/');
    }
  }

  /** For absolute roots, one text covers the other exactly when the path is an ancestor or the same. */
  lemma CoversIsContainment(a: Path, b: Path)
    requires IsPath(a) && IsPath(b)
    ensures Covers(PathText(a), PathText(b)) <==> Under(b, a)
  {
    if Under(b, a) { CoversBelow(a, b); }
    if Covers(PathText(a), PathText(b)) { CoversOnlyBelow(a, b); }
  }

  /** Some path is reachable through both. */
  ghost predicate Share(a: Path, b: Path) {
    exists x :: Under(x, a) && Under(x, b)
  }

  /** A row exposes the sync files exactly when it is another mount of the same device whose subtree
      has a path in common with ours. */
  lemma ExposureIsSharing(r: MountRow, ours: MountRow, a: Path, b: Path)
    requires IsPath(a) && IsPath(b) && r.root == PathText(a) && ours.root == PathText(b)
    ensures Exposes(r, ours) <==> r.point != ours.point && r.devno == ours.devno && Share(a, b)
  {
    hide Covers;
    CoversIsContainment(a, b);
    CoversIsContainment(b, a);
    SubtreesMeet(a, b);
  }

  /** Detection is sound and complete, and the answer is the one sorted list of such mount points. */
  lemma ExposuresAreExact(rows: seq<MountRow>, ours: MountRow, roots: seq<Path>, own: Path, out: seq<string>)
    requires |roots| == |rows| && IsPath(own) && ours.root == PathText(own)
    requires forall i :: 0 <= i < |rows| ==> IsPath(roots[i]) && rows[i].root == PathText(roots[i])
    requires forall p :: p in out <==> exists i :: 0 <= i < |rows| && rows[i].point == p && Exposes(rows[i], ours)
    ensures forall p :: p in out <==>
      p != ours.point && exists i :: 0 <= i < |rows| && rows[i].point == p && rows[i].devno == ours.devno && Share(roots[i], own)
    ensures out == [] <==>
      forall i :: 0 <= i < |rows| && rows[i].point != ours.point && rows[i].devno == ours.devno ==> !Share(roots[i], own)
  {
    hide Exposes, Share;
    forall i | 0 <= i < |rows|
      ensures Exposes(rows[i], ours) <==> rows[i].point != ours.point && rows[i].devno == ours.devno && Share(roots[i], own)
    {
      ExposureIsSharing(rows[i], ours, roots[i], own);
    }
    if out == [] {
      forall i | 0 <= i < |rows| ensures !Exposes(rows[i], ours) { assert rows[i].point !in out; }
    } else {
      assert out[0] in out;
    }
  }
}
