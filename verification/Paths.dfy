/** Paths as lists of components, and their text. */
module Paths {
  import opened Text

  type Path = seq<string>

  /** Components as the kernel has them. */
  predicate IsPath(p: Path) {
    forall i :: 0 <= i < |p| ==> p[i] != "" && Lacks(p[i], '/')
  }

  /** Names the sync framework keeps for itself. */
  predicate Internal(name: string) {
    StartsWith(name, ".hydration-") || StartsWith(name, ".onedrive-")
  }

  /** They are the names with one of the two prefixes, whatever follows. */
  lemma InternalExactly(name: string)
    ensures Internal(name) <==> exists rest :: name == ".hydration-" + rest || name == ".onedrive-" + rest
  {
    if StartsWith(name, ".hydration-") { assert name == ".hydration-" + name[11..]; }
    if StartsWith(name, ".onedrive-") { assert name == ".onedrive-" + name[10..]; }
  }

  /** An absolute path as text. */
  function PathText(p: Path): string {
    "/" + Join(p, '/')
  }

  /** `Path::starts_with`: whole components, so `a/bc` does not start with `a/b`. */
  predicate Under(path: Path, parent: Path) {
    parent <= path
  }

  /** Two subtrees share a path exactly when one root contains the other. */
  lemma SubtreesMeet(a: Path, b: Path)
    ensures (exists x :: Under(x, a) && Under(x, b)) <==> Under(a, b) || Under(b, a)
  {
    if Under(a, b) { assert Under(a, a); }
    if Under(b, a) { assert Under(b, b); }
    if x :| Under(x, a) && Under(x, b) {
      assert a == x[..|a|] && b == x[..|b|];
      assert Under(a, b) || Under(b, a) by {
        if |a| <= |b| { assert b[..|a|] == a; } else { assert a[..|b|] == b; }
      }
    }
  }

  lemma {:induction false} JoinAppend(a: seq<string>, b: seq<string>, sep: char)
    requires a != [] && b != []
    ensures Join(a + b, sep) == Join(a, sep) + [sep] + Join(b, sep)
  {
    if |a| == 1 {
      assert (a + b)[1..] == b;
    } else {
      assert (a + b)[1..] == a[1..] + b;
      JoinAppend(a[1..], b, sep);
      assert a[0] + [sep] + (Join(a[1..], sep) + [sep] + Join(b, sep)) == a[0] + [sep] + Join(a[1..], sep) + [sep] + Join(b, sep);
    }
  }

  lemma EmptyJoin(sep: char)
    ensures Join([], sep) == ""
  {
  }

  /** Different paths have different texts. */
  lemma PathTextIsFaithful(a: Path, b: Path)
    requires IsPath(a) && IsPath(b) && PathText(a) == PathText(b)
    ensures a == b
  {
    assert Join(a, '/') == PathText(a)[1..] && Join(b, '/') == PathText(b)[1..];
    JoinIsFaithful(a, b);
  }

  lemma JoinIsFaithful(a: Path, b: Path)
    requires IsPath(a) && IsPath(b) && Join(a, '/') == Join(b, '/')
    ensures a == b
  {
    JoinNotEmpty(a);
    JoinNotEmpty(b);
    if a != [] && b != [] {
      SplitJoinOn(a, '/');
      SplitJoinOn(b, '/');
    }
  }

  lemma JoinNotEmpty(p: Path)
    requires IsPath(p)
    ensures Join(p, '/') == "" <==> p == []
  {
  }
}
