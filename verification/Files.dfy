/** The file system as the installer sees it, and the file operations of its actions. */
module Files {
  import opened Text
  import opened Paths

  datatype Node = File(text: string) | Link(target: Path) | Dir

  type FS = map<Path, Node>

  function Parent(p: Path): Path
    requires p != []
  {
    p[..|p| - 1]
  }

  /** Everything lies in a directory, up to the root. */
  ghost predicate WellFormed(fs: FS) {
    && [] in fs && fs[[]].Dir?
    && forall p :: p in fs && p != [] ==> Parent(p) in fs && fs[Parent(p)].Dir?
  }

  /** `exists()`: links are followed. */
  predicate Exists(fs: FS, p: Path) {
    p in fs && (fs[p].Link? ==> fs[p].target in fs && !fs[fs[p].target].Link?)
  }

  function ReadText(fs: FS, p: Path): Option<string> {
    if p !in fs then None
    else match fs[p]
      case File(text) => Some(text)
      case Link(target) => if target in fs && fs[target].File? then Some(fs[target].text) else None
      case Dir => None
  }

  function ReadLink(fs: FS, p: Path): Option<Path> {
    if p in fs && fs[p].Link? then Some(fs[p].target) else None
  }

  // ---- directories ----

  /** No ancestor (or the directory itself) is something else. */
  predicate CanMakeDirs(fs: FS, dir: Path) {
    forall k :: 0 <= k <= |dir| && dir[..k] in fs ==> fs[dir[..k]].Dir?
  }

  function Ancestors(dir: Path): set<Path> {
    set k | 0 <= k <= |dir| :: dir[..k]
  }

  /** The missing directories are made, and nothing else is touched. */
  function WithDirs(fs: FS, dir: Path): (r: FS)
    ensures forall p :: p in fs ==> p in r && r[p] == fs[p]
    ensures forall p :: p in r && p !in fs ==> r[p] == Dir && p <= dir
  {
    map p | p in fs.Keys + Ancestors(dir) :: if p in fs then fs[p] else Dir
  }

  lemma WithDirsHasAll(fs: FS, dir: Path)
    ensures forall k :: 0 <= k <= |dir| ==> dir[..k] in WithDirs(fs, dir)
    ensures CanMakeDirs(fs, dir) ==> forall k :: 0 <= k <= |dir| ==> WithDirs(fs, dir)[dir[..k]] == Dir
  {
    forall k | 0 <= k <= |dir| ensures dir[..k] in WithDirs(fs, dir) {
      assert dir[..k] in Ancestors(dir);
    }
  }

  /** In a well-formed file system, what is below an existing directory of the chain is all there is to check. */
  lemma ExistingAncestors(fs: FS, dir: Path, n: nat)
    requires WellFormed(fs) && n <= |dir| && dir[..n] in fs
    ensures forall k :: 0 <= k < n ==> dir[..k] in fs && fs[dir[..k]].Dir?
  {
    if n > 0 {
      assert Parent(dir[..n]) == dir[..n - 1];
      ExistingAncestors(fs, dir, n - 1);
    }
  }

  /** `create_dirs_owned`: up to the first directory that exists, then down again, one level at a time.
      `made` are the directories that were created and so get the owner; `first` is their outermost level. */
  method CreateDirs(fs: FS, dir: Path) returns (ok: bool, result: FS, made: seq<Path>, ghost first: nat)
    requires WellFormed(fs)
    ensures ok <==> CanMakeDirs(fs, dir) || dir in fs
    ensures ok ==> result == WithDirs(fs, dir)
    ensures CanMakeDirs(fs, dir) ==> forall k :: 0 <= k <= |dir| ==> dir[..k] in result && result[dir[..k]] == Dir
    // Exactly the missing ancestors, the outermost first; directories that were there keep their owner.
    ensures ok ==> first + |made| == |dir| + 1
    ensures ok ==> forall i :: 0 <= i < |made| ==> made[i] == dir[..first + i]
    ensures ok ==> forall k :: 0 <= k <= |dir| ==> (dir[..k] in fs <==> k < first)
  {
    hide WithDirs, CanMakeDirs;
    WithDirsHasAll(fs, dir);
    var cur := Climb(fs, dir);
    first := cur + 1;
    result, made := fs, [];
    ClimbedTo(fs, dir, cur);
    if cur == |dir| {
      assert dir[..|dir|] == dir;
      NothingMissing(fs, dir);
      return true, result, made, first;
    }
    if !fs[dir[..cur]].Dir? { return false, result, made, first; }
    result, made := MakeDown(fs, dir, cur);
    ok := true;
  }

  lemma ClimbedTo(fs: FS, dir: Path, cur: nat)
    requires WellFormed(fs) && cur <= |dir| && forall k :: 0 <= k <= |dir| ==> (dir[..k] in fs <==> k <= cur)
    ensures CanMakeDirs(fs, dir) <==> fs[dir[..cur]].Dir?
    ensures dir in fs <==> cur == |dir|
  {
    ExistingAncestors(fs, dir, cur);
    assert dir[..|dir|] == dir;
  }

  /** The way up, to the innermost directory that exists. */
  method Climb(fs: FS, dir: Path) returns (cur: nat)
    requires WellFormed(fs)
    ensures cur <= |dir| && forall k :: 0 <= k <= |dir| ==> (dir[..k] in fs <==> k <= cur)
  {
    cur := |dir|;
    assert dir[..0] == [];
    while dir[..cur] !in fs
      invariant 0 <= cur <= |dir|
      invariant forall k :: cur < k <= |dir| ==> dir[..k] !in fs
      decreases cur
    {
      cur := cur - 1;
    }
    ExistingAncestors(fs, dir, cur);
  }

  /** The way down: below an existing directory, one level at a time. */
  method MakeDown(fs: FS, dir: Path, cur: nat) returns (result: FS, made: seq<Path>)
    requires cur < |dir| && forall k :: 0 <= k <= |dir| ==> (dir[..k] in fs <==> k <= cur)
    ensures result == WithDirs(fs, dir)
    ensures |made| == |dir| - cur && forall i :: 0 <= i < |made| ==> made[i] == dir[..cur + 1 + i]
  {
    hide WithDirs;
    result, made := fs, [];
    NothingMissing(fs, dir[..cur]) by { PrefixesOf(dir, cur); }
    for next := cur + 1 to |dir| + 1
      invariant result == WithDirs(fs, dir[..next - 1])
      invariant |made| == next - cur - 1 && forall i :: 0 <= i < |made| ==> made[i] == dir[..cur + 1 + i]
    {
      OneMoreDir(fs, dir, next - 1);
      result := result[dir[..next] := Dir];
      made := made + [dir[..next]];
    }
    assert dir[..|dir|] == dir;
  }

  lemma PrefixesOf(dir: Path, n: nat)
    requires n <= |dir|
    ensures forall k :: 0 <= k <= n ==> dir[..n][..k] == dir[..k]
  {
  }

  lemma NothingMissing(fs: FS, dir: Path)
    requires forall k :: 0 <= k <= |dir| ==> dir[..k] in fs
    ensures WithDirs(fs, dir) == fs
  {
  }

  lemma OneMoreDir(fs: FS, dir: Path, n: nat)
    requires n < |dir| && dir[..n + 1] !in fs
    ensures WithDirs(fs, dir[..n + 1]) == WithDirs(fs, dir[..n])[dir[..n + 1] := Dir]
  {
    PrefixesOf(dir, n);
    PrefixesOf(dir, n + 1);
    assert Ancestors(dir[..n + 1]) == Ancestors(dir[..n]) + {dir[..n + 1]} by {
      assert forall k :: 0 <= k <= n + 1 ==> dir[..n + 1][..k] == if k <= n then dir[..n][..k] else dir[..n + 1];
    }
  }
}
