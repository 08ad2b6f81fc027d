/** Listing the files of a selected folder: a worklist of folders, last in first out. */
module Collect {
  import opened Text
  import opened Paths
  import opened Sorting

  const MAX_ITEMS := 1_000_000

  /** What `file_type` says of an entry, and for a folder what `read_dir` yields. */
  datatype Node = File | Folder(opens: bool, entries: seq<Entry>) | Special | Untyped
  datatype Entry = Named(name: string, node: Node) | Unreadable

  datatype Fault = ReadFault | LineBreak | TooMany

  datatype Result = Ok | Err(fault: Fault)

  datatype Dir = Dir(path: Path, folder: Node)

  predicate Breaks(name: string) {
    !(Lacks(name, '\n') && Lacks(name, '\r'))
  }

  lemma BreaksExactly(name: string)
    ensures Breaks(name) <==> '\n' in name || '\r' in name
  {
  }

  predicate Visible(e: Entry) {
    e.Named? && !Internal(e.name)
  }

  predicate IsDirs(dirs: seq<Dir>) {
    forall i :: 0 <= i < |dirs| ==> dirs[i].folder.Folder?
  }

  // ---- what a folder holds ----

  function FileOf(path: Path, e: Entry): (r: seq<Path>)
    ensures |r| <= 1
  {
    if Visible(e) && e.node.File? then [path + [e.name]] else []
  }

  function DirOf(path: Path, e: Entry): (r: seq<Dir>)
    ensures |r| <= 1 && IsDirs(r)
  {
    if Visible(e) && e.node.Folder? then [Dir(path + [e.name], e.node)] else []
  }

  /** The visible files directly in a folder. */
  function Files(path: Path, entries: seq<Entry>): (r: seq<Path>)
    ensures |r| <= |entries|
  {
    if entries == [] then [] else
      var e := entries[|entries| - 1];
      Files(path, entries[..|entries| - 1]) + FileOf(path, e)
  }

  /** The visible folders directly in a folder. */
  function Dirs(path: Path, entries: seq<Entry>): (r: seq<Dir>)
    ensures IsDirs(r) && |r| <= |entries|
  {
    if entries == [] then [] else
      var e := entries[|entries| - 1];
      Dirs(path, entries[..|entries| - 1]) + DirOf(path, e)
  }

  /** All visible files of a tree, in the order the worklist meets them: a folder's own files,
      then its folders from the last to the first. */
  function Gather(path: Path, entries: seq<Entry>): seq<Path>
    decreases entries, 1
  {
    Files(path, entries) + GatherBelow(path, entries)
  }

  function GatherBelow(path: Path, entries: seq<Entry>): seq<Path>
    decreases entries, 0
  {
    if entries == [] then [] else
      var e := entries[|entries| - 1];
      GatherOf(path, e) + GatherBelow(path, entries[..|entries| - 1])
  }

  function GatherOf(path: Path, e: Entry): seq<Path>
    decreases e, 2
  {
    if Visible(e) && e.node.Folder? then Gather(path + [e.name], e.node.entries) else []
  }

  function GatherAll(dirs: seq<Dir>): seq<Path>
    requires IsDirs(dirs)
  {
    if dirs == [] then [] else
      var d := dirs[|dirs| - 1];
      Gather(d.path, d.folder.entries) + GatherAll(dirs[..|dirs| - 1])
  }

  /** Nothing in the tree makes the listing fail, leaving its size aside. */
  predicate Sound(folder: Node)
    requires folder.Folder?
    decreases folder, 1
  {
    folder.opens && SoundEntries(folder.entries)
  }

  predicate SoundEntry(e: Entry)
    decreases e, 2
  {
    e.Named? && (Internal(e.name) || (!Breaks(e.name) && !e.node.Untyped? && (e.node.Folder? ==> Sound(e.node))))
  }

  predicate SoundEntries(entries: seq<Entry>)
    decreases entries, 0
  {
    entries == [] || (SoundEntries(entries[..|entries| - 1]) && SoundEntry(entries[|entries| - 1]))
  }

  predicate SoundAll(dirs: seq<Dir>)
    requires IsDirs(dirs)
  {
    forall i :: 0 <= i < |dirs| ==> Sound(dirs[i].folder)
  }

  /** Visible files and folders, at every depth. */
  function Weight(entries: seq<Entry>): nat
    decreases entries, 0
  {
    if entries == [] then 0 else Weight(entries[..|entries| - 1]) + WeightOf(entries[|entries| - 1])
  }

  function WeightOf(e: Entry): nat
    decreases e, 1
  {
    if Visible(e) && e.node.File? then 1
    else if Visible(e) && e.node.Folder? then 1 + Weight(e.node.entries)
    else 0
  }

  /** Pending folders, themselves included. */
  function Pending(dirs: seq<Dir>): nat
    requires IsDirs(dirs)
  {
    if dirs == [] then 0 else
      var d := dirs[|dirs| - 1];
      1 + Weight(d.folder.entries) + Pending(dirs[..|dirs| - 1])
  }

  /** Visible folders, at every depth. */
  function Folders(entries: seq<Entry>): nat
    decreases entries, 0
  {
    if entries == [] then 0 else Folders(entries[..|entries| - 1]) + FoldersOf(entries[|entries| - 1])
  }

  function FoldersOf(e: Entry): nat
    decreases e, 1
  {
    if Visible(e) && e.node.Folder? then 1 + Folders(e.node.entries) else 0
  }

  /** The folders still to be read, and those in them. */
  function Unread(dirs: seq<Dir>): nat
    requires IsDirs(dirs)
  {
    if dirs == [] then 0 else
      var d := dirs[|dirs| - 1];
      1 + Folders(d.folder.entries) + Unread(dirs[..|dirs| - 1])
  }

  lemma {:induction false} UnreadBelow(path: Path, entries: seq<Entry>, rest: seq<Dir>)
    requires IsDirs(rest)
    ensures Unread(rest + Dirs(path, entries)) == Unread(rest) + Folders(entries)
  {
    hide Internal;
    if entries == [] {
      assert rest + [] == rest;
    } else {
      var front, e := entries[..|entries| - 1], entries[|entries| - 1];
      UnreadBelow(path, front, rest);
      var below := rest + Dirs(path, front);
      Assoc(rest, Dirs(path, front), DirOf(path, e));
      if Visible(e) && e.node.Folder? {
        assert (below + DirOf(path, e))[..|below|] == below;
      } else {
        assert below + [] == below;
      }
    }
  }

  /** A folder taken off the list and its folders put on it: one less to read. */
  lemma UnreadStep(d: Dir, rest: seq<Dir>, dirs: seq<Dir>)
    requires IsDirs(rest) && d.folder.Folder? && IsDirs(dirs) && dirs == rest + [d]
    ensures Unread(rest + Dirs(d.path, d.folder.entries)) + 1 == Unread(dirs)
  {
    assert dirs[..|dirs| - 1] == rest;
    UnreadBelow(d.path, d.folder.entries, rest);
  }

  // ---- one folder on the worklist ----

  /** Checks of one entry that can end the listing, in the order they are made. */
  function EntryFault(e: Entry): Option<Fault> {
    if e.Unreadable? then Some(ReadFault)
    else if Internal(e.name) then None
    else if Breaks(e.name) then Some(LineBreak)
    else if e.node.Untyped? then Some(ReadFault)
    else None
  }

  /** The directly visible failures of a folder. */
  ghost predicate Readable(entries: seq<Entry>) {
    forall i :: 0 <= i < |entries| ==> EntryFault(entries[i]).None?
  }

  lemma {:induction false} SoundHere(path: Path, entries: seq<Entry>)
    ensures SoundEntries(entries) <==> Readable(entries) && SoundAll(Dirs(path, entries))
  {
    if entries != [] {
      var front, e := entries[..|entries| - 1], entries[|entries| - 1];
      SoundHere(path, front);
      var ds := Dirs(path, front);
      assert Readable(entries) <==> Readable(front) && EntryFault(e).None?;
      hide Readable, SoundAll, Sound, Internal, Breaks;
      if Visible(e) && e.node.Folder? {
        SoundWith(ds, Dir(path + [e.name], e.node));
      } else {
        assert ds + [] == ds;
      }
    }
  }

  lemma SoundWith(ds: seq<Dir>, d: Dir)
    requires IsDirs(ds) && d.folder.Folder?
    ensures SoundAll(ds + [d]) <==> SoundAll(ds) && Sound(d.folder)
  {
    hide Sound;
    var all := ds + [d];
    assert all[|ds|] == d;
    assert forall i :: 0 <= i < |ds| ==> all[i] == ds[i];
  }

  lemma {:induction false} PendingAppend(a: seq<Dir>, b: seq<Dir>)
    requires IsDirs(a) && IsDirs(b)
    ensures Pending(a + b) == Pending(a) + Pending(b)
  {
    if b == [] {
      assert a + b == a;
    } else {
      assert (a + b)[..|a + b| - 1] == a + b[..|b| - 1];
      PendingAppend(a, b[..|b| - 1]);
    }
  }

  lemma EntryCounts(path: Path, e: Entry)
    ensures WeightOf(e) == |FileOf(path, e)| + Pending(DirOf(path, e))
  {
    hide Internal;
    if Visible(e) && e.node.Folder? {
      var d := Dir(path + [e.name], e.node);
      assert [d][..0] == [];
      assert Pending([d]) == 1 + Weight(e.node.entries) + Pending([]);
    }
  }

  lemma {:induction false} WeightSplits(path: Path, entries: seq<Entry>)
    ensures Weight(entries) == |Files(path, entries)| + Pending(Dirs(path, entries))
  {
    hide FileOf, DirOf, WeightOf;
    if entries != [] {
      var front, e := entries[..|entries| - 1], entries[|entries| - 1];
      WeightSplits(path, front);
      EntryCounts(path, e);
      PendingAppend(Dirs(path, front), DirOf(path, e));
    }
  }

  lemma GatherTop(dirs: seq<Dir>, path: Path, e: Entry)
    requires IsDirs(dirs)
    ensures GatherAll(dirs + DirOf(path, e)) == GatherOf(path, e) + GatherAll(dirs)
  {
    hide Gather, Internal;
    if Visible(e) && e.node.Folder? {
      var d := Dir(path + [e.name], e.node);
      assert (dirs + [d])[..|dirs|] == dirs;
      assert GatherAll(dirs + [d]) == Gather(d.path, d.folder.entries) + GatherAll(dirs);
    } else {
      assert dirs + [] == dirs && [] + GatherAll(dirs) == GatherAll(dirs);
    }
  }

  lemma {:induction false} GatherStep(rest: seq<Dir>, path: Path, entries: seq<Entry>)
    requires IsDirs(rest)
    ensures GatherAll(rest + Dirs(path, entries)) == GatherBelow(path, entries) + GatherAll(rest)
  {
    hide DirOf, GatherOf, GatherAll;
    if entries == [] {
      assert rest + [] == rest && [] + GatherAll(rest) == GatherAll(rest);
    } else {
      var front, e := entries[..|entries| - 1], entries[|entries| - 1];
      GatherStep(rest, path, front);
      GatherTop(rest + Dirs(path, front), path, e);
      Assoc(rest, Dirs(path, front), DirOf(path, e));
      Assoc(GatherOf(path, e), GatherBelow(path, front), GatherAll(rest));
    }
  }

  lemma StepHere(path: Path, entries: seq<Entry>, i: nat)
    ensures Files(path, []) == [] && Dirs(path, []) == []
    ensures i < |entries| ==> Files(path, entries[..i + 1]) == Files(path, entries[..i]) + FileOf(path, entries[i])
    ensures i < |entries| ==> Dirs(path, entries[..i + 1]) == Dirs(path, entries[..i]) + DirOf(path, entries[i])
  {
    if i < |entries| {
      assert entries[..i + 1][..i] == entries[..i];
    }
  }

  predicate HasVisible(entries: seq<Entry>) {
    exists i :: 0 <= i < |entries| && Visible(entries[i])
  }

  /** How reading a folder ends when `n` files and folders are on the lists already: every entry is checked
      in turn, and the lists are counted after each visible one. */
  function FolderVerdict(path: Path, n: nat, entries: seq<Entry>): Result {
    if entries == [] then Ok else
      var e := entries[|entries| - 1];
      var before := FolderVerdict(path, n, entries[..|entries| - 1]);
      if before.Err? then before
      else if EntryFault(e).Some? then Err(EntryFault(e).value)
      else if Visible(e) && n + |Files(path, entries)| + |Dirs(path, entries)| > MAX_ITEMS then Err(TooMany)
      else Ok
  }

  /** The largest count in a folder is the last one. */
  function FolderPeak(path: Path, n: nat, entries: seq<Entry>): nat {
    if HasVisible(entries) then n + |Files(path, entries)| + |Dirs(path, entries)| else 0
  }

  lemma {:induction false} FolderVerdictExactly(path: Path, n: nat, entries: seq<Entry>)
    ensures FolderVerdict(path, n, entries).Ok? <==> Readable(entries) && FolderPeak(path, n, entries) <= MAX_ITEMS
    ensures FolderVerdict(path, n, entries) == Err(TooMany) ==> FolderPeak(path, n, entries) > MAX_ITEMS
  {
    hide Visible, EntryFault, Files, Dirs;
    if entries != [] {
      var front, e := entries[..|entries| - 1], entries[|entries| - 1];
      FolderVerdictExactly(path, n, front);
      CountsGrow(path, entries, |front|);
      if !Visible(e) { NothingHereUnlessVisible(path, entries); }
      assert Readable(entries) <==> Readable(front) && EntryFault(e).None?;
      assert HasVisible(entries) <==> HasVisible(front) || Visible(e);
      assert EntryFault(e) != Some(TooMany) by { FaultsOfEntry(e); }
    }
  }

  lemma FaultsOfEntry(e: Entry)
    ensures EntryFault(e) != Some(TooMany)
  {
  }

  lemma NothingHereUnlessVisible(path: Path, entries: seq<Entry>)
    requires entries != [] && !Visible(entries[|entries| - 1])
    ensures Files(path, entries) == Files(path, entries[..|entries| - 1])
    ensures Dirs(path, entries) == Dirs(path, entries[..|entries| - 1])
  {
  }

  lemma {:induction false} FolderVerdictIsFinal(path: Path, n: nat, entries: seq<Entry>, k: nat)
    requires k <= |entries| && FolderVerdict(path, n, entries[..k]).Err?
    ensures FolderVerdict(path, n, entries) == FolderVerdict(path, n, entries[..k])
    decreases |entries|
  {
    if k < |entries| {
      assert entries[..|entries| - 1][..k] == entries[..k];
      FolderVerdictIsFinal(path, n, entries[..|entries| - 1], k);
    } else {
      assert entries[..k] == entries;
    }
  }

  lemma NothingFails(path: Path, n: nat)
    ensures FolderVerdict(path, n, []) == Ok
  {
  }

  lemma FolderVerdictStep(path: Path, n: nat, entries: seq<Entry>, i: nat)
    requires i < |entries|
    ensures var before, here := FolderVerdict(path, n, entries[..i]), entries[..i + 1];
      FolderVerdict(path, n, here) ==
        if before.Err? then before
        else if EntryFault(entries[i]).Some? then Err(EntryFault(entries[i]).value)
        else if Visible(entries[i]) && n + |Files(path, here)| + |Dirs(path, here)| > MAX_ITEMS then Err(TooMany)
        else Ok
    ensures FolderVerdict(path, n, entries[..i + 1]).Err? ==>
      FolderVerdict(path, n, entries) == FolderVerdict(path, n, entries[..i + 1])
  {
    hide EntryFault, Visible, Files, Dirs;
    assert entries[..i + 1][..i] == entries[..i];
    if FolderVerdict(path, n, entries[..i + 1]).Err? { FolderVerdictIsFinal(path, n, entries, i + 1); }
  }

  /** The inner loop: one opened folder. */
  method ReadFolder(path: Path, entries: seq<Entry>, files0: seq<Path>, dirs0: seq<Dir>)
    returns (result: Result, files: seq<Path>, dirs: seq<Dir>)
    requires IsDirs(dirs0)
    ensures files0 <= files
    ensures result == FolderVerdict(path, |files0| + |dirs0|, entries)
    ensures result.Ok? <==> Readable(entries) && FolderPeak(path, |files0| + |dirs0|, entries) <= MAX_ITEMS
    ensures result.Ok? ==> files == files0 + Files(path, entries) && dirs == dirs0 + Dirs(path, entries)
  {
    hide Internal, Breaks, Files, Dirs, FolderPeak, Readable, FolderVerdict;
    FolderVerdictExactly(path, |files0| + |dirs0|, entries);
    assert FolderVerdict(path, |files0| + |dirs0|, entries[..0]) == Ok by { NothingFails(path, |files0| + |dirs0|); }
    assert Files(path, []) == [] && Dirs(path, []) == [] by { StepHere(path, [], 0); }
    result, files, dirs := Ok, files0, dirs0;
    for i := 0 to |entries|
      invariant files == files0 + Files(path, entries[..i]) && dirs == dirs0 + Dirs(path, entries[..i])
      invariant FolderVerdict(path, |files0| + |dirs0|, entries[..i]).Ok?
    {
      var e := entries[i];
      StepHere(path, entries, i);
      FolderVerdictStep(path, |files0| + |dirs0|, entries, i);
      Assoc(files0, Files(path, entries[..i]), FileOf(path, e));
      Assoc(dirs0, Dirs(path, entries[..i]), DirOf(path, e));
      if e.Unreadable? { return Err(ReadFault), files, dirs; }
      if Internal(e.name) {
        continue;
      }
      if Breaks(e.name) { return Err(LineBreak), files, dirs; }
      if e.node.Untyped? { return Err(ReadFault), files, dirs; }
      if e.node.Folder? {
        dirs := dirs + [Dir(path + [e.name], e.node)];
      } else if e.node.File? {
        files := files + [path + [e.name]];
      }
      if |files| + |dirs| > MAX_ITEMS { return Err(TooMany), files, dirs; }
    }
    assert entries[..|entries|] == entries;
  }

  lemma {:induction false} CountsGrow(path: Path, entries: seq<Entry>, n: nat)
    requires n <= |entries|
    ensures |Files(path, entries[..n])| <= |Files(path, entries)|
    ensures |Dirs(path, entries[..n])| <= |Dirs(path, entries)|
    decreases |entries|
  {
    if n < |entries| {
      assert entries[..|entries| - 1][..n] == entries[..n];
      CountsGrow(path, entries[..|entries| - 1], n);
    } else {
      assert entries[..n] == entries;
    }
  }

  // ---- the whole listing ----

  /** How the whole listing ends, the folder on top of the worklist first, with `n` files listed already. */
  function Verdict(n: nat, dirs: seq<Dir>): Result
    requires IsDirs(dirs)
    decreases Pending(dirs)
  {
    if dirs == [] then Ok else
      var d, rest := dirs[|dirs| - 1], dirs[..|dirs| - 1];
      var here := FolderVerdict(d.path, n + |rest|, d.folder.entries);
      if !d.folder.opens then Err(ReadFault)
      else if here.Err? then here
      else
        PendingDrops(d, rest, dirs);
        Verdict(n + |Files(d.path, d.folder.entries)|, rest + Dirs(d.path, d.folder.entries))
  }

  /** The largest number of files and pending folders that any check of the listing sees. */
  function Peak(n: nat, dirs: seq<Dir>): nat
    requires IsDirs(dirs)
    decreases Pending(dirs)
  {
    if dirs == [] then 0 else
      var d, rest := dirs[|dirs| - 1], dirs[..|dirs| - 1];
      PendingDrops(d, rest, dirs);
      Max(FolderPeak(d.path, n + |rest|, d.folder.entries),
          Peak(n + |Files(d.path, d.folder.entries)|, rest + Dirs(d.path, d.folder.entries)))
  }

  function Max(a: nat, b: nat): nat {
    if a < b then b else a
  }

  lemma PendingDrops(d: Dir, rest: seq<Dir>, dirs: seq<Dir>)
    requires IsDirs(rest) && d.folder.Folder? && IsDirs(dirs) && dirs == rest + [d]
    ensures |Files(d.path, d.folder.entries)| + Pending(rest + Dirs(d.path, d.folder.entries)) + 1 == Pending(dirs)
  {
    assert dirs[..|dirs| - 1] == rest;
    WeightSplits(d.path, d.folder.entries);
    PendingAppend(rest, Dirs(d.path, d.folder.entries));
  }

  /** The listing succeeds exactly for a sound tree whose largest count is within the limit. The limit is the
      reason of a failure only when it is passed, and for a sound tree exactly then. */
  lemma {:induction false} VerdictExactly(n: nat, dirs: seq<Dir>)
    requires IsDirs(dirs)
    ensures Verdict(n, dirs).Ok? <==> SoundAll(dirs) && Peak(n, dirs) <= MAX_ITEMS
    ensures Verdict(n, dirs) == Err(TooMany) ==> Peak(n, dirs) > MAX_ITEMS
    ensures SoundAll(dirs) ==> (Verdict(n, dirs) == Err(TooMany) <==> Peak(n, dirs) > MAX_ITEMS)
    decreases Pending(dirs)
  {
    hide FolderVerdict, FolderPeak, Readable, Files, Dirs, SoundAll, Pending;
    if dirs == [] {
      NothingUnsound();
    } else {
      var d, rest := dirs[|dirs| - 1], dirs[..|dirs| - 1];
      var entries := d.folder.entries;
      PendingDrops(d, rest, dirs);
      TopIsSound(d, rest, dirs);
      FolderVerdictExactly(d.path, n + |rest|, entries);
      VerdictExactly(n + |Files(d.path, entries)|, rest + Dirs(d.path, entries));
      FolderVerdictTooMany(d.path, n + |rest|, entries);
    }
  }

  lemma NothingUnsound()
    ensures SoundAll([])
  {
  }

  lemma FolderVerdictTooMany(path: Path, n: nat, entries: seq<Entry>)
    ensures Readable(entries) && FolderVerdict(path, n, entries).Err? ==> FolderVerdict(path, n, entries) == Err(TooMany)
  {
    if entries != [] {
      var front := entries[..|entries| - 1];
      assert Readable(entries) ==> Readable(front);
      FolderVerdictTooMany(path, n, front);
    }
  }

  /** `collect`. `cancel(k)` is what the k-th read of the cancel flag sees. */
  method CollectFiles(path: Path, folder: Node, files0: seq<Path>, cancel: nat -> bool)
    returns (result: Result, cancelled: bool, files: seq<Path>)
    requires folder.Folder?
    ensures result.Ok? && !cancelled ==> files == files0 + Gather(path, folder.entries)
    // What ends it: a fault of the tree, or more files and pending folders than the limit at some point.
    ensures !cancelled ==> result == Verdict(|files0|, [Dir(path, folder)])
    ensures !cancelled ==> (result.Ok? <==> Sound(folder) && Peak(|files0|, [Dir(path, folder)]) <= 1_000_000)
    ensures Sound(folder) && !cancelled ==> (result == Err(TooMany) <==> Peak(|files0|, [Dir(path, folder)]) > 1_000_000)
    ensures Sound(folder) && |files0| + Weight(folder.entries) <= 1_000_000 ==> result.Ok?
    // The flag is read before each folder, and the first read that sees it is the last thing done.
    ensures cancelled ==> result.Ok? && exists k :: 0 <= k <= Folders(folder.entries) && cancel(k)
    ensures result.Ok? && !cancelled ==> forall k :: 0 <= k <= Folders(folder.entries) ==> !cancel(k)
    ensures cancel(0) ==> cancelled && files == files0
    ensures files0 <= files && (result.Ok? ==> files == files0 || |files| <= 1_000_000)
  {
    hide Gather, GatherAll, Sound, SoundAll, Weight, Pending, Dirs, Files, Verdict, Peak, FolderVerdict, FolderPeak, Readable;
    hide Unread, Folders;
    files, cancelled := files0, false;
    var dirs := [Dir(path, folder)];
    var loads := 0;
    StartsWithRoot(path, folder);
    VerdictExactly(|files0|, dirs);
    while dirs != []
      invariant IsDirs(dirs)
      invariant files + GatherAll(dirs) == files0 + Gather(path, folder.entries)
      invariant Verdict(|files|, dirs) == Verdict(|files0|, [Dir(path, folder)])
      invariant SoundAll(dirs) <==> Sound(folder)
      invariant loads + Unread(dirs) == 1 + Folders(folder.entries)
      invariant forall k :: 0 <= k < loads ==> !cancel(k)
      invariant loads == 0 ==> files == files0 && dirs != []
      invariant |files| + Pending(dirs) <= |files0| + 1 + Weight(folder.entries)
      invariant files0 <= files
      invariant files == files0 || |files| <= MAX_ITEMS
      decreases Pending(dirs)
    {
      var d, rest := dirs[|dirs| - 1], dirs[..|dirs| - 1];
      UnreadStep(d, rest, dirs);
      var sees := cancel(loads);
      loads := loads + 1;
      if sees { return Ok, true, files; }
      FolderOnTop(d, rest, dirs, files);
      VerdictStep(|files|, d, rest, dirs);
      if !d.folder.opens { return Err(ReadFault), false, files; }
      CountsBelow(d.path, d.folder.entries, |files| + |rest|);
      PendingCounts(rest);
      PendingCounts(Dirs(d.path, d.folder.entries));
      result, files, dirs := ReadFolder(d.path, d.folder.entries, files, rest);
      if result.Err? { return result, false, files; }
    }
    result := Ok;
    NothingLeft(|files|);
    assert files + [] == files;
  }

  lemma VerdictStep(n: nat, d: Dir, rest: seq<Dir>, dirs: seq<Dir>)
    requires IsDirs(rest) && d.folder.Folder? && IsDirs(dirs) && dirs == rest + [d]
    ensures var here := FolderVerdict(d.path, n + |rest|, d.folder.entries);
      Verdict(n, dirs) ==
        if !d.folder.opens then Err(ReadFault) else if here.Err? then here
        else Verdict(n + |Files(d.path, d.folder.entries)|, rest + Dirs(d.path, d.folder.entries))
  {
    hide FolderVerdict, Files, Dirs;
    assert dirs[..|dirs| - 1] == rest;
  }

  lemma NothingLeft(n: nat)
    ensures Verdict(n, []) == Ok && GatherAll([]) == [] && Unread([]) == 0
  {
  }

  lemma CountsBelow(path: Path, entries: seq<Entry>, n: nat)
    ensures FolderPeak(path, n, entries) <= n + |Files(path, entries)| + |Dirs(path, entries)|
    ensures Files(path, entries) != [] ==> FolderPeak(path, n, entries) == n + |Files(path, entries)| + |Dirs(path, entries)|
  {
    hide Visible;
    NoFilesWithoutVisible(path, entries);
  }

  lemma StartsWithRoot(path: Path, folder: Node)
    requires folder.Folder?
    ensures GatherAll([Dir(path, folder)]) == Gather(path, folder.entries)
    ensures SoundAll([Dir(path, folder)]) <==> Sound(folder)
    ensures Pending([Dir(path, folder)]) == 1 + Weight(folder.entries)
    ensures Unread([Dir(path, folder)]) == 1 + Folders(folder.entries)
  {
    hide Gather, Sound, Weight, Folders;
    var one := [Dir(path, folder)];
    assert one[..0] == [];
    assert one[0].folder == folder;
    assert Gather(path, folder.entries) + [] == Gather(path, folder.entries);
    assert GatherAll([]) == [] && Unread([]) == 0;
  }

  lemma {:induction false} PendingCounts(dirs: seq<Dir>)
    requires IsDirs(dirs)
    ensures |dirs| <= Pending(dirs)
  {
    if dirs != [] { PendingCounts(dirs[..|dirs| - 1]); }
  }

  lemma {:induction false} NoFilesWithoutVisible(path: Path, entries: seq<Entry>)
    ensures (forall i :: 0 <= i < |entries| ==> !Visible(entries[i])) ==> Files(path, entries) == []
  {
    hide Visible;
    if entries != [] { NoFilesWithoutVisible(path, entries[..|entries| - 1]); }
  }

  /** Replacing the popped folder by what it holds keeps everything the loop promises. */
  lemma FolderOnTop(d: Dir, rest: seq<Dir>, dirs: seq<Dir>, files: seq<Path>)
    requires IsDirs(rest) && d.folder.Folder? && IsDirs(dirs) && dirs == rest + [d]
    ensures (files + Files(d.path, d.folder.entries)) + GatherAll(rest + Dirs(d.path, d.folder.entries))
      == files + GatherAll(dirs)
    ensures SoundAll(dirs) <==>
      d.folder.opens && Readable(d.folder.entries) && SoundAll(rest + Dirs(d.path, d.folder.entries))
    ensures |Files(d.path, d.folder.entries)| + Pending(rest + Dirs(d.path, d.folder.entries)) + 1 == Pending(dirs)
    ensures Pending(rest) + |Files(d.path, d.folder.entries)| + Pending(Dirs(d.path, d.folder.entries)) + 1 == Pending(dirs)
  {
    var entries := d.folder.entries;
    var below := Dirs(d.path, entries);
    assert dirs[..|dirs| - 1] == rest;
    TopGathers(d, rest, dirs, files);
    TopIsSound(d, rest, dirs);
    WeightSplits(d.path, entries);
    PendingAppend(rest, below);
  }

  lemma TopIsSound(d: Dir, rest: seq<Dir>, dirs: seq<Dir>)
    requires IsDirs(rest) && d.folder.Folder? && IsDirs(dirs) && dirs == rest + [d]
    ensures SoundAll(dirs) <==>
      d.folder.opens && Readable(d.folder.entries) && SoundAll(rest + Dirs(d.path, d.folder.entries))
  {
    hide Readable, SoundEntries, Dirs;
    var below := Dirs(d.path, d.folder.entries);
    SoundHere(d.path, d.folder.entries);
    assert SoundAll(dirs) <==> SoundAll(rest) && Sound(d.folder) by {
      assert dirs[|rest|] == d && forall i :: 0 <= i < |rest| ==> dirs[i] == rest[i];
    }
    assert SoundAll(rest + below) <==> SoundAll(rest) && SoundAll(below) by {
      assert forall i :: 0 <= i < |rest| ==> (rest + below)[i] == rest[i];
      assert forall i :: 0 <= i < |below| ==> (rest + below)[|rest| + i] == below[i];
    }
  }

  lemma TopGathers(d: Dir, rest: seq<Dir>, dirs: seq<Dir>, files: seq<Path>)
    requires IsDirs(rest) && d.folder.Folder? && IsDirs(dirs) && dirs == rest + [d]
    ensures (files + Files(d.path, d.folder.entries)) + GatherAll(rest + Dirs(d.path, d.folder.entries))
      == files + GatherAll(dirs)
  {
    hide Files, Dirs, GatherBelow;
    var entries := d.folder.entries;
    assert dirs[..|dirs| - 1] == rest;
    GatherStep(rest, d.path, entries);
    assert GatherAll(dirs) == Gather(d.path, entries) + GatherAll(rest);
    Assoc(Files(d.path, entries), GatherBelow(d.path, entries), GatherAll(rest));
    Assoc(files, Files(d.path, entries), GatherBelow(d.path, entries) + GatherAll(rest));
  }

  // ---- what the listing means ----

  /** A regular file at `names` below a folder, through visible names only. */
  predicate Holds(entries: seq<Entry>, names: Path)
    decreases |names|
  {
    names != [] && exists i :: 0 <= i < |entries| && Leads(entries[i], names)
  }

  predicate Leads(e: Entry, names: Path)
    requires names != []
    decreases |names|, 0
  {
    Visible(e) && e.name == names[0]
    && if |names| == 1 then e.node.File? else e.node.Folder? && Holds(e.node.entries, names[1..])
  }

  /** A directory never lists a name twice. */
  predicate UniqueNames(entries: seq<Entry>)
    decreases entries
  {
    && (forall i, j :: 0 <= i < j < |entries| && entries[i].Named? && entries[j].Named? ==> entries[i].name != entries[j].name)
    && (forall i :: 0 <= i < |entries| && entries[i].Named? && entries[i].node.Folder? ==> UniqueNames(entries[i].node.entries))
  }
  lemma {:induction false} InFiles(path: Path, entries: seq<Entry>, x: Path)
    ensures x in Files(path, entries) <==> exists i :: 0 <= i < |entries| && x in FileOf(path, entries[i])
  {
    hide FileOf;
    if entries != [] {
      var front := entries[..|entries| - 1];
      InFiles(path, front, x);
      assert forall i :: 0 <= i < |front| ==> front[i] == entries[i];
    }
  }

  lemma {:induction false} InBelow(path: Path, entries: seq<Entry>, x: Path)
    ensures x in GatherBelow(path, entries) <==> exists i :: 0 <= i < |entries| && x in GatherOf(path, entries[i])
  {
    hide GatherOf;
    if entries != [] {
      var front := entries[..|entries| - 1];
      InBelow(path, front, x);
      assert forall i :: 0 <= i < |front| ==> front[i] == entries[i];
    }
  }

  predicate Extends(x: Path, path: Path) {
    |path| < |x| && path <= x
  }

  /** The listing holds exactly the regular files reachable through visible names. */
  lemma {:induction false} GatherIsExact(path: Path, entries: seq<Entry>, x: Path)
    ensures x in Gather(path, entries) <==> Extends(x, path) && Holds(entries, x[|path|..])
    decreases entries, 1
  {
    hide FileOf, GatherOf, Leads;
    InFiles(path, entries, x);
    InBelow(path, entries, x);
    forall i | 0 <= i < |entries|
      ensures x in FileOf(path, entries[i]) || x in GatherOf(path, entries[i])
        <==> Extends(x, path) && Leads(entries[i], x[|path|..])
    {
      EntryIsExact(path, entries[i], x);
    }
  }

  lemma {:induction false} EntryIsExact(path: Path, e: Entry, x: Path)
    ensures x in FileOf(path, e) || x in GatherOf(path, e) <==> Extends(x, path) && Leads(e, x[|path|..])
    decreases e, 2
  {
    hide Gather, Internal;
    if Visible(e) {
      var here := path + [e.name];
      assert Extends(x, path) && x[|path|..][0] == e.name <==> here <= x;
      if e.node.Folder? {
        GatherIsExact(here, e.node.entries, x);
        assert Extends(x, here) ==> x[|path|..][1..] == x[|here|..];
      } else if here <= x && |x| == |here| {
        assert x == here;
      }
    }
  }

  lemma DistinctAppend<T>(a: seq<T>, b: seq<T>)
    requires Distinct(a) && Distinct(b)
    requires forall x :: x in a ==> x !in b
    ensures Distinct(a + b)
  {
    forall i, j | 0 <= i < j < |a + b| ensures (a + b)[i] != (a + b)[j] {
      if i < |a| <= j { assert (a + b)[i] in a && (a + b)[j] in b; }
    }
  }

  /** No file is listed twice. */
  lemma {:induction false} GatherIsDistinct(path: Path, entries: seq<Entry>)
    requires UniqueNames(entries)
    ensures Distinct(Gather(path, entries))
    decreases entries, 1
  {
    hide Files, GatherBelow;
    PartsAreDistinct(path, entries);
    forall x | x in Files(path, entries) ensures x !in GatherBelow(path, entries) {
      FilesAreHere(path, entries, x);
      BelowIsDeeper(path, entries, x);
    }
    DistinctAppend(Files(path, entries), GatherBelow(path, entries));
  }

  lemma FilesAreHere(path: Path, entries: seq<Entry>, x: Path)
    requires x in Files(path, entries)
    ensures |x| == |path| + 1
  {
    InFiles(path, entries, x);
  }

  lemma BelowIsDeeper(path: Path, entries: seq<Entry>, x: Path)
    ensures x in GatherBelow(path, entries) ==> |x| > |path| + 1
  {
    hide Gather;
    InBelow(path, entries, x);
    forall i | 0 <= i < |entries| && x in GatherOf(path, entries[i]) ensures |x| > |path| + 1 {
      GatherIsExact(path + [entries[i].name], entries[i].node.entries, x);
    }
  }

  lemma NamedAlike(path: Path, e: Entry, x: Path)
    requires x in FileOf(path, e) || x in GatherOf(path, e)
    ensures Extends(x, path) && Visible(e) && x[|path|] == e.name
  {
    EntryIsExact(path, e, x);
  }

  lemma {:induction false} PartsAreDistinct(path: Path, entries: seq<Entry>)
    requires UniqueNames(entries)
    ensures Distinct(Files(path, entries)) && Distinct(GatherBelow(path, entries))
    decreases entries, 0
  {
    if entries != [] {
      var front, e := entries[..|entries| - 1], entries[|entries| - 1];
      assert forall i :: 0 <= i < |front| ==> front[i] == entries[i];
      PartsAreDistinct(path, front);
      assert Distinct(GatherOf(path, e)) by {
        if Visible(e) && e.node.Folder? { GatherIsDistinct(path + [e.name], e.node.entries); }
      }
      LastIsNew(path, front, e);
      DistinctAppend(Files(path, front), FileOf(path, e));
      DistinctAppend(GatherOf(path, e), GatherBelow(path, front));
    }
  }

  lemma LastIsNew(path: Path, front: seq<Entry>, e: Entry)
    requires forall i :: 0 <= i < |front| && front[i].Named? && e.Named? ==> front[i].name != e.name
    ensures forall x :: x in Files(path, front) ==> x !in FileOf(path, e)
    ensures forall x :: x in GatherOf(path, e) ==> x !in GatherBelow(path, front)
  {
    hide FileOf, GatherOf;
    forall x | x in Files(path, front) ensures x !in FileOf(path, e) {
      InFiles(path, front, x);
      var i :| 0 <= i < |front| && x in FileOf(path, front[i]);
      NamedAlike(path, front[i], x);
      if x in FileOf(path, e) { NamedAlike(path, e, x); }
    }
    forall x | x in GatherOf(path, e) ensures x !in GatherBelow(path, front) {
      NamedAlike(path, e, x);
      InBelow(path, front, x);
      forall i | 0 <= i < |front| ensures x !in GatherOf(path, front[i]) {
        if x in GatherOf(path, front[i]) { NamedAlike(path, front[i], x); }
      }
    }
  }
}
