/** Which fault a failed listing reports. */
module CollectFaults {
  import opened Text
  import opened Paths
  import opened Collect

  /** Nothing in the folder gives occasion to this fault: every folder and entry can be read, or no visible name
      has a line break. */
  predicate Spares(fault: Fault, folder: Node)
    requires folder.Folder?
    decreases folder, 1
  {
    (fault == ReadFault ==> folder.opens) && SparesEntries(fault, folder.entries)
  }

  predicate SparesEntry(fault: Fault, e: Entry)
    decreases e, 2
  {
    if e.Unreadable? then fault != ReadFault else
      Internal(e.name) ||
      (&& (fault == ReadFault ==> !e.node.Untyped?)
       && (fault == LineBreak ==> '\n' !in e.name && '\r' !in e.name)
       && (e.node.Folder? ==> Spares(fault, e.node)))
  }

  predicate SparesEntries(fault: Fault, entries: seq<Entry>)
    decreases entries, 0
  {
    entries == [] || (SparesEntries(fault, entries[..|entries| - 1]) && SparesEntry(fault, entries[|entries| - 1]))
  }

  predicate SparesAll(fault: Fault, dirs: seq<Dir>)
    requires IsDirs(dirs)
  {
    forall i :: 0 <= i < |dirs| ==> Spares(fault, dirs[i].folder)
  }

  lemma SparedEntry(fault: Fault, e: Entry)
    requires fault != TooMany && SparesEntry(fault, e)
    ensures EntryFault(e) != Some(fault)
    ensures Visible(e) && e.node.Folder? ==> Spares(fault, e.node)
  {
    hide Internal, Spares;
    if e.Named? { BreaksExactly(e.name); }
  }

  lemma {:induction false} SparedFolder(fault: Fault, path: Path, n: nat, entries: seq<Entry>)
    requires fault != TooMany && SparesEntries(fault, entries)
    ensures FolderVerdict(path, n, entries) != Err(fault) && SparesAll(fault, Dirs(path, entries))
  {
    hide EntryFault, Visible, Spares, SparesEntry, Files;
    if entries != [] {
      var e := entries[|entries| - 1];
      SparedFolder(fault, path, n, entries[..|entries| - 1]);
      SparedEntry(fault, e);
    }
  }

  /** A fault is reported only for a tree that has the occasion for it. */
  lemma {:induction false} FaultHasAnOccasion(fault: Fault, n: nat, dirs: seq<Dir>)
    requires fault != TooMany && IsDirs(dirs) && SparesAll(fault, dirs)
    ensures Verdict(n, dirs) != Err(fault)
    decreases Pending(dirs)
  {
    hide FolderVerdict, Files, Dirs, Pending, SparesEntries;
    if dirs != [] {
      var d, rest := dirs[|dirs| - 1], dirs[..|dirs| - 1];
      var below := Dirs(d.path, d.folder.entries);
      PendingDrops(d, rest, dirs);
      assert Spares(fault, d.folder);
      SparedFolder(fault, d.path, n + |rest|, d.folder.entries);
      assert forall i :: 0 <= i < |rest| ==> rest[i] == dirs[i];
      assert SparesAll(fault, rest + below);
      FaultHasAnOccasion(fault, n + |Files(d.path, d.folder.entries)|, rest + below);
    }
  }
}
