/** The bounded breadth-first scan behind a folder's check mark, against the whole tree. */
module FolderBadge {
  import opened FolderScan
  import opened FolderOrder

  const NOTHING := Flags(0, false, false, true)

  /** The loop's invariant: what the flags say of the tree and of the entries met. */
  ghost predicate Scanned(met: seq<Entry>, items: seq<Item>, f: Flags, root: Node)
    requires root.Folder?
  {
    && Folders(items) && Told(items, f, root) && LastInView(items, f, root)
    && InOrder(met, f, items, root) && f.checked <= MAX_ENTRIES + 1
  }

  /** `probeDirectory`. */
  method ProbeDirectory(root: Node) returns (state: ContentState, checked: nat)
    requires root.Folder?
    ensures checked <= 129
    // A check mark holds of the whole tree, which is then small.
    ensures state == Clean ==> CleanTree(root) && Size(root) <= 128 && Fits(root, 3)
    // Every other definite answer has a file that shows it.
    ensures state in {CloudOnly, Changed, Attention} ==> Has(root, state)
    // A small tree is judged exactly.
    ensures Size(root) < 128 && Fits(root, 3) ==> Exact(root, state)
    ensures Size(root) == 128 && Fits(root, 3) ==> ExactAtLimit(root, state)
    // And any tree by the entries in reach: the first file that differs decides, then a file that is not here.
    ensures state in {Changed, Attention} ==> FirstIn(InReach(root), state)
    ensures state !in {Changed, Attention} ==> NoneIn(InReach(root), Changed) && NoneIn(InReach(root), Attention)
    ensures state !in {Changed, Attention} ==> (state == CloudOnly <==> !NoneIn(InReach(root), CloudOnly))
    ensures state != Unsupported
  {
    hide Scanned, Correct, Subs, NoneIn, NoDoubt, NoneTooDeep, Folders, Size, Fits, Has, CleanTree;
    hide InReach, FirstIn, Exact, ExactAtLimit;
    var queue, head, flags := [Item(root, 0)], 0, NOTHING;
    ghost var met, stopped := [], false;
    Begin(root);
    assert queue[0..] == queue;
    while head < |queue|
      invariant head <= |queue| <= flags.checked + 1
      invariant flags.checked <= MAX_ENTRIES + 1
      invariant Scanned(met, queue[head..], flags, root)
      invariant !stopped
      decreases MAX_ENTRIES + 2 - head
    {
      var item := queue[head];
      ghost var rest := queue[head + 1..];
      assert queue[head..] == [item] + rest;
      Front(met, item, rest, flags, root);
      if flags.checked >= MAX_ENTRIES {
        Stop(met, [item] + rest, flags, root);
        flags := flags.(complete := false);
        stopped := true;
        break;
      }
      ghost var before := flags;
      if !item.folder.identified { flags := flags.(unknown := true); }
      if !item.folder.opens {
        Shut(met, item, rest, before, root);
        flags := flags.(unknown := true);
        head := head + 1;
        continue;
      }
      var early, after, subs, seen := ReadFolder(item.folder.entries, item.depth, flags);
      flags := after;
      if early.Some? {
        Early(met, item, rest, before, root, seen, early.value);
        CorrectMeans(root, early.value);
        return early.value, flags.checked;
      }
      if flags.checked <= MAX_ENTRIES && item.folder.readFails { flags := flags.(unknown := true); }
      assert Read(item, before, seen, flags) by { ReadAll(item.folder.entries); }
      Advance(met, item, rest, before, root, seen, flags);
      met := met + item.folder.entries[..seen];
      queue := queue + subs;
      head := head + 1;
      assert queue[head..] == rest + subs;
    }
    checked := flags.checked;
    if !stopped {
      assert queue[head..] == [];
      Done(met, flags, root);
    }
    CorrectMeans(root, Answer(flags));
    if flags.cloud { return CloudOnly, checked; }
    if !flags.complete || flags.unknown { return Unknown, checked; }
    return Clean, checked;
  }

  // ---- the steps of the scan ----

  lemma Begin(root: Node)
    requires root.Folder?
    ensures Scanned([], [Item(root, 0)], NOTHING, root)
  {
    hide Told, LastInView, OnTheWay;
    RootIsAll(root);
    NothingMet(root);
  }

  lemma Front(met: seq<Entry>, item: Item, rest: seq<Item>, f: Flags, root: Node)
    requires root.Folder? && Scanned(met, [item] + rest, f, root)
    ensures Queue(item, rest) && item.folder.Folder?
  {
    hide Sound, Full, LastInView, InOrder;
    QueueFront(item, rest, f, root);
  }

  lemma Shut(met: seq<Entry>, item: Item, rest: seq<Item>, f: Flags, root: Node)
    requires root.Folder? && Queue(item, rest) && !item.folder.opens && f.checked < MAX_ENTRIES
    requires Scanned(met, [item] + rest, f, root)
    ensures Scanned(met, rest, f.(unknown := true), root)
  {
    hide Told, LastInView, InOrder;
    ShutFolder(item, rest, f, root);
    LastShut(item, rest, f, root);
    OrderAfterShut(met, item, rest, root, f, f.(unknown := true));
  }

  lemma Advance(met: seq<Entry>, item: Item, rest: seq<Item>, f: Flags, root: Node, n: nat, g: Flags)
    requires root.Folder? && Queue(item, rest) && item.folder.opens && f.checked < MAX_ENTRIES
    requires n <= |item.folder.entries| && Read(item, f, n, g)
    requires Scanned(met, [item] + rest, f, root)
    ensures Scanned(met + item.folder.entries[..n], rest + Subs(item.folder.entries[..n], item.depth), g, root)
  {
    hide Told, LastInView, InOrder, NoneIn, NoDoubt, NoneTooDeep, Subs;
    LastRead(item, rest, f, root, n, g);
    AfterReading(item, rest, f, root, n, g);
    OrderAfterReading(met, item, rest, root, f, n, g);
  }

  // ---- the answer ----

  /** Everything that is promised of an answer. */
  ghost predicate Correct(root: Node, state: ContentState)
    requires root.Folder?
  {
    && (state == Clean ==> CleanTree(root) && Size(root) <= MAX_ENTRIES && Fits(root, MAX_DEPTH - 1))
    && (state in {CloudOnly, Changed, Attention} ==> Has(root, state))
    && (Size(root) < MAX_ENTRIES && Fits(root, MAX_DEPTH - 1) ==> Exact(root, state))
    && (Size(root) == MAX_ENTRIES && Fits(root, MAX_DEPTH - 1) ==> ExactAtLimit(root, state))
    && ByReach(InReach(root), state)
  }

  /** What the entries in reach say. */
  ghost predicate ByReach(entries: seq<Entry>, state: ContentState) {
    if state in {Changed, Attention} then FirstIn(entries, state)
    else NoneIn(entries, Changed) && NoneIn(entries, Attention) && (state == CloudOnly <==> !NoneIn(entries, CloudOnly))
  }

  lemma CorrectMeans(root: Node, state: ContentState)
    requires root.Folder? && Correct(root, state)
    ensures state == Clean ==> CleanTree(root) && Size(root) <= 128 && Fits(root, 3)
    ensures state in {CloudOnly, Changed, Attention} ==> Has(root, state)
    ensures Size(root) < 128 && Fits(root, 3) ==> Exact(root, state)
    ensures Size(root) == 128 && Fits(root, 3) ==> ExactAtLimit(root, state)
    ensures state in {Changed, Attention} ==> FirstIn(InReach(root), state)
    ensures state !in {Changed, Attention} ==> NoneIn(InReach(root), Changed) && NoneIn(InReach(root), Attention)
    ensures state !in {Changed, Attention} ==> (state == CloudOnly <==> !NoneIn(InReach(root), CloudOnly))
  {
    hide CleanTree, Size, Fits, Has, Exact, ExactAtLimit, FirstIn, InReach, NoneIn;
  }

  lemma JudgedIsCorrect(met: seq<Entry>, items: seq<Item>, f: Flags, g: Flags, root: Node)
    requires root.Folder? && Judged(root, g) && f.cloud == g.cloud
    requires InOrder(met, f, items, root) && (items == [] || f.checked >= 128)
    ensures Correct(root, Answer(g))
  {
    hide CleanTree, Size, Fits, Has, Exact, ExactAtLimit, FirstIn, InReach, NoneIn, OnTheWay;
    MetInReach(met, f, items, root);
  }

  /** The limit is reached with folders left. */
  lemma Stop(met: seq<Entry>, items: seq<Item>, f: Flags, root: Node)
    requires root.Folder? && Scanned(met, items, f, root) && items != [] && f.checked >= MAX_ENTRIES
    ensures Correct(root, Answer(f.(complete := false)))
  {
    hide Told, LastInView, InOrder, Judged, Correct;
    StopHere(items, f, root);
    JudgedIsCorrect(met, items, f, f.(complete := false), root);
  }

  /** The queue is worked off. */
  lemma Done(met: seq<Entry>, f: Flags, root: Node)
    requires root.Folder? && Scanned(met, [], f, root)
    ensures Correct(root, Answer(f))
  {
    hide Told, LastInView, InOrder, Judged, Correct;
    FinalAnswer(f, root);
    JudgedIsCorrect(met, [], f, f, root);
  }

  /** A file that differs from what was recorded. */
  lemma Early(met: seq<Entry>, item: Item, rest: seq<Item>, f: Flags, root: Node, n: nat, s: ContentState)
    requires root.Folder? && Queue(item, rest) && Scanned(met, [item] + rest, f, root)
    requires item.folder.opens && n < |item.folder.entries| && f.checked + n < MAX_ENTRIES
    requires NoneIn(item.folder.entries[..n], Changed) && NoneIn(item.folder.entries[..n], Attention)
    requires FileIn(item.folder.entries[n], s) && s in {Changed, Attention}
    ensures Correct(root, s)
  {
    hide Told, LastInView, InOrder, CleanTree, Size, Fits, Has, Exact, ExactAtLimit, FirstIn, InReach, NoneIn, FileIn;
    EarlyAnswer(item, rest, f, root, n, s);
    EndsEarly(met, item, rest, root, f, n, s);
  }
}
