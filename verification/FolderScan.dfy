/** The badge of a folder: a breadth-first scan with a limit on entries and on depth, whose
    check mark must nevertheless hold of the whole tree. */
module FolderScan {
  import opened Text
  import opened Paths

  const MAX_ENTRIES := 128
  const MAX_DEPTH := 4

  datatype ContentState = CloudOnly | Clean | Changed | Attention | Unknown | Unsupported

  /** An extended attribute that only marks its file. */
  datatype Mark = Present | Absent | Failed

  /** The metadata one file is judged by. `stamp` is the recorded stamp if it can be read and is not empty. */
  datatype FileFacts =
    FileFacts(dehydrated: Mark, stamp: Option<string>, hasId: bool, hasTag: bool, regular: bool, actual: string)

  /** The selection of the configured roots, as it applies to one entry. */
  datatype Verdict = Verdict(excluded: bool, unknown: bool)

  datatype Node =
    | File(facts: FileFacts)
    | Folder(identified: bool, opens: bool, entries: seq<Entry>, readFails: bool)
    | Other                    // a link or a special file
    | Gone                     // its metadata cannot be read
  datatype Entry = Entry(name: string, verdict: Verdict, node: Node)

  function ProbeFile(f: FileFacts): ContentState {
    if f.dehydrated.Failed? then Unknown
    else if f.stamp.None? || !f.hasId || !f.hasTag || !f.regular then Unknown
    else if f.stamp.value != f.actual then (if f.dehydrated.Present? then Attention else Changed)
    else if f.dehydrated.Present? then CloudOnly else Clean
  }

  /** Entries whose content is looked at. */
  predicate Kept(e: Entry) {
    !Internal(e.name) && !e.verdict.excluded
  }

  // ---- the whole tree, however deep and wide ----

  /** Everything that counts is identified and clean. */
  predicate CleanTree(folder: Node)
    requires folder.Folder?
  {
    folder.identified && folder.opens && !folder.readFails
    && forall i :: 0 <= i < |folder.entries| ==> CleanEntry(folder.entries[i])
  }

  predicate CleanEntry(e: Entry) {
    Internal(e.name)
    || (!e.verdict.unknown
        && (e.verdict.excluded
            || (e.node.File? && ProbeFile(e.node.facts) == Clean)
            || (e.node.Folder? && CleanTree(e.node))))
  }

  /** Some file that counts is in state `s`. */
  predicate Has(folder: Node, s: ContentState)
    requires folder.Folder?
  {
    folder.opens && exists i :: 0 <= i < |folder.entries| && HasEntry(folder.entries[i], s)
  }

  predicate HasEntry(e: Entry, s: ContentState) {
    Kept(e) && ((e.node.File? && ProbeFile(e.node.facts) == s) || (e.node.Folder? && Has(e.node, s)))
  }

  /** Directory entries in the folders that count. */
  function Size(folder: Node): nat
    requires folder.Folder?
    decreases folder, 0
  {
    if folder.opens then |folder.entries| + SizeBelow(folder.entries) else 0
  }

  function SizeBelow(entries: seq<Entry>): nat
    decreases entries
  {
    if entries == [] then 0 else
      var e := entries[|entries| - 1];
      SizeBelow(entries[..|entries| - 1]) + if Kept(e) && e.node.Folder? then Size(e.node) else 0
  }

  /** At most `levels` levels of folders below this one. */
  predicate Fits(folder: Node, levels: nat)
    requires folder.Folder?
  {
    folder.opens ==>
      forall i :: 0 <= i < |folder.entries| && Kept(folder.entries[i]) && folder.entries[i].node.Folder? ==>
        levels > 0 && Fits(folder.entries[i].node, levels - 1)
  }

  // ---- one folder of the queue ----

  datatype Item = Item(folder: Node, depth: nat)

  datatype Flags = Flags(checked: nat, cloud: bool, unknown: bool, complete: bool)

  predicate Folders(items: seq<Item>) {
    forall k :: 0 <= k < |items| ==> items[k].folder.Folder? && items[k].depth < MAX_DEPTH
  }

  /** The folders an entry list adds to the queue. */
  function Subs(entries: seq<Entry>, depth: nat): (r: seq<Item>)
    ensures Folders(r) && |r| <= |entries|
  {
    if entries == [] then [] else
      Subs(entries[..|entries| - 1], depth) + Sub(entries[|entries| - 1], depth)
  }

  function Sub(e: Entry, depth: nat): (r: seq<Item>)
    ensures Folders(r) && |r| <= 1
  {
    if Kept(e) && e.node.Folder? && depth + 1 < MAX_DEPTH then [Item(e.node, depth + 1)] else []
  }

  predicate FileIn(e: Entry, s: ContentState) {
    Kept(e) && e.node.File? && ProbeFile(e.node.facts) == s
  }

  predicate TooDeep(e: Entry, depth: nat) {
    Kept(e) && e.node.Folder? && depth + 1 >= MAX_DEPTH
  }

  /** Reasons in an entry itself not to call its folder clean. */
  predicate Doubtful(e: Entry) {
    !Internal(e.name)
    && (e.verdict.unknown || (!e.verdict.excluded && (e.node.Gone? || e.node.Other? || FileIn(e, Unknown))))
  }

  ghost predicate NoneIn(entries: seq<Entry>, s: ContentState) {
    forall i :: 0 <= i < |entries| ==> !FileIn(entries[i], s)
  }

  ghost predicate NoDoubt(entries: seq<Entry>) {
    forall i :: 0 <= i < |entries| ==> !Doubtful(entries[i])
  }

  ghost predicate NoneTooDeep(entries: seq<Entry>, depth: nat) {
    forall i :: 0 <= i < |entries| ==> !TooDeep(entries[i], depth)
  }

  lemma ReadOneMore(entries: seq<Entry>, i: nat, depth: nat)
    requires i < |entries|
    ensures Subs(entries[..i + 1], depth) == Subs(entries[..i], depth) + Sub(entries[i], depth)
    ensures forall s :: NoneIn(entries[..i + 1], s) <==> NoneIn(entries[..i], s) && !FileIn(entries[i], s)
    ensures NoDoubt(entries[..i + 1]) <==> NoDoubt(entries[..i]) && !Doubtful(entries[i])
    ensures NoneTooDeep(entries[..i + 1], depth) <==> NoneTooDeep(entries[..i], depth) && !TooDeep(entries[i], depth)
  {
    hide FileIn, Doubtful, TooDeep, Sub;
    var more := entries[..i + 1];
    assert more[..i] == entries[..i] && more[i] == entries[i];
    assert forall k :: 0 <= k < i ==> more[k] == entries[..i][k];
  }

  lemma NothingRead(entries: seq<Entry>, depth: nat)
    ensures Subs(entries[..0], depth) == [] && NoDoubt(entries[..0]) && NoneTooDeep(entries[..0], depth)
    ensures forall s :: NoneIn(entries[..0], s)
  {
  }

  /** The inner loop. `seen` entries were looked at; all of them unless the limit was hit. */
  method ReadFolder(entries: seq<Entry>, depth: nat, before: Flags)
    returns (early: Option<ContentState>, flags: Flags, subs: seq<Item>, ghost seen: nat)
    requires before.checked < MAX_ENTRIES
    ensures seen <= |entries|
    ensures early.Some? ==> early.value in {Changed, Attention} && seen < |entries| && FileIn(entries[seen], early.value)
    ensures NoneIn(entries[..seen], Changed) && NoneIn(entries[..seen], Attention)
    ensures subs == Subs(entries[..seen], depth)
    ensures early.None? ==> (flags.cloud <==> before.cloud || !NoneIn(entries[..seen], CloudOnly))
    ensures early.None? ==> (flags.unknown <==> before.unknown || !NoDoubt(entries[..seen]))
    ensures early.None? ==> (seen == |entries| <==> before.checked + |entries| <= MAX_ENTRIES)
    ensures early.None? && seen == |entries| ==> flags.checked == before.checked + |entries|
    ensures early.None? && seen == |entries| ==> (flags.complete <==> before.complete && NoneTooDeep(entries, depth))
    ensures early.None? && seen < |entries| ==> !flags.complete
    ensures flags.checked <= MAX_ENTRIES + 1 && flags.checked <= before.checked + |entries|
    ensures flags.checked >= before.checked + seen
    ensures early.None? && seen < |entries| ==> before.checked + seen == MAX_ENTRIES && flags.checked == MAX_ENTRIES + 1
    ensures early.Some? ==> before.checked + seen < MAX_ENTRIES
  {
    hide Internal, ProbeFile, Subs, NoneIn, NoDoubt, NoneTooDeep;
    NothingRead(entries, depth);
    var checked, cloud, unknown, complete := before.checked, before.cloud, before.unknown, before.complete;
    early, subs, seen := None, [], 0;
    for i := 0 to |entries|
      invariant seen == i && checked == before.checked + i <= MAX_ENTRIES
      invariant NoneIn(entries[..i], Changed) && NoneIn(entries[..i], Attention)
      invariant subs == Subs(entries[..i], depth)
      invariant cloud <==> before.cloud || !NoneIn(entries[..i], CloudOnly)
      invariant unknown <==> before.unknown || !NoDoubt(entries[..i])
      invariant complete <==> before.complete && NoneTooDeep(entries[..i], depth)
    {
      var e := entries[i];
      seen := i;
      checked := checked + 1;
      if checked > MAX_ENTRIES {
        return None, Flags(checked, cloud, unknown, false), subs, seen;
      }
      ReadOneMore(entries, i, depth);
      assert Subs(entries[..i], depth) + [] == Subs(entries[..i], depth);
      seen := i + 1;
      if Internal(e.name) { continue; }
      if e.verdict.unknown { unknown := true; }
      if e.verdict.excluded { continue; }
      match e.node {
        case Gone => unknown := true;
        case Folder(_, _, _, _) =>
          if depth + 1 >= MAX_DEPTH { complete := false; } else { subs := subs + [Item(e.node, depth + 1)]; }
        case File(facts) =>
          var state := ProbeFile(facts);
          if state == Changed || state == Attention {
            seen := i;
            return Some(state), Flags(checked, cloud, unknown, complete), subs, seen;
          }
          if state == CloudOnly { cloud := true; }
          if state == Unknown { unknown := true; }
        case Other => unknown := true;
      }
    }
    assert entries[..|entries|] == entries;
    flags := Flags(checked, cloud, unknown, complete);
  }

  // ---- the queue against the whole tree ----

  /** What a queued folder says about the tree, it says rightly. */
  ghost predicate Part(item: Item, root: Node)
    requires root.Folder?
  {
    && item.folder.Folder? && item.depth < MAX_DEPTH
    && (forall s :: Has(item.folder, s) ==> Has(root, s))
    && (CleanTree(root) ==> CleanTree(item.folder))
    && (Fits(root, MAX_DEPTH - 1) ==> Fits(item.folder, MAX_DEPTH - 1 - item.depth))
  }

  ghost predicate AllParts(items: seq<Item>, root: Node)
    requires root.Folder?
  {
    forall k :: 0 <= k < |items| ==> Part(items[k], root)
  }

  ghost predicate SomeHas(items: seq<Item>, s: ContentState)
    requires Folders(items)
  {
    exists k :: 0 <= k < |items| && Has(items[k].folder, s)
  }

  ghost predicate AllClean(items: seq<Item>)
    requires Folders(items)
  {
    forall k :: 0 <= k < |items| ==> CleanTree(items[k].folder)
  }

  ghost predicate AllFit(items: seq<Item>)
    requires Folders(items)
  {
    forall k :: 0 <= k < |items| ==> Fits(items[k].folder, MAX_DEPTH - 1 - items[k].depth)
  }

  function PendingSize(items: seq<Item>): nat
    requires Folders(items)
  {
    if items == [] then 0 else PendingSize(items[..|items| - 1]) + Size(items[|items| - 1].folder)
  }

  lemma {:induction false} PendingAppend(a: seq<Item>, b: seq<Item>)
    requires Folders(a) && Folders(b)
    ensures PendingSize(a + b) == PendingSize(a) + PendingSize(b)
  {
    if b == [] {
      assert a + b == a;
    } else {
      assert (a + b)[..|a + b| - 1] == a + b[..|b| - 1];
      PendingAppend(a, b[..|b| - 1]);
    }
  }

  lemma {:induction false} InSubs(entries: seq<Entry>, depth: nat, x: Item)
    ensures x in Subs(entries, depth) <==> exists i :: 0 <= i < |entries| && x in Sub(entries[i], depth)
  {
    hide Sub;
    if entries != [] {
      var front := entries[..|entries| - 1];
      InSubs(front, depth, x);
      assert forall i :: 0 <= i < |front| ==> front[i] == entries[i];
    }
  }

  lemma {:induction false} SubsSize(entries: seq<Entry>, depth: nat)
    ensures PendingSize(Subs(entries, depth)) <= SizeBelow(entries)
    ensures NoneTooDeep(entries, depth) ==> PendingSize(Subs(entries, depth)) == SizeBelow(entries)
  {
    if entries != [] {
      var front, e := entries[..|entries| - 1], entries[|entries| - 1];
      SubsSize(front, depth);
      PendingAppend(Subs(front, depth), Sub(e, depth));
      OneSize(e, depth);
      assert NoneTooDeep(entries, depth) ==> NoneTooDeep(front, depth) && !TooDeep(e, depth) by {
        assert forall i :: 0 <= i < |front| ==> front[i] == entries[i];
      }
    }
  }

  lemma OneSize(e: Entry, depth: nat)
    ensures var size := if Kept(e) && e.node.Folder? then Size(e.node) else 0;
      PendingSize(Sub(e, depth)) <= size && (!TooDeep(e, depth) ==> PendingSize(Sub(e, depth)) == size)
  {
    hide Size, Internal;
    var one := Sub(e, depth);
    if one != [] { assert one[..0] == [] && PendingSize([]) == 0; }
  }

  lemma {:induction false} SizeBelowPrefix(entries: seq<Entry>, n: nat)
    requires n <= |entries|
    ensures SizeBelow(entries[..n]) <= SizeBelow(entries)
    decreases |entries|
  {
    if n < |entries| {
      assert entries[..|entries| - 1][..n] == entries[..n];
      SizeBelowPrefix(entries[..|entries| - 1], n);
    } else {
      assert entries[..n] == entries;
    }
  }

  /** A folder of a queued folder speaks rightly about the tree too. */
  lemma SubIsPart(item: Item, root: Node, i: nat)
    requires root.Folder? && Part(item, root) && item.folder.opens && i < |item.folder.entries|
    requires Kept(item.folder.entries[i]) && item.folder.entries[i].node.Folder? && item.depth + 1 < MAX_DEPTH
    ensures Part(Item(item.folder.entries[i].node, item.depth + 1), root)
  {
    var f, e := item.folder, item.folder.entries[i];
    forall s | Has(e.node, s) ensures Has(root, s) {
      assert HasEntry(e, s);
      assert Has(f, s);
    }
    if CleanTree(root) { assert CleanEntry(e); }
  }

  lemma SubsAreParts(item: Item, root: Node, n: nat)
    requires root.Folder? && Part(item, root) && item.folder.Folder? && item.folder.opens && n <= |item.folder.entries|
    ensures AllParts(Subs(item.folder.entries[..n], item.depth), root)
  {
    hide Part, Kept;
    var entries := item.folder.entries[..n];
    var subs := Subs(entries, item.depth);
    forall k | 0 <= k < |subs| ensures Part(subs[k], root) {
      InSubs(entries, item.depth, subs[k]);
      var i :| 0 <= i < |entries| && subs[k] in Sub(entries[i], item.depth);
      SubIsPart(item, root, i);
    }
  }

  lemma HereHas(folder: Node, i: nat, s: ContentState)
    requires folder.Folder? && folder.opens && i < |folder.entries| && FileIn(folder.entries[i], s)
    ensures Has(folder, s)
  {
    assert HasEntry(folder.entries[i], s);
  }

  lemma DoubtSpoils(folder: Node, i: nat)
    requires folder.Folder? && i < |folder.entries| && Doubtful(folder.entries[i])
    ensures !CleanTree(folder)
  {
    assert !CleanEntry(folder.entries[i]);
  }

  /** A clean tree holds no file in another state. */
  lemma {:induction false} CleanHasNothing(folder: Node, s: ContentState)
    requires folder.Folder? && CleanTree(folder) && s != Clean
    ensures !Has(folder, s)
    decreases folder
  {
    forall i | 0 <= i < |folder.entries| ensures !HasEntry(folder.entries[i], s) {
      var e := folder.entries[i];
      assert CleanEntry(e);
      if Kept(e) && e.node.Folder? { CleanHasNothing(e.node, s); }
    }
  }

  /** A fully read folder is what its files and its queued folders make it. */
  lemma FolderIsItsParts(item: Item)
    requires item.folder.Folder? && item.folder.opens && item.depth < MAX_DEPTH
    requires NoneTooDeep(item.folder.entries, item.depth)
    ensures var subs := Subs(item.folder.entries, item.depth);
      && (forall s :: Has(item.folder, s) ==> !NoneIn(item.folder.entries, s) || SomeHas(subs, s))
      && (AllFit(subs) ==> Fits(item.folder, MAX_DEPTH - 1 - item.depth))
      && Size(item.folder) == |item.folder.entries| + PendingSize(subs)
  {
    hide FileIn, Internal, Has, Fits, Subs;
    SubsSize(item.folder.entries, item.depth);
    forall s | Has(item.folder, s)
      ensures !NoneIn(item.folder.entries, s) || SomeHas(Subs(item.folder.entries, item.depth), s)
    {
      HasInParts(item, s);
    }
    if AllFit(Subs(item.folder.entries, item.depth)) { FitsByParts(item); }
  }

  lemma HasInParts(item: Item, s: ContentState)
    requires item.folder.Folder? && item.depth < MAX_DEPTH && NoneTooDeep(item.folder.entries, item.depth)
    requires Has(item.folder, s)
    ensures !NoneIn(item.folder.entries, s) || SomeHas(Subs(item.folder.entries, item.depth), s)
  {
    hide FileIn, Internal, Subs;
    var entries, subs := item.folder.entries, Subs(item.folder.entries, item.depth);
    var i :| 0 <= i < |entries| && HasEntry(entries[i], s);
    if !FileIn(entries[i], s) {
      FileOrFolder(entries[i], s);
      QueuedIn(entries, item.depth, i);
      var k :| 0 <= k < |subs| && subs[k] == Item(entries[i].node, item.depth + 1);
    }
  }

  lemma FitsByParts(item: Item)
    requires item.folder.Folder? && item.depth < MAX_DEPTH && NoneTooDeep(item.folder.entries, item.depth)
    requires AllFit(Subs(item.folder.entries, item.depth))
    ensures Fits(item.folder, MAX_DEPTH - 1 - item.depth)
  {
    hide FileIn, Internal, Subs;
    var entries, depth, subs := item.folder.entries, item.depth, Subs(item.folder.entries, item.depth);
    forall i | 0 <= i < |entries| && Kept(entries[i]) && entries[i].node.Folder?
      ensures MAX_DEPTH - 1 - depth > 0 && Fits(entries[i].node, MAX_DEPTH - 1 - depth - 1)
    {
      QueuedIn(entries, depth, i);
      var k :| 0 <= k < |subs| && subs[k] == Item(entries[i].node, depth + 1);
    }
  }

  lemma FileOrFolder(e: Entry, s: ContentState)
    requires HasEntry(e, s) && !FileIn(e, s)
    ensures Kept(e) && e.node.Folder? && Has(e.node, s)
  {
  }

  lemma QueuedIn(entries: seq<Entry>, depth: nat, i: nat)
    requires i < |entries| && Kept(entries[i]) && entries[i].node.Folder? && NoneTooDeep(entries, depth)
    ensures depth + 1 < MAX_DEPTH && Item(entries[i].node, depth + 1) in Subs(entries, depth)
  {
    hide Kept;
    assert !TooDeep(entries[i], depth);
    InSubs(entries, depth, Item(entries[i].node, depth + 1));
    assert Item(entries[i].node, depth + 1) in Sub(entries[i], depth);
  }

  lemma CleanFromParts(item: Item)
    requires item.folder.Folder? && item.folder.opens && item.depth < MAX_DEPTH
    requires item.folder.identified && !item.folder.readFails
    requires var entries := item.folder.entries;
      && NoneTooDeep(entries, item.depth) && NoDoubt(entries)
      && NoneIn(entries, CloudOnly) && NoneIn(entries, Changed) && NoneIn(entries, Attention)
      && AllClean(Subs(entries, item.depth))
    ensures CleanTree(item.folder)
  {
    hide Internal;
    var entries, subs := item.folder.entries, Subs(item.folder.entries, item.depth);
    forall i | 0 <= i < |entries| ensures CleanEntry(entries[i]) {
      var e := entries[i];
      assert !Doubtful(e) && !FileIn(e, CloudOnly) && !FileIn(e, Changed) && !FileIn(e, Attention);
      if Kept(e) && e.node.Folder? {
        QueuedIn(entries, item.depth, i);
        var k :| 0 <= k < |subs| && subs[k] == Item(e.node, item.depth + 1);
        assert CleanTree(subs[k].folder);
      }
    }
  }

  /** What the flags say so far is right. */
  ghost predicate Sound(items: seq<Item>, f: Flags, root: Node)
    requires root.Folder? && Folders(items)
  {
    && AllParts(items, root)
    && (f.cloud ==> Has(root, CloudOnly))
    && (f.unknown ==> !CleanTree(root))
    && f.checked + PendingSize(items) <= Size(root)
    && (!f.complete ==> Size(root) > MAX_ENTRIES || !Fits(root, MAX_DEPTH - 1))
  }

  /** What the flags and the queue do not say is not there. */
  ghost predicate Full(items: seq<Item>, f: Flags, root: Node)
    requires root.Folder? && Folders(items)
  {
    && (forall s :: s in {CloudOnly, Changed, Attention} && Has(root, s) ==> (s == CloudOnly && f.cloud) || SomeHas(items, s))
    && (!f.unknown && !f.cloud && AllClean(items) ==> CleanTree(root))
    && (AllFit(items) ==> Fits(root, MAX_DEPTH - 1))
    && f.checked + PendingSize(items) == Size(root)
  }

  predicate Queue(item: Item, rest: seq<Item>) {
    item.folder.Folder? && item.depth < MAX_DEPTH && Folders(rest) && Folders([item] + rest)
  }

  lemma FoldersAppend(a: seq<Item>, b: seq<Item>)
    requires Folders(a) && Folders(b)
    ensures Folders(a + b)
  {
  }

  lemma SizeOfFirst(item: Item, rest: seq<Item>)
    requires Queue(item, rest)
    ensures PendingSize([item] + rest) == Size(item.folder) + PendingSize(rest)
  {
    hide Size;
    PendingAppend([item], rest);
    assert [item][..0] == [];
    assert PendingSize([item]) == PendingSize([]) + Size(item.folder);
  }

  lemma ShutFacts(folder: Node, levels: nat)
    requires folder.Folder? && !folder.opens
    ensures Size(folder) == 0 && !CleanTree(folder) && Fits(folder, levels)
    ensures forall s :: !Has(folder, s)
  {
  }

  lemma ShutSound(item: Item, rest: seq<Item>, f: Flags, root: Node)
    requires root.Folder? && Queue(item, rest) && !item.folder.opens && Sound([item] + rest, f, root)
    ensures Sound(rest, f.(unknown := true), root)
  {
    hide Size, Fits, Has, CleanTree;
    var all := [item] + rest;
    assert all[0] == item && forall k :: 0 <= k < |rest| ==> rest[k] == all[k + 1];
    ShutFacts(item.folder, MAX_DEPTH - 1 - item.depth);
    SizeOfFirst(item, rest);
    assert Part(all[0], root);
    assert AllParts(rest, root);
  }

  lemma ShutFull(item: Item, rest: seq<Item>, f: Flags, root: Node)
    requires root.Folder? && Queue(item, rest) && !item.folder.opens && Full([item] + rest, f, root)
    ensures Full(rest, f.(unknown := true), root)
  {
    hide Size, Fits, Has, CleanTree;
    ShutFacts(item.folder, MAX_DEPTH - 1 - item.depth);
    SizeOfFirst(item, rest);
    assert rest + [] == rest;
    forall s | s in {CloudOnly, Changed, Attention} && Has(root, s)
      ensures (s == CloudOnly && f.cloud) || SomeHas(rest, s)
    {
      SomeHasParts(item, rest, [], s);
    }
    CleanOrFitsParts(item, rest, []);
  }

  /** A folder that cannot be opened. */
  lemma ShutFolder(item: Item, rest: seq<Item>, f: Flags, root: Node)
    requires root.Folder? && Queue(item, rest) && !item.folder.opens
    requires Told([item] + rest, f, root)
    ensures Told(rest, f.(unknown := true), root)
  {
    hide Sound, Full;
    ShutSound(item, rest, f, root);
    if f.complete { ShutFull(item, rest, f, root); }
  }

  /** The flags after reading the first `n` entries of a folder, all of them unless the limit was hit. */
  ghost predicate Read(item: Item, before: Flags, n: nat, after: Flags)
    requires item.folder.Folder? && n <= |item.folder.entries|
  {
    var entries := item.folder.entries;
    && NoneIn(entries[..n], Changed) && NoneIn(entries[..n], Attention)
    && (after.cloud <==> before.cloud || !NoneIn(entries[..n], CloudOnly))
    && (after.unknown <==>
          || before.unknown || !item.folder.identified
          || !NoDoubt(entries[..n]) || (n == |entries| && item.folder.readFails))
    && (n == |entries| <==> before.checked + |entries| <= MAX_ENTRIES)
    && (if n == |entries| then
          after.checked == before.checked + |entries| && (after.complete <==> before.complete && NoneTooDeep(entries, item.depth))
        else !after.complete && before.checked + n == MAX_ENTRIES && after.checked == MAX_ENTRIES + 1)
  }

  lemma SoundAfterReading(item: Item, rest: seq<Item>, f: Flags, root: Node, n: nat, g: Flags)
    requires root.Folder? && Queue(item, rest) && item.folder.Folder? && item.folder.opens
    requires n <= |item.folder.entries| && Read(item, f, n, g)
    requires Sound([item] + rest, f, root)
    ensures var subs := Subs(item.folder.entries[..n], item.depth);
      Folders(rest + subs) && Sound(rest + subs, g, root)
  {
    hide CleanTree, Has, Fits, Size, NoneIn, NoDoubt, NoneTooDeep, Subs;
    var all, entries := [item] + rest, item.folder.entries;
    var subs := Subs(entries[..n], item.depth);
    assert all[0] == item && forall k :: 0 <= k < |rest| ==> rest[k] == all[k + 1];
    assert Part(all[0], root);
    SubsAreParts(item, root, n);
    assert AllParts(rest + subs, root);
    SizeOfFirst(item, rest);
    PendingAppend(rest, subs);
    SizesRead(item, n);
    if g.cloud && !f.cloud { CloudSeen(item.folder, n); }
    if g.unknown && !f.unknown { DoubtSeen(item.folder, n); }
    if f.complete && !g.complete && n == |entries| { DeepSeen(item); }
  }

  lemma SizesRead(item: Item, n: nat)
    requires item.folder.Folder? && item.folder.opens && n <= |item.folder.entries|
    ensures |item.folder.entries| + PendingSize(Subs(item.folder.entries[..n], item.depth)) <= Size(item.folder)
  {
    SubsSize(item.folder.entries[..n], item.depth);
    SizeBelowPrefix(item.folder.entries, n);
  }

  lemma CloudSeen(folder: Node, n: nat)
    requires folder.Folder? && folder.opens && n <= |folder.entries| && !NoneIn(folder.entries[..n], CloudOnly)
    ensures Has(folder, CloudOnly)
  {
    hide FileIn, Has;
    var i :| 0 <= i < n && FileIn(folder.entries[..n][i], CloudOnly);
    HereHas(folder, i, CloudOnly);
  }

  lemma DoubtSeen(folder: Node, n: nat)
    requires folder.Folder? && n <= |folder.entries|
    requires !folder.identified || !NoDoubt(folder.entries[..n]) || folder.readFails
    ensures !CleanTree(folder)
  {
    hide Doubtful, CleanEntry;
    if !NoDoubt(folder.entries[..n]) {
      var i :| 0 <= i < n && Doubtful(folder.entries[..n][i]);
      DoubtSpoils(folder, i);
    }
  }

  lemma DeepSeen(item: Item)
    requires item.folder.Folder? && item.folder.opens && item.depth < MAX_DEPTH && !NoneTooDeep(item.folder.entries, item.depth)
    ensures !Fits(item.folder, MAX_DEPTH - 1 - item.depth)
  {
    hide Kept;
  }

  lemma FullAfterReading(item: Item, rest: seq<Item>, f: Flags, root: Node, g: Flags)
    requires root.Folder? && Queue(item, rest) && item.folder.Folder? && item.folder.opens
    requires Read(item, f, |item.folder.entries|, g) && f.complete && g.complete
    requires Full([item] + rest, f, root)
    ensures var subs := Subs(item.folder.entries, item.depth);
      Folders(rest + subs) && Full(rest + subs, g, root)
  {
    hide CleanTree, Has, Fits, Size, NoneIn, NoDoubt, NoneTooDeep, Subs;
    var all, entries := [item] + rest, item.folder.entries;
    var subs := Subs(entries, item.depth);
    assert entries[..|entries|] == entries;
    SizeOfFirst(item, rest);
    PendingAppend(rest, subs);
    FolderIsItsParts(item);
    forall s | s in {CloudOnly, Changed, Attention} && Has(root, s)
      ensures (s == CloudOnly && g.cloud) || SomeHas(rest + subs, s)
    {
      SomeHasParts(item, rest, subs, s);
    }
    CleanOrFitsParts(item, rest, subs);
    if !g.unknown && !g.cloud && AllClean(rest + subs) { CleanFromParts(item); }
  }

  lemma SomeHasParts(item: Item, rest: seq<Item>, subs: seq<Item>, s: ContentState)
    requires Queue(item, rest) && Folders(subs)
    ensures Folders(rest + subs)
    ensures SomeHas([item] + rest, s) ==> Has(item.folder, s) || SomeHas(rest + subs, s)
    ensures SomeHas(subs, s) ==> SomeHas(rest + subs, s)
  {
    hide Has;
    FoldersAppend(rest, subs);
    var all := [item] + rest;
    if SomeHas(all, s) {
      var k :| 0 <= k < |all| && Has(all[k].folder, s);
      assert k > 0 ==> (rest + subs)[k - 1] == all[k];
    }
    if SomeHas(subs, s) {
      var k :| 0 <= k < |subs| && Has(subs[k].folder, s);
      assert (rest + subs)[|rest| + k] == subs[k];
    }
  }

  lemma CleanOrFitsParts(item: Item, rest: seq<Item>, subs: seq<Item>)
    requires Queue(item, rest) && Folders(subs)
    ensures Folders(rest + subs)
    ensures AllClean(rest + subs) ==> AllClean(subs) && (CleanTree(item.folder) ==> AllClean([item] + rest))
    ensures AllFit(rest + subs) ==>
      AllFit(subs) && (Fits(item.folder, MAX_DEPTH - 1 - item.depth) ==> AllFit([item] + rest))
  {
    hide CleanTree, Fits;
    FoldersAppend(rest, subs);
    var all, next := [item] + rest, rest + subs;
    assert forall k :: 0 <= k < |rest| ==> next[k] == all[k + 1];
    assert forall k :: 0 <= k < |subs| ==> next[|rest| + k] == subs[k];
    assert forall k :: 0 < k < |all| ==> all[k] == next[k - 1];
  }

  lemma ReadAll(entries: seq<Entry>)
    ensures entries[..|entries|] == entries
  {
  }

  ghost predicate Exact(root: Node, state: ContentState)
    requires root.Folder?
  {
    && (state == Clean <==> CleanTree(root))
    && (state in {Changed, Attention} <==> Has(root, Changed) || Has(root, Attention))
    && (state == CloudOnly <==> Has(root, CloudOnly) && !Has(root, Changed) && !Has(root, Attention))
  }

  /** The loop's invariant. */
  ghost predicate Told(items: seq<Item>, f: Flags, root: Node)
    requires root.Folder?
  {
    && Folders(items) && Sound(items, f, root)
    && (f.complete ==> Full(items, f, root) && f.checked <= MAX_ENTRIES)
  }

  // ---- the last folder ----

  /** The folders a folder of the queue adds to it when it is read to the end. */
  function SubsOf(item: Item): (r: seq<Item>)
    requires item.folder.Folder?
    ensures Folders(r)
  {
    if item.folder.opens then Subs(item.folder.entries, item.depth) else []
  }

  lemma QueueShrinks(item: Item, rest: seq<Item>)
    requires Queue(item, rest)
    ensures Folders(rest + SubsOf(item))
    ensures PendingSize(rest + SubsOf(item)) < PendingSize([item] + rest)
      || (PendingSize(rest + SubsOf(item)) == PendingSize([item] + rest) && (SubsOf(item) == []))
  {
    hide Size, Subs;
    FoldersAppend(rest, SubsOf(item));
    SizeOfFirst(item, rest);
    PendingAppend(rest, SubsOf(item));
    if item.folder.opens {
      SizesRead(item, |item.folder.entries|);
      ReadAll(item.folder.entries);
      if item.folder.entries == [] { NothingRead([], item.depth); }
    } else {
      ShutFacts(item.folder, 0);
    }
    assert PendingSize([]) == 0;
  }

  /** The last folder of a queue in breadth-first order. */
  function LastFolder(items: seq<Item>): (last: Item)
    requires Folders(items) && items != []
    ensures last.folder.Folder?
    decreases PendingSize(items), |items|
  {
    var item, rest := items[0], items[1..];
    assert items == [item] + rest;
    QueueShrinks(item, rest);
    if rest + SubsOf(item) == [] then item else LastFolder(rest + SubsOf(item))
  }

  predicate HasEntries(folder: Node) {
    folder.Folder? && folder.opens && folder.entries != []
  }

  lemma LastStep(item: Item, rest: seq<Item>)
    requires Queue(item, rest)
    ensures Folders(rest + SubsOf(item))
    ensures LastFolder([item] + rest) == if rest + SubsOf(item) == [] then item else LastFolder(rest + SubsOf(item))
  {
    hide PendingSize, SubsOf;
    QueueShrinks(item, rest);
    assert ([item] + rest)[1..] == rest;
  }

  lemma NoSizeNoEntries(folder: Node)
    requires folder.Folder? && Size(folder) == 0
    ensures !HasEntries(folder) && forall s :: !Has(folder, s)
  {
  }

  /** Folders without entries are all there is left. */
  lemma {:induction false} NothingLeft(items: seq<Item>)
    requires Folders(items) && PendingSize(items) == 0
    ensures forall k :: 0 <= k < |items| ==> !HasEntries(items[k].folder)
    ensures forall s :: !SomeHas(items, s)
    ensures items != [] ==> !HasEntries(LastFolder(items).folder)
    decreases |items|
  {
    hide Size, Has, SubsOf;
    if items != [] {
      var item, rest := items[0], items[1..];
      assert items == [item] + rest;
      assert Queue(item, rest);
      SizeOfFirst(item, rest);
      NoSizeNoEntries(item.folder);
      NothingLeft(rest);
      forall s ensures !SomeHas(items, s) {
        SomeHasParts(item, rest, [], s);
        assert rest + [] == rest;
      }
      LastStep(item, rest);
      assert SubsOf(item) == [] by { NoEntriesNoSubs(item); }
      assert rest + [] == rest;
    }
  }

  lemma NoEntriesNoSubs(item: Item)
    requires item.folder.Folder? && !HasEntries(item.folder)
    ensures SubsOf(item) == []
  {
  }

  function Whole(root: Node): seq<Item>
    requires root.Folder?
  {
    [Item(root, 0)]
  }

  /** As long as nothing was skipped, the folder that will be last is the last of the whole tree, and once the
      queue is empty at the limit that folder was read and had entries. */
  ghost predicate LastInView(items: seq<Item>, f: Flags, root: Node)
    requires root.Folder? && Folders(items)
  {
    f.complete ==>
      if items != [] then LastFolder(items) == LastFolder(Whole(root))
      else f.checked >= MAX_ENTRIES ==> HasEntries(LastFolder(Whole(root)).folder)
  }

  lemma LastShut(item: Item, rest: seq<Item>, f: Flags, root: Node)
    requires root.Folder? && Queue(item, rest) && !item.folder.opens && f.checked < MAX_ENTRIES
    requires LastInView([item] + rest, f, root)
    ensures LastInView(rest, f.(unknown := true), root)
  {
    hide LastFolder;
    LastStep(item, rest);
    assert rest + [] == rest;
  }

  lemma LastRead(item: Item, rest: seq<Item>, f: Flags, root: Node, n: nat, g: Flags)
    requires root.Folder? && Queue(item, rest) && item.folder.opens && f.checked < MAX_ENTRIES
    requires n <= |item.folder.entries| && Read(item, f, n, g)
    requires LastInView([item] + rest, f, root)
    ensures Folders(rest + Subs(item.folder.entries[..n], item.depth))
    ensures LastInView(rest + Subs(item.folder.entries[..n], item.depth), g, root)
  {
    hide LastFolder, Subs, NoneIn, NoDoubt, NoneTooDeep;
    LastStep(item, rest);
    FoldersAppend(rest, Subs(item.folder.entries[..n], item.depth));
    ReadAll(item.folder.entries);
  }

  // ---- the verdict ----

  function Answer(f: Flags): ContentState {
    if f.cloud then CloudOnly else if !f.complete || f.unknown then Unknown else Clean
  }

  /** Exact but for the check mark, which a tree of just the limit gets only when its last folder has entries:
      otherwise the scan ends before it has looked at that folder. */
  ghost predicate ExactAtLimit(root: Node, state: ContentState)
    requires root.Folder?
  {
    && (state == Clean <==> CleanTree(root) && HasEntries(LastFolder(Whole(root)).folder))
    && (state in {Changed, Attention} <==> Has(root, Changed) || Has(root, Attention))
    && (state == CloudOnly <==> Has(root, CloudOnly) && !Has(root, Changed) && !Has(root, Attention))
  }

  ghost predicate Judged(root: Node, f: Flags)
    requires root.Folder?
  {
    && (f.cloud ==> Has(root, CloudOnly))
    && (Answer(f) == Clean ==> CleanTree(root) && Size(root) <= MAX_ENTRIES && Fits(root, MAX_DEPTH - 1))
    && (Size(root) < MAX_ENTRIES && Fits(root, MAX_DEPTH - 1) ==> Exact(root, Answer(f)))
    && (Size(root) == MAX_ENTRIES && Fits(root, MAX_DEPTH - 1) ==> ExactAtLimit(root, Answer(f)))
  }

  lemma CleanHasNone(root: Node)
    requires root.Folder? && CleanTree(root)
    ensures !Has(root, CloudOnly) && !Has(root, Changed) && !Has(root, Attention)
  {
    CleanHasNothing(root, CloudOnly);
    CleanHasNothing(root, Changed);
    CleanHasNothing(root, Attention);
  }

  /** The limit is reached with folders left. */
  lemma StopHere(items: seq<Item>, f: Flags, root: Node)
    requires root.Folder? && Told(items, f, root) && LastInView(items, f, root)
    requires items != [] && f.checked >= MAX_ENTRIES
    ensures Judged(root, f.(complete := false))
  {
    hide Size, Fits, Has, CleanTree, AllParts, LastFolder, HasEntries, AllClean, AllFit;
    if Size(root) == MAX_ENTRIES && Fits(root, MAX_DEPTH - 1) {
      NothingLeft(items);
    }
  }

  lemma QueueFront(item: Item, rest: seq<Item>, f: Flags, root: Node)
    requires root.Folder? && Told([item] + rest, f, root)
    ensures Queue(item, rest)
  {
    hide Sound, Full;
    var all := [item] + rest;
    assert all[0] == item && forall k :: 0 <= k < |rest| ==> rest[k] == all[k + 1];
  }

  lemma EarlyAnswer(item: Item, rest: seq<Item>, f: Flags, root: Node, i: nat, s: ContentState)
    requires root.Folder? && Queue(item, rest) && Told([item] + rest, f, root)
    requires item.folder.opens && i < |item.folder.entries| && FileIn(item.folder.entries[i], s) && s in {Changed, Attention}
    ensures Has(root, s) && Exact(root, s) && ExactAtLimit(root, s)
  {
    hide Full, Size, Fits, Has, CleanTree, FileIn;
    assert ([item] + rest)[0] == item;
    assert Part(item, root);
    HereHas(item.folder, i, s);
    if CleanTree(root) { CleanHasNothing(root, s); }
  }

  lemma AfterReading(item: Item, rest: seq<Item>, f: Flags, root: Node, n: nat, g: Flags)
    requires root.Folder? && Queue(item, rest) && Told([item] + rest, f, root)
    requires item.folder.opens && n <= |item.folder.entries| && Read(item, f, n, g)
    ensures Told(rest + Subs(item.folder.entries[..n], item.depth), g, root)
  {
    hide Sound, Full, Subs, NoneIn, NoDoubt, NoneTooDeep;
    SoundAfterReading(item, rest, f, root, n, g);
    if g.complete {
      ReadAll(item.folder.entries);
      FullAfterReading(item, rest, f, root, g);
    }
  }

  /** The queue is worked off. */
  lemma FinalAnswer(f: Flags, root: Node)
    requires root.Folder? && Told([], f, root) && LastInView([], f, root)
    ensures Judged(root, f)
  {
    hide Size, Fits, Has, CleanTree, LastFolder, HasEntries;
    if f.complete {
      assert !SomeHas([], CloudOnly) && !SomeHas([], Changed) && !SomeHas([], Attention);
      assert AllClean([]) && AllFit([]) && PendingSize([]) == 0;
    }
    if CleanTree(root) { CleanHasNone(root); }
  }

  lemma RootIsAll(root: Node)
    requires root.Folder?
    ensures Told([Item(root, 0)], Flags(0, false, false, true), root)
    ensures LastInView([Item(root, 0)], Flags(0, false, false, true), root)
  {
    hide Has, CleanTree, Fits, Size;
    var one := [Item(root, 0)];
    assert one[0].folder == root;
    SizeOfFirst(one[0], []);
    assert one + [] == one && PendingSize([]) == 0;
  }
}
