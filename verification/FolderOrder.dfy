/** The entries of a tree level by level, and that the scan meets them in this order. */
module FolderOrder {
  import opened Text
  import opened FolderScan

  /** What reading a folder yields. */
  function Content(folder: Node): seq<Entry> {
    if folder.Folder? && folder.opens then folder.entries else []
  }

  /** The contents of several folders, one after the other. */
  function Level(folders: seq<Node>): seq<Entry> {
    if folders == [] then [] else Content(folders[0]) + Level(folders[1..])
  }

  /** The folders among entries, without what is kept out of view or not selected. */
  function Below(entries: seq<Entry>): (r: seq<Node>)
    ensures AllFolders(r)
  {
    if entries == [] then [] else
      var e := entries[|entries| - 1];
      Below(entries[..|entries| - 1]) + (if Kept(e) && e.node.Folder? then [e.node] else [])
  }

  predicate AllFolders(nodes: seq<Node>) {
    forall k :: 0 <= k < |nodes| ==> nodes[k].Folder?
  }

  function ByLevels(folders: seq<Node>, levels: nat): seq<Entry>
    decreases levels
  {
    if levels == 0 then [] else Level(folders) + ByLevels(Below(Level(folders)), levels - 1)
  }

  /** The entries of the tree down to the fourth level, the upper levels first. */
  function Listing(root: Node): seq<Entry> {
    ByLevels([root], 4)
  }

  /** The first 128 of them. */
  function InReach(root: Node): seq<Entry> {
    if |Listing(root)| <= 128 then Listing(root) else Listing(root)[..128]
  }

  lemma {:induction false} BelowAppend(a: seq<Entry>, b: seq<Entry>)
    ensures Below(a + b) == Below(a) + Below(b)
  {
    if b == [] {
      assert a + b == a;
    } else {
      assert (a + b)[..|a + b| - 1] == a + b[..|b| - 1];
      BelowAppend(a, b[..|b| - 1]);
    }
  }

  lemma {:induction false} NothingBelow(levels: nat)
    ensures ByLevels([], levels) == []
  {
    if levels > 0 { NothingBelow(levels - 1); }
  }

  // ---- the queue ----

  /** Folders in the queue at one depth. */
  function Items(folders: seq<Node>, depth: nat): (r: seq<Item>)
    ensures |r| == |folders| && forall k :: 0 <= k < |r| ==> r[k] == Item(folders[k], depth)
  {
    seq(|folders|, k requires 0 <= k < |folders| => Item(folders[k], depth))
  }

  lemma {:induction false} SubsAreBelow(entries: seq<Entry>, depth: nat)
    ensures Subs(entries, depth) == if depth + 1 < MAX_DEPTH then Items(Below(entries), depth + 1) else []
  {
    if entries != [] { SubsAreBelow(entries[..|entries| - 1], depth); }
  }

  /** What is still to be met: the rest of one level, the next one, and `levels` levels in all after the first. */
  function Ahead(here: seq<Node>, next: seq<Node>, levels: nat): seq<Entry> {
    Level(here) + ByLevels(next + Below(Level(here)), levels)
  }

  lemma AheadStep(folder: Node, here: seq<Node>, next: seq<Node>, levels: nat)
    ensures Ahead([folder] + here, next, levels) == Content(folder) + Ahead(here, next + Below(Content(folder)), levels)
  {
    assert Level([folder] + here) == Content(folder) + Level(here) by { assert ([folder] + here)[1..] == here; }
    BelowAppend(Content(folder), Level(here));
    Assoc(next, Below(Content(folder)), Below(Level(here)));
    Assoc(Content(folder), Level(here), ByLevels(next + Below(Content(folder)) + Below(Level(here)), levels));
  }

  lemma AheadShift(next: seq<Node>, levels: nat)
    ensures Ahead([], next, levels + 1) == Ahead(next, [], levels)
  {
    assert next + [] == next && [] + Below(Level(next)) == Below(Level(next));
    assert Below([]) == [];
    assert Level([]) == [];
  }

  /** The queue holds the rest of a level and the folders already found for the next. */
  ghost predicate Layers(items: seq<Item>, here: seq<Node>, next: seq<Node>, depth: nat) {
    depth < 4 && items == Items(here, depth) + Items(next, depth + 1) && (depth == 3 ==> next == [])
  }

  /** `met` entries were met, and the queue stands for the rest. */
  ghost predicate OnTheWay(met: seq<Entry>, items: seq<Item>, root: Node) {
    exists here: seq<Node>, next: seq<Node>, depth: nat ::
      Layers(items, here, next, depth) && met + Ahead(here, next, 3 - depth) == Listing(root)
  }

  /** The first folder belongs to the level that is being read. */
  lemma Normal(met: seq<Entry>, items: seq<Item>, root: Node) returns (here: seq<Node>, next: seq<Node>, depth: nat)
    requires OnTheWay(met, items, root) && items != []
    ensures here != [] && Layers(items, here, next, depth) && met + Ahead(here, next, 3 - depth) == Listing(root)
  {
    hide Ahead, Listing;
    here, next, depth :| Layers(items, here, next, depth) && met + Ahead(here, next, 3 - depth) == Listing(root);
    if here == [] {
      AheadShift(next, 3 - depth - 1);
      here, next, depth := next, [], depth + 1;
      assert items == Items(here, depth) + Items([], depth + 1);
    }
  }

  /** What one folder adds to the queue belongs to the next level, or to none. */
  lemma LayersStep(item: Item, rest: seq<Item>, here: seq<Node>, next: seq<Node>, depth: nat)
    requires Layers([item] + rest, here, next, depth) && here != []
    ensures item == Item(here[0], depth)
    ensures var found := if depth < 3 then Below(Content(item.folder)) else [];
      Layers(rest + Subs(Content(item.folder), item.depth), here[1..], next + found, depth)
  {
    hide Content, Subs, Below;
    var items := [item] + rest;
    assert items[0] == item && items[1..] == rest;
    LayersRest(items, here, next, depth);
    SubsAreBelow(Content(item.folder), depth);
    if depth < 3 {
      var found := Below(Content(item.folder));
      assert Items(next, depth + 1) + Items(found, depth + 1) == Items(next + found, depth + 1);
      Assoc(Items(here[1..], depth), Items(next, depth + 1), Items(found, depth + 1));
    } else {
      assert rest + [] == rest && next + [] == next;
    }
  }

  lemma LayersRest(items: seq<Item>, here: seq<Node>, next: seq<Node>, depth: nat)
    requires Layers(items, here, next, depth) && here != []
    ensures items[0] == Item(here[0], depth) && items[1..] == Items(here[1..], depth) + Items(next, depth + 1)
  {
  }

  /** A folder read to the end. */
  lemma FolderMet(met: seq<Entry>, item: Item, rest: seq<Item>, root: Node)
    requires OnTheWay(met, [item] + rest, root) && item.folder.Folder?
    ensures OnTheWay(met + Content(item.folder), rest + Subs(Content(item.folder), item.depth), root)
  {
    hide Ahead, Listing, Content, Subs, Below, Layers;
    var here, next, depth := Normal(met, [item] + rest, root);
    LayersAreShallow([item] + rest, here, next, depth);
    LayersStep(item, rest, here, next, depth);
    var content, more := Content(item.folder), here[1..];
    assert here == [item.folder] + more;
    AheadStep(item.folder, more, next, 3 - depth);
    Assoc(met, content, Ahead(more, next + Below(content), 3 - depth));
    if depth == 3 {
      NothingDeeper(more, next + Below(content));
      NothingDeeper(more, next + []);
    }
  }

  lemma LayersAreShallow(items: seq<Item>, here: seq<Node>, next: seq<Node>, depth: nat)
    requires Layers(items, here, next, depth)
    ensures depth < 4
  {
  }

  lemma NothingDeeper(here: seq<Node>, next: seq<Node>)
    ensures Ahead(here, next, 0) == Level(here)
  {
  }

  /** Everything met so far is a beginning of the listing, also in the middle of a folder. */
  lemma MetSoFar(met: seq<Entry>, item: Item, rest: seq<Item>, root: Node, n: nat)
    requires OnTheWay(met, [item] + rest, root) && n <= |Content(item.folder)|
    ensures met + Content(item.folder)[..n] <= Listing(root)
  {
    hide Listing, Content, Below, ByLevels;
    var here, next, depth := Normal(met, [item] + rest, root);
    assert ([item] + rest)[0] == item == Item(here[0], depth);
    assert here == [here[0]] + here[1..];
    hide Ahead;
    AheadStep(here[0], here[1..], next, 3 - depth);
    Beginning(met, Content(item.folder), Ahead(here[1..], next + Below(Content(item.folder)), 3 - depth), n);
  }

  lemma Beginning<T>(a: seq<T>, b: seq<T>, c: seq<T>, n: nat)
    requires n <= |b|
    ensures a + b[..n] <= a + (b + c)
  {
    assert a + (b + c) == (a + b[..n]) + (b[n..] + c);
  }

  lemma AllMet(met: seq<Entry>, root: Node)
    requires OnTheWay(met, [], root)
    ensures met == Listing(root)
  {
    hide Listing;
    var here: seq<Node>, next: seq<Node>, depth: nat :|
      Layers([], here, next, depth) && met + Ahead(here, next, 3 - depth) == Listing(root);
    assert here == [] && next == [];
    NothingBelow(3 - depth);
    assert Below([]) == [];
  }

  lemma NothingMet(root: Node)
    ensures OnTheWay([], [Item(root, 0)], root)
  {
    hide Level, Below, Ahead;
    assert Ahead([root], [], 3) == Listing(root) by { NothingBefore(root); }
    assert Layers([Item(root, 0)], [root], [], 0);
    assert [] + Ahead([root], [], 3) == Listing(root);
    assert [Item(root, 0)] == Items([root], 0) + Items([], 1);
  }

  lemma NothingBefore(root: Node)
    ensures Ahead([root], [], 3) == Listing(root)
  {
    assert [] + Below(Level([root])) == Below(Level([root]));
  }

  // ---- what the flags say of the entries met ----

  /** None of the entries met ends the scan, and the cloud flag is theirs. */
  ghost predicate Noted(met: seq<Entry>, f: Flags) {
    && |met| == (if f.checked <= 128 then f.checked else 128)
    && NoneIn(met, Changed) && NoneIn(met, Attention)
    && (f.cloud <==> !NoneIn(met, CloudOnly))
  }

  /** Where the scan stands between two folders. */
  ghost predicate InOrder(met: seq<Entry>, f: Flags, items: seq<Item>, root: Node) {
    && Noted(met, f)
    && (if f.checked <= 128 then OnTheWay(met, items, root) else met <= Listing(root))
  }

  lemma NoneInBoth(a: seq<Entry>, b: seq<Entry>, s: ContentState)
    ensures NoneIn(a + b, s) <==> NoneIn(a, s) && NoneIn(b, s)
  {
    hide FileIn;
    assert forall i :: 0 <= i < |a| ==> (a + b)[i] == a[i];
    assert forall i :: 0 <= i < |b| ==> (a + b)[|a| + i] == b[i];
  }

  /** An opened folder of which `n` entries were looked at: all of them, or as many as the limit allows. */
  lemma OrderAfterReading(met: seq<Entry>, item: Item, rest: seq<Item>, root: Node, f: Flags, n: nat, g: Flags)
    requires item.folder.Folder? && item.folder.opens && n <= |item.folder.entries| && f.checked < 128
    requires InOrder(met, f, [item] + rest, root)
    requires NoneIn(item.folder.entries[..n], Changed) && NoneIn(item.folder.entries[..n], Attention)
    requires g.cloud <==> f.cloud || !NoneIn(item.folder.entries[..n], CloudOnly)
    requires if n == |item.folder.entries| then g.checked == f.checked + n <= 128 else f.checked + n == 128 && g.checked == 129
    ensures InOrder(met + item.folder.entries[..n], g, rest + Subs(item.folder.entries[..n], item.depth), root)
  {
    hide NoneIn, OnTheWay, Listing, Subs;
    var seen := item.folder.entries[..n];
    NoneInBoth(met, seen, Changed);
    NoneInBoth(met, seen, Attention);
    NoneInBoth(met, seen, CloudOnly);
    if n == |item.folder.entries| {
      assert seen == Content(item.folder);
      FolderMet(met, item, rest, root);
    } else {
      MetSoFar(met, item, rest, root, n);
    }
  }

  lemma OrderAfterShut(met: seq<Entry>, item: Item, rest: seq<Item>, root: Node, f: Flags, g: Flags)
    requires item.folder.Folder? && !item.folder.opens && f.checked < 128 && InOrder(met, f, [item] + rest, root)
    requires g.checked == f.checked && g.cloud == f.cloud
    ensures InOrder(met, g, rest, root)
  {
    hide NoneIn, OnTheWay, Listing;
    FolderMet(met, item, rest, root);
    assert Subs([], item.depth) == [] && rest + [] == rest && met + [] == met;
  }

  /** The scan ends without an early answer: what was met is what is in reach. */
  lemma MetInReach(met: seq<Entry>, f: Flags, items: seq<Item>, root: Node)
    requires InOrder(met, f, items, root) && (items == [] || f.checked >= 128)
    ensures met == InReach(root)
  {
    hide Listing, NoneIn;
    if f.checked <= 128 {
      if items == [] {
        AllMet(met, root);
      } else {
        var here: seq<Node>, next: seq<Node>, depth: nat :|
          Layers(items, here, next, depth) && met + Ahead(here, next, 3 - depth) == Listing(root);
        assert Listing(root)[..|met|] == met;
        if |Listing(root)| == 128 { assert met == Listing(root); }
      }
    }
  }

  /** An entry that ends the scan. */
  lemma EndsEarly(met: seq<Entry>, item: Item, rest: seq<Item>, root: Node, f: Flags, n: nat, s: ContentState)
    requires item.folder.Folder? && item.folder.opens && n < |item.folder.entries| && f.checked + n < 128
    requires InOrder(met, f, [item] + rest, root)
    requires NoneIn(item.folder.entries[..n], Changed) && NoneIn(item.folder.entries[..n], Attention)
    requires FileIn(item.folder.entries[n], s)
    ensures FirstIn(InReach(root), s)
  {
    hide Listing, FileIn, OnTheWay;
    var seen := item.folder.entries[..n];
    assert Content(item.folder)[..n + 1] == seen + [item.folder.entries[n]];
    MetSoFar(met, item, rest, root, n + 1);
    Assoc(met, seen, [item.folder.entries[n]]);
    var all := InReach(root);
    assert all[..|met| + n] == met + seen && all[|met| + n] == item.folder.entries[n];
    NoneInBoth(met, seen, Changed);
    NoneInBoth(met, seen, Attention);
  }

  /** Of the files that differ from what was recorded the first one is in state `s`. */
  ghost predicate FirstIn(entries: seq<Entry>, s: ContentState) {
    exists i :: 0 <= i < |entries| && FileIn(entries[i], s) && NoneIn(entries[..i], Changed) && NoneIn(entries[..i], Attention)
  }
}
