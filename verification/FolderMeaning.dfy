/** What the verdicts on files and folders mean, in terms of their attributes. */
module FolderMeaning {
  import opened Text
  import opened Paths
  import opened FolderScan

  /** All the attributes of a synchronised file are there. */
  predicate Identified(f: FileFacts) {
    f.stamp.Some? && f.hasId && f.hasTag && f.regular
  }

  /** The recorded stamp tells edited from unedited, the dehydrated mark a placeholder from a file that is here. */
  lemma ProbeExactly(f: FileFacts)
    ensures ProbeFile(f) == Clean <==> f.dehydrated.Absent? && f.stamp == Some(f.actual) && f.hasId && f.hasTag && f.regular
    ensures ProbeFile(f) == CloudOnly <==> f.dehydrated.Present? && f.stamp == Some(f.actual) && f.hasId && f.hasTag && f.regular
    ensures ProbeFile(f) == Changed <==> f.dehydrated.Absent? && Identified(f) && f.stamp != Some(f.actual)
    ensures ProbeFile(f) == Attention <==> f.dehydrated.Present? && Identified(f) && f.stamp != Some(f.actual)
    ensures ProbeFile(f) == Unknown <==> f.dehydrated.Failed? || !Identified(f)
  {
  }

  lemma KeptExactly(e: Entry)
    ensures Kept(e) <==> !(".hydration-" <= e.name) && !(".onedrive-" <= e.name) && !e.verdict.excluded
  {
  }

  /** The entry at these positions, through folders that count. */
  predicate Sees(folder: Node, at: seq<nat>, e: Entry) {
    && at != [] && folder.Folder? && folder.opens && at[0] < |folder.entries|
    && if |at| == 1 then folder.entries[at[0]] == e
       else Kept(folder.entries[at[0]]) && Sees(folder.entries[at[0]].node, at[1..], e)
  }

  /** A folder that is identified and was read to the end. */
  predicate Intact(folder: Node) {
    folder.Folder? && folder.identified && folder.opens && !folder.readFails
  }

  /** Nothing about the entry speaks against a check mark. */
  predicate Fine(e: Entry) {
    && !e.verdict.unknown
    && (|| e.verdict.excluded
        || Intact(e.node)
        || (e.node.File?
            && var f := e.node.facts;
               f.dehydrated.Absent? && f.stamp == Some(f.actual) && f.hasId && f.hasTag && f.regular))
  }

  ghost predicate AllFine(root: Node) {
    forall at: seq<nat>, e: Entry :: Sees(root, at, e) && !Internal(e.name) ==> Fine(e)
  }

  lemma {:induction false} CleanSees(root: Node, at: seq<nat>, e: Entry)
    requires root.Folder? && CleanTree(root) && Sees(root, at, e) && !Internal(e.name)
    ensures Fine(e)
    decreases |at|
  {
    hide Internal, ProbeFile;
    var first := root.entries[at[0]];
    assert CleanEntry(first);
    if |at| > 1 {
      CleanSees(first.node, at[1..], e);
    } else if e.node.File? {
      ProbeExactly(e.node.facts);
    }
  }

  lemma {:induction false} SeenClean(root: Node)
    requires Intact(root) && AllFine(root)
    ensures CleanTree(root)
    decreases root
  {
    hide Internal, ProbeFile;
    forall i | 0 <= i < |root.entries| ensures CleanEntry(root.entries[i]) {
      var e := root.entries[i];
      assert Sees(root, [i], e);
      if e.node.File? { ProbeExactly(e.node.facts); }
      if !Internal(e.name) && !e.verdict.excluded && e.node.Folder? {
        forall at: seq<nat>, x: Entry | Sees(e.node, at, x) && !Internal(x.name) ensures Fine(x) {
          assert ([i] + at)[1..] == at;
          assert Sees(root, [i] + at, x);
        }
        SeenClean(e.node);
      }
    }
  }

  /** A check mark is due exactly to the trees in which every folder that counts is whole, every file that counts is
      here and unedited, and nothing else is there. */
  lemma CleanTreeExactly(root: Node)
    requires root.Folder?
    ensures CleanTree(root) <==> Intact(root) && AllFine(root)
  {
    hide Internal, Fine;
    if CleanTree(root) {
      forall at: seq<nat>, e: Entry | Sees(root, at, e) && !Internal(e.name) ensures Fine(e) { CleanSees(root, at, e); }
    } else if Intact(root) && AllFine(root) {
      SeenClean(root);
    }
  }

  /** A file in this state that counts. */
  predicate Shows(root: Node, at: seq<nat>, e: Entry, s: ContentState) {
    Sees(root, at, e) && Kept(e) && e.node.File? && ProbeFile(e.node.facts) == s
  }

  lemma {:induction false} SeesHas(root: Node, at: seq<nat>, e: Entry, s: ContentState)
    requires root.Folder? && Shows(root, at, e, s)
    ensures Has(root, s)
    decreases |at|
  {
    hide Kept, ProbeFile;
    var first := root.entries[at[0]];
    if |at| > 1 {
      assert Sees(first.node, at[1..], e);
      SeesHas(first.node, at[1..], e, s);
    }
    assert HasEntry(first, s);
  }

  lemma {:induction false} HasSees(root: Node, s: ContentState) returns (at: seq<nat>, e: Entry)
    requires root.Folder? && Has(root, s)
    ensures Shows(root, at, e, s)
    decreases root
  {
    hide Kept, ProbeFile;
    var i: nat :| i < |root.entries| && HasEntry(root.entries[i], s);
    if root.entries[i].node.Folder? {
      at, e := HasSees(root.entries[i].node, s);
      assert ([i] + at)[1..] == at;
      at := [i] + at;
    } else {
      at, e := [i], root.entries[i];
    }
  }

  /** `Has` speaks of a file that counts, anywhere in the tree. */
  lemma HasExactly(root: Node, s: ContentState)
    requires root.Folder?
    ensures Has(root, s) <==> exists at: seq<nat>, e: Entry :: Shows(root, at, e, s)
  {
    hide Shows, Has;
    if Has(root, s) {
      var at, e := HasSees(root, s);
    }
    forall at: seq<nat>, e: Entry | Shows(root, at, e, s) ensures Has(root, s) { SeesHas(root, at, e, s); }
  }

  /** Under a folder with a check mark every file that counts is on the device with its recorded content. */
  lemma UnderACheckMark(root: Node, at: seq<nat>, e: Entry)
    requires root.Folder? && CleanTree(root) && Sees(root, at, e) && Kept(e) && e.node.File?
    ensures e.node.facts.dehydrated.Absent? && e.node.facts.stamp == Some(e.node.facts.actual)
  {
    CleanSees(root, at, e);
  }
}
