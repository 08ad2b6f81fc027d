/** A host that merges incremental updates holds the menu a full read would give. */
module MenuGuarantees {
  import opened Text
  import opened DaemonTypes
  import opened TrayMenu

  function NamesOf(pairs: seq<(Name, Value)>): (names: seq<Name>)
    ensures |names| == |pairs| && forall i :: 0 <= i < |pairs| ==> names[i] == pairs[i].0
  {
    seq(|pairs|, i requires 0 <= i < |pairs| => pairs[i].0)
  }

  predicate AllDifferent(names: seq<Name>) {
    forall i, j :: 0 <= i < j < |names| ==> names[i] != names[j]
  }

  lemma {:induction false} OwnedKeys(pairs: seq<(Name, Value)>)
    ensures OwnedProperties(pairs).Keys == (set n | n in NamesOf(pairs))
  {
    if pairs != [] {
      var front, last := pairs[..|pairs| - 1], pairs[|pairs| - 1];
      assert NamesOf(pairs) == NamesOf(front) + [last.0];
      OwnedKeys(front);
    }
  }

  lemma {:induction false} OwnedLookup(pairs: seq<(Name, Value)>, i: nat)
    requires AllDifferent(NamesOf(pairs)) && i < |pairs|
    ensures pairs[i].0 in OwnedProperties(pairs) && OwnedProperties(pairs)[pairs[i].0] == pairs[i].1
  {
    var front, last := pairs[..|pairs| - 1], pairs[|pairs| - 1];
    if i < |front| {
      assert NamesOf(pairs)[i] != NamesOf(pairs)[|front|];
      assert forall j :: 0 <= j < |front| ==> NamesOf(front)[j] == NamesOf(pairs)[j];
      OwnedLookup(front, i);
    }
  }

  /** The names an item has, in their order. */
  function ItemNames(id: int): seq<Name> {
    if id == ROOT then [ChildrenDisplay]
    else if id == STATUS then [Label, Enabled]
    else if id in [PLACEHOLDERS, DOWNLOADING, INDEXING, UPLOADS] then [Label, Enabled, Visible]
    else if id in [SEPARATOR_A, SEPARATOR_B] then [Type]
    else if id == SIGN_IN then [Label, IconName, Enabled, Visible]
    else [Label, IconName]
  }

  lemma ItemHasItsNames(p: Presentation, hasMount: bool, id: int)
    ensures ItemProperties(p, hasMount, id).Some? ==> NamesOf(ItemProperties(p, hasMount, id).value) == ItemNames(id)
    ensures AllDifferent(ItemNames(id))
  {
    NamesDiffer(id);
  }

  lemma NamesDiffer(id: int)
    ensures AllDifferent(ItemNames(id))
  {
  }

  /** The names under which an item has properties never change. */
  lemma KeysAreConstant(p: Presentation, q: Presentation, hasMount: bool, id: int)
    ensures Item(p, hasMount, id).Keys == Item(q, hasMount, id).Keys
  {
    hide ItemProperties, ItemNames;
    KnownItems(p, hasMount, id);
    KnownItems(q, hasMount, id);
    ItemHasItsNames(p, hasMount, id);
    ItemHasItsNames(q, hasMount, id);
    if ItemProperties(p, hasMount, id).Some? {
      OwnedKeys(ItemProperties(p, hasMount, id).value);
      OwnedKeys(ItemProperties(q, hasMount, id).value);
    }
  }

  /** Only the dynamic items depend on the presentation. */
  lemma OthersAreConstant(p: Presentation, q: Presentation, hasMount: bool, id: int)
    requires id !in DYNAMIC
    ensures ItemProperties(p, hasMount, id) == ItemProperties(q, hasMount, id)
  {
  }

  lemma KnownItems(p: Presentation, hasMount: bool, id: int)
    ensures ItemProperties(p, hasMount, id).Some? <==> id in [ROOT] + ItemIds(hasMount)
  {
  }

  /** The menu with the items in `ids` already taken from the new presentation. */
  function MixedMenu(p: Presentation, q: Presentation, hasMount: bool, ids: seq<int>): map<int, Properties> {
    map id | id in [ROOT] + ItemIds(hasMount) :: if id in ids then Item(q, hasMount, id) else Item(p, hasMount, id)
  }

  lemma MergeLast(host: map<int, Properties>, updates: Updates, id: int, props: Properties)
    ensures MergeUpdates(host, updates + [(id, props)])
         == (var before := MergeUpdates(host, updates); before[id := (if id in before then before[id] else map[]) + props])
  {
    assert (updates + [(id, props)])[..|updates|] == updates;
  }

  /** Sending a whole item replaces it, because its names are the ones the host holds. */
  lemma ReplaceItem(p: Presentation, q: Presentation, hasMount: bool, ids: seq<int>, id: int)
    requires id in [ROOT] + ItemIds(hasMount)
    ensures var before := MixedMenu(p, q, hasMount, ids);
      id in before && before[id := before[id] + Item(q, hasMount, id)] == MixedMenu(p, q, hasMount, ids + [id])
  {
    hide Item, ItemIds;
    KeysAreConstant(p, q, hasMount, id);
    var before := MixedMenu(p, q, hasMount, ids);
    assert before[id] + Item(q, hasMount, id) == Item(q, hasMount, id);
    assert forall x :: x in ids + [id] <==> x in ids || x == id;
  }

  lemma {:induction false} MergeDiff(p: Presentation, q: Presentation, hasMount: bool, ids: seq<int>)
    requires forall i :: 0 <= i < |ids| ==> ids[i] in [ROOT] + ItemIds(hasMount)
    ensures MergeUpdates(FullMenu(p, hasMount), Diff(p, q, hasMount, ids)) == MixedMenu(p, q, hasMount, ids)
  {
    hide ItemProperties, Item, ItemIds;
    if ids == [] {
      assert FullMenu(p, hasMount) == MixedMenu(p, q, hasMount, ids);
    } else {
      hide FullMenu, MixedMenu;
      var front, id := ids[..|ids| - 1], ids[|ids| - 1];
      assert ids == front + [id];
      MergeDiff(p, q, hasMount, front);
      ReplaceItem(p, q, hasMount, front, id);
      if ItemProperties(p, hasMount, id) == ItemProperties(q, hasMount, id) {
        SameItem(p, q, hasMount, id);
        assert Diff(p, q, hasMount, ids) == Diff(p, q, hasMount, front);
      } else {
        assert Diff(p, q, hasMount, ids) == Diff(p, q, hasMount, front) + [(id, Item(q, hasMount, id))];
        MergeLast(FullMenu(p, hasMount), Diff(p, q, hasMount, front), id, Item(q, hasMount, id));
      }
    }
  }

  lemma SameItem(p: Presentation, q: Presentation, hasMount: bool, id: int)
    requires ItemProperties(p, hasMount, id) == ItemProperties(q, hasMount, id)
    ensures Item(p, hasMount, id) == Item(q, hasMount, id)
  {
  }

  /** One update brings a host's copy exactly to what a full re-read would give. */
  lemma DiffIsExact(p: Presentation, q: Presentation, hasMount: bool)
    ensures MergeUpdates(FullMenu(p, hasMount), Diff(p, q, hasMount, DYNAMIC)) == FullMenu(q, hasMount)
  {
    hide ItemProperties, Item;
    MergeDiff(p, q, hasMount, DYNAMIC);
    forall id | id !in DYNAMIC
      ensures Item(p, hasMount, id) == Item(q, hasMount, id)
    {
      OthersAreConstant(p, q, hasMount, id);
      SameItem(p, q, hasMount, id);
    }
  }

  /** A host that reads the layout once and then applies only what it is sent. */
  function HostAfter(p: Presentation, hasMount: bool, shown: seq<Presentation>): map<int, Properties> {
    if shown == [] then FullMenu(p, hasMount) else
      var before := shown[..|shown| - 1];
      MergeUpdates(HostAfter(p, hasMount, before), Diff(LastShown(p, before), shown[|shown| - 1], hasMount, DYNAMIC))
  }

  function LastShown(p: Presentation, shown: seq<Presentation>): Presentation {
    if shown == [] then p else shown[|shown| - 1]
  }

  /** However many presentations follow, the host holds the menu of the last one. */
  lemma {:induction false} HostIsCurrent(p: Presentation, hasMount: bool, shown: seq<Presentation>)
    ensures HostAfter(p, hasMount, shown) == FullMenu(LastShown(p, shown), hasMount)
  {
    hide FullMenu, MergeUpdates, Diff;
    if shown != [] {
      var before := shown[..|shown| - 1];
      HostIsCurrent(p, hasMount, before);
      DiffIsExact(LastShown(p, before), shown[|shown| - 1], hasMount);
    }
  }

  lemma {:induction false} EmptyDiff(p: Presentation, q: Presentation, hasMount: bool, ids: seq<int>)
    ensures Diff(p, q, hasMount, ids) == [] <==>
      forall i :: 0 <= i < |ids| ==> ItemProperties(p, hasMount, ids[i]) == ItemProperties(q, hasMount, ids[i])
  {
    hide ItemProperties, Item;
    if ids != [] {
      EmptyDiff(p, q, hasMount, ids[..|ids| - 1]);
    }
  }

  /** The pairs of an item are in a fixed order without repeats, so equal dictionaries come from
      equal lists: comparing lists sends nothing superfluous. */
  lemma DictionaryDeterminesItem(p: Presentation, q: Presentation, hasMount: bool, id: int)
    requires id in DYNAMIC && Item(p, hasMount, id) == Item(q, hasMount, id)
    ensures ItemProperties(p, hasMount, id) == ItemProperties(q, hasMount, id)
  {
    hide ItemProperties;
    KnownItems(p, hasMount, id);
    KnownItems(q, hasMount, id);
    ItemHasItsNames(p, hasMount, id);
    ItemHasItsNames(q, hasMount, id);
    var a, b := ItemProperties(p, hasMount, id).value, ItemProperties(q, hasMount, id).value;
    assert NamesOf(a) == NamesOf(b);
    forall i | 0 <= i < |a| ensures a[i] == b[i] {
      assert NamesOf(a)[i] == NamesOf(b)[i];
      OwnedLookup(a, i);
      OwnedLookup(b, i);
    }
    assert a == b;
  }

  lemma SameMenuSameItem(p: Presentation, q: Presentation, hasMount: bool, id: int)
    requires FullMenu(p, hasMount) == FullMenu(q, hasMount) && id in DYNAMIC
    ensures ItemProperties(p, hasMount, id) == ItemProperties(q, hasMount, id)
  {
    hide ItemProperties, Item;
    assert FullMenu(p, hasMount)[id] == Item(p, hasMount, id);
    assert FullMenu(q, hasMount)[id] == Item(q, hasMount, id);
    DictionaryDeterminesItem(p, q, hasMount, id);
  }

  /** Something is sent, and the revision moves, exactly when a full re-read would differ. */
  lemma RevisionMovesExactlyOnChange(p: Presentation, q: Presentation, hasMount: bool, revision: nat)
    requires revision < U32_LIMIT
    ensures NextRevision(revision, Diff(p, q, hasMount, DYNAMIC)) != revision
      <==> FullMenu(p, hasMount) != FullMenu(q, hasMount)
  {
    hide ItemProperties, Diff, FullMenu, MergeUpdates;
    EmptyDiff(p, q, hasMount, DYNAMIC);
    if Diff(p, q, hasMount, DYNAMIC) == [] {
      DiffIsExact(p, q, hasMount);
      NothingToMerge(FullMenu(p, hasMount));
    } else if FullMenu(p, hasMount) == FullMenu(q, hasMount) {
      forall i | 0 <= i < |DYNAMIC|
        ensures ItemProperties(p, hasMount, DYNAMIC[i]) == ItemProperties(q, hasMount, DYNAMIC[i])
      {
        SameMenuSameItem(p, q, hasMount, DYNAMIC[i]);
      }
    }
  }

  lemma NothingToMerge(host: map<int, Properties>)
    ensures MergeUpdates(host, []) == host
  {
  }

  lemma RefreshOne(v: ItemView, signal: ItemSignal, now: Presentation)
    ensures RefreshAll(v, [], now) == v
    ensures RefreshAll(v, [signal], now) == Refresh(v, signal, now)
  {
    hide Refresh;
    assert [signal][..0] == [];
  }

  lemma RefreshIcons(v: ItemView, now: Presentation)
    ensures RefreshAll(v, [NewIcon, NewAttentionIcon], now) == v.(icon := now.icon, attentionIcon := now.icon)
  {
    hide RefreshAll;
    RefreshAppend(v, [NewIcon], [NewAttentionIcon], now);
    RefreshOne(v, NewIcon, now);
    RefreshOne(Refresh(v, NewIcon, now), NewAttentionIcon, now);
    assert [NewIcon] + [NewAttentionIcon] == [NewIcon, NewAttentionIcon];
  }

  /** Reading again after the item's signals gives the current icon, status and tooltip. */
  lemma SignalsAreEnough(p: Presentation, q: Presentation)
    ensures RefreshAll(ViewOf(p), ItemSignals(p, q), q) == ViewOf(q)
  {
    hide RefreshAll;
    var icon := if p.icon != q.icon then [NewIcon, NewAttentionIcon] else [];
    var status := if p.status != q.status then [NewStatus] else [];
    var tip := if p.headline != q.headline || p.detail != q.detail then [NewToolTip] else [];
    var v := ViewOf(p);
    var v1 := v.(icon := q.icon, attentionIcon := q.icon);
    var v2 := v1.(status := q.status);
    RefreshAppend(v, icon, status, q);
    RefreshAppend(v, icon + status, tip, q);
    assert RefreshAll(v, icon, q) == v1 by { RefreshIcons(v, q); RefreshOne(v, NewIcon, q); }
    assert RefreshAll(v1, status, q) == v2 by { RefreshOne(v1, NewStatus, q); }
    assert RefreshAll(v2, tip, q) == ViewOf(q) by { RefreshOne(v2, NewToolTip, q); }
  }

  lemma {:induction false} RefreshAppend(v: ItemView, a: seq<ItemSignal>, b: seq<ItemSignal>, now: Presentation)
    ensures RefreshAll(v, a + b, now) == RefreshAll(RefreshAll(v, a, now), b, now)
  {
    if b == [] {
      assert a + b == a;
    } else {
      assert (a + b)[..|a + b| - 1] == a + b[..|b| - 1];
      RefreshAppend(v, a, b[..|b| - 1], now);
    }
  }

  /** The idle headline is shown only when nothing is pending, refused, exposed or held back. */
  lemma UpToDateIsHonest(state: Option<DaemonState>, credential: CredentialState, d: Desktop)
    ensures PresentWithDesktop(state, credential, d).headline == UpToDate <==>
      && state.Some? && state.value.running
      && state.value.exposures == 0 && state.value.unsent == 0 && !Transferring(state.value)
      && credential != CredentialState.Rejected
      && !d.paused && d.issues == 0 && !d.resolving
  {
  }

  /** Whoever is asked to act is told so, and sign-in is offered only on the running daemon's word. */
  lemma AttentionExactly(state: Option<DaemonState>, credential: CredentialState, d: Desktop)
    ensures PresentWithDesktop(state, credential, d).status == NeedsAttention <==>
      && state.Some? && state.value.running
      && (state.value.exposures > 0 || credential == CredentialState.Rejected || (d.issues > 0 && !d.resolving))
    ensures PresentWithDesktop(state, credential, d).offerSignIn <==>
      state.Some? && state.value.running && credential == CredentialState.Rejected
  {
  }

  /** The items of a layout, once those in `ids` have been received. */
  function Received(p: Presentation, hasMount: bool, ids: seq<int>): map<int, Properties> {
    map id | id in [ROOT] + ids :: Item(p, hasMount, id)
  }

  lemma ReceiveOne(p: Presentation, hasMount: bool, ids: seq<int>, id: int)
    requires id !in [ROOT] + ids
    ensures id !in Received(p, hasMount, ids)
    ensures Received(p, hasMount, ids)[id := Item(p, hasMount, id)] == Received(p, hasMount, ids + [id])
  {
    hide Item;
    assert forall x :: x in [ROOT] + (ids + [id]) <==> x in [ROOT] + ids || x == id;
  }

  lemma {:induction false} MergeChildren(p: Presentation, hasMount: bool, ids: seq<int>)
    requires forall i, j :: 0 <= i < j < |ids| ==> ids[i] != ids[j]
    requires ROOT !in ids
    ensures MergeUpdates(map[ROOT := Item(p, hasMount, ROOT)], Children(p, hasMount, ids))
         == Received(p, hasMount, ids)
  {
    hide Item, MergeUpdates, Received;
    if ids == [] {
      NothingReceived(p, hasMount);
    } else {
      var front, id := ids[..|ids| - 1], ids[|ids| - 1];
      assert ids == front + [id] && id !in [ROOT] + front;
      MergeChildren(p, hasMount, front);
      ReceiveOne(p, hasMount, front, id);
      MergeLast(map[ROOT := Item(p, hasMount, ROOT)], Children(p, hasMount, front), id, Item(p, hasMount, id));
      assert map[] + Item(p, hasMount, id) == Item(p, hasMount, id);
    }
  }

  lemma NothingReceived(p: Presentation, hasMount: bool)
    ensures MergeUpdates(map[ROOT := Item(p, hasMount, ROOT)], []) == Received(p, hasMount, [])
  {
    hide Item;
    assert [ROOT] + [] == [ROOT];
  }

  /** The reply to `GetLayout` on the root carries the whole menu. */
  lemma LayoutIsFullMenu(p: Presentation, hasMount: bool)
    ensures MergeUpdates(map[ROOT := Item(p, hasMount, ROOT)], Children(p, hasMount, ItemIds(hasMount))) == FullMenu(p, hasMount)
  {
    hide Item;
    MergeChildren(p, hasMount, ItemIds(hasMount));
  }
}
