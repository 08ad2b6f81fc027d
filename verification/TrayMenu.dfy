/** What the panel shows for a state, and how the tray keeps a host's copy of it up to date
    without resending everything. Wording is an enumeration; counts and paths are kept. */
module TrayMenu {
  import opened Text
  import opened DaemonTypes

  datatype Icon = IconSynced | IconUnsent | IconSyncing | IconExposed | IconStopped
  datatype SniStatus = Active | NeedsAttention

  datatype Headline =
    | StatusUnavailable
    | SyncStopped
    | CheckFolder
    | SignInRequired
    | SyncingFiles
    | UploadingFiles(n: nat)
    | DownloadingFiles(n: nat)
    | CheckingForChanges
    | WaitingToUpload(n: nat)
    | UpToDate
    | ResolvingConflict
    | ReviewNeeded
    | PausingAfterWork
    | SyncPaused

  datatype Detail =
    | Reconnecting
    | FilesSafe(exposedBefore: nat)
    | ExtraMount(unsent: nat, unsaved: bool)
    | SignInAgain(unsent: nat)
    | UpAndDown(unsaved: bool)
    | SavingChanges(unsaved: bool)
    | MakingAvailable(unsaved: bool)
    | LookingForUpdates(unsaved: bool)
    | NotReachedYet(unsent: nat, excluded: nat, unsaved: bool)
    | AllSaved(unsaved: bool)
    | FoldersNotSynced(n: nat)
    | RecoveryRetained
    | FilesToReview(n: nat)
    | PausedDetail

  datatype Row = OnlineOnly(n: nat) | DownloadingRow(n: nat) | CheckingRow | UploadingPath(path: string) | UploadingCount(n: nat)

  datatype Presentation = Presentation(
    icon: Icon,
    status: SniStatus,
    headline: Headline,
    detail: Detail,
    placeholdersRow: Option<Row>,
    downloadingRow: Option<Row>,
    indexingRow: bool,
    uploadingRow: Option<Row>,
    offerSignIn: bool)

  datatype Desktop = Desktop(paused: bool, issues: nat, excludedFolders: nat, resolving: bool)

  function Bare(icon: Icon, headline: Headline, detail: Detail): Presentation {
    Presentation(icon, Active, headline, detail, None, None, false, None, false)
  }

  function UploadRow(paths: seq<string>): Option<Row> {
    if paths == [] then None
    else if |paths| == 1 then Some(UploadingPath(paths[0]))
    else Some(UploadingCount(|paths|))
  }

  predicate Transferring(s: DaemonState) {
    s.downloading > 0 || s.indexing || s.uploading != []
  }

  /** `present`: the most urgent knowledge decides the headline, the rows do not depend on it. */
  function Present(state: Option<DaemonState>, credential: CredentialState): Presentation {
    match state
    case None => Bare(IconStopped, StatusUnavailable, Reconnecting)
    case Some(s) =>
      if !s.running then Bare(IconStopped, SyncStopped, FilesSafe(s.exposures)) else
      var unsaved := credential == CredentialState.Unsaved;
      var shown := Presentation(IconSynced, Active, UpToDate, AllSaved(unsaved),
        Some(OnlineOnly(s.excluded)),
        if s.downloading > 0 then Some(DownloadingRow(s.downloading)) else None,
        s.indexing, UploadRow(s.uploading), credential == CredentialState.Rejected);
      if s.exposures > 0 then
        shown.(icon := IconExposed, status := NeedsAttention, headline := CheckFolder, detail := ExtraMount(s.unsent, unsaved))
      else if credential == CredentialState.Rejected then
        shown.(icon := IconStopped, status := NeedsAttention, headline := SignInRequired, detail := SignInAgain(s.unsent))
      else if Transferring(s) then
        var (headline, detail) :=
          if s.downloading > 0 && s.uploading != [] then (SyncingFiles, UpAndDown(unsaved))
          else if s.uploading != [] then (UploadingFiles(|s.uploading|), SavingChanges(unsaved))
          else if s.downloading > 0 then (DownloadingFiles(s.downloading), MakingAvailable(unsaved))
          else (CheckingForChanges, LookingForUpdates(unsaved));
        shown.(icon := IconSyncing, headline := headline, detail := detail)
      else if s.unsent > 0 then
        shown.(icon := IconUnsent, headline := WaitingToUpload(s.unsent), detail := NotReachedYet(s.unsent, s.excluded, unsaved))
      else shown
  }

  function PresentWithDesktop(state: Option<DaemonState>, credential: CredentialState, d: Desktop): Presentation {
    var plain := Present(state, credential);
    var shown := if plain.headline == UpToDate && d.excludedFolders > 0
      then plain.(detail := FoldersNotSynced(d.excludedFolders)) else plain;
    if (d.paused || d.issues > 0 || d.resolving)
      && state.Some? && state.value.running && state.value.exposures == 0
      && credential != CredentialState.Rejected
    then
      if d.resolving then
        shown.(icon := IconSyncing, status := Active, headline := ResolvingConflict, detail := RecoveryRetained)
      else if d.issues > 0 then
        shown.(icon := IconUnsent, status := NeedsAttention, headline := ReviewNeeded, detail := FilesToReview(d.issues))
      else
        shown.(icon := IconStopped,
               headline := if Transferring(state.value) then PausingAfterWork else SyncPaused,
               detail := PausedDetail)
    else shown
  }

  // ---- the menu ----

  const ROOT := 0
  const STATUS := 1
  const SEPARATOR_A := 2
  const FOLDER := 3
  const SEPARATOR_B := 4
  const QUIT := 5
  const DOWNLOADING := 6
  const INDEXING := 7
  const UPLOADS := 8
  const SIGN_IN := 9
  const PLACEHOLDERS := 10

  datatype Value = Word(s: string) | Flag(b: bool) | Line(h: Headline) | RowLabel(r: Option<Row>)

  datatype Name = Label | Enabled | Visible | Type | IconName | ChildrenDisplay

  type Properties = map<Name, Value>

  function StatementRow(row: Option<Row>): seq<(Name, Value)> {
    [(Label, RowLabel(row)), (Enabled, Flag(false)), (Visible, Flag(row.Some?))]
  }

  function ItemProperties(p: Presentation, hasMount: bool, id: int): Option<seq<(Name, Value)>> {
    if id == ROOT then Some([(ChildrenDisplay, Word("submenu"))])
    else if id == STATUS then Some([(Label, Line(p.headline)), (Enabled, Flag(false))])
    else if id == PLACEHOLDERS then Some(StatementRow(p.placeholdersRow))
    else if id == DOWNLOADING then Some(StatementRow(p.downloadingRow))
    else if id == INDEXING then Some(StatementRow(if p.indexingRow then Some(CheckingRow) else None))
    else if id == UPLOADS then Some(StatementRow(p.uploadingRow))
    else if id == SEPARATOR_A then Some([(Type, Word("separator"))])
    else if id == SIGN_IN then
      Some([(Label, Word("Sign In")), (IconName, Word("dialog-password")),
            (Enabled, Flag(p.offerSignIn)), (Visible, Flag(p.offerSignIn))])
    else if id == FOLDER && hasMount then Some([(Label, Word("Open Folder")), (IconName, Word("folder"))])
    else if id == SEPARATOR_B && hasMount then Some([(Type, Word("separator"))])
    else if id == QUIT then Some([(Label, Word("Hide tray icon")), (IconName, Word("application-exit"))])
    else None
  }

  const DYNAMIC := [STATUS, PLACEHOLDERS, DOWNLOADING, INDEXING, UPLOADS, SIGN_IN]

  function ItemIds(hasMount: bool): seq<int> {
    [STATUS, PLACEHOLDERS, DOWNLOADING, INDEXING, UPLOADS, SEPARATOR_A, SIGN_IN]
    + (if hasMount then [FOLDER, SEPARATOR_B] else []) + [QUIT]
  }

  /** `owned_props`: the pairs as a dictionary. */
  function OwnedProperties(pairs: seq<(Name, Value)>): Properties {
    if pairs == [] then map[] else OwnedProperties(pairs[..|pairs| - 1])[pairs[|pairs| - 1].0 := pairs[|pairs| - 1].1]
  }

  function Item(p: Presentation, hasMount: bool, id: int): Properties {
    match ItemProperties(p, hasMount, id)
    case Some(pairs) => OwnedProperties(pairs)
    case None => map[]
  }

  /** What a host holds after `GetLayout` on the root, or a full `GetGroupProperties`. */
  function FullMenu(p: Presentation, hasMount: bool): map<int, Properties> {
    map id | id in [ROOT] + ItemIds(hasMount) :: Item(p, hasMount, id)
  }

  /** Signals of the item, to which a host answers by reading the properties again. */
  datatype ItemSignal = NewIcon | NewAttentionIcon | NewStatus | NewToolTip

  datatype ItemView = ItemView(icon: Icon, attentionIcon: Icon, status: SniStatus, headline: Headline, detail: Detail)

  function ViewOf(p: Presentation): ItemView {
    ItemView(p.icon, p.icon, p.status, p.headline, p.detail)
  }

  function Refresh(v: ItemView, s: ItemSignal, now: Presentation): ItemView {
    match s
    case NewIcon => v.(icon := now.icon)
    case NewAttentionIcon => v.(attentionIcon := now.icon)
    case NewStatus => v.(status := now.status)
    case NewToolTip => v.(headline := now.headline, detail := now.detail)
  }

  function RefreshAll(v: ItemView, signals: seq<ItemSignal>, now: Presentation): ItemView {
    if signals == [] then v
    else Refresh(RefreshAll(v, signals[..|signals| - 1], now), signals[|signals| - 1], now)
  }

  function ItemSignals(previous: Presentation, now: Presentation): seq<ItemSignal> {
    (if previous.icon != now.icon then [NewIcon, NewAttentionIcon] else [])
    + (if previous.status != now.status then [NewStatus] else [])
    + (if previous.headline != now.headline || previous.detail != now.detail then [NewToolTip] else [])
  }

  type Updates = seq<(int, Properties)>

  /** The payload of `ItemsPropertiesUpdated`: the items among `ids` whose properties differ. */
  function Diff(previous: Presentation, now: Presentation, hasMount: bool, ids: seq<int>): Updates {
    if ids == [] then [] else
      var id := ids[|ids| - 1];
      Diff(previous, now, hasMount, ids[..|ids| - 1]) +
      (if ItemProperties(previous, hasMount, id) == ItemProperties(now, hasMount, id) then []
       else [(id, Item(now, hasMount, id))])
  }

  /** A host merges the properties it is sent into the ones it holds. */
  function MergeUpdates(host: map<int, Properties>, updates: Updates): map<int, Properties> {
    if updates == [] then host else
      var before := MergeUpdates(host, updates[..|updates| - 1]);
      var (id, props) := updates[|updates| - 1];
      before[id := (if id in before then before[id] else map[]) + props]
  }

  const U32_LIMIT: nat := 0x1_0000_0000

  function NextRevision(revision: nat, updates: Updates): nat {
    if updates == [] then revision else (revision + 1) % U32_LIMIT
  }

  lemma DynamicItemExists(p: Presentation, hasMount: bool, i: nat)
    requires i < |DYNAMIC|
    ensures ItemProperties(p, hasMount, DYNAMIC[i]).Some?
  {
  }

  /** The two served objects; the item and the menu each store a presentation. */
  class Tray {
    const hasMount: bool
    var item: Presentation
    var menu: Presentation
    var revision: nat

    constructor (hasMount: bool)
      ensures item == menu == Present(None, CredentialState.Unknown)
      ensures revision == 1 && this.hasMount == hasMount
    {
      this.hasMount := hasMount;
      item := Present(None, CredentialState.Unknown);
      menu := Present(None, CredentialState.Unknown);
      revision := 1;
    }

    /** `apply_presentation`. */
    method ApplyPresentation(p: Presentation) returns (signals: seq<ItemSignal>, updates: Updates)
      modifies this
      ensures item == menu == p
      ensures signals == ItemSignals(old(item), p)
      ensures updates == Diff(old(menu), p, hasMount, DYNAMIC)
      ensures revision == NextRevision(old(revision), updates)
    {
      hide ItemProperties, OwnedProperties;
      var previous := item;
      item := p;
      signals := [];
      if previous.icon != p.icon {
        signals := signals + [NewIcon, NewAttentionIcon];
      }
      if previous.status != p.status {
        signals := signals + [NewStatus];
      }
      if previous.headline != p.headline || previous.detail != p.detail {
        signals := signals + [NewToolTip];
      }
      var previousMenu := menu;
      menu := p;
      updates := [];
      for i := 0 to |DYNAMIC|
        invariant updates == Diff(previousMenu, p, hasMount, DYNAMIC[..i])
        invariant item == menu == p && revision == old(revision)
      {
        var id := DYNAMIC[i];
        assert DYNAMIC[..i + 1][..i] == DYNAMIC[..i];
        DynamicItemExists(p, hasMount, i);
        var now := ItemProperties(p, hasMount, id);
        if ItemProperties(previousMenu, hasMount, id) != now && now.Some? {
          updates := updates + [(id, OwnedProperties(now.value))];
        }
      }
      assert DYNAMIC[..|DYNAMIC|] == DYNAMIC;
      if updates != [] {
        revision := (revision + 1) % U32_LIMIT;
      }
    }

    /** `get_layout`: the item, and for the root its children unless the depth is zero. */
    method GetLayout(parent: int, depth: int) returns (reply: Option<(nat, Properties, Updates)>)
      ensures reply.None? <==> ItemProperties(menu, hasMount, parent).None?
      ensures reply.Some? ==> reply.value.0 == revision && reply.value.1 == Item(menu, hasMount, parent)
      ensures reply.Some? ==> (reply.value.2 ==
        if parent == ROOT && depth != 0 then Children(menu, hasMount, ItemIds(hasMount)) else [])
    {
      var props := ItemProperties(menu, hasMount, parent);
      if props.None? { return None; }
      var children: Updates := [];
      if parent == ROOT && depth != 0 {
        var ids := ItemIds(hasMount);
        for i := 0 to |ids|
          invariant children == Children(menu, hasMount, ids[..i])
        {
          assert ids[..i + 1][..i] == ids[..i];
          children := children + [(ids[i], Item(menu, hasMount, ids[i]))];
        }
        assert ids[..|ids|] == ids;
      }
      return Some((revision, OwnedProperties(props.value), children));
    }
  }

  function Children(p: Presentation, hasMount: bool, ids: seq<int>): Updates {
    if ids == [] then []
    else Children(p, hasMount, ids[..|ids| - 1]) + [(ids[|ids| - 1], Item(p, hasMount, ids[|ids| - 1]))]
  }
}
