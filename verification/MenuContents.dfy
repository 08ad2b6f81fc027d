/** What the tray shows, read off the daemon's state, the sign-in and the desktop themselves. */
module MenuContents {
  import opened Text
  import opened DaemonTypes
  import opened TrayMenu
  import opened MenuGuarantees

  predicate Up(state: Option<DaemonState>) {
    state.Some? && state.value.running
  }

  /** The desktop has something to say, and nothing more urgent is known. */
  predicate DesktopSpeaks(s: DaemonState, credential: CredentialState, d: Desktop) {
    (d.paused || d.issues > 0 || d.resolving) && s.exposures == 0 && credential != CredentialState.Rejected
  }

  /** Without a running daemon nothing else counts. */
  lemma StoppedExactly(state: Option<DaemonState>, credential: CredentialState, d: Desktop)
    ensures var p := PresentWithDesktop(state, credential, d);
      && (p.headline == StatusUnavailable <==> state.None?)
      && (p.headline == SyncStopped <==> state.Some? && !state.value.running)
      && (state.None? ==> p.detail == Reconnecting)
      && (state.Some? && !state.value.running ==> p.detail == FilesSafe(state.value.exposures))
      && (!Up(state) ==> p.icon == IconStopped && p.status == Active)
  {
  }

  /** Every headline of a running daemon, and the state it stands for. */
  lemma HeadlineExactly(s: DaemonState, credential: CredentialState, d: Desktop)
    requires s.running
    ensures var h := PresentWithDesktop(Some(s), credential, d).headline;
      var rejected, speaks := credential == CredentialState.Rejected, DesktopSpeaks(s, credential, d);
      var plain := s.exposures == 0 && !rejected && !speaks;
      && (h == CheckFolder <==> s.exposures > 0)
      && (h == SignInRequired <==> s.exposures == 0 && rejected)
      && (h == ResolvingConflict <==> speaks && d.resolving)
      && (h == ReviewNeeded <==> speaks && !d.resolving && d.issues > 0)
      && (h == PausingAfterWork <==> speaks && !d.resolving && d.issues == 0 && Transferring(s))
      && (h == SyncPaused <==> speaks && !d.resolving && d.issues == 0 && !Transferring(s))
      && (h == SyncingFiles <==> plain && s.downloading > 0 && s.uploading != [])
      && (forall n :: h == UploadingFiles(n) <==> plain && s.downloading == 0 && s.uploading != [] && n == |s.uploading|)
      && (forall n :: h == DownloadingFiles(n) <==> plain && s.downloading > 0 && s.uploading == [] && n == s.downloading)
      && (h == CheckingForChanges <==> plain && s.downloading == 0 && s.uploading == [] && s.indexing)
      && (forall n :: h == WaitingToUpload(n) <==> plain && !Transferring(s) && s.unsent > 0 && n == s.unsent)
      && (h == UpToDate <==> plain && !Transferring(s) && s.unsent == 0)
  {
  }

  /** What is said below each headline. */
  lemma DetailExactly(s: DaemonState, credential: CredentialState, d: Desktop)
    requires s.running
    ensures var p := PresentWithDesktop(Some(s), credential, d);
      var unsaved := credential == CredentialState.Unsaved;
      p.detail == match p.headline
        case CheckFolder => ExtraMount(s.unsent, unsaved)
        case SignInRequired => SignInAgain(s.unsent)
        case SyncingFiles => UpAndDown(unsaved)
        case UploadingFiles(_) => SavingChanges(unsaved)
        case DownloadingFiles(_) => MakingAvailable(unsaved)
        case CheckingForChanges => LookingForUpdates(unsaved)
        case WaitingToUpload(_) => NotReachedYet(s.unsent, s.excluded, unsaved)
        case ResolvingConflict => RecoveryRetained
        case ReviewNeeded => FilesToReview(d.issues)
        case PausingAfterWork => PausedDetail
        case SyncPaused => PausedDetail
        case _ => if d.excludedFolders > 0 then FoldersNotSynced(d.excludedFolders) else AllSaved(unsaved)
  {
  }

  /** The icon goes with the headline. */
  lemma IconExactly(s: DaemonState, credential: CredentialState, d: Desktop)
    requires s.running
    ensures var p := PresentWithDesktop(Some(s), credential, d);
      && (p.icon == IconExposed <==> p.headline == CheckFolder)
      && (p.icon == IconStopped <==> p.headline in {SignInRequired, PausingAfterWork, SyncPaused})
      && (p.icon == IconSyncing <==>
            || p.headline in {ResolvingConflict, SyncingFiles, CheckingForChanges}
            || p.headline.UploadingFiles? || p.headline.DownloadingFiles?)
      && (p.icon == IconUnsent <==> p.headline == ReviewNeeded || p.headline.WaitingToUpload?)
      && (p.icon == IconSynced <==> p.headline == UpToDate)
  {
  }

  /** What the statement rows say, whatever the headline. */
  lemma RowsExactly(state: Option<DaemonState>, credential: CredentialState, d: Desktop)
    ensures var p := PresentWithDesktop(state, credential, d);
      if !Up(state) then
        p.placeholdersRow == p.downloadingRow == p.uploadingRow == None && !p.indexingRow && !p.offerSignIn
      else
        var s := state.value;
        && p.placeholdersRow == Some(OnlineOnly(s.excluded))
        && p.downloadingRow == (if s.downloading == 0 then None else Some(DownloadingRow(s.downloading)))
        && p.indexingRow == s.indexing
        && (p.uploadingRow.None? <==> s.uploading == [])
        && (|s.uploading| == 1 ==> p.uploadingRow == Some(UploadingPath(s.uploading[0])))
        && (|s.uploading| > 1 ==> p.uploadingRow == Some(UploadingCount(|s.uploading|)))
        && (p.offerSignIn <==> credential == CredentialState.Rejected)
  {
  }

  /** A statement row: greyed out, and there exactly when it has something to say. */
  predicate Says(item: Properties, row: Option<Row>) {
    item == map[Label := RowLabel(row), Enabled := Flag(false), Visible := Flag(row.Some?)]
  }

  lemma Pairs2(a: (Name, Value), b: (Name, Value))
    requires a.0 != b.0
    ensures OwnedProperties([a, b]) == map[a.0 := a.1, b.0 := b.1]
  {
    assert [a, b][..1] == [a] && [a][..0] == [];
    assert OwnedProperties([a]) == map[a.0 := a.1];
  }

  lemma Pairs3(a: (Name, Value), b: (Name, Value), c: (Name, Value))
    requires a.0 != b.0 && a.0 != c.0 && b.0 != c.0
    ensures OwnedProperties([a, b, c]) == map[a.0 := a.1, b.0 := b.1, c.0 := c.1]
  {
    Pairs2(a, b);
    assert [a, b, c][..2] == [a, b];
  }

  lemma Pairs4(a: (Name, Value), b: (Name, Value), c: (Name, Value), d: (Name, Value))
    requires a.0 != b.0 && a.0 != c.0 && a.0 != d.0 && b.0 != c.0 && b.0 != d.0 && c.0 != d.0
    ensures OwnedProperties([a, b, c, d]) == map[a.0 := a.1, b.0 := b.1, c.0 := c.1, d.0 := d.1]
  {
    Pairs3(a, b, c);
    assert [a, b, c, d][..3] == [a, b, c];
  }

  /** Each item of the menu shows what it is there for. */
  lemma MenuShows(p: Presentation, hasMount: bool)
    ensures Item(p, hasMount, STATUS) == map[Label := Line(p.headline), Enabled := Flag(false)]
    ensures Says(Item(p, hasMount, PLACEHOLDERS), p.placeholdersRow)
    ensures Says(Item(p, hasMount, DOWNLOADING), p.downloadingRow)
    ensures Says(Item(p, hasMount, INDEXING), if p.indexingRow then Some(CheckingRow) else None)
    ensures Says(Item(p, hasMount, UPLOADS), p.uploadingRow)
    ensures Item(p, hasMount, SIGN_IN) == map[Label := Word("Sign In"), IconName := Word("dialog-password"),
      Enabled := Flag(p.offerSignIn), Visible := Flag(p.offerSignIn)]
  {
    hide OwnedProperties;
    Pairs2((Label, Line(p.headline)), (Enabled, Flag(false)));
    StatementShows(p.placeholdersRow);
    StatementShows(p.downloadingRow);
    StatementShows(if p.indexingRow then Some(CheckingRow) else None);
    StatementShows(p.uploadingRow);
    Pairs4((Label, Word("Sign In")), (IconName, Word("dialog-password")),
           (Enabled, Flag(p.offerSignIn)), (Visible, Flag(p.offerSignIn)));
  }

  lemma StatementShows(row: Option<Row>)
    ensures Says(OwnedProperties(StatementRow(row)), row)
  {
    Pairs3((Label, RowLabel(row)), (Enabled, Flag(false)), (Visible, Flag(row.Some?)));
  }

  /** From the daemon's state to the menu. */
  lemma MenuOfState(s: DaemonState, credential: CredentialState, d: Desktop, hasMount: bool)
    requires s.running
    ensures var p := PresentWithDesktop(Some(s), credential, d);
      && Says(Item(p, hasMount, PLACEHOLDERS), Some(OnlineOnly(s.excluded)))
      && Says(Item(p, hasMount, DOWNLOADING), if s.downloading > 0 then Some(DownloadingRow(s.downloading)) else None)
      && Says(Item(p, hasMount, INDEXING), if s.indexing then Some(CheckingRow) else None)
      && Says(Item(p, hasMount, UPLOADS),
           if s.uploading == [] then None
           else Some(if |s.uploading| == 1 then UploadingPath(s.uploading[0]) else UploadingCount(|s.uploading|)))
      && Item(p, hasMount, SIGN_IN)[Visible] == Flag(credential == CredentialState.Rejected)
  {
    hide PresentWithDesktop, Item, Says;
    var p := PresentWithDesktop(Some(s), credential, d);
    RowsExactly(Some(s), credential, d);
    MenuShows(p, hasMount);
  }

  /** The items from top to bottom; the folder and its separator are there when there is a mount to open. */
  lemma ItemsInOrder()
    ensures ItemIds(true) == [1, 10, 6, 7, 8, 2, 9, 3, 4, 5] && ItemIds(false) == [1, 10, 6, 7, 8, 2, 9, 5]
    ensures STATUS == 1 && PLACEHOLDERS == 10 && DOWNLOADING == 6 && INDEXING == 7 && UPLOADS == 8 && SIGN_IN == 9
  {
  }

  /** A host is signalled about exactly what has changed, each thing once. */
  lemma SignalsExactly(p: Presentation, q: Presentation)
    ensures var signals := ItemSignals(p, q);
      && (NewIcon in signals <==> p.icon != q.icon) && (NewAttentionIcon in signals <==> p.icon != q.icon)
      && (NewStatus in signals <==> p.status != q.status)
      && (NewToolTip in signals <==> p.headline != q.headline || p.detail != q.detail)
      && forall i, j :: 0 <= i < j < |signals| ==> signals[i] != signals[j]
  {
  }

  /** The menus a host has been shown one after the other, and how often they changed. */
  function ChangesShown(p: Presentation, hasMount: bool, shown: seq<Presentation>): nat {
    if shown == [] then 0 else
      var before := shown[..|shown| - 1];
      ChangesShown(p, hasMount, before)
      + (if FullMenu(LastShown(p, before), hasMount) != FullMenu(shown[|shown| - 1], hasMount) then 1 else 0)
  }

  function RevisionAfter(revision: nat, p: Presentation, hasMount: bool, shown: seq<Presentation>): nat {
    if shown == [] then revision else
      var before := shown[..|shown| - 1];
      NextRevision(RevisionAfter(revision, p, hasMount, before),
                   Diff(LastShown(p, before), shown[|shown| - 1], hasMount, DYNAMIC))
  }

  /** The revision counts the changes of the menu, in 32 bits. */
  lemma {:induction false} RevisionCountsChanges(revision: nat, p: Presentation, hasMount: bool, shown: seq<Presentation>)
    requires revision < 0x1_0000_0000
    ensures RevisionAfter(revision, p, hasMount, shown) == (revision + ChangesShown(p, hasMount, shown)) % 0x1_0000_0000
  {
    hide FullMenu, Diff;
    if shown != [] {
      var before := shown[..|shown| - 1];
      RevisionCountsChanges(revision, p, hasMount, before);
      RevisionMovesExactlyOnChange(
        LastShown(p, before), shown[|shown| - 1], hasMount, RevisionAfter(revision, p, hasMount, before));
      WrapsOnce(revision + ChangesShown(p, hasMount, before));
    }
  }

  lemma WrapsOnce(n: nat)
    ensures (n % 0x1_0000_0000 + 1) % 0x1_0000_0000 == (n + 1) % 0x1_0000_0000
  {
  }
}
