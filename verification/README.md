# OneDrive for Linux: Dafny models

Dafny models of the parts of the OneDrive client where state, concurrency or text handling decide whether a promise
to the user holds, and proofs of those promises. `dafny verify dfyconfig.toml` checks everything.

**State feed, from the daemon to the panel.** `AuthProtocol` is the sign-in channel: a publisher and an acceptor
thread over two locks and up to eight watchers, as a state machine over every interleaving of their steps;
`AuthGuarantees` is what its watchers can rely on, and `AuthTurns` what one turn of each thread does. `Adoption` is
the publisher's decision to restart onto a new enrollment. `StateLine` folds the daemon's `key=value` lines into a
state. `Reconnect` specifies the two loops that reconnect with backoff and publish only distinct states,
`ReconnectLoops` are the loops. `TrayMenu` is the menu built from a state and its incremental updates, and `TrayFeed`
the way of a state through several kinds of bus signals, one forwarding thread each, into the tray's merged state.
`AdoptionGuarantees`, `ReconnectGuarantees`, `MenuGuarantees` and `TrayGuarantees` hold their properties over whole
runs; `MenuContents` is what the menu says for each state.

**Installer.** `Render` and `UnitScan` are the unit texts: the chain of token replacements and the scan that refuses
a helper with its own mount namespace; `RenderMarks` is exactly which templates the chain renders as meant. `Fstab`
and `Exposures` read the mount table and fstab. `Files` and `Execute` perform a plan on a file system and a machine
that moves by itself; `Install`, `InstallTwice` and `Uninstall` are the plans and what they guarantee.
`FstabMeaning`, `ExecuteMeaning`, `InstallMeaning` and `UninstallMeaning` say what an entry, an action and a plan are
in the terms of the files, the options and the command line.

**Availability jobs.** `Selection` reduces a selection to disjoint subtrees, `Collect` lists their files, and
`JobRun` is the accounting under concurrent starts, cancels and snapshots, with its properties in `JobGuarantees`
and, told from the events alone, in `JobHistory`. `CollectFaults` is which fault a failed listing reports.

**Folder badges.** `FolderBadge` is the bounded scan behind a folder's check mark, over `FolderScan`; `FolderOrder`
is the order in which it meets the entries, `FolderMeaning` what its verdicts mean, and `Watches` the list of watched
items.

**Sign-in callback.** `Callback` reads the browser's request, `Form` prints and parses its fields over `Utf8`, and
`Redirects`, with the types of `Enrollment`, is the order of checks before the code is spent (sections 4.1.1, 4.1.2
and 10.12 of RFC 6749, section 2.1 of RFC 3986).

`Text`, `Paths`, `Sorting` and `DaemonTypes` hold what several components share.

Loops and objects that the source updates in place are methods and classes here, each proved against a function
whose properties are then proved over all inputs or runs; protocols are step functions and `Run` over any events.

## Where the code does not do what it says

Each of these is a lemma or method below; the exact condition under which the promise holds is proved beside it.

- The chain of replacements is not always the substitution of all tokens: a literal that reads like a token name
  between two tokens is taken for that token (`Render.LiteralTakenForToken`, exact in `RenderMarks.RenderExactly`).
- A later enrollment can be adopted without two equal snapshots in a row
  (`AdoptionGuarantees.LaterAdoptionMaySkipTheSettleTest`, exact in `AdoptionGuarantees.AdoptionSettlesExactly`). In
  the shipped binary an adoption ends the process, so there a second one is not reached.
- The uninstall plan for a root that was not mounted stops the helper without looking again. An armed trigger can bring
  the mount up first, and so can the automatic restart of the helper (`Uninstall.RaceIsUnsafe`, exact in
  `Uninstall.UnmountedRunIsSafeExactly`).
- A sync root mounted twice on its mount point can be seen unmounted and come back before the helper's files are
  removed: the unmount takes one mount down, so the helper is not stopped, ends by itself, takes the other along and is
  restarted (`Uninstall.StackedMountIsUnsafe`, exact in `Uninstall.MountedRunIsSafeExactly`).
- The fstab line is written unescaped, so a mount point with a blank or an escape in it is never found again and every
  later installation appends once more. The block is also appended right after an unterminated last line, and the
  comment can complete that line to an automatic entry, which refuses every later installation
  (`Fstab.BlankInMountPoint`, `Fstab.UnterminatedLineSpoils`, exact in `Fstab.AppendedLineReadsBack` and
  `InstallTwice.InstallIsIdempotent`).
- A path after the first that starts with `uploading=` cuts the upload list (`StateLine.LaterKeyLosesPaths`).
- Near the request limit the callback's answer depends on how the bytes arrive (`Callback.ChunkIndependence`,
  `Callback.TwoCuts`).
- The `%h` form of the home directory itself expands to a path with a trailing slash (`Render.UserFormExpandsBack`).
- The bound of 512 watched items does not bound the notes kept about their pins (`Watches.PinsOutliveFiles`, exact in
  `Watches.NotesExactly` and `Watches.NotesStayInStepExactly`).

## Model

| member | source | states |
|---|---|---|
| DaemonTypes.Health.State | crates/onedrive-daemon/src/auth_state.rs:122-131 | the conclusion is Rejected exactly when not signed in; otherwise a store error decides between Healthy and Unsaved |
| DaemonTypes.WireWords | crates/onedrive-daemon/src/auth_state.rs:78-104 | the words each state goes over the wire as, to the letter |
| AuthGuarantees.RunKeepsInvariant | crates/onedrive-daemon/src/auth_state.rs:282-429 | every interleaving of publisher and acceptor steps keeps the lock ownership, the watcher bound, the publisher's knowledge of the history and every watcher's feed |
| AuthGuarantees.WatcherIsToldEverything | crates/onedrive-daemon/src/auth_state.rs:282-301 | no update is lost: the states made public are the changes among the samples taken, a watcher has received its first line and then every later one of them in order, at most the last missing, and then a broadcast of exactly that state is pending; between two stores the state in `current` is the last sample |
| AuthGuarantees.PublishedIsSampled | crates/onedrive-daemon/src/auth_state.rs:282-300 | what is published over any run is the first state and then the state of every stored sample that differs from the one before it, in order; no changed sample is thrown away |
| AuthGuarantees.LastLine | crates/onedrive-daemon/src/auth_state.rs:282-301 | a watcher that is owed nothing ends on the state in `current`; one that is owed something has a broadcast of that very state pending |
| AuthGuarantees.PendingIsCurrent | crates/onedrive-daemon/src/auth_state.rs:284-300 | what a pending broadcast writes, or will once the publisher goes on, is the state in `current` |
| AuthGuarantees.NoRepeatAfterSecondLine | crates/onedrive-daemon/src/auth_state.rs:282-301 | after its second line no watcher sees two equal lines in a row |
| AuthGuarantees.CaughtUpBetweenSamples | crates/onedrive-daemon/src/auth_state.rs:282-301 | whenever the publisher is about to sample, every watcher's last line is the state of the last sample taken |
| AuthGuarantees.NeverMoreThanEight | crates/onedrive-daemon/src/auth_state.rs:384-398 | there are never more than eight watchers |
| AuthGuarantees.NoDeadlock | crates/onedrive-daemon/src/auth_state.rs:384-398 | the two threads never both wait for a lock: only the acceptor nests them |
| AuthGuarantees.RequestIsHonoured | crates/onedrive-daemon/src/auth_state.rs:302-312 | once an enrollment-complete request is in, the publisher's next check restarts, whatever the acceptor does meanwhile |
| AuthGuarantees.RestartsNeverOutnumberRequests | crates/onedrive-daemon/src/auth_state.rs:302-312 | over every run there are at most as many such restarts as requests |
| AuthGuarantees.StoreKeepsFeed | crates/onedrive-daemon/src/auth_state.rs:284-300 | storing a new state puts every watcher in debt by exactly that state, including one that is being greeted |
| AuthGuarantees.WriteKeepsFeed | crates/onedrive-daemon/src/auth_state.rs:417-422 | each broadcast write settles one watcher's debt; a failed one drops that watcher and no other |
| AuthGuarantees.CullKeepsFeed | crates/onedrive-daemon/src/auth_state.rs:427-429 | culling any set of hung-up watchers leaves the others' feeds complete |
| AuthGuarantees.GreetKeepsFeed | crates/onedrive-daemon/src/auth_state.rs:384-398 | a watcher registered while a broadcast is pending is owed exactly that broadcast |
| AuthTurns.WatchIsServed | crates/onedrive-daemon/src/auth_state.rs:384-398 | a client that asks for the feed is registered with the state in `current` as its first line when fewer than eight are and the line gets through, and dropped without a line otherwise |
| AuthTurns.OnlyTheGoneLeave | crates/onedrive-daemon/src/auth_state.rs:410-429 | a watcher leaves the registry only when a line to it fails or its peer has hung up |
| AuthTurns.TurnIsComplete | crates/onedrive-daemon/src/auth_state.rs:282-312 | a turn that nothing delays stores the sample, tells a changed state to every watcher and nothing to any otherwise, drops the peers that hung up and restarts for a request |
| AuthTurns.EnrollmentRestarts | crates/onedrive-daemon/src/auth_state.rs:302-312 | an enrollment-complete command makes the next check of the publisher restart, whatever happens in between |
| AuthTurns.StatusIsServed | crates/onedrive-daemon/src/auth_state.rs:379-380 | a status query takes the lock on `current` for itself and leaves everything as it was |
| Adoption.Publisher.Turn | crates/onedrive-daemon/src/auth_state.rs:314-353 | one pass of the loop body updates `pending`, `adopted` and the announcement as the specification says and restarts for exactly the reasons it lists, a request before a file |
| AdoptionGuarantees.Serve | crates/onedrive-daemon/src/auth_state.rs:282-356 | the loop's restarts over any ticks are those of the specification, which are counted by the ticks themselves below |
| AdoptionGuarantees.PendingMeansSettled | crates/onedrive-daemon/src/auth_state.rs:314-353 | `pending` holds a snapshot exactly when an unbroken rejected stretch with a file present has passed it over last |
| AdoptionGuarantees.AdoptionExactly | crates/onedrive-daemon/src/auth_state.rs:314-353 | a tick adopts exactly when it is rejected with a snapshot that was noted earlier in the same stretch and is not the one adopted last |
| AdoptionGuarantees.AdoptsOnlyWhileRejected | crates/onedrive-daemon/src/auth_state.rs:314-353 | nothing is adopted while the sign-in works |
| AdoptionGuarantees.FirstAdoptionIsSecondOfTwo | crates/onedrive-daemon/src/auth_state.rs:266-271 | the first adoption happens exactly at the second of two consecutive rejected ticks with the same snapshot |
| AdoptionGuarantees.NeverTwiceInARow | crates/onedrive-daemon/src/auth_state.rs:272-275 | the same snapshot is never adopted twice in a row |
| AdoptionGuarantees.LaterAdoptionMaySkipTheSettleTest | crates/onedrive-daemon/src/auth_state.rs:314-353 | a later adoption can come without two equal snapshots in a row: `pending` is kept while an adopted snapshot is seen again |
| AdoptionGuarantees.AdoptionSettlesExactly | crates/onedrive-daemon/src/auth_state.rs:314-353 | an adoption follows a tick rejected with the same snapshot exactly when that tick was not passed over as already adopted |
| AdoptionGuarantees.OneRestartPerRequest | crates/onedrive-daemon/src/auth_state.rs:302-312 | over any ticks there is exactly one restart for every tick that finds a request |
| AdoptionGuarantees.OneRestartPerAdoption | crates/onedrive-daemon/src/auth_state.rs:314-333 | over any ticks the daemon restarts for an enrollment file exactly once for every turn that is rejected with it, has not passed it over and had noted it before; without a watched file never |
| AdoptionGuarantees.RequestComesFirst | crates/onedrive-daemon/src/auth_state.rs:302-333 | within a turn a request comes before the file, and there is at most one of it |
| AdoptionGuarantees.AnnouncedExactly | crates/onedrive-daemon/src/auth_state.rs:334-351 | the announcement of a waiting file is pending exactly since a turn that found one while signed in, with a file present at every turn since |
| StateLine.ApplyStateLine | crates/onedrive-daemon/src/dbus.rs:114-159 | the loop over one line equals folding its assignments, and reports whether a known key was seen |
| StateLine.StateLineExactly | crates/onedrive-daemon/src/dbus.rs:114-159 | a line counts as a state line exactly when it has an upload list anywhere or a token that assigns |
| StateLine.TokenWords | crates/onedrive-daemon/src/dbus.rs:126-146 | the five counters are read from their tokens with any 64-bit number |
| Text.ParseDecimalExactly | crates/onedrive-daemon/src/dbus.rs:126-146 | a printed number is read exactly when it fits 64 bits, with or without a plus sign |
| StateLine.ApplyEach | crates/onedrive-daemon/src/dbus.rs:126-146 | the token loop sets exactly what the recognised tokens assign, in order |
| StateLine.StateByKey | crates/onedrive-daemon/src/dbus.rs:114-159 | after a line each counter has its last assigned value, or the one it had before; flag and upload list are untouched by number tokens |
| StateLine.UnknownTokenChangesNothing | crates/onedrive-daemon/src/dbus.rs:126-146 | a token this build does not know changes nothing wherever it stands |
| StateLine.StateLineRoundTrip | crates/onedrive-daemon/src/dbus.rs:114-159 | folding the printed line of any state into any earlier state restores every printed field |
| StateLine.UploadListSurvivesExactly | crates/onedrive-daemon/src/dbus.rs:114-159 | the upload list survives exactly when it is not one empty escape and no path after the first starts with the key |
| StateLine.LaterKeyLosesPaths | crates/onedrive-daemon/src/dbus.rs:114-159 | a later path that starts with the key makes the split drop at least one path |
| StateLine.CredentialLineRoundTrip | crates/onedrive-daemon/src/dbus.rs:257-268 | a sign-in line is read back whatever other words follow the first |
| StateLine.ApplyCredentialLine | crates/onedrive-daemon/src/dbus.rs:257-268 | the loop answers with the last sign-in word of the line |
| StateLine.CredentialWords | crates/onedrive-daemon/src/dbus.rs:257-268 | the three sign-in lines, to the letter |
| ReconnectLoops.WatchOnce | crates/onedrive-daemon/src/dbus.rs:178-214 | one connection hands one state per recognised line to the publisher, each with the running flag set, and reports whether there was one |
| ReconnectLoops.OtherLinesChangeNothing | crates/onedrive-daemon/src/dbus.rs:191-201 | a line without a known key leaves the state as it is |
| ReconnectLoops.WatchDaemon | crates/onedrive-daemon/src/dbus.rs:218-250 | over any attempts the loop publishes the handed states without repeats and sleeps as the closed form says |
| ReconnectLoops.WatchCredentialOnce | crates/onedrive-daemon/src/dbus.rs:274-312 | the same for sign-in lines |
| ReconnectLoops.WatchCredential | crates/onedrive-daemon/src/dbus.rs:316-343 | the same for the sign-in loop, whose state is forgotten after every connection |
| ReconnectGuarantees.NeverPublishesTwice | crates/onedrive-daemon/src/dbus.rs:218-233 | no two published states in a row are equal, and the first differs from the initial one |
| ReconnectGuarantees.PublishedIsCurrent | crates/onedrive-daemon/src/dbus.rs:218-250 | after every attempt the last published state is the loop's own |
| ReconnectGuarantees.SilentAttemptPublishesNothing | crates/onedrive-daemon/src/dbus.rs:218-250 | an attempt without a state line publishes nothing, so a refused connection causes no running flap |
| ReconnectGuarantees.HandedIsEachLine | crates/onedrive-daemon/src/dbus.rs:188-206 | the states handed over are those after each recognised line, one for each and in order |
| ReconnectGuarantees.HandedIsRunning | crates/onedrive-daemon/src/dbus.rs:191-201 | every state a connection hands over says that the daemon is running |
| ReconnectGuarantees.RunningIsTold | crates/onedrive-daemon/src/dbus.rs:178-214 | between connections the daemon counts as stopped, and a running state was handed over exactly when some connection brought a recognised line |
| ReconnectGuarantees.RunningIsPublished | crates/onedrive-daemon/src/dbus.rs:218-250 | and the same holds of what is published |
| ReconnectGuarantees.CountersAreFolded | crates/onedrive-daemon/src/dbus.rs:178-214 | the counters after a connection are those of folding all its lines into the ones before |
| ReconnectGuarantees.CredentialIsTheLines | crates/onedrive-daemon/src/dbus.rs:274-312 | for each sign-in line that names a state the loop hands over that state |
| ReconnectGuarantees.WaitInSeconds | crates/onedrive-daemon/src/dbus.rs:218-250 | the waits are one second after a connection that brought something and otherwise 1, 2, 4, 8, 16 and then 30 |
| Sorting.ChangesExactly | crates/onedrive-daemon/src/dbus.rs:218-233 | dropping repeats keeps exactly the states that differ from the one before them, in order |
| ReconnectGuarantees.BothFeedsSettle | crates/onedrive-daemon/src/dbus.rs:218-250 | both loops end every connection in a state that a further silent one leaves alone |
| ReconnectGuarantees.CountersAreHeld | crates/onedrive-daemon/src/dbus.rs:218-250 | the counters after any attempts are those of all lines read so far, as if over one connection |
| ReconnectGuarantees.CredentialIsForgotten | crates/onedrive-daemon/src/dbus.rs:316-343 | the sign-in state is Unknown after every attempt |
| ReconnectGuarantees.WaitAfterSilence | crates/onedrive-daemon/src/dbus.rs:218-250 | after k silent attempts in a row the wait is min(30, 2^k) seconds |
| ReconnectLoops.DoublingIsBackoff | crates/onedrive-daemon/src/dbus.rs:242-248 | doubling up to the ceiling is that closed form |
| TrayMenu.Tray.ApplyPresentation | crates/onedrive-daemon/src/tray.rs:991-1042 | the stored presentations, the item's signals, the pushed updates and the revision after one application |
| TrayMenu.Tray.GetLayout | crates/onedrive-daemon/src/tray.rs:871-895 | the layout served for any item, with children exactly for the root at non-zero depth |
| MenuGuarantees.DiffIsExact | crates/onedrive-daemon/src/tray.rs:1016-1036 | merging the pushed updates turns the menu a host holds into the one a full read would give, and an empty push means nothing differs |
| MenuGuarantees.HostIsCurrent | crates/onedrive-daemon/src/tray.rs:1016-1036 | a host that read the layout once and then only merged updates is current after any presentations |
| MenuGuarantees.RevisionMovesExactlyOnChange | crates/onedrive-daemon/src/tray.rs:1033-1034 | the revision moves exactly when the full menu differs |
| MenuGuarantees.KeysAreConstant | crates/onedrive-daemon/src/tray.rs:728-770 | every item has the same property names whatever is presented |
| MenuGuarantees.OthersAreConstant | crates/onedrive-daemon/src/tray.rs:728-779 | an item outside the dynamic ones never depends on the presentation |
| MenuGuarantees.SignalsAreEnough | crates/onedrive-daemon/src/tray.rs:999-1013 | an item re-reading only what it was signalled about shows the new presentation |
| MenuGuarantees.LayoutIsFullMenu | crates/onedrive-daemon/src/tray.rs:871-912 | the layout of the root holds the same items and properties as a full property read |
| MenuGuarantees.UpToDateIsHonest | crates/onedrive-daemon/src/tray.rs:186-415 | the tray says up to date exactly when the daemon runs, the sign-in is not refused, and nothing is exposed, pending, transferring, checking, paused, resolving or listed as an issue |
| MenuGuarantees.AttentionExactly | crates/onedrive-daemon/src/tray.rs:186-415 | attention is asked for, and sign-in offered, exactly in the states listed |
| MenuContents.HeadlineExactly | crates/onedrive-daemon/src/tray.rs:186-415 | each headline of a running daemon, its count included, and exactly the states it stands for: an exposed folder before a rejected sign-in, that before the desktop's own report, then activity, waiting changes and up to date |
| MenuContents.StoppedExactly | crates/onedrive-daemon/src/tray.rs:186-225 | without a running daemon nothing else is said |
| MenuContents.DetailExactly | crates/onedrive-daemon/src/tray.rs:186-415 | what is said below each headline |
| MenuContents.IconExactly | crates/onedrive-daemon/src/tray.rs:186-415 | the icon that goes with each headline |
| MenuContents.MenuOfState | crates/onedrive-daemon/src/tray.rs:226-245 | from the daemon's state to the menu: what each statement row shows, item by item, and when a sign-in is offered |
| MenuContents.MenuShows | crates/onedrive-daemon/src/tray.rs:728-770 | each item of the menu shows the part of the presentation it is there for |
| MenuContents.ItemsInOrder | crates/onedrive-daemon/src/tray.rs:780-800 | the items from top to bottom, with and without a folder to open |
| MenuContents.SignalsExactly | crates/onedrive-daemon/src/tray.rs:999-1013 | a host is signalled about exactly what has changed, each thing once |
| MenuContents.RevisionCountsChanges | crates/onedrive-daemon/src/tray.rs:1033-1034 | over any presentations the revision counts those that changed the menu |
| TrayGuarantees.MergedStateConverges | crates/onedrive-daemon/src/dbus.rs:979-1037 | for every sequence of published states and every interleaving of signals, cold reads and the run loop: once everything is drained the merged state is the one published last, field by field, and so is what the tray shows |
| TrayGuarantees.HostMenuConverges | crates/onedrive-daemon/src/tray.rs:1397-1451 | once everything is drained a host that only took the updates holds the menu of the state published last |
| TrayGuarantees.ServiceIsPublished | crates/onedrive-daemon/src/dbus.rs:979-1037 | the service serves the state, sign-in and desktop status published last, as the events themselves tell |
| TrayGuarantees.Drains | crates/onedrive-daemon/src/tray.rs:1397-1451 | whatever is under way arrives: forwarding, reading and receiving alone drain everything in a bounded number of steps |
| TrayGuarantees.ReturnIsReadWhole | crates/onedrive-daemon/src/tray.rs:1049-1095 | whatever the tray held: once it notices that the service is back it reads every property and shows the service's present state |
| TrayGuarantees.RunKeepsInvariant | crates/onedrive-daemon/src/tray.rs:1190-1320 | throughout, per kind of signal, the last one under way or else the merged value is the service's present one |
| TrayGuarantees.StateSignalsByKind | crates/onedrive-daemon/src/dbus.rs:979-1037 | a publish sends the present value of a kind or leaves a kind that did not change |
| TrayGuarantees.ReadConverges | crates/onedrive-daemon/src/tray.rs:1049-1095 | a cold read taken property by property between publishes keeps that invariant |
| TrayGuarantees.RunLoop | crates/onedrive-daemon/src/tray.rs:1397-1451 | the run loop over any signals leaves both objects and a host that merges its updates on the merged state |
| TrayGuarantees.WithoutColdRead | crates/onedrive-daemon/src/tray.rs:1405-1440 | activity signals that arrive before the first counters are lost |
| TrayGuarantees.ColdReadIsNeeded | crates/onedrive-daemon/src/tray.rs:1359-1395 | so without a cold read two interleavings can end in different states |
| Render.StageIsExact | crates/installer/src/units.rs:208-219 | one replacement equals the intended substitution exactly when no literal between two tokens reads like the name being replaced, after a token that stays |
| Render.ChainIsExact | crates/installer/src/units.rs:208-219 | the chain is right at every stage exactly when no stage meets such a literal, and then its result is the stage-by-stage substitution |
| Render.RenderIsSimultaneous | crates/installer/src/units.rs:208-219 | for a template whose tokens are separated by text that cannot be part of a name, replacing its tokens in any order is the simultaneous substitution and leaves no mark |
| Render.RenderOrder | crates/installer/src/units.rs:208-219 | in particular for the order of the source |
| Render.RenderedText | crates/installer/src/units.rs:191-219 | so the unit text of any facts without a mark is the template with every value in place |
| RenderMarks.MarkBecomesFact | crates/installer/src/units.rs:191-219 | each of the nine marks, wherever it stands in a line, is replaced by the fact it stands for |
| Render.LiteralTakenForToken | crates/installer/src/units.rs:208-219 | marks in neither values nor literals do not suffice: a literal that reads like a token name between two tokens is taken for that token and both neighbours are lost |
| RenderMarks.RenderExactly | crates/installer/src/units.rs:208-219 | for values that cannot be part of a token name the chain is the simultaneous substitution, and leaves no mark, exactly when no literal of the template reads like a name that has its turn before the token on its left and not after the one on its right: a condition on the template alone |
| RenderMarks.SafeExactly | crates/installer/src/units.rs:208-219 | under that condition, and only then, no stage meets a literal it takes for a token, whatever the values |
| RenderMarks.RenderedExactly | crates/installer/src/units.rs:191-219 | the same for the values of any deployment whose account name and client id are not all capitals |
| RenderMarks.PassKeepsDebt | crates/installer/src/units.rs:208-219 | a replacement never lowers the number of marks that must be left in the end |
| RenderMarks.RenderLeavesMarks | crates/installer/src/units.rs:208-219 | so marks are left in `@HOME@USER@HOME@` for every such value |
| Render.AllReplaced | crates/installer/src/units.rs:208-219 | once every token of a template has had its turn only the simultaneous substitution is left |
| Render.UserFormExpandsBack | crates/installer/src/units.rs:197-206 | the `%h` and `%t` forms expand to the path itself except for the base directory and for a base that is the root |
| UnitScan.NamespaceDirectives | crates/installer/src/units.rs:270-290 | the loop lists exactly the lines that assign a forbidden directive, in order, with their numbers and keys |
| UnitScan.DirectiveIsCaught | crates/installer/src/units.rs:260-290 | no letter case, blanks, value or place of a forbidden directive gets past the scan |
| UnitScan.HitExactly | crates/installer/src/units.rs:270-290 | an assignment is a hit exactly when its key is one of the twenty-five listed directives in some letter case |
| UnitScan.NoHit | crates/installer/src/units.rs:270-290 | a comment is no hit whatever it mentions, nor is a line without an equals sign |
| Fstab.Unescape | crates/installer/src/probes.rs:223-242 | the loop over the bytes computes the unescaped text |
| Fstab.UnescapedIsSame | crates/installer/src/probes.rs:223-242 | a text stays as it is exactly when nothing in it reads as an octal escape |
| Fstab.UnescapeUndoesTheKernel | crates/installer/src/probes.rs:220-242 | every name survives the mount table's escaping of space, tab, newline and backslash |
| FstabMeaning.OctalByteExactly | crates/installer/src/probes.rs:223-242 | which three characters after a backslash read as a byte, and as which |
| Fstab.FstabEntry | crates/installer/src/probes.rs:505-524 | the first line that describes the sync root decides between noauto and automatic; Absent exactly when none does |
| FstabMeaning.DescribesExactly | crates/installer/src/probes.rs:505-515 | a line describes the sync root exactly when it has at least four fields, does not start with a hash sign, and its second field is the root under its escapes |
| FstabMeaning.JudgeExactly | crates/installer/src/probes.rs:516-521 | it is noauto exactly when that is one of its options, and otherwise reported as it stands |
| FstabMeaning.OptionsExactly | crates/installer/src/probes.rs:529-543 | the options written are the first subvolume named, or the top one, on btrfs, and everywhere noauto and nofail |
| FstabMeaning.SuggestionFields | crates/installer/src/probes.rs:529-543 | the fields of the line written, in order |
| Text.LinesExactly | crates/installer/src/probes.rs:505-507 | both kinds of line end separate lines and belong to none |
| Fstab.NoAutoIsThere | crates/installer/src/probes.rs:529-543 | every composed line has `noauto` among its options, whatever the subvolume |
| Fstab.AppendedLineReadsBack | crates/installer/src/plan.rs:1148-1175 | after the append the next look at fstab finds an automatic entry exactly when the comment completes an unterminated last line to one, otherwise noauto exactly when the mount point has no white space and nothing that reads as an escape, and otherwise nothing |
| Fstab.AppendedEntry | crates/installer/src/probes.rs:505-524 | the first entry after an append to any text without one is that of the line the comment was joined to, if it describes the sync root, or else that of the appended line, if it does |
| Fstab.JoinedDescribes | crates/installer/src/plan.rs:1157-1169 | the joined line describes the sync root exactly when the last line had two or three words and the mount point for its second, a glued comment mark included, and it is then never noauto |
| Fstab.BlankInMountPoint | crates/installer/src/probes.rs:529-543 | a mount point with a blank gets a line that is never found again |
| Fstab.UnterminatedLineSpoils | crates/installer/src/plan.rs:1157-1169 | for any text before it, an unterminated last line that names the sync root without options becomes an automatic entry when the block is appended |
| Exposures.FindExposures | crates/installer/src/probes.rs:269-284 | the loop returns the sorted, duplicate-free mount points that expose the sync files |
| Exposures.CoversIsContainment | crates/installer/src/probes.rs:255-261 | on absolute roots the text test is containment of paths, component by component |
| Exposures.ExposureIsSharing | crates/installer/src/probes.rs:256-284 | a row exposes exactly when it is another mount of the device whose subtree shares a path with ours |
| Exposures.ExposuresAreExact | crates/installer/src/probes.rs:256-284 | detection is sound and complete, and the list is empty exactly when nothing else reaches the files |
| Files.CreateDirs | crates/installer/src/plan.rs:1232-1250 | exactly the missing ancestors are made, outermost first, and every level is a directory then; what existed is untouched |
| Execute.ExecuteInner | crates/installer/src/plan.rs:1091-1230 | the loop performs the plan action by action and stops at the first failure, in a world that also moves by itself; what each action does, mode by mode, is stated below |
| Execute.TranscriptIsExact | crates/installer/src/plan.rs:1073-1083 | the transcript has exactly one line per completed action, in order, also when execution fails partway |
| Execute.WritesAreWholeOrNothing | crates/installer/src/plan.rs:1095-1116 | at every point of failure a unit file has its old text or all of its new one |
| Execute.FailureIsFinal | crates/installer/src/plan.rs:1091-1230 | nothing happens after a failed action |
| ExecuteMeaning.DryRunTouchesNoFile | crates/installer/src/plan.rs:1055-1071 | a dry run leaves every file, link and directory as it was, whatever the plan and however it ends |
| ExecuteMeaning.RehearsalRunsNothing | crates/installer/src/plan.rs:1055-1071 | without commands the mounts, the trigger and the helper are what the outside alone makes of them |
| ExecuteMeaning.TranscriptTells | crates/installer/src/plan.rs:1091-1230 | a line says `would` exactly when the mode kept its action from being done, and `already absent` exactly when there was nothing to remove |
| ExecuteMeaning.WriteExactly | crates/installer/src/plan.rs:1095-1116 | a file is written exactly when its directories can be made, nothing else is in the way and no operation fails; then its temporary file is gone, and nothing beside them changes |
| ExecuteMeaning.LinkExactly | crates/installer/src/plan.rs:1120-1136 | the same for a link, with what is there already |
| ExecuteMeaning.AppendExactly | crates/installer/src/plan.rs:1149-1175 | the same for an append; what was in the file stays in front of it, also when writing fails half-way |
| ExecuteMeaning.OthersExactly | crates/installer/src/plan.rs:1176-1226 | when removing and verifying succeed, and what they leave |
| ExecuteMeaning.CommandsExactly | crates/installer/src/plan.rs:1188-1203 | what each command does when it succeeds, and that one that fails changes nothing |
| Uninstall.MountedRunIsSafe | crates/installer/src/plan.rs:876-1053 | for every pattern of success and failure, at every point, whatever starts, ends or unmounts in between: while the sync root is mounted no helper unit file is gone and the helper was not stopped directly, provided the root is mounted once as the run begins |
| Uninstall.MountedRunIsSafeExactly | crates/installer/src/plan.rs:922-946 | with the helper installed, that holds of every run exactly when the root is mounted no more than once, or the trigger is disarmed and the helper idle, as it begins |
| Uninstall.StackedMountIsUnsafe | crates/installer/src/plan.rs:1204-1223 | otherwise there is a run in which the root is mounted again after it was seen unmounted, and then the helper's unit file is removed |
| Uninstall.DisarmedBeforeUnmount | crates/installer/src/plan.rs:922-946 | the trigger is disarmed when the unmount runs |
| Uninstall.NothingRemovedBeforeVerified | crates/installer/src/plan.rs:1188-1212 | on the machine, from any state, the helper is stopped or a file of it removed only after the root was seen unmounted; of a root that was mounted once nothing is left then that could bring it up |
| Uninstall.UnmountedRunIsSafeExactly | crates/installer/src/plan.rs:926-957 | the plan for a root that was not mounted is safe in every run exactly when the root is down, the trigger disarmed and the helper idle as it starts |
| Uninstall.RaceIsUnsafe | crates/installer/src/plan.rs:947-957 | otherwise there is a run in which the helper is stopped under a mounted root: an armed trigger or an automatic restart brings it up first |
| UninstallMeaning.RefusedExactly | crates/installer/src/plan.rs:876-918 | an uninstallation is refused exactly to somebody who is not root on the machine itself, and while the root is mounted and may not be unmounted |
| UninstallMeaning.CommandsExactly | crates/installer/src/plan.rs:922-1025 | the commands of a plan in order: the trigger, then the unmount and its check or the helper, then the user's half, and at the end the reload |
| UninstallMeaning.EveryUnitIsRemoved | crates/installer/src/plan.rs:991-1024 | every unit file that an installation places, for any surface, is among the files removed, and so is its usual link |
| UninstallMeaning.NothingIsLeft | crates/installer/src/plan.rs:922-1025 | a run that goes through with file writing on leaves none of the ten files of a deployment, and every other path as it was |
| Install.Collide | crates/installer/src/plan.rs:688-727 | the slice is rewritten in place and a path is refused exactly when something else is there and force is off |
| InstallMeaning.PlannedExactly | crates/installer/src/plan.rs:730-870 | there is a plan exactly when the machine's own checks pass, the file system is one of three, the surface is decided, fstab has a noauto entry or none and consent, and nothing else stands where something is to be placed unless force is on |
| InstallMeaning.PlacedExactly | crates/installer/src/plan.rs:598-641 | what belongs to a deployment: the file of each unit in its directory, and for each target its text names the link to where the unit is at run time |
| InstallMeaning.PlanExactly | crates/installer/src/plan.rs:730-870 | a plan places just that, retires a tray unit that is there and not wanted, appends to fstab exactly when it has no entry, and ends with the report |
| InstallMeaning.TrayExactly | crates/installer/src/plan.rs:436-556 | when the tray unit is installed, and when the surface is not decided |
| InstallMeaning.TrayIsGone | crates/installer/src/plan.rs:658-682 | after an installation without the tray unit neither its file nor its link is there |
| InstallTwice.InstallIsIdempotent | crates/installer/src/plan.rs:730-870 | after a plan carried out with file writing on, the next plan places and retires nothing and appends again exactly when the first did and the mount point cannot be named in fstab; it is refused exactly when the append completed an unterminated line to an entry |
| InstallTwice.EverythingPlaced | crates/installer/src/plan.rs:598-641 | after such a run every unit file and link is there with its text or target |
| InstallTwice.TrayIsRetired | crates/installer/src/plan.rs:658-682 | after such a run an unwanted tray unit and its link are gone |
| InstallTwice.FstabAfter | crates/installer/src/plan.rs:1148-1175 | after such a run fstab has the announced block at its end, or is unchanged |
| InstallTwice.OnlyPlacedTouchPlaced | crates/installer/src/plan.rs:598-641 | no other action of a plan touches a placed path, temporary files included |
| FolderBadge.ProbeDirectory | packaging/dolphin/overlay/hydrationoverlay.cpp:238-301 | Clean only if the whole tree is identified and clean and at most 128 entries are in it; for any tree the other answers are those of its first 128 entries, level by level down to the fourth: the first edited file decides, then a placeholder; at most 129 entries are counted; trees with fewer than 128 entries and four levels are judged exactly, and with exactly 128 too but that Clean also needs an entry in the last folder |
| FolderMeaning.ProbeExactly | packaging/dolphin/overlay/hydrationoverlay.cpp:200-221 | each verdict on a file in terms of its attributes: the recorded stamp tells edited from unedited, the dehydrated mark a placeholder from a file that is here |
| FolderMeaning.CleanTreeExactly | packaging/dolphin/overlay/hydrationoverlay.cpp:238-301 | a tree is clean exactly when every folder that counts is identified and read to the end, every file that counts is here and unedited, no verdict is unknown and nothing else is there |
| FolderMeaning.HasExactly | packaging/dolphin/overlay/hydrationoverlay.cpp:238-301 | a definite answer speaks of a file that counts, somewhere in the tree |
| FolderMeaning.UnderACheckMark | packaging/dolphin/overlay/hydrationoverlay.cpp:238-301 | under a check mark every file that counts is on the device with its recorded content |
| FolderScan.ReadFolder | packaging/dolphin/overlay/hydrationoverlay.cpp:254-296 | reading one directory: which flags move, which folders are queued, when the limit or an edited file ends it, and after how many entries |
| Watches.Watcher.Watch | packaging/dolphin/overlay/hydrationoverlay.cpp:155-175 | the watched list, the notes and the watcher after one listing, for all four outcomes; watched items stay different, under watch and noted, and at most 512 |
| Watches.Watcher.MetadataChanged | packaging/dolphin/overlay/hydrationoverlay.cpp:177-193 | what a metadata change does to the list and the notes |
| Watches.WatchesTheLastListed | packaging/dolphin/overlay/hydrationoverlay.cpp:155-175 | when nothing is refused or dropped, the watched items are the 512 listed last, in that order |
| Watches.WatchesTheLatestKnown | packaging/dolphin/overlay/hydrationoverlay.cpp:155-193 | over any listings, refusals, drops and changes, the watched items are those of the known ones that were listed last: none is passed over for an older one |
| Watches.SystemExactly | packaging/dolphin/overlay/hydrationoverlay.cpp:155-193 | besides the roots the file watcher watches the listed items and nothing else, and of the roots those it took and did not drop: no listing costs a root its place |
| Watches.NotesAreMarks | packaging/dolphin/overlay/hydrationoverlay.cpp:155-193 | every note is the pin mark as it was last read |
| Watches.PinsOutliveFiles | packaging/dolphin/overlay/hydrationoverlay.cpp:177-193 | the notes about pins are not bounded: dropping a replaced file keeps its note |
| Watches.NotesExactly | packaging/dolphin/overlay/hydrationoverlay.cpp:155-193 | over any run the notes are those of the watched items and those left over by a drop or a mark without a watch, so their number is that of both together |
| Watches.NotesStayInStepExactly | packaging/dolphin/overlay/hydrationoverlay.cpp:155-193 | the notes stay those of the watched items throughout a run, hence at most 512, exactly when no watched item is dropped and no unwatched one marked |
| Selection.Reduce | crates/onedrive-daemon/src/jobs.rs:84-91 | sort, dedup and retain leave exactly the topmost selected items, in increasing order |
| Selection.Select | crates/onedrive-daemon/src/jobs.rs:60-91 | which requests are accepted, which of the errors is reported, and what the worker gets |
| Selection.AcceptedExactly | crates/onedrive-daemon/src/jobs.rs:60-83 | an item is acceptable exactly when it resolves to a path strictly below the folder without a line break in any name |
| Sorting.PathOrderExactly | crates/onedrive-daemon/src/jobs.rs:84-91 | the order the list is sorted by |
| Selection.ReductionKeepsTheUnion | crates/onedrive-daemon/src/jobs.rs:84-91 | the subtrees processed are pairwise disjoint and their union is that of the selection |
| Selection.Covered | crates/onedrive-daemon/src/jobs.rs:86-91 | every selected item lies in a kept one |
| Selection.KeptIsAntichain | crates/onedrive-daemon/src/jobs.rs:86-91 | no kept item contains another |
| Selection.ReductionIsUnique | crates/onedrive-daemon/src/jobs.rs:84-91 | the reduced list is determined by the selection |
| Selection.CheckIssues | crates/onedrive-daemon/src/jobs.rs:10-30 | the first issue at or below a selected item refuses the action |
| Selection.IssuesSeeTheReduction | crates/onedrive-daemon/src/jobs.rs:10-30 | the check answers the same for the selection and for its reduction |
| Collect.CollectFiles | crates/onedrive-daemon/src/jobs.rs:261-293 | unless cancelled it succeeds exactly for a sound tree whose largest count of files and pending folders is within 1,000,000, and then appends exactly the gathered files; of a sound tree the limit is the reason to fail exactly when it is passed; the flag is read before each folder and the first read that sees it is the last thing done; it always ends |
| Collect.VerdictExactly | crates/onedrive-daemon/src/jobs.rs:261-293 | the outcome of the listing, folder by folder, is success exactly for a sound tree within the limit at every check |
| CollectFaults.FaultHasAnOccasion | crates/onedrive-daemon/src/jobs.rs:261-293 | a read fault or a line break is reported only for a tree that has the occasion for it |
| Paths.InternalExactly | crates/onedrive-daemon/src/jobs.rs:267-275 | the names kept out of view are those with one of two prefixes |
| Collect.ReadFolder | crates/onedrive-daemon/src/jobs.rs:267-290 | one opened folder: its own files and folders are appended in order; the first fault ends it, or the first count over the limit |
| Collect.GatherIsExact | crates/onedrive-daemon/src/jobs.rs:261-293 | the gathered files are exactly the regular files reachable through visible names |
| Collect.GatherIsDistinct | crates/onedrive-daemon/src/jobs.rs:261-293 | and each is there once |
| JobGuarantees.RunKeepsInvariant | crates/onedrive-daemon/src/jobs.rs:92-257 | every interleaving of starts, cancels and worker steps keeps the accounting |
| JobGuarantees.SnapshotsAreConsistent | crates/onedrive-daemon/src/jobs.rs:92-257 | in every snapshot: one worker at most, done within total, the first 100 errors, the byte sum; and once running clears the job was cancelled, has an error, or did all |
| JobHistory.SnapshotTellsEvents | crates/onedrive-daemon/src/jobs.rs:92-257 | in every snapshot the errors are the first hundred messages that came in, the bytes the sum of the accepted counts, the files done those whose outcome came in, and the number that of the accepted starts |
| JobHistory.EveryItemIsProbed | crates/onedrive-daemon/src/jobs.rs:124-160 | no list of files is taken up before every selected item was looked at |
| JobHistory.StartGivesAll | crates/onedrive-daemon/src/jobs.rs:92-123 | an accepted start clears the accounts and hands the worker the whole selection; while a job runs a start changes nothing |
| JobGuarantees.WorkerAdvances | crates/onedrive-daemon/src/jobs.rs:124-257 | every worker step brings the job closer to its end |
| JobGuarantees.WorkerIsNeverStuck | crates/onedrive-daemon/src/jobs.rs:106-257 | and there always is one |
| JobGuarantees.CancelIsHonoured | crates/onedrive-daemon/src/jobs.rs:57-59 | once the flag is set at most the file in hand is finished and the job ends as cancelled |
| JobHistory.CancelEndsTheJob | crates/onedrive-daemon/src/jobs.rs:57-59 | a cancel request at any moment of a running job: at most the file in hand is finished and the job ends as cancelled |
| JobHistory.CancelStopsTheLook | crates/onedrive-daemon/src/jobs.rs:124-160 | and no other item of the selection is looked at |
| JobHistory.OnlyTheCancelled | crates/onedrive-daemon/src/jobs.rs:57-59 | no job is reported as cancelled that nobody cancelled |
| JobGuarantees.RepliesAreCounted | crates/onedrive-daemon/src/jobs.rs:237-255 | a helper's report of any 64-bit count is accepted as that count |
| JobHistory.FileOutcomeExactly | crates/onedrive-daemon/src/jobs.rs:185-255 | when a file needs nothing, when the helper's reply names its bytes, and that the person is told of everything else |
| JobHistory.OnlySentencesCount | crates/onedrive-daemon/src/jobs.rs:237-255 | only the helper's own sentence names bytes |
| Utf8.DecodeEncode | crates/onedrive-daemon/src/pkce.rs:298-322 | every text is read back from its bytes |
| Utf8.EncodeDecode | crates/onedrive-daemon/src/pkce.rs:310-325 | bytes that decode are the one way to write that text |
| Utf8.EncodeExactly | crates/onedrive-daemon/src/pkce.rs:298-322 | the bits of a character are distributed as the table of RFC 3629 says |
| Form.FormRoundTrip | crates/onedrive-daemon/src/pkce.rs:298-325 | every list of fields is read back as printed |
| Form.QueryJoins | crates/onedrive-daemon/src/pkce.rs:310-325 | a query is read part by part, and one part that is not UTF-8 refuses it all |
| Form.QueryOfOne | crates/onedrive-daemon/src/pkce.rs:310-325 | an empty part says nothing, the first equals sign ends the name, and without one there is no value |
| Form.PercentExactly | crates/onedrive-daemon/src/pkce.rs:310-325 | a percent sign with two hexadecimal digits of either case is that byte |
| Form.EncodeByteExactly | crates/onedrive-daemon/src/pkce.rs:298-300 | only ASCII letters and digits are printed as they are |
| Form.PrintIsFaithful | crates/onedrive-daemon/src/pkce.rs:298-308 | different lists are never printed alike |
| Form.OneIsExact | crates/onedrive-daemon/src/pkce.rs:327-339 | a look-up fails exactly when the name occurs more than once |
| Callback.ReadRequestTarget | crates/onedrive-daemon/src/pkce.rs:341-357 | the reader's answer on any stream, after at most one read more than the limit has bytes |
| Callback.ChunkIndependence | crates/onedrive-daemon/src/pkce.rs:341-357 | the answer is the same for all ways of cutting the bytes exactly when there is no complete head, all fits the limit, the head is over it, or one more read would still fit |
| Callback.ReadIsPossible | crates/onedrive-daemon/src/pkce.rs:341-357 | what the answer can be, given the bytes alone |
| Callback.TwoCuts | crates/onedrive-daemon/src/pkce.rs:341-357 | in the remaining cases one cut is parsed and another refused |
| Callback.CompleteExactly | crates/onedrive-daemon/src/pkce.rs:344-344 | reading stops exactly when an empty line is in |
| Callback.LineExactly | crates/onedrive-daemon/src/pkce.rs:358-378 | which request lines yield a target, and which error the others get |
| Callback.RequestExactly | crates/onedrive-daemon/src/pkce.rs:358-378 | what follows the first line plays no part, and one that is not UTF-8 is refused |
| Redirects.CompleteWith | crates/onedrive-daemon/src/pkce.rs:120-234 | the code is exchanged only for a redirect of this sign-in; a token is stored only from a clean exchange; success is told only after storing; and for every redirect, reply, store and connection which problem is named and what the browser is answered |
| Redirects.Redeem | crates/onedrive-daemon/src/pkce.rs:165-234 | the half after the checks: what is exchanged, stored and answered, in which order, for every reply, store and connection |
| Redirects.GetIsParsed | crates/onedrive-daemon/src/pkce.rs:358-378 | a GET for any target without white space yields that target whatever follows |
| Redirects.RedirectIsUnderstood | crates/onedrive-daemon/src/pkce.rs:120-124 | the fields appended to the redirect come out of the browser's request unchanged |

## Left out

- Sockets, the bus, HTTP, the keyring, random bytes, `systemctl`, `umount`, extended attributes and `stat` are inputs, or commands that may succeed or fail.
- HydrationAPI is not part of this model: its printed line shape is taken from the tests in `dbus.rs`, and its path escape is any escape that leaves no white space and has an inverse.
- Wording, icons and row texts are small enumerations; two counts that print the same sentence count as the same row only if they are the same case.
- TrayGuarantees.MergedStateConverges: for one session of the state service; the race in which signals of a departed service arrive after its owner change is left out, and so are failed emissions.
- The desktop status JSON is an uninterpreted text with a parsed value.
- AuthGuarantees.RunKeepsInvariant: poisoned locks and a blocked socket write are left out; a write either succeeds or fails. A watcher is an identity with the lines it was sent.
- MenuGuarantees.RevisionMovesExactlyOnChange: the 32-bit revision wraps as in a release build; a debug build would panic there, and the same holds for the byte counter of JobGuarantees.SnapshotsAreConsistent.
- JobGuarantees.SnapshotsAreConsistent: the text fields `operation` and `current` of a job are left out, and an item of the selection is one step with any outcome; the listing itself is Collect.CollectFiles.
- Collect.CollectFiles: the tree does not change while it is listed.
- FolderBadge.ProbeDirectory: the tree does not change during the scan, and the selection of the configured roots is an input per entry.
- Watches.Watcher.Watch: whether the file watcher accepts a path, and when it drops one, is an input; the repaint signals are left out.
- Badge emblems, `getOverlays` and the pinned badge are a table over the scan's result.
- Fstab.AppendedLineReadsBack: for mount points without a line feed and for ASCII text; `unescape` maps bytes to characters one by one. The device name is one word that does not start with `#`.
- InstallTwice.InstallIsIdempotent: the checks of the machine itself (root, vantage, kernel, exposure, secrets, binaries, unit text) are one input that is the same both times; fstab and temporary files are no symbolic links, a unit file that is one does not lead to a path the same plan works on, a link leads to its file in one step, directories on the way are real directories, `WantedBy` targets contain no slash, and a home below `/etc/fstab` is excluded.
- Execute.ExecuteInner: ownership changes are a step that may fail and has no other effect; a temporary file that is a symbolic link makes the write fail here, while the code would follow it.
- UninstallMeaning.CommandsExactly: the user's half is one command; that it names the tray unit only when its file is there is left out.
- Uninstall.MountedRunIsSafe: nobody mounts the root or starts the helper by hand during the run. An unmount of the last mount stops the helper, as the unit asks; an unmount of one of several does not.
- Render.RenderIsSimultaneous: that the shipped templates meet its condition is left out. RenderMarks.RenderExactly is for values with a character that no token name has; for others the condition is Render.ChainIsExact, stage by stage.
- Exposures.ExposuresAreExact: splitting the rows of the mount table into fields is left out; rows are given, and each field is unescaped as in Fstab.Unescape.
- Redirects.CompleteWith: waiting for the connection, PKCE hashing, the form sent to the token endpoint and the diagnostics are left out.
- Utf8.DecodeEncode: only the direction a sign-in needs is used; case folding and normalisation play no part.
- Command line, kernel release parsing, legacy credential migration, `wait_for_store`, `parse_evict_reply`, account metadata, QML, desktop files and shell wrappers would only add easy members.
