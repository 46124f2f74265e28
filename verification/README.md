# Sleek: verified models of the client's stateful core

Sleek is a chat and call client. This project models the parts of it that hold unbounded state and
proves what they keep over every run:

- **Timeline** (`Timeline*.dfy`, `Buffer.dfy`): the capped, time-ordered message log of one
  conversation, with its id set, superseded ids, optimistic copies, tombstones, merges, edits that arrive
  in any order, and who may change a row.
- **Directory** (`Directory.dfy`, `DirectoryRuns.dfy`, `DirectoryBindings.dfy`, `DirectoryViews.dfy`,
  `AppState.dfy`): the conversations, their order, the open one, and the folding of a nick-keyed thread
  into the DID-keyed one when a peer's identity becomes known.
- **Unread index** (`UnreadIndex.dfy`, `MessageStore.dfy`, `DirectoryBadges.dfy`, `DirectoryStore.dfy`,
  `DirectoryInstances.dfy`): the message table and the read watermarks, the badges cached from them, and
  what they do in runs of the whole client.
- **Camera protocol** (`Camera.dfy`, `CameraDevices.dfy`, `CameraGate.dfy`): requesters, media loop and
  capture thread around one shared flag and one queue, in every interleaving, and which device is open.
- **NV12 rotation** (`Nv12.dfy`, `Nv12Loops.dfy`): quarter turns of a luma and a chroma plane.
- **String arena** (`Arena.dfy`, `ArenaHost.dfy`): strings handed to a Wasm guest.
- **Redial timer** (`Redial.dfy`, `RedialHistory.dfy`, `MediaRedial.dfy`), **fetch-once caches** (`FetchOnce.dfy`,
  `MediaFetch.dfy`, `Caches.dfy`), **links in text** (`LinkSpans.dfy`, `ChannelSpans.dfy`,
  `LinkOverlap.dfy`, `LinkScan.dfy`) and **broadcast names** (`BroadcastPath.dfy`).

Where the program updates something in place, a class or a loop here does the same and is proved to do
exactly what a function on values says; the laws are proved about those functions and so hold of the
classes. `Text.dfy` and `Seqs.dfy` hold shared vocabulary. `dafny verify dfyconfig.toml` checks everything.

## What does not hold, and when it does

The code does not always do what its own comments or a reader would expect. Each case has a concrete
instance and an exact condition:

- An edit that brings an id another row already carries leaves two rows with one id
  (`EditKeepsValidIff`, `ClashingEditDuplicatesAnId`).
- An edit that history replays is applied although its id is superseded, and undoes the edits after it
  (`SupersededArrivesIff`, `ReplayLeavesThreadIff`, `ReplayedEditUndoesTheNext`).
- A message that arrives right after the first of its edits is shown beside it, old text and new
  (`EndsAsOneRowIff`, `OlderPageIff`, `EditBeforeItsMessage`).
- A merge forgets the ids that the absorbed thread had superseded (`MergeForgetsUnheldIff`,
  `MergeRefusesIff`, `FirstFoldForgetsEverything`).
- Binding a nick to a DID can leave a thread under a spelling of the nick that differs in more than
  ASCII case, because the thread is looked up by ASCII folding and the nick by full lower case
  (`AdoptKeepsNoSplitIff`, `AccentedNickSplits`).
- Badges go stale when a thread is folded, opened under another spelling than its key's, or when the
  account changes under open conversations (`FoldKeepsBadgesIff` with `FoldGoesStale`, `OpenKeepsBadgesIff`
  with `OtherSpellingGoesStale`, `RenameKeepsBadgesIff` with `GuestRenameGoesStale`).
- History counts as unread when a live message took the first watermark before it (`AfterLiveCountsIff`,
  `LiveBeforeHistoryCounts`), or when it was asked for by another name than its buffer's
  (`BatchedMessageCountsIff`, `NickBatchIsNotHistory`).
- The gate around the camera believes a running device stopped after a failed stop or capture
  (`StepAgreesIff`, `FailedStopLeavesDeviceRunning`).
- A camera turned off while its device is opening is on again, and shows a frame, until the request is taken
  up: at start-up and on Android an open that succeeds overwrites the flag (`OpenOverwritesFlagIff`,
  `OffWhileOpeningShows`).
- Rotations that are snapped to quarter turns do not always add up (`RotationsAddIff`, `NudgesDoNotAdd`).
- Strings at or above 2 GiB of guest memory cannot be read back (`ReadsBackIff`,
  `TwoGigabytesCannotBeRead`).
- Host strings are meant to keep clear of what the guest allocates; a write does exactly when it ends
  before the pages the guest has grown since (`GuestPagesSparedIff`, `HostStringHitsGuestPage`).
- A link card that came with a message is meant to outlast a later failed download; it does exactly when
  no request for its link is still unanswered (`SeededCardSurvivesIff`, `SeededBeforeOrAfterTheAnswer`).
- A plain address before a secure one is not linked (`PlainIsCoveredIff`, `EarlierPlainLinkIsLost`).
- Channel mentions are said to skip addresses; the two overlap exactly when a mention runs on into an
  address or the search looks ahead into one (`ApartIff`, `FragmentBecomesAMention`).

## Model

| member | source | states |
|---|---|---|
| Text.AsciiCodes | android/src/state.rs:2005-2013 | ASCII folding moves exactly the 26 capitals; letters and digits are the ASCII ones |
| Timeline.AppendKeepsValid | android/src/state.rs:336-373 | appending any message keeps the log sorted by time, within its cap, free of duplicate ids, with an exact id set and a last activity that covers every row |
| Timeline.AcceptFacts | android/src/state.rs:336-354 | between accepting a fresh message and inserting it, the log is valid but for that one id, which no row carries yet |
| Timeline.ConsumeKeepsValid | android/src/state.rs:462-475 | dropping a confirmed optimistic copy keeps the invariant and only forgets ids |
| Timeline.EvictKeepsValid | android/src/state.rs:368-372 | cutting down to the cap keeps the invariant, superseded ids included |
| Timeline.InsertKeepsOrder | android/src/state.rs:355-367 | inserting by time keeps the rows in time order |
| TimelineRuns.EditKeepsValidIff | android/src/state.rs:377-421 | an edit keeps the invariant if and only if it brings no id that another row carries |
| TimelineRuns.DeleteKeepsValid | android/src/state.rs:424-442 | a deletion keeps the invariant |
| TimelineRuns.AbsorbKeepsValid | android/src/state.rs:445-459 | absorbing any other log keeps the invariant and this log's superseded ids |
| TimelineRuns.RunKeepsValid | android/src/state.rs:321-475 | every run of messages, edits, deletions, merges and activity seeds keeps the invariant and never forgets a superseded id |
| TimelineRuns.NoResurrection | android/src/state.rs:336-340 | an id some edit superseded is refused as a row of its own for the rest of the log's life |
| TimelineRuns.TombstoneStays | android/src/state.rs:377-442 | a deleted row stays deleted in every run for as long as its id is held |
| TimelineRuns.MergeKeepsDeleted | android/src/state.rs:445-459 | a merge cannot revive a deleted row that it holds throughout |
| TimelineAuthors.OnlyTheAuthorChanges | android/src/state.rs:377-475 | in every run without an edit or deletion by its author a row stays exactly as it is for as long as its id is held |
| TimelineAuthors.EditsAreTheAuthors | android/src/state.rs:386-395 | an edit changes only rows it names, of the editor's own and not deleted |
| TimelineAuthors.DeletionsAreTheAuthors | android/src/state.rs:424-436 | a deletion changes only a row it names, of the deleter's own |
| TimelineAuthors.StrangersEditIsAppended | android/src/app.rs:1085-1122 | an edit of somebody else's message is shown as a line of its own |
| TimelineAuthors.AbsorbTakesOver | android/src/state.rs:445-459 | a merge keeps the survivor's topic and call, takes the other's where it has none, counts both threads' unread up to the counter's limit, and is at least as recent as either |
| TimelineAuthors.SeededActivity | android/src/state.rs:323-334 | a listed time is the last activity of an empty log, and of another the later of the two |
| TimelineAuthors.SecondsAre | android/src/state.rs:349-352 | activity is told in whole seconds rounded down |
| TimelineOrder.ArrivalsGiveNewest | android/src/state.rs:336-373 | whatever the arrival order and the repeats, the log holds exactly the newest messages of the set up to the cap, oldest first |
| TimelineOrder.OrderIndependence | android/src/state.rs:336-373 | two deliveries of one set of messages leave the same rows, ids and last activity |
| TimelineOrder.NewestUnique | android/src/state.rs:336-373 | being in time order, within the cap and missing only older messages describes one list, the reference |
| TimelineOrder.TiesKeepArrivalOrder | android/src/state.rs:355-367 | messages with one time stamp are kept in arrival order, which is why distinct times are assumed above |
| TimelineEdits.EditRewritesInPlace | android/src/state.rs:377-421 | an author's edit by root or present id rewrites the one row in place: text, embed, link card, id and root are the edit's, position, time, author and reactions stay, and the ids it names and finds are refused from then on |
| TimelineEdits.DeletionEndsChain | android/src/state.rs:424-442 | the author's deletion by root or present id leaves an empty tombstone with the row's id, author and time that no edit applies to; anybody else's changes nothing |
| TimelineEdits.TrafficKeepsChain | android/src/state.rs:336-373 | unrelated messages leave an edited row findable by its root and its id |
| TimelineEdits.MergeKeepsChain | android/src/state.rs:445-459 | so does a merge of unrelated messages |
| TimelineEdits.EditChain | android/src/state.rs:377-421 | through any number of author edits, optimistic and replayed ones included, merges and unrelated traffic there is one row, with its time stamp and the text of the edit applied last, and every id it was edited under is refused as a row |
| TimelineEdits.ChainStillFound | android/src/state.rs:486-493 | after such a run both the editing and the deleting lookup reach that row by its root and by its present id |
| TimelineEdits.SupersededArrivesIff | android/src/app.rs:1085-1122 | a message under a superseded id changes nothing if and only if it carries no edit that applies, or one that repeats what its row says |
| TimelineEdits.OldTextsReturnIff | android/src/app.rs:1085-1122 | however much later a chain's old text is replayed, as a row it never returns, and as an edit it returns if and only if it applies and says something else |
| TimelineEdits.ReplayRestoresOldText | android/src/state.rs:377-421 | while a chain holds, a replayed edit by its author brings its old text and id back |
| TimelineEdits.ReplayedEditUndoesTheNext | android/src/app.rs:1085-1100 | a concrete chain of two edits reads as after the first when history delivers it again |
| TimelineEdits.ClashingEditDuplicatesAnId | android/src/state.rs:404-419 | a concrete edit whose new id is taken leaves two rows with one id |
| TimelineArrivals.ArrivalsShow | android/src/app.rs:1085-1122 | whatever else arrives in between, the log shows of a chain what its own messages make of one another: one row that the edits naming it rewrite, or several rows for good |
| TimelineArrivals.EndsAsOneRowIff | android/src/app.rs:1085-1122 | a message and the edits that name it, in any order and with any repeats, end as one row if and only if the message does not come right after the first edit; the row then has the last edit's text |
| TimelineArrivals.OlderPageIff | android/src/state.rs:336-421 | a chain heard in order from its middle is one row with the last edit's id and text; an older part of it that arrives later is shown beside it if and only if no edit has named or replaced its id |
| TimelineArrivals.SearchesAgreeIff | android/src/state.rs:424-493 | editing and deleting reach the same row if and only if only one answers to the id |
| TimelineArrivals.EditBeforeItsMessage | android/src/state.rs:336-493 | a concrete edit followed by its message leaves two rows, of which editing reaches the old text and deleting the new |
| TimelineEcho.SendCounts | android/src/app.rs:2574-2617 | an optimistic send shows its line once more, as pending |
| TimelineEcho.EchoCounts | android/src/state.rs:462-475 | an echo replaces one pending copy: shown as often as before, one fewer pending |
| TimelineEcho.EchoConservation | android/src/state.rs:341-348 | in every prefix of any run a line is shown exactly once per send, and exactly the sends not yet echoed are pending |
| TimelineEcho.AllEchoedNoneLocal | android/src/state.rs:341-348 | once all sends are echoed, none of the line's rows is an optimistic one |
| TimelineMerge.RowFate | android/src/state.rs:336-373 | one append removes a row only by confirming it or by cutting it as older than a full log |
| TimelineMerge.AppendShowsIff | android/src/state.rs:336-373 | with room to spare a new message is shown if and only if no row bears its id and no edit superseded it; lines without an id always are |
| TimelineMerge.OnlyCopiesAreTaken | android/src/state.rs:462-475 | with room to spare a message takes at most optimistic rows of its author with its text away, and only a server message that has an author does |
| TimelineMerge.MergeKeepsMessages | android/src/state.rs:445-459 | after a merge every message of both threads is shown unless its id was known or superseded, its server copy confirmed it, or newer rows filled the log; and nothing else is shown |
| TimelineMerge.MergeForgetsUnheldIff | android/src/state.rs:445-459 | an id neither thread bears is refused after a merge if and only if the surviving thread had superseded it, whatever the absorbed one had |
| TimelineMerge.FirstFoldForgetsEverything | android/src/state.rs:2086-2093 | folding into a new thread accepts again every id the thread had superseded |
| TimelineMerge.HeldIdIsForgottenOnlyIf | android/src/state.rs:445-459 | an id the surviving thread bears is forgotten only if a row of the other confirms its optimistic row or the two threads hold enough newer rows to cut it |
| TimelineMerge.MergeGivesNewest | android/src/state.rs:445-459 | merging plain threads shows exactly the newest rows of both up to the cap, less those the surviving one superseded |
| TimelineMerge.LateIdentityMakesNoDifference | android/src/state.rs:2052-2109 | two threads of plain messages, kept apart and then folded, give the very log of one thread that received all their messages in any order |
| TimelineMerge.MergeRefusesIff | android/src/state.rs:336-459 | a merge of plain threads refuses an id if and only if the surviving thread superseded it or fewer than the cap of both threads' rows are newer than its row |
| Buffers.InsertIndexIs | android/src/state.rs:355-367 | on a sorted log there is one place with no newer row before it and no older one after it |
| Buffers.FindIs | android/src/state.rs:486-493 | the editing lookup is determined as the first row an id names |
| Buffers.FindLastIs | android/src/state.rs:425-433 | the deleting lookup is determined as the last row an id names |
| Buffers.Buffer.ConsumeLocalEcho | android/src/state.rs:462-475 | the backward search in the fields drops the newest matching optimistic row |
| Buffers.Buffer.InsertPosition | android/src/state.rs:355-367 | the forward scan finds the place behind the rows of the same time |
| Buffers.Buffer.EvictOldest | android/src/state.rs:368-372 | the loop cuts the oldest rows and their ids |
| Buffers.Buffer.Append | android/src/state.rs:336-373 | the buffer appends as the log function does and stays valid |
| Buffers.Buffer.ApplyEdit | android/src/state.rs:377-421 | the buffer edits as the log function does and reports whether the edit applied |
| Buffers.Buffer.ApplyDelete | android/src/state.rs:424-442 | the buffer deletes as the log function does and reports whether the deletion applied |
| Buffers.Buffer.Absorb | android/src/state.rs:445-459 | the loop over another buffer's rows absorbs as the log function does, stays valid and leaves the other as it was |
| Buffers.Buffer.SeedActivityFromTarget | android/src/state.rs:323-334 | a server-listed time becomes the last activity of an empty buffer or when it is later |
| Directory.IsDidByFirstColon | patched-crates/freeq/freeq-sdk/src/address.rs:24-41 | what is a DID is decided by the first colon behind the prefix |
| Directory.IsDidIgnoresCase | patched-crates/freeq/freeq-sdk/src/address.rs:24-41 | and not by ASCII case |
| Directory.EnsureKeepsInv | android/src/state.rs:1986-2003 | ensuring a buffer keeps the directory in order, adds at most that key, empty, and touches no other log |
| Directory.EnsureOrder | android/src/state.rs:1986-2003 | a new conversation comes last in the list and nothing else changes |
| Directory.FoldOrder | android/src/state.rs:2078-2093 | folding keeps the order list a listing of the keys, with the nick's key replaced by the DID |
| Directory.FoldKeepsOrder | android/src/state.rs:2078-2093 | the nick's key leaves the list, a new DID comes last and the others stay in order |
| Directory.FoldKeepsInvIff | android/src/state.rs:2066-2109 | a fold keeps the directory in order if and only if the DID is in no other spelling; other threads are untouched, a viewer of the nick thread moves to the DID thread and nobody else does |
| Directory.AdoptKeepsInv | android/src/state.rs:2052-2063 | learning an identity in canonical spelling keeps the directory in order |
| Directory.LeaveKeepsInv | android/src/app.rs:2444-2460 | parting removes exactly that channel, closes it if it was open, and keeps the rest |
| Directory.AnnounceKeepsInv | android/src/app.rs:1222-1236 | lines announced in many buffers at once keep every buffer valid under its name |
| Directory.ShowReadKeepsInv | android/src/state.rs:2154-2177 | opening keeps the directory in order and the route on the active buffer |
| DirectoryRuns.DmBufferKeyInformed | android/src/state.rs:2017-2024 | the key chosen for a peer is the DID of a nick whose DID is known and otherwise the name given |
| DirectoryRuns.AllRoutesMeet | android/src/app.rs:1021-1039 | a message from a bound peer, our own to the peer, and one keyed by the DID are filed under the DID |
| DirectoryRuns.UnknownPeersKeepTheirNames | android/src/app.rs:1021-1039 | before that, messages from and to a peer are filed under the nick, channel messages under the channel |
| DirectoryRuns.AdoptKeepsNoSplitIff | android/src/state.rs:2052-2109 | binding a nick leaves no thread under it if and only if every thread keyed by the nick in full lower case is also equal to it in ASCII case |
| DirectoryRuns.AccentedNickSplits | android/src/state.rs:2059-2062 | a thread under a small accented nick stays behind when the capital is bound |
| DirectoryRuns.MergeShowsBothThreads | android/src/state.rs:2066-2095 | learning a DID loses no message of either thread without one of the four reasons and invents none |
| DirectoryRuns.DepartedKeepsGood | android/src/app.rs:965-981 | parts and kicks, ours or others', keep the directory in order and unsplit |
| DirectoryRuns.IncomingKeepsGood | android/src/app.rs:982-1129 | so does every incoming message, with the binding its echo reveals |
| DirectoryRuns.ReplayLeavesThreadIff | android/src/app.rs:1078-1129 | delivered into its buffer, a message under a superseded id leaves the thread alone if and only if it carries no edit that applies or one that repeats the row |
| DirectoryRuns.ListedKeepsGood | android/src/app.rs:1176-1194 | so does every listed conversation partner |
| DirectoryRuns.RunKeepsGood | android/src/state.rs:1986-2195 | in every run the order list names exactly the buffers once, no two keys differ in ASCII case alone, names match keys, the route shows the active buffer, logs are valid, and no conversation is split |
| DirectoryRuns.OneConversation | android/src/state.rs:2017-2109 | once a nick is bound, the nick in any ASCII case and its DID reach one buffer in every later state, as do messages from and to the peer, and no other buffer answers to the nick |
| DirectoryBindings.AdoptBinds | android/src/state.rs:2052-2109 | learning who a nick is enters it in both tables, leaves no thread under the nick in any ASCII case, shows both threads' rows but for the fates of a merge, and changes nobody else's |
| DirectoryBindings.EchoBindsIff | android/src/state.rs:2113-2138 | a message event binds its target if and only if it is our own message to a nick whom the SDK names by DID, and then leaves no thread under the nick |
| DirectoryBindings.EchoShowsThread | android/src/app.rs:1015-1017 | such an echo leaves every row of the nick's thread in the DID's unless the merge or the echo refuses, confirms or cuts it |
| DirectoryBindings.EchoBindsForGood | android/src/state.rs:2017-2138 | from then on what is written to the nick goes to the DID's buffer, in every run that does not bind the nick again or end the session |
| DirectoryBindings.ListedBinds | android/src/app.rs:1176-1194 | a listed partner is bound like one an echo reveals, a nick listed alone is not |
| DirectoryBindings.ListedShows | android/src/app.rs:1176-1194 | the listed conversation exists with at least the listed time, and exactly that when nothing has been said in it |
| DirectoryBindings.OthersKeepBindings | android/src/state.rs:2052-2138 | no other event binds a nick or forgets one |
| DirectoryViews.OpenShows | android/src/state.rs:2140-2178 | opening shows the conversation, a bound peer's under the DID and any other under its name, and changes no rows |
| DirectoryViews.ViewStays | android/src/state.rs:2078-2195 | it stays in view in every run until one is opened, closed, left or folded away |
| DirectoryViews.ClosedShowsTabs | android/src/state.rs:2428-2439 | closing, ending the session and leaving the conversation in view show the tabs; leaving another shows the same |
| DirectoryViews.JoinsAndParts | android/src/app.rs:2444-2460 | a conversation asked for is there afterwards, a channel parted from is not, and the others are as they were |
| DirectoryViews.OpenedNeverCounts | android/src/state.rs:1933-1966 | from opening on, while it stays in view, nothing delivered to a conversation ever counts as unread |
| DirectoryViews.ClosedCountsIff | android/src/state.rs:2154-2195 | opened and closed again, a conversation counts a new message of somebody else if and only if it is newer than the opening, the stored rows and the old watermark |
| DirectoryViews.DepartedIff | android/src/app.rs:965-981 | a part or kick takes the channel away if and only if it is ours, and otherwise adds its line there and nowhere else |
| DirectoryViews.SentIsShown | android/src/app.rs:2574-2617 | a line of our own is shown in the peer's conversation, created if need be, and nowhere else |
| DirectoryViews.NoticeIsShown | android/src/app.rs:965-981 | so is a line about ourselves in the conversation it is for |
| DirectoryViews.ChangesReachOne | android/src/app.rs:2710-2748 | our own edit and a deletion reach the conversation of that key and no other |
| DirectoryViews.DeliveredIsShown | android/src/app.rs:1111-1122 | so is every delivered message that rewrites nothing |
| DirectoryViews.DeliverTouchesOne | android/src/app.rs:1078-1129 | whatever is delivered, no other conversation changes |
| DirectoryViews.AnnouncedIsShown | android/src/app.rs:1222-1236 | announced lines are shown in exactly the conversations they are for, and our new nick is taken over |
| DirectoryViews.NewestIsLast | android/src/state.rs:355-367 | an unknown line not older than the newest row is shown last |
| DirectoryViews.BatchOver | android/src/app.rs:1345-1357 | after a batch has ended a name is in history if and only if another batch asks for it |
| DirectoryBadges.RecordKeepsBadges | android/src/state.rs:1933-1966 | recording any message leaves every cached badge equal to the index's count |
| DirectoryBadges.BatchEndKeepsBadges | android/src/app.rs:1345-1357 | so does the end of a history batch |
| DirectoryBadges.OpenKeepsBadgesIff | android/src/state.rs:2140-2178 | opening empties the index's count, and badges follow if and only if the buffer found is spelled like the key or had nothing unread |
| DirectoryBadges.FoldKeepsBadgesIff | android/src/state.rs:2078-2095 | badges survive a fold if and only if the two counts add up to what the index counts for the DID alone |
| DirectoryBadges.FirstFoldKeepsBadgesIff | android/src/state.rs:2078-2095 | into a DID of which nothing has been read, badges survive a fold if and only if the nick's thread had nothing unread |
| DirectoryBadges.RenameKeepsBadgesIff | android/src/app.rs:1222-1236 | after a nick change of our own the badges are right if and only if the index counts as much under the account that results; always when signed in or when the folded nick is the same |
| DirectoryBadges.SignInKeepsBadgesIff | android/src/app.rs:898-907 | the same for signing in |
| DirectoryBadges.SignOutKeepsBadgesIff | android/src/state.rs:1865-1867 | and for signing out with the conversations left open |
| DirectoryBadges.NewAccountKeepsBadgesIff | android/src/state.rs:1919-1923 | to an account that has read none of the open conversations the badges stay right if and only if there was nothing unread |
| DirectoryBadges.RunKeepsBadges | android/src/state.rs:1933-2003 | in every run without folds, opens by another spelling and changes of account each badge is what the index counts |
| DirectoryInstances.OtherSpellingGoesStale | android/src/state.rs:2140-2178 | a channel with one unread message, opened in another case, keeps a badge the index does not count |
| DirectoryInstances.FoldGoesStale | android/src/state.rs:2066-2095 | a nick thread with one unread message, folded into a new DID thread, brings a badge the index does not count |
| DirectoryInstances.GuestRenameGoesStale | android/src/state.rs:1919-1923 | a guest's nick change leaves an unread badge that its new account does not count |
| DirectoryStore.RunIsRun | android/src/state.rs:1933-2178 | every run of the client is a run of index operations, so the laws of the index hold of it |
| DirectoryStore.RecordedIs | android/src/state.rs:1933-1966 | recording sets a first watermark if and only if the channel is in view or the message live and foreign, then at the newest of the other rows, and touches no other channel |
| DirectoryStore.HistoryBatchNeverUnread | android/src/app.rs:1336-1357 | what is heard of a channel between the start and the end of a batch naming it is never counted, then or after any later run, and replaying it changes nothing |
| DirectoryStore.ArrivalCountsIff | android/src/state.rs:1926-1966 | from any state, a message new to its channel is unread after whatever follows but reads and repeats of it if and only if it is foreign, out of view, newer than the watermark or, without one, than all that was known, and in that case in no batch naming its buffer |
| DirectoryStore.BatchedMessageCountsIff | android/src/app.rs:1336-1357 | history delivered from a batch is counted if and only if the batch names its buffer otherwise and it is newer than all that was known |
| DirectoryInstances.NickBatchIsNotHistory | android/src/state.rs:1926-1964 | history asked for by nick but filed under a DID is counted as unread |
| AppStates.AppState.FindBufferKey | android/src/state.rs:2005-2013 | the search over the keys finds the one buffer equal up to ASCII case |
| AppStates.AppState.EnsureBuffer | android/src/state.rs:1986-2003 | the object ensures a buffer as the directory function does |
| AppStates.AppState.MergeDmBuffers | android/src/state.rs:2066-2109 | the object folds threads as the directory function does and reports whether there was one |
| AppStates.AppState.AdoptDmBinding | android/src/state.rs:2052-2063 | the object adopts a binding as the directory function does and reports whether a thread was folded |
| AppStates.AppState.AdoptEchoBinding | android/src/state.rs:2113-2138 | the object adopts what our own echo reveals and reports whether a thread was folded |
| AppStates.AppState.OpenChat | android/src/state.rs:2140-2178 | the object opens a conversation as the directory function does and stays in order |
| AppStates.AppState.CloseChat | android/src/state.rs:2180-2195 | no conversation is active and the route shows the tabs |
| AppStates.AppState.RecordMessageForUnread | android/src/state.rs:1933-1966 | the object records a message as the directory function does and stays in order |
| AppStates.AppState.RefreshUnread | android/src/state.rs:1969-1984 | the object refreshes the badge of whatever buffer the name finds |
| AppStates.AppState.ChannelInHistoryBatch | android/src/state.rs:1926-1930 | the search over batches finds whether one is in flight for the channel |
| AppStates.AppState.EndBatch | android/src/app.rs:1345-1357 | the object ends a history batch as the directory step does |
| AppStates.AppState.ReceiveMessage | android/src/app.rs:982-1129 | the object handles a message event as the directory step does |
| UnreadIndex.RunGrows | android/src/message_store.rs:76-196 | in every run rows are never changed or lost and no watermark goes back |
| UnreadIndex.MarkReadClears | android/src/message_store.rs:96-115 | reading a channel leaves nothing unread in it and its watermark at least at the given time |
| UnreadIndex.MarkReadIsLeast | android/src/message_store.rs:96-115 | a read moves the watermark to the latest of its time, the stored times and the old watermark, and touches nothing else |
| UnreadIndex.ReadThenCountsIff | android/src/message_store.rs:96-196 | after a read nothing stored is newer than, a message first heard of later is unread if and only if it is foreign and newer than the read |
| UnreadIndex.BaselineIsNewest | android/src/message_store.rs:118-142 | the watermark at a batch's end is the newest stored time, no later |
| UnreadIndex.HistoryThenCountsIff | android/src/message_store.rs:118-196 | after a first history batch a message is unread if and only if it is foreign and newer than all the history |
| UnreadIndex.NeverStored | android/src/message_store.rs:76-93 | optimistic copies, system lines and lines without an id are never stored, in any run |
| UnreadIndex.UnreadRefinement | android/src/message_store.rs:76-196 | from nothing unread, the count is the number of distinct messages of others first heard of since with a time above the watermark |
| UnreadIndex.UnreadSinceRead | android/src/message_store.rs:96-196 | the same from any read on, with the latest of the read, the stored times and the old watermark as the bound, and the next read gives zero |
| UnreadIndex.HistoryNeverUnread | android/src/message_store.rs:118-142 | no row stored when the first watermark is taken at a batch's end is ever counted, and replaying it changes nothing |
| UnreadIndex.HistoryBeforeLiveNeverUnread | android/src/message_store.rs:146-175 | the same when a live message takes the first watermark after its history |
| UnreadIndex.LiveMessageCountsIff | android/src/message_store.rs:143-175 | that live message is itself counted if and only if it is newer than all rows before it |
| UnreadIndex.AfterLiveCountsIff | android/src/message_store.rs:146-196 | from any store, once a live message has taken the first watermark, a row first heard of later is counted if and only if it is foreign and newer than all rows that were there |
| UnreadIndex.LiveBeforeHistoryCounts | android/src/message_store.rs:164-173 | with nothing there before, such a history row is counted exactly when its time is after the epoch |
| MessageStores.MessageStore.Insert | android/src/message_store.rs:76-93 | the store inserts once per account, channel and id |
| MessageStores.MessageStore.MarkRead | android/src/message_store.rs:96-115 | the store advances the watermark as the index function does |
| MessageStores.MessageStore.BaselineAfterHistory | android/src/message_store.rs:118-142 | the store sets a first watermark after history |
| MessageStores.MessageStore.EnsureLiveBaseline | android/src/message_store.rs:146-175 | the store sets a first watermark before a live message |
| MessageStores.MessageStore.UnreadCount | android/src/message_store.rs:179-199 | the query counts the distinct unread ids, zero without a watermark |
| Camera.StepKeepsInvariant | android/src/av_media.rs:710-1154 | every step of requesters, loop and capture thread keeps the protocol invariant |
| Camera.Quiescence | android/src/av_media.rs:442-1154 | in every interleaving, when the loop is idle, no enable message is queued and nobody is between store and send, the device is open exactly when the flag is on, and the flag is the last request unless an open failed since |
| Camera.QuiescenceWithoutFailures | android/src/av_media.rs:442-1154 | with opens that succeed, an idle and settled loop does what was last asked |
| CameraDevices.OpenDeviceIsTheOneAsked | android/src/av_media.rs:696-1154 | in every interleaving, when the loop is idle with no device request queued and no request to turn off outstanding, an open device is the one last asked for or what an open has resolved that to |
| CameraDevices.SwitchReopens | android/src/av_media.rs:1045-1143 | a device request taken up with the camera on closes the device and waits for the one asked for, with the camera off it is only remembered |
| CameraDevices.OpenOverwritesFlagIff | android/src/av_media.rs:724-761 | after an open that succeeds the flag is on if and only if it was, or at start-up, or on Android |
| CameraDevices.OffWhileOpeningShows | android/src/av_media.rs:1863-1865 | a concrete run shows a frame after the camera was turned off while opening |
| Camera.StepAgreesIff | android/src/av_media.rs:1888-1988 | where gate and device agree, any step of the protocol keeps them agreeing if and only if it is no failed stop of a running device and no poll whose stop or capture fails |
| Camera.PollAgreesIff | android/src/av_media.rs:1920-1988 | after a poll the gate and the device agree if and only if the device failed neither stop nor capture |
| Camera.FailedStopLeavesDeviceRunning | android/src/av_media.rs:1927-1942 | a concrete run ends with the flag off, the gate not streaming and the device running |
| Camera.OffMeansDark | android/src/av_media.rs:1920-1951 | while the flag stays off, whatever else runs, at most the one frame whose poll had read it on still comes out |
| Camera.FrameComesOutIff | android/src/av_media.rs:1920-1988 | a poll that reads the flag on yields a frame if and only if the device captures, or starts, and has one, and leaves it running |
| Camera.GateAgrees | android/src/av_media.rs:1888-1988 | with a device that does not fail, the gate's belief about it is true in every run |
| CameraGate.GatedCameraSource.PopFrame | android/src/av_media.rs:1920-1988 | the poll checks the flag before capturing, leaves the gate as the protocol's poll does, and fails exactly when on and the start or the capture failed |
| CameraGate.GatedCameraSource.Start | android/src/av_media.rs:1907-1913 | streaming is set only by a start that succeeds |
| CameraGate.GatedCameraSource.Stop | android/src/av_media.rs:1915-1918 | streaming is cleared even by a stop that fails |
| Nv12.TurnIsBijection | android/src/nv12_orient.rs:83-176 | the source coordinates of each turn are a bijection between output and source positions, all in bounds |
| Nv12.QuarterTurnIsClockwise | android/src/nv12_orient.rs:83-112 | one turn moves the sample at (x, y) to (h - 1 - y, x) |
| Nv12.TurnsCompose | android/src/nv12_orient.rs:83-176 | turning a plane by a and then by b is turning it by a + b |
| Nv12.PlanesStayTogether | android/src/nv12_orient.rs:83-176 | the chroma pair covering an output pixel comes from the pair covering that pixel's source |
| Nv12.OrientTwice | android/src/nv12_orient.rs:12-36 | orienting twice is orienting once by the sum of the snapped rotations, both planes and dimensions |
| Nv12.RejectedIff | android/src/nv12_orient.rs:21-63 | a frame is rejected if and only if it is empty, odd, or too short for its strides |
| Nv12.CardinalRotationsCompose | android/src/nv12_orient.rs:12-48 | for multiples of 90, a then b is a + b modulo 360 |
| Nv12.SidewaysAndBack | android/src/nv12_orient.rs:12-48 | 90 then 270 is no rotation and 90 twice is 180 |
| Nv12.SnapsToNearest | android/src/nv12_orient.rs:38-48 | the rotation applied is never more than 45 degrees from the one asked for |
| Nv12.RotationsAddIff | android/src/nv12_orient.rs:12-48 | orienting every frame by a and then by b is orienting it by a + b if and only if the two distances to the snapped turns add up to one that still snaps to the sum of the turns |
| Nv12.NudgesDoNotAdd | android/src/nv12_orient.rs:38-48 | a frame of four pixels is unchanged by two rotations of 44 and turned by one of 88 |
| Nv12.NinetyMovesPixels | android/src/nv12_orient.rs:12-112 | rotating by 90 swaps the dimensions and carries each source pixel's byte clockwise |
| Nv12.NinetyMovesPairs | android/src/nv12_orient.rs:98-112 | and each chroma pair with its two bytes in order |
| Nv12.PaddingIsIrrelevant | android/src/nv12_orient.rs:50-80 | frames that agree in their visible samples give the same result whatever their strides and padding |
| Nv12Loops.PackRows | android/src/nv12_orient.rs:65-78 | the row loop copies exactly the visible samples |
| Nv12Loops.PackNv12 | android/src/nv12_orient.rs:50-80 | both planes are packed, or nothing exactly when a buffer is too short |
| Nv12Loops.TurnLuma | android/src/nv12_orient.rs:83-165 | the luma loops fill the output with the turned plane, in bounds |
| Nv12Loops.TurnChroma | android/src/nv12_orient.rs:98-176 | the chroma loops fill the output with the turned pairs, in bounds |
| Nv12Loops.OrientNv12 | android/src/nv12_orient.rs:12-36 | the whole operation: rejected inputs, packing, snapping and turning |
| Arena.HeaderRoundTrip | host/src/gleam_string.rs:49-104 | the four header bytes, low byte first, read back as the length modulo 2^32 |
| Arena.EnsurePagesFacts | host/src/gleam_string.rs:111-124 | growth covers the requested end by no more whole pages than it takes and keeps what was there; it fails exactly when the end is new and beyond the page limit or refused by the runtime |
| Arena.WriteFacts | host/src/gleam_string.rs:74-109 | a successful write puts its string behind all earlier ones and leaves everything before it alone |
| Arena.WriteSucceedsIff | host/src/gleam_string.rs:74-109 | a write succeeds if and only if its end exists already or fits the page limit and is granted |
| Arena.FailedWriteChangesNothing | host/src/gleam_string.rs:86-100 | a write that fails leaves arena and memory as they were |
| Arena.StepKeepsInvariant | host/src/gleam_string.rs:74-124 | host writes, guest writes elsewhere and guest growth keep every earlier string in place, disjoint and aligned |
| Arena.ReadsBackIff | host/src/gleam_string.rs:33-62 | a stored string reads back if and only if its offset is below 2^31 |
| Arena.ReadSucceedsIff | host/src/gleam_string.rs:33-62 | reading succeeds if and only if the pointer is not negative and length and bytes lie in memory and are text |
| Arena.TwoGigabytesCannotBeRead | host/src/gleam_string.rs:38-40 | the first string behind 2 GiB of memory gets a pointer that reads nothing |
| Arena.GuestPagesSparedIff | host/src/gleam_string.rs:86-107 | a write leaves pages the guest has grown alone, whatever they hold, if and only if it ends before them |
| Arena.HostStringHitsGuestPage | host/src/gleam_string.rs:9-10 | a concrete host string runs into a page the guest has just grown |
| Arena.RunRoundTrip | host/src/gleam_string.rs:33-125 | after any run every pointer ever returned below 2^31 reads back its own text, and the strings are 4-aligned, disjoint, at or above the memory size at first use and inside memory |
| ArenaHosts.HostStringArena.EnsurePages | host/src/gleam_string.rs:111-124 | the memory object grows as the function says |
| ArenaHosts.HostStringArena.Write | host/src/gleam_string.rs:74-109 | the arena object writes as the function says, pointer and memory |
| ArenaHosts.Read | host/src/gleam_string.rs:33-62 | reading the memory object gives the text or the error the function gives |
| Redial.AttemptsFallOnlyIfForgiven | android/src/state.rs:2474-2521 | the attempt count falls only when the call is left or a stable Live period is seen, and then starts over; a short Live never lowers it and each other drop counts one more |
| Redial.FreshDropWaitsTwoSecondsIff | android/src/state.rs:2474-2491 | a drop waits two seconds if and only if it is the first or follows a stable Live period |
| Redial.DelayMonotone | android/src/reconnect.rs:8-16 | the delay grows with the attempts, never exceeds 30 s, and the counter's saturation does not show |
| Redial.DelayDoubles | android/src/reconnect.rs:8-16 | each attempt waits twice as long as the one before, from two seconds up to 30 |
| Redial.RedialBound | android/src/app.rs:257-288 | n >= 4 timer-driven re-dials take at least 30(n - 3) s from the first schedule, whatever is interleaved |
| Redial.RedialBoundIsTight | android/src/state.rs:2474-2491 | for every n some run meets that bound exactly |
| RedialHistory.TimerIs | android/src/state.rs:2474-2507 | a timer is pending if and only if one was set and since then the media was not Live again, the call not left and the timer not seen due; it is due its backoff after it was set |
| RedialHistory.DialsIff | android/src/app.rs:257-288 | a poll dials if and only if it is in a session and a timer is pending and due |
| RedialHistory.LiveDialsNothing | android/src/state.rs:2502-2507 | from any state, once Live again nothing is dialled until the next drop |
| RedialHistory.LiveSinceIs | android/src/state.rs:2474-2507 | the Live period began with the first Live after the last drop; later ones do not restart it |
| RedialHistory.PollForgivesIff | android/src/state.rs:2510-2521 | a poll clears the attempts if and only if that was 8 seconds ago or more |
| MediaRedials.MediaRedial.Schedule | android/src/state.rs:2474-2491 | the timer fields change as the backoff step says |
| MediaRedials.MediaRedial.OnLive | android/src/state.rs:2502-2507 | Live cancels the timer and keeps the attempts |
| MediaRedials.MediaRedial.PollStability | android/src/state.rs:2510-2521 | a long Live clears the attempts |
| MediaRedials.MediaRedial.Poll | android/src/app.rs:257-288 | a due timer is consumed and dials only in a session; without a call everything is reset |
| FetchOnce.ActorIsNeverInvented | android/src/avatar_cache.rs:46-55 | the account looked up is the verified identity or a dotted name cut out of the nick itself |
| FetchOnce.LookupsAskForTheOwner | android/src/avatar_cache.rs:46-88 | in every run each lookup asks for the verified identity that came with a prefetch of its nick, or without one for a dotted name cut out of the nick |
| FetchOnce.IdentityIsUsed | android/src/avatar_cache.rs:46-55 | a verified identity is always asked for, whatever the nick |
| FetchOnce.HandleIsUsed | android/src/avatar_cache.rs:46-55 | without one a nick that is a domain name is asked for as it is |
| FetchOnce.BareNickTellsNothing | android/src/avatar_cache.rs:46-55 | and a nick without a dot not at all |
| FetchOnce.TrimIs | android/src/avatar_cache.rs:62-83 | trimming takes white space only, from the ends, and all of it |
| FetchOnce.DropAtsIs | android/src/avatar_cache.rs:46-55 | all leading at-signs are dropped and nothing else |
| FetchOnce.FoundPictureStays | android/src/avatar_cache.rs:91-129 | a picture that was found is shown for the nick in any case and the profile's handle, through every later run that brings no other |
| FetchOnce.SeededPictureStays | android/src/avatar_cache.rs:120-129 | so is one seeded from an open profile |
| FetchOnce.AskedAtMostOnce | android/src/avatar_cache.rs:57-129 | from an empty cache all drained batches together ask about each nick at most once, and in flight are exactly the unanswered |
| FetchOnce.AskedOnceIff | android/src/avatar_cache.rs:57-129 | in any run a nick is asked about once if some prefetch with an account comes before every answer that makes it known, and never otherwise; earlier prefetches without an identity do not pre-empt it |
| FetchOnce.DrainSendsAll | android/src/avatar_cache.rs:85-88 | draining sends what was queued, in order, and empties the queue |
| MediaFetch.RequestedAtMostOnce | android/src/state.rs:940-1057 | each kind of preview of each address is requested at most once in any run, and loading shows exactly what is requested and unanswered |
| MediaFetch.TouchedIsServed | android/src/state.rs:942-988 | an address that is touched has been requested or answered from then on |
| MediaFetch.OnlyWebIsAsked | android/src/state.rs:942-988 | nothing but http and https addresses is ever requested |
| MediaFetch.DrainSendsAll | android/src/state.rs:1043-1046 | draining sends what was queued, in order, and changes nothing shown |
| MediaFetch.AnswerIsShown | android/src/state.rs:1008-1041 | what an answer brings is shown until the next answer, or card seeded over it, for the same address |
| MediaFetch.SeedIsShownIff | android/src/state.rs:991-1006 | a seeded card is shown if and only if none with a title or a description is |
| MediaFetch.ThumbIsServed | android/src/state.rs:991-1037 | the thumbnail of a card that is fetched or seeded is requested unless its state is known |
| MediaFetch.SeededCardSurvivesIff | android/src/state.rs:991-1041 | after any run a card that says something survives every later answer if and only if no request for its link is still unanswered |
| MediaFetch.LateFailureHidesCard | android/src/state.rs:1039-1041 | the failure of an unanswered request hides a card that says something |
| MediaFetch.SeededBeforeOrAfterTheAnswer | android/src/state.rs:979-1041 | a card seeded while its request is out can be lost, one seeded after the request failed cannot |
| Caches.AvatarCache.Prefetch | android/src/avatar_cache.rs:62-83 | the cache object changes as the prefetch function says |
| Caches.AvatarCache.ApplyResult | android/src/avatar_cache.rs:91-117 | the cache object changes as the answer function says |
| Caches.AvatarCache.DrainPending | android/src/avatar_cache.rs:86-88 | the drained batch is what the run's record gains |
| Caches.MediaCache.TouchImage | android/src/state.rs:942-951 | touching requests an unknown picture and returns its state |
| Caches.MediaCache.SeedLink | android/src/state.rs:991-1006 | the cache object seeds a card as the function says |
| Caches.MediaCache.SetLinkReady | android/src/state.rs:1032-1037 | a fetched card is stored and its thumbnail requested |
| LinkSpans.SchemeHasNoDelimiter | android/src/preview.rs:148-161 | a found scheme lies inside the address it starts, so the scan advances |
| LinkSpans.LinksOk | android/src/preview.rs:144-182 | links are separate and increasing, equal their slice, start with a lower-case scheme, hold no delimiter, and stop before trailing punctuation |
| LinkSpans.LinkReads | android/src/preview.rs:163-182 | a link holds no white space, angle bracket or quote, does not end in sentence punctuation, and is followed by nothing but such punctuation up to the next of those |
| LinkSpans.LinkOfIff | android/src/preview.rs:171-178 | a stretch is linked if and only if its scheme is in lower case |
| LinkSpans.StretchHasLink | android/src/preview.rs:144-182 | no stretch's link is missing |
| LinkSpans.SecureIsCovered | android/src/preview.rs:150-152 | every secure address is part of some stretch |
| LinkSpans.SecurelyCoveredIff | android/src/preview.rs:150-161 | a position lies in a stretch that starts securely if and only if a secure address reaches it without a delimiter |
| LinkSpans.PlainIsCoveredIff | android/src/preview.rs:150-156 | a plain address is found if and only if a secure one reaches it without a delimiter or none follows it |
| LinkSpans.EarlierPlainLinkIsLost | android/src/preview.rs:150-156 | a concrete text whose first link is not found |
| ChannelSpans.MentionsOk | android/src/preview.rs:214-258 | mentions increase and do not overlap, equal their slice, are not blocked, and have a non-empty name without a trailing dot |
| ChannelSpans.MentionReads | android/src/preview.rs:228-258 | a mention is a # or & not behind a word, slash or its own kind, with the longest name behind it but for dots at the end |
| ChannelSpans.FoundIff | android/src/preview.rs:214-258 | a candidate becomes a mention if and only if the search sees it from outside all addresses and mentions with no prefix in between |
| ChannelSpans.OutsideIsFound | android/src/preview.rs:214-258 | every candidate outside the addresses is found |
| LinkOverlap.ApartIff | android/src/preview.rs:210-258 | mentions and addresses are disjoint if and only if no mention could run on into an address and none starts at the first prefix the search looks ahead to |
| LinkOverlap.FragmentBecomesAMention | android/src/preview.rs:218-226 | a concrete address whose fragment is shown as a mention too |
| LinkOverlap.MessageLinksAreBoth | android/src/preview.rs:261-275 | the combined list is sorted and holds exactly both families |
| LinkScan.ExtractUrlSpans | android/src/preview.rs:144-182 | the loop finds exactly the specified links and terminates |
| LinkScan.ExtractChannelSpans | android/src/preview.rs:214-258 | the loop finds exactly the specified mentions and terminates |
| LinkScan.ExtractMessageLinkSpans | android/src/preview.rs:261-275 | the list shown is built from both scans |
| BroadcastPath.NickComesBackIff | android/src/av.rs:496-516 | the nick comes back out of a built path if and only if it has neither separator in it |
| BroadcastPath.KeysAreDistinct | android/src/av.rs:504-510 | two paths have one key exactly for the same nick and the same device |
| BroadcastPath.TapsExactlyOthers | android/src/av.rs:518-536 | a participant listens to exactly the broadcasts of its own session by another nick up to ASCII case |
| BroadcastPath.TapsBarePaths | android/src/av.rs:518-536 | a path that names no session is listened to unless it is ours or of our nick |

## Left out

- Message rows: reply marks, actions, signatures, members, join flags and the reaction operations are not
  modelled; of reactions only that a deletion clears them.
- The cap is a parameter, where the program fixes 500; unread and attempt counters are unbounded except
  where they saturate.
- Buffers in the directory are log values: the program's map owns its buffers, and `Buffers.Buffer` shows
  the in-place form of one.
- TimelineOrder.OrderIndependence: assumes one message per id and per time stamp and no edits or optimistic
  rows; `TiesKeepArrivalOrder` shows why equal times are excluded.
- TimelineEcho.EchoConservation: assumes the log does not reach its cap and that local ids are new, as
  sends in different milliseconds have them.
- DirectoryBadges.RunKeepsBadges: excludes folds, opens by another spelling and changes of account, where
  the exact conditions above apply.
- DirectoryRuns.RunKeepsGood: assumes DIDs in one spelling, names at least as informed as the nick table,
  and incoming edits whose id no other row bears; the exact conditions are stated by the members with `Iff`
  in their names.
- DirectoryStore.HistoryBatchNeverUnread: assumes that during the batch nobody reads the channel and no
  other batch for it ends, either of which sets its watermark early.
- TimelineMerge.MergeRefusesIff: assumes one message per id and per time stamp and no optimistic rows;
  `HeldIdIsForgottenOnlyIf` covers the rest in one direction.
- AppStates.AppState.FindBufferKey: assumes that the name is a key or at most one key equals it up to ASCII
  case, so that the program's search in hash order has one answer; the runs above keep this.
- Lower case: `to_lowercase` is exact for characters up to U+00FF; other letters are left as they are.
- Of `freeq_sdk` only the test for a DID and the key of a direct message are modelled.
- TimelineArrivals.EndsAsOneRowIff: assumes that the log has room, that every edit names the message itself
  and that all are by one author; `OlderPageIff` covers edits that name the edit before them.
- TimelineAuthors.OnlyTheAuthorChanges: assumes that the row is held throughout, as a row that was cut may come
  back from another thread, and that no edit brings an id another row bears.
- DirectoryStore.ArrivalCountsIff: assumes that nobody reads the channel afterwards, which ends the matter,
  and that the message is not repeated as a live one, which takes a baseline that leaves it out.
- The SQL engine, its errors and the disk: the two tables are total maps.
- Events for channel topics, calls in channels, invitations, policy gates and call signalling.
- Camera2 is also stopped from within a poll on Android; the device is one boolean and its id here. Previews, frame
  counters, status messages, and microphone and speaker switching are left out, as is the end of the session.
- The rotation that Camera2 metadata asks for (`camera2_rotation_degrees`).
- Whether the runtime grants memory growth below the page limit is a parameter of every write, as is what
  counts as UTF-8; offsets are unbounded where a 32-bit host would overflow.
- Redial.RedialBound: dialling itself and its outcome are events of the run; automatic reconnection of the
  server link is left out.
- Positions in text count characters where the program counts bytes.
- Fetches, image and video decoding, video player state, uploads, the sign-in flow, screens and themes.
