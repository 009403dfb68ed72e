# Retainer: a verified model of its synchronisation

Retainer keeps notes, checklist items and label attachments on any number of devices. A device
edits its own copy at once, queues field-level mutations under hybrid logical clock (HLC) stamps,
and exchanges them with one server, which arbitrates every field by stamp and answers with the rows
whose sequence number is above the client's cursor. A WebSocket hub hints at when to pull.

This project models that system and proves what it is for:

* every server field is the value with the greatest stamp among the accepted writes, whatever the
  order, batching and duplication (`Merge`), and no note is ever both pinned and archived although
  the two flags are arbitrated one by one (`Gestures`);
* one response turns any earlier snapshot into the current one, and a client with local edits is
  repaired if and only if the rows it changed are above its cursor (`Replica`);
* over every run of the whole protocol - losses, refusals, retries, overlapping syncs, dropped
  hints, slow clients thrown out by the hub - no edit is lost or made up, and a connected client
  whose last sync did not fail either has a pull on its way or shows exactly the server's list, up
  to edits that had lost before they were queued (`Protocol`, `Catchup`, `Convergence`); left alone
  with no request on its way, it gets there in a bounded number of steps if and only if the server
  accepts what is pending (`Progress`), and edits are served in the order in which they were made (`Ledger`);
* what a gesture shows at once is what the server will list, with the exact exceptions (`Optimistic`),
  and so is what a new note or item shows (`Creation`); removals take exactly what they should (`Removal`);
* drags and inserts put entries where the user put them, unless it is between two equal position
  keys (`FracIndex`, `Ordering`); stamps order as their clocks do (`Hlc`); the search index holds every live text
  as a line of its own (`SearchIndex`); every client gets one contiguous block of the hub's events, in
  order (`Hub`); quoted queries read back as their tokens (`Query`).

## Layout

| file | content |
|---|---|
| `Results`, `Seqs`, `Lex`, `Models` | results and options, sequences, string order, rows, mutations and their decoding |
| `Hlc`, `FracIndex`, `Ordering`, `Query` | stamps, position keys, drag and insert, query quoting |
| `SyncSpec` | the sync engine as a function on tables, and every other step of the server |
| `Merge`, `Gestures`, `History`, `Removal`, `SearchIndex` | theorems about runs of the server |
| `Database` | the server's services as a class that updates rows in place, tied to `SyncSpec` |
| `Replica`, `Optimistic`, `Creation` | the client's copy against the server's list |
| `Hub` | the broadcast hub as a class, and its runs |
| `Client` | the web client's note store as a class |
| `Protocol`, `Catchup`, `Convergence` | client, hub and server as one state machine, and what holds in all its runs |
| `Progress`, `Divergence` | whether a client gets there, and runs in which it does not |
| `Ledger` | what the machine's bookkeeping means, told from the moves of a run |

`dafny verify dfyconfig.toml` checks everything.

## Reading notes

* Code and comments of the program differ in places; the model follows the code. A mutation whose
  stamp is stale is accepted even if its value does not decode, because decoding comes after the
  stamp comparison (except for `kind` and `attached`). JSON `null` decodes to the empty string and
  to `false`. The comment on `togglePinned` argues from one shared stamp per bundle; the proof
  needs no distinctness of stamps across devices.
* `Hlc.Next` never looks at remote clocks, so a stamp may be older than a write the client has
  already seen. Such an edit changes nothing on the server and stays visible on the client until a
  response delivers the row (`Replica.CoveredEditIsNotRepaired`); the exact condition for one
  response is `Replica.OptimisticRepairExact`. `Protocol.World` records these rows, the theorems over
  runs say that the client differs from the server in no others, and with timely stamps there are
  none (`Convergence.TimelyRunsShowTheList`). `Divergence` constructs the runs in which it does differ.
* Purging a note and deleting a label remove rows without a new sequence number. The theorems on
  deltas and on whole runs of the protocol are about runs without such steps; re-delivery is
  harmless exactly while the rows are there (`History.RedeliveryExact`). Consistency, the search
  index and pin/archive exclusion are proved for runs that contain them.
* Opening the page starts the fetch of the list and the socket together, and logging in again
  fetches the list once more. Both are moves that may happen at any time in a run. Lists and
  responses are taken to arrive in the order in which the server computed them, which the code does
  not see to: a list that was overtaken takes view and cursor back (`Convergence.OvertakenListExact`),
  and a response that was overtaken takes rows back but not the cursor (`Convergence.OvertakenAnswerExact`).
  A list hides deleted items, so the cursor it sets may lag the counter; the client is current all
  the same (`Convergence.EveryRunOwesAPull`).
* A wall time of -1 still sorts before all others, because Go's `%020d` puts the sign in front of
  the zeros. JavaScript's `padStart` would put the zeros in front of the sign; that form is not modelled.
* `Protocol` describes one client; the other devices are the commits that may happen at any time.
  Its `Edit` move covers what `Client.Store`'s methods show and queue
  (`Optimistic.GestureChangesOnly`, `Client.ReorderChangesOnly`, `Client.ReorderItemChangesOnly`,
  `Client.InsertItemChangesOnly`, `Client.NewNoteChangesOnly`). `SyncNow` and the failure moves are `Store.BeginSync` and
  `Store.SyncFailed`, `AnswerArrives` is `Store.Reconcile` or `Store.Load`, and the hub's hops are the
  arms of `Hub` (`Protocol.HubRefinesHops`, `Protocol.HubRefinesConnections`).

## Model

| member | source | states |
|---|---|---|
| Hlc.ParseEncode | server/internal/hlc/hlc.go:24-43 | parsing inverts printing for every device id, dashes included |
| Hlc.StampLayout | server/internal/hlc/hlc.go:24-26 | within the widths a stamp is twenty digits of the wall time, a dash, ten digits of the counter, a dash and the device id |
| Hlc.OrderEmbedding | server/internal/hlc/hlc.go:21-51 | comparing stamps as strings is comparing (wall, counter, device), both ways, and equal strings mean equal clocks |
| Hlc.CounterBoundExact | server/internal/hlc/hlc.go:25 | stamps with counters below a bound order correctly if and only if the bound is at most 10^10 |
| Hlc.NegativeWallsMisorder | server/internal/hlc/hlc.go:25 | the two milliseconds from -2 to -1 print in the wrong order |
| Hlc.WallBoundExact | server/internal/hlc/hlc.go:21-51 | stamps with wall times from a bound on order correctly if and only if the bound is at least -1 |
| Hlc.MaxWallIsMaximum | server/internal/hlc/hlc.go:58-64 | the running maximum of the wall readings is an upper bound that is attained |
| Hlc.IssuedClock | server/internal/hlc/hlc.go:53-64 | after any readings, backward jumps included, the wall part is the greatest reading and the counter the number of stamps since it last rose |
| Hlc.StampsIncrease | web/src/lib/hlc.ts:21-28 | the stamps of one device strictly increase as strings over any run of wall readings |
| Hlc.DevicesNeverCollide | web/src/lib/hlc.ts:21-28 | two devices never issue the same stamp |
| Hlc.Issuer.Issue | web/src/lib/hlc.ts:19-28 | the stateful issuer moves `last` to the next clock and returns a stamp that sorts after the previous one |
| FracIndex.BetweenExact | server/internal/fracindex/fracindex.go:28-105 | the new key never ends in '0', is above a, is at most one digit longer than the longer neighbour, and is below b if and only if a < b and b is not a followed only by '0's |
| FracIndex.NothingBelowZeroExtension | server/internal/fracindex/fracindex.go:34-37 | in the excluded case every key strictly between ends in '0', so no usable key was missed |
| FracIndex.HalvesTheGap | server/internal/fracindex/fracindex.go:56-90 | where the first digits leave a gap the new key takes its middle, so as much room remains below as above, give or take one digit |
| FracIndex.BetweenPositions | server/internal/fracindex/fracindex.go:34-40 | between keys that came from this function the result is always strictly between and again such a key |
| FracIndex.KeyBetween | server/internal/fracindex/fracindex.go:41-105 | the digit loop with its mode flag and trailing-digit guard terminates and computes the specified key |
| FracIndex.WalkLoop | web/src/lib/fracindex.ts:29-57 | the loop over `i`, `bFree` and `result` (the same in the client's copy) computes the recursive walk |
| Ordering.SortingUnique | web/src/lib/stores/notes.ts:50-56 | sorting has one outcome when the keys are distinct, for both directions |
| Ordering.DragExact | web/src/lib/stores/notes.ts:314-324 | for lists sorted by any keys, ties included: re-sorting after re-keying the dragged entry puts it at the target, and taking it out and inserting it there is an outcome of that sort, if and only if the upper neighbour, where there is one, has a key above the lower one's that is not the lower one followed only by '0's |
| Ordering.DragAmongTies | web/src/lib/stores/notes.ts:314-324 | on lists of stored keys a drag puts the entry where it was dropped if and only if that is not between two entries with equal keys |
| Ordering.DropLandsAtTarget | web/src/lib/stores/notes.ts:314-324 | dropped at place i of the list, the entry stands at place i afterwards if and only if it was not dropped between two equal keys; dropped before the front or beyond the end, it always stands first or last |
| Ordering.DropBetweenTwins | web/src/lib/stores/notes.ts:166-169 | an input: notes that got the same key at the top, one archived meanwhile or both added offline; a note dropped between two of them goes above them all |
| Ordering.DragIsSplice | web/src/lib/stores/notes.ts:314-332 | on lists of distinct stored keys every drag is that splice, the whole list is determined, and it is again such a list |
| Ordering.InsertExact | web/src/lib/stores/notes.ts:334-367 | a new entry keyed between its neighbours - below an item, at the bottom of a checklist, at the top of the notes - lands exactly there if and only if the two have different keys |
| Ordering.InsertIsSplice | web/src/lib/stores/notes.ts:334-367 | among distinct keys it always does, and the keys stay distinct |
| Ordering.InsertionRun | web/src/lib/stores/notes.ts:334-367 | any number of inserts into one list keeps it strictly sorted, hence its keys distinct, and loses no entry, old or new |
| Query.ReadJoined | server/internal/searchsvc/searchsvc.go:62-70 | reading the quoted tokens by the FTS5 string rule (section 3.1 of the SQLite FTS5 documentation) returns exactly the tokens |
| Query.FieldsExact | server/internal/searchsvc/searchsvc.go:63 | cutting a query gives tokens if and only if the query is those tokens in that order, separated by spaces |
| Query.FieldsSplit | server/internal/searchsvc/searchsvc.go:63 | the tokens on the two sides of a space do not depend on each other |
| Query.AsciiFields | server/internal/searchsvc/searchsvc.go:63 | in ASCII, blanks, tabs and line ends separate, and printable characters do not, quotation marks and operators included |
| Query.SanitizeQuery | server/internal/searchsvc/searchsvc.go:57-70 | for every input the result reads as exactly the tokens that the input is made of, with spaces before, between and after them; it is empty if and only if the input is blank |
| Models.DecodeExact | server/internal/syncsvc/syncsvc.go:114-130 | which JSON values a column takes and to what they decode: the encodings of values of its type, and null as false, no time or the empty text |
| SyncSpec.ApplyLogAppend | server/internal/syncsvc/syncsvc.go:82-97 | applying a concatenation is applying the parts in turn, stopping at the first error |
| SyncSpec.BatchesAreALog | server/internal/syncsvc/syncsvc.go:75-112 | a run of all-or-nothing batches equals the log of the accepted mutations |
| SyncSpec.BatchesAreSteps | server/internal/syncsvc/syncsvc.go:75-112 | a run of batches takes or leaves each batch whole |
| SyncSpec.RunAppend | server/internal/syncsvc/syncsvc.go:73-112 | a run of the server is its steps, one after another |
| Merge.ApplyOneIsRegisterWrite | server/internal/syncsvc/syncsvc.go:132-227 | whichever branch is taken, an accepted mutation either changes nothing because its field holds a stamp at least as new, or writes value and stamp of exactly one (row, field) register |
| Merge.LogOutcome | server/internal/syncsvc/syncsvc.go:196-227 | after any accepted log each register holds its initial content or the value of the greatest stamp among the writes to it |
| Merge.OutcomeUnique | server/internal/hlc/hlc.go:45-51 | that characterisation determines value and stamp when equal stamps carry equal values |
| Merge.TwoWritesExact | server/internal/syncsvc/syncsvc.go:200-202 | two writes commute if and only if they do not meet in one register with one stamp and different values |
| Merge.LogRows | server/internal/syncsvc/syncsvc.go:157-191 | a row exists exactly if it did before or some accepted mutation addressed it |
| Merge.LogOwners | server/internal/syncsvc/syncsvc.go:312-334 | the note of an item is its old one or one that an accepted mutation of that item named |
| Merge.RegistersDetermineRows | server/internal/syncsvc/syncsvc.go:229-298 | equal registers mean equal rows, so the creating path and the updating path agree |
| Merge.Convergence | server/internal/syncsvc/syncsvc.go:132-445 | two accepted logs with the same set of mutations, in any order and multiplicity, leave the same rows, values and clocks |
| Merge.BatchedConvergence | server/internal/syncsvc/syncsvc.go:75-112 | the same for differently cut batches, some of them refused |
| Merge.AcceptanceExact | server/internal/syncsvc/syncsvc.go:300-335 | a log of storable mutations is accepted if and only if each one comes after the rows it refers to |
| History.AcceptedExact | server/internal/syncsvc/syncsvc.go:132-227 | for every mutation: it is accepted if and only if it passes the fixed checks and was delivered before, or its payload can be stored and what it refers to is there |
| Creation.FirstNoteWrite | server/internal/syncsvc/syncsvc.go:157-191 | the row that the first mutation of a note id creates, for each column, written out: the column as sent, and otherwise an empty text note in the default colour, on the grid, at the middle key |
| Creation.FirstItemWrite | server/internal/syncsvc/syncsvc.go:312-334 | the same for items: unchecked, not deleted, under the note named |
| Gestures.GesturesKeepExclusive | web/src/lib/stores/notes.ts:258-289 | any interleaving of whole bundles keeps a note from being both pinned and archived |
| Gestures.PinnedExcludesArchived | web/src/lib/stores/notes.ts:258-289 | in every reachable state of the server, all other steps included, no note is both pinned and archived |
| Gestures.SplitBundlesLoseExclusion | web/src/lib/stores/notes.ts:95-104 | the same edits under separate stamps can leave both flags set |
| Gestures.Overruled | server/internal/syncsvc/syncsvc.go:200-202 | an accepted write is either what its register holds or was overruled by a strictly newer stamp |
| Gestures.TrashOverrulesEdits | web/src/lib/stores/notes.ts:243-256 | if a note is in the trash, every content edit accepted for it has a smaller stamp than the trashing, in every order of arrival |
| Gestures.DeletionOverrulesEdits | web/src/lib/stores/notes.ts:369-390 | the same for deleted items and item edits |
| History.ApplyOneWritesOneRow | server/internal/db/db.go:35-47 | an effective mutation writes one row under the next sequence number and leaves every other row alone |
| History.StepKeepsConsistent | server/internal/db/db.go:35-47 | every step keeps sequence numbers distinct across the three tables and below the counter, and references intact |
| History.ReachableConsistent | server/internal/purge/sweep.go:30-86 | this holds in every reachable state, purges, sweeps and label deletions included: no orphan rows |
| History.CounterCountsEffects | server/internal/syncsvc/syncsvc.go:200-207 | the counter advances by exactly the number of mutations that took effect |
| History.RunEvolves | server/internal/syncsvc/syncsvc.go:46-52 | between two states of a run without removals, rows persist and a row not above the earlier counter is untouched |
| History.ClockMoved | server/internal/syncsvc/syncsvc.go:204-208 | when a stamp becomes covered, its row has a sequence number above the earlier counter |
| History.LogDelivers | server/internal/syncsvc/syncsvc.go:200-202 | after a batch is accepted, each of its mutations is covered by the stored stamps |
| History.RedeliveryExact | server/internal/syncsvc/syncsvc.go:200-202 | in any state a batch is accepted and changes nothing if and only if each of its mutations has been delivered to the rows as they are |
| History.DeliveredSurvives | server/internal/syncsvc/syncsvc.go:200-202 | a delivered mutation stays delivered over any run of the server that leaves its row in place, removals of other rows included |
| History.RedeliveryIsNoOp | web/src/lib/stores/notes.ts:119-125 | a batch that committed, cut and re-sent in any way after any further steps that leave its rows in place, is accepted and changes neither rows nor counter |
| History.GrowingRunsKeepRows | server/internal/syncsvc/syncsvc.go:75-112 | pushes, audio uploads and new labels leave every row in place |
| History.RedeliveryNeedsItsRows | server/internal/purge/sweep.go:72-86 | once a row of the batch is gone, re-sending it is no longer without effect |
| History.RedeliveryAfterPurge | server/internal/purge/sweep.go:72-86 | after a purge the re-sent edit creates the note anew |
| History.LogAcceptedLater | server/internal/syncsvc/syncsvc.go:132-227 | a batch the server would accept stays acceptable in every state with no fewer rows and labels and no older stamps |
| History.WillBeAboveExact | server/internal/syncsvc/syncsvc.go:196-222 | told before the call: an accepted batch leaves a row above a cursor if and only if it is above already or some mutation of the batch addresses it under a stamp not yet covered |
| History.NoteAfterExact | server/internal/syncsvc/syncsvc.go:312-334 | told before the call: the note an item will belong to is its own, or the one its first mutation names |
| Removal.PurgeExact | server/internal/purge/sweep.go:15-28 | a purge removes the note, its items - hidden ones too - and its attachments, and nothing else; the list loses the note |
| Removal.SweepExact | server/internal/purge/sweep.go:30-70 | a sweep removes exactly the notes that have been in the trash for more than 604800000 milliseconds, with their rows |
| Removal.SweepListed | server/internal/purge/sweep.go:30-70 | so the list loses those notes |
| Removal.LabelRemovalExact | server/internal/labelsvc/labelsvc.go:84-103 | deleting a label removes its attachments and no others, and every note is listed as before without it |
| Removal.NewLabelAttaches | server/internal/syncsvc/syncsvc.go:408-446 | a label can be attached once it was created and not before, and the note is listed with it then |
| Replica.SnapshotCells | server/internal/notesvc/notesvc.go:16-89 | what the list contains, cell by cell: notes, live items and attached labels |
| Replica.ReconcileCells | web/src/lib/stores/notes.ts:128-152 | what one response changes in a view: rows above the cursor read as on the server, everything else stays |
| Replica.RepairExact | web/src/lib/stores/notes.ts:128-152 | reconciling makes any view the server's list if and only if it disagreed only on rows above the cursor |
| Replica.DeltaEqualsSnapshot | server/internal/syncsvc/syncsvc.go:459-530 | one response with any cursor not beyond s turns the list at s into the list at any later state |
| Replica.OptimisticRepairExact | web/src/lib/stores/notes.ts:109-152 | told before the push: after an accepted batch and its response the view is the server's list if and only if every row changed locally is above the cursor already or addressed by the batch under a stamp not yet covered |
| Replica.CoveredEditIsNotRepaired | web/src/lib/stores/notes.ts:128-152 | edits of notes, items or attachments whose stamps are already covered change nothing on the server, and a row shown differently stays so unless the cursor was behind it |
| Replica.LateAnswerExact | web/src/lib/stores/notes.ts:128-152 | a response reconciled after a newer one leaves the list as it is if and only if every row it delivers reads the same by now |
| Replica.DeltaExists | server/internal/syncsvc/syncsvc.go:475-530 | the rows above a cursor can always be listed in ascending order of sequence number |
| Replica.ListCursorBelow | web/src/lib/stores/notes.ts:74-84 | the cursor that load computes never runs ahead of the server's counter |
| Replica.ListCursorExact | web/src/lib/stores/notes.ts:74-84 | it reaches the counter if and only if the newest write is of a note or of an item that is not deleted |
| SearchIndex.MutationKeepsIndex | server/internal/syncsvc/syncsvc.go:21-24 | re-indexing only after changes of title, body, kind, text or deleted, and after creation, keeps index and rows in agreement |
| SearchIndex.StepKeepsIndex | server/internal/searchsvc/searchsvc.go:13-55 | every step of the server keeps one index row per note and none otherwise, agreeing with the note |
| SearchIndex.IndexAlwaysAgrees | server/internal/searchsvc/searchsvc.go:13-55 | in every reachable state each note has one row: with its title, and its body or, for a checklist, every live text as a whole line; cut at line feeds, the row is the live texts, if none contains one |
| SearchIndex.LinesOfJoin | server/internal/searchsvc/searchsvc.go:47 | cutting the joined text at line feeds gives back the lines, if none contains one |
| SearchIndex.ArrangementsShareLines | server/internal/searchsvc/searchsvc.go:29-47 | whatever the order in which a checklist's texts are joined, the result has the same lines |
| SearchIndex.OtherEditsReindexNothing | server/internal/syncsvc/syncsvc.go:21-24 | edits of colour, flags, trashing and positions, of an item's tick and position, and of attachments re-index nothing |
| SearchIndex.TextsAfterExact | server/internal/syncsvc/syncsvc.go:337-374 | told before the call: an item mutation that writes text or deletion mark leaves the live texts of the item's note as they were, without the item if it is deleted then, else with its new text |
| SearchIndex.ForeignNoteExact | server/internal/syncsvc/syncsvc.go:366-373 | told before the call: after such a mutation that names another note, the index agrees if and only if the item's own note is no checklist or its untouched row happens to list those texts |
| SearchIndex.ForeignNoteLeavesIndexStale | server/internal/syncsvc/syncsvc.go:366-373 | so a new text for the sole live item of a checklist, sent under another note's name, leaves the old line |
| Database.Database.NextServerSeq | server/internal/db/db.go:35-47 | increments the one counter and returns it |
| Database.Database.ReindexNote | server/internal/searchsvc/searchsvc.go:17-55 | replaces the note's index row by one computed from its current row, or removes it; the lines of a checklist's row are its live texts in position order |
| Database.Database.ApplyNoteMutation | server/internal/syncsvc/syncsvc.go:132-227 | the branching update in place computes the specified tables and index, or the specified error |
| Database.Database.ApplyItemMutation | server/internal/syncsvc/syncsvc.go:300-376 | the same for items, including which note is re-indexed |
| Database.Database.ApplyNoteLabelMutation | server/internal/syncsvc/syncsvc.go:408-446 | the same for label attachments, which never touch the index |
| Database.Database.Apply | server/internal/syncsvc/syncsvc.go:73-112 | all or nothing: tables as specified, on success the exact delta above the cursor and the counter, on failure no trace and the first failing mutation |
| Database.Database.LoadChangedNotes | server/internal/syncsvc/syncsvc.go:475-493 | exactly the notes above the cursor, ascending |
| Database.Database.LoadChangedItems | server/internal/syncsvc/syncsvc.go:495-512 | exactly the items above the cursor, ascending, deleted ones included |
| Database.Database.LoadChangedNoteLabels | server/internal/syncsvc/syncsvc.go:514-530 | exactly the attachments above the cursor, ascending, detached ones included |
| Database.Database.List | server/internal/notesvc/notesvc.go:16-52 | computes the snapshot, notes by descending position and the items of each note by ascending position |
| Database.Database.ItemsForNote | server/internal/notesvc/notesvc.go:72-89 | the items of a note that are not deleted, by ascending position |
| Database.Database.Search | server/internal/searchsvc/searchsvc.go:72-99 | exactly the notes neither trashed nor archived whose index row matches the query's tokens, each once; nothing for a blank query |
| Database.SearchSeesNotes | server/internal/searchsvc/searchsvc.go:28-48 | while the index agrees with the rows, a note that is no checklist matches exactly if its own title and body do; a checklist matches if every arrangement of its live texts does, and only if some arrangement does |
| Database.SearchSeesChecklists | server/internal/searchsvc/searchsvc.go:28-48 | if the engine does not care about the order of lines, a checklist is found if and only if its live texts match in any one order |
| Database.Database.CreateAudioNote | server/internal/audiosvc/audiosvc.go:24-67 | one insert with the next sequence number and its index row, or no trace when the id is taken |
| Database.Database.PurgeOne | server/internal/purge/sweep.go:15-28 | removes the note, its items, attachments and index row, and nothing else |
| Database.Database.SweepExpired | server/internal/purge/sweep.go:30-70 | purges exactly the notes trashed before the retention window and returns their number |
| Database.Database.DeleteLabel | server/internal/labelsvc/labelsvc.go:84-103 | strips and deletes a known label; an unknown one changes nothing |
| Hub.Hub.OnRegister | server/internal/wsserver/hub.go:44-45 | a new client enters the map with an open, empty channel |
| Hub.Hub.OnUnregister | server/internal/wsserver/hub.go:46-50 | removes and closes a client that is still in the map, and no other |
| Hub.Hub.OnBroadcast | server/internal/wsserver/hub.go:51-65 | the loop over the clients, in whatever order, appends the event where there is room and drops the others |
| Hub.Hub.OnNotify | server/internal/wsserver/hub.go:72-83 | queues the event or, with the queue full, drops it |
| Hub.EveryRunDelivers | server/internal/wsserver/hub.go:41-83 | in every run clients in the map are those with an open channel, no channel is closed twice or sent to after closing, the hub works through the events that found room in their order, and what a client's pump has written followed by what its channel holds is exactly the contiguous block of them dequeued while it was in the map |
| Hub.DropsExact | server/internal/wsserver/hub.go:56-83 | a fan-out drops a client if and only if eight events wait for it, and a notification is dropped if and only if sixteen wait for the hub |
| Protocol.HubRefinesHops | server/internal/wsserver/hub.go:51-83 | seen from one client, notifying, fanning out and pumping are the hops of the protocol |
| Protocol.HubRefinesConnections | server/internal/wsserver/hub.go:43-50 | so are registering a new connection and unregistering the latest one |
| Protocol.MoveKeepsAwake | server/internal/httpapi/sync.go:23-30 | no lost wake-up: while answers arrive in order, a registered client that has not caught up with the counter has a hint, a scheduled pull or an unread request on its way, unless its last sync failed |
| Protocol.InternalMovesUseUpWork | web/src/lib/ws/client.ts:19-42 | every move that needs no new input strictly decreases the work left |
| Protocol.BusyCanMove | web/src/lib/ws/client.ts:19-42 | a client with work left can always move, unless the server is about to refuse a request or the last sync failed |
| Catchup.JustifiedStays | web/src/lib/stores/notes.ts:109-126 | a reason for showing something else than the server persists until the edit is covered, and then becomes a newer server write |
| Catchup.ReconcileShows | web/src/lib/stores/notes.ts:128-152 | after a response every remaining difference is explained by an outstanding edit, a write newer than the response, or an overruled edit of a row the response did not deliver |
| Catchup.MoveInStep | web/src/lib/stores/notes.ts:109-129 | in every run the responses under way lead from the state the client has caught up with to the present |
| Convergence.MoveShows | web/src/lib/stores/notes.ts:109-152 | every move keeps the client showing a past server state except where an outstanding edit, a newer write or an overruled edit explains the difference |
| Convergence.MoveConserves | web/src/lib/stores/notes.ts:109-126 | every move keeps the multiset of queued edits equal to pending plus requested plus answered plus acknowledged |
| Convergence.RunInvariant | web/src/lib/stores/notes.ts:74-152 | all invariants hold in every state of every run |
| Convergence.EveryRunConverges | web/src/lib/stores/auth.ts:7-17 | in every run since the page was opened - the list fetched while the socket connects, and again at any later time - a connected client whose last sync succeeded has something under way, or every edit is delivered and the view is the server's list except in rows of overruled edits |
| Convergence.EveryRunOwesAPull | web/src/lib/ws/client.ts:19-42 | in every such run a connected client whose cursor is below the counter is owed a pull, unless it has just been shown the current list, whose newest row is one the list hides |
| Convergence.OvertakenListExact | web/src/lib/stores/notes.ts:74-88 | a list applied last, after the responses to later syncs, keeps a quiet client awake if and only if nothing was committed since the list was read |
| Convergence.OvertakenList | web/src/lib/stores/notes.ts:83-84 | otherwise view and cursor go back and nothing is under way |
| Convergence.OvertakenAnswerExact | web/src/lib/stores/notes.ts:128-129 | an older response reconciled by a quiet client that shows the list: it still does if and only if every row delivered reads the same by now; it stays quiet and its cursor stays at the counter either way |
| Convergence.TimelyRunsShowTheList | web/src/lib/stores/notes.ts:109-152 | if no edit was overruled before it was queued, a client with nothing under way shows exactly the server's list |
| Convergence.EveryRunConserves | web/src/lib/stores/notes.ts:119-125 | in every run each queued edit is accounted for, and the server has all acknowledged ones |
| Progress.QuietStretchIsBounded | web/src/lib/ws/client.ts:19-42 | without new input the number of moves is bounded by the work that was left |
| Progress.QuietStretchEndsUpToDate | web/src/lib/ws/client.ts:29-42 | where such a stretch can go no further, a client still connected is up to date, unless the server is about to refuse one of its requests |
| Progress.AcceptableStretchEndsUpToDate | web/src/lib/stores/notes.ts:109-126 | told before the stretch: if the server as it is would accept what is pending and each batch on its way, the client ends up to date, in whatever order the moves come |
| Progress.QuietStretchExact | web/src/lib/stores/notes.ts:109-126 | told before the stretch: with no request on its way, the client ends up to date if and only if the server as it is accepts what is pending |
| Progress.QuietStretchInOrder | server/internal/syncsvc/syncsvc.go:300-335 | for storable edits that is: if and only if each pending edit comes after the rows it refers to |
| Progress.RefusedEditStays | web/src/lib/stores/notes.ts:119-125 | in every run an edit stays queued or requested for as long as no batch can carry it past the server |
| Progress.MalformedEditIsNeverDelivered | web/src/lib/stores/notes.ts:119-125 | so an edit that fails the server's fixed checks does for ever |
| Progress.UnknownLabelIsNeverDelivered | server/internal/syncsvc/syncsvc.go:408-446 | and an attachment to an unknown label, which passes them, until there is such a label |
| Ledger.EditsStayInLine | web/src/lib/stores/notes.ts:109-126 | first come, first served, through refusals, losses and retries: if edits leave only when no others are on their way, what was acknowledged, what is on its way and what waits are the user's edits in the order in which they were made |
| Ledger.QueuedAreTheEdits | web/src/lib/stores/notes.ts:90-104 | in every run the edits counted as queued are the user's, each as often as it was made |
| Ledger.SignalsExact | web/src/lib/ws/client.ts:19-42 | in every run the flush timer runs, a pull is scheduled, and the last sync counts as failed, exactly if an edit, a hint or a failure has come since the last sync or scheduled pull was started |
| Ledger.ListArrivalLoads | web/src/lib/stores/notes.ts:74-84 | in every run a list that arrives is shown as it is, and sets the cursor to the greatest sequence number in it |
| Ledger.ResponseArrivalReconciles | web/src/lib/stores/notes.ts:128-152 | in every run a response that arrives holds the delta above its cursor, is merged into what is shown, and moves the client's cursor to the server's counter, forward only |
| Ledger.OverruledExact | web/src/lib/stores/notes.ts:109-152 | in every run the rows excepted from the theorems are exactly those edited under a stamp that had lost, that no list or response has shown since |
| Divergence.CoveredEditStaysShown | web/src/lib/stores/notes.ts:109-152 | every edit that was covered before it was queued leads, by a run from the opened page, to a connected client with nothing under way that goes on showing it |
| Divergence.FailedPullStays | web/src/lib/stores/notes.ts:119-126 | an input for "unless the last sync failed": the first pull is lost, nothing is scheduled, and a connected client shows none of the server's notes |
| Divergence.DivergedClient | web/src/lib/stores/notes.ts:109-152 | an input: a title set under an older stamp stays on one client, the newer one on the server |
| Optimistic.GestureChangesOnly | web/src/lib/stores/notes.ts:243-300 | a gesture changes the view only in the rows its mutations address |
| Optimistic.NewestWritesListed | server/internal/syncsvc/syncsvc.go:196-222 | writes newer than the stored stamps all take effect and change only their note in the list |
| Optimistic.GestureOutcome | web/src/lib/stores/notes.ts:243-300 | what each timely gesture makes of the note on the server, field by field: pinning un-archives, archiving un-pins and sets the key, an edit also takes the note out of the trash; nothing else in the list changes |
| Optimistic.NoteGestureExact | web/src/lib/stores/notes.ts:243-300 | the optimistic view has the content the server will list, if and only if the gesture is not a content edit of a trashed note |
| Optimistic.RemovalExact | web/src/lib/stores/notes.ts:385-390 | removing an item shows what the server will list |
| Optimistic.ItemEditExact | web/src/lib/stores/notes.ts:369-383 | editing an item shows what the server will list, if and only if it had not been deleted there |
| Optimistic.ReorderListed | web/src/lib/stores/notes.ts:322-323 | a dragged note is shown with the key, in the place, that the server will list |
| Optimistic.ReorderItemListed | web/src/lib/stores/notes.ts:424-429 | so is a dragged item |
| Optimistic.SameContentExact | web/src/lib/stores/notes.ts:128-152 | the comparison used here: two views have the same content if and only if they show the same notes, items and labels with the same data |
| Creation.NewTextNoteListed | web/src/lib/stores/notes.ts:166-194 | the four edits of a new text note, under whatever stamps, make the server list exactly the note that was shown: its title, body and key, and nothing else set |
| Creation.NewChecklistListed | web/src/lib/stores/notes.ts:196-223 | the same for a new checklist and its three edits |
| Creation.NewItemListed | web/src/lib/stores/notes.ts:334-351 | the two edits of a new item make the server list exactly the empty, unchecked item that was shown |
| Creation.AudioNoteListed | server/internal/audiosvc/audiosvc.go:24-67 | an uploaded audio note is listed with its title and position and nothing else set; a taken id changes nothing |
| Client.FlattenAppend | web/src/lib/stores/notes.ts:119-123 | whole bundles in front of whole bundles are whole bundles |
| Client.Store.Load | web/src/lib/stores/notes.ts:74-88 | a fetched list replaces the copy and sets the cursor, forward or back, to the greatest sequence number in it; a failed fetch changes neither |
| Client.MaxSeq | web/src/lib/stores/notes.ts:77-81 | the loops compute the greatest sequence number of the listed notes and items |
| Client.Store.QueueBundle | web/src/lib/stores/notes.ts:90-104 | all mutations of a bundle are queued in order under one new stamp |
| Client.Store.SetNoteField | web/src/lib/stores/notes.ts:243-256 | shows the edit and queues it with trashedAt cleared under the same stamp |
| Client.Store.AddTextNote | web/src/lib/stores/notes.ts:166-194 | shows the new note at the top of the main list and queues its four edits under four stamps in a row |
| Client.Store.AddChecklist | web/src/lib/stores/notes.ts:196-223 | the same for a checklist and its three edits |
| Client.Store.TogglePinned | web/src/lib/stores/notes.ts:258-273 | pinning also un-archives, in the view and in the bundle |
| Client.Store.ToggleArchived | web/src/lib/stores/notes.ts:275-289 | archiving also unpins, and puts the note above the archive's first key |
| Client.Store.TrashNote | web/src/lib/stores/notes.ts:291-295 | shows and queues the trashing |
| Client.Store.RestoreNote | web/src/lib/stores/notes.ts:297-300 | shows and queues the restoring |
| Client.Store.SetItemField | web/src/lib/stores/notes.ts:369-383 | shows the edit and queues it with deleted cleared under the same stamp |
| Client.Store.RemoveItem | web/src/lib/stores/notes.ts:385-390 | drops the item from the view and queues its deletion |
| Client.Store.Reorder | web/src/lib/stores/notes.ts:314-332 | gives the dragged note the key between the neighbours of the target place - the front for a negative target, the end for one too large - or does nothing if it is not in the list |
| Client.Store.ReorderItem | web/src/lib/stores/notes.ts:410-430 | the same for items, in ascending order |
| Client.Store.AddItemAfter | web/src/lib/stores/notes.ts:334-367 | a new item keyed between the given one and its successor, queued as two edits |
| Client.ReorderChangesOnly | web/src/lib/stores/notes.ts:322-323 | a drop changes the view only in the row its mutation addresses |
| Client.ReorderItemChangesOnly | web/src/lib/stores/notes.ts:424-429 | the same for a drop among items |
| Client.InsertItemChangesOnly | web/src/lib/stores/notes.ts:345-350 | the same for a new item and its two mutations |
| Client.NewNoteChangesOnly | web/src/lib/stores/notes.ts:166-194 | the same for a new note |
| Client.TakeOut | web/src/lib/stores/notes.ts:314-317 | find and filter compute membership and the list without the entry |
| Client.Store.BeginSync | web/src/lib/stores/notes.ts:109-117 | everything pending leaves in whole bundles together with the cursor |
| Client.Store.SyncFailed | web/src/lib/stores/notes.ts:119-125 | the failed batch goes back in front, the queue still consists of whole bundles, and the error is kept |
| Client.Store.Reconcile | web/src/lib/stores/notes.ts:128-152 | the three loops compute the specified merge, and the cursor only moves forward |
| Client.ReconcileNotes | web/src/lib/stores/notes.ts:132-135 | a delivered note replaces its own fields and keeps items and labels |
| Client.ReconcileItems | web/src/lib/stores/notes.ts:136-142 | a delivered item replaces or removes itself in a known note |
| Client.ReconcileLabels | web/src/lib/stores/notes.ts:143-149 | a delivered attachment adds or removes its label in a known note |

## Left out

- `created_at`, `updated_at`, and the bytes, MIME type and duration of audio notes: they decide nothing in synchronisation.
- Creating and renaming labels beyond the set of label ids, attaching and detaching a label in the client, and the on-the-spot insertion of an uploaded audio note: they would repeat the pattern of the modelled gestures.
- Client-side removal after "delete forever" and label deletion, and what other clients keep showing until they reload: rows vanish without a sequence number.
- HTTP, cookies, sessions, rate limits, JSON and multipart parsing, SQL text, migrations: values arrive decoded, a value that does not decode is one case, and an integer beyond 64 bits counts as one that does not decode.
- FTS5 tokenising and ranking: how a row matches a phrase is a parameter of the search, and its results are in index order.
- The order of items with equal position keys, and the order in which the client keeps items and labels of a note: the replica holds items as a map and labels as a set, and sorting is treated on (id, key) lists in `Ordering`.
- Which of two entries with equal position keys is shown first: `Ordering` allows every outcome of the sort, where the browser's keeps the order of the unsorted list.
- Responses and lists that arrive out of the order in which the server computed them, beyond one overtaken list and one overtaken response, and a list read interleaved with writes: the code guards against neither, so runs are assumed to be without them.
- A pull on connecting that is read before the hub registered the client: registration is assumed to come first.
- Time limits: timers fire at some point, a connection may break at any point, and a failed sync is retried only by a later trigger, as in the code.
- Stamps with wall times below -1 or counters from 10^10 on: excluded from the order theorems by their exact bounds. What JavaScript prints for a negative wall time is not modelled.
- Blanks and signs that Go's scanner accepts in front of a number, and trailing characters of a number field, when parsing a stamp that was not printed by this program.
- The client's copy of `keyBetween` is the same loop as the server's and is modelled once; characters outside the alphabet are excluded, as the code's own precondition says.
- The parts list of `sanitizeQuery` is built directly as the joined string.
- String order is by character code; the database's byte order and the browser's UTF-16 order agree with it on the ASCII strings that are compared (stamps and position keys).
- User interface: focus, colours, recording, derived stores other than the lists passed to drags and inserts.
- Database.Database.Search: does not state the order of its results, because the engine's ranking is not modelled.
- Database.SearchSeesNotes: does not decide a checklist of which some arrangements match and others do not, because the index row keeps the line order of its last rewrite; `SearchSeesChecklists` decides it for an engine that does not care about that order.
- The ids of new notes and items: taken to be fresh, as random ids are.
- The order of edits when syncs that carry edits overlap: requests may overtake each other then, and `Ledger.EditsStayInLine` assumes that they do not overlap.
