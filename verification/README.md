# Verified models of the terminal workbench core

A Dafny 4.11 model of the parts of the repository whose correctness is a matter of whole runs: protocols, codecs,
resumable scans, lists that are stored as numbers, and settings that must survive a crash. `dafny verify
dfyconfig.toml` checks all of it. Nothing was executed; every statement is a proof about the model.

Code that changes things step by step is modelled as classes, methods and loops, each proved against a
specification function; what the source promises is then proved about those functions, for every input, every run
or every reachable state.

## What is modelled

* **The terminal mirror** (`mirror_wire`, `mirror_sender`, `mirror_protocol`, `mirror_reconnect`, `bytes`). The server
  encodes screen snapshots as full or delta frames in a binary format; the browser parses them and patches its copy.
  The model has both ends: the encoder of the server, the parser and the assembler of the browser, and a network that
  may lose, repeat and reorder frames. The byte format round-trips exactly for the frames that fit its fields. Over
  runs of fewer than 2^32 frames the browser always holds exactly the snapshot encoded under the number it records.
  Sequence numbers are 32 bits and wrap; in-order delivery is characterised for all runs, including those that wrap,
  where the browser stays at frame 2^32 - 1 for good.
* **Private modes of the terminal** (`terminal_modes`, `terminal_replay`). An incremental scanner for `ESC [ ? ... h`
  and `l`, exact about chunking, and the printer of a prefix that brings any terminal to a recorded state.
* **Rows as text** (`terminal_rows`). A row of cells is printed with SGR sequences; a terminal that interprets them
  by section 8.3.117 of ECMA-48 shows the cells again.
* **Pi session discovery and history** (`pi_discovery`, `pi_complete`, `pi_batch`, `pi_history`, `text_order`).
  Directory walks in batches of files, resumed by a cursor that is compared as a string although the walk goes by
  components; and the branch of a history that the last entry belongs to.
* **Terminal tabs** (`tab_order`, `tab_restore`, `tab_invariants`, `tab_manager`). Order indexes stand for a list;
  add, move, close and restore are list operations.
* **Configuration** (`config_settings`, `config_store`, `config_runs`). Migration from a YAML file to a database with
  a marker, over any interleaving of starts, updates and crashes between the durable steps.
* **Quick inputs** (`recent_lists`, `quick_config`, `quick_input`, `quick_table`, `quick_store`). Most-recently-used
  lists stored as rows, with a write-through copy in memory.
* **Worktrees** (`worktree_sync`). The rows of a project are brought in line with what git reports.
* **Shared requests** (`single_flight`), **merged scans** (`session_dedupe`), **traffic counters**
  (`traffic_window`, `traffic_runs`), **settings of a connection** (`render_notify`).

`sequences`, `text` and `wrappers` hold what several of them share.

## Where the code does less than it seems to

Each of these is proved, with the exact condition and an input or a run at which it happens.

* A browser that reconnects forgets the last sequence number (`ui/src/stores/terminal.ts:1791`) but not the snapshot
  it held, so a delta of the new connection whose base number happens to match can be patched onto rows of the old one
  (`MirrorReconnect.StaleBaselineMixesConnections`). However the frames arrive, the browser keeps the old snapshot or
  is exact if and only if the frame numbered right after the old snapshot does not exist, is full, differs from it in
  size, alternate screen or mode flags, or leaves alone only rows on which the old snapshot agrees with its own
  (`MirrorReconnect.NeverMixesIff`).
* A mode sequence is lost or read differently when a chunk ends inside its first three bytes, and only then
  (`TerminalModes.ChunkingIsExact`; `TerminalModes.CutAfterEscLoses` is a family of such chunks).
* The style of a bold cell does not switch faint off, so it stays faint after a faint one; rows come out right
  exactly when this does not happen (`TerminalRows.RowRoundTrip`; it does in `TerminalRows.FaintThenBoldLeaks`).
* A scan in batches of 256 finds every session file if and only if, in walk order, the 256th, the 512th, and so on is
  less, as a string, than every file after it (`PiComplete.ScanCompleteIff`). Up to 256 files are always found
  (`PiComplete.SmallTreeIsComplete`); directory `a` with 256 session files beside `a-b` with one loses that one
  (`PiComplete.LosingTreeLosesAFile`). Trees without a directory whose sibling's name continues its own with a byte
  below `/`, both with session files, are exactly those that batches of no size can spoil
  (`PiDiscovery.ScanCompleteIffNoInversion`).
* Tabs are restored in the order of their records if and only if each record has no index, or one that exceeds 1000
  for each record before it, or exactly equals that while its tab comes after the last one by age or id
  (`TabRestore.RestoreKeepsOrderIff`); two records with the indexes 500 and 600 come back the other way round
  (`TabRestore.CloseIndexesSwap`). The call returns them in the order of the records either way. The indexes the
  manager saves always leave that room, on any clock (`TabInvariants.SavedTabsRestoreInOrder`).
* A file with call timeouts in an old form is rewritten when it is read, before any backup
  (`utils/app_config.go:527-535`). Once there is a complete backup, it holds the original file if and only if the file
  was not in that form or no start up to then could rewrite it (`ConfigRuns.OriginalIsBackedUpIff`). A single start in
  which nothing fails is enough to lose the original (`ConfigRuns.DatedFileIsNotKept`).
* A backup whose writing is interrupted stays incomplete for ever; it is complete if and only if the start that made
  it could finish writing it (`ConfigRuns.BackupIsCompleteIff`; it is partial in
  `ConfigRuns.InterruptedBackupIsPartial`). The settings themselves are not lost.
* If reading back fails after a recorded prompt was committed, the copy in memory is stale unless the prompt was
  already the newest one (`QuickStore.Store.RecordQuickInput`, `QuickTable.RecordChangesNothingIff`;
  `QuickTable.FirstRecordLeavesStale` is such a record). A reconciliation that fails after its deletion has been
  committed leaves the copy stale too, unless there was nothing to delete
  (`QuickStore.Store.ReconcileProjectQuickInput`).
* A sync stores the branch of a new worktree as git gave it but compares it trimmed, so with surrounding blanks the
  second sync changes it (`WorktreeSync.SecondSyncIsQuietIff`, `WorktreeSync.BlankBeforeBranchIsUpdated`); the third
  never does.
* The load whose result a call is given had returned before the call began if and only if, at that moment, the key was
  listed with a flight whose load had returned (`SingleFlight.AnswerPredatesTheCallIff`;
  `SingleFlight.AnswerMayPredateTheCall` is such a run).
* Clock readings are taken before the lock, so they may come out of order. There are at most 301 traffic buckets after
  each of any calls if and only if no call records into 301 buckets whose first is still in the window of its reading
  and whose last is of another second (`TrafficRuns.BoundHoldsIff`); with readings in order that cannot be, while
  readings that alternate between two seconds pass the bound at the 302nd record
  (`TrafficRuns.AlternatingPassesTheBound`). Totals are right in any order; recent bytes are those of the log if and
  only if every bucket dropped so far is before the window of the reading
  (`TrafficWindow.Traffic.TrafficStatsSnapshot`), which a reading that is not before the latest always finds, and an
  older one may not (`TrafficRuns.OlderReadingGetsLess`).
* Two summaries with equal times can each count as newer than the other, so that scan order decides
  (`SessionDedupe.EachNewerThanTheOther`, `SessionDedupe.ScanOrderDecides`).

## Model

| member | source | states |
|---|---|---|
| Bytes.RoundTrip | api/terminal_snapshot_frame.go:240-250 | a big-endian field of k bytes reads back the number written, for every number it can hold |
| Bytes.BigEndian | api/terminal_snapshot_frame.go:240-250 | the most significant byte of a field comes first |
| MirrorWire.FrameRoundTrip | api/terminal_snapshot_frame.go:224-296 | parsing the 27-byte header and the payload returns the frame, compressed or not, exactly if rows, columns, counts and lengths fit the fields of the format |
| MirrorWire.ParsedFrameFits | ui/src/stores/terminal.ts:374-515 | whatever bytes the browser accepts, the frame it reads fits the format |
| MirrorWire.ParseFullUndoesEnc | api/terminal_snapshot_frame.go:271-296 | the payload of a full frame reads back its rows in order and its cursor |
| MirrorWire.ParseDeltaUndoesEnc | api/terminal_snapshot_frame.go:271-296 | the payload of a delta frame reads back the changed rows with their indexes and the cursor |
| MirrorWire.ParseHeaderUndoesEnc | api/terminal_snapshot_frame.go:232-268 | every header field, the three flags, the kind and the payload are read back from their offsets |
| MirrorWire.HeaderBytes | api/terminal_snapshot_frame.go:240-263 | version 6, sizes, time, flags, numbers and kind, at these offsets of the 27 bytes |
| MirrorWire.CompressedIff | api/terminal_routes.go:911-932 | a payload is compressed exactly if that is asked for and makes it shorter, and the flag in the third bit says so |
| MirrorWire.FullPayloadBytes | api/terminal_snapshot_frame.go:285-293 | a full payload is each line and then the cursor, each behind its length in four bytes |
| MirrorWire.DeltaPayloadBytes | api/terminal_snapshot_frame.go:279-293 | a delta payload is the number of rows, index, length and content of each, and then the cursor |
| MirrorWire.WireLinkIsFaithful | ui/src/stores/terminal.ts:469-515 | sending over the wire format hands the browser exactly the frames that fit it |
| MirrorSender.EmittedFrame | api/terminal_snapshot_frame.go:69-117 | the frame that is sent carries the next sequence number, is a delta only on a baseline of the same size, and is never longer than the full frame |
| MirrorSender.SuppressedIff | api/terminal_snapshot_frame.go:76-82 | nothing is sent exactly if no frame is forced and the last snapshot differs in its capture time at most |
| MirrorSender.SentFrameIs | api/terminal_snapshot_frame.go:83-116 | a sent frame carries every field of the snapshot; it is a delta exactly if deltas are on, none is forced away, size, screen and modes are as before, and its bytes are fewer |
| MirrorSender.DiffIsExact | api/terminal_snapshot_frame.go:162-191 | the rows of a delta are those that differ, or all where the number of lines does, each once, in order, with the new content |
| MirrorSender.EncodePayload | api/terminal_snapshot_frame.go:271-296 | the buffer written field by field is the payload of the format |
| MirrorSender.EncodeHeader | api/terminal_snapshot_frame.go:232-263 | the header array filled in place is the 27-byte header of the format |
| MirrorSender.EncodeBytes | api/terminal_snapshot_frame.go:224-269 | the bytes of a frame, with the compressed payload only where it is shorter |
| MirrorSender.DiffRows | api/terminal_snapshot_frame.go:162-191 | the rows that differ from the baseline, in order; all rows where there is no baseline |
| MirrorSender.BaselineEquals | api/terminal_snapshot_frame.go:138-160 | true exactly if the snapshot equals the baseline, lines and all, but for its capture time |
| MirrorSender.SelectShorter | api/terminal_snapshot_frame.go:98-112 | the delta bytes are taken only where they are fewer than the full ones |
| MirrorSender.SenderState.EncodeFrame | api/terminal_snapshot_frame.go:69-117 | a snapshot is sent exactly if that is forced, or it is the first, or something but the capture time changed; then the emitted frame is encoded and the snapshot becomes the baseline under the next number, and otherwise nothing changes |
| MirrorSender.SenderState.SetIncrementalEnabled | api/terminal_snapshot_frame.go:58-67 | reports whether the switch changed |
| MirrorProtocol.PatchUndoesDiff | ui/src/stores/terminal.ts:536-547 | patching the old rows with the difference gives the new rows, for all rows of equal number |
| MirrorProtocol.NextKeepsWireInv | api/terminal_snapshot_frame.go:69-117 | every step of sender and network keeps the invariant that each frame on the wire, applied to the snapshot it names as its base, gives the snapshot of its own number |
| MirrorProtocol.ClientIsExact | ui/src/stores/terminal.ts:517-567 | with frames lost, repeated and reordered at will, over fewer than 2^32 frames, the browser holds exactly the snapshot encoded under the number it records |
| MirrorProtocol.ClientHoldsExactSnapshot | ui/src/stores/terminal.ts:1394-1410 | the same from any state in which it holds, for any faithful codec |
| MirrorProtocol.ClientNeverGoesBack | ui/src/stores/terminal.ts:1832-1843 | no bytes at all make the browser go back to an earlier frame or lose its snapshot |
| MirrorProtocol.ForcedFrameRecovers | ui/src/stores/terminal.ts:1399-1406 | whatever was lost before, the full frame that answers a snapshot request brings the browser up to date |
| MirrorProtocol.InOrderDelivery | api/terminal_snapshot_frame.go:83-90 | with frames delivered in order, none lost, each at any time after it was sent, the browser is at frame min(k, 2^32 - 1) after k of them: up to date with what has arrived until the number wraps, then stuck |
| MirrorProtocol.PromptIsInOrder | api/terminal_routes.go:432-451 | a run that delivers each frame before the next step is such a run, with all frames delivered |
| MirrorProtocol.BrowserShowsLastOffer | api/terminal_snapshot_frame.go:76-82 | after any offered snapshot, sent or suppressed, the browser shows that very snapshot, every line of it, but for the capture time |
| MirrorReconnect.NeverMixesIff | ui/src/stores/terminal.ts:1789-1800 | however a new connection's frames arrive, a browser with an old snapshot keeps it or holds exactly the one it has the number of, if and only if the frame numbered after the old snapshot is missing, full, of another size or mode, or leaves alone only rows on which both agree |
| MirrorReconnect.HeldLinesFit | ui/src/stores/terminal.ts:517-567 | whatever a browser holds has one line per row, on every connection |
| MirrorReconnect.ReconnectIsExact | ui/src/stores/terminal.ts:1789-1800 | any old snapshot is harmless once the new connection's first frame is the first the browser looks at |
| MirrorReconnect.StaleBaselineMixesConnections | ui/src/stores/terminal.ts:1789-1800 | a family of runs in which a delta of the new connection is patched onto rows of the old one |
| TerminalModes.PartialSuffix | service/terminal/session_terminal_modes.go:135-158 | the retained suffix is the one unfinished sequence at the end of the data, if there is one |
| TerminalModes.MatchLengthIff | service/terminal/session_terminal_modes.go:9 | what is recognised is ESC [ ?, digits and semicolons, and h to set or l to reset |
| TerminalModes.PendingIff | service/terminal/session_terminal_modes.go:135-158 | a suffix stays pending exactly if it is ESC [ ? followed by digits and semicolons only |
| TerminalModes.ParameterSets | service/terminal/session_terminal_modes.go:74-97 | each of the nine parameters sets its own flag and nothing else, and any other parameter nothing |
| TerminalModes.CommandApplies | service/terminal/session_terminal_modes.go:42-53 | the parameters of a sequence are what stands between its semicolons, applied from left to right |
| TerminalModes.SnapshotTells | service/terminal/session_terminal_modes.go:99-124 | which tracking and which alternate screen are reported for any flags: any-event over button events over X10, and 1049 over 1047 over 47 |
| TerminalModes.ChangesIff | service/terminal/session_terminal_modes.go:40-59 | a change is reported exactly if some parameter on the way led to other flags, even if a later one led back |
| TerminalModes.Session.Apply | service/terminal/session_terminal_modes.go:74-133 | a parameter sets its flag and reports whether it changed |
| TerminalModes.Session.UpdateTerminalModes | service/terminal/session_terminal_modes.go:23-59 | a chunk has the effect of all sequences in the pending suffix and the chunk, in order, leaves the new suffix pending, and reports a snapshot exactly if some parameter changed a flag; what that snapshot says is in SnapshotTells |
| TerminalModes.ChunkingIsExact | service/terminal/session_terminal_modes.go:67-72 | two chunks find the sequences of their concatenation, each once and in order, and leave the same suffix, exactly when the cut is not inside the introducer of one of them |
| TerminalModes.StraddlingCutsIntro | service/terminal/session_terminal_modes.go:135-158 | a cut that loses a sequence lies between the bytes of an ESC [ ? |
| TerminalModes.CutAfterEscLoses | service/terminal/session_terminal_modes.go:67-72 | any sequence is lost when the chunk ends after its ESC |
| TerminalModes.ChunkInvariance | service/terminal/session_terminal_modes.go:23-59 | any chunking with safe cuts gives the flags and the pending suffix of the whole stream, from any state |
| TerminalReplay.BuildTerminalModesReplayPrefix | service/terminal/session_terminal_modes.go:160-203 | the buffer is the printed list of resets followed by the settings of the snapshot |
| TerminalReplay.ScanUndoesRender | service/terminal/session_terminal_modes.go:23-59 | the scanner reads back any list of printed commands and leaves nothing pending |
| TerminalReplay.AbandonPending | service/terminal/session_terminal_modes.go:67-72 | an unfinished sequence is abandoned when a new one starts, and nothing else is |
| TerminalReplay.ReplayRestoresSnapshot | service/terminal/session_terminal_modes.go:99-203 | from any flags and any pending suffix, the prefix built from a snapshot leaves a state with that snapshot; without the alternate screen those flags are untouched and the rest still match |
| TerminalReplay.ReplayClears | service/terminal/session_terminal_modes.go:160-180 | without a snapshot the prefix switches every mode off, the alternate screens only where they are included |
| TerminalRows.JoinTerminalSGRCodes | service/terminal/session_terminal_state.go:421-434 | the codes joined by semicolons, 0 where there are none |
| TerminalRows.BuildSGR | service/terminal/session_terminal_state.go:363-419 | the sequence printed for a cell has its attribute and colour parameters in order |
| TerminalRows.LineEndColumn | service/terminal/session_terminal_state.go:305-313 | one past the last cell that keeps the line open |
| TerminalRows.MirrorLine | service/terminal/session_terminal_state.go:254-278 | the text of a row: each cell before the end that is not a wide dummy, its style printed where it differs from the one before |
| TerminalRows.ReadUndoesJoin | service/terminal/session_terminal_state.go:421-434 | a reader of decimal parameters gets back the printed numbers |
| TerminalRows.SelectSgr | service/terminal/session_terminal_state.go:363-419 | whatever the pen was, the printed style sets every attribute and both 24-bit colours, except that faint stays on under bold |
| TerminalRows.InterpretLine | service/terminal/session_terminal_state.go:254-278 | leaving out repeated styles does not change how any cell is drawn |
| TerminalRows.RowRoundTrip | service/terminal/session_terminal_state.go:254-278 | on any pen the row shows every printed cell as it looks exactly if no bold cell that is not faint meets a faint pen |
| TerminalRows.FaintThenBoldLeaks | service/terminal/session_terminal_state.go:363-419 | a bold cell that is not faint, after a faint one, is not shown as it looks |
| TerminalRows.PlainRowRoundTrip | service/terminal/session_terminal_state.go:363-419 | rows without faint cells always come out right on a pen that is not faint |
| TerminalRows.PlainRowShows | service/terminal/session_terminal_state.go:254-278 | what each shown cell of such a row holds: the character itself, a blank for NUL, its attributes and its colours |
| TerminalRows.NonDummyConcat | service/terminal/session_terminal_state.go:258-262 | the printed cells are those that are not wide dummies, in their order |
| TerminalRows.OneSequenceForOneStyle | service/terminal/session_terminal_state.go:263-267 | neighbouring cells of one style share one sequence |
| TerminalRows.StyleNumbers | service/terminal/session_terminal_state.go:363-419 | the parameters of a cell without attributes and of one with all of them, in order |
| TerminalRows.TrimmedCellsAreBlank | service/terminal/session_terminal_state.go:315-331 | every cell trimmed from the end is a wide dummy or a plain blank |
| TerminalRows.TrimmedIff | service/terminal/session_terminal_state.go:305-333 | a cell is left out at the end exactly if it and all after it are dummies or blanks without attributes in default colours |
| PiDiscovery.ResumedWalkIsFilter | service/ai_session_pi.go:448-470 | a walk resumed after a session file visits exactly the files a full walk reaches later and whose path is greater; skipped directories hold none |
| PiDiscovery.FilesDistinct | service/ai_session_pi.go:435-491 | a full walk reaches no path twice |
| PiDiscovery.FilesAreInTree | service/ai_session_pi.go:452-477 | a full walk reaches exactly the files of the tree with the extension .jsonl, in upper or lower case |
| TextOrder.LessIff | service/ai_session_pi.go:457 | a string is less than another exactly if it is a proper prefix or smaller where they first differ |
| PiDiscovery.VisitResumed | service/ai_session_pi.go:448-470 | resuming at a visited path gives the later visited paths that are greater |
| PiDiscovery.BatchesCompleteIffSorted | service/ai_session_pi.go:277-308 | batches of every size visit all files exactly when the walk order is the string order, a condition that does not depend on the size |
| PiComplete.ScanListCompleteIff | service/ai_session_pi.go:277-308 | batches of one given size visit every file if and only if each full batch ends with a file less than all later ones |
| PiComplete.ScanCompleteIff | service/ai_session_pi.go:25-25 | the scan of a tree in its batches of 256 finds every session file if and only if the file number 256 k is less than all after it, for every k |
| PiComplete.SmallTreeIsComplete | service/ai_session_pi.go:25-25 | at most 256 session files are always found |
| PiComplete.LosingTreeLosesAFile | service/ai_session_pi.go:448-470 | a tree of 257 session files whose last one the scan never sees |
| PiDiscovery.SortedIffNoInversion | service/ai_session_pi.go:448-470 | walk order is string order exactly when no sibling inverts another |
| PiDiscovery.DescentLosesFile | service/ai_session_pi.go:448-470 | a batch that ends just before a smaller path loses that file |
| PiDiscovery.ScanVisitsOnce | service/ai_session_pi.go:277-308 | from any stored cursor the batches visit no file twice and only files beyond the cursor |
| PiDiscovery.ScanCompleteIffNoInversion | service/ai_session_pi.go:277-308 | batches of every size find every session file exactly when no directory with session files has a sibling with session files whose name continues its own below the slash; so at the size in use this suffices |
| PiBatch.BatchWalk.Entry | service/ai_session_pi.go:448-485 | the walk callback: skips a directory, collects a session file beyond the cursor, or stops the walk with a full batch |
| PiBatch.BatchWalk.Walk | service/ai_session_pi.go:435-491 | the walk collects the files of the specification until the batch is full |
| PiBatch.ListBatch | service/ai_session_pi.go:435-491 | one batch: the first files visited from the cursor, the candidates of the project among them, the last one as the next cursor |
| PiBatch.SelectIff | service/ai_session_pi.go:466-472 | the candidates are exactly the visited files that belong to the project |
| PiBatch.SelectAll | service/ai_session_pi.go:466-472 | they keep their order and number |
| PiBatch.BatchThenRest | service/ai_session_pi.go:277-308 | a full batch and the scan from its cursor are the scan from where the batch started, and less is left |
| PiBatch.ScanState.Resume | service/ai_session_pi.go:277-308 | stopped and resumed at any batch, what was found and what the stored cursor will find are one uninterrupted scan; the cursor grows and with enough batches the scan ends |
| PiHistory.ActivePath | service/ai_session_pi.go:577-602 | the path ends at the last entry, has distinct ids, each entry the parent of the next, and starts where there is no parent, a missing one, or one on the path already |
| PiHistory.Walk | service/ai_session_pi.go:587-598 | the walk from the leaf ends, cycles included, and stops only there |
| PiHistory.ParentIs | service/ai_session_pi.go:593-596 | the parent of an entry is the last one with the id it names, and there is none if it names nobody |
| PiHistory.PathFollowsParents | service/ai_session_pi.go:577-602 | along the path each entry names the one before it, and the first one names nobody or an id on the path |
| PiHistory.IndexById | service/ai_session_pi.go:504-526 | the last entry with an id is the one found by it |
| PiHistory.ReverseInPlace | service/ai_session_pi.go:599-601 | the path is reversed in place |
| PiHistory.ActivePathIsUnique | service/ai_session_pi.go:577-602 | these requirements leave no other path |
| TabOrder.OrderSpec | service/terminal/manager.go:396-420 | the order of a project: its tabs, sorted by index, then age, then id |
| TabOrder.BeforeIs | service/terminal/manager.go:404-419 | set indexes decide and come after unset ones; equal or unset ones leave it to age, then to the id |
| TabOrder.RenumberedOrder | service/terminal/manager.go:433-441 | writing 1000, 2000, ... along a list of the tabs makes that list their order |
| TabOrder.RenumberedElsewhere | service/terminal/manager.go:433-441 | renumbering a project leaves the order of every other one alone |
| TabOrder.MoveMeaning | service/terminal/manager.go:443-524 | a move keeps the tabs and the order of the others and puts the tab immediately before next, else after prev, else first |
| TabOrder.MoveRefusedIff | service/terminal/manager.go:443-490 | a move is refused exactly if it names the tab itself, a tab that is not there, or two in the wrong order |
| TabRestore.StoredOrder | service/terminal/manager.go:363-383 | a stored tab is inserted by the sort order among the tabs of its project |
| TabRestore.RestoreKeepsOrderIff | service/terminal/restore_state.go:182-207 | on any clock, restoring record by record with a renumbering after each keeps the records' order if and only if each record keeps its place |
| TabRestore.CloseIndexesSwap | service/terminal/restore_state.go:182-207 | records with the indexes 500 and 600 are restored in the other order |
| TabRestore.IncreasingRecordsRestoreInOrder | service/terminal/restore_state.go:182-207 | records with strictly increasing positive multiples of 1000 come back in their order as 1000, 2000, ..., on any clock |
| TabRestore.IndexesLeaveRoom | service/terminal/manager.go:433-441 | strictly increasing positive multiples of 1000 leave at least 1000 for each one before and for itself |
| TabManager.Manager.OrderedProjectSessions | service/terminal/manager.go:396-420 | collects and sorts the tabs of a project |
| TabManager.Manager.CountByProject | service/terminal/manager.go:385-394 | the number of tabs of a project |
| TabManager.Manager.NextSessionOrderIndex | service/terminal/manager.go:422-431 | 1000 more than the greatest index, at least 1000 |
| TabManager.Manager.NormalizeProjectOrder | service/terminal/manager.go:433-441 | renumbers a project in its order; a blank one is left alone |
| TabManager.Manager.MoveSessionLocked | service/terminal/manager.go:492-524 | the tabs are renumbered in the moved order, or nothing changes |
| TabManager.Manager.MoveSession | service/terminal/manager.go:225-254 | a refused move changes nothing, an accepted one gives the moved list, and other projects keep their order and every invariant holds |
| TabManager.Manager.AddSession | service/terminal/manager.go:363-383 | a tab is added at its index, last, or behind another one, unless the project is full |
| TabInvariants.PlacedIs | service/terminal/manager.go:375-380 | a tab added behind another one of its project ends up right after it, the others keep their order, and nothing else moves it |
| TabManager.Manager.CreateSession | service/terminal/manager.go:94-186 | adds a tab and, if its process does not start, drops it again: two steps, each of which keeps the invariant by itself |
| TabManager.Manager.DropSession | service/terminal/manager.go:157-180 | the clean-up step, in any state other calls have led to: the tab is gone, the order and indexes of the others stay |
| TabManager.Manager.CloseSession | service/terminal/manager.go:343-361 | a closed tab is removed and the rest of its project is 1000, 2000, ... in the old order |
| TabManager.Manager.RestoreProjectSessions | service/terminal/restore_state.go:165-213 | into a project without live tabs all records are restored, and returned in record order as they are in the end, or after a failure none are left; live tabs are returned in their own order |
| TabInvariants.SavedTabsRestoreInOrder | service/terminal/restore_state.go:136-213 | tabs saved in any reachable state, gaps or not, are restored in the same order, on any clock |
| RecentLists.NormalizeItems | utils/app_config.go:873-897 | trimmed, without blanks and repetitions, the first ones up to the limit |
| RecentLists.NormalIffFixed | utils/app_config.go:873-897 | the normaliser leaves exactly the normal lists alone, so twice is once |
| RecentLists.NormalisedIs | utils/app_config.go:873-897 | a normalised list holds the items that are not blank once trimmed, cut at the limit |
| RecentLists.NormalisedNext | utils/app_config.go:873-897 | in the order of their first occurrence |
| RecentLists.TouchFixes | utils/config_database.go:835-854 | a touch changes a list unless its prompt is the first already |
| RecentLists.TouchesKeepMostRecent | utils/config_database.go:835-854 | after any number of touches, each cutting the list to thirty, it is the first thirty distinct prompts of the whole history read backwards |
| QuickInput.SelectedDelete | utils/config_database.go:835-854 | deleting rows by a condition deletes them from every list and keeps the order of the rest |
| QuickInput.DeleteStale | utils/config_database.go:844-852 | deleting the ids beyond the limit cuts one list and touches no other |
| QuickConfig.NormalizeConfig | utils/app_config.go:562-581 | lists are normalised, project ids trimmed, and of ids that trim alike one wins |
| QuickConfig.NormalConfigIffFixed | utils/app_config.go:562-581 | exactly the normal configurations are left alone |
| QuickStore.Store.RefreshCache | utils/config_database.go:716-739 | the copy in memory says what the table says |
| QuickStore.Store.TouchRecent | utils/config_database.go:835-854 | one list becomes the first thirty of the prompt followed by the list without it, the others stay |
| QuickStore.Store.ReplaceHistory | utils/config_database.go:681-714 | the table holds the normalised lists and no others |
| QuickStore.Store.QuickInputView | utils/config_database.go:741-782 | a view shows the whole lists of the table |
| QuickStore.ViewShows | utils/config_database.go:754-782 | a view has the pinned items, the whole global list, and the whole list of the project it names |
| QuickStore.Store.RecordQuickInput | utils/config_database.go:784-833 | both lists are touched in one commit and the copy follows; after a failed call it is coherent exactly if no list changed |
| QuickTable.RecordChangesNothingIff | utils/config_database.go:784-813 | a record changes nothing exactly if the prompt is the newest in its lists already |
| QuickTable.RecordedIs | utils/config_database.go:784-813 | a record puts its prompt first in the global list and in that of its project, cuts both at thirty, and touches no other project |
| QuickTable.UsedInNext | utils/config_database.go:784-813 | every record is used in the global list, and in the list of its own project |
| QuickTable.FirstRecordLeavesStale | utils/config_database.go:784-833 | the first record into an empty table leaves a copy that is not brought up to date without it |
| QuickTable.ListsAreRecentHistory | utils/config_database.go:784-813 | after any sequence of records, for whatever projects, each list is the most recent part of its history |
| QuickStore.Store.UpdateQuickInputPinned | utils/config_database.go:856-866 | row and copy both become the normalised items, or neither changes |
| QuickStore.Store.ReplaceQuickInput | utils/config_database.go:868-896 | table and copy hold the normalised configuration, or nothing changes |
| QuickStore.Store.DeleteProjectQuickInput | utils/config_database.go:898-919 | one project's list is gone from table and copy, the others stay |
| QuickStore.Store.ReconcileProjectQuickInput | utils/config_database.go:921-945 | only lists of the given projects remain, and the copy is coherent afterwards even where it was not before; when reading fails after the deletion it is coherent exactly if no other project had a list |
| ConfigSettings.CommittedLoadsAsItIs | utils/config_database.go:467-579 | settings normalised for a commit load exactly as they were committed |
| ConfigSettings.NormalTitleIsFixed | utils/app_config.go:546-560 | an accepted page title is accepted again unchanged |
| ConfigSettings.TitleAccepted | utils/app_config.go:546-560 | a title is accepted exactly if it has no control character and at most 64 characters, and is stored trimmed, or as the default if blank |
| ConfigSettings.CommittedIs | utils/config_database.go:560-579 | a commit keeps everything that was asked for, but for trimmed title and paths and normalised pinned items; blank secrets are replaced |
| ConfigSettings.MigratedIs | utils/config_database.go:253-277 | a migration takes over everything in the file in the same way, with the default title for one that would be refused |
| ConfigSettings.LoadedIff | utils/config_database.go:467-557 | stored settings are refused exactly if a secret is blank or the title is no good |
| ConfigSettings.GoodSettingsStay | utils/config_database.go:560-579 | settings that need no normalising are committed, loaded and read as they are |
| ConfigStore.Program.BackupLegacyOnce | utils/config_database.go:639-679 | the legacy file is copied once; a failed copy is taken back, an interrupted one stays partial |
| ConfigStore.Program.ReadConfig | utils/app_config.go:384-543 | the settings of the file, or of defaults that are written where there is none; a file in an old form is rewritten, marked ones without settings, and the start goes on if that fails |
| ConfigStore.RewrittenIs | utils/app_config.go:527-543 | a file in the old form keeps its settings when it is rewritten unless it is marked, which version 1 does |
| ConfigStore.Program.InitializeWritable | utils/config_database.go:218-284 | an initialised database is loaded unchanged, an empty one is filled in one commit, a marked file without a database is refused |
| ConfigStore.Program.InitializeReadOnly | utils/config_database.go:286-303 | read-only use needs an initialised database at schema 1 |
| ConfigStore.Program.Activate | utils/config_database.go:356-373 | the file is marked and stripped of settings only once, with a backup beside it |
| ConfigStore.Program.Start | utils/config_database.go:118-164 | from any disk and with any faults: safety is kept, an initialised database stays, until there is one a start reads the same, and the file is given up only for one and with a backup; a success has the stored settings in memory; without faults a start from a safe disk succeeds, and read-only where only the writable open fails |
| ConfigStore.Program.UpdateConfig | utils/app_config.go:902-924 | memory changes only together with a commit, and to what was asked for; an update fails only for a title that is no good, a read-only store or a failed commit |
| ConfigRuns.EveryStateIsSafe | utils/config_database.go:118-164 | in every state of every run with crashes a marked file implies an initialised database at schema 1 holding the last commit |
| ConfigRuns.InitializedForGood | utils/config_database.go:218-284 | an initialised database stays initialised and only updates change it |
| ConfigRuns.StartLoadsLastUpdate | utils/config_database.go:467-557 | whatever crashed in between, a successful start has what the last committed update stored |
| ConfigRuns.StartLoadsLegacy | utils/config_database.go:253-277 | until an update commits, a successful start has the settings of the YAML file, field by field, however many starts were interrupted |
| ConfigRuns.MemoryFollowsCommits | utils/app_config.go:902-924 | settings in memory change only in a start or a committed update |
| ConfigRuns.BackupIsFinal | utils/config_database.go:639-679 | no later step replaces a backup, complete or partial |
| ConfigRuns.BackupIsCompleteIff | utils/config_database.go:639-679 | in every run the backup is complete for good exactly if the start that made it could finish writing it, partial exactly if it was interrupted |
| ConfigRuns.InterruptedBackupIsPartial | utils/config_database.go:639-679 | a run of one start that leaves a partial backup |
| ConfigRuns.OriginalIsBackedUpIff | utils/app_config.go:527-535 | a complete backup holds the file the run began with if and only if that file was not in the old form or no start up to then could rewrite it |
| ConfigRuns.DatedFileIsNotKept | utils/app_config.go:527-535 | a run of one start without faults after which neither the file nor the backup is the original; no such start from a file in the old form backs up the original |
| ConfigSettings.FromYamlTwice | utils/app_config.go:512-526 | reading settings that have been read changes nothing more |
| WorktreeSync.Worktrees.SyncWorktrees | service/worktree_service.go:513-650 | the computed changes are exactly the needed ones; applied, they give the synchronised rows, and a failed transaction changes nothing |
| WorktreeSync.Worktrees.IndexGit | service/worktree_service.go:547-550 | the last worktree reported for a path counts |
| WorktreeSync.Worktrees.DiffGit | service/worktree_service.go:561-614 | updates for the rows that differ, one new row for every path without one |
| WorktreeSync.Worktrees.DiffGone | service/worktree_service.go:616-625 | deletions for the rows whose path git no longer reports |
| WorktreeSync.Worktrees.Apply | service/worktree_service.go:630-649 | updates, creations and deletions in turn give the synchronised rows |
| WorktreeSync.LiveRowsMatchGit | service/worktree_service.go:513-650 | after a sync the live rows are those of git, path for path; a row that stays keeps its id and path, and its branch where git knows none |
| WorktreeSync.OldRowsBecome | service/worktree_service.go:561-625 | what becomes of every row that was there, column by column: other projects stay, lost paths are deleted, a blank branch keeps the old one |
| WorktreeSync.NewRowsAre | service/worktree_service.go:595-612 | a new row has the cleaned path, branch, head and flags of a worktree without a live row |
| WorktreeSync.LastReportedCounts | service/worktree_service.go:547-550 | of the worktrees reported for a path the last one counts |
| WorktreeSync.SecondSyncIsQuietIff | service/worktree_service.go:561-614 | a second sync finds nothing exactly if no new worktree had a branch name with surrounding blanks |
| WorktreeSync.BlankBeforeBranchIsUpdated | service/worktree_service.go:561-614 | a new worktree on the branch " x" is changed by the second sync |
| WorktreeSync.ThirdSyncIsQuiet | service/worktree_service.go:561-614 | a third sync never finds anything |
| SingleFlight.Group.Begin | service/ai_session_request_group.go:26-47 | a caller joins the listed flight or lists and starts a new one |
| SingleFlight.Group.Finish | service/ai_session_request_group.go:39-46 | the flight is unlisted if it is the listed one, and closed |
| SingleFlight.Group.Wake | service/ai_session_request_group.go:50-57 | a waiting caller is given the result of its own flight |
| SingleFlight.OneOpenLoadPerKey | service/ai_session_request_group.go:26-47 | in every interleaving at most one load per key is open |
| SingleFlight.AnswersAreOwnAndFresh | service/worktree_service.go:474-511 | an answer is that of a load for the caller's key whose flight closed after the call began |
| SingleFlight.AnswerPredatesTheCallIff | service/ai_session_request_group.go:26-47 | in every run, the load that answers a call had returned before the call began if and only if the key was then listed with a flight whose load had returned |
| SingleFlight.AnswerMayPredateTheCall | service/ai_session_request_group.go:39-46 | a run in which it had |
| SingleFlight.CancelConcernsNobodyElse | service/ai_session_request_group.go:38-57 | with or without a cancellation, every load, flight and other caller goes the same way |
| SingleFlight.WaiterIsAnswered | service/ai_session_request_group.go:50-57 | a caller that is not cancelled can always be answered, with its own load's result |
| SessionDedupe.DedupeBySessionID | service/ai_session_service.go:845-884 | one entry per id, the winner of all that have it, in the order the ids first occur |
| SessionDedupe.SortKeepsWinners | service/ai_session_pi.go:671-686 | sorting, stable or not, leaves the entries alone |
| SessionDedupe.ScanState.UpdateScanProgress | service/ai_session_pi.go:350-371 | a batch is merged: winners over what was there and the batch, sorted by recency |
| SessionDedupe.BatchesDontMatter | service/ai_session_pi.go:350-371 | however sessions are split into batches, each id ends with the entry that one removal of duplicates would leave |
| SessionDedupe.SameEntries | service/ai_session_service.go:845-884 | two results for the same sessions have the same entries |
| SessionDedupe.WinnerIsLatest | service/ai_session_service.go:886-923 | no session with that id has a later last message, or the same one and a later start |
| SessionDedupe.AheadWins | service/ai_session_service.go:886-923 | a session ahead of all others with its id, by last message, start, or counts of which none is behind, is the entry wherever it is scanned |
| SessionDedupe.SortedByRecency | service/ai_session_pi.go:671-686 | the list goes from recent to old, sessions without a message last, ties by start |
| SessionDedupe.KeysAre | service/ai_session_service.go:853-875 | there is an entry for each id that is not blank, and only one |
| SessionDedupe.KeysGrow | service/ai_session_service.go:853-875 | entries come in the order in which their ids first occur |
| SessionDedupe.EntriesGoBy | service/ai_session_service.go:858-864 | a session goes by its session id, else by its own, and without either it has no entry |
| SessionDedupe.EachNewerThanTheOther | service/ai_session_service.go:915-920 | exactly when two summaries each replace the other, and that scan order then decides |
| SessionDedupe.ScanOrderDecides | service/ai_session_service.go:915-920 | two sessions of one id with message counts 2, 1 and 1, 2: the one scanned last is the entry |
| TrafficWindow.Traffic.RecordTraffic | service/terminal/session_traffic.go:28-66 | whatever the reading, the log grows by the record, totals agree with it, and buckets and dropped buckets together agree with it at every cutoff; from at most 301 buckets there are more exactly if there were 301, the record is of another second than the last and the first is still in its window |
| TrafficWindow.Traffic.TrafficStatsSnapshot | service/terminal/session_traffic.go:68-125 | totals are the sums over the whole log; recent bytes are those of the log not before five minutes ago exactly if every bucket dropped before is before that, as it is for a reading that is not before the latest; otherwise they lack the dropped ones, and are never less than the log has of the latest window |
| TrafficWindow.DropStaleBuckets | service/terminal/session_traffic.go:127-144 | exactly the buckets at the front that are before the window are dropped |
| TrafficWindow.GrownKeepsWhole | service/terminal/session_traffic.go:46-62 | adding to the last bucket or a new one adds to the buckets what the record adds to the log, for every cutoff and any reading |
| TrafficWindow.InWindowIff | service/terminal/session_traffic.go:68-125 | a record counts as recent exactly if its second began no more than 300 seconds before the reading |
| TrafficWindow.TotalCounts | service/terminal/session_traffic.go:28-45 | totals count every record with its positive bytes |
| TrafficWindow.PrunedKeepsWhole | service/terminal/session_traffic.go:127-144 | for every cutoff what is dropped and what is left say what the buckets said, and everything dropped so far is before the window of the latest reading |
| TrafficWindow.PrunedIsWindow | service/terminal/session_traffic.go:127-144 | with readings in order the buckets left are all inside the window |
| TrafficWindow.WindowIsSmall | service/terminal/session_traffic.go:127-144 | five minutes of whole seconds are at most 301 buckets |
| TrafficRuns.BoundHoldsIff | service/terminal/session_traffic.go:28-66 | over any calls with readings in any order, there are never more than 301 buckets if and only if no call meets the condition under which a record passes the bound |
| TrafficRuns.AlternatingPassesTheBound | service/terminal/session_traffic.go:46-62 | n records whose readings alternate between two seconds leave n buckets after the pruning of each, for every n |
| TrafficRuns.OlderReadingGetsLess | service/terminal/session_traffic.go:68-125 | runs after which a view with an older reading lacks bytes that the log has of its window |
| RenderNotify.RenderState.Update | api/terminal_render_mode.go:61-101 | the normalised settings are stored and a change is reported |
| RenderNotify.IntervalIs | api/terminal_render_mode.go:112-124 | intervals are kept between 33 and 10000 milliseconds, and one that is not positive becomes 50 |
| RenderNotify.StoredIsAskedFor | api/terminal_render_mode.go:61-101 | an update leaves the mode, interval and compression that were asked for, and wakes the loop exactly if they are new |
| RenderNotify.RenderState.ResetTicker | api/terminal_routes.go:652-661 | a ticker of the stored interval exactly if snapshots are wanted |
| RenderNotify.NoLostWakeUp | api/terminal_render_mode.go:93-98 | in no interleaving does the loop sleep on old settings with nothing left to wake it |
| RenderNotify.LastSettingsWin | api/terminal_routes.go:636-676 | once updates stop, only so many steps are left, in whatever order they are taken, and when nothing more can happen the loop sleeps on the settings stored last |
| RenderNotify.StoppedIff | api/terminal_routes.go:636-676 | in every safe state nothing but an update can happen exactly if the loop sleeps on the current settings with no update or wake-up under way |
| RenderNotify.ReadsAreFew | api/terminal_render_mode.go:93-98 | the loop reads the settings at most once per change, and once at the start |

## Left out

- HTTP and websocket plumbing, JSON, SQL text, git, processes and the terminal emulator: their results are parameters,
  and a transaction is one atomic step.
- zlib is any compression with an inverse; a compressed payload is used only where it is shorter, as in the source.
- Text is sequences of characters and rows of the mirror are byte strings: UTF-8 is not modelled.
- TabManager.Manager: sessions are values in a map, order indexes are reals without rounding, NaN or infinity;
  aliasing of sessions and the locking are not captured.
- TabManager.Manager.RestoreProjectSessions: the closes of a failed restoration, which the source lets finish in the
  background, are taken to have finished when the call returns; the ids of the records are not live elsewhere.
- TabManager.Manager.CreateSession: takes its two steps in direct succession; what other calls do in between follows
  from their own contracts.
- TerminalRows.RowRoundTrip: colours of the emulator's palette are taken as the 24-bit values the source prints; cells
  hold no ESC.
- PiBatch.ScanState.Resume: a batch that fails or is cancelled stops between batches, so the files of a batch that are
  still pending, and the merging of what was parsed, are not part of it (the merging is in SessionDedupe); files that
  appear or vanish during a scan are not modelled.
- PiHistory.ActivePath: lines that do not parse and blank ids are skipped before the model begins.
- QuickStore.Store.RecordQuickInput: calls are sequential, as between a commit and the copying into memory another
  call is not modelled; the order in which projects are inserted only fixes row ids.
- ConfigStore.Program.Start: settings that pass through the store unread (shells, access rules, client settings, with
  their own normalisers) are one opaque value; metadata that cannot be parsed counts as a failing check; a commit
  whose outcome is unknown to the caller is not modelled.
- WorktreeSync.Worktrees.SyncWorktrees: live rows of a project have distinct paths, which a sync keeps; timestamps and
  status columns carry no meaning here.
- SingleFlight.Group.Wake: results are values, so the deep copy handed to each caller shows only as the absence of
  sharing; the five-second limit of a worktree sync is one of the ways its load may return.
- SessionDedupe.BatchesDontMatter: lists hold no nil entries; batches are merged for sessions with ids, as an entry
  without any is kept when it is alone and dropped when it is not.
- TrafficWindow.Traffic.TrafficStatsSnapshot: counters do not overflow 64 bits; the averages, which are floating-point
  quotients of the sums, are not modelled.
- RenderNotify.RenderState.ResetTicker: the ticker itself and the sending of snapshots.
- Clamps, single-branch normalisers, conversation windows, the Claude and Codex scanners and access rules would only
  add easy members.
