# Verification of the docengine editor kernel

docengine edits large UTF-8 files. A document is a base file plus a journal of edits; the editor works on a treap of
pieces of both, and around it keep a save protocol, undo and redo, coordinate indexes, event streams and page tables up
to date. This project models that kernel in Dafny and proves that all these structures agree with one simple thing, the
byte string of the document, over whole runs and across crashes.

Each core file has a module (or a few) of its own. What the source computes is a function, what it updates in place is
a class or a method with the source's loops, and what it promises is stated about them in lemmas:

- `Documents`, `Utf8`, `BaseScan`: sequential edits, their inverses, validity at edit boundaries, the chunked opening scan.
- `PieceTree`, `TreeStore`: the persistent treap, its snapshots and its compaction, refining splices of a plain sequence.
- `ChangeMaps`, `Coordinates`, `CoordinateIndex`, `IndexQueries`, `WindowCache`: change maps, and the sparse index whose
  incremental rebuild equals a full scan.
- `Journal`, `JournalFiles`: bytes of the journal, replay of cut, torn and repaired files, the file and its loops.
- `SessionLog`, `SessionProtocol`, `SessionRecovery`, `SessionInvariant`, `SessionSteps`, `SaveSteps`, `SessionSafety`,
  `SessionLimits`, `SessionFailures`, `SessionEdits`, `SessionRollbacks`: the persistence protocol as a step system over real
  journal bytes and an explicit disk. An append is written in any number of parts, a save streams while edits land, and
  the process may end after every step. The main theorems are `RunCoherent` and `RunSurvivesCrash`.
- `Sessions`, `SessionRebase`, `UndoHistory`, `AtomicSave`: the methods of the session with their loops, and the history of
  transactions. `SessionRefinement` proves that edits, the switch to a new base and replay in the class are steps of the
  protocol.
- `EventStreams`, `Events`, `Rings`, `ChangeHistories`, `Lifecycle`: event streams as a step machine and as the hub that
  runs them, retained change maps, source generations, the save token.
- `VirtualBuild`, `VirtualPublication`, `VirtualWindow`: logical pages, published pages and budgeted windows.

Content hash, CRC-32C and the path hash are parameters of which nothing is known. A poll of a context, an I/O error, a
short read or write and the scheduling of a consumer are arbitrary choices. Treap priorities are arbitrary numbers.

## What the code does less of than its documentation says

The model follows the code. In these places a promise holds only under a condition, which is stated and proved exact:

- Reopening after a crash is promised for every save (MODULES.md:505-513). It needs the fingerprint of the new base to
  differ from those of all journals on disk (`BoundaryExact`, `ReopensUnlessAmbiguous`). Saving the bytes that are already
  there, and crashing before the replacement, leaves two matching journals: `SaveOfNothing` is such a run, for every file.
- A file without a byte order mark that is saved with a text beginning with the bytes of one has a mark from then on: a
  crash after the replacement gives another document, or the newer edits no longer fit and the file does not open. Exactly
  then (`ReplacedExact`, `SavedDocumentExact`, `SavedTextExact`). `SaveOfMark` is such a run, for every file without a mark.
- A clean close removes the session's journal, but journals of earlier bases that leases keep stay behind; the next
  opening then finds no match and fails once (`CleanCloseExact`). `CloseUnderLease` is such a run, for every file.
- When the rollback of a failed append fails too, the session goes on behind what is left in its journal, and a later edit
  survives a crash if and only if nothing is (`LaterEditExact`, `EditReplayed`, `AppendVisible`). `LostEdit` is such a run,
  for every file. If the whole batch is left, the file does not open after the next edit.
- `Dropped` is documented as the exact number of events between an event and the one before (MODULES.md:363). For a
  subscription that holds in every run if and only if its buffer has room for one event, or the sequence numbers run out
  before it is full (`BufferOfOne`, `ReportsExact`). With a larger buffer the consumer can receive an event in the middle
  of a drain that has discarded older ones (`OvertakenReport`); the sum of the reports is right whenever it has caught up
  (`StreamPromise`).
- Recovery rebuilds the undo stack, but unlike an edit it does not compare epochs when the undo quota empties the history
  in the middle of a batch. The entry of that batch then refers to texts that are gone, and redo can insert other bytes
  (`TornRedo`). Its texts read back if and only if they all fit behind those of earlier batches, or the first is too long
  for that and they all fit alone (`TextsReadBack`); only the oldest entry of the rebuilt stack can be torn (`Replay`).
- Inside the engine only: the change history accepts a map that does not move forward in revisions, which no session
  appends. While the oldest retained map is such a map, the query between its two ends has no right answer
  (`BackwardMap`); otherwise all queries have one (`Between`).

## Model

| member | source | states |
|---|---|---|
| Documents.ApplyConcat | document/session.go:982-1027 | a list of sequential edits is accepted and applied exactly as its two halves in turn |
| Documents.InverseUndoes | document/session.go:914-935 | the reversed list of inverse operations is applicable to the edited document and restores the old one |
| Utf8.SelfSynchronizing | document/session.go:1693-1712 | one byte decides whether an offset of a valid text is a rune boundary, and both halves are then valid (section 3 of RFC 3629) |
| Utf8.BoundaryTestExact | document/session.go:1693-1712 | the boundary check accepts a range exactly when the three parts it cuts the text into are all valid |
| Utf8.SpliceKeepsValid | document/session.go:987-1024 | an accepted replacement by valid text leaves valid text, and what it removes is valid text |
| Utf8.AcceptedKeepsValid | document/session.go:982-1027 | a batch that staging accepts takes a valid document to a valid document |
| Utf8.InverseAccepted | document/session.go:914-935 | the inverse of an accepted batch passes the staging checks at every intermediate state |
| BaseScan.Utf8StreamValidator.Write | document/session.go:1732-1747 | refuses exactly when no later input could make the text valid; otherwise keeps at most one unfinished rune |
| BaseScan.Utf8StreamValidator.Complete | document/session.go:1749-1749 | nothing is left over exactly when everything fed so far is valid UTF-8 |
| BaseScan.ScanOpenedBase | document/session.go:1757-1863 | for every chunk size: accepts exactly valid text after an optional byte order mark, with size, mark, newline count and style of the whole file |
| BaseScan.DetectEOLMeans | document/session.go:1945-1955 | mixed exactly with both a CR LF pair and an LF that is not behind a CR, CR LF exactly with pairs alone, LF otherwise |
| PieceTree.CachedSums | document/store/tree.go:453-462 | byte, piece and (when known) newline sums cached in a well-formed treap are those of the pieces below |
| PieceTree.MergeWellFormed | document/store/tree.go:423-434 | merging heap-ordered treaps gives a heap-ordered treap with exact sums |
| PieceTree.MergePieces | document/store/tree.go:423-434 | merging concatenates the pieces |
| PieceTree.SplitWellFormed | document/store/tree.go:383-421 | splitting keeps heap order and exact sums on both sides |
| PieceTree.SplitRefs | document/store/tree.go:383-421 | splitting at an offset cuts the document exactly there |
| PieceTree.SplitExact | document/store/tree.go:383-421 | known newline counts stay right when a piece is cut in two |
| PieceTree.CoalesceCorrect | document/store/tree.go:209-237 | joining contiguous neighbours changes no byte, leaves no contiguous neighbours and never adds pieces |
| PieceTree.SnapshotStable | document/store/tree.go:192-196 | a snapshot keeps its content while the files it reads from grow |
| PieceTree.ReadNodeExact | document/store/tree.go:495-539 | reading a treap returns exactly the wanted window of its content |
| PieceTree.ReadAtExact | document/store/tree.go:345-367 | a snapshot read returns exactly the bytes there are, and EOF exactly at a short read |
| TreeStore.Tree.ReplacePiece | document/store/tree.go:252-284 | refuses exactly the invalid edits, in the order of the checks; otherwise the document is spliced, sums stay exact, and the piece count is below the next trigger |
| TreeStore.Tree.Compact | document/store/tree.go:201-237 | same document, no contiguous neighbours, no more pieces, next trigger above the piece count |
| TreeStore.Tree.CoalesceLoop | document/store/tree.go:211-230 | the walk of compaction computes the coalesced piece list |
| TreeStore.Tree.BuildTree | document/store/tree.go:209-237 | rebuilding from a piece list gives a well-formed treap with exactly those pieces, whatever priorities are drawn |
| TreeStore.Tree.MaybeAutoCompactLocked | document/store/tree.go:286-301 | automatic compaction cannot be observed in the document and leaves the count below the trigger; it happens, and is counted, exactly when the count has reached the trigger |
| TreeStore.Tree.ScheduleNextAutoCompactLocked | document/store/tree.go:303-317 | the next trigger lies above the current count unless it saturates |
| TreeStore.Tree.Restore | document/store/tree.go:239-248 | restoring takes over exactly the snapshot and resets the trigger |
| TreeStore.RunRefinesSplices | document/store/tree.go:201-317 | any run of edits, compactions, snapshots and restores equals the same run of splices and copies on a plain sequence; no snapshot ever changes |
| TreeStore.RunKeepsNewlines | document/store/tree.go:252-317 | over any run a known cached newline count, of the tree and of every snapshot, is the number of LF bytes |
| ChangeMaps.NewChangeMap | document/coordinate/changemap.go:70-93 | accepts exactly the edit lists whose every edit is in range of the length it meets, with the resulting length |
| ChangeMaps.StableSuffix | document/coordinate/changemap.go:333-362 | succeeds for every valid map and computes the seam of its edits |
| ChangeMaps.SuffixUntouched | document/coordinate/changemap.go:333-362 | from the two seam offsets on, old and new document are identical |
| ChangeMaps.PrefixUntouched | document/coordinate/index.go:289-300 | before the smallest edit start both documents are identical |
| ChangeMaps.SeamBounds | document/coordinate/index.go:300-334 | the new seam never precedes the kept prefix, so the segment to scan is well formed |
| ChangeMaps.SeamTight | document/coordinate/changemap.go:333-362 | the kept suffix begins at the least offset before which every edit ends |
| ChangeMaps.PrefixTight | document/coordinate/index.go:289-294 | the kept prefix reaches exactly to the first edit start |
| ChangeMaps.AnchorsStayInBounds | document/coordinate/changemap.go:364-382 | anchors stay inside the document through any valid edit list |
| ChangeMaps.AnchorsKeepOrder | document/coordinate/changemap.go:364-382 | anchors keep their order (offset, then Before before After) |
| ChangeMaps.AnchorsFollowBytes | document/coordinate/changemap.go:364-382 | an After anchor stays before its following byte, a Before anchor after its preceding byte, while that byte survives |
| ChangeMaps.AfterStandsBeforeSurvivor | document/coordinate/changemap.go:364-382 | one edit takes an After anchor, from anywhere, to the front of the first byte at or behind it that survives |
| ChangeMaps.BeforeStandsBehindSurvivor | document/coordinate/changemap.go:364-382 | one edit takes a Before anchor behind the last byte before it that survives if and only if it does not stand exactly at the end of a range replaced by other text; there it goes behind that text |
| ChangeMaps.TrackFindsByte | document/coordinate/changemap.go:364-382 | the tracked position of a surviving byte holds that byte in the edited document |
| ChangeMaps.InversionExact | document/coordinate/changemap.go:165-181 | one edit inverts an ordered range exactly when an After start and a Before end meet inside it |
| ChangeMaps.TransformConcat | document/coordinate/changemap.go:283-315 | a composed map transforms like the two maps in turn |
| ChangeMaps.TransformAnchors | document/coordinate/changemap.go:134-163 | transforms every anchor in order, or refuses the whole list, exactly when one is invalid or the work too large |
| ChangeMaps.TransformRange | document/coordinate/changemap.go:165-181 | transforms both ends; refuses exactly ranges outside the document and those that the edits turn round, which needs an After start and a Before end |
| ChangeMaps.ComposeAll | document/coordinate/changemap.go:290-315 | succeeds exactly for adjacent chains within the edit limit, with all edits in order |
| ChangeMaps.ComposeDescribes | document/coordinate/changemap.go:290-315 | the composition describes what happened over both steps |
| ChangeMaps.Invert | document/coordinate/changemap.go:317-327 | computes the reversed list of inverted edits |
| ChangeMaps.InvertDescribes | document/coordinate/changemap.go:317-327 | the inverse map describes the way back |
| Coordinates.TranslateIsExact | document/coordinate/index.go:426-454 | moving a position behind a seam by line and column difference gives exactly the position that scanning would |
| Coordinates.PositionsOrdered | document/coordinate/index.go:573-620 | positions grow with offsets, so that no position names two offsets |
| Coordinates.ColumnFromLineStart | document/coordinate/index.go:691-700 | the column is the number of runes behind the last LF: 0 right behind it and at the start of the text |
| CoordinateIndex.ScanRune | document/coordinate/index.go:346-412 | one rune advances all counters exactly and adds the checkpoints due |
| CoordinateIndex.ScanSegment | document/coordinate/index.go:346-412 | for every chunking: scans exactly the segment, or reports exactly an invalid one |
| CoordinateIndex.FinishScan | document/coordinate/index.go:414-424 | a scan that reached the end becomes a complete table: the end is its last checkpoint, once, and every checkpoint of the scan stays |
| CoordinateIndex.BuildCheckpoints | document/coordinate/index.go:172-203 | accepts exactly valid text, with increasing rune-boundary checkpoints at most checkpointBytes + 3 apart from start to end |
| CoordinateIndex.AppendTranslatedSuffix | document/coordinate/index.go:426-454 | old checkpoints behind the seam become checkpoints of the new document |
| CoordinateIndex.IncrementalSeed | document/coordinate/index.go:274-335 | prefix, segment and suffix of the plan are those of the edit list |
| CoordinateIndex.RebuildCheckpoints | document/coordinate/index.go:205-241 | the incremental table meets the same specification as a full scan of the new source, for every exact edit list |
| IndexQueries.AnswersUnique | document/coordinate/index.go:479-620 | each query has exactly one answer for a text, so meeting the specification is equality with decoding from byte 0 |
| IndexQueries.Index.ReadWindow | document/coordinate/index.go:646-678 | one window from a checkpoint holds every rune up to the next one; on an unchanged valid source it is never inconsistent |
| IndexQueries.Index.ByteToPosition | document/coordinate/index.go:479-526 | returns the position that decoding from byte 0 gives, or not-a-boundary exactly inside a rune; its column counts from the line start (`ColumnFromLineStart`) |
| IndexQueries.Index.RuneToByte | document/coordinate/index.go:528-571 | returns the offset of the n-th rune |
| IndexQueries.Index.PositionToByte | document/coordinate/index.go:573-620 | returns the offset of a line and column, or invalid exactly when there is no such position |
| IndexQueries.Build | document/coordinate/index.go:172-203 | a built index answers for its source |
| IndexQueries.Rebuild | document/coordinate/index.go:205-241 | an index rebuilt from another one, over any chain, answers for the new source |
| WindowCache.Cache.Lookup | document/coordinate/cache.go:3-13 | a hit returns the bytes of the source at that offset and only changes the order |
| WindowCache.Cache.Store | document/coordinate/cache.go:15-35 | the newest windows stay, as many as the byte limit allows, and all stay faithful to the source |
| Journal.BatchRoundTrip | recovery/journal.go:432-539 | an encoded batch decodes to itself wherever it stands in a file |
| Journal.PayloadOffsetsExact | recovery/journal.go:471-539 | inserted bytes are found at the offsets that decoding reports |
| Journal.AppendedRecords | recovery/journal.go:471-491 | in an appended batch, bytes 0, 8 and 16 of every record hold start, delete length and insert length |
| Journal.CutReplay | recovery/journal.go:277-345 | every cut of a journal replays to what the batches that fit demand |
| Journal.ExpectedFits | recovery/journal.go:277-345 | these are exactly the batches that fit, at their offsets; truncated exactly when the cut is not at a batch end |
| Journal.ReplayComplete | recovery/journal.go:277-345 | an uncut journal replays to all its batches |
| Journal.RepairedReplay | recovery/journal.go:347-357 | cutting any file to the reported offset loses no batch and leaves nothing truncated |
| Journal.ReplayExtends | recovery/journal.go:277-345 | bytes behind a file never remove one of its batches |
| Journal.AppendVisible | recovery/journal.go:252-275 | an appended batch is replayed behind the others exactly when the file had no torn tail before |
| Journal.TornTailHides | recovery/journal.go:258-260 | a one-byte tail that a failed rollback leaves hides every later batch |
| JournalFiles.FingerprintRoundTrip | recovery/journal.go:397-430 | a file reads as bound to a fingerprint exactly when it begins with the header written for it |
| JournalFiles.BatchPayloadSize | recovery/journal.go:492-505 | refuses exactly the batches that cannot be encoded, and otherwise gives the payload size |
| JournalFiles.EncodePayload | recovery/journal.go:471-490 | the buffer filled at two places is the payload, and the relative offsets are those of the inserted bytes |
| JournalFiles.JournalFile.AppendBatch | recovery/journal.go:226-275 | on success the file has grown by exactly the encoded batch, with true offsets; on failure it is as before unless the rollback failed too, and then it has grown by part of it |
| JournalFiles.JournalFile.Replay | recovery/journal.go:277-345 | the loop over headers, checksums and operation tables computes the replay of the file |
| JournalFiles.JournalFile.DecodeOperations | recovery/journal.go:507-539 | the operation table is accepted exactly when its fields fit and its inserted bytes end with the payload |
| JournalFiles.JournalFile.RepairTail | recovery/journal.go:347-357 | refuses offsets inside the header; otherwise truncates, or changes nothing |
| SessionLog.ChainedSplit | document/session.go:1203-1213 | a log cut between batches is two logs, the second for the document and revision at the cut |
| SessionLog.PendingRevisions | document/session.go:954-964 | pending revisions are exactly the committed one plus 1 up to the newest |
| SessionLog.ReadLog | document/session.go:1250-1260 | the pending list of a log reads exactly the operations of the log back from the journal |
| SessionLog.SpliceAllApplies | document/session.go:886-909 | splicing pending pieces into a tree is applying the operations to its content |
| SessionLog.StageableConcat | document/session.go:982-1027 | staging accepts a list exactly when it accepts its halves one after the other |
| SessionLog.ReplayRebuilds | document/session.go:470-536 | replaying a journal that holds a log accepts it and rebuilds tree, revisions and pending list of that log |
| SessionLog.TornReplay | recovery/journal.go:277-345 | a log with part of a batch behind it replays to the log, and the tail is reported |
| SessionRecovery.JournalReplays | document/session.go:1157-1182 | a journal with any part of a batch behind its log replays, repaired, to exactly its whole batches |
| SessionRecovery.OpenRebuilds | document/session.go:264-376 | opening such a journal rebuilds the session and the document of its whole batches |
| SessionRecovery.ReopenRecovers | document/session.go:386-456 | a disk on which one journal is bound to the base reopens to exactly the document it holds |
| SessionInvariant.LiveDocument | document/session.go:854-972 | in a live state the tree reads the committed text with the pending operations applied in order |
| SessionInvariant.ImageLog | document/session.go:1523-1569 | the saved image with the newer batches is the same document as the old base with all of them |
| SessionSteps.StepCreateJournal | document/session.go:1157-1182 | creating the journal keeps the invariant |
| SessionSteps.StepBeginAppend | document/session.go:854-893 | starting an append keeps the invariant |
| SessionSteps.StepWriteMore | recovery/journal.go:252-275 | any number of bytes of a batch being written keeps the invariant |
| SessionSteps.StepRollback | recovery/journal.go:258-260 | cutting an unpublished append back, whole or partial, keeps the invariant |
| SessionSteps.StepPublish | document/session.go:947-966 | publication of a whole batch keeps the invariant |
| SaveSteps.SnapshotReads | document/session.go:1400-1412 | a snapshot reads the document at its batch boundary however much the journal has grown since |
| SaveSteps.StepBeginSave | document/session.go:1390-1412 | taking the snapshot keeps the invariant |
| SaveSteps.StepStream | document/session.go:1477-1486 | streaming part of the image, interleaved with edits, keeps what has been written a prefix of the document at the snapshot |
| SaveSteps.StepEnterBoundary | document/session.go:1441-1476 | creating the new journal under the lock keeps the invariant when its fingerprint is new and the byte order mark is honest |
| SaveSteps.NextGroup | document/session.go:1240-1246 | the next group of pending entries is exactly the next batch of the log |
| SaveSteps.NextBatchIs | document/session.go:1240-1262 | the batch rebuilt from pending entries and the old journal is the batch originally written, and it can always be encoded |
| SaveSteps.StepCopyGroup | document/session.go:1240-1275 | copying one whole group into the new journal keeps the invariant |
| SaveSteps.StepCopyTorn | document/session.go:1265-1267 | a copy that stops short keeps the invariant of the old journal |
| SaveSteps.StepDiscard | document/session.go:1184-1198 | discarding a prepared journal, removed or left behind, keeps the invariant |
| SaveSteps.StepReplaceBase | document/save/atomic.go:102-118 | replacing the base keeps the invariant: the prepared journal now holds what is newer |
| SaveSteps.StepFault | document/session.go:1500-1507 | a fault after the replacement keeps the document recoverable |
| SessionSafety.StepFinish | document/session.go:1508-1569 | the rebased session satisfies the invariant for the new base and the newer batches |
| SessionSafety.StepClose | document/session.go:1618-1648 | closing keeps a dirty document recoverable, and leaves a saved one in the base |
| SessionSafety.StepRemoveRetired | document/generation.go:102-136 | removing a retired journal never removes the one that recovery needs |
| SessionSafety.StepOpen | document/session.go:264-376 | reopening gives a state that satisfies the invariant again |
| SessionSafety.StepKeeps | document/session.go:1330-1576 | every step of edits, saves, crashes and reopenings keeps the invariant |
| SessionSafety.RunKeeps | document/session.go:1203-1576 | the invariant holds after every run |
| SessionSafety.CrashSafe | document/session.go:386-536 | from every live state: one journal matches or the directory is empty, and reopening rebuilds the newest document (with a batch already whole in the journal) and its revision |
| SessionSafety.RunSurvivesCrash | document/session.go:1330-1576 | the same for every run that ends in any state, save steps and torn appends included |
| SessionSafety.RunCoherent | document/session.go:854-972 | in every reachable state tree, committed base, pending list and revisions agree, the document is valid UTF-8, the journal decodes to the pending list batch by batch, and journalBytes is its size |
| SessionLimits.ReopensUnlessAmbiguous | document/session.go:416-434 | reopening finds the journal of the base exactly when no other journal on disk has its fingerprint; otherwise it fails and sets the matches aside |
| SessionLimits.BoundaryExact | document/session.go:1441-1476 | a crash right after the new journal is created is survived exactly when the new base has another fingerprint than the old one |
| SessionFailures.SaveOfNothing | document/session.go:1441-1476 | for every base file a run, step by step, in which an edit and its removal are saved and a crash at the boundary leaves a file that does not open |
| SessionFailures.SaveOfMark | document/session.go:1404-1410 | for every base file without a mark a run, step by step, in which the bytes of one are typed and saved, and a crash after the replacement gives another document |
| SessionLimits.CleanCloseExact | document/session.go:1618-1648 | a clean close reopens at once exactly when the session's journal was the only one; otherwise once refused, the second opening gives the saved document |
| SessionFailures.CloseUnderLease | document/session.go:1618-1648 | for every base file a run, step by step, in which a save under a lease and a clean close leave a file whose next opening fails |
| SessionEdits.EditReplayed | recovery/journal.go:252-275 | in any state of a session: the next edit is replayed where the session has it, behind all that the journal gave before, exactly when the journal had no torn tail |
| SessionRollbacks.LaterEditExact | recovery/journal.go:252-275 | after a failed rollback: the next edit comes back from a crash exactly when nothing of the failed append was left; when all of it was left, the file does not open any more |
| SessionRollbacks.LostEdit | document/session.go:880-889 | for every base file a run, step by step, in which an edit after a failed rollback is published and lost |
| SessionLimits.SavedTextExact | document/session.go:1404-1410 | a text survives being saved and scanned exactly when the file has a byte order mark or the text does not begin like one |
| SessionLimits.ReopensAsLog | document/session.go:386-536 | with one journal of the base, holding a log: the file opens exactly when the log can be staged on its text, and gives the document of the log |
| SessionLimits.ReplacedExact | document/session.go:1404-1516 | for any log, cut and image, after the replacement of the base: reopening gives the document of the whole log exactly when the file had a byte order mark or the text of the image does not begin like one |
| SessionLimits.SavedDocumentExact | document/session.go:1404-1410 | for a fully streamed save with any newer edits: once the base is replaced, reopening gives the document of the session exactly when the file has a byte order mark or the text of the snapshot does not begin like one |
| SessionLimits.RebaseSplitsNoBatch | document/session.go:1203-1292 | the prepared journal holds the old journal's batches after the snapshot, none split, dropped or reordered, and all others are in the new base |
| Sessions.ReadTreeRange | document/session.go:1681-1691 | a range of the tree's content, or an error exactly when it is not all there |
| Sessions.ValidateBoundaries | document/session.go:1693-1712 | the boundary check on the tree is the check on its content |
| Sessions.Session.StageOperations | document/session.go:982-1027 | accepts exactly the operations that fit the document, with what each removes from the state it meets |
| Sessions.Session.EnsureJournal | document/session.go:1157-1182 | a journal for the base, without any change to the document |
| Sessions.Session.ApplyOperations | document/session.go:854-972 | on success journal, tree, pending list and revision advance together by exactly the batch, and its history entry links the old and the new document, with the later documents of the line forgotten; the history begins a new epoch, with empty stacks, exactly when the texts of the edit do not fit behind those it holds; on failure nothing is published and the line stays; the journal quota refuses only an edit that would exceed it, and revision overflow exactly when revisions run out |
| Sessions.Session.AppendToJournal | document/session.go:880-889 | a batch is whole in the journal, or the file is cut back |
| Sessions.Session.PublishBatch | document/session.go:947-966 | tree, pending list and revision change together, and the new document is the old one with the batch applied |
| Sessions.Session.Undo | document/session.go:1041-1075 | the document becomes the one before it in the line, which is what the newest inverse makes of it; the entry changes sides and the line stays; staging never refuses it, and the journal quota only if the batch would exceed it; a failure changes neither document nor stacks |
| Sessions.Session.Redo | document/session.go:1083-1117 | the mirror image: the document becomes the next one in the line |
| Sessions.EditUndoRedo | document/session.go:1035-1117 | after an edit whose texts fit behind those that the history holds, undo brings back the document before it and redo the one it made; neither finds its stack empty |
| Sessions.UndoAllRedoAll | document/session.go:1035-1117 | all the way back and all the way forward again gives the same document |
| Sessions.Session.Compact | document/compaction.go:33-108 | document, line of documents and the operations of every entry stay, the tree has no contiguous pieces left, a failure changes nothing |
| Sessions.ReplaceAll | document/session.go:1540-1551 | pending operations that staging accepts are spliced into a tree one after the other |
| SessionRebase.NewerThan | document/session.go:1203-1212 | selects exactly the entries newer than the target |
| SessionRebase.GroupEnd | document/session.go:1240-1246 | the grouping loop stops exactly at the end of the batch |
| SessionRebase.PrepareJournalRebase | document/session.go:1203-1292 | the new journal is exactly the header and the batches after the snapshot, the pending entries point into it, and the session is untouched |
| SessionRebase.Rebase | document/session.go:1516-1561 | base, tree, journal, pending list and revisions switch together to the image of some batches with the other batches behind it; document and undo/redo line stay |
| SessionRebase.Replay | document/session.go:470-536 | refused exactly when the batches cannot be replayed or the undo store fails; otherwise rebuilds tree, revisions and pending list, and an undo stack that leads back from the document, except for an oldest entry that is torn exactly when the texts of its batch did not stay together in the store |
| SessionRebase.ReplayInFile | recovery/journal.go:507-539 | whatever a journal holds, replayed operations have their inserted bytes inside the file |
| SessionRebase.ChooseJournal | document/session.go:386-456 | for every order of the directory listing: the refusals, the chosen journal and the renamed ones are those of the reopening specification |
| SessionRefinement.ApplyOperations | document/session.go:854-972 | an edit of the class, whatever becomes of it, is a run of the protocol: journal creation if need be, then nothing, or append, write and publish, or append, part of a write and a failed rollback |
| SessionRefinement.ReplaceBase | document/session.go:1477-1516 | the replacement of the base is the next step of the protocol, and leaves what the switch of the class needs |
| SessionRefinement.Rebase | document/session.go:1516-1561 | the switch of the class to the new base is the last step of the protocol's save |
| SessionRefinement.Replay | document/session.go:470-536 | the replay of a whole journal is what opening does in the protocol, refusals included |
| UndoHistory.UndoMoves | document/session.go:1059-1072 | undo moves back along the line: the document is the one before, the entry changes sides, all documents of the line stay |
| UndoHistory.RedoMoves | document/session.go:1101-1114 | redo moves on along the line |
| UndoHistory.UndoRedoRoundTrip | document/session.go:1041-1117 | undo then redo, and redo then undo, give the same document |
| UndoHistory.LineageStep | document/session.go:1059-1114 | an entry on either stack describes the same line of documents |
| UndoHistory.InverseStageable | document/session.go:914-935 | the inverse of an accepted batch is accepted, byte boundaries and lengths included |
| UndoHistory.UndoStore.Append | document/undo_store.go:60-79 | refuses exactly what exceeds the quota, and never moves a stored text |
| UndoHistory.UndoStore.Rewrite | document/undo_store.go:124-222 | keeps every live text, drops every other byte, or changes nothing |
| UndoHistory.UndoStore.CopyReference | document/undo_store.go:224-254 | copies exactly the referenced bytes for every read size |
| UndoHistory.History.HistoryText | document/session.go:1134-1155 | stores a text behind the others, or, exactly when it does not fit there, drops the whole history, starts a new epoch, and keeps the text only if it fits alone |
| UndoHistory.TextsReadBack | document/session.go:1134-1155 | the texts of a batch read back, whatever they are, if and only if they fit behind the earlier ones, or the first is too long for that and all fit alone |
| UndoHistory.TrackedStep | document/session.go:470-536 | a replayed batch extends the line, begins a new one, or leaves a torn entry, exactly by the lengths of its texts |
| UndoHistory.RoomForAll | document/session.go:470-536 | with a quota for all texts of the journal no entry is torn |
| UndoHistory.TornRedo | document/session.go:500-531 | a concrete recovery of one replacement after which redo would insert another byte |
| UndoHistory.History.RecordBatch | document/session.go:911-935 | a recorded batch keeps the epoch if and only if its inserted and removed texts fit behind the store; then the entry links the documents before and after the batch and the line stays; otherwise both stacks are empty |
| UndoHistory.History.Materialize | document/session.go:1119-1132 | reads back exactly the operations of an entry |
| UndoHistory.History.CompactStore | document/compaction.go:72-95 | every entry reads back the same operations and the line of documents stays, or nothing changes |
| UndoHistory.CollectRefs | document/compaction.go:151-165 | collects every stored text of a stack |
| UndoHistory.RemapStack | document/compaction.go:167-178 | rewrites every reference of a stack by the mapping |
| UndoHistory.RemapPast | document/compaction.go:167-178 | remapping the undo stack leads back through the same documents, by the same operations |
| UndoHistory.RemapFuture | document/compaction.go:167-178 | remapping the redo stack leads on through the same documents, by the same operations |
| Events.Subscriber.OfferEvent | document/events.go:282-304 | under any receives between its steps: a run of the stream machine in which the offered event becomes the newest one delivered or queued, at once or after a drain that counts every drained event as lost, without waiting for the consumer |
| Events.Subscriber.Receive | document/events.go:282-304 | a received event reports its gap exactly, unless losses are unreported because a drain is under way |
| EventStreams.StreamPromise | document/events.go:282-304 | at any moment of any run: sequences increase, every event received is the published one of its sequence, the queue is bounded, reported losses never exceed the real ones and equal them once the consumer has caught up |
| EventStreams.ReportsExact | document/events.go:282-304 | from any state between two offers every later report is exact, in every run, if and only if they were so far and the buffer holds one event or the sequence numbers run out before it is full |
| EventStreams.OvertakenReport | document/events.go:288-303 | the failing run, step by step: fill the queue, discard the oldest, receive the next; its report is wrong |
| EventStreams.BufferOfOne | document/events.go:258-304 | the same for a new subscription: exact in every run if and only if its buffer holds one event, or the sequence numbers run out first |
| EventStreams.ReplayFits | document/events.go:259-276 | a replay that fits the buffer queues exactly the retained events, the first with the gap before it |
| Events.EventHub.AppendHistory | document/events.go:229-238 | the ring holds the last events, numbered without gaps |
| Events.EventHub.Publish | document/events.go:205-227 | the new event is retained and is the newest of every stream, and all that a subscriber has or can receive is, but for the losses it reports, what was published under that sequence; the last sequence number closes the hub |
| Events.EventHub.Subscribe | document/events.go:240-280 | the four refusals exactly; otherwise a stream that follows what was published from the first retained event after the sequence on, with the gap before it as a reported loss and the replayed events queued |
| ChangeHistories.RunOfAppends | document/change_history.go:64-87 | after any run of appends: the last of the maps with edits, at most the limit, joined end to end, up to the boundary of the last map; revisions in order when every map moves forward |
| ChangeHistories.KeepsSinceBreak | document/change_history.go:64-87 | after any run of appends the list holds exactly the newest maps with edits behind the last break, as many as the limit allows |
| ChangeHistories.ContiguousKept | document/change_history.go:64-87 | of maps that each move forward from where the one before ends, exactly the newest are retained, from their own boundary on |
| ChangeHistories.KeptAnswers | document/change_history.go:64-139 | between the boundaries it has kept, the bounded history answers as one without a limit would |
| ChangeHistories.BackwardMap | document/change_history.go:96-139 | a retained first map that does not move forward has no right answer between its ends |
| ChangeHistories.ChangeHistory.Append | document/change_history.go:64-94 | the ring does what the list does, for any map, evictions and resets included; what the list keeps is stated exactly by `KeepsSinceBreak` |
| ChangeHistories.ChangeHistory.BoundaryLengthOf | document/change_history.go:148-159 | finds exactly the retained boundaries, with the length at the first of each revision |
| ChangeHistories.ChangeHistory.Between | document/change_history.go:96-139 | when the first map moves forward, answers exactly for pairs of retained boundaries, with the composed map or its inverse; says exactly when a revision has expired |
| ChangeHistories.ChangeHistory.Clone | document/change_history.go:172-180 | a ring of its own with the same list |
| ChangeHistories.SpanDescribes | document/change_history.go:96-139 | the answer describes what happened between the two boundaries, in either direction |
| ChangeHistories.SpanFits | document/options.go:12-19 | 4096 maps of 256 edits never exceed what one map may hold |
| Rings.RingPush | document/change_history.go:80-84 | a ring with room takes one more behind the newest |
| Rings.RingReplace | document/events.go:235-237 | a full ring gives up the oldest for the newest |
| Lifecycle.SourceGeneration.Acquire | document/generation.go:57-62 | one reference more for a lease |
| Lifecycle.SourceGeneration.Retire | document/generation.go:64-73 | gives up the session's reference once, and closes the files when it was the last |
| Lifecycle.SourceGeneration.Release | document/generation.go:91-136 | drops one reference, and closes the files when it was the last after retirement |
| Lifecycle.StepKeepsValid | document/session_lifecycle.go:73-148 | every step of saves, readers and shutdown keeps token, reference counts and lease count exact |
| Lifecycle.RunPromises | document/generation.go:57-168 | over all runs: at most one save or the close barrier has the token, open leases read open files, files close once and only after retirement and the last lease, counted leases stay within the limit |
| AtomicSave.Directory.AtomicChecked | document/save/atomic.go:65-118 | the target changes only to exactly the whole content, and the effects are then: all writes, the flush, the check, the rename, in this order; otherwise it is unchanged and nothing was renamed |
| VirtualBuild.BuildLogicalPages | document/virtual/build.go:13-91 | for every way the reads are chunked: the page table of a valid text, or the refusal of an invalid one |
| VirtualBuild.PageTableUnique | document/virtual/build.go:13-91 | document, target and limit determine the page table |
| VirtualPublication.ValidateFragments | document/virtual/publication.go:124-165 | accepts exactly ordered, disjoint, nonempty fragments below the watermark with distinct identities and bounded sums |
| VirtualPublication.CompactInPlace | document/virtual/publication.go:238-250 | the in-place loop leaves each offset of a sorted list once, in order |
| VirtualPublication.LineAndBoundaryMap | document/virtual/build.go:125-167 | true line data at every page end and cut, refused exactly when a cut is inside a rune |
| VirtualPublication.CutPages | document/virtual/publication.go:192-216 | every page between two boundaries lies in one fragment or in none, with true line data and flags |
| VirtualPublication.FindRuns | document/virtual/publication.go:217-226 | first and last page of every fragment |
| VirtualPublication.NumberRuns | document/virtual/publication.go:227-233 | pages of a fragment are numbered 0 to count - 1 |
| VirtualPublication.BuildPublishedPages | document/virtual/publication.go:167-236 | the pages partition the document at rune boundaries, refine the logical pages and show each fragment as one numbered run; refused exactly when a cut is inside a rune |
| VirtualWindow.Publish | document/virtual/publication.go:67-122 | an accepted publication, also for an empty document, gives a window state in which every page keeps the size limit and every identity leads to its fragment |
| VirtualWindow.PublishedPageSize | document/virtual/publication.go:167-236 | every published page lies inside one logical page |
| VirtualWindow.PageAtByte | document/virtual/window.go:285-294 | finds the page that holds a byte |
| VirtualWindow.FragmentAtMeasure | document/virtual/window.go:306-336 | finds the fragment at a measure; at a common end the affinity decides |
| VirtualWindow.FitsIsWithin | document/virtual/window.go:252-283 | a page fits exactly when the usage with it stays within the budget |
| VirtualWindow.UsageGrows | document/virtual/window.go:271-283 | adding pages one by one counts bytes, pages, distinct fragments and their measures once |
| VirtualWindow.ReadWindow | document/virtual/window.go:200-250 | a contiguous run with the anchor, within budget, reaching the desired ends or stopping at a page that does not fit; refusals in exactly two cases |
| VirtualWindow.WindowByByte | document/virtual/window.go:49-89 | the window is wanted from the page of the first wanted byte to the page of the last, around the page that holds the offset; only the budget can refuse a valid request |
| VirtualWindow.WindowByFragment | document/virtual/window.go:91-131 | a numbered page of the fragment with the identity with all pages of its neighbours; not found, invalid and over budget exactly |
| VirtualWindow.MeasureAnchor | document/virtual/window.go:133-198 | the fragment at a measure, and its first or last page by affinity and by the ends of all measure |
| VirtualWindow.WindowByMeasure | document/virtual/window.go:133-198 | the anchor page lies in the stretch of fragments that the request touches, at the first or last page of its fragment |
| VirtualWindow.ResolveBudget | document/virtual/pager.go:416-435 | zeros become the limits of the pager, and exactly what exceeds them is refused |
| VirtualWindow.ResolveOptions | document/virtual/pager.go:152-216 | zeros become defaults, and a window always has room for the largest page |
| VirtualWindow.DefaultBudgetFits | document/virtual/pager.go:152-216 | with the configured budget the anchor page always fits |

## Left out

- SessionSafety.RunSurvivesCrash: assumes at the boundary of every save that no journal on disk has the fingerprint of the new base and that the byte order mark is honest, and everywhere that rollbacks succeed; `SessionLimits`, `SessionFailures` and `SessionRollbacks` show what happens otherwise.
- SessionRefinement.ApplyOperations: after a failed rollback the class is no longer valid in the sense of its own contracts; the edits that follow are treated in the protocol, by `SessionRollbacks`.
- SessionRefinement.Rebase: the copying loop before it is tied to the protocol by its result, the header and the newer batches (`SessionRebase.PrepareJournalRebase`, `SaveSteps.StepCopyGroup`), not step by step.
- SessionRefinement.Replay: the repair of a torn tail, which opening does next, is `JournalFiles.JournalFile.RepairTail`.
- SessionRebase.ChooseJournal: renaming a journal away is taken to succeed; a failing rename only adds an error.
- Sessions.Session.ApplyOperations: polls the context between its parts, not before every operation of the loops over staged operations; a later poll has the same outcome.
- Sessions.Session.Undo: the checks for a closed or faulted session are left out.
- PieceTree.ReadAtExact: reads into a returned sequence instead of filling the caller's buffer.
- TreeStore.Tree.BuildTree: draws arbitrary priorities instead of running the xorshift generator; expected depth is not modelled.
- CoordinateIndex.ScanSegment: progress counters and the reuse statistics of the index are left out.
- ChangeMaps.TransformRange: the batch forms for ranges and annotations apply it to each element and are left out.
- Events.EventHub.Subscribe: subscription numbers are not reused after 2^64 of them, so the search for a free one is one step; unsubscribe and close only remove entries.
- Lifecycle.RunPromises: one process; the timing of waiters, and the removal of the journal file with the last lease, which is a step of the persistence protocol.
- VirtualPublication.BuildPublishedPages: for an empty document it returns before the boundary map, which it would not use.
- VirtualWindow.ReadWindow: decides which pages a window has; reading their bytes, the page cache, the in-flight byte reservation and the check that no newer generation was published are left out.
- Power loss with uncertain directory durability: the crash model is the end of a process.
- Operating-system code (opening, locking, change detection, renaming, path resolution), the periodic sync, timers and goroutine scheduling.
- Changes of the base file by other programs: a save that detects one fails without a step of its own.
- Session cleanup, option validation other than that of pages and windows, and progress events: plumbing and easy arithmetic.
- The virtual page cache and its progress counters: a second bounded cache beside the one modelled.
- Detection of corrupted bytes and collisions of hashes: nothing is assumed of either function.
