/** The session of document/session.go: its fields, and the loops that stage, publish, rebase and replay edits. */
module Sessions {
  import opened Documents
  import opened Utf8
  import opened PieceTree
  import TreeStore
  import opened Journal
  import opened JournalFiles
  import opened SessionLog
  import BaseScan
  import SessionProtocol
  import UndoHistory

  const STAGING_SOURCE: SourceID := 255

  datatype Error =
    | Aborted | InsertTooLong | JournalFull | TooLong | InvalidText | OutOfRange | InvalidBoundary | RevisionOverflow
    | JournalFailed | RollbackFailed | HistoryFailed | NothingToUndo | NothingToRedo | NonMonotonic | ShortRead
  datatype Outcome<+T> = Done(value: T) | Failed(error: Error)

  /** Base, journal and staging buffer, as a tree sees them. */
  function Files(base: seq<byte>, file: seq<byte>, staging: seq<byte>): map<nat, seq<byte>> {
    map[0 := base, 1 := file, 2 := staging]
  }

  /** The journal is bound once there is one. */
  function Bindings(journaled: bool): map<SourceID, nat> {
    if journaled then map[SOURCE_BASE := 0, SOURCE_JOURNAL := 1] else map[SOURCE_BASE := 0]
  }

  function StagingWorld(journaled: bool, base: seq<byte>, file: seq<byte>, staging: seq<byte>): World {
    World(Bindings(journaled)[STAGING_SOURCE := 2], Files(base, file, staging))
  }

  /** References into base and journal mean the same with more sources bound. */
  lemma MoreSources(refs: seq<Ref>, journaled: bool, base: seq<byte>, file: seq<byte>, staging: seq<byte>)
    requires Readable(refs, World(Bindings(journaled), Files(base, file, staging)))
    ensures Readable(refs, StagingWorld(journaled, base, file, staging)) && Readable(refs, Sources(base, file))
    ensures Resolve(refs, StagingWorld(journaled, base, file, staging)) == Resolve(refs, Sources(base, file))
    ensures Resolve(refs, World(Bindings(journaled), Files(base, file, staging))) == Resolve(refs, Sources(base, file))
  {
  }

  lemma StagingGrows(refs: seq<Ref>, journaled: bool, base: seq<byte>, file: seq<byte>, staging: seq<byte>,
                     more: seq<byte>)
    requires Readable(refs, StagingWorld(journaled, base, file, staging))
    ensures Readable(refs, StagingWorld(journaled, base, file, staging + more))
    ensures Resolve(refs, StagingWorld(journaled, base, file, staging + more))
            == Resolve(refs, StagingWorld(journaled, base, file, staging))
  {
  }

  function StagedPiece(staging: seq<byte>, insert: seq<byte>): Piece {
    if insert == [] then Piece(0, 0, 0, 0, false) else Piece(STAGING_SOURCE, |staging|, |insert|, CountLF(insert), true)
  }

  lemma StagedPieceReads(journaled: bool, base: seq<byte>, file: seq<byte>, staging: seq<byte>, insert: seq<byte>)
    ensures var w := StagingWorld(journaled, base, file, staging + insert);
            Readable(PieceRefs(StagedPiece(staging, insert)), w)
                && Resolve(PieceRefs(StagedPiece(staging, insert)), w) == insert
  {
  }

  /** readTreeRange: the bytes of a range, or nothing when the range is not all there. */
  method ReadTreeRange(tree: TreeStore.Tree, files: map<nat, seq<byte>>, start: int, length: nat)
    returns (r: Outcome<seq<byte>>)
    requires tree.Valid() && Readable(Refs(tree.root), World(tree.sources, files))
    ensures var doc := Content(tree.root, World(tree.sources, files));
            if length == 0 then r == Done([])
            else if InRange(|doc|, start, length) then r == Done(doc[start..start + length])
            else r.Failed?
  {
    if length == 0 {
      return Done([]);
    }
    CachedSums(tree.root, World(tree.sources, files));
    var read := ReadAt(Snapshot(tree.root, tree.sources), files, start, length);
    if read.Failure? {
      return Failed(OutOfRange);
    }
    ReadAtExact(Snapshot(tree.root, tree.sources), files, start, length);
    if read.value.error != NoError && !(read.value.error == EOF && |read.value.data| == length) {
      return Failed(ShortRead);
    }
    return Done(read.value.data);
  }

  /** validateUTF8ReplacementBoundaries reads one byte at each end of the range; a range that is not there fails. */
  method ValidateBoundaries(tree: TreeStore.Tree, files: map<nat, seq<byte>>, start: nat, deleteLength: nat)
    returns (ok: bool)
    requires tree.Valid() && Readable(Refs(tree.root), World(tree.sources, files))
    ensures ok <==>
              && start + deleteLength <= |Refs(tree.root)|
              && BoundaryTest(Content(tree.root, World(tree.sources, files)), start, deleteLength)
  {
    ghost var doc := Content(tree.root, World(tree.sources, files));
    CachedSums(tree.root, World(tree.sources, files));
    var length := NodeBytes(tree.root);
    var offsets := [start, start + deleteLength];
    var index := 0;
    while index < 2
      invariant 0 <= index <= 2
      invariant index > 0 ==> start <= |doc| && RuneStart(doc, start)
      invariant index > 1 ==>
                && start + deleteLength <= |doc|
                && (deleteLength > 0 ==> RuneStart(doc, start + deleteLength))
    {
      var offset := offsets[index];
      if !(index == 1 && offset == start) && offset != 0 && offset != length {
        var value := ReadTreeRange(tree, files, offset, 1);
        if value.Failed? {
          return false;
        }
        assert value == Done(doc[offset..offset + 1]);
        if Cont(value.value[0]) {
          return false;
        }
      }
      index := index + 1;
    }
    return true;
  }

  /** One operation that staging accepts. */
  predicate Accepts(doc: seq<byte>, op: Replace) {
    && Utf8.Valid(op.insert) && InRange(|doc|, op.start, op.deleteLength)
    && BoundaryTest(doc, op.start, op.deleteLength)
    && |doc| - op.deleteLength + |op.insert| <= MAX_INT64
  }

  lemma StageableStep(doc: seq<byte>, ops: seq<Replace>, i: nat)
    requires i < |ops| && Stageable(doc, ops[..i])
    ensures Stageable(doc, ops[..i + 1]) <==> Accepts(Apply(doc, ops[..i]), ops[i])
    ensures Stageable(doc, ops[..i + 1]) ==> Apply(doc, ops[..i + 1]) == ApplyOne(Apply(doc, ops[..i]), ops[i])
  {
    hide Valid, RuneLen;
    assert ops[..i + 1][..i] == ops[..i];
  }

  lemma {:induction false} StageablePrefix(doc: seq<byte>, ops: seq<Replace>, i: nat)
    requires i <= |ops| && !Stageable(doc, ops[..i])
    ensures !Stageable(doc, ops)
  {
    assert ops == ops[..i] + ops[i..];
    StageableConcat(doc, ops[..i], ops[i..]);
  }

  /** A list is refused as soon as one of its operations is. */
  lemma Refused(doc: seq<byte>, ops: seq<Replace>, i: nat)
    requires i < |ops| && Stageable(doc, ops[..i]) && !Accepts(Apply(doc, ops[..i]), ops[i])
    ensures !Stageable(doc, ops)
  {
    StageableStep(doc, ops, i);
    StageablePrefix(doc, ops, i + 1);
  }

  /** cloneDocumentTree. */
  method CloneTree(source: TreeStore.Tree) returns (clone: TreeStore.Tree)
    requires source.Valid()
    ensures fresh(clone) && clone.Valid() && clone.root == source.root && clone.sources == source.sources
  {
    clone := new TreeStore.Tree(Nil, map[], DEFAULT_AUTO_COMPACT_PIECES);
    var snapshot := source.TakeSnapshot();
    clone.Restore(snapshot);
  }

  /** The tree that staging edits: it reads the document as edited so far. The buffer is bound by the first edit. */
  ghost predicate StagedTree(tree: TreeStore.Tree, journaled: bool, base: seq<byte>, file: seq<byte>,
                             staging: seq<byte>, doc: seq<byte>)
    reads tree
  {
    var w := World(tree.sources, Files(base, file, staging));
    && tree.Valid() && (tree.sources == Bindings(journaled) || tree.sources == Bindings(journaled)[STAGING_SOURCE := 2])
    && Readable(Refs(tree.root), w) && Resolve(Refs(tree.root), w) == doc
  }

  lemma BufferBound(refs: seq<Ref>, sources: map<SourceID, nat>, journaled: bool, base: seq<byte>, file: seq<byte>,
                    staging: seq<byte>)
    requires sources == Bindings(journaled) || sources == Bindings(journaled)[STAGING_SOURCE := 2]
    requires Readable(refs, World(sources, Files(base, file, staging)))
    ensures sources[STAGING_SOURCE := 2] == Bindings(journaled)[STAGING_SOURCE := 2]
    ensures Readable(refs, StagingWorld(journaled, base, file, staging))
    ensures Resolve(refs, StagingWorld(journaled, base, file, staging))
            == Resolve(refs, World(sources, Files(base, file, staging)))
  {
  }

  /** The checks of one staged operation, in their order, and its effect on the staged tree. */
  method StageOne(tree: TreeStore.Tree, journaled: bool, base: seq<byte>, file: seq<byte>, staging: seq<byte>,
                  op: Replace, maxInsertBytes: nat, ghost doc: seq<byte>)
    returns (r: Outcome<Staged>)
    requires StagedTree(tree, journaled, base, file, staging, doc)
    modifies tree
    ensures r.Done? ==> Accepts(doc, op) && |op.insert| <= maxInsertBytes
    ensures r == Failed(InsertTooLong) ==> |op.insert| > maxInsertBytes
    ensures r == Failed(TooLong) ==> !Accepts(doc, op) || |staging| + |op.insert| > MAX_INT64
    ensures r.Failed? && r.error != InsertTooLong && r.error != TooLong ==> !Accepts(doc, op)
    ensures r.Failed? ==> r.error in {InvalidText, InsertTooLong, OutOfRange, InvalidBoundary, TooLong}
    ensures r.Done? ==>
              && r.value == Staged(op, doc[op.start..op.start + op.deleteLength])
              && StagedTree(tree, journaled, base, file, staging + op.insert, ApplyOne(doc, op))
  {
    hide Utf8.Valid, RuneLen, Resolve, Readable, BoundaryTest, Refs;
    if !Utf8.Valid(op.insert) {
      return Failed(InvalidText);
    }
    if |op.insert| > maxInsertBytes {
      return Failed(InsertTooLong);
    }
    var files := Files(base, file, staging);
    CachedSums(tree.root, World(tree.sources, files));
    var length := NodeBytes(tree.root);
    if op.start < 0 || op.deleteLength < 0 || op.start > length || op.deleteLength > length - op.start {
      return Failed(OutOfRange);
    }
    var boundaries := ValidateBoundaries(tree, files, op.start, op.deleteLength);
    if !boundaries {
      return Failed(InvalidBoundary);
    }
    var deleted := ReadTreeRange(tree, files, op.start, op.deleteLength);
    assert op.deleteLength == 0 ==> doc[op.start..op.start + op.deleteLength] == [];
    assert deleted == Done(doc[op.start..op.start + op.deleteLength]);
    BufferBound(Refs(tree.root), tree.sources, journaled, base, file, staging);
    tree.SetSource(STAGING_SOURCE, TreeStore.Some(2));
    var piece := StagedPiece(staging, op.insert);
    StagingGrows(Refs(tree.root), journaled, base, file, staging, op.insert);
    StagedPieceReads(journaled, base, file, staging, op.insert);
    ghost var before := Refs(tree.root);
    var replaced := tree.ReplacePiece(op.start, op.deleteLength, piece);
    if replaced.Failure? {
      return Failed(TooLong);
    }
    ResolveSplice(before, op.start, op.deleteLength, PieceRefs(piece),
                  StagingWorld(journaled, base, file, staging + op.insert));
    return Done(Staged(op, deleted.value));
  }

  function JournalPiece(file: seq<byte>, p: Pending): Piece
    requires p.insertOffset + p.insertLength <= |file|
  {
    if p.insertLength == 0 then Piece(0, 0, 0, 0, false)
    else Piece(SOURCE_JOURNAL, p.insertOffset, p.insertLength,
               CountLF(file[p.insertOffset..p.insertOffset + p.insertLength]), true)
  }

  /** Operations that staging accepts can be spliced into the tree one after the other. */
  lemma SplicePossible(refs: seq<Ref>, pending: seq<Pending>, i: nat, base: seq<byte>, file: seq<byte>)
    requires InFile(file, pending) && i < |pending| && Readable(refs, Sources(base, file))
    requires Stageable(Resolve(refs, Sources(base, file)), ReadOps(file, pending))
    ensures var before, p := SpliceAll(refs, pending[..i]), pending[i];
            && InRange(|before|, p.start, p.deleteLength) && |before| - p.deleteLength + p.insertLength <= MAX_INT64
            && SpliceAll(refs, pending[..i + 1]) == Splice(before, p.start, p.deleteLength, InsertRefs(p))
  {
    hide Readable, Resolve, Accepts, Stageable, Apply, Applicable, ReadOps, InFile;
    var doc, ops := Resolve(refs, Sources(base, file)), ReadOps(file, pending);
    AcceptedAt(doc, ops, i);
    ReadPrefix(file, pending, i);
    SpliceAllApplies(refs, pending[..i], base, file);
    assert |SpliceAll(refs, pending[..i])| == |Resolve(SpliceAll(refs, pending[..i]), Sources(base, file))|;
    AcceptsFits(Apply(doc, ops[..i]), ops[i]);
    assert pending[..i + 1][..i] == pending[..i];
  }

  lemma ReadPrefix(file: seq<byte>, pending: seq<Pending>, i: nat)
    requires InFile(file, pending) && i < |pending|
    ensures InFile(file, pending[..i]) && ReadOps(file, pending[..i]) == ReadOps(file, pending)[..i]
    ensures ReadOps(file, pending)[i] == ReadOp(file, pending[i])
    ensures pending[i].insertOffset + pending[i].insertLength <= |file|
  {
  }

  /** Every operation of an accepted list is accepted in the state it meets. */
  lemma AcceptedAt(doc: seq<byte>, ops: seq<Replace>, i: nat)
    requires Stageable(doc, ops) && i < |ops|
    ensures Stageable(doc, ops[..i]) && Applicable(doc, ops[..i]) && Accepts(Apply(doc, ops[..i]), ops[i])
  {
    assert ops == ops[..i + 1] + ops[i + 1..] && ops[..i + 1] == ops[..i] + [ops[i]];
    hide Stageable, Accepts, Apply;
    StageableConcat(doc, ops[..i + 1], ops[i + 1..]);
    StageableConcat(doc, ops[..i], [ops[i]]);
    StageableStep(doc, ops, i);
    StageableApplicable(doc, ops[..i]);
  }

  lemma AcceptsFits(doc: seq<byte>, op: Replace)
    requires Accepts(doc, op)
    ensures InRange(|doc|, op.start, op.deleteLength) && |doc| - op.deleteLength + |op.insert| <= MAX_INT64
  {
  }

  /** ReplacePiece for every pending operation: how an applied batch, a rebase and a replay fill the tree. */
  method ReplaceAll(tree: TreeStore.Tree, pending: seq<Pending>, ghost base: seq<byte>, file: seq<byte>)
    requires tree.Valid() && SOURCE_JOURNAL in tree.sources && |file| <= MAX_INT64
    requires InFile(file, pending) && Readable(Refs(tree.root), Sources(base, file))
    requires Stageable(Resolve(Refs(tree.root), Sources(base, file)), ReadOps(file, pending))
    modifies tree
    ensures tree.Valid() && tree.sources == old(tree.sources)
    ensures Refs(tree.root) == SpliceAll(old(Refs(tree.root)), pending)
  {
    ghost var refs := Refs(tree.root);
    var i := 0;
    while i < |pending|
      invariant 0 <= i <= |pending|
      invariant tree.Valid() && tree.sources == old(tree.sources)
      invariant Refs(tree.root) == SpliceAll(refs, pending[..i])
    {
      SplicePossible(refs, pending, i, base, file);
      ReplaceOne(tree, pending[i], file);
      i := i + 1;
    }
    assert pending[..i] == pending;
  }

  method ReplaceOne(tree: TreeStore.Tree, p: Pending, file: seq<byte>)
    requires tree.Valid() && SOURCE_JOURNAL in tree.sources && p.insertOffset + p.insertLength <= |file| <= MAX_INT64
    requires InRange(|Refs(tree.root)|, p.start, p.deleteLength)
             && |Refs(tree.root)| - p.deleteLength + p.insertLength <= MAX_INT64
    modifies tree
    ensures tree.Valid() && tree.sources == old(tree.sources)
    ensures Refs(tree.root) == Splice(old(Refs(tree.root)), p.start, p.deleteLength, InsertRefs(p))
  {
    hide Refs;
    CachedSums(tree.root, World(map[], map[]));
    var piece := JournalPiece(file, p);
    assert PieceRefs(piece) == InsertRefs(p);
    var replaced := tree.ReplacePiece(p.start, p.deleteLength, piece);
    assert replaced.Success?;
  }

  /** The tree over a scanned base. */
  lemma BaseLeaf(base: seq<byte>, piece: Piece, priority: nat)
    requires |base| <= MAX_INT64
    requires var scan := BaseScan.ScanOf(base);
             piece == Piece(SOURCE_BASE, scan.baseOffset, scan.size - scan.baseOffset, scan.newlines, true)
    ensures var root := if piece.length == 0 then Nil else Leaf(piece, priority);
            && WellFormed(root) && NodeBytes(root) <= MAX_INT64
            && Refs(root) == SessionProtocol.BaseTree(base, BaseScan.StartsWithBOM(base))
            && Readable(Refs(root), World(Bindings(false), Files(base, [], [])))
            && Resolve(Refs(root), Sources(base, [])) == BaseScan.TextOf(base)
  {
    hide Resolve, Readable, BaseScan.StartsWithBOM, Refs, Utf8.Valid, CountLF;
    BaseLeafRefs(base, piece, priority);
    BaseReads(base);
  }

  lemma BaseLeafRefs(base: seq<byte>, piece: Piece, priority: nat)
    requires |base| <= MAX_INT64
    requires var scan := BaseScan.ScanOf(base);
             piece == Piece(SOURCE_BASE, scan.baseOffset, scan.size - scan.baseOffset, scan.newlines, true)
    ensures var root := if piece.length == 0 then Nil else Leaf(piece, priority);
            WellFormed(root) && NodeBytes(root) <= MAX_INT64
                && Refs(root) == SessionProtocol.BaseTree(base, BaseScan.StartsWithBOM(base))
  {
    var root := if piece.length == 0 then Nil else Leaf(piece, priority);
    if piece.length > 0 {
      assert Pieces(root) == [piece] && [] + [piece] == [piece];
      ExpandSnoc([], piece);
    }
    assert Refs(root) == PieceRefs(piece);
    assert PieceRefs(piece) == SessionProtocol.BaseTree(base, BaseScan.StartsWithBOM(base));
  }

  lemma BaseReads(base: seq<byte>)
    ensures var refs := SessionProtocol.BaseTree(base, BaseScan.StartsWithBOM(base));
            Readable(refs, World(Bindings(false), Files(base, [], [])))
                && Resolve(refs, Sources(base, [])) == BaseScan.TextOf(base)
  {
    var refs := SessionProtocol.BaseTree(base, BaseScan.StartsWithBOM(base));
    assert Resolve(refs, Sources(base, [])) == BaseScan.TextOf(base);
  }

  class Session {
    const crc: Checksum
    const maxInsertBytes: nat
    const maxJournalBytes: nat
    var fingerprint: Fingerprint
    var base: seq<byte>
    var hasBOM: bool
    var journal: JournalFile?
    var tree: TreeStore.Tree
    var revision: nat
    var committedRevision: nat
    var pending: seq<Pending>
    var dirty: bool
    var journalBytes: nat
    const history: UndoHistory.History

    /** openSession without a journal: a tree of one piece over the scanned base. */
    constructor (base: seq<byte>, priority: nat, fingerprint: Fingerprint, crc: Checksum, maxInsertBytes: nat,
                 maxJournalBytes: nat, history: UndoHistory.History)
      requires |base| <= MAX_INT64 && Utf8.Valid(BaseScan.TextOf(base)) && ValidFingerprint(fingerprint)
               && maxJournalBytes <= MAX_INT64
      ensures Valid() && fresh(tree) && journal == null && this.history == history
      ensures this.base == base && hasBOM == BaseScan.StartsWithBOM(base) && Document() == BaseScan.TextOf(base)
      ensures Refs(tree.root) == SessionProtocol.BaseTree(base, hasBOM)
      ensures revision == committedRevision == 0 && pending == [] && !dirty
    {
      var scan := BaseScan.ScanOf(base);
      this.base, hasBOM, journal := base, scan.hasBOM, null;
      this.crc, this.maxInsertBytes, this.maxJournalBytes, this.fingerprint := crc, maxInsertBytes, maxJournalBytes,
          fingerprint;
      this.history := history;
      revision, committedRevision, pending, dirty, journalBytes := 0, 0, [], false, 0;
      var piece := Piece(SOURCE_BASE, scan.baseOffset, scan.size - scan.baseOffset, scan.newlines, true);
      tree := new TreeStore.Tree(if piece.length == 0 then Nil else Leaf(piece, priority), Bindings(false),
                                 DEFAULT_AUTO_COMPACT_PIECES);
      BaseLeaf(base, piece, priority);
    }

    ghost function File(): seq<byte>
      reads this, journal
    {
      if journal == null then [] else journal.bytes
    }

    /** The newest document. */
    ghost function Document(): seq<byte>
      reads this, journal, tree
    {
      Resolve(Refs(tree.root), Sources(base, File()))
    }

    ghost predicate Valid()
      reads this, journal, tree
    {
      && tree.Valid() && tree.sources == Bindings(journal != null)
      && Readable(Refs(tree.root), World(tree.sources, Files(base, File(), [])))
      && Utf8.Valid(Document())
      && ValidFingerprint(fingerprint)
      && revision == committedRevision + |pending| <= MAX_UINT64
      && (journal != null ==> journal.crc == crc && FILE_HEADER_SIZE <= journalBytes == |journal.bytes| <= MAX_INT64)
      && maxJournalBytes <= MAX_INT64
    }

    /** A poll of the context: it may have been cancelled at any time. */
    method Poll() returns (cancelled: bool)
    {
      cancelled := *;
    }

    /** stageOperationsLocked: tries the operations on a copy of the tree. */
    method StageOperations(ops: seq<Replace>) returns (r: Outcome<seq<Staged>>)
      requires Valid()
      ensures r.Done? ==> StagedAs(Document(), ops, r.value)
      ensures r.Failed? ==> r.error in {Aborted, InvalidText, InsertTooLong, OutOfRange, InvalidBoundary, TooLong}
      ensures r.Failed? && r.error != Aborted && r.error != InsertTooLong && r.error != TooLong ==>
                !Stageable(Document(), ops)
      ensures r == Failed(TooLong) ==> !Stageable(Document(), ops) || |Inserts(ops)| > MAX_INT64
      ensures r == Failed(InsertTooLong) ==> exists i :: 0 <= i < |ops| && |ops[i].insert| > maxInsertBytes
    {
      hide Utf8.Valid, RuneLen, Resolve, Readable, Refs, Stageable, Apply, Applicable, Accepts, Inserts, StagedTree,
           StagedAs;
      var stagedTree := CloneTree(tree);
      var staging: seq<byte> := [];
      var result: seq<Staged> := [];
      ghost var doc := Document();
      var journaled, file := journal != null, if journal == null then [] else journal.bytes;
      var i := 0;
      StageStart(this, stagedTree, ops);
      while i < |ops|
        invariant 0 <= i <= |ops| && fresh(stagedTree)
        invariant staging == Inserts(ops[..i])
        invariant StagedAs(doc, ops[..i], result) && Applicable(doc, ops[..i])
        invariant StagedTree(stagedTree, journaled, base, file, staging, Apply(doc, ops[..i]))
      {
        var cancelled := Poll();
        if cancelled {
          return Failed(Aborted);
        }
        InsertsStep(ops, i);
        ghost var before := Apply(doc, ops[..i]);
        var staged := StageOne(stagedTree, journaled, base, file, staging, ops[i], maxInsertBytes, before);
        if staged.Failed? {
          StageRefused(doc, ops, i, result);
          return Failed(staged.error);
        }
        StageAccepted(doc, ops, i, result, staged.value);
        staging := staging + ops[i].insert;
        result := result + [staged.value];
        i := i + 1;
      }
      assert ops[..i] == ops;
      return Done(result);
    }

    /** ensureJournalLocked creates the journal of the base with the first edit. */
    method EnsureJournal() returns (r: Outcome<()>)
      requires Valid()
      modifies this`journal, this`journalBytes, tree`sources
      ensures Valid() && Document() == old(Document())
      ensures old(journal) != null ==> r.Done? && journal == old(journal) && File() == old(File())
      ensures r.Done? && old(journal) == null ==>
                journal != null && fresh(journal) && File() == FileHeader(fingerprint, crc)
      ensures r.Failed? ==> journal == null && r == Failed(JournalFailed) && journalBytes == old(journalBytes)
    {
      if journal != null {
        return Done(());
      }
      var failed: bool := *;
      if failed {
        return Failed(JournalFailed);
      }
      var created := new JournalFile(fingerprint, crc);
      JournalAttached(Refs(tree.root), base, created.bytes);
      journal := created;
      tree.SetSource(SOURCE_JOURNAL, TreeStore.Some(1));
      journalBytes := |created.bytes|;
      return Done(());
    }

    /** The pending entries of an appended batch, from the offsets that the append reports. */
    method BuildPending(b: Batch, appended: Appended, ghost at: nat) returns (added: seq<Pending>)
      requires ValidBatch(b) && AppendedAt(appended, at, b)
      ensures added == DecodedPending(DecodedOf(b, at))
    {
      added := [];
      var i := 0;
      while i < |b.ops|
        invariant 0 <= i <= |b.ops| && |added| == i
        invariant forall k :: 0 <= k < i ==> added[k] == DecodedPending(DecodedOf(b, at))[k]
      {
        DecodedFields(b.ops, at + BATCH_HEADER_SIZE + BATCH_RECORD_SIZE * |b.ops|, i);
        added := added + [Pending(b.firstRevision + i, b.group, b.ops[i].start, b.ops[i].deleteLength,
                                  appended.payloadOffsets[i], |b.ops[i].insert|)];
        i := i + 1;
      }
    }

    /** Undoes an append that is not going to be published. */
    method RepairAppend(appended: Appended, error: Error) returns (r: Outcome<()>)
      requires journal != null && FILE_HEADER_SIZE <= appended.batchOffset <= |journal.bytes| && error != RollbackFailed
      modifies journal
      ensures r.Failed? && (r.error == RollbackFailed || r.error == error)
      ensures journal.bytes == if r.error == error then old(journal.bytes)[..appended.batchOffset]
              else old(journal.bytes)
    {
      var repaired := journal.RepairTail(appended.batchOffset);
      return Failed(if repaired.Failure? then RollbackFailed else error);
    }

    /** Why an edit can be refused. The refusals of staging all mean that the operations do not fit the document. */
    ghost predicate Refusal(error: Error, doc: seq<byte>, ops: seq<Replace>)
      reads this
    {
      match error
      case InvalidText | OutOfRange | InvalidBoundary => !Stageable(doc, ops)
      case TooLong => !Stageable(doc, ops) || |Inserts(ops)| > MAX_INT64
      case InsertTooLong => exists i :: 0 <= i < |ops| && |ops[i].insert| > maxInsertBytes
      case Aborted | JournalFull | RevisionOverflow | JournalFailed | RollbackFailed | HistoryFailed => true
      case _ => false
    }

    /** The batch that ApplyOperations writes. */
    ghost function NextBatch(ops: seq<Replace>): Batch
      reads this
    {
      Batch(revision + 1, revision + 1, ops)
    }

    /** How long the journal is once it holds that batch; a batch that cannot be encoded adds nothing. */
    ghost function JournalNeed(ops: seq<Replace>): nat
      reads this, journal
    {
      (if journal == null then FILE_HEADER_SIZE else |journal.bytes|)
      + (if ValidBatch(NextBatch(ops)) then Size(NextBatch(ops)) else 0)
    }

    /** The texts of an edit fit behind those that the history holds. */
    ghost predicate HistoryFits(ops: seq<Replace>)
      reads this, tree, journal, history, history.store
    {
      UndoHistory.FitsBehind(history.File(), history.TextQuota(), Document(), ops)
    }

    /** A published edit is remembered: one more entry, which links the document before it with the present one, and no
        future any more. Of the documents before, the later ones are forgotten. */
    ghost predicate Remembered(undo: seq<UndoHistory.Entry>, versions: seq<seq<byte>>, doc: seq<byte>)
      reads this, tree, journal, history, history.store
    {
      && history.undo != [] && undo == history.undo[..|history.undo| - 1] && history.redo == []
      && UndoHistory.Links(history.File(), history.undo[|undo|], doc, Document())
      && |versions| > |undo| && history.Versions(Document()) == versions[..|undo| + 1] + [Document()]
    }

    /** Part of a batch, or all of it, is in the journal behind what was there before. */
    ghost predicate LeftBehind(b: Batch, before: seq<byte>)
      reads this, journal
    {
      ValidBatch(b) && Torn(before, File(), b, crc)
    }

    /** A batch has been published: it stands in the journal behind what was there, its entries are pending, and it has
        been applied to tree and document. */
    ghost predicate Published(b: Batch, file: seq<byte>, refs: seq<Ref>, waiting: seq<Pending>, doc: seq<byte>)
      reads this, tree, journal
    {
      && ValidBatch(b) && Stageable(doc, b.ops) && journal != null && File() == file + Encode(b, crc)
      && var added := DecodedPending(DecodedOf(b, |file|));
         && pending == waiting + added && Refs(tree.root) == SpliceAll(refs, added)
         && Document() == Apply(doc, b.ops)
    }

    /** applyOperationsLocked: stage, append to the journal, record both directions in the history, and only then
        publish tree, pending list and revision together. */
    method ApplyOperations(ops: seq<Replace>, recordHistory: bool) returns (r: Outcome<()>)
      requires Valid() && 0 < |ops| && InInt64(ops)
      requires history.Valid() && (recordHistory ==> history.Line(Document()))
      modifies this, tree, journal, history`undo, history`redo, history`epoch, history.store
      ensures (tree == old(tree) || fresh(tree)) && (journal == old(journal) || fresh(journal))
      ensures history.Valid() && (recordHistory && r != Failed(RollbackFailed) ==> history.Line(Document()))
      ensures !recordHistory || (r.Failed? && history.epoch == old(history.epoch)) ==>
                history.undo == old(history.undo) && history.redo == old(history.redo)
      ensures !recordHistory ==> history.File() == old(history.File()) && history.epoch == old(history.epoch)
      ensures recordHistory && r.Done? && history.epoch == old(history.epoch) ==>
                && old(HistoryFits(ops))
                && Remembered(old(history.undo), old(history.Versions(Document())), old(Document()))
      ensures recordHistory && history.epoch != old(history.epoch) ==> history.undo == history.redo == []
      ensures history.epoch != old(history.epoch) ==> !old(HistoryFits(ops))
      ensures r == Failed(RevisionOverflow) <==> old(revision) > MAX_UINT64 - |ops|
      ensures r == Failed(JournalFull) ==> old(JournalNeed(ops)) > maxJournalBytes
      ensures r.Done? ==> old(JournalNeed(ops)) == |File()| <= maxJournalBytes
      ensures r.Failed? ==> Refusal(r.error, old(Document()), ops)
      ensures r == Failed(RollbackFailed) || Valid()
      ensures r.Failed? && r.error != RollbackFailed ==>
                && Document() == old(Document()) && pending == old(pending) && revision == old(revision)
                && committedRevision == old(committedRevision) && Refs(tree.root) == old(Refs(tree.root))
                && (old(journal) != null ==> journal != null && File() == old(File()))
                && (old(journal) == null && journal != null ==> File() == FileHeader(fingerprint, crc))
                && (journal == null ==> journalBytes == old(journalBytes))
      ensures r == Failed(RollbackFailed) ==>
                && journal != null && Stageable(old(Document()), ops)
                && LeftBehind(old(NextBatch(ops)),
                              if old(journal) == null then FileHeader(old(fingerprint), crc) else old(File()))
                && pending == old(pending) && revision == old(revision) && committedRevision == old(committedRevision)
                && Refs(tree.root) == old(Refs(tree.root))
                && journalBytes == (if old(journal) == null then FILE_HEADER_SIZE else old(journalBytes))
      ensures recordHistory && r.Failed? && r.error != RollbackFailed && history.epoch == old(history.epoch) ==>
                history.Versions(Document()) == old(history.Versions(Document()))
      ensures r.Done? ==>
                Published(old(NextBatch(ops)),
                          if old(journal) == null then FileHeader(old(fingerprint), crc) else old(File()),
                          old(Refs(tree.root)), old(pending), old(Document()))
      ensures r.Done? ==>
                && revision == old(revision) + |ops| && committedRevision == old(committedRevision)
                && dirty
      ensures base == old(base) && hasBOM == old(hasBOM) && fingerprint == old(fingerprint)
    {
      hide Utf8.Valid, RuneLen, Resolve, Readable, Refs, Stageable, Apply, Applicable, Accepts, Inserts, StagedAs,
           Encode, FileHeader, ValidBatch, InFile, ReadOps, SpliceAll, DecodedOf, DecodedPending, TreeStore.ValidState,
           InInt64, UndoHistory.Past, UndoHistory.Future, UndoHistory.Lineage, UndoHistory.FitsBehind,
           UndoHistory.Links, Remembered, LeftBehind, Published, Size, JournalNeed, Document;
      var staged := StageForJournal(ops);
      if staged.Failed? {
        return Failed(staged.error);
      }
      r := AppendAndPublish(ops, staged.value, recordHistory);
    }

    /** The first half: staging, quotas, and a journal to append to. Nothing of the document changes. */
    method StageForJournal(ops: seq<Replace>) returns (r: Outcome<seq<Staged>>)
      requires Valid() && 0 < |ops| && InInt64(ops)
      modifies this`journal, this`journalBytes, tree`sources
      ensures journal == old(journal) || fresh(journal)
      ensures Valid() && Document() == old(Document())
      ensures old(journal) != null ==> journal == old(journal) && File() == old(File())
      ensures old(journal) == null && journal != null ==>
                journalBytes == FILE_HEADER_SIZE && File() == FileHeader(fingerprint, crc)
      ensures journal == null ==> journalBytes == old(journalBytes)
      ensures r.Done? ==>
                && journal != null && (old(journal) == null ==>
                     fresh(journal) && File() == FileHeader(fingerprint, crc))
                && revision <= MAX_UINT64 - |ops| && Stageable(Document(), ops) && StagedAs(Document(), ops, r.value)
                && (ValidBatch(NextBatch(ops)) ==> |journal.bytes| + Size(NextBatch(ops)) <= maxJournalBytes)
      ensures r.Failed? ==> r.error != RollbackFailed && Refusal(r.error, Document(), ops)
      ensures r == Failed(RevisionOverflow) <==> revision > MAX_UINT64 - |ops|
      ensures r == Failed(JournalFull) ==> old(JournalNeed(ops)) > maxJournalBytes
      ensures r.Done? ==> JournalNeed(ops) == old(JournalNeed(ops)) <= maxJournalBytes
    {
      hide Utf8.Valid, RuneLen, Resolve, Readable, Refs, Stageable, Apply, Applicable, Accepts, Inserts, StagedAs,
           FileHeader, ValidBatch, TreeStore.ValidState, InInt64, Document, Size;
      if revision > MAX_UINT64 - |ops| {
        return Failed(RevisionOverflow);
      }
      var staged := StageOperations(ops);
      if staged.Failed? {
        return Failed(staged.error);
      }
      UndoHistory.StagedStageable(Document(), ops, staged.value);
      var batchBytes := BatchBytes(ops);
      if (if journal == null then FILE_HEADER_SIZE else journalBytes) > maxJournalBytes - batchBytes {
        return Failed(JournalFull);
      }
      var cancelled := Poll();
      if cancelled {
        return Failed(Aborted);
      }
      var ensured := EnsureJournal();
      if ensured.Failed? {
        return Failed(ensured.error);
      }
      if journalBytes > maxJournalBytes - batchBytes {
        return Failed(JournalFull);
      }
      return staged;
    }

    /** What the batch adds to the journal; the error of a batch that cannot be encoded is ignored here. */
    method BatchBytes(ops: seq<Replace>) returns (n: nat)
      requires InInt64(ops) && revision < MAX_UINT64
      ensures n == if ValidBatch(NextBatch(ops)) then Size(NextBatch(ops)) else 0
    {
      hide ValidBatch, InInt64, Inserts;
      var group := revision + 1;
      var size := BatchPayloadSize(revision + 1, group, ops);
      n := if size.Failure? then 0 else BATCH_HEADER_SIZE + size.value;
    }

    /** The second half: everything after the journal exists. */
    method AppendAndPublish(ops: seq<Replace>, staged: seq<Staged>, recordHistory: bool) returns (r: Outcome<()>)
      requires Valid() && journal != null && 0 < |ops| && InInt64(ops) && revision <= MAX_UINT64 - |ops|
      requires Stageable(Document(), ops) && StagedAs(Document(), ops, staged)
      requires history.Valid() && (recordHistory ==> history.Line(Document()))
      requires ValidBatch(NextBatch(ops)) ==> |journal.bytes| + Size(NextBatch(ops)) <= maxJournalBytes
      modifies this`tree, this`revision, this`pending, this`dirty, this`journalBytes, journal
      modifies history`undo, history`redo, history`epoch, history.store
      ensures tree == old(tree) || fresh(tree)
      ensures history.Valid() && (recordHistory && r != Failed(RollbackFailed) ==> history.Line(Document()))
      ensures !recordHistory || (r.Failed? && history.epoch == old(history.epoch)) ==>
                history.undo == old(history.undo) && history.redo == old(history.redo)
      ensures !recordHistory ==> history.File() == old(history.File()) && history.epoch == old(history.epoch)
      ensures recordHistory && r.Done? && history.epoch == old(history.epoch) ==>
                && old(HistoryFits(ops))
                && Remembered(old(history.undo), old(history.Versions(Document())), old(Document()))
      ensures recordHistory && history.epoch != old(history.epoch) ==> history.undo == history.redo == []
      ensures history.epoch != old(history.epoch) ==> !old(HistoryFits(ops))
      ensures r.Failed? ==> r.error in {Aborted, JournalFailed, RollbackFailed, HistoryFailed}
      ensures r == Failed(RollbackFailed) || Valid()
      ensures r.Failed? && r.error != RollbackFailed ==>
                && Document() == old(Document()) && pending == old(pending) && revision == old(revision)
                && Refs(tree.root) == old(Refs(tree.root)) && File() == old(File())
      ensures r == Failed(RollbackFailed) ==>
                && LeftBehind(old(NextBatch(ops)), old(File()))
                && pending == old(pending) && revision == old(revision) && tree == old(tree)
                && journalBytes == old(journalBytes)
      ensures recordHistory && r.Failed? && r.error != RollbackFailed && history.epoch == old(history.epoch) ==>
                history.Versions(Document()) == old(history.Versions(Document()))
      ensures r.Done? ==>
                Published(old(NextBatch(ops)), old(File()), old(Refs(tree.root)), old(pending), old(Document()))
      ensures r.Done? ==> revision == old(revision) + |ops| && dirty && |File()| == old(JournalNeed(ops))
    {
      hide Utf8.Valid, RuneLen, Resolve, Readable, Refs, Stageable, Apply, Applicable, Accepts, Inserts, Encode,
           FileHeader, ValidBatch, InFile, ReadOps, SpliceAll, DecodedOf, Size, StagedAs, UndoHistory.Links,
           UndoHistory.Past, UndoHistory.Future, UndoHistory.Lineage, DecodedPending, TreeStore.ValidState, InInt64;
      ghost var before := journal.bytes;
      var appended := AppendToJournal(ops);
      if appended.Failed? {
        return Failed(appended.error);
      }
      WholeIsTorn(before, NextBatch(ops), crc);
      r := RecordAndPublish(Batch(revision + 1, revision + 1, ops), staged, recordHistory, appended.value, before);
    }

    /** The journal part: on failure the file is cut back. */
    method AppendToJournal(ops: seq<Replace>) returns (r: Outcome<Appended>)
      requires Valid() && journal != null && InInt64(ops) && revision <= MAX_UINT64 - |ops| && 0 < |ops|
      requires Stageable(Document(), ops)
      requires ValidBatch(NextBatch(ops)) ==> |journal.bytes| + Size(NextBatch(ops)) <= maxJournalBytes
      modifies journal
      ensures r.Failed? ==> r.error in {Aborted, JournalFailed, RollbackFailed}
      ensures r.Failed? && r.error != RollbackFailed ==> File() == old(File())
      ensures r == Failed(RollbackFailed) ==> LeftBehind(NextBatch(ops), old(File()))
      ensures r.Done? ==> AppendedBatch(NextBatch(ops), r.value, old(File()))
    {
      hide Utf8.Valid, RuneLen, Resolve, Readable, Refs, Stageable, Encode, ValidBatch, DecodedOf, Size,
           TreeStore.ValidState, InInt64;
      var append := journal.AppendBatch(revision + 1, revision + 1, ops);
      if append.Failure? {
        return Failed(if append.error == TruncateFailed then RollbackFailed else JournalFailed);
      }
      var cancelled := Poll();
      if cancelled {
        WholeIsTorn(old(journal.bytes), NextBatch(ops), crc);
        var repaired := RepairAppend(append.value, Aborted);
        return Failed(repaired.error);
      }
      return Done(append.value);
    }

    /** The rest: history, then publication, or the file is cut back. */
    method RecordAndPublish(b: Batch, staged: seq<Staged>, recordHistory: bool, appended: Appended,
                            ghost before: seq<byte>)
      returns (r: Outcome<()>)
      requires AppendedBatch(b, appended, before) && FILE_HEADER_SIZE <= |before|
      requires StagedAs(Resolve(Refs(tree.root), Sources(base, before)), b.ops, staged)
      requires history.Valid() && (recordHistory ==> history.Line(Resolve(Refs(tree.root), Sources(base, before))))
      modifies this`tree, this`revision, this`pending, this`dirty, this`journalBytes, journal
      modifies history`undo, history`redo, history`epoch, history.store
      ensures tree == old(tree) || fresh(tree)
      ensures history.Valid()
      ensures !recordHistory || (r.Failed? && history.epoch == old(history.epoch)) ==>
                history.undo == old(history.undo) && history.redo == old(history.redo)
      ensures !recordHistory ==> history.File() == old(history.File()) && history.epoch == old(history.epoch)
      ensures recordHistory && r.Done? && history.epoch == old(history.epoch) ==>
                var doc := Resolve(old(Refs(tree.root)), Sources(base, before));
                Remembered(old(history.undo), old(history.Versions(Resolve(Refs(tree.root), Sources(base, before)))),
                           doc)
      ensures recordHistory && history.epoch != old(history.epoch) ==> history.undo == history.redo == []
      ensures history.epoch != old(history.epoch) ==>
                !old(UndoHistory.FitsBehind(history.File(), history.TextQuota(),
                                            Resolve(Refs(tree.root), Sources(base, before)), b.ops))
      ensures recordHistory && r.Done? ==>
                (history.epoch == old(history.epoch) <==>
                 old(UndoHistory.FitsBehind(history.File(), history.TextQuota(),
                                            Resolve(Refs(tree.root), Sources(base, before)), b.ops)))
      ensures r.Failed? ==>
                && r.error in {Aborted, RollbackFailed, HistoryFailed}
                && pending == old(pending) && revision == old(revision) && tree == old(tree) && dirty == old(dirty)
                && journalBytes == old(journalBytes)
                && File() == (if r.error == RollbackFailed then old(File()) else before)
                && (recordHistory ==> history.Line(Resolve(Refs(tree.root), Sources(base, before))))
                && (recordHistory && history.epoch == old(history.epoch) ==>
                      history.Versions(Resolve(Refs(tree.root), Sources(base, before)))
                      == old(history.Versions(Resolve(Refs(tree.root), Sources(base, before)))))
      ensures r.Done? ==>
                && Valid() && journal == old(journal) && File() == old(File())
                && revision == old(revision) + |b.ops| && dirty
                && (recordHistory ==> history.Line(Document()))
                && var added := DecodedPending(DecodedOf(b, |before|));
                   && pending == old(pending) + added
                   && Refs(tree.root) == SpliceAll(old(Refs(tree.root)), added)
                   && Document() == Apply(Resolve(old(Refs(tree.root)), Sources(base, before)), b.ops)
    {
      hide Utf8.Valid, RuneLen, Resolve, Readable, Refs, Stageable, Apply, Applicable, Accepts, Inserts, Encode,
           FileHeader, ValidBatch, InFile, ReadOps, SpliceAll, DecodedOf, Size, StagedAs, UndoHistory.Links,
           UndoHistory.Past, UndoHistory.Future, UndoHistory.Lineage, DecodedPending, TreeStore.ValidState, InInt64;
      ghost var doc := Resolve(Refs(tree.root), Sources(base, before));
      var epoch := history.epoch;
      var entry := UndoHistory.Entry([], []);
      BatchCount(b, 0);
      if recordHistory {
        var recorded := history.RecordBatch(staged, doc, b.ops);
        if recorded.Failure? {
          r := RepairAppend(appended, if recorded.error == UndoHistory.Cancelled then Aborted else HistoryFailed);
          return;
        }
        entry := recorded.value;
      }
      PublishBatch(b, appended, before);
      if recordHistory && epoch == history.epoch {
        history.Push(entry, doc, Document());
      } else if recordHistory {
        UndoHistory.EmptyLine(history.File(), Document());
      }
      return Done(());
    }

    /** The conditions under which undo and redo work: a valid session whose two stacks lead through its document. */
    ghost predicate Tracked()
      reads this, tree, journal, history, history.store
    {
      Valid() && history.Valid() && history.Line(Document())
    }

    /** What undo and redo have in common: the operations of an entry are read back and applied as an edit that is not
        recorded. */
    method ApplyHistory(ops: seq<UndoHistory.HistoryOperation>) returns (r: Outcome<()>)
      requires Valid() && history.Valid() && ops != [] && UndoHistory.Stored(history.File(), ops)
      requires Stageable(Document(), UndoHistory.Materialized(history.File(), ops))
      modifies this, tree, journal, history`undo, history`redo, history`epoch, history.store
      ensures (tree == old(tree) || fresh(tree)) && (journal == old(journal) || fresh(journal))
      ensures history.Valid() && history.undo == old(history.undo) && history.redo == old(history.redo)
      ensures history.File() == old(history.File()) && history.epoch == old(history.epoch)
      ensures r == Failed(RollbackFailed) || Valid()
      ensures r.Done? ==>
                && revision > old(revision)
                && Document() == old(Apply(Document(), UndoHistory.Materialized(history.File(), ops)))
      ensures r.Failed? && r.error != RollbackFailed ==> Document() == old(Document()) && revision == old(revision)
      ensures r.Failed? ==> r.error !in {InvalidText, OutOfRange, InvalidBoundary, NothingToUndo, NothingToRedo}
      ensures r == Failed(JournalFull) ==>
                old(JournalNeed(UndoHistory.Materialized(history.File(), ops))) > maxJournalBytes
    {
      hide Utf8.Valid, RuneLen, Resolve, Readable, Refs, Stageable, Apply, Applicable, Accepts, Encode, FileHeader,
           ValidBatch, SpliceAll, DecodedOf, DecodedPending, TreeStore.ValidState, InInt64, UndoHistory.Materialized;
      ghost var doc := Document();
      StageableApplicable(doc, UndoHistory.Materialized(history.File(), ops));
      var operations := history.Materialize(ops);
      if operations.Failure? {
        return Failed(if operations.error == UndoHistory.Cancelled then Aborted else HistoryFailed);
      }
      StageableInInt64(doc, operations.value);
      r := ApplyOperations(operations.value, false);
    }

    /** UndoContext: the newest inverse transaction is applied as an edit, and its entry changes sides: the document is
        the one before it in the line, and the line stays. Staging never refuses it, and a failure leaves the document
        and both stacks as they were. */
    method Undo() returns (r: Outcome<()>)
      requires Tracked()
      modifies this, tree, journal, history`undo, history`redo, history`epoch, history.store
      ensures (tree == old(tree) || fresh(tree)) && (journal == old(journal) || fresh(journal))
      ensures r != Failed(RollbackFailed) ==> Tracked()
      ensures r.Done? ==>
                && old(history.undo) != [] && revision > old(revision)
                && history.undo == old(history.undo)[..|old(history.undo)| - 1]
                && history.redo == old(history.redo) + [old(history.undo)[|old(history.undo)| - 1]]
      ensures r.Done? ==>
                && Document() == old(Apply(Document(),
                                           UndoHistory.Materialized(history.File(),
                                                                    history.undo[|history.undo| - 1].inverse)))
                && Document() == old(history.Versions(Document()))[|old(history.undo)| - 1]
      ensures r != Failed(RollbackFailed) ==> history.Versions(Document()) == old(history.Versions(Document()))
      ensures r.Failed? && r.error != RollbackFailed ==>
                && Document() == old(Document()) && revision == old(revision)
                && history.undo == old(history.undo) && history.redo == old(history.redo)
      ensures history.epoch == old(history.epoch)
      ensures r == Failed(NothingToUndo) <==> old(history.undo) == []
      ensures r.Failed? ==> r.error !in {InvalidText, OutOfRange, InvalidBoundary}
      ensures r == Failed(JournalFull) ==>
                old(JournalNeed(UndoHistory.Materialized(history.File(),
                                                         history.undo[|history.undo| - 1].inverse))) > maxJournalBytes
    {
      hide Utf8.Valid, RuneLen, Resolve, Readable, Refs, Stageable, Apply, Applicable, Accepts, Encode, FileHeader,
           ValidBatch, SpliceAll, DecodedOf, DecodedPending, TreeStore.ValidState, InInt64, UndoHistory.Past,
           UndoHistory.Future, UndoHistory.Lineage, UndoHistory.Materialized, UndoHistory.Links, UndoHistory.Stored;
      if |history.undo| == 0 {
        return Failed(NothingToUndo);
      }
      var last := |history.undo| - 1;
      var entry := history.undo[last];
      ghost var doc := Document();
      UndoHistory.UndoMoves(history.File(), history.undo, history.redo, doc);
      r := ApplyHistory(entry.inverse);
      if r.Failed? {
        return;
      }
      history.undo := history.undo[..last];
      history.redo := history.redo + [entry];
    }

    /** RedoContext: the mirror image. The document is the next one in the line. */
    method Redo() returns (r: Outcome<()>)
      requires Tracked()
      modifies this, tree, journal, history`undo, history`redo, history`epoch, history.store
      ensures (tree == old(tree) || fresh(tree)) && (journal == old(journal) || fresh(journal))
      ensures r != Failed(RollbackFailed) ==> Tracked()
      ensures r.Done? ==>
                && old(history.redo) != [] && revision > old(revision)
                && history.redo == old(history.redo)[..|old(history.redo)| - 1]
                && history.undo == old(history.undo) + [old(history.redo)[|old(history.redo)| - 1]]
      ensures r.Done? ==>
                && Document() == old(Apply(Document(),
                                           UndoHistory.Materialized(history.File(),
                                                                    history.redo[|history.redo| - 1].forward)))
                && Document() == old(history.Versions(Document()))[|old(history.undo)| + 1]
      ensures r != Failed(RollbackFailed) ==> history.Versions(Document()) == old(history.Versions(Document()))
      ensures r.Failed? && r.error != RollbackFailed ==>
                && Document() == old(Document()) && revision == old(revision)
                && history.undo == old(history.undo) && history.redo == old(history.redo)
      ensures history.epoch == old(history.epoch)
      ensures r == Failed(NothingToRedo) <==> old(history.redo) == []
      ensures r.Failed? ==> r.error !in {InvalidText, OutOfRange, InvalidBoundary}
      ensures r == Failed(JournalFull) ==>
                old(JournalNeed(UndoHistory.Materialized(history.File(),
                                                         history.redo[|history.redo| - 1].forward))) > maxJournalBytes
    {
      hide Utf8.Valid, RuneLen, Resolve, Readable, Refs, Stageable, Apply, Applicable, Accepts, Encode, FileHeader,
           ValidBatch, SpliceAll, DecodedOf, DecodedPending, TreeStore.ValidState, InInt64, UndoHistory.Past,
           UndoHistory.Future, UndoHistory.Lineage, UndoHistory.Materialized, UndoHistory.Links, UndoHistory.Stored;
      if |history.redo| == 0 {
        return Failed(NothingToRedo);
      }
      var last := |history.redo| - 1;
      var entry := history.redo[last];
      ghost var doc := Document();
      UndoHistory.RedoMoves(history.File(), history.undo, history.redo, doc);
      r := ApplyHistory(entry.forward);
      if r.Failed? {
        return;
      }
      history.redo := history.redo[..last];
      history.undo := history.undo + [entry];
    }

    /** Compact: the undo store shrinks to the live texts and the tree loses needless pieces; the document, the line of
        documents around it and the operations of every entry stay. */
    method Compact() returns (r: Outcome<()>)
      requires Tracked()
      modifies tree, history`undo, history`redo, history.store
      ensures Tracked() && Document() == old(Document()) && Refs(tree.root) == old(Refs(tree.root))
      ensures history.Versions(Document()) == old(history.Versions(Document()))
      ensures UndoHistory.SameOperations(old(history.File()), old(history.undo), history.File(), history.undo)
      ensures UndoHistory.SameOperations(old(history.File()), old(history.redo), history.File(), history.redo)
      ensures r.Done? ==> Compacted(Pieces(tree.root))
      ensures r.Failed? ==>
                && history.undo == old(history.undo) && history.redo == old(history.redo)
                && tree.root == old(tree.root)
    {
      hide Utf8.Valid, RuneLen, Resolve, Readable, Refs, UndoHistory.Past, UndoHistory.Future, UndoHistory.Lineage;
      var rewritten := history.CompactStore(Document());
      if rewritten.Failure? {
        return Failed(if rewritten.error == UndoHistory.Cancelled then Aborted else HistoryFailed);
      }
      var compacted := tree.Compact();
      return Done(());
    }

    /** What the session must be for a batch that stands whole behind the journal it had before. */
    ghost predicate AppendedBatch(b: Batch, appended: Appended, before: seq<byte>)
      reads this, tree, journal
    {
      && tree.Valid() && tree.sources == Bindings(true) && journal != null && journal.crc == crc
      && Readable(Refs(tree.root), World(tree.sources, Files(base, before, [])))
      && Utf8.Valid(Resolve(Refs(tree.root), Sources(base, before)))
      && ValidFingerprint(fingerprint) && maxJournalBytes <= MAX_INT64
      && revision == committedRevision + |pending| && revision + |b.ops| <= MAX_UINT64
      && ValidBatch(b) && b.firstRevision == b.group == revision + 1 && AppendedAt(appended, |before|, b)
      && journal.bytes == before + Encode(b, crc) && FILE_HEADER_SIZE <= |journal.bytes| <= MAX_INT64
      && Stageable(Resolve(Refs(tree.root), Sources(base, before)), b.ops)
    }

    /** Publication: the new tree, the pending entries and the revision change together. */
    method PublishBatch(b: Batch, appended: Appended, ghost before: seq<byte>)
      requires AppendedBatch(b, appended, before)
      modifies this`tree, this`revision, this`pending, this`dirty, this`journalBytes
      ensures fresh(tree)
      ensures Valid()
      ensures var added := DecodedPending(DecodedOf(b, |before|));
              && pending == old(pending) + added
              && Refs(tree.root) == SpliceAll(old(Refs(tree.root)), added)
              && Document() == Apply(Resolve(old(Refs(tree.root)), Sources(base, before)), b.ops)
      ensures revision == old(revision) + |b.ops| && dirty
    {
      hide Utf8.Valid, RuneLen, Resolve, Readable, Refs, Stageable, Apply, Applicable, Accepts, Inserts, Encode,
           FileHeader, ValidBatch, InFile, ReadOps, SpliceAll, DecodedOf;
      var added := BuildPending(b, appended, |before|);
      BatchCount(b, |before|);
      ReadAppended(before, b, crc);
      JournalAppended(Refs(tree.root), base, before, Encode(b, crc));
      MoreSources(Refs(tree.root), true, base, journal.bytes, []);
      ghost var refs := Refs(tree.root);
      var finalTree := CloneTree(tree);
      ReplaceAll(finalTree, added, base, journal.bytes);
      PublishedDocument(refs, added, base, journal.bytes);
      tree := finalTree;
      journalBytes := appended.endOffset;
      pending := pending + added;
      revision := revision + |b.ops|;
      dirty := revision > committedRevision;
    }
  }

  /** What a host gets from an edit, an undo and a redo in a row, when the edit fits the history: the undo brings back
      the document before the edit, and the redo the one that the edit made. Neither finds its stack empty. */
  method EditUndoRedo(s: Session, ops: seq<Replace>)
    returns (edit: Outcome<()>, undo: Outcome<()>, redo: Outcome<()>, ghost undone: seq<byte>)
    requires s.Tracked() && 0 < |ops| && InInt64(ops)
    modifies s, s.tree, s.journal, s.history`undo, s.history`redo, s.history`epoch, s.history.store
    ensures edit.Done? && old(s.HistoryFits(ops)) ==> undo != Failed(NothingToUndo)
    ensures edit.Done? && old(s.HistoryFits(ops)) && undo.Done? ==>
              undone == old(s.Document()) && redo != Failed(NothingToRedo)
    ensures edit.Done? && old(s.HistoryFits(ops)) && undo.Done? && redo.Done? ==>
              Stageable(old(s.Document()), ops) && s.Document() == Apply(old(s.Document()), ops)
  {
    hide Utf8.Valid, RuneLen, Stageable, Apply, Applicable, Encode, FileHeader, ValidBatch, SpliceAll, DecodedOf,
         DecodedPending, UndoHistory.Lineage, UndoHistory.Links, UndoHistory.Materialized, Session.Valid,
         Session.Document, UndoHistory.History.Line;
    undo, redo, undone := Failed(NothingToUndo), Failed(NothingToRedo), [];
    edit := s.ApplyOperations(ops, true);
    if edit.Failed? {
      return;
    }
    undo := s.Undo();
    if undo.Failed? {
      return;
    }
    undone := s.Document();
    redo := s.Redo();
  }

  /** Undo until there is nothing to undo: if nothing else goes wrong, the document is the first one of the line, and
      the whole line lies ahead. */
  method UndoAll(s: Session) returns (r: Outcome<()>)
    requires s.Tracked()
    modifies s, s.tree, s.journal, s.history`undo, s.history`redo, s.history`epoch, s.history.store
    ensures (s.tree == old(s.tree) || fresh(s.tree)) && (s.journal == old(s.journal) || fresh(s.journal))
    ensures r.Failed?
    ensures r != Failed(RollbackFailed) ==>
              s.Tracked() && s.history.Versions(s.Document()) == old(s.history.Versions(s.Document()))
    ensures r == Failed(NothingToUndo) ==>
              s.history.undo == [] && s.Document() == old(s.history.Versions(s.Document()))[0]
  {
    hide Session.Valid, Session.Document, UndoHistory.History.Line, UndoHistory.Lineage, Apply, Applicable,
         UndoHistory.Materialized;
    r := s.Undo();
    while r.Done?
      invariant (s.tree == old(s.tree) || fresh(s.tree)) && (s.journal == old(s.journal) || fresh(s.journal))
      invariant r != Failed(RollbackFailed) ==>
                  s.Tracked() && s.history.Versions(s.Document()) == old(s.history.Versions(s.Document()))
      invariant r == Failed(NothingToUndo) ==> s.history.undo == []
      decreases r.Done?, |s.history.undo|
    {
      r := s.Undo();
    }
  }

  /** Redo until there is nothing to redo: the document is the last one of the line. */
  method RedoAll(s: Session) returns (r: Outcome<()>)
    requires s.Tracked()
    modifies s, s.tree, s.journal, s.history`undo, s.history`redo, s.history`epoch, s.history.store
    ensures (s.tree == old(s.tree) || fresh(s.tree)) && (s.journal == old(s.journal) || fresh(s.journal))
    ensures r.Failed?
    ensures r != Failed(RollbackFailed) ==>
              s.Tracked() && s.history.Versions(s.Document()) == old(s.history.Versions(s.Document()))
    ensures r == Failed(NothingToRedo) ==>
              var versions := old(s.history.Versions(s.Document()));
              s.history.redo == [] && |versions| > 0 && s.Document() == versions[|versions| - 1]
  {
    hide Session.Valid, Session.Document, UndoHistory.History.Line, UndoHistory.Lineage, Apply, Applicable,
         UndoHistory.Materialized;
    r := s.Redo();
    while r.Done?
      invariant (s.tree == old(s.tree) || fresh(s.tree)) && (s.journal == old(s.journal) || fresh(s.journal))
      invariant r != Failed(RollbackFailed) ==>
                  s.Tracked() && s.history.Versions(s.Document()) == old(s.history.Versions(s.Document()))
      invariant r == Failed(NothingToRedo) ==> s.history.redo == []
      decreases r.Done?, |s.history.redo|
    {
      r := s.Redo();
    }
  }

  /** The full round trip: after any edits, all the way back and all the way forward again gives the document at which
      it began, when that was the newest one. In between the document is the oldest that the history remembers. */
  method UndoAllRedoAll(s: Session) returns (back: Outcome<()>, forth: Outcome<()>)
    requires s.Tracked() && s.history.redo == []
    modifies s, s.tree, s.journal, s.history`undo, s.history`redo, s.history`epoch, s.history.store
    ensures back == Failed(NothingToUndo) && forth == Failed(NothingToRedo) ==>
              && s.Tracked() && s.Document() == old(s.Document())
              && s.history.redo == [] && |s.history.undo| == |old(s.history.undo)|
  {
    hide Session.Valid, Session.Document, UndoHistory.History.Line, UndoHistory.Lineage, Apply, Applicable,
         UndoHistory.Materialized;
    forth := Failed(NothingToUndo);
    back := UndoAll(s);
    if back == Failed(NothingToUndo) {
      forth := RedoAll(s);
    }
  }

  lemma WholeIsTorn(before: seq<byte>, b: Batch, crc: Checksum)
    requires ValidBatch(b)
    ensures Torn(before, before + Encode(b, crc), b, crc)
  {
    assert Encode(b, crc)[..|Encode(b, crc)|] == Encode(b, crc);
  }

  /** The document of a tree with accepted operations spliced in. */
  lemma PublishedDocument(refs: seq<Ref>, added: seq<Pending>, base: seq<byte>, file: seq<byte>)
    requires InFile(file, added) && Readable(refs, Sources(base, file))
    requires Stageable(Resolve(refs, Sources(base, file)), ReadOps(file, added))
             && Utf8.Valid(Resolve(refs, Sources(base, file)))
    ensures Readable(SpliceAll(refs, added), World(Bindings(true), Files(base, file, [])))
    ensures Applicable(Resolve(refs, Sources(base, file)), ReadOps(file, added))
    ensures Resolve(SpliceAll(refs, added), Sources(base, file))
            == Apply(Resolve(refs, Sources(base, file)), ReadOps(file, added))
    ensures Utf8.Valid(Resolve(SpliceAll(refs, added), Sources(base, file)))
  {
    hide Resolve, Apply, SpliceAll, Utf8.Valid, RuneLen, InFile, ReadOps;
    SpliceAllApplies(refs, added, base, file);
    AcceptedKeepsValid(Resolve(refs, Sources(base, file)), ReadOps(file, added));
    assert World(Bindings(true), Files(base, file, [])).sources == Sources(base, file).sources;
    SameReadable(SpliceAll(refs, added), base, file);
  }

  lemma SameReadable(refs: seq<Ref>, base: seq<byte>, file: seq<byte>)
    ensures Readable(refs, World(Bindings(true), Files(base, file, []))) <==> Readable(refs, Sources(base, file))
  {
  }

  /** Accepted coordinates are coordinates of a document whose length fits in an int64. */
  lemma StageableInInt64(doc: seq<byte>, ops: seq<Replace>)
    requires Stageable(doc, ops)
    ensures InInt64(ops)
  {
    hide Stageable, Accepts, Apply, Applicable;
    forall i | 0 <= i < |ops|
      ensures ops[i].start <= MAX_INT64 && ops[i].deleteLength <= MAX_INT64
    {
      AcceptedAt(doc, ops, i);
      AcceptsFits(Apply(doc, ops[..i]), ops[i]);
      StageableLength(doc, ops[..i]);
    }
  }

  lemma StageableLength(doc: seq<byte>, ops: seq<Replace>)
    requires Stageable(doc, ops)
    ensures Applicable(doc, ops) && |Apply(doc, ops)| <= MAX_INT64
  {
  }

  /** An appended batch reads back from where it was put. */
  lemma ReadAppended(file: seq<byte>, b: Batch, crc: Checksum)
    requires ValidBatch(b)
    ensures var added := DecodedPending(DecodedOf(b, |file|));
            |added| == |b.ops| && InFile(file + Encode(b, crc), added) && ReadOps(file + Encode(b, crc), added) == b.ops
  {
    hide Encode;
    Cut(file, Encode(b, crc), []);
    assert file + Encode(b, crc) + [] == file + Encode(b, crc);
    ReadBatchOps(file + Encode(b, crc), b, |file|, crc);
  }

  /** A journal that nothing refers to yet changes no document. */
  lemma JournalAttached(refs: seq<Ref>, base: seq<byte>, file: seq<byte>)
    requires Readable(refs, World(Bindings(false), Files(base, [], [])))
    ensures Readable(refs, World(Bindings(true), Files(base, file, [])))
    ensures Resolve(refs, Sources(base, file)) == Resolve(refs, Sources(base, []))
  {
  }

  /** More bytes behind the journal change no document. */
  lemma JournalAppended(refs: seq<Ref>, base: seq<byte>, file: seq<byte>, more: seq<byte>)
    requires Readable(refs, World(Bindings(true), Files(base, file, [])))
    ensures Readable(refs, World(Bindings(true), Files(base, file + more, [])))
    ensures Resolve(refs, Sources(base, file + more)) == Resolve(refs, Sources(base, file))
  {
  }

  lemma StageStart(s: Session, stagedTree: TreeStore.Tree, ops: seq<Replace>)
    requires s.Valid() && stagedTree.Valid() && stagedTree.root == s.tree.root && stagedTree.sources == s.tree.sources
    ensures Inserts(ops[..0]) == [] && Applicable(s.Document(), ops[..0]) && StagedAs(s.Document(), ops[..0], [])
    ensures StagedTree(stagedTree, s.journal != null, s.base, s.File(), [], Apply(s.Document(), ops[..0]))
  {
    MoreSources(Refs(s.tree.root), s.journal != null, s.base, s.File(), []);
    CachedSums(s.tree.root, Sources(s.base, s.File()));
  }

  lemma StageRefused(doc: seq<byte>, ops: seq<Replace>, i: nat, done: seq<Staged>)
    requires i < |ops| && StagedAs(doc, ops[..i], done)
    ensures Applicable(doc, ops[..i])
    ensures !Accepts(Apply(doc, ops[..i]), ops[i]) ==> !Stageable(doc, ops)
  {
    if !Accepts(Apply(doc, ops[..i]), ops[i]) {
      Refused(doc, ops, i);
    }
  }

  lemma StageAccepted(doc: seq<byte>, ops: seq<Replace>, i: nat, done: seq<Staged>, staged: Staged)
    requires i < |ops| && StagedAs(doc, ops[..i], done) && Applicable(doc, ops[..i])
    requires Accepts(Apply(doc, ops[..i]), ops[i])
    requires staged == Staged(ops[i], Apply(doc, ops[..i])[ops[i].start..ops[i].start + ops[i].deleteLength])
    ensures StagedAs(doc, ops[..i + 1], done + [staged]) && Applicable(doc, ops[..i + 1])
    ensures Apply(doc, ops[..i + 1]) == ApplyOne(Apply(doc, ops[..i]), ops[i])
  {
    hide Stageable, Accepts, Apply, Applicable;
    StageableStep(doc, ops, i);
    StageableApplicable(doc, ops[..i + 1]);
    AcceptsFits(Apply(doc, ops[..i]), ops[i]);
    var next := ops[..i + 1];
    forall k | 0 <= k < i + 1
      ensures next[..k] == ops[..k] && (k < i ==> ops[..i][..k] == ops[..k] && ops[..i][k] == next[k])
    {
    }
  }

  lemma StageableApplicable(doc: seq<byte>, ops: seq<Replace>)
    requires Stageable(doc, ops)
    ensures Applicable(doc, ops)
  {
  }
}
