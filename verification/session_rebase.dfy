/** The loops of a save's boundary and of reopening: rebasing newer edits, switching the base, replaying a journal,
    and choosing the journal to replay. */
module SessionRebase {
  import opened Documents
  import opened Utf8
  import opened PieceTree
  import TreeStore
  import opened Journal
  import opened JournalFiles
  import opened SessionLog
  import opened Sessions
  import opened SaveSteps
  import BaseScan
  import P = SessionProtocol
  import R = SessionRecovery
  import Inv = SessionInvariant
  import H = UndoHistory

  /** A journal that is ready for a new base. */
  datatype Prepared = Prepared(journal: JournalFile, pending: seq<Pending>, bytes: nat)

  /** The entries newer than the snapshot, in order. */
  method NewerThan(pending: seq<Pending>, target: nat) returns (r: Outcome<seq<Pending>>)
    ensures r.Done? ==> r.value == P.Newer(pending, target)
  {
    var newer: seq<Pending> := [];
    var i := 0;
    while i < |pending|
      invariant 0 <= i <= |pending|
      invariant newer == P.Newer(pending[..i], target)
    {
      var cancelled: bool := *;
      if cancelled {
        return Failed(Aborted);
      }
      assert pending[..i + 1][..i] == pending[..i];
      if pending[i].revision > target {
        newer := newer + [pending[i]];
      }
      i := i + 1;
    }
    assert pending[..i] == pending;
    return Done(newer);
  }

  /** Where the group that begins at first ends. */
  method GroupEnd(newer: seq<Pending>, first: nat) returns (last: nat)
    requires first < |newer|
    ensures first < last <= |newer| && last - first == P.RunLength(newer[first..])
  {
    last := first + 1;
    while last < |newer| && newer[last].group == newer[first].group
      invariant first < last <= |newer|
      invariant forall i :: first <= i < last ==> newer[i].group == newer[first].group
    {
      last := last + 1;
    }
    RunLengthIs(newer[first..], last - first);
  }

  /** The operations of one group, their inserted bytes read from the old journal. */
  method ReadGroup(file: seq<byte>, newer: seq<Pending>, first: nat, last: nat) returns (r: Outcome<seq<Replace>>)
    requires first <= last <= |newer| && InFile(file, newer)
    ensures r.Done? ==> InFile(file, newer[first..last]) && r.value == ReadOps(file, newer[first..last])
  {
    var batch: seq<Replace> := [];
    var index := first;
    while index < last
      invariant first <= index <= last
      invariant |batch| == index - first
      invariant forall i :: 0 <= i < |batch| ==> batch[i] == ReadOp(file, newer[first + i])
    {
      var cancelled: bool := *;
      if cancelled {
        return Failed(Aborted);
      }
      batch := batch + [ReadOp(file, newer[index])];
      index := index + 1;
    }
    return Done(batch);
  }

  /** Entries that point into the new journal. */
  method MoveGroup(newer: seq<Pending>, first: nat, last: nat, ghost b: Batch, appended: Appended, ghost at: nat)
    returns (moved: seq<Pending>)
    requires first <= last <= |newer| && ValidBatch(b) && |b.ops| == last - first && AppendedAt(appended, at, b)
    ensures moved == P.RebasedTo(newer[first..last], b, at)
  {
    moved := [];
    var index := first;
    while index < last
      invariant first <= index <= last && |moved| == index - first
      invariant forall i :: 0 <= i < |moved| ==>
                  moved[i] == newer[first + i].(insertOffset := DecodedOf(b, at).ops[i].payloadOffset)
    {
      moved := moved + [newer[index].(insertOffset := appended.payloadOffsets[index - first])];
      index := index + 1;
    }
  }

  /** What is known between two groups of the rebase: batches up to k are in the new journal. */
  ghost predicate CopiedUpTo(file: seq<byte>, header: seq<byte>, moved: seq<Pending>, rest: seq<Pending>,
                             pending: seq<Pending>, log: seq<Batch>, cut: nat, k: nat, crc: Checksum)
  {
    && cut <= k <= |log| && AllValid(log[cut..k])
    && file == header + EncodeAll(log[cut..k], crc)
    && moved == LogPending(log[cut..k], FILE_HEADER_SIZE)
    && |OpsOf(log[..k])| <= |pending| && rest == pending[|OpsOf(log[..k])|..]
  }

  lemma CopyOne(file: seq<byte>, header: seq<byte>, moved: seq<Pending>, rest: seq<Pending>, pending: seq<Pending>,
                log: seq<Batch>, cut: nat, k: nat, crc: Checksum, from: nat)
    requires CopiedUpTo(file, header, moved, rest, pending, log, cut, k, crc) && |header| == FILE_HEADER_SIZE
    requires k < |log| && ValidBatch(log[k]) && |log[k].ops| <= |rest|
    requires rest[..|log[k].ops|] == DecodedPending(DecodedOf(log[k], from))
    requires |OpsOf(log[..k + 1])| <= |pending| && rest[|log[k].ops|..] == pending[|OpsOf(log[..k + 1])|..]
    ensures CopiedUpTo(file + Encode(log[k], crc), header, moved + P.RebasedTo(rest[..|log[k].ops|], log[k], |file|),
                       rest[|log[k].ops|..], pending, log, cut, k + 1, crc)
  {
    hide ValidBatch, Encode, EncodeAll, LogPending, DecodedOf, OpsOf, P.RebasedTo, Size, TotalSize;
    var done, b := log[cut..k], log[k];
    assert log[cut..k + 1] == done + [b];
    EncodeAllSnoc(done, b, crc);
    assert header + EncodeAll(done, crc) + Encode(b, crc) == header + (EncodeAll(done, crc) + Encode(b, crc));
    LogPendingSnoc(done, b, FILE_HEADER_SIZE);
    RebasedIs(b, from, FILE_HEADER_SIZE + TotalSize(done));
  }

  /** prepareJournalRebaseLocked: the new journal holds, group by group, exactly the batches after the snapshot;
      the pending entries are the same operations at their new places. The session is not touched. */
  method PrepareJournalRebase(s: Session, fingerprint: Fingerprint, target: nat, ghost log: seq<Batch>,
                              ghost committed: nat, ghost cut: nat)
    returns (r: Outcome<Prepared>)
    requires s.Valid() && s.journal != null && ValidFingerprint(fingerprint)
    requires Chained(log, committed) && AllValid(log) && s.pending == LogPending(log, FILE_HEADER_SIZE)
    requires InFile(s.File(), s.pending) && ReadOps(s.File(), s.pending) == OpsOf(log)
    requires cut <= |log| && target == committed + |OpsOf(log[..cut])|
    requires committed + |OpsOf(log)| <= MAX_UINT64
    ensures r.Done? ==>
              && fresh(r.value.journal) && r.value.journal.crc == s.crc && AllValid(log[cut..])
              && r.value.journal.bytes == FileHeader(fingerprint, s.crc) + EncodeAll(log[cut..], s.crc)
              && r.value.pending == LogPending(log[cut..], FILE_HEADER_SIZE)
              && r.value.bytes == |r.value.journal.bytes|
  {
    hide ValidBatch, Encode, EncodeAll, LogPending, DecodedOf, OpsOf, P.RebasedTo, P.RunLength, Size, TotalSize,
         FileHeader, ReadOps, InFile, Chained, CopiedUpTo, Resolve, TreeStore.ValidState, P.Newer, InInt64, Torn,
         AppendedAt, NextIs, DecodedPending, Utf8.Valid, Readable, Refs;
    var newer := NewerThan(s.pending, target);
    if newer.Failed? {
      return Failed(newer.error);
    }
    PrepareStart(s.pending, log, committed, cut, s.File(), fingerprint, s.crc);
    var failed: bool := *;
    if failed {
      return Failed(JournalFailed);
    }
    var journal := new JournalFile(fingerprint, s.crc);
    var header := journal.bytes;
    var moved: seq<Pending> := [];
    var first := 0;
    ghost var k: nat := cut;
    while first < |newer.value|
      invariant 0 <= first <= |newer.value| && fresh(journal) && journal.crc == s.crc
      invariant CopiedUpTo(journal.bytes, header, moved, newer.value[first..], s.pending, log, cut, k, s.crc)
      invariant InFile(s.File(), newer.value)
    {
      CopyFacts(s.File(), journal.bytes, header, moved, newer.value[first..], s.pending, log, committed, cut, k, s.crc);
      var last := GroupEnd(newer.value, first);
      var batch := ReadGroup(s.journal.bytes, newer.value, first, last);
      if batch.Failed? {
        return Failed(batch.error);
      }
      assert newer.value[first..last] == newer.value[first..][..last - first];
      ghost var b := log[k];
      ghost var before := journal.bytes;
      var appended := journal.AppendBatch(newer.value[first].revision, newer.value[first].group, batch.value);
      if appended.Failure? {
        return Failed(JournalFailed);
      }
      var group := MoveGroup(newer.value, first, last, b, appended.value, |before|);
      CopyOne(before, header, moved, newer.value[first..], s.pending, log, cut, k, s.crc,
              FILE_HEADER_SIZE + TotalSize(log[..k]));
      assert newer.value[first..][last - first..] == newer.value[last..];
      moved := moved + group;
      first := last;
      k := k + 1;
    }
    CopyEnd(journal.bytes, header, moved, newer.value[first..], s.pending, log, committed, cut, k, s.crc);
    failed := *;
    if failed {
      return Failed(JournalFailed);
    }
    return Done(Prepared(journal, moved, |journal.bytes|));
  }

  lemma PrepareStart(pending: seq<Pending>, log: seq<Batch>, committed: nat, cut: nat, file: seq<byte>,
                     fingerprint: Fingerprint, crc: Checksum)
    requires Chained(log, committed) && AllValid(log) && pending == LogPending(log, FILE_HEADER_SIZE) && cut <= |log|
    requires InFile(file, pending) && ValidFingerprint(fingerprint)
    ensures var newer := P.Newer(pending, committed + |OpsOf(log[..cut])|);
            var header := FileHeader(fingerprint, crc);
            InFile(file, newer) && CopiedUpTo(header, header, [], newer[0..], pending, log, cut, cut, crc)
  {
    hide ValidBatch, LogPending, OpsOf, Chained, FileHeader;
    ChainedSplit(log, committed, cut);
    PendingRevisions(log, committed, FILE_HEADER_SIZE);
    NewerSuffix(pending, committed, |OpsOf(log[..cut])|);
    assert log[cut..cut] == [];
    LogPendingNothing(FILE_HEADER_SIZE);
    var header := FileHeader(fingerprint, crc);
    assert header + [] == header;
  }

  lemma CopyFacts(file: seq<byte>, copy: seq<byte>, header: seq<byte>, moved: seq<Pending>, rest: seq<Pending>,
                  pending: seq<Pending>, log: seq<Batch>, committed: nat, cut: nat, k: nat, crc: Checksum)
    requires CopiedUpTo(copy, header, moved, rest, pending, log, cut, k, crc) && rest != []
    requires Chained(log, committed) && AllValid(log) && pending == LogPending(log, FILE_HEADER_SIZE)
    requires InFile(file, pending) && ReadOps(file, pending) == OpsOf(log) && committed + |OpsOf(log)| <= MAX_UINT64
    ensures k < |log| && AllValid(log[..k]) && ValidBatch(log[k]) && InInt64(log[k].ops)
    ensures InFile(file, rest) && P.RunLength(rest) == |log[k].ops| <= |rest|
    ensures Batch(rest[0].revision, rest[0].group, ReadOps(file, rest[..|log[k].ops|])) == log[k]
            || !InFile(file, rest[..|log[k].ops|])
    ensures rest[..|log[k].ops|] == DecodedPending(DecodedOf(log[k], FILE_HEADER_SIZE + TotalSize(log[..k])))
    ensures |OpsOf(log[..k + 1])| <= |pending| && rest[|log[k].ops|..] == pending[|OpsOf(log[..k + 1])|..]
    ensures rest[0].revision <= MAX_UINT64 && rest[0].group <= MAX_UINT64
  {
    hide ValidBatch, LogPending, OpsOf, Chained, EncodeAll, DecodedOf, TotalSize, P.RunLength;
    RestNotEmpty(log, committed, k);
    NextBatchValue(file, log, committed, k, pending);
    ChainedAt(log, committed, k);
    BatchInInt64(log[k]);
  }

  lemma BatchInInt64(b: Batch)
    requires ValidBatch(b)
    ensures InInt64(b.ops)
  {
  }

  lemma CopyEnd(copy: seq<byte>, header: seq<byte>, moved: seq<Pending>, rest: seq<Pending>, pending: seq<Pending>,
                log: seq<Batch>, committed: nat, cut: nat, k: nat, crc: Checksum)
    requires CopiedUpTo(copy, header, moved, rest, pending, log, cut, k, crc) && rest == []
    requires Chained(log, committed) && AllValid(log) && pending == LogPending(log, FILE_HEADER_SIZE)
    ensures AllValid(log[cut..]) && copy == header + EncodeAll(log[cut..], crc)
            && moved == LogPending(log[cut..], FILE_HEADER_SIZE)
  {
    hide ValidBatch, LogPending, OpsOf, Chained, EncodeAll;
    RestNotEmpty(log, committed, k);
    assert log[cut..k] == log[cut..];
  }

  // ---------------------------------------------------------------- switching to the new base

  /** The tree over a new base with the newer edits spliced in from the prepared journal. */
  method RebasedTree(image: seq<byte>, priority: nat, header: seq<byte>, prepared: Prepared, crc: Checksum,
                     ghost newer: seq<Batch>)
    returns (tree: TreeStore.Tree)
    requires |image| <= MAX_INT64 && Utf8.Valid(BaseScan.TextOf(image)) && |header| == FILE_HEADER_SIZE
    requires AllValid(newer) && prepared.pending == LogPending(newer, FILE_HEADER_SIZE)
    requires prepared.journal.bytes == header + EncodeAll(newer, crc) && |prepared.journal.bytes| <= MAX_INT64
    requires Stageable(BaseScan.TextOf(image), OpsOf(newer))
    ensures fresh(tree) && tree.Valid() && tree.sources == Bindings(true)
    ensures Refs(tree.root) == SpliceAll(P.BaseTree(image, BaseScan.StartsWithBOM(image)), prepared.pending)
    ensures Readable(Refs(tree.root), World(Bindings(true), Files(image, prepared.journal.bytes, [])))
    ensures var doc := Resolve(Refs(tree.root), Sources(image, prepared.journal.bytes));
            && Utf8.Valid(doc) && Applicable(BaseScan.TextOf(image), OpsOf(newer))
            && doc == Apply(BaseScan.TextOf(image), OpsOf(newer))
  {
    hide ValidBatch, Encode, EncodeAll, LogPending, OpsOf, TotalSize, ReadOps, InFile, Utf8.Valid, RuneLen, Readable,
         Refs, Resolve, Stageable, Apply, Applicable, BaseScan.TextOf, SpliceAll, BaseScan.StartsWithBOM, P.BaseTree;
    var hasBOM := BaseScan.StartsWithBOM(image);
    var from := if hasBOM then 3 else 0;
    var piece := Piece(SOURCE_BASE, from, |image| - from, 0, false);
    NewBase(image, piece, priority, prepared.journal.bytes);
    tree := new TreeStore.Tree(if piece.length == 0 then Nil
                               else Leaf(piece, priority), Bindings(true), DEFAULT_AUTO_COMPACT_PIECES);
    ReadPrepared(header, prepared.journal.bytes, newer, crc);
    ReplaceAll(tree, prepared.pending, image, prepared.journal.bytes);
    PublishedDocument(P.BaseTree(image, hasBOM), prepared.pending, image, prepared.journal.bytes);
  }

  /** What the session is, told by the batches of its journal. */
  ghost predicate HoldsLog(s: Session, log: seq<Batch>)
    reads s, s.tree, s.journal
  {
    && R.LogOf(s.base, log, s.committedRevision) && AllValid(log) && s.pending == LogPending(log, FILE_HEADER_SIZE)
    && Applicable(BaseScan.TextOf(s.base), OpsOf(log)) && s.Document() == Apply(BaseScan.TextOf(s.base), OpsOf(log))
    && s.hasBOM == BaseScan.StartsWithBOM(s.base)
  }

  /** The end of a save, under the lock: all fields of the session switch together to the new base, which is the image
      of the document as it was after some of the batches, to the tree over it, and to the prepared journal with the
      other batches. The document is the same, and so is the line of documents around it. */
  method Rebase(s: Session, image: seq<byte>, priority: nat, fingerprint: Fingerprint, prepared: Prepared, target: nat,
                ghost log: seq<Batch>, ghost cut: nat)
    requires s.Valid() && ValidFingerprint(fingerprint) && HoldsLog(s, log)
    requires Inv.IsImage(s.base, log, cut, image) && target == s.committedRevision + |OpsOf(log[..cut])|
    requires |image| <= MAX_INT64 && BaseScan.StartsWithBOM(image) == s.hasBOM
    requires cut <= |log| && AllValid(log[cut..]) && prepared.pending == LogPending(log[cut..], FILE_HEADER_SIZE)
    requires prepared.journal.bytes == FileHeader(fingerprint, s.crc) + EncodeAll(log[cut..], s.crc)
    requires prepared.journal.crc == s.crc && prepared.bytes == |prepared.journal.bytes| <= MAX_INT64
    modifies s
    ensures s.Valid() && HoldsLog(s, log[cut..]) && s.Document() == old(s.Document())
    ensures s.base == image && s.journal == prepared.journal && s.pending == prepared.pending
    ensures s.committedRevision == target && s.revision == old(s.revision) && s.journalBytes == prepared.bytes
    ensures s.hasBOM == old(s.hasBOM) && s.fingerprint == fingerprint && (s.dirty <==> prepared.pending != [])
    ensures Refs(s.tree.root) == SpliceAll(P.BaseTree(image, s.hasBOM), prepared.pending)
    ensures old(s.Tracked()) ==>
              s.Tracked() && s.history.Versions(s.Document()) == old(s.history.Versions(s.Document()))
  {
    hide H.Past, H.Future, H.Lineage, ValidBatch, EncodeAll, LogPending, OpsOf, FileHeader, Utf8.Valid, RuneLen,
         Readable, Refs, Resolve, TreeStore.ValidState, Stageable, Apply, Applicable, BaseScan.TextOf, SpliceAll,
         BaseScan.StartsWithBOM, P.BaseTree, R.LogOf, Inv.IsImage;
    LogParts(s.base, log, s.committedRevision);
    Inv.ImageLog(s.base, log, s.committedRevision, cut, image);
    LogParts(image, log[cut..], target);
    RevisionsSplit(log, s.committedRevision, cut);
    SwitchBase(s, image, priority, fingerprint, prepared, target, log[cut..]);
  }

  /** The assignments of the switch. */
  method SwitchBase(s: Session, image: seq<byte>, priority: nat, fingerprint: Fingerprint, prepared: Prepared,
                    target: nat, ghost newer: seq<Batch>)
    requires s.Valid() && ValidFingerprint(fingerprint)
    requires |image| <= MAX_INT64 && BaseScan.StartsWithBOM(image) == s.hasBOM && Utf8.Valid(BaseScan.TextOf(image))
    requires AllValid(newer) && prepared.pending == LogPending(newer, FILE_HEADER_SIZE)
    requires prepared.journal.bytes == FileHeader(fingerprint, s.crc) + EncodeAll(newer, s.crc)
    requires prepared.journal.crc == s.crc && prepared.bytes == |prepared.journal.bytes| <= MAX_INT64
    requires Stageable(BaseScan.TextOf(image), OpsOf(newer)) && s.revision == target + |prepared.pending|
    modifies s
    ensures s.Valid() && fresh(s.tree) && s.base == image && s.journal == prepared.journal
            && s.pending == prepared.pending
    ensures s.committedRevision == target && s.revision == old(s.revision) && s.journalBytes == prepared.bytes
    ensures s.hasBOM == old(s.hasBOM) && s.fingerprint == fingerprint && (s.dirty <==> prepared.pending != [])
    ensures Refs(s.tree.root) == SpliceAll(P.BaseTree(image, s.hasBOM), prepared.pending)
    ensures Applicable(BaseScan.TextOf(image), OpsOf(newer))
            && s.Document() == Apply(BaseScan.TextOf(image), OpsOf(newer))
  {
    hide ValidBatch, EncodeAll, LogPending, OpsOf, FileHeader, Utf8.Valid, RuneLen, Readable, Refs, Resolve,
         TreeStore.ValidState, Stageable, Apply, Applicable, BaseScan.TextOf, SpliceAll, BaseScan.StartsWithBOM,
         P.BaseTree;
    var tree := RebasedTree(image, priority, FileHeader(fingerprint, s.crc), prepared, s.crc, newer);
    s.base, s.tree, s.journal := image, tree, prepared.journal;
    s.pending := prepared.pending;
    s.journalBytes := prepared.bytes;
    s.committedRevision := target;
    s.fingerprint := fingerprint;
    s.dirty := s.revision > s.committedRevision;
  }

  lemma LogParts(base: seq<byte>, log: seq<Batch>, committed: nat)
    requires R.LogOf(base, log, committed)
    ensures Chained(log, committed) && |base| <= MAX_INT64 && Utf8.Valid(BaseScan.TextOf(base)) && AllValid(log)
    ensures Stageable(BaseScan.TextOf(base), OpsOf(log)) && Applicable(BaseScan.TextOf(base), OpsOf(log))
  {
    StageableApplicable(BaseScan.TextOf(base), OpsOf(log));
  }

  /** Every operation of the log has its pending entry, before and after the cut. */
  lemma RevisionsSplit(log: seq<Batch>, committed: nat, cut: nat)
    requires Chained(log, committed) && AllValid(log) && cut <= |log|
    ensures AllValid(log[cut..])
    ensures |LogPending(log, FILE_HEADER_SIZE)| == |OpsOf(log[..cut])| + |LogPending(log[cut..], FILE_HEADER_SIZE)|
  {
    hide Chained, LogPending, ValidBatch;
    ChainedSplit(log, committed, cut);
    PendingRevisions(log, committed, FILE_HEADER_SIZE);
    PendingRevisions(log[cut..], committed + |OpsOf(log[..cut])|, FILE_HEADER_SIZE);
  }

  lemma ReadPrepared(header: seq<byte>, file: seq<byte>, log: seq<Batch>, crc: Checksum)
    requires |header| == FILE_HEADER_SIZE && AllValid(log) && file == header + EncodeAll(log, crc)
    ensures InFile(file, LogPending(log, FILE_HEADER_SIZE))
            && ReadOps(file, LogPending(log, FILE_HEADER_SIZE)) == OpsOf(log)
  {
    hide ValidBatch, EncodeAll, LogPending, OpsOf;
    assert file[FILE_HEADER_SIZE..FILE_HEADER_SIZE + TotalSize(log)] == EncodeAll(log, crc);
    ReadLog(file, log, FILE_HEADER_SIZE, crc);
  }

  /** The tree over a new base, whose newlines nobody has counted. */
  lemma NewBase(image: seq<byte>, piece: Piece, priority: nat, file: seq<byte>)
    requires |image| <= MAX_INT64
    requires var from := if BaseScan.StartsWithBOM(image) then 3 else 0;
             piece == Piece(SOURCE_BASE, from, |image| - from, 0, false)
    ensures var root := if piece.length == 0 then Nil else Leaf(piece, priority);
            var tree := P.BaseTree(image, BaseScan.StartsWithBOM(image));
            && WellFormed(root) && NodeBytes(root) <= MAX_INT64 && Refs(root) == tree
            && Readable(tree, World(Bindings(true), Files(image, file, []))) && Readable(tree, Sources(image, file))
            && Resolve(tree, Sources(image, file)) == BaseScan.TextOf(image)
  {
    hide Resolve, Readable, Refs;
    NewBaseRefs(image, piece, priority);
    BaseReads(image);
    JournalAttached(P.BaseTree(image, BaseScan.StartsWithBOM(image)), image, file);
    SameReadable(P.BaseTree(image, BaseScan.StartsWithBOM(image)), image, file);
  }

  lemma NewBaseRefs(image: seq<byte>, piece: Piece, priority: nat)
    requires |image| <= MAX_INT64
    requires var from := if BaseScan.StartsWithBOM(image) then 3 else 0;
             piece == Piece(SOURCE_BASE, from, |image| - from, 0, false)
    ensures var root := if piece.length == 0 then Nil else Leaf(piece, priority);
            WellFormed(root) && NodeBytes(root) <= MAX_INT64
                && Refs(root) == P.BaseTree(image, BaseScan.StartsWithBOM(image))
  {
    var root := if piece.length == 0 then Nil else Leaf(piece, priority);
    if piece.length > 0 {
      assert Pieces(root) == [piece] && [] + [piece] == [piece];
      ExpandSnoc([], piece);
    }
    assert Refs(root) == PieceRefs(piece);
    assert PieceRefs(piece) == P.BaseTree(image, BaseScan.StartsWithBOM(image));
  }

  // ---------------------------------------------------------------- replaying a journal

  /** One replayed operation: the checks of staging, on bytes that are in the journal already. */
  method ReplayOne(tree: TreeStore.Tree, base: seq<byte>, file: seq<byte>, p: Pending)
    returns (ok: bool, removed: seq<byte>)
    requires tree.Valid() && tree.sources == Bindings(true) && |file| <= MAX_INT64
    requires Readable(Refs(tree.root), World(Bindings(true), Files(base, file, [])))
    requires p.insertOffset + p.insertLength <= |file|
    modifies tree
    ensures tree.Valid() && tree.sources == old(tree.sources)
    ensures ok <==> Accepts(Resolve(old(Refs(tree.root)), Sources(base, file)), ReadOp(file, p))
    ensures ok ==> p.start + p.deleteLength <= |old(Refs(tree.root))|
    ensures ok ==> removed == Resolve(old(Refs(tree.root)), Sources(base, file))[p.start..p.start + p.deleteLength]
    ensures ok ==> Refs(tree.root) == Splice(old(Refs(tree.root)), p.start, p.deleteLength, InsertRefs(p))
  {
    hide Refs, Utf8.Valid, RuneLen, Resolve, Readable, BoundaryTest;
    ok, removed := false, [];
    var files := Files(base, file, []);
    MoreSources(Refs(tree.root), true, base, file, []);
    CachedSums(tree.root, World(tree.sources, files));
    ghost var doc := Content(tree.root, World(tree.sources, files));
    assert doc == Resolve(Refs(tree.root), Sources(base, file));
    var deleted := ReadTreeRange(tree, files, p.start, p.deleteLength);
    if deleted.Failed? {
      return;
    }
    var boundaries := ValidateBoundaries(tree, files, p.start, p.deleteLength);
    if !boundaries {
      return;
    }
    var inserted := file[p.insertOffset..p.insertOffset + p.insertLength];
    if !Utf8.Valid(inserted) {
      return;
    }
    assert p.deleteLength == 0 ==> doc[p.start..p.start + p.deleteLength] == [];
    var piece := JournalPiece(file, p);
    assert PieceRefs(piece) == InsertRefs(p);
    var replaced := tree.ReplacePiece(p.start, p.deleteLength, piece);
    ok, removed := replaced.Success?, deleted.value;
  }

  /** What the loop over the operations of a batch has done after i of them. */
  ghost predicate ReplayedUpTo(refs: seq<Ref>, tree: seq<Ref>, base: seq<byte>, file: seq<byte>, pending: seq<Pending>,
                               i: nat) {
    && i <= |pending| && InFile(file, pending)
    && Readable(tree, Sources(base, file)) && tree == SpliceAll(refs, pending[..i])
    && Stageable(Resolve(refs, Sources(base, file)), ReadOps(file, pending)[..i])
    && Resolve(tree, Sources(base, file)) == Apply(Resolve(refs, Sources(base, file)), ReadOps(file, pending)[..i])
  }

  lemma ReplayStart(refs: seq<Ref>, base: seq<byte>, file: seq<byte>, pending: seq<Pending>)
    requires Readable(refs, Sources(base, file)) && InFile(file, pending) && |refs| <= MAX_INT64
    ensures ReplayedUpTo(refs, refs, base, file, pending, 0)
  {
    StageableNothing(Resolve(refs, Sources(base, file)));
    assert pending[..0] == [] && ReadOps(file, pending)[..0] == [];
  }

  lemma ReplayAccepted(refs: seq<Ref>, tree: seq<Ref>, base: seq<byte>, file: seq<byte>, pending: seq<Pending>, i: nat)
    requires i < |pending| && ReplayedUpTo(refs, tree, base, file, pending, i)
    requires pending[i].insertOffset + pending[i].insertLength <= |file|
    requires Accepts(Resolve(tree, Sources(base, file)), ReadOp(file, pending[i]))
    ensures pending[i].start + pending[i].deleteLength <= |tree|
    ensures ReplayedUpTo(refs, Splice(tree, pending[i].start, pending[i].deleteLength, InsertRefs(pending[i])), base,
                         file, pending, i + 1)
  {
    hide Resolve, Readable, Stageable, Accepts, Apply, Applicable, ReadOps, InFile, SpliceAll;
    var doc, ops, w := Resolve(refs, Sources(base, file)), ReadOps(file, pending), Sources(base, file);
    ReadPrefix(file, pending, i);
    StageableStep(doc, ops, i);
    AcceptsFits(Resolve(tree, w), ops[i]);
    InsertResolves(base, file, pending[i]);
    assert |Resolve(tree, w)| == |tree|;
    ResolveSplice(tree, pending[i].start, pending[i].deleteLength, InsertRefs(pending[i]), w);
    SpliceStep(refs, pending, i);
  }

  lemma SpliceStep(refs: seq<Ref>, pending: seq<Pending>, i: nat)
    requires i < |pending|
    ensures var before, p := SpliceAll(refs, pending[..i]), pending[i];
            p.start + p.deleteLength <= |before| ==>
              SpliceAll(refs, pending[..i + 1]) == Splice(before, p.start, p.deleteLength, InsertRefs(p))
  {
    assert pending[..i + 1][..i] == pending[..i];
  }

  lemma ReplayRefused(refs: seq<Ref>, tree: seq<Ref>, base: seq<byte>, file: seq<byte>, pending: seq<Pending>, i: nat)
    requires i < |pending| && ReplayedUpTo(refs, tree, base, file, pending, i)
    requires pending[i].insertOffset + pending[i].insertLength <= |file|
    requires !Accepts(Resolve(tree, Sources(base, file)), ReadOp(file, pending[i]))
    ensures InFile(file, pending) && !Stageable(Resolve(refs, Sources(base, file)), ReadOps(file, pending))
  {
    hide Resolve, Readable, Stageable, Accepts, Apply, Applicable, ReadOps, InFile, SpliceAll;
    ReadPrefix(file, pending, i);
    Refused(Resolve(refs, Sources(base, file)), ReadOps(file, pending), i);
  }

  lemma ReplayEnd(refs: seq<Ref>, tree: seq<Ref>, base: seq<byte>, file: seq<byte>, pending: seq<Pending>)
    requires ReplayedUpTo(refs, tree, base, file, pending, |pending|)
    ensures Stageable(Resolve(refs, Sources(base, file)), ReadOps(file, pending)) && tree == SpliceAll(refs, pending)
    ensures Readable(tree, Sources(base, file))
  {
    assert pending[..|pending|] == pending && ReadOps(file, pending)[..|pending|] == ReadOps(file, pending);
  }

  /** The state that replay builds up. */
  ghost predicate Replaying(s: Session, base: seq<byte>, file: seq<byte>)
    reads s, s.tree, s.journal
  {
    && s.journal != null && s.base == base && s.journal.bytes == file && |file| <= MAX_INT64
    && s.tree.Valid() && s.tree.sources == Bindings(true)
    && Readable(Refs(s.tree.root), World(Bindings(true), Files(base, file, [])))
  }

  ghost function RecoveredOf(s: Session): Recovered
    reads s, s.tree
  {
    Recovered(Refs(s.tree.root), s.revision, s.committedRevision, s.pending)
  }

  /** The history while a batch is replayed: the texts so far have been recorded, their references are in the entry, and
      the entries of earlier batches are there unless the texts have emptied the store. */
  ghost predicate HistoryUpTo(h: H.History, epoch: nat, quota: nat, t: H.Track, undo: seq<H.Entry>, entry: H.Entry,
                              ops: seq<Replace>, i: nat)
    reads h, h.store
  {
    && i <= |ops| && Applicable(t.doc, ops[..i])
    && h.Valid() && h.TextQuota() == quota && h.epoch >= epoch && h.redo == []
    && var texts := H.BatchTexts(t.doc, ops[..i]);
       && h.File() == H.FileAfter(t.file, quota, texts)
       && entry == H.EntryOf(ops[..i], H.RefsOf(t.file, quota, texts))
       && (if H.LastReset(t.file, quota, texts) == -1 then h.undo == undo else h.undo == [] && h.epoch > epoch)
  }

  /** The two texts of a replayed operation. */
  method RecordReplayed(h: H.History, entry: H.Entry, op: Replace, removed: seq<byte>, ghost epoch: nat,
                        ghost quota: nat, ghost t: H.Track, ghost undo: seq<H.Entry>, ghost ops: seq<Replace>,
                        ghost i: nat)
    returns (r: Outcome<H.Entry>)
    requires HistoryUpTo(h, epoch, quota, t, undo, entry, ops, i) && i < |ops| && op == ops[i]
    requires Applicable(t.doc, ops[..i + 1]) && InRange(|Apply(t.doc, ops[..i])|, op.start, op.deleteLength)
    requires removed == Apply(t.doc, ops[..i])[op.start..op.start + op.deleteLength]
    modifies h`undo, h`redo, h`epoch, h.store
    ensures r.Done? ==> HistoryUpTo(h, epoch, quota, t, undo, r.value, ops, i + 1)
    ensures r.Failed? ==> r.error == HistoryFailed
  {
    hide Apply, Applicable, H.Text, H.InStore, H.BatchTexts, H.EntryOf, H.RefsOf, H.FileAfter, H.LastReset, H.Remember;
    ghost var texts := H.BatchTexts(t.doc, ops[..i]);
    var forward := h.HistoryText(op.insert);
    if forward.Failure? {
      return Failed(HistoryFailed);
    }
    var inverse := h.HistoryText(removed);
    if inverse.Failure? {
      return Failed(HistoryFailed);
    }
    H.TwoMore(t.file, quota, texts, op.insert, removed);
    MoreTexts(t, quota, ops, i);
    return Done(H.Entry(entry.forward + [H.HistoryOperation(op.start, op.deleteLength, forward.value)],
                        [H.HistoryOperation(op.start, |op.insert|, inverse.value)] + entry.inverse));
  }

  /** One more operation of a batch. */
  lemma MoreTexts(t: H.Track, quota: nat, ops: seq<Replace>, i: nat)
    requires i < |ops| && Applicable(t.doc, ops[..i]) && Applicable(t.doc, ops[..i + 1])
    requires InRange(|Apply(t.doc, ops[..i])|, ops[i].start, ops[i].deleteLength)
    ensures var op, before, texts := ops[i], H.BatchTexts(t.doc, ops[..i]), H.BatchTexts(t.doc, ops[..i + 1]);
            var refs := H.RefsOf(t.file, quota, texts);
            var e := H.EntryOf(ops[..i], refs[..2 * i]);
            && texts == before + [op.insert, Apply(t.doc, ops[..i])[op.start..op.start + op.deleteLength]]
            && H.EntryOf(ops[..i + 1], refs)
               == H.Entry(e.forward + [H.HistoryOperation(op.start, op.deleteLength, refs[2 * i])],
                          [H.HistoryOperation(op.start, |op.insert|, refs[2 * i + 1])] + e.inverse)
  {
    hide Apply, Applicable, H.BatchTexts, H.EntryOf, H.RefsOf;
    assert ops[..i + 1][..i] == ops[..i];
    var texts := H.BatchTexts(t.doc, ops[..i + 1]);
    H.LastTexts(t.doc, ops[..i + 1], H.RefsOf(t.file, quota, texts));
    assert texts == texts[..2 * i] + [texts[2 * i], texts[2 * i + 1]];
  }

  /** The history that replay builds up. */
  ghost predicate Tracing(h: H.History, epoch: nat, quota: nat, t: H.Track)
    reads h, h.store
  {
    && h.Valid() && h.TextQuota() == quota && h.epoch >= epoch && h.redo == [] && h.File() == t.file
    && H.Traced(t, h.undo) && (t.torn ==> h.epoch > epoch)
  }

  lemma TraceStart(h: H.History, epoch: nat, quota: nat, t: H.Track, ops: seq<Replace>)
    requires Tracing(h, epoch, quota, t)
    ensures HistoryUpTo(h, h.epoch, quota, t, h.undo, H.Entry([], []), ops, 0)
    ensures h.epoch >= epoch && (t.torn ==> h.epoch > epoch) && H.Traced(t, h.undo)
  {
    assert ops[..0] == [];
    H.NoEntry([], []);
  }

  /** A complete batch: its entry extends the line to the document that it leaves, or begins a new one. */
  method TraceEnd(h: H.History, ghost epoch: nat, ghost began: nat, ghost quota: nat, ghost t: H.Track,
                  ghost undo: seq<H.Entry>, entry: H.Entry, ghost ops: seq<Replace>)
    requires HistoryUpTo(h, began, quota, t, undo, entry, ops, |ops|) && H.Traced(t, undo)
    requires began >= epoch && (t.torn ==> began > epoch)
    requires Utf8.Valid(t.doc) && ops != [] && Stageable(t.doc, ops)
    modifies h`undo
    ensures Applicable(t.doc, ops) && Tracing(h, epoch, quota, H.TrackStep(t, quota, ops))
  {
    hide H.Traced, Utf8.Valid, Apply, Applicable, Stageable, H.BatchTexts, H.EntryOf, H.RefsOf, H.FileAfter,
         H.LastReset, H.Fits, H.Intact;
    assert ops[..|ops|] == ops;
    H.TrackedStep(t, quota, undo, ops);
    H.ResetExact(t.file, quota, H.BatchTexts(t.doc, ops));
    h.undo := h.undo + [entry];
  }

  /** One operation of a batch: the tree and the two texts of the history. */
  method ReplayOperation(s: Session, p: Pending, entry: H.Entry, ghost base: seq<byte>, ghost file: seq<byte>,
                         ghost epoch: nat, ghost quota: nat, ghost t: H.Track, ghost refs: seq<Ref>,
                         ghost pending: seq<Pending>, ghost undo: seq<H.Entry>, ghost i: nat)
    returns (r: Outcome<H.Entry>)
    requires Replaying(s, base, file) && InFile(file, pending) && i < |pending| && p == pending[i]
    requires ReplayedUpTo(refs, Refs(s.tree.root), base, file, pending, i)
    requires t.doc == Resolve(refs, Sources(base, file))
    requires HistoryUpTo(s.history, epoch, quota, t, undo, entry, ReadOps(file, pending), i)
    modifies s.tree, s.history`undo, s.history`redo, s.history`epoch, s.history.store
    ensures r.Done? ==>
              && Replaying(s, base, file) && ReplayedUpTo(refs, Refs(s.tree.root), base, file, pending, i + 1)
              && HistoryUpTo(s.history, epoch, quota, t, undo, r.value, ReadOps(file, pending), i + 1)
    ensures r.Failed? && r.error != HistoryFailed ==>
              !Stageable(Resolve(refs, Sources(base, file)), ReadOps(file, pending))
  {
    hide Refs, Resolve, Readable, InFile, ReplayedUpTo, Stageable, ReadOps, Accepts, SpliceAll, HistoryUpTo, Utf8.Valid,
         Apply, Applicable;
    PendingInFile(file, pending, i);
    ghost var tree := Refs(s.tree.root);
    var accepted, removed := ReplayOne(s.tree, s.base, s.journal.bytes, p);
    if !accepted {
      ReplayRefused(refs, tree, base, file, pending, i);
      return Failed(OutOfRange);
    }
    ReplayAccepted(refs, tree, base, file, pending, i);
    ReplayReadable(refs, Refs(s.tree.root), base, file, pending, i + 1);
    ReplayRemoves(refs, tree, base, file, pending, i);
    r := RecordReplayed(s.history, entry, ReadOp(s.journal.bytes, p), removed, epoch, quota, t, undo,
                        ReadOps(file, pending), i);
  }

  /** One batch of the replay: tree, pending list, revision, and an undo entry. */
  method ReplayInto(s: Session, d: Decoded, ghost base: seq<byte>, ghost file: seq<byte>, ghost epoch: nat,
                    ghost quota: nat, ghost t: H.Track)
    returns (r: Outcome<()>)
    requires Replaying(s, base, file) && InFile(file, DecodedPending(d))
    requires Utf8.Valid(Resolve(Refs(s.tree.root), Sources(base, file)))
    requires Tracing(s.history, epoch, quota, t) && t.doc == Resolve(Refs(s.tree.root), Sources(base, file))
    modifies s`revision, s`pending, s.tree, s.history`undo, s.history`redo, s.history`epoch, s.history.store
    ensures r.Done? ==>
              && Replaying(s, base, file) && d.firstRevision > 0
              && Utf8.Valid(Resolve(Refs(s.tree.root), Sources(base, file)))
              && Applicable(t.doc, ReadOps(file, DecodedPending(d)))
              && var next := H.TrackStep(t, quota, ReadOps(file, DecodedPending(d)));
              && Tracing(s.history, epoch, quota, next) && next.doc == Resolve(Refs(s.tree.root), Sources(base, file))
              && ReplayBatch(old(RecoveredOf(s)), base, file, d) == Some(RecoveredOf(s))
    ensures r.Failed? && r.error != HistoryFailed ==> ReplayBatch(old(RecoveredOf(s)), base, file, d).None?
  {
    hide Refs, Resolve, Readable, InFile, ReplayedUpTo, Stageable, ReadOps, Accepts, SpliceAll, HistoryUpTo, Utf8.Valid,
         Apply, Applicable, H.Traced, H.FileAfter, H.BatchTexts, H.Fits, H.Intact;
    if d.firstRevision != s.revision + 1 || d.group == 0 || |d.ops| == 0 {
      return Failed(NonMonotonic);
    }
    ghost var refs, before := Refs(s.tree.root), s.pending;
    ghost var pending := DecodedPending(d);
    ghost var doc, ops, undo := Resolve(refs, Sources(base, file)), ReadOps(file, pending), s.history.undo;
    ghost var began := s.history.epoch;
    CachedSums(s.tree.root, Sources(base, file));
    SameReadable(refs, base, file);
    ReplayStart(refs, base, file, pending);
    TraceStart(s.history, epoch, quota, t, ops);
    hide Tracing;
    var entry := H.Entry([], []);
    var i := 0;
    while i < |d.ops|
      invariant 0 <= i <= |d.ops|
      invariant Replaying(s, base, file)
      invariant ReplayedUpTo(refs, Refs(s.tree.root), base, file, pending, i)
      invariant HistoryUpTo(s.history, began, quota, t, undo, entry, ops, i)
      invariant s.revision == d.firstRevision - 1 + i && s.committedRevision == old(s.committedRevision)
      invariant s.pending == before + pending[..i]
    {
      var o := d.ops[i];
      var p := Pending(d.firstRevision + i, d.group, o.start, o.deleteLength, o.payloadOffset, o.insertLength);
      var recorded := ReplayOperation(s, p, entry, base, file, began, quota, t, refs, pending, undo, i);
      if recorded.Failed? {
        return Failed(recorded.error);
      }
      entry := recorded.value;
      s.pending := s.pending + [p];
      s.revision := p.revision;
      i := i + 1;
    }
    ReplayEnd(refs, Refs(s.tree.root), base, file, pending);
    ReplayedDocument(refs, base, file, pending);
    TraceEnd(s.history, epoch, began, quota, t, undo, entry, ops);
    assert pending[..i] == pending;
    return Done(());
  }

  /** What a replayed operation removes is part of the document it meets. */
  lemma ReplayRemoves(refs: seq<Ref>, tree: seq<Ref>, base: seq<byte>, file: seq<byte>, pending: seq<Pending>, i: nat)
    requires i < |pending| && ReplayedUpTo(refs, tree, base, file, pending, i)
    requires pending[i].insertOffset + pending[i].insertLength <= |file|
    requires Accepts(Resolve(tree, Sources(base, file)), ReadOp(file, pending[i]))
    ensures InFile(file, pending) && |ReadOps(file, pending)| == |pending|
    ensures var doc, ops := Resolve(refs, Sources(base, file)), ReadOps(file, pending);
            && ops[i] == ReadOp(file, pending[i])
            && Applicable(doc, ops[..i]) && Applicable(doc, ops[..i + 1])
            && Resolve(tree, Sources(base, file)) == Apply(doc, ops[..i])
            && InRange(|Apply(doc, ops[..i])|, ops[i].start, ops[i].deleteLength)
  {
    hide Resolve, Readable, Stageable, Accepts, Apply, Applicable, SpliceAll;
    var doc, ops := Resolve(refs, Sources(base, file)), ReadOps(file, pending);
    StageableApplicable(doc, ops[..i]);
    StageableStep(doc, ops, i);
    StageableApplicable(doc, ops[..i + 1]);
    AcceptsFits(Apply(doc, ops[..i]), ops[i]);
  }

  lemma ReplayedDocument(refs: seq<Ref>, base: seq<byte>, file: seq<byte>, pending: seq<Pending>)
    requires InFile(file, pending) && Readable(refs, Sources(base, file))
             && Utf8.Valid(Resolve(refs, Sources(base, file)))
    requires Stageable(Resolve(refs, Sources(base, file)), ReadOps(file, pending))
    ensures Applicable(Resolve(refs, Sources(base, file)), ReadOps(file, pending))
    ensures Resolve(SpliceAll(refs, pending), Sources(base, file))
            == Apply(Resolve(refs, Sources(base, file)), ReadOps(file, pending))
    ensures Utf8.Valid(Resolve(SpliceAll(refs, pending), Sources(base, file)))
  {
    hide Readable, Resolve, Apply, SpliceAll, ReadOps, InFile, Utf8.Valid;
    PublishedDocument(refs, pending, base, file);
  }

  lemma PendingInFile(file: seq<byte>, pending: seq<Pending>, i: nat)
    requires InFile(file, pending) && i < |pending|
    ensures pending[i].insertOffset + pending[i].insertLength <= |file|
  {
  }

  lemma ReplayReadable(refs: seq<Ref>, tree: seq<Ref>, base: seq<byte>, file: seq<byte>, pending: seq<Pending>, i: nat)
    requires ReplayedUpTo(refs, tree, base, file, pending, i)
    ensures Readable(tree, World(Bindings(true), Files(base, file, [])))
  {
    SameReadable(tree, base, file);
  }

  /** The operations of each batch. */
  ghost function BatchOps(file: seq<byte>, batches: seq<Decoded>): (r: seq<seq<Replace>>)
    requires forall i :: 0 <= i < |batches| ==> InFile(file, DecodedPending(batches[i]))
    ensures |r| == |batches|
  {
    seq(|batches|, i requires 0 <= i < |batches| => ReadOps(file, DecodedPending(batches[i])))
  }

  /** Session.replay: batch after batch, operation after operation, on the tree of the base. It is refused exactly when
      the journal cannot be replayed, or the undo store fails; otherwise it rebuilds tree, revisions and pending list,
      and an undo stack that leads back from the document, whose oldest entry may be torn when the texts did not all
      fit. */
  method Replay(s: Session, batches: seq<Decoded>) returns (r: Outcome<()>)
    requires s.Tracked() && s.journal != null && s.revision == 0 && s.committedRevision == 0 && s.pending == []
             && s.history.redo == []
    requires forall i :: 0 <= i < |batches| ==> InFile(s.File(), DecodedPending(batches[i]))
    modifies s, s.tree, s.history`undo, s.history`redo, s.history`epoch, s.history.store
    ensures s.tree == old(s.tree) && s.base == old(s.base) && s.hasBOM == old(s.hasBOM) && s.journal == old(s.journal)
    ensures var replayed := ReplaySession(old(Refs(s.tree.root)), old(s.base), old(s.File()), batches);
            && (r.Done? ==>
                  && replayed == Some(RecoveredOf(s)) && (s.dirty <==> batches != [])
                  && Utf8.Valid(s.Document()))
            && (r.Failed? && r.error != HistoryFailed ==> replayed.None?)
    ensures r.Done? ==>
              var start := H.Track(old(s.Document()), old(s.history.File()), false);
              var t := H.TrackAll(start, old(s.history.TextQuota()), BatchOps(old(s.File()), batches));
              && s.history.Valid() && s.history.redo == [] && s.history.File() == t.file && s.Document() == t.doc
              && H.Traced(t, s.history.undo)
    ensures r.Done? && s.history.epoch == old(s.history.epoch) ==> s.history.Valid() && s.history.Line(s.Document())
  {
    hide Refs, Utf8.Valid, RuneLen, Resolve, Readable, ReplayBatch, InFile, ReadOps, H.Past, H.Future, H.Traced,
         H.TrackStep, H.TrackAll, TreeStore.ValidState, Applicable, DecodedPending;
    ReplayOpens(s);
    hide Session.Tracked, Session.Valid, Session.Document, Replaying, Tracing, RecoveredOf, ReplaySession;
    ReplayNothing(s);
    ghost var refs, epoch, quota := Refs(s.tree.root), s.history.epoch, s.history.TextQuota();
    var base, file := s.base, s.journal.bytes;
    ghost var start, ops := H.Track(s.Document(), s.history.File(), false), BatchOps(file, batches);
    ghost var t := start;
    TrackNothing(start, quota, ops);
    var i := 0;
    while i < |batches|
      invariant 0 <= i <= |batches|
      invariant s.tree == old(s.tree) && s.base == base && s.hasBOM == old(s.hasBOM) && s.journal == old(s.journal)
                && file == old(s.File())
      invariant Replaying(s, base, file)
      invariant Utf8.Valid(Resolve(Refs(s.tree.root), Sources(base, file)))
      invariant Tracing(s.history, epoch, quota, t) && t.doc == Resolve(Refs(s.tree.root), Sources(base, file))
      invariant t == H.TrackAll(start, quota, ops[..i])
      invariant ReplaySession(refs, base, file, batches[..i]) == Some(RecoveredOf(s))
    {
      r := ReplayNext(s, batches, i, base, file, refs, epoch, quota, t);
      if r.Failed? {
        return;
      }
      TrackNext(start, quota, ops, i);
      t := H.TrackStep(t, quota, ops[i]);
      i := i + 1;
    }
    assert batches[..i] == batches && ops[..i] == ops;
    SetDirty(s, |batches| > 0, base, file);
    TraceLine(s.history, epoch, quota, t);
    return Done(());
  }

  lemma TrackNothing(start: H.Track, quota: nat, ops: seq<seq<Replace>>)
    ensures H.TrackAll(start, quota, ops[..0]) == start
  {
  }

  lemma TrackNext(start: H.Track, quota: nat, ops: seq<seq<Replace>>, i: nat)
    requires i < |ops| && Applicable(H.TrackAll(start, quota, ops[..i]).doc, ops[i])
    ensures H.TrackAll(start, quota, ops[..i + 1]) == H.TrackStep(H.TrackAll(start, quota, ops[..i]), quota, ops[i])
  {
    assert ops[..i + 1][..i] == ops[..i];
  }

  /** What the history is in the end. */
  lemma TraceLine(h: H.History, epoch: nat, quota: nat, t: H.Track)
    requires Tracing(h, epoch, quota, t)
    ensures h.Valid() && h.redo == [] && h.File() == t.file && H.Traced(t, h.undo)
    ensures h.epoch == epoch ==> h.Line(t.doc)
  {
    hide H.Past;
    H.NoFuture(h.File(), t.doc);
  }

  /** One turn of the loop over batches. */
  method ReplayNext(s: Session, batches: seq<Decoded>, i: nat, ghost base: seq<byte>, ghost file: seq<byte>,
                    ghost refs: seq<Ref>, ghost epoch: nat, ghost quota: nat, ghost t: H.Track)
    returns (r: Outcome<()>)
    requires i < |batches| && Replaying(s, base, file) && InFile(file, DecodedPending(batches[i]))
    requires Utf8.Valid(Resolve(Refs(s.tree.root), Sources(base, file)))
    requires Tracing(s.history, epoch, quota, t) && t.doc == Resolve(Refs(s.tree.root), Sources(base, file))
    requires ReplaySession(refs, base, file, batches[..i]) == Some(RecoveredOf(s))
    modifies s`revision, s`committedRevision, s`pending, s.tree, s.history`undo, s.history`redo, s.history`epoch,
             s.history.store
    ensures r.Done? ==>
              && Replaying(s, base, file) && Utf8.Valid(Resolve(Refs(s.tree.root), Sources(base, file)))
              && ReplaySession(refs, base, file, batches[..i + 1]) == Some(RecoveredOf(s))
              && Applicable(t.doc, ReadOps(file, DecodedPending(batches[i])))
              && var next := H.TrackStep(t, quota, ReadOps(file, DecodedPending(batches[i])));
              && Tracing(s.history, epoch, quota, next) && next.doc == Resolve(Refs(s.tree.root), Sources(base, file))
    ensures r.Failed? && r.error != HistoryFailed ==> ReplaySession(refs, base, file, batches).None?
  {
    hide Refs, Utf8.Valid, RuneLen, Resolve, Readable, ReplayBatch, InFile, H.Past, H.Future, Replaying, Tracing,
         DecodedPending, Applicable, ReadOps, H.TrackStep;
    var batch := batches[i];
    assert batches[..i + 1] == batches[..i] + [batch];
    ghost var before := RecoveredOf(s);
    if i == 0 {
      if batch.firstRevision == 0 {
        ReplayStuck(refs, base, file, batches, i);
        return Failed(NonMonotonic);
      }
      StartAt(s, batch.firstRevision - 1, base, file);
    }
    if batch.firstRevision > 0 {
      ReplaySessionSnoc(refs, base, file, batches[..i], batch, before);
    }
    r := ReplayInto(s, batch, base, file, epoch, quota, t);
    if r.Failed? && r.error != HistoryFailed {
      ReplayStuck(refs, base, file, batches, i);
    }
  }

  /** The first batch fixes the committed revision. */
  method StartAt(s: Session, committed: nat, ghost base: seq<byte>, ghost file: seq<byte>)
    requires Replaying(s, base, file)
    modifies s`committedRevision, s`revision
    ensures Replaying(s, base, file)
    ensures RecoveredOf(s) == old(RecoveredOf(s)).(revision := committed, committed := committed)
  {
    s.committedRevision := committed;
    s.revision := committed;
  }

  method SetDirty(s: Session, dirty: bool, ghost base: seq<byte>, ghost file: seq<byte>)
    requires Replaying(s, base, file)
    modifies s`dirty
    ensures Replaying(s, base, file) && s.dirty == dirty
            && s.Document() == Resolve(Refs(s.tree.root), Sources(base, file))
  {
    s.dirty := dirty;
  }

  lemma ReplayNothing(s: Session)
    requires s.revision == 0 && s.committedRevision == 0 && s.pending == []
    ensures ReplaySession(Refs(s.tree.root), s.base, s.File(), []) == Some(RecoveredOf(s))
  {
  }

  lemma ReplayOpens(s: Session)
    requires s.Tracked() && s.journal != null && s.history.redo == []
    ensures Replaying(s, s.base, s.journal.bytes)
    ensures Utf8.Valid(Resolve(Refs(s.tree.root), Sources(s.base, s.journal.bytes)))
    ensures s.Document() == Resolve(Refs(s.tree.root), Sources(s.base, s.journal.bytes))
    ensures Tracing(s.history, s.history.epoch, s.history.TextQuota(), H.Track(s.Document(), s.history.File(), false))
  {
    hide H.Past;
  }

  /** A batch that cannot be replayed stops the replay for good. */
  lemma {:induction false} ReplayStuck(refs: seq<Ref>, base: seq<byte>, file: seq<byte>, batches: seq<Decoded>, i: nat)
    requires i < |batches| && ReplaySession(refs, base, file, batches[..i + 1]).None?
    ensures ReplaySession(refs, base, file, batches).None?
    decreases |batches|
  {
    hide ReplayBatch;
    if i + 1 == |batches| {
      assert batches[..i + 1] == batches;
    } else {
      assert batches[..|batches| - 1][..i + 1] == batches[..i + 1];
      ReplayStuck(refs, base, file, batches[..|batches| - 1], i);
    }
  }

  /** Whatever a journal holds, the operations that its replay reports have their inserted bytes inside the file. */
  lemma {:induction false} ReplayInFile(file: seq<byte>, offset: nat, crc: Checksum, i: nat)
    requires offset <= |file| && i < |ReplayFrom(file, offset, crc).batches|
    ensures InFile(file, DecodedPending(ReplayFrom(file, offset, crc).batches[i]))
    decreases |file| - offset
  {
    hide DecodeAt, InFile;
    var d := DecodeAt(file, offset, crc);
    if i == 0 {
      DecodedInFile(file, offset, crc);
    } else {
      ReplayInFile(file, d.value.1, crc, i - 1);
    }
  }

  lemma DecodedInFile(file: seq<byte>, offset: nat, crc: Checksum)
    requires DecodeAt(file, offset, crc).Some?
    ensures InFile(file, DecodedPending(DecodeAt(file, offset, crc).value.0))
  {
    hide DecodeOps, DecodeHead;
    var at := offset + BATCH_HEADER_SIZE;
    var head := DecodeHead(file[offset..at]).value;
    var table := at + BATCH_RECORD_SIZE * head.count;
    var ops := DecodeOps(file[at..table], head.count, table, at + head.payloadLength).value;
    forall i | 0 <= i < |ops|
      ensures ops[i].payloadOffset + ops[i].insertLength <= at + head.payloadLength
    {
      DecodedOpsEnd(file[at..table], head.count, table, at + head.payloadLength, i);
    }
  }

  lemma {:induction false} DecodedOpsEnd(records: seq<byte>, count: nat, cursor: nat, end: nat, i: nat)
    requires |records| == BATCH_RECORD_SIZE * count && cursor <= end && DecodeOps(records, count, cursor, end).Some?
    requires i < |DecodeOps(records, count, cursor, end).value|
    ensures var o := DecodeOps(records, count, cursor, end).value[i];
            o.payloadOffset + o.insertLength <= end
    decreases count
  {
    hide DecodeRecord;
    RecordCursor(records, count, cursor, end);
    if i > 0 {
      DecodedOpsEnd(records[BATCH_RECORD_SIZE..], count - 1,
                    cursor + DecodeRecord(records[..BATCH_RECORD_SIZE], cursor).value.insertLength, end, i - 1);
    }
  }

  lemma RecordCursor(records: seq<byte>, count: nat, cursor: nat, end: nat)
    requires |records| == BATCH_RECORD_SIZE * count && cursor <= end && DecodeOps(records, count, cursor, end).Some?
    ensures count > 0 ==>
              var o := DecodeRecord(records[..BATCH_RECORD_SIZE], cursor);
              o.Some? && o.value.payloadOffset == cursor && cursor + o.value.insertLength <= end
  {
  }

  // ---------------------------------------------------------------- choosing the journal

  /** What openMatchingJournal decides, and which journals it renames. */
  datatype Choice = NoJournals | Refuse(quarantined: set<P.Name>) | Replayable(name: P.Name, quarantined: set<P.Name>)

  /** A directory listing: every journal once, in any order. */
  predicate Lists(paths: seq<P.Name>, disk: P.Disk) {
    && (forall i :: 0 <= i < |paths| ==> paths[i] in disk.journals)
    && (forall n :: n in disk.journals ==> n in paths)
    && (forall i, j :: 0 <= i < j < |paths| ==> paths[i] != paths[j])
  }

  /** The probing loop reads every header. */
  method ProbeAll(env: P.Env, disk: P.Disk, paths: seq<P.Name>) returns (matching: seq<P.Name>, unreadable: set<P.Name>)
    requires Lists(paths, disk)
    ensures unreadable == set n | n in disk.journals && ReadFingerprint(disk.journals[n], env.crc) == None
    ensures forall n :: n in matching <==> n in P.Matching(env, disk)
    ensures forall j, k :: 0 <= j < k < |matching| ==> matching[j] != matching[k]
  {
    hide ReadFingerprint, P.FingerprintOf;
    var fingerprint := P.FingerprintOf(env, disk.base);
    matching, unreadable := [], {};
    var i := 0;
    while i < |paths|
      invariant 0 <= i <= |paths|
      invariant forall n :: n in unreadable <==> n in paths[..i] && ReadFingerprint(disk.journals[n], env.crc) == None
      invariant forall n :: n in matching <==>
                  n in paths[..i] && ReadFingerprint(disk.journals[n], env.crc) == Some(fingerprint)
      invariant forall j, k :: 0 <= j < k < |matching| ==> matching[j] != matching[k]
    {
      var stored := ReadFingerprint(disk.journals[paths[i]], env.crc);
      if stored.None? {
        unreadable := unreadable + {paths[i]};
      } else if stored.value == fingerprint {
        matching := matching + [paths[i]];
      }
      i := i + 1;
    }
    assert paths[..i] == paths;
  }

  /** The renaming loop: every path but the one to keep. */
  method Quarantine(paths: seq<P.Name>, keep: Option<P.Name>) returns (quarantined: set<P.Name>)
    ensures quarantined == set n | n in paths && keep != Some(n)
  {
    quarantined := {};
    var j := 0;
    while j < |paths|
      invariant 0 <= j <= |paths|
      invariant quarantined == set n | n in paths[..j] && keep != Some(n)
    {
      if keep != Some(paths[j]) {
        quarantined := quarantined + {paths[j]};
      }
      j := j + 1;
    }
    assert paths[..j] == paths;
  }

  /** openMatchingJournalWithQuarantine: probe every path, in whatever order the directory listing and the
      modification times give; refuse unreadable headers, several matches and no match; set the rest aside. */
  method ChooseJournal(env: P.Env, disk: P.Disk, paths: seq<P.Name>) returns (choice: Choice)
    requires Lists(paths, disk)
    ensures Utf8.Valid(BaseScan.TextOf(disk.base)) ==>
              match choice
              case NoJournals => disk.journals == map[]
              case Refuse(quarantined) => P.Reopen(env, disk) == P.Refused(P.Without(disk, quarantined))
              case Replayable(name, quarantined) =>
                && name in disk.journals && P.Without(disk, quarantined).journals == map[name := disk.journals[name]]
                && FILE_HEADER_SIZE <= |disk.journals[name]|
                && P.Reopen(env, disk) == P.OpenJournal(env, disk.base, name, disk.journals[name])
  {
    hide ReadFingerprint, Utf8.Valid, P.FingerprintOf, P.OpenJournal;
    if |paths| == 0 {
      return NoJournals;
    }
    assert paths[0] in disk.journals;
    var matching, unreadable := ProbeAll(env, disk, paths);
    if unreadable != {} {
      return Refuse(unreadable);
    }
    if |matching| != 1 {
      var quarantined := Quarantine(if |matching| > 1 then matching else paths, None);
      RefusesChoice(env, disk, matching, quarantined);
      return Refuse(quarantined);
    }
    var quarantined := Quarantine(paths, Some(matching[0]));
    OneChoice(env, disk, matching[0], quarantined);
    return Replayable(matching[0], quarantined);
  }

  lemma OneChoice(env: P.Env, disk: P.Disk, name: P.Name, quarantined: set<P.Name>)
    requires P.Matching(env, disk) == {name} && quarantined == disk.journals.Keys - {name}
    requires (set n | n in disk.journals && ReadFingerprint(disk.journals[n], env.crc) == None) == {}
    ensures name in disk.journals && P.Without(disk, quarantined).journals == map[name := disk.journals[name]]
    ensures FILE_HEADER_SIZE <= |disk.journals[name]|
    ensures Utf8.Valid(BaseScan.TextOf(disk.base)) ==>
              P.Reopen(env, disk) == P.OpenJournal(env, disk.base, name, disk.journals[name])
  {
    hide Utf8.Valid, P.FingerprintOf, P.OpenJournal;
    assert name in P.Matching(env, disk);
    hide ReadFingerprint;
  }

  /** Several matches, or none, refuse the whole opening. */
  lemma RefusesChoice(env: P.Env, disk: P.Disk, matching: seq<P.Name>, quarantined: set<P.Name>)
    requires disk.journals != map[] && |matching| != 1
    requires (set n | n in disk.journals && ReadFingerprint(disk.journals[n], env.crc) == None) == {}
    requires forall n :: n in matching <==> n in P.Matching(env, disk)
    requires forall j, k :: 0 <= j < k < |matching| ==> matching[j] != matching[k]
    requires quarantined == if |matching| > 1 then P.Matching(env, disk) else disk.journals.Keys
    ensures Utf8.Valid(BaseScan.TextOf(disk.base)) ==> P.Reopen(env, disk) == P.Refused(P.Without(disk, quarantined))
  {
    hide ReadFingerprint, Utf8.Valid, P.FingerprintOf;
    if |matching| > 1 {
      assert matching[0] in P.Matching(env, disk) && matching[1] in P.Matching(env, disk) - {matching[0]};
      assert |P.Matching(env, disk)| == |P.Matching(env, disk) - {matching[0]}| + 1;
    } else {
      assert P.Matching(env, disk) == {};
      assert disk.journals - disk.journals.Keys == map[];
    }
  }
}
