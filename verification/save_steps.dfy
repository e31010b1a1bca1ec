/** The steps of a save, from the snapshot to the rebased session, keep the invariant of the protocol. */
module SaveSteps {
  import opened Documents
  import opened Utf8
  import opened PieceTree
  import opened Journal
  import opened JournalFiles
  import opened SessionLog
  import opened SessionProtocol
  import opened SessionRecovery
  import opened SessionInvariant
  import opened SessionSteps
  import opened BaseScan

  // ---------------------------------------------------------------- streaming

  /** A snapshot of the tree after some of the batches reads the image of those batches, however
      much the journal has grown since. */
  lemma SnapshotReads(env: Env, s: System, ses: Session, cut: nat)
    requires Live(env, s, ses) && cut <= |s.history.log| && ses.journal.Some?
    ensures AllValid(s.history.log[..cut])
    ensures var snapshot := SpliceAll(BaseTree(ses.base, ses.hasBOM),
                                      LogPending(s.history.log[..cut], FILE_HEADER_SIZE));
            IsImage(ses.base, s.history.log, cut, ImageOf(s.disk, ses, snapshot))
  {
    LogPrefix(env, ses.base, s.history.log, s.history.committed, cut, s.appending);
    LiveFacts(env, s, ses);
    hide Live, LogOf, JournalBytes, ValidBatch, LogPending, SpliceAll, BaseTree, Readable, Resolve, ReadOps, InFile,
         Apply, Applicable;
    LogReads(env, ses.base, ses.hasBOM, s.history.log[..cut], s.history.committed, JournalOf(s.disk, ses));
  }

  lemma LiveFacts(env: Env, s: System, ses: Session)
    requires Live(env, s, ses)
    ensures ses.hasBOM == StartsWithBOM(ses.base) && LogOf(ses.base, s.history.log, s.history.committed)
    ensures ses.journal.Some? ==> JournalOf(s.disk, ses) == JournalBytes(env, ses.base, s.history.log, s.appending)
  {
  }

  /** The first batches of a log are a log, and the journal begins with them. */
  lemma LogPrefix(env: Env, base: seq<byte>, log: seq<Batch>, committed: nat, cut: nat, appending: Option<Appending>)
    requires LogOf(base, log, committed) && cut <= |log|
    ensures LogOf(base, log[..cut], committed)
    ensures JournalBytes(env, base, log[..cut], None) <= JournalBytes(env, base, log, appending)
  {
    hide Valid, RuneLen, ValidBatch, Accepted, Bounded, Apply, Applicable, Chained, OpsOf, EncodeAll, NewFile, Tail;
    ChainedSplit(log, committed, cut);
    ChainedValid(log[..cut], committed);
    StageableConcat(TextOf(base), OpsOf(log[..cut]), OpsOf(log[cut..]));
    EncodePrefix(log, cut, env.crc);
    RepairedHolds(env, base, log[..cut]);
  }

  lemma {:induction false} EncodePrefix(log: seq<Batch>, cut: nat, crc: Checksum)
    requires AllValid(log) && cut <= |log|
    ensures AllValid(log[..cut]) && EncodeAll(log[..cut], crc) <= EncodeAll(log, crc)
    decreases |log|
  {
    hide ValidBatch, Encode;
    if cut > 0 {
      EncodePrefix(log[1..], cut - 1, crc);
      assert log[..cut][0] == log[0] && log[..cut][1..] == log[1..][..cut - 1];
    }
  }

  lemma StepBeginSave(env: Env, s: System, ses: Session)
    requires Live(env, s, ses) && CanStep(env, s.disk, ses, s.appending, BeginSave) && s.session == Some(ses)
    ensures var t := DoBeginSave(s, ses);
            t.session.Some? && Live(env, t, t.session.value)
  {
    hide Live, LogOf, SpliceAll, BaseTree, LogPending, OpsOf, ValidBatch, Resolve, StartsWithBOM, IsImage;
    var log := s.history.log;
    JournalNeeded(env, s, ses);
    SnapshotReads(env, s, ses, |log|);
    assert log[..|log|] == log;
    TreeOf(env, s, ses);
    BeginSaved(env, s, ses, ImageOf(s.disk, ses, ses.tree));
  }

  lemma TreeOf(env: Env, s: System, ses: Session)
    requires Live(env, s, ses)
    ensures AllValid(s.history.log)
    ensures ses.tree == SpliceAll(BaseTree(ses.base, ses.hasBOM), LogPending(s.history.log, FILE_HEADER_SIZE))
  {
  }

  lemma BeginSaved(env: Env, s: System, ses: Session, image: seq<byte>)
    requires Live(env, s, ses) && CanStep(env, s.disk, ses, s.appending, BeginSave) && s.session == Some(ses)
    requires ses.journal.Some? && IsImage(ses.base, s.history.log, |s.history.log|, image)
             && |image| == ImageSize(ses, ses.tree)
    requires AllValid(s.history.log) && s.history.log[..|s.history.log|] == s.history.log
    ensures var t := DoBeginSave(s, ses);
            t.session.Some? && Live(env, t, t.session.value)
  {
    hide LogOf, NextOf, NoOther, JournalBytes, SpliceAll, BaseTree, LogPending, OpsOf, ReadFingerprint, ValidBatch,
         TotalSize, StartsWithBOM, IsImage;
    assert [] <= image;
  }

  /** A dirty session has a journal. */
  lemma JournalNeeded(env: Env, s: System, ses: Session)
    requires Live(env, s, ses) && ses.revision > ses.committed && ses.phase.Idle?
    ensures ses.journal.Some?
  {
  }

  lemma StepStream(env: Env, s: System, ses: Session, count: nat)
    requires Live(env, s, ses) && ses.phase.Streaming?
             && |ses.phase.written| + count <= ImageSize(ses, ses.phase.snapshot) && s.session == Some(ses)
    ensures var t := DoStream(s, ses, count);
            t.session.Some? && Live(env, t, t.session.value)
  {
    hide Live, Resolve, ImageOf, IsImage, Prefix, Document, Stageable, Copyable, ValidBatch;
    StreamedSoFar(env, s, ses);
    var image := ImageOf(s.disk, ses, ses.phase.snapshot);
    var n := |ses.phase.written|;
    assert ses.phase.written == image[..n];
    assert ses.phase.written + image[n..n + count] == image[..n + count];
    Streamed(env, s, ses, image, image[..n + count]);
  }

  /** What has been streamed so far is a prefix of the image, read through whatever the journal holds now. */
  lemma StreamedSoFar(env: Env, s: System, ses: Session)
    requires Live(env, s, ses) && ses.phase.Streaming?
    ensures var image := ImageOf(s.disk, ses, ses.phase.snapshot);
            && IsImage(ses.base, s.history.log, s.history.cut, image) && |image| == ImageSize(ses, ses.phase.snapshot)
            && ses.phase.written <= image
  {
    hide LogOf, NextOf, NoOther, JournalBytes, SpliceAll, BaseTree, LogPending, OpsOf, ReadFingerprint, ValidBatch,
         Resolve, TotalSize, StartsWithBOM, TextOf, Apply, Applicable, AllHeaded;
    SnapshotReads(env, s, ses, s.history.cut);
  }

  lemma Streamed(env: Env, s: System, ses: Session, image: seq<byte>, written: seq<byte>)
    requires Live(env, s, ses) && ses.phase.Streaming? && s.session == Some(ses)
    requires IsImage(ses.base, s.history.log, s.history.cut, image) && |image| == ImageSize(ses, ses.phase.snapshot)
             && written <= image
    ensures Live(env, s.(session := Some(ses.(phase := ses.phase.(written := written)))),
                 ses.(phase := ses.phase.(written := written)))
  {
    hide LogOf, NextOf, NoOther, JournalBytes, SpliceAll, BaseTree, LogPending, OpsOf, ReadFingerprint, ValidBatch,
         TotalSize, StartsWithBOM, IsImage;
  }

  lemma StepAbandonStream(env: Env, s: System, ses: Session)
    requires Live(env, s, ses) && s.appending.None? && ses.phase.Streaming? && s.session == Some(ses)
    ensures Live(env, AtPhase(s, Idle), ses.(phase := Idle))
  {
    hide LogOf, NextOf, NoOther, JournalBytes, SpliceAll, BaseTree, LogPending, OpsOf, ReadFingerprint, ValidBatch,
         IsImage, TotalSize;
  }

  // ---------------------------------------------------------------- the boundary of a save

  /** The edits since the snapshot are a suffix of the pending list. */
  lemma {:induction false} NewerSuffix(pending: seq<Pending>, committed: nat, k: nat)
    requires forall i :: 0 <= i < |pending| ==> pending[i].revision == committed + 1 + i
    requires k <= |pending|
    ensures Newer(pending, committed + k) == pending[k..]
    decreases |pending|
  {
    if pending != [] {
      var last := |pending| - 1;
      if k == |pending| {
        NewerNone(pending, committed + k);
      } else {
        NewerSuffix(pending[..last], committed, k);
        assert pending[..last][k..] + [pending[last]] == pending[k..];
      }
    }
  }

  lemma {:induction false} NewerNone(pending: seq<Pending>, target: nat)
    requires forall i :: 0 <= i < |pending| ==> pending[i].revision <= target
    ensures Newer(pending, target) == []
    decreases |pending|
  {
    if pending != [] {
      NewerNone(pending[..|pending| - 1], target);
    }
  }

  lemma RestAt(env: Env, s: System, ses: Session, k: nat)
    requires Live(env, s, ses) && k <= |s.history.log|
    ensures |OpsOf(s.history.log[..k])| <= |ses.pending| == |OpsOf(s.history.log)|
    ensures Newer(ses.pending, s.history.committed + |OpsOf(s.history.log[..k])|)
            == ses.pending[|OpsOf(s.history.log[..k])|..]
  {
    hide Live, ValidBatch, OpsOf, LogPending, Chained;
    PendingIs(env, s, ses);
    var h := s.history;
    ChainedSplit(h.log, h.committed, k);
    PendingRevisions(h.log, h.committed, FILE_HEADER_SIZE);
    NewerSuffix(ses.pending, h.committed, |OpsOf(h.log[..k])|);
  }

  lemma PendingIs(env: Env, s: System, ses: Session)
    requires Live(env, s, ses)
    ensures AllValid(s.history.log) && ses.pending == LogPending(s.history.log, FILE_HEADER_SIZE)
    ensures Chained(s.history.log, s.history.committed)
    ensures ses.revision == s.history.committed + |OpsOf(s.history.log)|
  {
  }

  /** The state after the new journal has been created, described by what the step needs of it. */
  lemma BoundaryEntered(env: Env, s: System, ses: Session, name: Name, image: seq<byte>, file: seq<byte>,
                        rest: seq<Pending>)
    requires Live(env, s, ses) && s.session == Some(ses) && ses.phase.Streaming? && s.appending.None?
             && name !in s.disk.journals
    requires image == ses.phase.written && |image| <= MAX_INT64 && StartsWithBOM(image) == ses.hasBOM
    requires IsImage(ses.base, s.history.log, s.history.cut, image)
    requires NoOther(env, s.disk, {}, image) && ReadFingerprint(file, env.crc) == Some(FingerprintOf(env, image))
    requires AllValid([]) && file == JournalBytes(env, image, [], None) && LogPending([], FILE_HEADER_SIZE) == []
    requires ses.journal.Some? && ses.journal.value in s.disk.journals
    requires ReadFingerprint(s.disk.journals[ses.journal.value], env.crc) == Some(FingerprintOf(env, ses.base))
    requires |OpsOf(s.history.log[..s.history.cut])| <= |ses.pending|
    requires rest == ses.pending[|OpsOf(s.history.log[..s.history.cut])|..]
    ensures var t := System(WithFile(s.disk, name, file),
                            Some(ses.(phase := Locked(ses.phase.target, image, name, rest, []))),
                            None, s.retired, s.history.(copied := s.history.cut));
            Live(env, t, t.session.value)
  {
    hide LogOf, NextOf, JournalBytes, SpliceAll, BaseTree, LogPending, OpsOf, ReadFingerprint, ValidBatch, TotalSize,
         StartsWithBOM, IsImage, ImageSize;
    assert s.history.log[s.history.cut..s.history.cut] == [];
  }

  lemma StepEnterBoundary(env: Env, s: System, ses: Session, name: Name)
    requires Live(env, s, ses) && CanStep(env, s.disk, ses, s.appending, EnterBoundary(name)) && s.session == Some(ses)
    requires Assumed(env, s, EnterBoundary(name))
    ensures var t := DoEnterBoundary(env, s, ses, name);
            t.session.Some? && Live(env, t, t.session.value)
  {
    hide Live, JournalBytes, NoOther, LogPending, ReadFingerprint, OpsOf, StartsWithBOM, NewFile, ImageOf, Newer,
         IsImage, Stageable, Copyable, ValidBatch, Document;
    var p := ses.phase;
    StreamingFacts(env, s, ses);
    FullyStreamed(env, s, ses);
    RestAt(env, s, ses, s.history.cut);
    NewJournal(env, p.written);
    BoundaryEntered(env, s, ses, name, p.written, NewFile(env, p.written), Newer(ses.pending, p.target));
  }

  lemma FullyStreamed(env: Env, s: System, ses: Session)
    requires Live(env, s, ses) && ses.phase.Streaming? && |ses.phase.written| == ImageSize(ses, ses.phase.snapshot)
    ensures IsImage(ses.base, s.history.log, s.history.cut, ses.phase.written)
  {
    hide Live, IsImage, ImageOf;
    StreamedSoFar(env, s, ses);
    assert ses.phase.written == ImageOf(s.disk, ses, ses.phase.snapshot);
  }

  lemma NewJournal(env: Env, base: seq<byte>)
    requires |base| <= MAX_INT64
    ensures ReadFingerprint(NewFile(env, base), env.crc) == Some(FingerprintOf(env, base))
    ensures NewFile(env, base) == JournalBytes(env, base, [], None) && LogPending([], FILE_HEADER_SIZE) == []
  {
    hide NewFile, ReadFingerprint;
    JournalHead(env, base, [], None);
    assert NewFile(env, base) + [] + [] == NewFile(env, base);
    LogPendingNothing(FILE_HEADER_SIZE);
  }

  lemma StreamingFacts(env: Env, s: System, ses: Session)
    requires Live(env, s, ses) && ses.phase.Streaming?
    ensures s.history.cut <= |s.history.log| && ImageSize(ses, ses.phase.snapshot) <= MAX_INT64
    ensures ses.phase.target == s.history.committed + |OpsOf(s.history.log[..s.history.cut])|
    ensures ses.journal.Some? && ses.journal.value in s.disk.journals
    ensures ReadFingerprint(s.disk.journals[ses.journal.value], env.crc) == Some(FingerprintOf(env, ses.base))
  {
    hide ReadFingerprint, JournalBytes, NoOther, SpliceAll, BaseTree, LogPending, OpsOf, ValidBatch, TotalSize,
         StartsWithBOM, IsImage, Stageable, NextOf, Chained;
    JournalHead(env, ses.base, s.history.log, s.appending);
  }

  // ---------------------------------------------------------------- copying newer edits into the prepared journal

  /** The grouping loop stops exactly where the group changes. */
  lemma {:induction false} RunLengthIs(pending: seq<Pending>, n: nat)
    requires 0 < n <= |pending|
    requires forall i :: 0 <= i < n ==> pending[i].group == pending[0].group
    requires n < |pending| ==> pending[n].group != pending[0].group
    ensures RunLength(pending) == n
    decreases |pending|
  {
    if |pending| > 1 {
      var init := pending[..|pending| - 1];
      if n < |pending| {
        RunLengthIs(init, n);
      } else {
        RunLengthIs(init, n - 1);
      }
    }
  }

  /** Batch k of the log, as the pending list shows it: its run of operations, and a different group behind it. */
  lemma NextGroup(log: seq<Batch>, committed: nat, k: nat, pending: seq<Pending>)
    requires Chained(log, committed) && AllValid(log) && k < |log|
    requires pending == LogPending(log, FILE_HEADER_SIZE)
    ensures AllValid(log[..k]) && |OpsOf(log[..k])| <= |pending| == |OpsOf(log)|
    ensures var rest := pending[|OpsOf(log[..k])|..];
            var n := |log[k].ops|;
            && 0 < n <= |rest| && RunLength(rest) == n
            && rest[..n] == DecodedPending(DecodedOf(log[k], FILE_HEADER_SIZE + TotalSize(log[..k])))
            && |OpsOf(log[..k + 1])| == |OpsOf(log[..k])| + n
            && rest[n..] == pending[|OpsOf(log[..k + 1])|..]
            && rest[0].revision == log[k].firstRevision && rest[0].group == log[k].group
  {
    hide ValidBatch, OpsOf, LogPending, TotalSize, Chained, DecodedOps;
    var at := FILE_HEADER_SIZE + TotalSize(log[..k]);
    var n := |log[k].ops|;
    ChainedAt(log, committed, k);
    PendingOfBatch(log, k, FILE_HEADER_SIZE);
    PendingRevisions(log, committed, FILE_HEADER_SIZE);
    ChainedSplit(log, committed, k);
    PendingRevisions(log[..k], committed, FILE_HEADER_SIZE);
    BatchCount(log[k], at);
    var from := |OpsOf(log[..k])|;
    var rest := pending[from..];
    assert rest[..n] == pending[from..from + n];
    assert rest[n..] == pending[from + n..];
    var run := DecodedPending(DecodedOf(log[k], at));
    forall i | 0 <= i < n
      ensures rest[i].group == log[k].group
    {
      assert rest[i] == rest[..n][i] == run[i];
    }
    assert log[..|log|] == log;
    if n < |rest| {
      GroupChanges(log, committed, k, pending);
    }
    RunLengthIs(rest, n);
    assert rest[0] == rest[..n][0] == run[0];
  }

  lemma ChainedAt(log: seq<Batch>, committed: nat, k: nat)
    requires Chained(log, committed) && k < |log|
    ensures ValidBatch(log[k]) && log[k].firstRevision == log[k].group == committed + |OpsOf(log[..k])| + 1
    ensures |OpsOf(log[..k + 1])| == |OpsOf(log[..k])| + |log[k].ops|
    ensures |log[k].ops| > 0 && |OpsOf(log[..k + 1])| <= |OpsOf(log)|
  {
    hide OpsOf;
    assert log[..k + 1][..k] == log[..k] && log[..k + 1] == log[..k] + [log[k]];
    ChainedSplit(log, committed, k + 1);
    ChainedStep(log[..k], log[k], committed);
    OpsSnoc(log[..k], log[k]);
  }

  lemma GroupChanges(log: seq<Batch>, committed: nat, k: nat, pending: seq<Pending>)
    requires Chained(log, committed) && AllValid(log) && k + 1 < |log| && pending == LogPending(log, FILE_HEADER_SIZE)
    ensures |OpsOf(log[..k + 1])| < |pending|
    ensures pending[|OpsOf(log[..k + 1])|].group > log[k].group
  {
    hide ValidBatch, OpsOf, LogPending, TotalSize, Chained, DecodedOps;
    PendingRevisions(log, committed, FILE_HEADER_SIZE);
    ChainedAt(log, committed, k);
    ChainedAt(log, committed, k + 1);
    PendingOfBatch(log, k + 1, FILE_HEADER_SIZE);
    ChainedSplit(log, committed, k + 1);
    PendingRevisions(log[..k + 1], committed, FILE_HEADER_SIZE);
    var from := |OpsOf(log[..k + 1])|;
    var n := |log[k + 1].ops|;
    assert pending[from] == pending[from..from + n][0];
    BatchCount(log[k + 1], FILE_HEADER_SIZE + TotalSize(log[..k + 1]));
  }

  /** Rewriting the offsets of a run is decoding its batch at the new place. */
  lemma RebasedIs(b: Batch, from: nat, at: nat)
    requires ValidBatch(b)
    ensures |DecodedPending(DecodedOf(b, from))| == |b.ops|
    ensures RebasedTo(DecodedPending(DecodedOf(b, from)), b, at) == DecodedPending(DecodedOf(b, at))
  {
    hide DecodedOps, Inserts;
    forall i | 0 <= i < |b.ops|
      ensures RebasedTo(DecodedPending(DecodedOf(b, from)), b, at)[i] == DecodedPending(DecodedOf(b, at))[i]
    {
      var table := BATCH_HEADER_SIZE + BATCH_RECORD_SIZE * |b.ops|;
      DecodedFields(b.ops, from + table, i);
      DecodedFields(b.ops, at + table, i);
    }
  }

  /** The batch that the rebase writes next is, operation by operation, the next batch of the log. */
  ghost predicate NextIs(file: seq<byte>, pending: seq<Pending>, rest: seq<Pending>, log: seq<Batch>, k: nat) {
    && k < |log| && rest != [] && InFile(file, rest) && AllValid(log) && AllValid(log[..k])
    && NextBatch(file, rest) == log[k] && RunLength(rest) == |log[k].ops| <= |rest|
    && rest[..|log[k].ops|] == DecodedPending(DecodedOf(log[k], FILE_HEADER_SIZE + TotalSize(log[..k])))
    && |OpsOf(log[..k + 1])| <= |pending| && rest[|log[k].ops|..] == pending[|OpsOf(log[..k + 1])|..]
  }

  lemma NextBatchValue(file: seq<byte>, log: seq<Batch>, committed: nat, k: nat, pending: seq<Pending>)
    requires Chained(log, committed) && AllValid(log) && k < |log| && pending == LogPending(log, FILE_HEADER_SIZE)
    requires InFile(file, pending) && ReadOps(file, pending) == OpsOf(log)
    ensures |OpsOf(log[..k])| <= |pending| && NextIs(file, pending, pending[|OpsOf(log[..k])|..], log, k)
  {
    hide Chained, OpsOf, LogPending, DecodedOf, TotalSize, ValidBatch, RunLength, ReadOps, InFile;
    NextGroup(log, committed, k, pending);
    ChainedAt(log, committed, k);
    ReadSlice(file, pending, |OpsOf(log[..k])|, log[k], log, k);
  }

  lemma NextBatchIs(env: Env, s: System, ses: Session)
    requires Live(env, s, ses) && ses.phase.Locked? && ses.phase.rest != []
    ensures NextIs(JournalOf(s.disk, ses), ses.pending, ses.phase.rest, s.history.log, s.history.copied)
    ensures Copyable(s.disk, ses)
  {
    var h, file := s.history, JournalOf(s.disk, ses);
    LockedFacts(env, s, ses);
    PendingIs(env, s, ses);
    LiveDocument(env, s, ses);
    hide Live, Chained, OpsOf, LogPending, DecodedOf, TotalSize, ValidBatch, Document, Readable, Apply, RunLength,
         ReadOps, InFile, Applicable, Sources;
    RestNotEmpty(h.log, h.committed, h.copied);
    NextBatchValue(file, h.log, h.committed, h.copied, ses.pending);
  }

  lemma LockedFacts(env: Env, s: System, ses: Session)
    requires Live(env, s, ses) && ses.phase.Locked?
    ensures s.history.copied <= |s.history.log| && ses.phase.name in s.disk.journals && ses.journal.Some?
    ensures |OpsOf(s.history.log[..s.history.copied])| <= |ses.pending|
    ensures ses.phase.rest == ses.pending[|OpsOf(s.history.log[..s.history.copied])|..]
  {
    hide LogOf, NextOf, NoOther, JournalBytes, SpliceAll, BaseTree, LogPending, OpsOf, ReadFingerprint, ValidBatch,
         TotalSize, IsImage;
  }

  /** There is something left to copy exactly when batches are left. */
  lemma RestNotEmpty(log: seq<Batch>, committed: nat, k: nat)
    requires Chained(log, committed) && AllValid(log) && k <= |log|
    ensures |OpsOf(log[..k])| == |LogPending(log, FILE_HEADER_SIZE)| <==> k == |log|
  {
    hide ValidBatch, OpsOf, LogPending, Chained;
    PendingRevisions(log, committed, FILE_HEADER_SIZE);
    if k == |log| {
      assert log[..k] == log;
    } else {
      ChainedAt(log, committed, k);
    }
  }

  /** Reading a run of pending operations from the journal gives the operations of its batch. */
  lemma ReadSlice(file: seq<byte>, pending: seq<Pending>, from: nat, b: Batch, log: seq<Batch>, k: nat)
    requires InFile(file, pending) && ReadOps(file, pending) == OpsOf(log)
    requires k < |log| && b == log[k] && from == |OpsOf(log[..k])| && from + |b.ops| <= |pending|
    ensures var rest := pending[from..];
            InFile(file, rest) && InFile(file, rest[..|b.ops|]) && ReadOps(file, rest[..|b.ops|]) == b.ops
  {
    var n := |b.ops|;
    var run := pending[from..][..n];
    assert log == log[..k] + [b] + log[k + 1..];
    OpsConcat(log[..k] + [b], log[k + 1..]);
    OpsSnoc(log[..k], b);
    assert OpsOf(log)[from..from + n] == b.ops;
    forall i | 0 <= i < n
      ensures ReadOp(file, run[i]) == b.ops[i]
    {
      assert ReadOps(file, pending)[from + i] == OpsOf(log)[from..from + n][i];
    }
  }

  /** The prepared journal after one more group. */
  lemma CopiedFile(env: Env, image: seq<byte>, done: seq<Batch>, b: GoodBatch, run: seq<Pending>, from: nat)
    requires AllValid(done) && |image| <= MAX_INT64 && run == DecodedPending(DecodedOf(b, from))
    ensures AllValid(done + [b]) && |run| == |b.ops|
    ensures var file := JournalBytes(env, image, done, None);
            && file + Encode(b, env.crc) == JournalBytes(env, image, done + [b], None)
            && LogPending(done, FILE_HEADER_SIZE) + RebasedTo(run, b, |file|)
               == LogPending(done + [b], FILE_HEADER_SIZE)
  {
    hide JournalBytes, ValidBatch, Encode, EncodeAll, NewFile, LogPending, TotalSize, DecodedOf, ReadFingerprint,
         RebasedTo, Size;
    JournalHead(env, image, done, None);
    JournalShapes(env, image, done, None);
    JournalShapes(env, image, done + [b], None) by { DecodedAllSnoc(done, b, 0); }
    EncodeAllSnoc(done, b, env.crc);
    LogPendingSnoc(done, b, FILE_HEADER_SIZE);
    RebasedIs(b, from, FILE_HEADER_SIZE + TotalSize(done));
  }

  /** The next group stands in the prepared journal: what the copying step needs. */
  ghost predicate GroupAdded(env: Env, s: System, ses: Session, file: seq<byte>, rest: seq<Pending>,
                             moved: seq<Pending>) {
    var h := s.history;
    && ses.phase.Locked? && h.cut <= h.copied < |h.log| && AllValid(h.log[h.cut..h.copied + 1])
    && file == JournalBytes(env, ses.phase.image, h.log[h.cut..h.copied + 1], None)
    && moved == LogPending(h.log[h.cut..h.copied + 1], FILE_HEADER_SIZE)
    && |OpsOf(h.log[..h.copied + 1])| <= |ses.pending| && rest == ses.pending[|OpsOf(h.log[..h.copied + 1])|..]
    && ReadFingerprint(file, env.crc) == Some(FingerprintOf(env, ses.phase.image))
    && FingerprintOf(env, ses.phase.image) != FingerprintOf(env, ses.base)
  }

  function AfterGroup(s: System, ses: Session, file: seq<byte>, rest: seq<Pending>, moved: seq<Pending>): System
    requires ses.phase.Locked?
  {
    System(WithFile(s.disk, ses.phase.name, file), Some(ses.(phase := ses.phase.(rest := rest, moved := moved))),
           s.appending, s.retired, s.history.(copied := s.history.copied + 1))
  }

  lemma CopiedPhase(env: Env, s: System, ses: Session, file: seq<byte>, rest: seq<Pending>, moved: seq<Pending>)
    requires AllValid(s.history.log) && InPhase(env, s, ses) && GroupAdded(env, s, ses, file, rest, moved)
    ensures var t := AfterGroup(s, ses, file, rest, moved);
            InPhase(env, t, t.session.value)
  {
    hide JournalBytes, LogPending, OpsOf, ReadFingerprint, ValidBatch, IsImage, FingerprintOf, StartsWithBOM;
  }

  lemma Copied(env: Env, s: System, ses: Session, file: seq<byte>, rest: seq<Pending>, moved: seq<Pending>)
    requires Live(env, s, ses) && GroupAdded(env, s, ses, file, rest, moved)
    ensures var t := AfterGroup(s, ses, file, rest, moved);
            Live(env, t, t.session.value)
  {
    var t := AfterGroup(s, ses, file, rest, moved);
    PreparedJournal(env, s, ses);
    Parts(env, s, ses);
    hide Live, Memory, InJournal, InPhase, JournalBytes, ReadFingerprint, OpsOf, LogPending, FingerprintOf, ValidBatch;
    CopiedPhase(env, s, ses, file, rest, moved);
    FileChanged(env, s.disk, ses.phase.name, file);
    MemoryKept(s, ses, t, t.session.value);
    InJournalKept(env, s, ses, t, t.session.value);
    Joined(env, t, t.session.value);
  }

  lemma PreparedJournal(env: Env, s: System, ses: Session)
    requires Live(env, s, ses) && ses.phase.Locked?
    ensures ses.journal.Some? && ses.journal.value != ses.phase.name && ses.journal.value in s.disk.journals
  {
    hide LogOf, NextOf, JournalBytes, SpliceAll, BaseTree, LogPending, OpsOf, ReadFingerprint, ValidBatch, TotalSize,
         StartsWithBOM, IsImage, FingerprintOf;
  }

  lemma PreparedFacts(env: Env, s: System, ses: Session)
    requires Live(env, s, ses) && ses.phase.Locked?
    ensures var h, p := s.history, ses.phase;
            && h.cut <= h.copied <= |h.log| && AllValid(h.log[h.cut..h.copied]) && |p.image| <= MAX_INT64
            && s.disk.journals[p.name] == JournalBytes(env, p.image, h.log[h.cut..h.copied], None)
            && p.moved == LogPending(h.log[h.cut..h.copied], FILE_HEADER_SIZE)
    ensures ReadFingerprint(s.disk.journals[ses.phase.name], env.crc) == Some(FingerprintOf(env, ses.phase.image))
    ensures FingerprintOf(env, ses.phase.image) != FingerprintOf(env, ses.base)
  {
    hide LogOf, NextOf, JournalBytes, SpliceAll, BaseTree, LogPending, OpsOf, ReadFingerprint, ValidBatch, TotalSize,
         StartsWithBOM, IsImage, FingerprintOf;
    LiveBase(env, s, ses);
    JournalHead(env, ses.phase.image, s.history.log[s.history.cut..s.history.copied], None);
    JournalHead(env, ses.base, s.history.log, None);
  }

  lemma StepCopyGroup(env: Env, s: System, ses: Session)
    requires Live(env, s, ses) && Copyable(s.disk, ses) && s.session == Some(ses)
    ensures var t := DoCopyGroup(env, s, ses);
            t.session.Some? && Live(env, t, t.session.value)
  {
    hide Live, JournalBytes, ReadFingerprint, FingerprintOf, OpsOf, LogPending, DecodedOf, TotalSize, ReadOps, InFile,
         RunLength, Encode, RebasedTo, ValidBatch;
    var h, p := s.history, ses.phase;
    NextBatchIs(env, s, ses);
    PreparedFacts(env, s, ses);
    var done, b := h.log[h.cut..h.copied], h.log[h.copied];
    assert done + [b] == h.log[h.cut..h.copied + 1];
    CopiedFile(env, p.image, done, b, p.rest[..|b.ops|], FILE_HEADER_SIZE + TotalSize(h.log[..h.copied]));
    var file := s.disk.journals[p.name] + Encode(b, env.crc);
    FingerprintKept(s.disk.journals[p.name], file, env.crc);
    Copied(env, s, ses, file, p.rest[|b.ops|..], p.moved + RebasedTo(p.rest[..|b.ops|], b, |s.disk.journals[p.name]|));
  }

  lemma StepCopyTorn(env: Env, s: System, ses: Session, count: nat)
    requires Live(env, s, ses) && Copyable(s.disk, ses)
             && count <= Size(NextBatch(JournalOf(s.disk, ses), ses.phase.rest)) && s.session == Some(ses)
    ensures var t := DoCopyTorn(env, s, ses, count);
            t.session.Some? && Live(env, t, t.session.value)
  {
    hide Live, JournalBytes, ReadFingerprint, FingerprintOf, InFile, RunLength, Encode, ValidBatch, ReadOps, Size;
    PreparedFacts(env, s, ses);
    var part := Encode(NextBatch(JournalOf(s.disk, ses), ses.phase.rest), env.crc)[..count];
    var file := s.disk.journals[ses.phase.name] + part;
    FingerprintKept(s.disk.journals[ses.phase.name], file, env.crc);
    BrokenOff(env, s, ses, file);
  }

  lemma BrokenOff(env: Env, s: System, ses: Session, file: seq<byte>)
    requires Live(env, s, ses) && s.session == Some(ses) && ses.phase.Locked?
    requires ReadFingerprint(file, env.crc) == Some(FingerprintOf(env, ses.phase.image))
    requires FingerprintOf(env, ses.phase.image) != FingerprintOf(env, ses.base)
    ensures Live(env, s.(session := Some(ses.(phase := Broken(ses.phase.name))),
                         disk := WithFile(s.disk, ses.phase.name, file)),
                 ses.(phase := Broken(ses.phase.name)))
  {
    hide LogOf, NextOf, JournalBytes, SpliceAll, BaseTree, LogPending, OpsOf, ReadFingerprint, ValidBatch, TotalSize,
         IsImage, FingerprintOf;
  }

  lemma StepDiscard(env: Env, s: System, ses: Session, removed: bool)
    requires Live(env, s, ses) && (ses.phase.Locked? || ses.phase.Broken?) && s.session == Some(ses)
    ensures Live(env, AtPhase(s, Idle).(disk := if removed then Without(s.disk, {ses.phase.name}) else s.disk),
                 ses.(phase := Idle))
  {
    hide LogOf, NextOf, JournalBytes, SpliceAll, BaseTree, LogPending, OpsOf, ReadFingerprint, ValidBatch, TotalSize,
         IsImage, FingerprintOf;
  }

  lemma StepReplaceBase(env: Env, s: System, ses: Session)
    requires Live(env, s, ses) && ses.phase.Locked? && ses.phase.rest == [] && s.session == Some(ses)
    ensures var t := DoReplaceBase(s, ses);
            t.session.Some? && Live(env, t, t.session.value)
  {
    hide Live, Memory, InJournal, InPhase, JournalBytes, ReadFingerprint, OpsOf, LogPending, FingerprintOf, ValidBatch,
         Chained;
    var t := DoReplaceBase(s, ses);
    LockedFacts(env, s, ses);
    PendingIs(env, s, ses);
    PreparedJournal(env, s, ses);
    Parts(env, s, ses);
    RestNotEmpty(s.history.log, s.history.committed, s.history.copied);
    ReplacedPhase(env, s, ses);
    MemoryKept(s, ses, t, t.session.value);
    InJournalKept(env, s, ses, t, t.session.value);
    Joined(env, t, t.session.value);
  }

  lemma ReplacedPhase(env: Env, s: System, ses: Session)
    requires AllValid(s.history.log) && InPhase(env, s, ses) && ses.phase.Locked? && s.history.copied == |s.history.log|
    ensures var t := DoReplaceBase(s, ses);
            InPhase(env, t, t.session.value)
  {
    hide JournalBytes, LogPending, OpsOf, ReadFingerprint, ValidBatch, IsImage, FingerprintOf, StartsWithBOM;
  }

  lemma StepFault(env: Env, s: System, ses: Session)
    requires Live(env, s, ses) && ses.phase.Replaced? && s.session == Some(ses)
    ensures var t := DoFault(s, ses);
            t.session.Some? && Live(env, t, t.session.value)
  {
    hide LogOf, NextOf, JournalBytes, SpliceAll, BaseTree, LogPending, OpsOf, ReadFingerprint, ValidBatch, TotalSize,
         IsImage, FingerprintOf, NoOther;
    var t := DoFault(s, ses);
    assert Prepared(env, t, t.session.value, t.disk.base, ses.phase.name, ses.phase.moved, |t.history.log|);
  }

  /** Replaced and Faulted: the disk already holds the new base, with the newer batches in the prepared journal. */
  lemma SwitchedFacts(env: Env, s: System, ses: Session)
    requires Live(env, s, ses) && (ses.phase.Replaced? || ses.phase.Faulted?) && s.session == Some(ses)
    ensures var h := s.history;
            && h.cut <= |h.log| && DiskLog(s) == h.log[h.cut..] == h.log[h.cut..|h.log|] && AllValid(DiskLog(s))
            && DiskCommitted(s) == h.committed + |OpsOf(h.log[..h.cut])| <= ses.revision
            && LogOf(s.disk.base, DiskLog(s), DiskCommitted(s)) && s.appending.None?
            && StartsWithBOM(s.disk.base) == ses.hasBOM
            && ses.phase.name in s.disk.journals && ses.journal.Some? && ses.phase.name != ses.journal.value
            && ses.phase.name !in s.retired
            && KeptIn(env, s.disk, DiskLog(s), None, ses.phase.name)
            && DiskCommitted(s) + |OpsOf(DiskLog(s))| == ses.revision
            && IsImage(ses.base, h.log, h.cut, s.disk.base)
    ensures ses.phase.Replaced? ==>
              ses.phase.image == s.disk.base && ses.phase.target == DiskCommitted(s) &&
              ses.phase.moved == LogPending(DiskLog(s), FILE_HEADER_SIZE)
    ensures ses.phase.Faulted? ==> ses.committed == DiskCommitted(s)
  {
    hide Live, LogOf, JournalBytes, LogPending, OpsOf, ReadFingerprint, ValidBatch, IsImage, Chained, KeptIn,
         StartsWithBOM;
    SwitchedImage(env, s, ses);
    SwitchedJournal(env, s, ses);
    PendingIs(env, s, ses);
    LiveFacts(env, s, ses);
    var h := s.history;
    assert h.log[h.cut..] == h.log[h.cut..|h.log|];
    ChainedSplit(h.log, h.committed, h.cut);
    ImageLog(ses.base, h.log, h.committed, h.cut, s.disk.base);
  }

  lemma SwitchedJournal(env: Env, s: System, ses: Session)
    requires Live(env, s, ses) && (ses.phase.Replaced? || ses.phase.Faulted?)
    ensures var h := s.history;
            && h.cut <= |h.log| && AllValid(h.log[h.cut..|h.log|]) && s.appending.None?
            && ses.phase.name in s.disk.journals && ses.journal.Some? && ses.phase.name != ses.journal.value
            && ses.phase.name !in s.retired
            && KeptIn(env, s.disk, h.log[h.cut..|h.log|], None, ses.phase.name)
            && (ses.phase.Replaced? ==>
                  && ses.phase.image == s.disk.base && ses.phase.target == h.committed + |OpsOf(h.log[..h.cut])|
                  && ses.phase.moved == LogPending(h.log[h.cut..|h.log|], FILE_HEADER_SIZE))
            && (ses.phase.Faulted? ==> ses.committed == h.committed + |OpsOf(h.log[..h.cut])|)
  {
    hide LogOf, NextOf, JournalBytes, SpliceAll, BaseTree, LogPending, OpsOf, ReadFingerprint, ValidBatch, TotalSize,
         IsImage, FingerprintOf, NoOther;
  }

  lemma SwitchedImage(env: Env, s: System, ses: Session)
    requires Live(env, s, ses) && (ses.phase.Replaced? || ses.phase.Faulted?)
    ensures IsImage(ses.base, s.history.log, s.history.cut, s.disk.base) && |s.disk.base| <= MAX_INT64
    ensures StartsWithBOM(s.disk.base) == ses.hasBOM && s.history.cut <= |s.history.log|
  {
    hide LogOf, NextOf, JournalBytes, SpliceAll, BaseTree, LogPending, OpsOf, ReadFingerprint, ValidBatch, TotalSize,
         IsImage, FingerprintOf, NoOther;
  }
}
