/** What a failed rollback does to the persistence protocol: part of an append stays in the journal, and the session
    goes on behind it. */
module SessionRollbacks {
  import opened Documents
  import opened Utf8
  import opened PieceTree
  import opened Journal
  import opened JournalFiles
  import opened SessionLog
  import opened SessionProtocol
  import opened SessionRecovery
  import opened SessionInvariant
  import opened SessionSteps
  import opened SaveSteps
  import opened SessionSafety
  import opened SessionLimits
  import opened SessionFailures
  import opened SessionEdits
  import opened BaseScan

  // ---------------------------------------------------------------- after a failed rollback

  /** What the journal of a live session gives while an append has written some bytes: the log, with the batch when it
      is whole; torn exactly when only part of it is there. */
  lemma AppendingReplays(env: Env, s: System, ses: Session)
    requires Live(env, s, ses) && s.appending.Some?
    ensures FILE_HEADER_SIZE <= |JournalOf(s.disk, ses)|
    ensures var p := s.appending.value;
            var r := Journal.Replay(JournalOf(s.disk, ses), env.crc);
            && (r.truncated <==> 0 < p.written < Size(p.batch))
            && AllValid(Whole(s.history.log, s.appending))
            && r.batches == DecodedAll(Whole(s.history.log, s.appending), FILE_HEADER_SIZE)
  {
    hide Live, Size, ValidBatch, ReplayFrom, DecodedAll, JournalBytes, Whole;
    AppendHasJournal(env, s, ses);
    AppendingWritten(env, s, ses);
    UnpublishedReplays(env, ses.base, s.history.log, s.appending.value);
  }

  lemma UnpublishedReplays(env: Env, base: seq<byte>, log: seq<Batch>, p: Appending)
    requires |base| <= MAX_INT64 && AllValid(log) && p.written <= Size(p.batch)
    ensures var file := JournalBytes(env, base, log, Some(p));
            && FILE_HEADER_SIZE <= |file| && AllValid(Whole(log, Some(p)))
            && var r := Journal.Replay(file, env.crc);
               && (r.truncated <==> 0 < p.written < Size(p.batch))
               && r.batches == DecodedAll(Whole(log, Some(p)), FILE_HEADER_SIZE)
  {
    hide Encode, EncodeAll, Size, ValidBatch, ReplayFrom, DecodedAll, NewFile, TotalSize, DecodedOf, JournalBytes;
    var file, head := JournalBytes(env, base, log, Some(p)), NewFile(env, base);
    NewFileRead(env, base, []);
    JournalShapes(env, base, log, Some(p));
    if p.written == Size(p.batch) {
      DecodedAllSnoc(log, p.batch, FILE_HEADER_SIZE);
      assert file[FILE_HEADER_SIZE..] == EncodeAll(log + [p.batch], env.crc);
      ReplayComplete(file, FILE_HEADER_SIZE, log + [p.batch], env.crc);
    } else {
      assert file[FILE_HEADER_SIZE..] == EncodeAll(log, env.crc) + Encode(p.batch, env.crc)[..p.written];
      TornReplay(file, log, p.batch, p.written, env.crc);
    }
  }

  lemma AppendingWritten(env: Env, s: System, ses: Session)
    requires Live(env, s, ses) && s.appending.Some?
    ensures s.appending.value.written <= Size(s.appending.value.batch) && |ses.base| <= MAX_INT64
    ensures AllValid(s.history.log)
  {
  }

  /** What a crash brings back of the edit made after a failed rollback: all of it, where the session has it, behind the
      log. */
  ghost predicate BroughtBack(env: Env, s: System, t: System, b: Batch, at: nat)
    requires AllValid(s.history.log) && ValidBatch(b)
  {
    && t.session.Some? && FILE_HEADER_SIZE <= |JournalOf(t.disk, t.session.value)|
    && Journal.Replay(JournalOf(t.disk, t.session.value), env.crc).batches
       == DecodedAll(s.history.log, FILE_HEADER_SIZE) + [DecodedOf(b, at)]
  }

  /** The edit is published as ever. */
  ghost predicate PublishedAs(ses: Session, t: System, b: Batch, at: nat)
    requires ValidBatch(b)
  {
    t.session.Some? && t.session.value.pending == ses.pending + DecodedPending(DecodedOf(b, at))
  }

  /** After a failed rollback, the next edit of the session is published as ever. A crash then brings it back where the
      session has it, behind the log, if and only if nothing of the failed append was left. If nothing was left, the
      state is live, so that everything proved of live states holds. If all of it was left, the file does not open any
      more: two batches claim the same revision. */
  lemma LaterEditExact(env: Env, s: System, ses: Session, ops: seq<Replace>)
    requires s.session == Some(ses) && s.appending.Some? && CanEdit(env, DoRollbackFailed(s), ses, ops)
    requires Live(env, s, ses)
    ensures Takes(env, s, RollbackFailed, DoRollbackFailed(s))
    ensures AllValid(s.history.log) && ValidBatch(Batch(ses.revision + 1, ses.revision + 1, ops))
    ensures var written, whole := s.appending.value.written, Size(s.appending.value.batch);
            var t := AfterEdit(env, DoRollbackFailed(s), ses, ops);
            var b, at := Batch(ses.revision + 1, ses.revision + 1, ops), |JournalOf(s.disk, ses)|;
            && PublishedAs(ses, t, b, at)
            && (BroughtBack(env, s, t, b, at) <==> written == 0)
            && (written == 0 ==> t.session.Some? && Live(env, t, t.session.value))
            && (written == whole ==> Reopen(env, DoCrash(t).disk).Refused?)
  {
    hide Live, CanEdit, AfterEdit, ValidBatch, Encode, DecodedOf, DecodedAll, ReplayFrom, Size, Reopen;
    var p := s.appending.value;
    var r := DoRollbackFailed(s);
    CanEditBatch(env, r, ses, ops);
    AppendingReplays(env, s, ses);
    AppendingWritten(env, s, ses);
    EditReplayed(env, r, ses, ops);
    AfterEditEnds(env, r, ses, ops);
    WholeCount(s.history.log, p);
    if p.written == 0 {
      NothingLeft(env, s, ses, ops);
    } else if p.written == Size(p.batch) {
      WholeLeft(env, s, ses, ops);
    }
  }

  lemma WholeCount(log: seq<Batch>, p: Appending)
    requires AllValid(log) && p.written <= Size(p.batch)
    ensures p.written == 0 ==> Whole(log, Some(p)) == log
    ensures 0 < Size(p.batch) && |Whole(log, Some(p))| == |log| + (if p.written == Size(p.batch) then 1 else 0)
    ensures AllValid(Whole(log, Some(p)))
            && |DecodedAll(Whole(log, Some(p)), FILE_HEADER_SIZE)| == |Whole(log, Some(p))|
    ensures |DecodedAll(log, FILE_HEADER_SIZE)| == |log|
  {
    hide ValidBatch, DecodedAll;
  }

  lemma AfterEditEnds(env: Env, s: System, ses: Session, ops: seq<Replace>)
    requires CanEdit(env, s, ses, ops)
    ensures var t := AfterEdit(env, s, ses, ops);
            && t.session.Some?
            && t.session.value.pending == ses.pending
                 + DecodedPending(DecodedOf(Batch(ses.revision + 1, ses.revision + 1, ops), |JournalOf(s.disk, ses)|))
  {
    AfterEditFile(env, s, ses, ops);
  }

  /** A rollback with nothing to cut. */
  lemma NothingLeft(env: Env, s: System, ses: Session, ops: seq<Replace>)
    requires s.session == Some(ses) && Live(env, s, ses) && s.appending.Some? && s.appending.value.written == 0
    requires CanEdit(env, DoRollbackFailed(s), ses, ops)
    ensures var t := AfterEdit(env, DoRollbackFailed(s), ses, ops);
            t.session.Some? && Live(env, t, t.session.value)
  {
    hide Live, CanEdit, AfterEdit;
    StepRollback(env, s, ses);
    NothingCut(env, s, ses);
    LiveEdit(env, DoRollbackFailed(s), ses, ops);
  }

  lemma NothingCut(env: Env, s: System, ses: Session)
    requires s.session == Some(ses) && Live(env, s, ses) && s.appending.Some? && s.appending.value.written == 0
    ensures DoRollbackFailed(s) == DoRollback(s, ses)
  {
    hide Live, JournalBytes, ValidBatch;
    AppendHasJournal(env, s, ses);
    OldJournalThere(env, s, ses);
    var file := JournalOf(s.disk, ses);
    assert file[..|file|] == file && s.disk.journals[JournalName(ses) := file] == s.disk.journals;
  }

  /** The three steps of an edit keep a state live. */
  lemma LiveEdit(env: Env, s: System, ses: Session, ops: seq<Replace>)
    requires CanEdit(env, s, ses, ops) && Live(env, s, ses)
    ensures var t := AfterEdit(env, s, ses, ops);
            t.session.Some? && Live(env, t, t.session.value)
  {
    hide Live, Stageable, Document, ValidBatch, Encode, Size, JournalBytes, SpliceAll, DecodedOf, DecodedPending;
    var b: GoodBatch := Batch(ses.revision + 1, ses.revision + 1, ops);
    StepBeginAppend(env, s, ses, b);
    var begun := DoBeginAppend(s, ses, b);
    StepWriteMore(env, begun, ses, Size(b));
    StepPublish(env, DoWriteMore(env, begun, ses, Appending(b, 0), Size(b)), ses, b);
  }

  /** A whole batch that was never published, and another one of the same revision behind it. */
  lemma WholeLeft(env: Env, s: System, ses: Session, ops: seq<Replace>)
    requires s.session == Some(ses) && Live(env, s, ses) && s.appending.Some?
    requires s.appending.value.written == Size(s.appending.value.batch)
    requires CanEdit(env, DoRollbackFailed(s), ses, ops)
    ensures Reopen(env, DoCrash(AfterEdit(env, DoRollbackFailed(s), ses, ops)).disk).Refused?
  {
    hide Live, CanEdit, AfterEdit, ValidBatch, Encode, DecodedOf, DecodedAll, ReplayFrom, Size, Reopen, OpenJournal,
         JournalBytes, ReadFingerprint, LogOf, NextOf, NoOther, AllHeaded, Whole, OpsOf, Matching;
    var r := DoRollbackFailed(s);
    var b, name, file := Batch(ses.revision + 1, ses.revision + 1, ops), JournalName(ses), JournalOf(s.disk, ses);
    var t := AfterEdit(env, r, ses, ops);
    WholeFacts(env, s, ses);
    AppendingReplays(env, s, ses);
    EditReplayed(env, r, ses, ops);
    CanEditBatch(env, r, ses, ops);
    AfterEditFile(env, r, ses, ops);
    var log := Whole(s.history.log, s.appending);
    var grown := file + Encode(b, env.crc);
    StillMatches(env, s.disk, name, ses.base, grown);
    SameRevisionRefused(env, ses.base, name, grown, log, s.history.committed, b, |file|);
    ReopenOnly(env, t.disk, name);
  }

  lemma CanEditBatch(env: Env, s: System, ses: Session, ops: seq<Replace>)
    requires CanEdit(env, s, ses, ops)
    ensures ValidBatch(Batch(ses.revision + 1, ses.revision + 1, ops)) && ses.journal.Some?
  {
  }

  /** What is known of a live state whose append is whole. */
  lemma WholeFacts(env: Env, s: System, ses: Session)
    requires s.session == Some(ses) && Live(env, s, ses) && s.appending.Some?
    requires s.appending.value.written == Size(s.appending.value.batch)
    ensures var name, log := JournalName(ses), Whole(s.history.log, s.appending);
            && s.disk.base == ses.base && LogOf(ses.base, log, s.history.committed) && AllValid(log) && log != []
            && AllHeaded(env, s.disk) && NoOther(env, s.disk, {name}, ses.base)
            && ses.journal == Some(name) && name in s.disk.journals && s.disk.journals[name] == JournalOf(s.disk, ses)
            && JournalOf(s.disk, ses) == JournalBytes(env, ses.base, log, None)
            && ReadFingerprint(JournalOf(s.disk, ses), env.crc) == Some(FingerprintOf(env, ses.base))
            && ses.revision < s.history.committed + |OpsOf(log)|
  {
    AppendHasJournal(env, s, ses);
    Parts(env, s, ses);
    LiveLog(env, s, ses);
    PendingIs(env, s, ses);
    hide Live, LogOf, NextOf, JournalBytes, ReadFingerprint, FingerprintOf, ValidBatch, NoOther, OpsOf, Encode,
         EncodeAll, Size, Memory, Chained;
    RestingBase(env, s, ses);
    RestingKept(env, s, ses);
    WholeLog(ses.base, s.history.log, s.history.committed, s.appending);
    LogOfBase(ses.base, Whole(s.history.log, s.appending), s.history.committed);
    OpsSnoc(s.history.log, s.appending.value.batch);
    OpsNotEmpty(s.appending.value.batch);
    JournalComplete(env, ses.base, s.history.log, s.appending.value.batch);
    JournalHead(env, ses.base, Whole(s.history.log, s.appending), None);
  }

  lemma StillMatches(env: Env, disk: Disk, name: Name, base: seq<byte>, grown: seq<byte>)
    requires disk.base == base && AllHeaded(env, disk) && NoOther(env, disk, {name}, base) && name in disk.journals
    requires ReadFingerprint(disk.journals[name], env.crc) == Some(FingerprintOf(env, base))
    requires disk.journals[name] <= grown
    ensures var t := WithFile(disk, name, grown);
            AllHeaded(env, t) && Matching(env, t) == {name}
  {
    hide ReadFingerprint, FingerprintOf;
    FingerprintKept(disk.journals[name], grown, env.crc);
  }

  lemma ReopenOnly(env: Env, disk: Disk, name: Name)
    requires AllHeaded(env, disk) && Matching(env, disk) == {name} && FILE_HEADER_SIZE <= |disk.journals[name]|
    requires OpenJournal(env, disk.base, name, disk.journals[name]).Refused?
    ensures Reopen(env, disk).Refused?
  {
    hide ReadFingerprint, FingerprintOf, OpenJournal;
    assert (set n | n in disk.journals && ReadFingerprint(disk.journals[n], env.crc) == None) == {};
    assert name in Matching(env, disk) && |{name}| == 1;
  }

  /** Replay does not accept a batch whose revision has been taken. */
  lemma SameRevisionRefused(env: Env, base: seq<byte>, name: Name, grown: seq<byte>, log: seq<Batch>, committed: nat,
                            b: Batch, at: nat)
    requires LogOf(base, log, committed) && AllValid(log) && log != [] && ValidBatch(b)
    requires b.firstRevision <= committed + |OpsOf(log)| && JournalBytes(env, base, log, None) <= grown
    requires FILE_HEADER_SIZE <= |grown|
    requires Journal.Replay(grown, env.crc).batches == DecodedAll(log, FILE_HEADER_SIZE) + [DecodedOf(b, at)]
    ensures OpenJournal(env, base, name, grown).Refused?
  {
    hide LogOf, ValidBatch, JournalBytes, EncodeAll, DecodedAll, ReplayFrom, ReplaySession, BaseTree, OpsOf, LogPending,
         SpliceAll, DecodedOps, SessionLog.Holds, NewFile;
    var tree := BaseTree(base, StartsWithBOM(base));
    LogOfBase(base, log, committed);
    NewFileRead(env, base, []);
    RepairedHolds(env, base, log);
    HoldsIn(grown, NewFile(env, base), log, env.crc);
    RebuildsOn(base, grown, log, committed, env.crc);
    var ds := DecodedAll(log, FILE_HEADER_SIZE);
    assert |ds| == |log|;
    FirstRevision(b);
    ReplaySessionSnoc(tree, base, grown, ds, DecodedOf(b, at), SessionOf(tree, log, committed));
  }

  lemma FirstRevision(b: Batch)
    requires ValidBatch(b)
    ensures b.firstRevision > 0
  {
  }

  // ---------------------------------------------------------------- a run

  /** A later edit can be lost. For every base file: an append stops after one byte and its rollback fails too; the same
      edit is then made again and published, and the process ends. The reopened document is the one before the edit. */
  lemma LostEdit(env: Env, base: seq<byte>) returns (actions: seq<Action>, s: System)
    requires |base| < MAX_INT64 && Valid(TextOf(base))
    ensures Reached(env, base, actions, s) && WriteMore(1) in actions
    ensures var failed := DoRollbackFailed(s);
            var ops := [Replace(0, 0, LETTER)];
            && Takes(env, s, RollbackFailed, failed) && failed.session.Some?
            && CanEdit(env, failed, failed.session.value, ops)
            && var t := AfterEdit(env, failed, failed.session.value, ops);
               && t.session.Some? && Document(t.disk, t.session.value) == LETTER + TextOf(base)
               && var r := Reopen(env, DoCrash(t).disk);
                  r.Opened? && Document(r.disk, r.session) == TextOf(base)
  {
    hide Valid, RuneLen, TextOf, StartsWithBOM, Reached, Inv, Assumed, Stageable, ValidBatch, Apply, Applicable, Size,
         Encode, Document, CanEdit, AfterEdit, Reopen;
    var ops := [Replace(0, 0, LETTER)];
    BaseLength(base);
    StageLetter(TextOf(base));
    var b: GoodBatch := Batch(1, 1, ops);
    s := Opening(env, base);
    s := Begin(env, base, [Open, CreateJournal(0)], s, ops);
    actions := [Open, CreateJournal(0)] + [BeginAppend(ops)];
    s := WriteOne(env, base, actions, s, b);
    actions := actions + [WriteMore(1)];
    assert actions[3] == WriteMore(1);
    TornEdit(env, base, s, b);
  }

  lemma WriteOne(env: Env, base: seq<byte>, actions: seq<Action>, s: System, b: GoodBatch) returns (t: System)
    requires Reached(env, base, actions, s) && Inv(env, s)
    requires SessionFailures.Holds(s, base, [], Some(Appending(b, 0)), 0) && s.session.value.phase.Idle?
    ensures Reached(env, base, actions + [WriteMore(1)], t) && Inv(env, t)
    ensures SessionFailures.Holds(t, base, [], Some(Appending(b, 1)), 0) && t.session.value.phase.Idle?
  {
    hide StartsWithBOM, Reached, Inv, Assumed, ValidBatch, Encode;
    NothingToAssume(env, s, WriteMore(1));
    ReachedStep(env, base, actions, s, WriteMore(1));
    t := Do(env, s, WriteMore(1));
  }

  /** The edit behind one byte of another one. */
  lemma TornEdit(env: Env, base: seq<byte>, s: System, b: GoodBatch)
    requires Inv(env, s) && SessionFailures.Holds(s, base, [], Some(Appending(b, 1)), 0) && s.session.value.phase.Idle?
    requires b == Batch(1, 1, b.ops) && Stageable(TextOf(base), b.ops)
    ensures var failed := DoRollbackFailed(s);
            && CanEdit(env, failed, s.session.value, b.ops) && Applicable(TextOf(base), b.ops)
            && var t := AfterEdit(env, failed, s.session.value, b.ops);
               && t.session.Some? && Document(t.disk, t.session.value) == Apply(TextOf(base), b.ops)
               && var r := Reopen(env, DoCrash(t).disk);
                  r.Opened? && Document(r.disk, r.session) == TextOf(base)
  {
    hide Valid, RuneLen, TextOf, StartsWithBOM, Inv, Live, Stageable, ValidBatch, Apply, Applicable, Size, Encode,
         Resolve, AfterEdit, Reopen, JournalBytes, NewFile, ReadFingerprint, FingerprintOf, Readable, BaseTree,
         Matching, NoOther, AllHeaded, OpenJournal;
    var ses := s.session.value;
    var failed := DoRollbackFailed(s);
    InvLive(env, s);
    Reads(env, s, ses);
    NothingLogged(TextOf(base));
    LiveReadable(env, s, ses);
    OldJournalThere(env, s, ses);
    AfterEditFile(env, failed, ses, b.ops);
    AfterEditDocument(env, failed, ses, b.ops);
    var t := AfterEdit(env, failed, ses, b.ops);
    TornFacts(env, s, ses, b);
    var grown := JournalOf(s.disk, ses) + Encode(b, env.crc);
    StillMatches(env, s.disk, 0, base, grown);
    OpensEmpty(env, base, 0, b);
    ReopenOpens(env, t.disk, 0);
  }

  lemma LiveReadable(env: Env, s: System, ses: Session)
    requires Live(env, s, ses)
    ensures Readable(ses.tree, Sources(ses.base, JournalOf(s.disk, ses)))
  {
    LiveDocument(env, s, ses);
  }

  lemma TornFacts(env: Env, s: System, ses: Session, b: GoodBatch)
    requires Live(env, s, ses) && s.session == Some(ses) && s.history.log == [] && s.appending == Some(Appending(b, 1))
    requires ses.phase.Idle? && ses.journal == Some(0)
    ensures s.disk.base == ses.base && |ses.base| <= MAX_INT64 && Valid(TextOf(ses.base))
    ensures AllHeaded(env, s.disk) && NoOther(env, s.disk, {0}, ses.base) && 0 in s.disk.journals
    ensures s.disk.journals[0] == NewFile(env, ses.base) + Encode(b, env.crc)[..1]
    ensures ReadFingerprint(s.disk.journals[0], env.crc) == Some(FingerprintOf(env, ses.base))
  {
    hide ReadFingerprint, FingerprintOf, NewFile, Encode, ValidBatch, Valid, TextOf, Stageable, LogPending, SpliceAll,
         BaseTree;
    AppendHasJournal(env, s, ses);
    JournalHead(env, ses.base, [], s.appending);
    assert EncodeAll([], env.crc) == [];
  }

  /** A journal with nothing but one byte of a batch before a batch opens to the base. */
  lemma OpensEmpty(env: Env, base: seq<byte>, name: Name, b: GoodBatch)
    requires |base| <= MAX_INT64
    ensures var file := NewFile(env, base) + Encode(b, env.crc)[..1] + Encode(b, env.crc);
            && FILE_HEADER_SIZE <= |file|
            && var r := OpenJournal(env, base, name, file);
               r.Opened? && Document(r.disk, r.session) == TextOf(base)
  {
    hide NewFile, ReplayFrom, ReplaySession, BaseTree, Resolve, ValidBatch, TextOf, Encode;
    NewFileRead(env, base, []);
    FirstByte(b, env.crc);
    TornTailHides(NewFile(env, base), b, env.crc);
    var file := NewFile(env, base) + [BATCH_MAGIC[0]] + Encode(b, env.crc);
    var tree := BaseTree(base, StartsWithBOM(base));
    NoLog(tree, base, file);
    var replay := Journal.Replay(file, env.crc);
    var repaired := if replay.truncated && replay.validBytes <= |file| then file[..replay.validBytes] else file;
    BaseTreeReads(base, repaired);
    assert SpliceAll(tree, []) == tree;
  }

  lemma FirstByte(b: Batch, crc: Checksum)
    requires ValidBatch(b)
    ensures Encode(b, crc)[..1] == [BATCH_MAGIC[0]]
  {
    assert Encode(b, crc)[0] == HeaderKind()[0] == BATCH_MAGIC[0];
  }

  lemma ReopenOpens(env: Env, disk: Disk, name: Name)
    requires AllHeaded(env, disk) && Matching(env, disk) == {name} && FILE_HEADER_SIZE <= |disk.journals[name]|
    requires Valid(TextOf(disk.base))
    ensures Reopen(env, disk) == OpenJournal(env, disk.base, name, disk.journals[name])
  {
    hide ReadFingerprint, FingerprintOf, OpenJournal, Valid;
    assert (set n | n in disk.journals && ReadFingerprint(disk.journals[n], env.crc) == None) == {};
    assert name in Matching(env, disk) && |{name}| == 1;
  }
}
