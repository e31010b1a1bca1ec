/** Safety over whole runs of the persistence protocol. */
module SessionSafety {
  import opened Documents
  import opened Utf8
  import opened PieceTree
  import opened Journal
  import opened JournalFiles
  import opened SessionLog
  import opened SessionProtocol
  import opened SessionRecovery
  import opened SessionInvariant
  import opened SessionSteps
  import opened SaveSteps
  import opened BaseScan

  // ---------------------------------------------------------------- the end of a save

  /** The rebased session satisfies the invariant for the new base and the newer batches. */
  lemma StepFinish(env: Env, s: System, ses: Session)
    requires Live(env, s, ses) && ses.phase.Replaced? && ses.phase.name in s.disk.journals && s.session == Some(ses)
    ensures var t := DoFinish(s, ses);
            t.session.Some? && Live(env, t, t.session.value)
  {
    hide Live, Memory, InPhase, InJournal, LogOf, JournalBytes, LogPending, OpsOf, ReadFingerprint, ValidBatch, IsImage,
         StartsWithBOM, SpliceAll, BaseTree, TotalSize, Stageable, Document, Copyable;
    var t := DoFinish(s, ses);
    Parts(env, s, ses);
    SwitchedFacts(env, s, ses);
    OldJournalThere(env, s, ses);
    LogOfBase(s.disk.base, DiskLog(s), DiskCommitted(s));
    JournalHead(env, s.disk.base, DiskLog(s), None);
    FinishedMemory(env, s, ses);
    FinishedPhase(env, s, ses);
    Joined(env, t, t.session.value);
  }

  lemma OldJournalThere(env: Env, s: System, ses: Session)
    requires Live(env, s, ses) && ses.journal.Some?
    ensures ses.journal.value in s.disk.journals
  {
  }

  lemma LogOfBase(base: seq<byte>, log: seq<Batch>, committed: nat)
    requires LogOf(base, log, committed)
    ensures |base| <= MAX_INT64 && AllValid(log) && Chained(log, committed)
  {
  }

  lemma FinishedPhase(env: Env, s: System, ses: Session)
    requires ses.phase.Replaced? && ses.phase.name in s.disk.journals && ses.phase.name !in s.retired
             && s.appending.None?
    requires ses.journal.Some? && ses.journal.value != ses.phase.name && s.session == Some(ses)
             && s.disk.base == ses.phase.image
    requires AllValid(DiskLog(s)) && KeptIn(env, s.disk, DiskLog(s), None, ses.phase.name)
    requires |JournalBytes(env, s.disk.base, DiskLog(s), None)| == FILE_HEADER_SIZE + TotalSize(DiskLog(s))
    ensures var t := DoFinish(s, ses);
            InJournal(env, t, t.session.value) && InPhase(env, t, t.session.value)
  {
    hide JournalBytes, OpsOf, ReadFingerprint, ValidBatch, SpliceAll, BaseTree, TotalSize, FingerprintOf;
  }

  lemma FinishedMemory(env: Env, s: System, ses: Session)
    requires Live(env, s, ses) && ses.phase.Replaced? && ses.phase.name in s.disk.journals && s.session == Some(ses)
    ensures var t := DoFinish(s, ses);
            Memory(t, t.session.value)
  {
    hide Live, LogOf, JournalBytes, LogPending, OpsOf, ReadFingerprint, ValidBatch, IsImage, SpliceAll, BaseTree,
         StartsWithBOM, KeptIn, Stageable, Document, Copyable;
    SwitchedFacts(env, s, ses);
  }

  // ---------------------------------------------------------------- the end of a session

  /** What a live session leaves on disk is recoverable, after any step. */
  lemma LiveRecoverable(env: Env, s: System, ses: Session)
    requires Live(env, s, ses) && s.session == Some(ses)
    ensures Recoverable(env, s.disk, DiskLog(s), DiskCommitted(s), s.appending)
    ensures forall n :: n in s.retired ==> n !in Matching(env, s.disk)
  {
    hide Live, Memory, InJournal, InPhase, LogOf, NextOf, JournalBytes, LogPending, OpsOf, ReadFingerprint, ValidBatch,
         IsImage, SpliceAll, BaseTree, StartsWithBOM, TotalSize, KeptIn, Recoverable, Matching;
    Parts(env, s, ses);
    if ses.phase.Replaced? || ses.phase.Faulted? {
      SwitchedFacts(env, s, ses);
      NothingAppended(s.disk.base, DiskLog(s), DiskCommitted(s));
      KeptRecoverable(env, s.disk, DiskLog(s), DiskCommitted(s), s.appending, ses.phase.name);
    } else {
      RestingBase(env, s, ses);
      MemoryLog(s, ses);
      if ses.journal.Some? {
        RestingKept(env, s, ses);
        KeptRecoverable(env, s.disk, s.history.log, s.history.committed, s.appending, ses.journal.value);
      } else {
        EmptyRecoverable(env, s, ses);
      }
    }
  }

  lemma NothingAppended(base: seq<byte>, log: seq<Batch>, committed: nat)
    ensures NextOf(base, log, committed, None)
  {
  }

  lemma MemoryLog(s: System, ses: Session)
    requires Memory(s, ses)
    ensures LogOf(ses.base, s.history.log, s.history.committed)
            && NextOf(ses.base, s.history.log, s.history.committed, s.appending)
  {
  }

  lemma KeptRecoverable(env: Env, disk: Disk, log: seq<Batch>, committed: nat, appending: Option<Appending>, n: Name)
    requires AllHeaded(env, disk) && LogOf(disk.base, log, committed) && NextOf(disk.base, log, committed, appending)
    requires AllValid(log) && KeptIn(env, disk, log, appending, n)
    ensures Recoverable(env, disk, log, committed, appending) && Matching(env, disk) == {n}
  {
    LogOfBase(disk.base, log, committed);
    hide LogOf, NextOf, ReadFingerprint, ValidBatch, JournalBytes;
    KeptMatches(env, disk, log, committed, appending, n);
  }

  lemma RestingKept(env: Env, s: System, ses: Session)
    requires AllValid(s.history.log) && InJournal(env, s, ses) && ses.journal.Some? && AtRest(env, s, ses)
    ensures KeptIn(env, s.disk, s.history.log, s.appending, ses.journal.value) && ses.journal.value !in s.retired
  {
    hide JournalBytes, ReadFingerprint, ValidBatch;
  }

  lemma EmptyRecoverable(env: Env, s: System, ses: Session)
    requires AllValid(s.history.log) && InJournal(env, s, ses) && ses.journal.None? && AllHeaded(env, s.disk)
    requires LogOf(s.disk.base, s.history.log, s.history.committed)
    ensures Recoverable(env, s.disk, s.history.log, s.history.committed, s.appending) && Matching(env, s.disk) == {}
  {
    hide LogOf;
  }

  lemma RestingBase(env: Env, s: System, ses: Session)
    requires AllValid(s.history.log) && InPhase(env, s, ses) && !ses.phase.Replaced? && !ses.phase.Faulted?
    ensures AtRest(env, s, ses)
  {
  }

  lemma StepCrash(env: Env, s: System, ses: Session)
    requires Live(env, s, ses) && s.session == Some(ses)
    ensures AtEnd(env, DoCrash(s))
  {
    LiveRecoverable(env, s, ses);
  }

  /** Closing a dirty session keeps everything; closing a clean one removes the session's own journal,
      which leaves either nothing to recover from, or journals of other bases. */
  lemma StepClose(env: Env, s: System, ses: Session)
    requires Live(env, s, ses) && CanStep(env, s.disk, ses, s.appending, Close) && s.session == Some(ses)
    ensures AtEnd(env, DoClose(s, ses))
  {
    hide Live, AtEnd, Stageable, Document, Copyable;
    if ses.revision > ses.committed || ses.journal.None? {
      CloseKeeps(env, s, ses);
    } else if ses.phase.Faulted? {
      CloseFaulted(env, s, ses);
    } else {
      CloseClean(env, s, ses);
    }
  }

  lemma CloseKeeps(env: Env, s: System, ses: Session)
    requires Live(env, s, ses) && s.session == Some(ses) && (ses.revision > ses.committed || ses.journal.None?)
    ensures AtEnd(env, DoClose(s, ses))
  {
    LiveRecoverable(env, s, ses);
    Parts(env, s, ses);
    hide Live, Memory, InJournal, InPhase, Recoverable, Stranded, Matching;
  }

  lemma CloseFaulted(env: Env, s: System, ses: Session)
    requires Live(env, s, ses) && ses.phase.Faulted? && s.session == Some(ses) && ses.journal.Some?
    ensures AtEnd(env, DoClose(s, ses))
  {
    hide Live, Memory, InJournal, InPhase, LogOf, NextOf, JournalBytes, LogPending, OpsOf, ReadFingerprint, ValidBatch,
         IsImage, SpliceAll, BaseTree, StartsWithBOM, TotalSize, Recoverable, FingerprintOf;
    Parts(env, s, ses);
    SwitchedFacts(env, s, ses);
    OldJournalThere(env, s, ses);
    OwnNotRetired(env, s, ses);
    var t := DoClose(s, ses);
    NothingAppended(t.disk.base, DiskLog(s), DiskCommitted(s));
    KeptRecoverable(env, t.disk, DiskLog(s), DiskCommitted(s), None, ses.phase.name);
  }

  lemma OwnNotRetired(env: Env, s: System, ses: Session)
    requires Live(env, s, ses) && ses.journal.Some?
    ensures ses.journal.value !in s.retired
  {
  }

  lemma CloseClean(env: Env, s: System, ses: Session)
    requires Live(env, s, ses) && ses.phase.Idle? && s.session == Some(ses) && ses.journal.Some? && s.appending.None?
    requires ses.revision <= ses.committed
    ensures AtEnd(env, DoClose(s, ses)) && DoClose(s, ses).history.log == []
  {
    hide Live, LogOf, NextOf, JournalBytes, LogPending, OpsOf, ReadFingerprint, ValidBatch, IsImage, SpliceAll,
         BaseTree, StartsWithBOM, TotalSize, InPhase, Memory, FingerprintOf;
    Parts(env, s, ses);
    OwnNotRetired(env, s, ses);
    RestingBase(env, s, ses);
    NothingPending(s, ses);
    MemoryLog(s, ses);
    var t := DoClose(s, ses);
    NothingAppended(t.disk.base, [], t.history.committed);
    assert NoOther(env, t.disk, {}, t.disk.base);
  }

  lemma NothingPending(s: System, ses: Session)
    requires Memory(s, ses) && !ses.phase.Faulted? && ses.revision <= ses.committed
    ensures s.history.log == []
  {
    hide LogOf, NextOf, LogPending, SpliceAll, BaseTree, StartsWithBOM, ValidBatch, Stageable;
    LogOfBase(ses.base, s.history.log, s.history.committed);
    if s.history.log != [] {
      ChainedAt(s.history.log, s.history.committed, 0);
    }
  }

  lemma StepRemoveRetired(env: Env, s: System, name: Name)
    requires Inv(env, s) && name in s.retired
    ensures Inv(env, DoRemoveRetired(s, name))
  {
    var t := DoRemoveRetired(s, name);
    match s.session {
      case None =>
        RetiredGone(env, s, name);
      case Some(ses) =>
        Parts(env, s, ses);
        hide Live, Memory;
        RetiredGoneLive(env, s, ses, name);
        MemorySame(s, ses, t);
        Joined(env, t, ses);
    }
  }

  lemma MemorySame(s: System, ses: Session, t: System)
    requires Memory(s, ses) && t.history == s.history && t.appending == s.appending
    ensures Memory(t, ses)
  {
  }

  lemma RetiredGoneLive(env: Env, s: System, ses: Session, name: Name)
    requires AllHeaded(env, s.disk) && s.retired <= s.disk.journals.Keys && AllValid(s.history.log)
    requires InJournal(env, s, ses) && InPhase(env, s, ses) && name in s.retired
    ensures var t := DoRemoveRetired(s, name);
            && AllHeaded(env, t.disk) && t.retired <= t.disk.journals.Keys && InJournal(env, t, ses)
            && InPhase(env, t, ses)
  {
    hide LogOf, JournalBytes, LogPending, OpsOf, ReadFingerprint, ValidBatch, IsImage, SpliceAll, BaseTree,
         StartsWithBOM, TotalSize;
    var t := DoRemoveRetired(s, name);
    if ses.phase.Faulted? {
      var moved :| Prepared(env, s, ses, s.disk.base, ses.phase.name, moved, |s.history.log|);
      assert Prepared(env, t, ses, t.disk.base, ses.phase.name, moved, |t.history.log|);
    }
  }

  lemma RetiredGone(env: Env, s: System, name: Name)
    requires AtEnd(env, s) && name in s.retired
    ensures AtEnd(env, DoRemoveRetired(s, name))
  {
    hide LogOf, NextOf, Recoverable, ReadFingerprint, ValidBatch, FingerprintOf;
    if Stranded(env, s) {
      StrandedLess(env, s, name);
    } else {
      RecoverableLess(env, s, name);
    }
  }

  lemma RecoverableLess(env: Env, s: System, name: Name)
    requires Recoverable(env, s.disk, s.history.log, s.history.committed, s.appending)
    requires name in s.disk.journals && name !in Matching(env, s.disk)
    ensures Recoverable(env, DoRemoveRetired(s, name).disk, s.history.log, s.history.committed, s.appending)
  {
    hide LogOf, NextOf, JournalBytes, ReadFingerprint, ValidBatch, FingerprintOf;
    LogOfBase(s.disk.base, s.history.log, s.history.committed);
    var n :| KeptIn(env, s.disk, s.history.log, s.appending, n);
    KeptMatches(env, s.disk, s.history.log, s.history.committed, s.appending, n);
    KeptRecoverable(env, DoRemoveRetired(s, name).disk, s.history.log, s.history.committed, s.appending, n);
  }

  lemma StrandedLess(env: Env, s: System, name: Name)
    requires Stranded(env, s)
    ensures var t := DoRemoveRetired(s, name);
            Stranded(env, t) || Recoverable(env, t.disk, t.history.log, t.history.committed, t.appending)
  {
    hide LogOf, ReadFingerprint, ValidBatch, FingerprintOf;
  }

  // ---------------------------------------------------------------- reopening

  /** A rebuilt session satisfies the invariant. */
  lemma RebuiltLive(env: Env, ses: Session, disk: Disk, log: seq<Batch>, committed: nat)
    requires LogOf(disk.base, log, committed) && Rebuilt(env, ses, disk, disk.base, log, committed)
    ensures Live(env, System(disk, Some(ses), None, {}, History(log, if log == [] then 0 else committed, 0, 0)), ses)
  {
    hide Stageable, Valid, RuneLen, ValidBatch, JournalBytes, LogPending, SpliceAll, BaseTree, ReadFingerprint,
         StartsWithBOM, TextOf;
    JournalHead(env, disk.base, log, None);
  }

  /** Reopening what can be recovered. */
  lemma StepOpenRecoverable(env: Env, s: System)
    requires s.session.None? && Recoverable(env, s.disk, s.history.log, s.history.committed, s.appending)
    ensures Inv(env, DoOpen(env, s))
  {
    hide Stageable, Valid, RuneLen, ValidBatch, JournalBytes, LogPending, SpliceAll, BaseTree, ReadFingerprint,
         StartsWithBOM, TextOf, Apply, Resolve, Live, Reopen;
    ReopenRecovers(env, s.disk, s.history.log, s.history.committed, s.appending);
    WholeLog(s.disk.base, s.history.log, s.history.committed, s.appending);
    match Reopen(env, s.disk) {
      case Opened(session, disk) =>
        RebuiltLive(env, session, disk, Whole(s.history.log, s.appending), s.history.committed);
      case Refused(_) =>
    }
  }

  /** Stranded journals make one opening fail. They are set aside, so that the next one succeeds. */
  lemma StepOpenStranded(env: Env, s: System)
    requires s.session.None? && Stranded(env, s)
    ensures Reopen(env, s.disk) == Refused(s.disk.(journals := map[]))
    ensures Recoverable(env, s.disk.(journals := map[]), [], s.history.committed, None)
    ensures Inv(env, DoOpen(env, s))
  {
    hide Stageable, RuneLen, ValidBatch, JournalBytes, ReadFingerprint, StartsWithBOM, FingerprintOf;
    assert Matching(env, s.disk) == {};
    assert (set n | n in s.disk.journals && ReadFingerprint(s.disk.journals[n], env.crc) == None) == {};
    assert Valid(TextOf(s.disk.base));
  }

  // ---------------------------------------------------------------- every step, every run

  lemma RollbacksSucceed(env: Env, s: System, a: Action)
    requires Assumed(env, s, a)
    ensures a != RollbackFailed
  {
  }

  /** Every step of an open session keeps the invariant. */
  lemma SessionStepKeeps(env: Env, s: System, ses: Session, a: Action)
    requires Live(env, s, ses) && s.session == Some(ses) && CanStep(env, s.disk, ses, s.appending, a)
             && Assumed(env, s, a)
    ensures Inv(env, DoStep(env, s, ses, a))
  {
    hide Live, AtEnd, Stageable, Document, Copyable, NextBatch, Assumed;
    match a
    case CreateJournal(name) => StepCreateJournal(env, s, ses, name);
    case BeginAppend(ops) => StepBeginAppend(env, s, ses, Batch(ses.revision + 1, ses.revision + 1, ops));
    case WriteMore(count) => StepWriteMore(env, s, ses, count);
    case Rollback => StepRollback(env, s, ses);
    case RollbackFailed => RollbacksSucceed(env, s, a);
    case Publish => StepPublish(env, s, ses, s.appending.value.batch);
    case BeginSave => StepBeginSave(env, s, ses);
    case Stream(count) => StepStream(env, s, ses, count);
    case AbandonStream => StepAbandonStream(env, s, ses);
    case EnterBoundary(name) => StepEnterBoundary(env, s, ses, name);
    case CopyGroup => StepCopyGroup(env, s, ses);
    case CopyTorn(count) => StepCopyTorn(env, s, ses, count);
    case Discard(removed) => StepDiscard(env, s, ses, removed);
    case ReplaceBase => StepReplaceBase(env, s, ses);
    case Finish => StepFinish(env, s, ses);
    case Fault => StepFault(env, s, ses);
    case Close => StepClose(env, s, ses);
  }

  lemma StepKeeps(env: Env, s: System, a: Action)
    requires Inv(env, s) && Can(env, s, a) && Assumed(env, s, a)
    ensures Inv(env, Do(env, s, a))
  {
    hide Live, AtEnd, CanStep, DoStep, DoOpen, Assumed;
    match a
    case RemoveRetired(name) => StepRemoveRetired(env, s, name);
    case Open => StepOpen(env, s);
    case Crash => StepCrash(env, s, s.session.value);
    case _ => SessionStepKeeps(env, s, s.session.value, a);
  }

  lemma StepOpen(env: Env, s: System)
    requires s.session.None? && AtEnd(env, s)
    ensures Inv(env, DoOpen(env, s))
  {
    hide Live, Recoverable, Stranded, DoOpen, Matching;
    if Stranded(env, s) {
      StepOpenStranded(env, s);
    } else {
      StepOpenRecoverable(env, s);
    }
  }

  /** A fresh file, nobody editing it. */
  function Start(base: seq<byte>): System {
    System(Disk(base, map[]), None, None, {}, History([], 0, 0, 0))
  }

  /** Any interleaving of edits, saves split into their steps, lease closings, crashes and reopenings. */
  ghost predicate Run(env: Env, actions: seq<Action>, run: seq<System>) {
    && |run| == |actions| + 1
    && run[0] == Start(run[0].disk.base) && |run[0].disk.base| <= MAX_INT64 && Valid(TextOf(run[0].disk.base))
    && forall i :: 0 <= i < |actions| ==>
         Can(env, run[i], actions[i]) && Assumed(env, run[i], actions[i]) && run[i + 1] == Do(env, run[i], actions[i])
  }

  lemma {:induction false} RunKeeps(env: Env, actions: seq<Action>, run: seq<System>)
    requires Run(env, actions, run)
    ensures Inv(env, run[|actions|])
    decreases |actions|
  {
    hide Inv, Can, Do, Assumed;
    if actions == [] {
      StartKeeps(env, run[0].disk.base);
    } else {
      var n := |actions| - 1;
      RunKeeps(env, actions[..n], run[..n + 1]);
      StepKeeps(env, run[n], actions[n]);
    }
  }

  lemma StartKeeps(env: Env, base: seq<byte>)
    requires |base| <= MAX_INT64 && Valid(TextOf(base))
    ensures Inv(env, Start(base))
  {
    hide Valid, RuneLen;
  }

  // ---------------------------------------------------------------- what the invariant means

  /** A batch that is whole in the journal and not yet published. */
  function InFlight(s: System): seq<Replace> {
    if s.appending.Some? && s.appending.value.written == Size(s.appending.value.batch) then s.appending.value.batch.ops
        else []
  }

  lemma WholeOps(s: System)
    ensures OpsOf(Whole(s.history.log, s.appending)) == OpsOf(s.history.log) + InFlight(s)
  {
    if s.appending.Some? && s.appending.value.written == Size(s.appending.value.batch) {
      OpsSnoc(s.history.log, s.appending.value.batch);
    }
  }

  /** The newest document in terms of the log. */
  lemma NewestIs(env: Env, s: System, ses: Session)
    requires Live(env, s, ses)
    ensures Applicable(Document(s.disk, ses), InFlight(s))
    ensures var ops := OpsOf(Whole(s.history.log, s.appending));
            Applicable(TextOf(ses.base), ops)
                && Apply(Document(s.disk, ses), InFlight(s)) == Apply(TextOf(ses.base), ops)
  {
    LiveDocument(env, s, ses);
    LiveLog(env, s, ses);
    hide Live, OpsOf, Apply, ValidBatch, Valid, Document, JournalBytes, InFile, ReadOps, Readable, Chained, Accepted,
         Bounded, Applicable, InFlight;
    WholeOps(s);
    WholeLog(ses.base, s.history.log, s.history.committed, s.appending);
    StageableConcat(TextOf(ses.base), OpsOf(s.history.log), InFlight(s));
  }

  lemma LiveLog(env: Env, s: System, ses: Session)
    requires Live(env, s, ses)
    ensures LogOf(ses.base, s.history.log, s.history.committed)
            && NextOf(ses.base, s.history.log, s.history.committed, s.appending)
  {
  }

  /** The disk of a live session holds its newest document and leads up to its revision. */
  lemma DiskHolds(env: Env, s: System, ses: Session)
    requires Live(env, s, ses) && s.session == Some(ses)
    ensures Applicable(Document(s.disk, ses), InFlight(s))
    ensures var ops := OpsOf(Whole(DiskLog(s), s.appending));
            && Applicable(TextOf(s.disk.base), ops)
            && Apply(TextOf(s.disk.base), ops) == Apply(Document(s.disk, ses), InFlight(s))
            && DiskCommitted(s) + |ops| == ses.revision + |InFlight(s)|
  {
    hide Live, LogOf, NextOf, OpsOf, Apply, ValidBatch, JournalBytes, Document, ReadFingerprint, FingerprintOf,
         Applicable, InFlight, StartsWithBOM, KeptIn;
    NewestIs(env, s, ses);
    Parts(env, s, ses);
    PendingIs(env, s, ses);
    WholeOps(s);
    if ses.phase.Replaced? || ses.phase.Faulted? {
      SwitchedFacts(env, s, ses);
      SwitchedImage(env, s, ses);
      LiveFacts(env, s, ses);
      ImageLog(ses.base, s.history.log, s.history.committed, s.history.cut, s.disk.base);
      NoneInFlight(s);
      LogStageable(s.disk.base, DiskLog(s), DiskCommitted(s));
    } else {
      RestingBase(env, s, ses);
    }
  }

  lemma NoneInFlight(s: System)
    requires s.appending.None?
    ensures InFlight(s) == []
  {
  }

  lemma LogStageable(base: seq<byte>, log: seq<Batch>, committed: nat)
    requires LogOf(base, log, committed)
    ensures Applicable(TextOf(base), OpsOf(log))
  {
  }

  lemma OneMatch(env: Env, disk: Disk, log: seq<Batch>, committed: nat, appending: Option<Appending>)
    requires Recoverable(env, disk, log, committed, appending) && disk.journals != map[]
    ensures |Matching(env, disk)| == 1
  {
    hide LogOf, NextOf, JournalBytes, ReadFingerprint, ValidBatch, FingerprintOf, Matching;
    LogOfBase(disk.base, log, committed);
    var n :| KeptIn(env, disk, log, appending, n);
    KeptMatches(env, disk, log, committed, appending, n);
  }

  /** A crash after any step loses nothing: exactly one journal is bound to the base on disk, or there is no
      journal at all, and reopening rebuilds the newest document together with its revision. */
  lemma CrashSafe(env: Env, s: System, ses: Session)
    requires Live(env, s, ses) && s.session == Some(ses)
    ensures s.disk.journals == map[] || |Matching(env, s.disk)| == 1
    ensures Applicable(Document(s.disk, ses), InFlight(s))
    ensures var r := Reopen(env, DoCrash(s).disk);
            && r.Opened? && Document(r.disk, r.session) == Apply(Document(s.disk, ses), InFlight(s))
            && (r.session.pending != [] ==> r.session.revision == ses.revision + |InFlight(s)|)
  {
    LiveRecoverable(env, s, ses);
    DiskHolds(env, s, ses);
    hide Live, LogOf, NextOf, OpsOf, Apply, ValidBatch, JournalBytes, Reopen, Document, ReadFingerprint, Matching,
         FingerprintOf, Recoverable, Applicable, InFlight, SpliceAll, BaseTree;
    ReopenRecovers(env, s.disk, DiskLog(s), DiskCommitted(s), s.appending);
    if s.disk.journals != map[] {
      OneMatch(env, s.disk, DiskLog(s), DiskCommitted(s), s.appending);
    }
    if Whole(DiskLog(s), s.appending) == [] {
      LogPendingNothing(FILE_HEADER_SIZE);
    }
  }

  /** Crash safety for whole runs: whatever has happened before, and wherever it stops. */
  lemma RunSurvivesCrash(env: Env, actions: seq<Action>, run: seq<System>)
    requires Run(env, actions, run) && run[|actions|].session.Some?
    ensures var s := run[|actions|];
            var document := Document(s.disk, s.session.value);
            && (s.disk.journals == map[] || |Matching(env, s.disk)| == 1)
            && Applicable(document, InFlight(s))
            && var r := Reopen(env, s.disk);
               r.Opened? && Document(r.disk, r.session) == Apply(document, InFlight(s))
  {
    hide Can, Do, Assumed, Live, Document, Reopen, Matching, InFlight, Applicable, Apply;
    RunKeeps(env, actions, run);
    CrashSafe(env, run[|actions|], run[|actions|].session.value);
  }

  /** What ties an open session together. */
  ghost predicate Coherent(env: Env, disk: Disk, ses: Session) {
    var file := JournalOf(disk, ses);
    && InFile(file, ses.pending)
    && Applicable(TextOf(ses.base), ReadOps(file, ses.pending))
    && Document(disk, ses) == Apply(TextOf(ses.base), ReadOps(file, ses.pending))
    && Valid(Document(disk, ses))
    && (!ses.phase.Faulted? ==> ses.revision == ses.committed + |ses.pending|)
    && (forall i :: 0 <= i < |ses.pending| ==> ses.pending[i].revision == ses.revision - |ses.pending| + 1 + i)
  }

  /** The journal file and the pending list say the same, batch by batch, to the last byte. */
  ghost predicate JournalExact(env: Env, disk: Disk, ses: Session) {
    var file := JournalOf(disk, ses);
    if ses.journal.None? then ses.pending == []
    else
      && |file| >= FILE_HEADER_SIZE && ses.journalBytes == |file|
      && ReadFingerprint(file, env.crc) == Some(FingerprintOf(env, ses.base))
      && var r := Journal.Replay(file, env.crc);
         && !r.truncated && ses.pending == PendingOf(r.batches)
         && forall i, j :: 0 <= i < j < |r.batches| ==> r.batches[i].group != r.batches[j].group
  }

  /** In every reachable state the tree, the pending list, the revisions and the document agree. */
  lemma LiveCoherent(env: Env, s: System, ses: Session)
    requires Live(env, s, ses)
    ensures Coherent(env, s.disk, ses)
  {
    hide Live, Memory, InJournal, InPhase, LogOf, NextOf, OpsOf, Apply, ValidBatch, JournalBytes, Document,
         ReadFingerprint, FingerprintOf, Applicable, Valid, LogPending, ReadOps, InFile, Readable, Chained, AllHeaded,
         JournalOf, TextOf;
    LiveDocument(env, s, ses);
    LiveLog(env, s, ses);
    PendingIs(env, s, ses);
    Parts(env, s, ses);
    CommittedIs(s, ses);
    PendingRevisions(s.history.log, s.history.committed, FILE_HEADER_SIZE);
    LogKeepsValid(ses.base, s.history.log, s.history.committed);
  }

  lemma LogKeepsValid(base: seq<byte>, log: seq<Batch>, committed: nat)
    requires LogOf(base, log, committed)
    ensures Applicable(TextOf(base), OpsOf(log)) && Valid(Apply(TextOf(base), OpsOf(log)))
  {
    AcceptedKeepsValid(TextOf(base), OpsOf(log));
  }

  lemma CommittedIs(s: System, ses: Session)
    requires Memory(s, ses)
    ensures ses.phase.Faulted? || ses.committed == s.history.committed
  {
  }

  /** And so does the journal, whenever no append is under way. */
  lemma LiveJournalExact(env: Env, s: System, ses: Session)
    requires Live(env, s, ses) && s.appending.None?
    ensures JournalExact(env, s.disk, ses)
  {
    hide Live, Memory, InPhase, LogOf, NextOf, OpsOf, ValidBatch, JournalBytes, Document, ReadFingerprint,
         FingerprintOf, Valid, EncodeAll, ReplayFrom, ReplaysTo, TotalSize, Chained, LogPending, DecodedAll;
    LiveLog(env, s, ses);
    PendingIs(env, s, ses);
    Parts(env, s, ses);
    if ses.journal.Some? {
      var log := s.history.log;
      LogOfBase(ses.base, log, s.history.committed);
      JournalHead(env, ses.base, log, None);
      ReplaysAll(env, ses.base, log, s.history.committed);
      DecodedPendingIs(log);
      forall i, j | 0 <= i < j < |log|
        ensures DecodedAll(log, FILE_HEADER_SIZE)[i].group != DecodedAll(log, FILE_HEADER_SIZE)[j].group
      {
        GroupsGrow(log, s.history.committed, i, j);
        DecodedGroup(log, FILE_HEADER_SIZE, i);
        DecodedGroup(log, FILE_HEADER_SIZE, j);
      }
    } else {
      LogPendingNothing(FILE_HEADER_SIZE);
    }
  }

  lemma DecodedPendingIs(log: seq<Batch>)
    requires AllValid(log)
    ensures LogPending(log, FILE_HEADER_SIZE) == PendingOf(DecodedAll(log, FILE_HEADER_SIZE))
  {
  }

  lemma ReplaysAll(env: Env, base: seq<byte>, log: seq<Batch>, committed: nat)
    requires LogOf(base, log, committed)
    ensures var file := JournalBytes(env, base, log, None);
            && |file| >= FILE_HEADER_SIZE
            && Journal.ReplayFrom(file, FILE_HEADER_SIZE, env.crc).batches == DecodedAll(log, FILE_HEADER_SIZE)
            && !Journal.ReplayFrom(file, FILE_HEADER_SIZE, env.crc).truncated
  {
    hide LogOf, NextOf, JournalBytes, ReadFingerprint, ValidBatch, ReplayFrom, DecodedAll, ReplaysTo, EncodeAll,
         NewFile;
    LogOfBase(base, log, committed);
    NothingAppended(base, log, committed);
    JournalReplays(env, base, log, committed, None);
    RepairedHolds(env, base, log);
    WholeReplay(JournalBytes(env, base, log, None), NewFile(env, base), log, env.crc);
  }

  lemma WholeReplay(file: seq<byte>, head: seq<byte>, log: seq<Batch>, crc: Checksum)
    requires |file| >= FILE_HEADER_SIZE && ReplaysTo(file, head, log, crc) && file == head + EncodeAll(log, crc)
    ensures var r := Journal.Replay(file, crc);
            !r.truncated && r.batches == DecodedAll(log, FILE_HEADER_SIZE)
  {
    hide DecodedAll, EncodeAll, DecodeAt;
  }

  lemma GroupsGrow(log: seq<Batch>, committed: nat, i: nat, j: nat)
    requires Chained(log, committed) && i < j < |log|
    ensures log[i].group < log[j].group
  {
    hide ValidBatch, OpsOf;
    ChainedAt(log, committed, i);
    ChainedAt(log, committed, j);
    ChainedSplit(log, committed, j);
    ChainedAt(log[..j], committed, i);
    assert log[..j][..i + 1] == log[..i + 1];
  }

  lemma {:induction false} DecodedGroup(log: seq<Batch>, offset: nat, i: nat)
    requires AllValid(log) && i < |log|
    ensures DecodedAll(log, offset)[i].group == log[i].group
    decreases |log|
  {
    hide ValidBatch, DecodedOps;
    if i > 0 {
      DecodedGroup(log[1..], offset + Size(log[0]), i - 1);
    }
  }

  lemma RunCoherent(env: Env, actions: seq<Action>, run: seq<System>)
    requires Run(env, actions, run) && run[|actions|].session.Some?
    ensures var s := run[|actions|];
            && Coherent(env, s.disk, s.session.value)
            && (s.appending.None? ==> JournalExact(env, s.disk, s.session.value))
  {
    hide Can, Do, Assumed, Live, Coherent, JournalExact;
    var s := run[|actions|];
    RunKeeps(env, actions, run);
    LiveCoherent(env, s, s.session.value);
    if s.appending.None? {
      LiveJournalExact(env, s, s.session.value);
    }
  }
}
