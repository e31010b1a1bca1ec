/** Every step of the persistence protocol keeps its invariant. */
module SessionSteps {
  import opened Documents
  import opened Utf8
  import opened PieceTree
  import opened Journal
  import opened JournalFiles
  import opened SessionLog
  import opened SessionProtocol
  import opened SessionRecovery
  import opened SessionInvariant
  import opened BaseScan

  // ---------------------------------------------------------------- journal bytes

  lemma JournalHead(env: Env, base: seq<byte>, log: seq<Batch>, appending: Option<Appending>)
    requires AllValid(log) && |base| <= MAX_INT64
    ensures ReadFingerprint(JournalBytes(env, base, log, appending), env.crc) == Some(FingerprintOf(env, base))
    ensures appending.None? ==> |JournalBytes(env, base, log, appending)| == FILE_HEADER_SIZE + TotalSize(log)
  {
    hide ReadFingerprint, NewFile, Encode, EncodeAll, ValidBatch, FingerprintOf, Size;
    var more := EncodeAll(log, env.crc) + Tail(env, appending);
    NewFileRead(env, base, more);
    assert NewFile(env, base) + EncodeAll(log, env.crc) + Tail(env, appending) == NewFile(env, base) + more;
  }

  lemma JournalGrows(env: Env, base: seq<byte>, log: seq<Batch>, b: GoodBatch, n: nat, count: nat)
    requires AllValid(log) && n + count <= Size(b)
    ensures JournalBytes(env, base, log, Some(Appending(b, n))) + Encode(b, env.crc)[n..n + count]
         == JournalBytes(env, base, log, Some(Appending(b, n + count)))
    ensures JournalBytes(env, base, log, Some(Appending(b, 0))) == JournalBytes(env, base, log, None)
  {
    hide Encode, EncodeAll, NewFile;
    var encoded := Encode(b, env.crc);
    assert encoded[..n] + encoded[n..n + count] == encoded[..n + count];
  }

  lemma JournalComplete(env: Env, base: seq<byte>, log: seq<Batch>, b: GoodBatch)
    requires AllValid(log)
    ensures AllValid(log + [b])
    ensures JournalBytes(env, base, log, Some(Appending(b, Size(b)))) == JournalBytes(env, base, log + [b], None)
    ensures TotalSize(log + [b]) == TotalSize(log) + Size(b)
  {
    hide Encode, EncodeAll, NewFile, TotalSize, ValidBatch, JournalBytes;
    JournalShapes(env, base, log, Some(Appending(b, Size(b))));
    DecodedAllSnoc(log, b, 0);
    JournalShapes(env, base, log + [b], None);
  }

  /** Changing one journal, without changing what it is bound to. */
  lemma FileChanged(env: Env, disk: Disk, name: Name, file: seq<byte>)
    requires AllHeaded(env, disk) && ReadFingerprint(file, env.crc).Some?
    ensures AllHeaded(env, WithFile(disk, name, file))
    ensures forall named: set<Name>, content: seq<byte> {:trigger NoOther(env, disk, named, content)} ::
              name in named && NoOther(env, disk, named, content) ==>
                    NoOther(env, WithFile(disk, name, file), named, content)
  {
  }

  // ---------------------------------------------------------------- appending

  lemma StepCreateJournal(env: Env, s: System, ses: Session, name: Name)
    requires Live(env, s, ses) && CanStep(env, s.disk, ses, s.appending, CreateJournal(name))
    ensures var t := DoCreateJournal(env, s, ses, name);
            t.session.Some? && Live(env, t, t.session.value)
  {
    JournalHead(env, ses.base, [], None);
    assert JournalBytes(env, ses.base, [], None) == NewFile(env, ses.base);
    hide LogOf, NextOf, ReadFingerprint, NewFile;
  }

  lemma LiveBase(env: Env, s: System, ses: Session)
    requires Live(env, s, ses)
    ensures |ses.base| <= MAX_INT64 && AllValid(s.history.log)
  {
  }

  /** Growing, cutting back or starting an append changes nothing but the tail of the journal. */
  lemma AppendingChanged(env: Env, s: System, ses: Session, appending: Option<Appending>)
    requires Live(env, s, ses) && ses.journal.Some? && (ses.phase.Idle? || ses.phase.Streaming?)
    requires NextOf(ses.base, s.history.log, s.history.committed, appending)
    ensures var file := JournalBytes(env, ses.base, s.history.log, appending);
            Live(env, s.(disk := WithFile(s.disk, ses.journal.value, file), appending := appending), ses)
  {
    hide Live, NextOf, JournalBytes, ValidBatch, ReadFingerprint;
    LiveBase(env, s, ses);
    JournalHead(env, ses.base, s.history.log, appending);
    AppendingSet(env, s, ses, appending, JournalBytes(env, ses.base, s.history.log, appending));
  }

  lemma AppendingSet(env: Env, s: System, ses: Session, appending: Option<Appending>, file: seq<byte>)
    requires Live(env, s, ses) && ses.journal.Some? && (ses.phase.Idle? || ses.phase.Streaming?)
    requires NextOf(ses.base, s.history.log, s.history.committed, appending)
    requires AllValid(s.history.log) && file == JournalBytes(env, ses.base, s.history.log, appending)
    requires ReadFingerprint(file, env.crc).Some?
    ensures Live(env, s.(disk := WithFile(s.disk, ses.journal.value, file), appending := appending), ses)
  {
    hide NextOf, LogOf, ReadFingerprint, JournalBytes, IsImage, SpliceAll, BaseTree, LogPending, OpsOf, NoOther,
         ValidBatch, TotalSize, ImageSize;
    FileChanged(env, s.disk, ses.journal.value, file);
  }

  lemma AppendHasJournal(env: Env, s: System, ses: Session)
    requires Live(env, s, ses) && s.appending.Some?
    ensures ses.journal.Some? && (ses.phase.Idle? || ses.phase.Streaming?)
    ensures JournalOf(s.disk, ses) == JournalBytes(env, ses.base, s.history.log, s.appending)
  {
  }

  lemma AppendNext(env: Env, s: System, ses: Session, written: nat)
    requires Live(env, s, ses) && s.appending.Some? && written <= Size(s.appending.value.batch)
    ensures NextOf(ses.base, s.history.log, s.history.committed, Some(s.appending.value.(written := written)))
  {
  }

  lemma AppendSize(env: Env, s: System, ses: Session)
    requires Live(env, s, ses) && s.appending.Some?
    ensures ses.journalBytes == FILE_HEADER_SIZE + TotalSize(s.history.log)
    ensures ses.journalBytes == AppendStart(s.disk, ses, s.appending.value.written)
  {
    hide EncodeAll, ReadFingerprint, TotalSize, ValidBatch, Encode, Size, NoOther, LogPending, SpliceAll, BaseTree;
    AppendHasJournal(env, s, ses);
    JournalHead(env, ses.base, s.history.log, None);
  }

  lemma StepBeginAppend(env: Env, s: System, ses: Session, b: GoodBatch)
    requires Live(env, s, ses) && CanStep(env, s.disk, ses, s.appending, BeginAppend(b.ops)) && s.session == Some(ses)
    requires b == Batch(ses.revision + 1, ses.revision + 1, b.ops)
    ensures var t := DoBeginAppend(s, ses, b);
            t.session.Some? && Live(env, t, t.session.value)
  {
    LiveDocument(env, s, ses);
    StageableConcat(TextOf(ses.base), OpsOf(s.history.log), b.ops);
    JournalGrows(env, ses.base, s.history.log, b, 0, 0);
    hide Live, Stageable, JournalBytes, Document;
    SameFile(env, s, ses);
    AppendingChanged(env, s, ses, Some(Appending(b, 0)));
  }

  lemma SameFile(env: Env, s: System, ses: Session)
    requires Live(env, s, ses) && ses.journal.Some? && s.appending.None?
    ensures s.disk == WithFile(s.disk, ses.journal.value, JournalBytes(env, ses.base, s.history.log, None))
  {
  }

  lemma StepWriteMore(env: Env, s: System, ses: Session, count: nat)
    requires Live(env, s, ses) && CanStep(env, s.disk, ses, s.appending, WriteMore(count)) && s.session == Some(ses)
    ensures var t := DoWriteMore(env, s, ses, s.appending.value, count);
            t.session.Some? && Live(env, t, t.session.value)
  {
    hide Live, JournalBytes, Size, Encode, NextOf, ValidBatch, Stageable, Document, Copyable, Prefix;
    var p := s.appending.value;
    AppendHasJournal(env, s, ses);
    LiveBase(env, s, ses);
    AppendNext(env, s, ses, p.written + count);
    JournalGrows(env, ses.base, s.history.log, p.batch, p.written, count);
    AppendingChanged(env, s, ses, Some(p.(written := p.written + count)));
  }

  lemma RollbackFile(env: Env, s: System, ses: Session)
    requires Live(env, s, ses) && s.appending.Some?
    ensures AllValid(s.history.log)
    ensures Truncated(JournalOf(s.disk, ses), AppendStart(s.disk, ses, s.appending.value.written))
            == JournalBytes(env, ses.base, s.history.log, None)
  {
    AppendHasJournal(env, s, ses);
    LiveBase(env, s, ses);
    AppendSize(env, s, ses);
    hide Live, JournalBytes, TotalSize, ValidBatch, ReadFingerprint, NextOf;
    JournalPrefix(env, ses.base, s.history.log, s.appending);
    JournalHead(env, ses.base, s.history.log, None);
  }

  lemma StepRollback(env: Env, s: System, ses: Session)
    requires Live(env, s, ses) && s.appending.Some? && s.session == Some(ses)
    ensures var t := DoRollback(s, ses);
            t.session.Some? && Live(env, t, t.session.value)
  {
    hide Live, JournalBytes, ValidBatch, Truncated;
    AppendHasJournal(env, s, ses);
    RollbackFile(env, s, ses);
    AppendingChanged(env, s, ses, None);
  }

  lemma MemoryGrows(s: System, ses: Session, b: GoodBatch)
    requires Memory(s, ses) && s.appending == Some(Appending(b, Size(b)))
    requires AppendStart(s.disk, ses, Size(b)) == FILE_HEADER_SIZE + TotalSize(s.history.log)
    ensures var t := DoPublish(s, ses, b);
            Memory(t, t.session.value)
  {
    hide Stageable, Chained, ValidBatch, LogPending, SpliceAll, Valid, Size, TotalSize, BaseTree, DecodedOf,
         AppendStart;
    var log := s.history.log;
    WholeLog(ses.base, log, s.history.committed, s.appending);
    LogPendingSnoc(log, b, FILE_HEADER_SIZE);
    SpliceAllConcat(BaseTree(ses.base, ses.hasBOM), ses.pending,
                    DecodedPending(DecodedOf(b, AppendStart(s.disk, ses, Size(b)))));
    OpsSnoc(log, b);
  }

  lemma MemoryOf(env: Env, s: System, ses: Session)
    requires Live(env, s, ses)
    ensures Memory(s, ses)
  {
  }

  lemma StepPublish(env: Env, s: System, ses: Session, b: GoodBatch)
    requires Live(env, s, ses) && s.session == Some(ses) && s.appending == Some(Appending(b, Size(b)))
    ensures var t := DoPublish(s, ses, b);
            t.session.Some? && Live(env, t, t.session.value)
  {
    hide Live, Memory, JournalBytes, ValidBatch, Size, TotalSize;
    AppendHasJournal(env, s, ses);
    LiveBase(env, s, ses);
    AppendSize(env, s, ses);
    JournalComplete(env, ses.base, s.history.log, b);
    JournalHead(env, ses.base, s.history.log + [b], None);
    MemoryOf(env, s, ses);
    MemoryGrows(s, ses, b);
    Published(env, s, ses, b, JournalOf(s.disk, ses));
  }

  lemma Published(env: Env, s: System, ses: Session, b: GoodBatch, file: seq<byte>)
    requires Live(env, s, ses) && s.session == Some(ses) && s.appending == Some(Appending(b, Size(b)))
    requires ses.journal.Some? && (ses.phase.Idle? || ses.phase.Streaming?) && file == JournalOf(s.disk, ses)
    requires AllValid(s.history.log + [b]) && file == JournalBytes(env, ses.base, s.history.log + [b], None)
    requires |file| == FILE_HEADER_SIZE + TotalSize(s.history.log + [b])
    requires var t := DoPublish(s, ses, b); Memory(t, t.session.value)
    ensures var t := DoPublish(s, ses, b);
            t.session.Some? && Live(env, t, t.session.value)
  {
    CutKept(s.history.log, b, s.history.cut);
    hide Memory, NoOther, ReadFingerprint, LogPending, SpliceAll, BaseTree, JournalBytes, LogOf, NextOf, DecodedOf,
         TotalSize, Size, IsImage, OpsOf, ValidBatch, Prefix;
  }

  lemma CutKept(log: seq<Batch>, b: GoodBatch, cut: nat)
    ensures cut <= |log| ==> (log + [b])[..cut] == log[..cut]
    ensures forall base, image {:trigger IsImage(base, log, cut, image)} :: IsImage(base, log, cut, image) ==>
              IsImage(base, log + [b], cut, image)
  {
  }
}
