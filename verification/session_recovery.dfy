/** What a crash leaves on disk, and what reopening makes of it. */
module SessionRecovery {
  import opened Documents
  import opened Utf8
  import opened PieceTree
  import opened Journal
  import opened JournalFiles
  import opened SessionLog
  import opened SessionProtocol
  import opened BaseScan

  /** The first bytes of a batch whose append has not ended. */
  function Tail(env: Env, appending: Option<Appending>): seq<byte> {
    if appending.None? || appending.value.written > Size(appending.value.batch) then []
    else Encode(appending.value.batch, env.crc)[..appending.value.written]
  }

  /** The exact bytes of the journal of a base. */
  function JournalBytes(env: Env, base: seq<byte>, log: seq<Batch>, appending: Option<Appending>): seq<byte>
    requires AllValid(log)
  {
    NewFile(env, base) + EncodeAll(log, env.crc) + Tail(env, appending)
  }

  /** No journal but those named is bound to these bytes. */
  ghost predicate NoOther(env: Env, disk: Disk, named: set<Name>, content: seq<byte>) {
    forall n :: n in disk.journals && n !in named ==>
          ReadFingerprint(disk.journals[n], env.crc) != Some(FingerprintOf(env, content))
  }

  ghost predicate AllHeaded(env: Env, disk: Disk) {
    forall n :: n in disk.journals ==> ReadFingerprint(disk.journals[n], env.crc).Some?
  }

  /** A log for a base: gapless, accepted by staging from the text of the base on. */
  ghost predicate LogOf(base: seq<byte>, log: seq<Batch>, committed: nat) {
    && |base| <= MAX_INT64 && Valid(TextOf(base))
    && Chained(log, committed) && AllValid(log) && Stageable(TextOf(base), OpsOf(log))
  }

  /** The batch being appended is the next one of the log. */
  ghost predicate NextOf(base: seq<byte>, log: seq<Batch>, committed: nat, appending: Option<Appending>) {
    appending.Some? ==>
      var b := appending.value.batch;
      && appending.value.written <= Size(b)
      && b.firstRevision == b.group == committed + |OpsOf(log)| + 1
      && Stageable(TextOf(base), OpsOf(log) + b.ops)
  }

  /** The disk holds a document: base, log, and perhaps part of a batch. */
  ghost predicate Recoverable(env: Env, disk: Disk, log: seq<Batch>, committed: nat, appending: Option<Appending>) {
    && AllHeaded(env, disk)
    && LogOf(disk.base, log, committed) && NextOf(disk.base, log, committed, appending)
    && (if disk.journals == map[] then log == [] && appending.None?
        else exists n :: KeptIn(env, disk, log, appending, n))
  }

  /** One journal is bound to the base, and it holds the log. */
  ghost predicate KeptIn(env: Env, disk: Disk, log: seq<Batch>, appending: Option<Appending>, n: Name)
    requires AllValid(log)
  {
    n in disk.journals && disk.journals[n] == JournalBytes(env, disk.base, log, appending)
        && NoOther(env, disk, {n}, disk.base)
  }

  lemma NewFileRead(env: Env, base: seq<byte>, more: seq<byte>)
    requires |base| <= MAX_INT64
    ensures |NewFile(env, base)| == FILE_HEADER_SIZE
    ensures ReadFingerprint(NewFile(env, base) + more, env.crc) == Some(FingerprintOf(env, base))
  {
    hide FileHeader, ReadFingerprint;
    var file := NewFile(env, base) + more;
    assert file[..FILE_HEADER_SIZE] == NewFile(env, base);
    FingerprintRoundTrip(file, FingerprintOf(env, base), env.crc);
  }

  /** Appending to a journal keeps what it is bound to. */
  lemma FingerprintKept(file: seq<byte>, longer: seq<byte>, crc: Checksum)
    requires ReadFingerprint(file, crc).Some? && file <= longer
    ensures ReadFingerprint(longer, crc) == ReadFingerprint(file, crc)
  {
    hide FileHeader, ReadFingerprint;
    var fp := ReadFingerprint(file, crc).value;
    ReadValid(file, crc);
    FingerprintRoundTrip(file, fp, crc);
    FingerprintRoundTrip(longer, fp, crc);
    assert longer[..FILE_HEADER_SIZE] == file[..FILE_HEADER_SIZE];
  }

  lemma ReadValid(file: seq<byte>, crc: Checksum)
    requires ReadFingerprint(file, crc).Some?
    ensures ValidFingerprint(ReadFingerprint(file, crc).value) && |file| >= FILE_HEADER_SIZE
  {
  }

  lemma WholeLog(base: seq<byte>, log: seq<Batch>, committed: nat, appending: Option<Appending>)
    requires LogOf(base, log, committed) && NextOf(base, log, committed, appending)
    ensures LogOf(base, Whole(log, appending), committed)
  {
    hide Stageable, Valid, RuneLen, ValidBatch;
    if appending.Some? && appending.value.written == Size(appending.value.batch) {
      var b := appending.value.batch;
      ChainedSnoc(log, b, committed);
      ChainedValid(log + [b], committed);
      OpsSnoc(log, b);
    }
  }

  /** The base text is what a fresh tree reads. */
  lemma BaseTreeReads(base: seq<byte>, file: seq<byte>)
    ensures var tree := BaseTree(base, StartsWithBOM(base));
            Readable(tree, Sources(base, file)) && Resolve(tree, Sources(base, file)) == TextOf(base)
  {
    var tree := BaseTree(base, StartsWithBOM(base));
    assert Resolve(tree, Sources(base, file)) == TextOf(base);
  }

  /** A file replays to a log: all its batches, and the offset to repair to. */
  predicate ReplaysTo(file: seq<byte>, head: seq<byte>, log: seq<Batch>, crc: Checksum)
    requires FILE_HEADER_SIZE <= |file|
  {
    && AllValid(log)
    && var r := Journal.Replay(file, crc);
       && r.batches == DecodedAll(log, FILE_HEADER_SIZE)
       && (if r.truncated then file[..r.validBytes] else file) == head + EncodeAll(log, crc)
       && Holds(file, log, crc)
  }

  lemma ReplaysWhole(file: seq<byte>, head: seq<byte>, log: seq<Batch>, crc: Checksum)
    requires AllValid(log) && |head| == FILE_HEADER_SIZE && file == head + EncodeAll(log, crc)
    ensures ReplaysTo(file, head, log, crc)
  {
    hide EncodeAll, DecodedAll, ReplayFrom;
    assert file[FILE_HEADER_SIZE..] == EncodeAll(log, crc);
    ReplayComplete(file, FILE_HEADER_SIZE, log, crc);
    HoldsIn(file, head, log, crc);
  }

  lemma ReplaysTorn(file: seq<byte>, head: seq<byte>, log: seq<Batch>, b: Batch, n: nat, crc: Checksum)
    requires AllValid(log) && ValidBatch(b) && |head| == FILE_HEADER_SIZE && n < Size(b)
    requires file == head + EncodeAll(log, crc) + Encode(b, crc)[..n]
    ensures ReplaysTo(file, head, log, crc)
  {
    hide Encode, EncodeAll, DecodedAll, ReplayFrom, Size, ValidBatch;
    assert file[FILE_HEADER_SIZE..] == EncodeAll(log, crc) + Encode(b, crc)[..n];
    TornReplay(file, log, b, n, crc);
    assert file[..FILE_HEADER_SIZE + TotalSize(log)] == head + EncodeAll(log, crc);
    HoldsIn(file, head, log, crc);
  }

  /** The three shapes of a journal: clean, with a whole batch behind the log, with part of one. */
  lemma JournalShapes(env: Env, base: seq<byte>, log: seq<Batch>, appending: Option<Appending>)
    requires AllValid(log) && (appending.Some? ==> appending.value.written <= Size(appending.value.batch))
    ensures var file := JournalBytes(env, base, log, appending);
            match appending
            case None => file == NewFile(env, base) + EncodeAll(log, env.crc)
            case Some(p) =>
              if p.written == Size(p.batch)
              then AllValid(log + [p.batch]) && file == NewFile(env, base) + EncodeAll(log + [p.batch], env.crc)
              else file == NewFile(env, base) + EncodeAll(log, env.crc) + Encode(p.batch, env.crc)[..p.written]
  {
    hide NewFile, Encode, EncodeAll, ValidBatch, Size;
    if appending.Some? && appending.value.written == Size(appending.value.batch) {
      var b := appending.value.batch;
      EncodeAllSnoc(log, b, env.crc);
      assert Encode(b, env.crc)[..Size(b)] == Encode(b, env.crc);
    }
  }

  /** The journal of a recoverable disk replays to its whole batches. */
  lemma JournalReplays(env: Env, base: seq<byte>, log: seq<Batch>, committed: nat, appending: Option<Appending>)
    requires LogOf(base, log, committed) && NextOf(base, log, committed, appending)
    ensures var file := JournalBytes(env, base, log, appending);
            |file| >= FILE_HEADER_SIZE && ReplaysTo(file, NewFile(env, base), Whole(log, appending), env.crc)
  {
    hide Stageable, Valid, RuneLen, ValidBatch, Encode, EncodeAll, Size, JournalBytes, ReplaysTo, NewFile, TotalSize,
         Chained, OpsOf, ReadFingerprint;
    var file, head := JournalBytes(env, base, log, appending), NewFile(env, base);
    NewFileRead(env, base, []);
    JournalShapes(env, base, log, appending);
    match appending
    case None => ReplaysWhole(file, head, log, env.crc);
    case Some(p) =>
      if p.written == Size(p.batch) {
        ReplaysWhole(file, head, log + [p.batch], env.crc);
      } else {
        ReplaysTorn(file, head, log, p.batch, p.written, env.crc);
      }
  }

  lemma HoldsIn(file: seq<byte>, head: seq<byte>, log: seq<Batch>, crc: Checksum)
    requires |head| == FILE_HEADER_SIZE && AllValid(log) && head + EncodeAll(log, crc) <= file
    ensures Holds(file, log, crc)
  {
    var start := head + EncodeAll(log, crc);
    assert file[FILE_HEADER_SIZE..FILE_HEADER_SIZE + TotalSize(log)] == start[FILE_HEADER_SIZE..]
           == EncodeAll(log, crc);
  }

  /** The session that reopening builds. */
  ghost predicate Rebuilt(env: Env, ses: Session, disk: Disk, base: seq<byte>, log: seq<Batch>, committed: nat)
    requires AllValid(log)
  {
    && disk.base == base && ses.base == base && ses.hasBOM == StartsWithBOM(base) && ses.phase == Idle
    && ses.revision == ses.committed + |OpsOf(log)| && ses.committed == (if log == [] then 0 else committed)
    && ses.pending == LogPending(log, FILE_HEADER_SIZE)
    && ses.tree == SpliceAll(BaseTree(base, ses.hasBOM), ses.pending)
    && (match ses.journal
        case None => disk.journals == map[] && log == []
        case Some(n) => disk.journals == map[n := JournalBytes(env, base, log, None)] &&
                        ses.journalBytes == |JournalBytes(env, base, log, None)|)
  }

  lemma RebuildsOn(base: seq<byte>, file: seq<byte>, log: seq<Batch>, committed: nat, crc: Checksum)
    requires LogOf(base, log, committed) && Holds(file, log, crc)
    ensures var tree := BaseTree(base, StartsWithBOM(base));
            var r := SessionOf(tree, log, committed);
            && ReplaySession(tree, base, file, DecodedAll(log, FILE_HEADER_SIZE)) == Some(r)
            && Resolve(r.tree, Sources(base, file)) == Apply(TextOf(base), OpsOf(log))
  {
    hide Valid, RuneLen, ValidBatch, EncodeAll, TotalSize, DecodedAll, Resolve, ReplaySession, Chained, OpsOf,
         LogPending, Holds;
    BaseTreeReads(base, file);
    ReplayRebuilds(BaseTree(base, StartsWithBOM(base)), base, file, log, committed, crc);
  }

  lemma OpenStep(env: Env, base: seq<byte>, n: Name, file: seq<byte>, log: seq<Batch>, head: seq<byte>, r: Recovered)
    requires FILE_HEADER_SIZE <= |file| && ReplaysTo(file, head, log, env.crc)
    requires ReplaySession(BaseTree(base, StartsWithBOM(base)), base, file, DecodedAll(log, FILE_HEADER_SIZE))
             == Some(r)
    ensures var repaired := head + EncodeAll(log, env.crc);
            OpenJournal(env, base, n, file)
              == Opened(Session(base, StartsWithBOM(base), r.tree, r.revision, r.committed, r.pending, Some(n),
                                |repaired|, Idle),
                        Disk(base, map[n := repaired]))
  {
    hide ReplaySession, Replay, ReplayFrom, EncodeAll, DecodedAll, BaseTree, Holds;
  }

  /** Opening a journal that holds a log rebuilds the session of that log. */
  lemma OpenRebuilds(env: Env, base: seq<byte>, log: seq<Batch>, committed: nat, appending: Option<Appending>, n: Name)
    requires LogOf(base, log, committed) && NextOf(base, log, committed, appending)
    ensures var file := JournalBytes(env, base, log, appending);
            var whole := Whole(log, appending);
            && FILE_HEADER_SIZE <= |file| && AllValid(whole) && Applicable(TextOf(base), OpsOf(whole))
            && var r := OpenJournal(env, base, n, file);
               r.Opened? && Rebuilt(env, r.session, r.disk, base, whole, committed) && r.session.journal == Some(n) &&
               Document(r.disk, r.session) == Apply(TextOf(base), OpsOf(whole))
  {
    var file := JournalBytes(env, base, log, appending);
    var whole := Whole(log, appending);
    JournalReplays(env, base, log, committed, appending);
    WholeLog(base, log, committed, appending);
    var head := NewFile(env, base);
    RepairedHolds(env, base, whole);
    var repaired := JournalBytes(env, base, whole, None);
    hide Valid, RuneLen, ValidBatch, Encode, EncodeAll, TotalSize, Size, DecodedAll, Resolve, ReplaySession, Accepted,
         TextOf, Bounded, NewFile, Apply, Chained, OpsOf, LogPending, SpliceAll, Holds, ReplayFrom, OpenJournal,
         BaseTree, Whole, JournalBytes;
    RebuildsOn(base, file, whole, committed, env.crc);
    RebuildsOn(base, repaired, whole, committed, env.crc);
    OpenStep(env, base, n, file, whole, head, SessionOf(BaseTree(base, StartsWithBOM(base)), whole, committed));
  }

  lemma RepairedHolds(env: Env, base: seq<byte>, log: seq<Batch>)
    requires AllValid(log) && |base| <= MAX_INT64
    ensures JournalBytes(env, base, log, None) == NewFile(env, base) + EncodeAll(log, env.crc)
    ensures Holds(JournalBytes(env, base, log, None), log, env.crc)
  {
    hide EncodeAll, Holds;
    NewFileRead(env, base, []);
    HoldsIn(JournalBytes(env, base, log, None), NewFile(env, base), log, env.crc);
  }

  /** A recoverable disk reopens, to exactly the document it holds, whatever is torn behind the log. */
  lemma ReopenRecovers(env: Env, disk: Disk, log: seq<Batch>, committed: nat, appending: Option<Appending>)
    requires Recoverable(env, disk, log, committed, appending)
    ensures var whole := Whole(log, appending);
            && AllValid(whole) && Applicable(TextOf(disk.base), OpsOf(whole))
            && var r := Reopen(env, disk);
               r.Opened? && Rebuilt(env, r.session, r.disk, disk.base, whole, committed) &&
               Document(r.disk, r.session) == Apply(TextOf(disk.base), OpsOf(whole))
  {
    hide Valid, RuneLen, ValidBatch, EncodeAll, Size, FileHeader, Resolve, Accepted, Bounded, OpenJournal,
         ReadFingerprint, JournalBytes;
    WholeLog(disk.base, log, committed, appending);
    if disk.journals == map[] {
      BaseTreeReads(disk.base, []);
      NoLog(BaseTree(disk.base, StartsWithBOM(disk.base)), disk.base, []);
      assert SpliceAll(BaseTree(disk.base, StartsWithBOM(disk.base)), [])
             == BaseTree(disk.base, StartsWithBOM(disk.base));
    } else {
      var n :| KeptIn(env, disk, log, appending, n);
      KeptMatches(env, disk, log, committed, appending, n);
      OpenRebuilds(env, disk.base, log, committed, appending, n);
    }
  }

  lemma KeptMatches(env: Env, disk: Disk, log: seq<Batch>, committed: nat, appending: Option<Appending>, n: Name)
    requires AllHeaded(env, disk) && |disk.base| <= MAX_INT64 && AllValid(log) && KeptIn(env, disk, log, appending, n)
    ensures Matching(env, disk) == {n}
    ensures (set m | m in disk.journals && ReadFingerprint(disk.journals[m], env.crc) == None) == {}
  {
    hide ReadFingerprint, EncodeAll, NewFile, Tail, ValidBatch, FingerprintOf;
    var more := EncodeAll(log, env.crc) + Tail(env, appending);
    assert NewFile(env, disk.base) + EncodeAll(log, env.crc) + Tail(env, appending) == NewFile(env, disk.base) + more;
    NewFileRead(env, disk.base, more);
  }
}
