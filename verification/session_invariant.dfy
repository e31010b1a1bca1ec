/** What every step of the persistence protocol keeps, and what follows for a crash after any step. */
module SessionInvariant {
  import opened Documents
  import opened Utf8
  import opened PieceTree
  import opened Journal
  import opened JournalFiles
  import opened SessionLog
  import opened SessionProtocol
  import opened SessionRecovery
  import opened BaseScan

  // ---------------------------------------------------------------- the invariant

  /** Memory: revisions, pending list and tree are those of the log. */
  ghost predicate Memory(s: System, ses: Session) {
    var h := s.history;
    && ses.hasBOM == StartsWithBOM(ses.base)
    && LogOf(ses.base, h.log, h.committed) && NextOf(ses.base, h.log, h.committed, s.appending)
    && ses.revision == h.committed + |OpsOf(h.log)|
    && (ses.phase.Faulted? || ses.committed == h.committed)
    && ses.pending == LogPending(h.log, FILE_HEADER_SIZE)
    && ses.tree == SpliceAll(BaseTree(ses.base, ses.hasBOM), ses.pending)
  }

  /** The journal holds the log, to the byte. */
  ghost predicate InJournal(env: Env, s: System, ses: Session)
    requires AllValid(s.history.log)
  {
    if ses.journal.None? then s.history.log == [] && s.disk.journals == map[] && s.appending.None? && ses.phase.Idle?
    else
      && ses.journal.value in s.disk.journals && ses.journal.value !in s.retired
      && s.disk.journals[ses.journal.value] == JournalBytes(env, ses.base, s.history.log, s.appending)
      && ses.journalBytes == FILE_HEADER_SIZE + TotalSize(s.history.log)
  }

  /** The base on disk is the open one, and only the journal of the session is bound to it. */
  ghost predicate AtRest(env: Env, s: System, ses: Session) {
    s.disk.base == ses.base && NoOther(env, s.disk, {JournalName(ses)}, ses.base)
  }

  /** The bytes that a save of the document at a batch boundary must write. */
  ghost predicate IsImage(base: seq<byte>, log: seq<Batch>, cut: nat, image: seq<byte>) {
    && cut <= |log| && Applicable(TextOf(base), OpsOf(log[..cut]))
    && image == Prefix(StartsWithBOM(base)) + Apply(TextOf(base), OpsOf(log[..cut]))
  }

  ghost predicate AtCut(s: System, target: nat) {
    s.history.cut <= |s.history.log| && target == s.history.committed + |OpsOf(s.history.log[..s.history.cut])|
  }

  /** The prepared journal holds the newer batches up to a position, and nothing else is bound to the new base. */
  ghost predicate Prepared(env: Env, s: System, ses: Session, image: seq<byte>, name: Name, moved: seq<Pending>,
                           upTo: nat) {
    var h := s.history;
    && h.cut <= upTo <= |h.log| && AllValid(h.log[h.cut..upTo])
    && IsImage(ses.base, h.log, h.cut, image)
    && |image| <= MAX_INT64 && StartsWithBOM(image) == ses.hasBOM
    && ses.journal.Some? && name != ses.journal.value && s.appending.None?
    && name in s.disk.journals && name !in s.retired
    && s.disk.journals[name] == JournalBytes(env, image, h.log[h.cut..upTo], None)
    && NoOther(env, s.disk, {name}, image)
    && moved == LogPending(h.log[h.cut..upTo], FILE_HEADER_SIZE)
  }

  ghost predicate InPhase(env: Env, s: System, ses: Session)
    requires AllValid(s.history.log)
  {
    var h := s.history;
    match ses.phase
    case Idle => AtRest(env, s, ses)
    case Streaming(target, snapshot, written) =>
      && AtRest(env, s, ses) && AtCut(s, target) && ses.journal.Some?
      && AllValid(h.log[..h.cut]) && ImageSize(ses, snapshot) <= MAX_INT64
      && snapshot == SpliceAll(BaseTree(ses.base, ses.hasBOM), LogPending(h.log[..h.cut], FILE_HEADER_SIZE))
      && (exists image ::
            && IsImage(ses.base, h.log, h.cut, image) && |image| == ImageSize(ses, snapshot)
            && written <= image)
    case Locked(target, image, name, rest, moved) =>
      && AtRest(env, s, ses) && AtCut(s, target)
      && Prepared(env, s, ses, image, name, moved, h.copied)
      && |OpsOf(h.log[..h.copied])| <= |ses.pending| && rest == ses.pending[|OpsOf(h.log[..h.copied])|..]
    case Broken(name) => AtRest(env, s, ses) && ses.journal.Some? && name != ses.journal.value && s.appending.None?
        && name !in s.retired
    case Replaced(target, image, name, moved) =>
      AtCut(s, target) && s.disk.base == image && Prepared(env, s, ses, image, name, moved, |h.log|)
    case Faulted(name) =>
      AtCut(s, ses.committed) && (exists moved :: Prepared(env, s, ses, s.disk.base, name, moved, |h.log|))
  }

  ghost predicate Live(env: Env, s: System, ses: Session) {
    && AllHeaded(env, s.disk) && s.retired <= s.disk.journals.Keys
    && Memory(s, ses) && InJournal(env, s, ses) && InPhase(env, s, ses)
  }

  lemma Parts(env: Env, s: System, ses: Session)
    requires Live(env, s, ses)
    ensures AllHeaded(env, s.disk) && s.retired <= s.disk.journals.Keys
    ensures Memory(s, ses) && AllValid(s.history.log) && InJournal(env, s, ses) && InPhase(env, s, ses)
  {
  }

  lemma Joined(env: Env, s: System, ses: Session)
    requires AllHeaded(env, s.disk) && s.retired <= s.disk.journals.Keys
    requires Memory(s, ses) && AllValid(s.history.log) && InJournal(env, s, ses) && InPhase(env, s, ses)
    ensures Live(env, s, ses)
  {
  }

  /** Memory does not depend on the disk or on the phase of a save. */
  lemma MemoryKept(s: System, ses: Session, t: System, u: Session)
    requires Memory(s, ses) && t.appending == s.appending
    requires t.history.log == s.history.log && t.history.committed == s.history.committed
    requires u == ses.(phase := u.phase, committed := u.committed)
    requires u.phase.Faulted? || (u.committed == ses.committed && !ses.phase.Faulted?)
    ensures Memory(t, u)
  {
    hide LogOf, NextOf, LogPending, SpliceAll, OpsOf, BaseTree, StartsWithBOM;
  }

  /** The journal of the session is the same as long as nobody writes to it. */
  lemma InJournalKept(env: Env, s: System, ses: Session, t: System, u: Session)
    requires AllValid(s.history.log) && InJournal(env, s, ses) && ses.journal.Some?
    requires t.history.log == s.history.log && t.appending == s.appending && t.retired == s.retired
    requires u == ses.(phase := u.phase, committed := u.committed)
    requires ses.journal.value in t.disk.journals
             && t.disk.journals[ses.journal.value] == s.disk.journals[ses.journal.value]
    ensures InJournal(env, t, u)
  {
    hide JournalBytes, TotalSize;
  }

  /** Nothing to replay, and journals on disk that belong to other bases. */
  ghost predicate Stranded(env: Env, s: System) {
    && s.history.log == [] && s.appending.None? && s.disk.journals != map[] && AllHeaded(env, s.disk)
    && LogOf(s.disk.base, [], s.history.committed) && NoOther(env, s.disk, {}, s.disk.base)
  }

  /** No session: the disk alone holds the document. */
  ghost predicate AtEnd(env: Env, s: System) {
    && s.retired <= s.disk.journals.Keys
    && (forall n :: n in s.retired ==> n !in Matching(env, s.disk))
    && (Recoverable(env, s.disk, s.history.log, s.history.committed, s.appending) || Stranded(env, s))
  }

  ghost predicate Inv(env: Env, s: System) {
    match s.session
    case None => AtEnd(env, s)
    case Some(ses) => Live(env, s, ses)
  }

  /** What is assumed of the environment. Rollbacks of failed appends succeed. When a save reaches its boundary, no
      journal on disk has the fingerprint of the new base, and a text that begins like a byte order mark is not written
      to a file without one. */
  ghost predicate Assumed(env: Env, s: System, a: Action) {
    && !a.RollbackFailed?
    && (a.EnterBoundary? && s.session.Some? && s.session.value.phase.Streaming? ==>
          var image := s.session.value.phase.written;
          NoOther(env, s.disk, {}, image) && StartsWithBOM(image) == s.session.value.hasBOM)
  }

  // ---------------------------------------------------------------- the document of a live session

  /** The tree holds the committed base with the pending operations applied. */
  lemma LiveDocument(env: Env, s: System, ses: Session)
    requires Live(env, s, ses)
    ensures Applicable(TextOf(ses.base), OpsOf(s.history.log))
    ensures Readable(ses.tree, Sources(ses.base, JournalOf(s.disk, ses)))
    ensures Document(s.disk, ses) == Apply(TextOf(ses.base), OpsOf(s.history.log))
    ensures InFile(JournalOf(s.disk, ses), ses.pending)
            && ReadOps(JournalOf(s.disk, ses), ses.pending) == OpsOf(s.history.log)
  {
    LiveTree(env, s, ses);
    hide Live, LogOf, JournalBytes, SpliceAll, BaseTree, LogPending, OpsOf, Apply, Applicable, Readable, Resolve,
         InFile, ReadOps, TextOf, ValidBatch;
    LogReads(env, ses.base, ses.hasBOM, s.history.log, s.history.committed, JournalOf(s.disk, ses));
  }

  /** Tree, pending list and journal of a live session are those of its log. */
  lemma LiveTree(env: Env, s: System, ses: Session)
    requires Live(env, s, ses)
    ensures ses.hasBOM == StartsWithBOM(ses.base) && LogOf(ses.base, s.history.log, s.history.committed)
    ensures AllValid(s.history.log) && ses.pending == LogPending(s.history.log, FILE_HEADER_SIZE)
    ensures ses.tree == SpliceAll(BaseTree(ses.base, ses.hasBOM), ses.pending)
    ensures s.history.log == [] || JournalBytes(env, ses.base, s.history.log, None) <= JournalOf(s.disk, ses)
  {
    hide Chained, Stageable, Valid, TextOf, SpliceAll, BaseTree, LogPending, OpsOf, ValidBatch, ReadFingerprint,
         NoOther, Encode, EncodeAll, StartsWithBOM;
  }

  /** A tree spliced from a log reads the document of the log from any file that begins with that log. */
  lemma LogReads(env: Env, base: seq<byte>, hasBOM: bool, log: seq<Batch>, committed: nat, file: seq<byte>)
    requires hasBOM == StartsWithBOM(base) && LogOf(base, log, committed)
    requires log == [] || JournalBytes(env, base, log, None) <= file
    ensures Applicable(TextOf(base), OpsOf(log))
    ensures var pending := LogPending(log, FILE_HEADER_SIZE);
            var tree := SpliceAll(BaseTree(base, hasBOM), pending);
            && InFile(file, pending) && ReadOps(file, pending) == OpsOf(log)
            && Readable(tree, Sources(base, file))
            && Resolve(tree, Sources(base, file)) == Apply(TextOf(base), OpsOf(log))
  {
    hide Valid, RuneLen, ValidBatch, EncodeAll, Size, FileHeader, Readable, Resolve, Accepted, Bounded, Apply, NewFile,
         LogPending, OpsOf, Chained, Applicable;
    BaseTreeReads(base, file);
    if log == [] {
      EmptyLog(file);
    } else {
      RepairedHolds(env, base, log);
      NewFileRead(env, base, []);
      HoldsIn(file, NewFile(env, base), log, env.crc);
      ReadLog(file, log, FILE_HEADER_SIZE, env.crc);
    }
    SpliceAllApplies(BaseTree(base, hasBOM), LogPending(log, FILE_HEADER_SIZE), base, file);
  }

  lemma EmptyLog(file: seq<byte>)
    ensures LogPending([], FILE_HEADER_SIZE) == [] && OpsOf([]) == [] && InFile(file, []) && ReadOps(file, []) == []
  {
    assert DecodedAll([], FILE_HEADER_SIZE) == [];
  }

  lemma JournalPrefix(env: Env, base: seq<byte>, log: seq<Batch>, appending: Option<Appending>)
    requires AllValid(log)
    ensures JournalBytes(env, base, log, None) <= JournalBytes(env, base, log, appending)
  {
  }

  /** The base of a finished save, and the log of the edits made during it. */
  lemma ImageLog(base: seq<byte>, log: seq<Batch>, committed: nat, cut: nat, image: seq<byte>)
    requires LogOf(base, log, committed) && IsImage(base, log, cut, image)
    requires |image| <= MAX_INT64 && StartsWithBOM(image) == StartsWithBOM(base)
    ensures LogOf(image, log[cut..], committed + |OpsOf(log[..cut])|)
    ensures Apply(TextOf(image), OpsOf(log[cut..])) == Apply(TextOf(base), OpsOf(log))
  {
    hide Valid, RuneLen, ValidBatch, Accepted, Bounded, Apply, Chained, OpsOf;
    ChainedSplit(log, committed, cut);
    ChainedValid(log[cut..], committed + |OpsOf(log[..cut])|);
    StageableConcat(TextOf(base), OpsOf(log[..cut]), OpsOf(log[cut..]));
    AcceptedKeepsValid(TextOf(base), OpsOf(log[..cut]));
    assert TextOf(image) == Apply(TextOf(base), OpsOf(log[..cut]));
  }
}
