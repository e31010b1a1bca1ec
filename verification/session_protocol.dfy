/** The persistence protocol of a session: edits are appended to a journal and then published; a save streams
    a snapshot while newer edits land, prepares a journal for the new base, replaces the file and rebases.
    A run may crash after any step, and reopening starts from what is on disk. */
module SessionProtocol {
  import opened Documents
  import opened Utf8
  import opened PieceTree
  import opened Journal
  import opened JournalFiles
  import opened SessionLog
  import opened BaseScan

  type Name = nat

  /** Checksum, content hash and path of the document: nothing is known of them. */
  datatype Env = Env(crc: Checksum, hash: seq<byte> -> Hash, pathHash: Hash)

  function FingerprintOf(env: Env, content: seq<byte>): Fingerprint {
    Fingerprint(|content|, env.pathHash, env.hash(content))
  }

  /** The base file and the recovery directory. */
  datatype Disk = Disk(base: seq<byte>, journals: map<Name, seq<byte>>)

  datatype Phase =
    | Idle
    | Streaming(target: nat, snapshot: seq<Ref>, written: seq<byte>)
    | Locked(target: nat, image: seq<byte>, name: Name, rest: seq<Pending>, moved: seq<Pending>)
    | Broken(name: Name)
    | Replaced(target: nat, image: seq<byte>, name: Name, moved: seq<Pending>)
    | Faulted(name: Name)

  /** The fields of an open session. The tree is given by its references into the open base and the journal. */
  datatype Session = Session(
    base: seq<byte>, hasBOM: bool, tree: seq<Ref>, revision: nat, committed: nat, pending: seq<Pending>,
    journal: Option<Name>, journalBytes: nat, phase: Phase)

  type GoodBatch = b: Batch | ValidBatch(b) witness Batch(1, 1, [Replace(0, 0, [])])

  /** A batch of which the first written bytes are in the journal and which is not yet published. */
  datatype Appending = Appending(batch: GoodBatch, written: nat)

  /** No step depends on the history; it says what the bytes on disk mean. The log is that of the session's
      journal, cut and copied are the batches before the snapshot and before the copying position of a save. */
  datatype History = History(log: seq<Batch>, committed: nat, cut: nat, copied: nat)

  /** Retired journals belong to earlier generations that leases keep open. */
  datatype System = System(disk: Disk, session: Option<Session>, appending: Option<Appending>, retired: set<Name>,
                           history: History)

  // ---------------------------------------------------------------- reading a session

  function Prefix(hasBOM: bool): (s: seq<byte>) {
    if hasBOM then BOM else []
  }

  /** The tree of a freshly opened base. */
  function BaseTree(base: seq<byte>, hasBOM: bool): seq<Ref> {
    var from := |Prefix(hasBOM)|;
    BaseRefs(from, if from <= |base| then |base| - from else 0)
  }

  function JournalOf(disk: Disk, session: Session): seq<byte> {
    if session.journal.Some? && session.journal.value in disk.journals then disk.journals[session.journal.value] else []
  }

  /** The newest document. */
  function Document(disk: Disk, session: Session): seq<byte> {
    Resolve(session.tree, Sources(session.base, JournalOf(disk, session)))
  }

  /** The bytes that a save of a tree streams. */
  function ImageOf(disk: Disk, session: Session, snapshot: seq<Ref>): seq<byte> {
    Prefix(session.hasBOM) + Resolve(snapshot, Sources(session.base, JournalOf(disk, session)))
  }

  function Newer(pending: seq<Pending>, target: nat): seq<Pending>
    decreases |pending|
  {
    if pending == [] then [] else
      var last := |pending| - 1;
      Newer(pending[..last], target) + (if pending[last].revision > target then [pending[last]] else [])
  }

  /** The length of the first run of equal groups. */
  function RunLength(pending: seq<Pending>): (n: nat)
    ensures n <= |pending| && (pending != [] ==> n > 0)
    decreases |pending|
  {
    if |pending| <= 1 then |pending|
    else if pending[|pending| - 1].group == pending[0].group && RunLength(pending[..|pending| - 1]) == |pending| - 1
        then |pending|
    else RunLength(pending[..|pending| - 1])
  }

  function RebasedTo(run: seq<Pending>, b: Batch, at: nat): seq<Pending>
    requires ValidBatch(b) && |run| == |b.ops|
  {
    seq(|run|, i requires 0 <= i < |run| => run[i].(insertOffset := DecodedOf(b, at).ops[i].payloadOffset))
  }

  // ---------------------------------------------------------------- reopening

  datatype Reopened = Opened(session: Session, disk: Disk) | Refused(disk: Disk)

  ghost function Matching(env: Env, disk: Disk): set<Name> {
    set n | n in disk.journals && ReadFingerprint(disk.journals[n], env.crc) == Some(FingerprintOf(env, disk.base))
  }

  function Without(disk: Disk, gone: set<Name>): Disk {
    disk.(journals := disk.journals - gone)
  }

  /** Opening: scan the base, choose the journal by fingerprint and set all others aside, replay, repair. */
  ghost function Reopen(env: Env, disk: Disk): Reopened {
    var hasBOM := StartsWithBOM(disk.base);
    var unreadable := set n | n in disk.journals && ReadFingerprint(disk.journals[n], env.crc) == None;
    var matching := Matching(env, disk);
    if !Valid(TextOf(disk.base)) then Refused(disk)
    else if disk.journals == map[] then
      Opened(Session(disk.base, hasBOM, BaseTree(disk.base, hasBOM), 0, 0, [], None, 0, Idle), disk)
    else if unreadable != {} then Refused(Without(disk, unreadable))
    else if |matching| > 1 then Refused(Without(disk, matching))
    else if matching == {} then Refused(disk.(journals := map[]))
    else
      var name :| name in matching;
      OpenJournal(env, disk.base, name, disk.journals[name])
  }

  function OpenJournal(env: Env, base: seq<byte>, name: Name, file: seq<byte>): Reopened
    requires FILE_HEADER_SIZE <= |file|
  {
    var hasBOM := StartsWithBOM(base);
    var replay := Journal.Replay(file, env.crc);
    var recovered := ReplaySession(BaseTree(base, hasBOM), base, file, replay.batches);
    if recovered.None? then Refused(Disk(base, map[name := file]))
    else
      var repaired := if replay.truncated then file[..replay.validBytes] else file;
      var r := recovered.value;
      Opened(Session(base, hasBOM, r.tree, r.revision, r.committed, r.pending, Some(name), |repaired|, Idle),
             Disk(base, map[name := repaired]))
  }

  // ---------------------------------------------------------------- steps

  datatype Action =
    | CreateJournal(name: Name)
    | BeginAppend(ops: seq<Replace>)
    | WriteMore(count: nat)
    | Rollback
    | RollbackFailed
    | Publish
    | BeginSave
    | Stream(count: nat)
    | AbandonStream
    | EnterBoundary(name: Name)
    | CopyGroup
    | CopyTorn(count: nat)
    | Discard(removed: bool)
    | ReplaceBase
    | Finish
    | Fault
    | RemoveRetired(name: Name)
    | Close
    | Crash
    | Open

  /** The batch made of the next group of a rebase, read from the old journal. */
  function NextBatch(file: seq<byte>, rest: seq<Pending>): (b: Batch)
    requires rest != [] && InFile(file, rest)
  {
    var run := rest[..RunLength(rest)];
    Batch(run[0].revision, run[0].group, ReadOps(file, run))
  }

  ghost predicate Copyable(disk: Disk, ses: Session) {
    && ses.phase.Locked? && ses.phase.rest != [] && ses.phase.name in disk.journals
    && InFile(JournalOf(disk, ses), ses.phase.rest) && ValidBatch(NextBatch(JournalOf(disk, ses), ses.phase.rest))
  }

  function ImageSize(ses: Session, snapshot: seq<Ref>): nat {
    |Prefix(ses.hasBOM)| + |snapshot|
  }

  /** When the code takes a step of an open session. An append holds the session lock, and so does a save
      from its boundary on. */
  ghost predicate CanStep(env: Env, disk: Disk, ses: Session, appending: Option<Appending>, a: Action) {
    match a
    case CreateJournal(name) => appending.None? && ses.phase.Idle? && ses.journal.None? && name !in disk.journals
    case BeginAppend(ops) =>
      && appending.None? && (ses.phase.Idle? || ses.phase.Streaming?) && ses.journal.Some?
      && Stageable(Document(disk, ses), ops) && ValidBatch(Batch(ses.revision + 1, ses.revision + 1, ops))
    case WriteMore(count) => appending.Some? && appending.value.written + count <= Size(appending.value.batch)
    case Rollback => appending.Some?
    case RollbackFailed => appending.Some?
    case Publish => appending.Some? && appending.value.written == Size(appending.value.batch)
    case BeginSave =>
      appending.None? && ses.phase.Idle? && ses.revision > ses.committed && ImageSize(ses, ses.tree) <= MAX_INT64
    case Stream(count) => ses.phase.Streaming? && |ses.phase.written| + count <= ImageSize(ses, ses.phase.snapshot)
    case AbandonStream => appending.None? && ses.phase.Streaming?
    case EnterBoundary(name) =>
      && appending.None? && ses.phase.Streaming? && |ses.phase.written| == ImageSize(ses, ses.phase.snapshot)
      && name !in disk.journals
    case CopyGroup => Copyable(disk, ses)
    case CopyTorn(count) => Copyable(disk, ses) && count <= Size(NextBatch(JournalOf(disk, ses), ses.phase.rest))
    case Discard(_) => ses.phase.Locked? || ses.phase.Broken?
    case ReplaceBase => ses.phase.Locked? && ses.phase.rest == []
    case Finish => ses.phase.Replaced? && ses.phase.name in disk.journals
    case Fault => ses.phase.Replaced?
    case Close => appending.None? && (ses.phase.Idle? || ses.phase.Faulted?)
    case _ => false
  }

  ghost predicate Can(env: Env, s: System, a: Action) {
    match a
    case RemoveRetired(name) => name in s.retired
    case Open => s.session.None?
    case Crash => s.session.Some?
    case _ => s.session.Some? && CanStep(env, s.disk, s.session.value, s.appending, a)
  }

  /** The batches that the journal of the base on disk holds. */
  function DiskLog(s: System): seq<Batch> {
    if s.session.Some? && (s.session.value.phase.Replaced? || s.session.value.phase.Faulted?)
        && s.history.cut <= |s.history.log|
    then s.history.log[s.history.cut..] else s.history.log
  }

  function DiskCommitted(s: System): nat {
    if s.session.Some? && (s.session.value.phase.Replaced? || s.session.value.phase.Faulted?)
        && s.history.cut <= |s.history.log|
    then s.history.committed + |OpsOf(s.history.log[..s.history.cut])| else s.history.committed
  }

  /** The session is gone, and with it everything that was not on disk. */
  function Gone(s: System): System {
    System(s.disk, None, s.appending, s.retired, History(DiskLog(s), DiskCommitted(s), 0, 0))
  }

  function Whole(log: seq<Batch>, appending: Option<Appending>): seq<Batch> {
    if appending.Some? && appending.value.written == Size(appending.value.batch) then log + [appending.value.batch]
        else log
  }

  function AtPhase(s: System, phase: Phase): System
    requires s.session.Some?
  {
    s.(session := Some(s.session.value.(phase := phase)))
  }

  function WithFile(disk: Disk, name: Name, file: seq<byte>): Disk {
    disk.(journals := disk.journals[name := file])
  }

  function JournalName(ses: Session): Name {
    if ses.journal.Some? then ses.journal.value else 0
  }

  /** RemoveRetired: the last lease of an earlier generation is closed. */
  function DoRemoveRetired(s: System, name: Name): System {
    s.(disk := Without(s.disk, {name}), retired := s.retired - {name})
  }

  /** The process ends; nobody will remove a retired journal any more. */
  function DoCrash(s: System): System {
    Gone(s).(retired := {})
  }

  ghost function DoOpen(env: Env, s: System): System {
    match Reopen(env, s.disk)
    case Opened(session, disk) =>
      var log := Whole(s.history.log, s.appending);
      System(disk, Some(session), None, {}, History(log, if log == [] then 0 else s.history.committed, 0, 0))
    case Refused(disk) => System(disk, None, s.appending, {}, s.history)
  }

  function DoCreateJournal(env: Env, s: System, ses: Session, name: Name): System {
    s.(disk := WithFile(s.disk, name, NewFile(env, ses.base)),
       session := Some(ses.(journal := Some(name), journalBytes := FILE_HEADER_SIZE)))
  }

  function DoBeginAppend(s: System, ses: Session, b: GoodBatch): System {
    s.(appending := Some(Appending(b, 0)))
  }

  function DoWriteMore(env: Env, s: System, ses: Session, p: Appending, count: nat): System
    requires p.written + count <= Size(p.batch)
  {
    s.(disk := WithFile(s.disk, JournalName(ses),
                        JournalOf(s.disk, ses) + Encode(p.batch, env.crc)[p.written..p.written + count]),
       appending := Some(p.(written := p.written + count)))
  }

  /** Where the append began whose last bytes the journal ends with. */
  function AppendStart(disk: Disk, ses: Session, written: nat): nat {
    if written <= |JournalOf(disk, ses)| then |JournalOf(disk, ses)| - written else 0
  }

  function DoRollback(s: System, ses: Session): System
    requires s.appending.Some?
  {
    var start := AppendStart(s.disk, ses, s.appending.value.written);
    s.(disk := WithFile(s.disk, JournalName(ses), Truncated(JournalOf(s.disk, ses), start)), appending := None)
  }

  /** The truncation fails too: what was written stays, and the session goes on. */
  function DoRollbackFailed(s: System): System {
    s.(appending := None)
  }

  function DoPublish(s: System, ses: Session, b: GoodBatch): System {
    var added := DecodedPending(DecodedOf(b, AppendStart(s.disk, ses, Size(b))));
    s.(session := Some(ses.(tree := SpliceAll(ses.tree, added), revision := ses.revision + |b.ops|,
                            pending := ses.pending + added, journalBytes := |JournalOf(s.disk, ses)|)),
       appending := None,
       history := s.history.(log := s.history.log + [b]))
  }

  function DoBeginSave(s: System, ses: Session): System {
    s.(session := Some(ses.(phase := Streaming(ses.revision, ses.tree, []))),
       history := s.history.(cut := |s.history.log|))
  }

  /** The next bytes are read from the sources as they are now, not as they were at the snapshot. */
  function DoStream(s: System, ses: Session, count: nat): System
    requires ses.phase.Streaming? && |ses.phase.written| + count <= ImageSize(ses, ses.phase.snapshot)
  {
    var n := |ses.phase.written|;
    var written := ses.phase.written + ImageOf(s.disk, ses, ses.phase.snapshot)[n..n + count];
    s.(session := Some(ses.(phase := ses.phase.(written := written))))
  }

  function DoEnterBoundary(env: Env, s: System, ses: Session, name: Name): System
    requires ses.phase.Streaming?
  {
    var p := ses.phase;
    System(WithFile(s.disk, name, NewFile(env, p.written)),
           Some(ses.(phase := Locked(p.target, p.written, name, Newer(ses.pending, p.target), []))),
           s.appending, s.retired, s.history.(copied := s.history.cut))
  }

  function DoCopyGroup(env: Env, s: System, ses: Session): System
    requires Copyable(s.disk, ses)
  {
    var p, prepared := ses.phase, s.disk.journals[ses.phase.name];
    var n, b := RunLength(p.rest), NextBatch(JournalOf(s.disk, ses), p.rest);
    System(WithFile(s.disk, p.name, prepared + Encode(b, env.crc)),
           Some(ses.(phase := p.(rest := p.rest[n..], moved := p.moved + RebasedTo(p.rest[..n], b, |prepared|)))),
           s.appending, s.retired, s.history.(copied := s.history.copied + 1))
  }

  function DoCopyTorn(env: Env, s: System, ses: Session, count: nat): System
    requires Copyable(s.disk, ses) && count <= Size(NextBatch(JournalOf(s.disk, ses), ses.phase.rest))
  {
    var p := ses.phase;
    var part := Encode(NextBatch(JournalOf(s.disk, ses), p.rest), env.crc)[..count];
    s.(session := Some(ses.(phase := Broken(p.name))), disk := WithFile(s.disk, p.name, s.disk.journals[p.name] + part))
  }

  function DoReplaceBase(s: System, ses: Session): System
    requires ses.phase.Locked?
  {
    var p := ses.phase;
    s.(session := Some(ses.(phase := Replaced(p.target, p.image, p.name, p.moved))), disk := s.disk.(base := p.image))
  }

  function DoFinish(s: System, ses: Session): System
    requires ses.phase.Replaced? && ses.phase.name in s.disk.journals
  {
    var p := ses.phase;
    System(s.disk,
           Some(Session(p.image, ses.hasBOM, SpliceAll(BaseTree(p.image, ses.hasBOM), p.moved), ses.revision, p.target,
                        p.moved, Some(p.name), |s.disk.journals[p.name]|, Idle)),
           s.appending,
           s.retired + (if ses.journal.Some? then {ses.journal.value} else {}),
           History(DiskLog(s), p.target, 0, 0))
  }

  function DoFault(s: System, ses: Session): System
    requires ses.phase.Replaced?
  {
    s.(session := Some(ses.(phase := Faulted(ses.phase.name), committed := ses.phase.target)))
  }

  function DoClose(s: System, ses: Session): System {
    Gone(s).(disk := if ses.revision > ses.committed || ses.journal.None? then s.disk
             else Without(s.disk, {ses.journal.value}))
  }

  ghost function DoStep(env: Env, s: System, ses: Session, a: Action): System
    requires s.session == Some(ses) && CanStep(env, s.disk, ses, s.appending, a)
  {
    match a
    case CreateJournal(name) => DoCreateJournal(env, s, ses, name)
    case BeginAppend(ops) => DoBeginAppend(s, ses, Batch(ses.revision + 1, ses.revision + 1, ops))
    case WriteMore(count) => DoWriteMore(env, s, ses, s.appending.value, count)
    case Rollback => DoRollback(s, ses)
    case RollbackFailed => DoRollbackFailed(s)
    case Publish => DoPublish(s, ses, s.appending.value.batch)
    case BeginSave => DoBeginSave(s, ses)
    case Stream(count) => DoStream(s, ses, count)
    case AbandonStream => AtPhase(s, Idle)
    case EnterBoundary(name) => DoEnterBoundary(env, s, ses, name)
    case CopyGroup => DoCopyGroup(env, s, ses)
    case CopyTorn(count) => DoCopyTorn(env, s, ses, count)
    case Discard(removed) => AtPhase(s, Idle).(disk := if removed then Without(s.disk, {ses.phase.name}) else s.disk)
    case ReplaceBase => DoReplaceBase(s, ses)
    case Finish => DoFinish(s, ses)
    case Fault => DoFault(s, ses)
    case Close => DoClose(s, ses)
  }

  ghost function Do(env: Env, s: System, a: Action): System
    requires Can(env, s, a)
  {
    match a
    case RemoveRetired(name) => DoRemoveRetired(s, name)
    case Open => DoOpen(env, s)
    case Crash => DoCrash(s)
    case _ => DoStep(env, s, s.session.value, a)
  }

  /** A step leads from one state to another. */
  ghost predicate Takes(env: Env, s: System, a: Action, t: System) {
    Can(env, s, a) && Do(env, s, a) == t
  }

  /** A new journal: the header alone. */
  function NewFile(env: Env, base: seq<byte>): (file: seq<byte>) {
    if |base| <= MAX_INT64 then FileHeader(FingerprintOf(env, base), env.crc) else []
  }
}
