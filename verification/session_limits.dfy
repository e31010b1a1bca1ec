/** The exact conditions under which the persistence protocol recovers: where the safety theorem's hypotheses are
    needed. */
module SessionLimits {
  import opened Documents
  import opened Utf8
  import opened PieceTree
  import opened Journal
  import opened JournalFiles
  import opened SessionLog
  import opened SessionProtocol
  import opened SessionRecovery
  import opened SessionInvariant
  import opened SessionSteps
  import opened SaveSteps
  import opened SessionSafety
  import opened BaseScan

  /** A journal of the base is on disk, among others. */
  ghost predicate HoldsLog(env: Env, disk: Disk, log: seq<Batch>, committed: nat, n: Name) {
    && AllHeaded(env, disk) && LogOf(disk.base, log, committed)
    && n in disk.journals && disk.journals[n] == JournalBytes(env, disk.base, log, None)
  }

  /** Reopening finds the journal of the base exactly when no other journal on disk has its fingerprint.
      Otherwise opening fails, and every journal that matched is set aside. */
  lemma ReopensUnlessAmbiguous(env: Env, disk: Disk, log: seq<Batch>, committed: nat, n: Name)
    requires HoldsLog(env, disk, log, committed, n)
    ensures Reopen(env, disk).Opened? <==> NoOther(env, disk, {n}, disk.base)
    ensures !NoOther(env, disk, {n}, disk.base) ==> Reopen(env, disk) == Refused(Without(disk, Matching(env, disk)))
  {
    hide JournalBytes, ReadFingerprint, ValidBatch, FingerprintOf, Stageable, OpenJournal, Chained;
    LogOfBase(disk.base, log, committed);
    JournalHead(env, disk.base, log, None);
    assert n in Matching(env, disk);
    if NoOther(env, disk, {n}, disk.base) {
      NothingAppended(disk.base, log, committed);
      KeptRecoverable(env, disk, log, committed, None, n);
      ReopenRecovers(env, disk, log, committed, None);
    } else {
      var m :| m in disk.journals && m != n
          && ReadFingerprint(disk.journals[m], env.crc) == Some(FingerprintOf(env, disk.base));
      TwoMatch(Matching(env, disk), m, n);
      assert (set k | k in disk.journals && ReadFingerprint(disk.journals[k], env.crc) == None) == {};
    }
  }

  lemma TwoMatch(s: set<Name>, m: Name, n: Name)
    requires m in s && n in s && m != n
    ensures |s| > 1
  {
    assert |s| == |s - {m}| + 1 && n in s - {m};
  }

  /** A save that has just created its journal survives a crash exactly when the new base has another
      fingerprint than the old one: saving the bytes that are already there makes both journals match. */
  lemma BoundaryExact(env: Env, s: System, ses: Session, name: Name)
    requires s.session == Some(ses) && ses.phase.Streaming?
    requires Live(env, s, ses) && CanStep(env, s.disk, ses, s.appending, EnterBoundary(name))
    ensures var t := DoEnterBoundary(env, s, ses, name);
            Reopen(env, t.disk).Opened? <==> FingerprintOf(env, ses.phase.written) != FingerprintOf(env, ses.base)
  {
    hide Live, LogOf, JournalBytes, ReadFingerprint, FingerprintOf, ValidBatch, NewFile, Stageable, Document, Copyable,
         Reopen, Memory, InPhase;
    Parts(env, s, ses);
    LiveLog(env, s, ses);
    RestingBase(env, s, ses);
    StreamingFacts(env, s, ses);
    NewJournal(env, ses.phase.written);
    var t := DoEnterBoundary(env, s, ses, name);
    FileChanged(env, s.disk, name, NewFile(env, ses.phase.written));
    assert t.disk.journals[name] == NewFile(env, ses.phase.written);
    assert HoldsLog(env, t.disk, s.history.log, s.history.committed, ses.journal.value);
    OneMoreJournal(env, s.disk, name, NewFile(env, ses.phase.written), ses.journal.value, ses.base);
    ReopensUnlessAmbiguous(env, t.disk, s.history.log, s.history.committed, ses.journal.value);
  }

  /** A new journal is one more match exactly when it has the fingerprint of the base. */
  lemma OneMoreJournal(env: Env, disk: Disk, name: Name, file: seq<byte>, own: Name, base: seq<byte>)
    requires name !in disk.journals && own in disk.journals && NoOther(env, disk, {own}, base)
    ensures NoOther(env, WithFile(disk, name, file), {own}, base)
            <==> ReadFingerprint(file, env.crc) != Some(FingerprintOf(env, base))
  {
    hide ReadFingerprint, FingerprintOf;
    var t := WithFile(disk, name, file);
    assert t.journals[name] == file;
    assert forall m :: m in t.journals && m != name ==> m in disk.journals && t.journals[m] == disk.journals[m];
  }

  /** Closing a saved session removes its journal, so that journals of earlier bases which leases still keep
      are all that reopening finds: it succeeds exactly when there are none. */
  lemma CleanCloseExact(env: Env, s: System, ses: Session)
    requires Live(env, s, ses) && s.session == Some(ses) && ses.phase.Idle? && s.appending.None?
    requires ses.revision == ses.committed && ses.journal.Some?
    ensures var t := DoClose(s, ses);
            && (Reopen(env, t.disk).Opened? <==> s.disk.journals.Keys == {ses.journal.value})
            && (Reopen(env, t.disk).Refused? ==>
                  var again := Reopen(env, Reopen(env, t.disk).disk);
                  again.Opened? && Document(again.disk, again.session) == Document(s.disk, ses))
  {
    hide Live, LogOf, JournalBytes, ReadFingerprint, FingerprintOf, ValidBatch, Stageable, Reopen, Memory, InPhase,
         Document, Stranded, Recoverable;
    Parts(env, s, ses);
    RestingBase(env, s, ses);
    NothingPending(s, ses);
    CloseClean(env, s, ses);
    var t := DoClose(s, ses);
    NewestIs(env, s, ses);
    if s.disk.journals.Keys == {ses.journal.value} {
      assert t.disk.journals == map[];
      NotStranded(env, t);
      ReopenRecovers(env, t.disk, [], t.history.committed, None);
    } else {
      assert ses.journal.value in s.disk.journals.Keys;
      var n :| n in s.disk.journals.Keys && n != ses.journal.value;
      assert n in t.disk.journals;
      OthersStrand(env, t);
      StepOpenStranded(env, System(t.disk, None, None, t.retired, t.history));
      ReopenRecovers(env, t.disk.(journals := map[]), [], t.history.committed, None);
      LiveDocument(env, s, ses);
    }
  }

  lemma NotStranded(env: Env, t: System)
    requires AtEnd(env, t) && t.disk.journals == map[]
    ensures Recoverable(env, t.disk, t.history.log, t.history.committed, t.appending)
  {
  }

  /** With an empty log and no matching journal, what is left belongs to other bases. */
  lemma OthersStrand(env: Env, t: System)
    requires AtEnd(env, t) && t.disk.journals != map[] && t.history.log == [] && t.appending.None?
             && NoOther(env, t.disk, {}, t.disk.base)
    ensures Stranded(env, t)
  {
    hide LogOf, ReadFingerprint, JournalBytes, FingerprintOf;
    if Recoverable(env, t.disk, t.history.log, t.history.committed, t.appending) {
      LogOfBase(t.disk.base, [], t.history.committed);
      var n :| KeptIn(env, t.disk, t.history.log, t.appending, n);
      KeptMatches(env, t.disk, t.history.log, t.history.committed, t.appending, n);
      assert n in Matching(env, t.disk);
    }
  }

  /** A text survives being written to a file and scanned again exactly when the file has a byte order mark of
      its own, or the text does not begin with the bytes of one. */
  lemma SavedTextExact(text: seq<byte>, hasBOM: bool)
    ensures TextOf(Prefix(hasBOM) + text) == text <==> hasBOM || !StartsWithBOM(text)
    ensures StartsWithBOM(Prefix(hasBOM) + text) == hasBOM <==> hasBOM || !StartsWithBOM(text)
  {
    var file := Prefix(hasBOM) + text;
    if hasBOM {
      assert file[..3] == BOM && file[3..] == text;
    } else {
      assert file == text;
    }
  }

  /** A disk whose base has one journal, and that holds a log: it opens exactly when the log can be staged on the text
      of the base, and then gives the document of the log. */
  lemma ReopensAsLog(env: Env, disk: Disk, log: seq<Batch>, committed: nat, n: Name)
    requires AllHeaded(env, disk) && |disk.base| <= MAX_INT64 && Valid(TextOf(disk.base))
    requires Chained(log, committed) && AllValid(log) && KeptIn(env, disk, log, None, n)
    ensures Reopen(env, disk).Opened? <==> Stageable(TextOf(disk.base), OpsOf(log))
    ensures Reopen(env, disk).Opened? ==>
              var r := Reopen(env, disk);
              && Applicable(TextOf(disk.base), OpsOf(log))
              && Document(r.disk, r.session) == Apply(TextOf(disk.base), OpsOf(log))
  {
    hide JournalBytes, ReadFingerprint, ValidBatch, FingerprintOf, Stageable, OpenJournal, Chained, Valid, TextOf,
         OpsOf;
    if Stageable(TextOf(disk.base), OpsOf(log)) {
      NothingAppended(disk.base, log, committed);
      KeptRecoverable(env, disk, log, committed, None, n);
      ReopenRecovers(env, disk, log, committed, None);
    } else {
      KeptMatches(env, disk, log, committed, None, n);
      KeptRefused(env, disk, log, committed, n);
    }
  }

  lemma KeptRefused(env: Env, disk: Disk, log: seq<Batch>, committed: nat, n: Name)
    requires |disk.base| <= MAX_INT64 && Chained(log, committed) && AllValid(log) && KeptIn(env, disk, log, None, n)
    requires !Stageable(TextOf(disk.base), OpsOf(log))
    ensures FILE_HEADER_SIZE <= |disk.journals[n]| && OpenJournal(env, disk.base, n, disk.journals[n]).Refused?
  {
    hide ReadFingerprint, ValidBatch, FingerprintOf, Stageable, Chained, OpsOf, EncodeAll, ReplayFrom, ReplaySession,
         DecodedAll, BaseTree, NewFile, NoOther, Resolve, Holds;
    var file := disk.journals[n];
    var tree := BaseTree(disk.base, StartsWithBOM(disk.base));
    NewFileRead(env, disk.base, []);
    RepairedHolds(env, disk.base, log);
    ReplaysWhole(file, NewFile(env, disk.base), log, env.crc);
    BaseTreeReads(disk.base, file);
    BaseTreeSize(disk.base);
    ReplayRefuses(tree, disk.base, file, log, committed, env.crc);
  }

  lemma BaseTreeSize(base: seq<byte>)
    ensures |BaseTree(base, StartsWithBOM(base))| <= |base|
  {
  }

  /** The same edits change all documents by the same length. */
  lemma {:induction false} ApplyLengths(a: seq<byte>, b: seq<byte>, ops: seq<Replace>)
    requires Applicable(a, ops) && Applicable(b, ops)
    ensures |Apply(a, ops)| - |a| == |Apply(b, ops)| - |b|
    decreases |ops|
  {
    if ops != [] {
      ApplyLengths(a, b, ops[..|ops| - 1]);
    }
  }

  /** The disk after the replacement of the base: the image of a log up to a cut, and a journal with the batches behind
      the cut, which alone is bound to it. Reopening gives the document of the whole log exactly when the file had a
      byte order mark before, or the text of the image does not begin like one. Otherwise it is refused, or the document
      has lost its first three bytes. */
  lemma ReplacedExact(env: Env, disk: Disk, base: seq<byte>, log: seq<Batch>, committed: nat, cut: nat, n: Name)
    requires LogOf(base, log, committed) && IsImage(base, log, cut, disk.base) && |disk.base| <= MAX_INT64
    requires AllHeaded(env, disk) && AllValid(log[cut..]) && KeptIn(env, disk, log[cut..], None, n)
    ensures Applicable(TextOf(base), OpsOf(log))
    ensures var r := Reopen(env, disk);
            r.Opened? && Document(r.disk, r.session) == Apply(TextOf(base), OpsOf(log))
            <==> StartsWithBOM(base) || !StartsWithBOM(Apply(TextOf(base), OpsOf(log[..cut])))
  {
    hide JournalBytes, ReadFingerprint, ValidBatch, FingerprintOf, Reopen, Chained, Valid, TextOf, OpsOf, Accepted,
         Bounded, KeptIn, AllHeaded, Document, Apply, Applicable, StartsWithBOM;
    var text := Apply(TextOf(base), OpsOf(log[..cut]));
    ChainedSplit(log, committed, cut);
    StageableConcat(TextOf(base), OpsOf(log[..cut]), OpsOf(log[cut..]));
    AcceptedKeepsValid(TextOf(base), OpsOf(log[..cut]));
    ApplyConcat(TextOf(base), OpsOf(log[..cut]), OpsOf(log[cut..]));
    SavedTextExact(text, StartsWithBOM(base));
    ImageText(base, text);
    ReopensAsLog(env, disk, log[cut..], committed + |OpsOf(log[..cut])|, n);
    if !(StartsWithBOM(base) || !StartsWithBOM(text)) && Reopen(env, disk).Opened? {
      ApplyLengths(text, TextOf(disk.base), OpsOf(log[cut..]));
    }
  }

  /** What the text of a written file is: valid, and three bytes short exactly when a mark appears in it. */
  lemma ImageText(base: seq<byte>, text: seq<byte>)
    requires Valid(text)
    ensures var file := Prefix(StartsWithBOM(base)) + text;
            && Valid(TextOf(file))
            && |TextOf(file)| == if StartsWithBOM(base) || !StartsWithBOM(text) then |text| else |text| - 3
  {
    hide RuneLen;
    var file := Prefix(StartsWithBOM(base)) + text;
    if StartsWithBOM(base) {
      assert file[..3] == BOM && file[3..] == text;
    } else if StartsWithBOM(text) {
      assert file == text == BOM + text[3..];
      MarkValid();
      ValidConcat(BOM, text[3..]);
    } else {
      assert file == text;
    }
  }

  lemma MarkValid()
    ensures Valid(BOM)
  {
    assert BOM[3..] == [];
  }

  /** A fully streamed save, with any edits published while it streamed, from the session's side: once the base is
      replaced and the newer batches are in the only journal bound to it, reopening gives the document of the session
      exactly when the file has a byte order mark or the text of the snapshot does not begin like one. */
  lemma SavedDocumentExact(env: Env, s: System, ses: Session, name: Name)
    requires Live(env, s, ses) && s.session == Some(ses) && ses.phase.Streaming? && s.appending.None?
    requires |ses.phase.written| == ImageSize(ses, ses.phase.snapshot)
    requires name !in s.disk.journals && NoOther(env, s.disk, {}, ses.phase.written)
    ensures var log, cut := s.history.log, s.history.cut;
            && cut <= |log| && AllValid(log[cut..]) && Applicable(TextOf(ses.base), OpsOf(log[..cut]))
            && var disk := Disk(ses.phase.written,
                                s.disk.journals[name := JournalBytes(env, ses.phase.written, log[cut..], None)]);
               var r := Reopen(env, disk);
               r.Opened? && Document(r.disk, r.session) == Document(s.disk, ses)
               <==> ses.hasBOM || !StartsWithBOM(Apply(TextOf(ses.base), OpsOf(log[..cut])))
    ensures ses.phase.target == ses.revision ==>
              (TextOf(ses.phase.written) == Document(s.disk, ses)
               <==> ses.hasBOM || !StartsWithBOM(Document(s.disk, ses)))
  {
    hide Live, LogOf, JournalBytes, ReadFingerprint, ValidBatch, Document, OpsOf, StartsWithBOM, TextOf, Prefix, Apply,
         Applicable, Reopen, FingerprintOf, Chained;
    var log, cut := s.history.log, s.history.cut;
    Parts(env, s, ses);
    FullyStreamed(env, s, ses);
    StreamingFacts(env, s, ses);
    LiveDocument(env, s, ses);
    LiveFacts(env, s, ses);
    PendingIs(env, s, ses);
    NewerKept(env, s, ses, name);
    ReplacedExact(env, Disk(ses.phase.written,
                            s.disk.journals[name := JournalBytes(env, ses.phase.written, log[cut..], None)]),
                  ses.base, log, s.history.committed, cut, name);
    if ses.phase.target == ses.revision {
      CutAll(log, s.history.committed, cut);
      SavedTextExact(Document(s.disk, ses), ses.hasBOM);
    }
  }

  /** The journal of the newer batches, bound to the new base, alone. */
  lemma NewerKept(env: Env, s: System, ses: Session, name: Name)
    requires AllHeaded(env, s.disk) && name !in s.disk.journals && ses.phase.Streaming?
    requires |ses.phase.written| <= MAX_INT64 && NoOther(env, s.disk, {}, ses.phase.written)
    requires AllValid(s.history.log) && s.history.cut <= |s.history.log|
    ensures var newer := s.history.log[s.history.cut..];
            && AllValid(newer)
            && var disk := Disk(ses.phase.written,
                                s.disk.journals[name := JournalBytes(env, ses.phase.written, newer, None)]);
               AllHeaded(env, disk) && KeptIn(env, disk, newer, None, name)
  {
    hide JournalBytes, ReadFingerprint, ValidBatch, FingerprintOf;
    JournalHead(env, ses.phase.written, s.history.log[s.history.cut..], None);
  }

  lemma CutAll(log: seq<Batch>, committed: nat, cut: nat)
    requires Chained(log, committed) && cut <= |log| && |OpsOf(log[..cut])| == |OpsOf(log)|
    ensures log[..cut] == log
  {
    hide ValidBatch, OpsOf, Chained;
    if cut < |log| {
      ChainedAt(log, committed, cut);
    }
  }

  /** What the rebase keeps of a batch. */
  predicate SameBatch(d: Decoded, e: Decoded) {
    && d.firstRevision == e.firstRevision && d.group == e.group && |d.ops| == |e.ops|
    && forall i :: 0 <= i < |d.ops| ==>
         d.ops[i].start == e.ops[i].start && d.ops[i].deleteLength == e.ops[i].deleteLength
             && d.ops[i].insertLength == e.ops[i].insertLength
  }

  /** A journal holds exactly the batches of another one from number k on, and k is where a revision was reached. */
  predicate Continues(older: seq<Decoded>, newer: seq<Decoded>, k: nat, revision: nat) {
    && k + |newer| == |older|
    && (forall i :: 0 <= i < |newer| ==> SameBatch(newer[i], older[k + i]) && newer[i].firstRevision > revision)
    && (forall i :: 0 <= i < k ==> older[i].firstRevision + |older[i].ops| - 1 <= revision)
  }

  /** The prepared journal holds, batch by batch, what the old journal holds of the edits after the snapshot:
      no batch is split, dropped or reordered, and all batches left behind are part of the new base. */
  lemma RebaseSplitsNoBatch(env: Env, s: System, ses: Session)
    requires Live(env, s, ses) && s.session == Some(ses) && ses.phase.Replaced?
    ensures JournalOf(s.disk, ses) != [] && ses.phase.name in s.disk.journals
    ensures var older := Journal.ReplayFrom(JournalOf(s.disk, ses), FILE_HEADER_SIZE, env.crc).batches;
            var newer := Journal.ReplayFrom(s.disk.journals[ses.phase.name], FILE_HEADER_SIZE, env.crc).batches;
            exists k: nat :: Continues(older, newer, k, ses.phase.target)
  {
    hide Live, LogOf, JournalBytes, ReadFingerprint, ValidBatch, Replay, ReplayFrom, OpsOf, Chained, FingerprintOf,
         NoOther, DecodedAll, SameBatch, IsImage, LogPending, StartsWithBOM, Stageable;
    var h := s.history;
    LiveLog(env, s, ses);
    LiveFacts(env, s, ses);
    SwitchedFacts(env, s, ses);
    LogOfBase(ses.base, h.log, h.committed);
    ReplaysAll(env, ses.base, h.log, h.committed);
    ReplaysAll(env, s.disk.base, DiskLog(s), DiskCommitted(s));
    var older, newer := DecodedAll(h.log, FILE_HEADER_SIZE), DecodedAll(h.log[h.cut..], FILE_HEADER_SIZE);
    forall i | 0 <= i < |newer|
      ensures SameBatch(newer[i], older[h.cut + i]) && newer[i].firstRevision > ses.phase.target
    {
      SameDecoded(h.log, FILE_HEADER_SIZE, h.cut + i, h.log[h.cut..], FILE_HEADER_SIZE, i);
      DecodedRevision(h.log[h.cut..], FILE_HEADER_SIZE, i);
      ChainedAt(h.log, h.committed, h.cut + i);
      OpsMonotone(h.log, h.committed, h.cut, h.cut + i);
    }
    forall i | 0 <= i < h.cut
      ensures older[i].firstRevision + |older[i].ops| - 1 <= ses.phase.target
    {
      DecodedRevision(h.log, FILE_HEADER_SIZE, i);
      ChainedAt(h.log, h.committed, i);
      OpsMonotone(h.log, h.committed, i + 1, h.cut);
    }
    assert Continues(older, newer, h.cut, ses.phase.target);
  }

  lemma OpsMonotone(log: seq<Batch>, committed: nat, i: nat, j: nat)
    requires Chained(log, committed) && i <= j <= |log|
    ensures |OpsOf(log[..i])| <= |OpsOf(log[..j])|
  {
    hide ValidBatch, OpsOf, Chained;
    ChainedSplit(log, committed, j);
    ChainedSplit(log[..j], committed, i);
    assert log[..j][..i] == log[..i];
  }

  lemma {:induction false} DecodedRevision(log: seq<Batch>, offset: nat, i: nat)
    requires AllValid(log) && i < |log|
    ensures DecodedAll(log, offset)[i].firstRevision == log[i].firstRevision
            && |DecodedAll(log, offset)[i].ops| == |log[i].ops|
    decreases |log|
  {
    hide ValidBatch, DecodedOps;
    if i > 0 {
      DecodedRevision(log[1..], offset + Size(log[0]), i - 1);
    } else {
      BatchCount(log[0], offset);
    }
  }

  /** Two places of the same batch in two logs. */
  lemma {:induction false} SameDecoded(a: seq<Batch>, x: nat, i: nat, b: seq<Batch>, y: nat, j: nat)
    requires AllValid(a) && AllValid(b) && i < |a| && j < |b| && a[i] == b[j]
    ensures SameBatch(DecodedAll(b, y)[j], DecodedAll(a, x)[i])
    decreases |a| + |b|
  {
    hide ValidBatch, DecodedOps;
    if i > 0 {
      SameDecoded(a[1..], x + Size(a[0]), i - 1, b, y, j);
    } else if j > 0 {
      SameDecoded(a, x, i, b[1..], y + Size(b[0]), j - 1);
    } else {
      SamePlaces(a[0], y, x);
    }
  }

  lemma SamePlaces(b: Batch, x: nat, y: nat)
    requires ValidBatch(b)
    ensures SameBatch(DecodedOf(b, x), DecodedOf(b, y))
  {
    var table := BATCH_HEADER_SIZE + BATCH_RECORD_SIZE * |b.ops|;
    forall i | 0 <= i < |b.ops|
      ensures var d, e := DecodedOf(b, x).ops[i], DecodedOf(b, y).ops[i];
              d.start == e.start && d.deleteLength == e.deleteLength && d.insertLength == e.insertLength
    {
      DecodedFields(b.ops, x + table, i);
      DecodedFields(b.ops, y + table, i);
    }
  }
}
