/** Runs in which the persistence protocol does not recover, built step by step from a fresh file. */
module SessionFailures {
  import opened Documents
  import opened Utf8
  import opened PieceTree
  import opened Journal
  import opened JournalFiles
  import opened SessionLog
  import opened SessionProtocol
  import opened SessionRecovery
  import opened SessionInvariant
  import opened SaveSteps
  import opened SessionSafety
  import opened SessionLimits
  import opened BaseScan

  // ---------------------------------------------------------------- reaching a state

  /** A run from the fresh file takes these steps and ends in this state. */
  ghost predicate Reached(env: Env, base: seq<byte>, actions: seq<Action>, s: System) {
    exists run :: Run(env, actions, run) && run[0] == Start(base) && run[|actions|] == s
  }

  lemma ReachedStart(env: Env, base: seq<byte>)
    requires |base| <= MAX_INT64 && Valid(TextOf(base))
    ensures Reached(env, base, [], Start(base))
  {
    hide Valid, RuneLen;
    assert Run(env, [], [Start(base)]);
  }

  lemma ReachedStep(env: Env, base: seq<byte>, actions: seq<Action>, s: System, a: Action)
    requires Reached(env, base, actions, s) && Can(env, s, a) && Assumed(env, s, a)
    ensures Reached(env, base, actions + [a], Do(env, s, a)) && Inv(env, Do(env, s, a))
  {
    hide Can, Do, Assumed, Inv, Valid, RuneLen, TextOf;
    var run :| Run(env, actions, run) && run[0] == Start(base) && run[|actions|] == s;
    var longer := run + [Do(env, s, a)];
    assert Run(env, actions + [a], longer);
    RunKeeps(env, actions + [a], longer);
  }

  // ---------------------------------------------------------------- two edits

  const LETTER: seq<byte> := [97]

  /** Text typed at the beginning. */
  lemma StageInsert(text: seq<byte>, insert: seq<byte>)
    requires Valid(text) && Valid(insert) && |text| + |insert| <= MAX_INT64 && |insert| <= 3
    ensures var ops := [Replace(0, 0, insert)];
            && Stageable(text, ops) && Apply(text, ops) == insert + text && ValidBatch(Batch(1, 1, ops))
  {
    hide Valid, RuneLen;
    var ops := [Replace(0, 0, insert)];
    assert ops[..0] == [] && ops[1..] == [];
    assert Splice(text, 0, 0, insert) == insert + text;
    assert Inserts(ops) == insert + Inserts(ops[1..]);
    StageableNothing(text);
    InsertsNothing();
  }

  lemma InsertsNothing()
    ensures Inserts([]) == []
  {
  }

  lemma StageLetter(text: seq<byte>)
    requires Valid(text) && |text| < MAX_INT64
    ensures var ops := [Replace(0, 0, LETTER)];
            && Stageable(text, ops) && Apply(text, ops) == LETTER + text && ValidBatch(Batch(1, 1, ops))
  {
    hide Valid, RuneLen, Stageable, ValidBatch, Apply, Applicable;
    LetterValid();
    StageInsert(text, LETTER);
  }

  lemma LetterValid()
    ensures Valid(LETTER)
  {
    assert LETTER[1..] == [];
  }

  /** A letter at the beginning, typed and removed in one edit, leaves the text as it was. */
  lemma StageNothing(text: seq<byte>)
    requires Valid(text) && |text| < MAX_INT64
    ensures var ops := [Replace(0, 0, LETTER), Replace(0, 1, [])];
            && Stageable(text, ops) && Apply(text, ops) == text && ValidBatch(Batch(1, 1, ops))
  {
    hide Valid, RuneLen, RuneStart;
    var ops := [Replace(0, 0, LETTER), Replace(0, 1, [])];
    StageLetter(text);
    assert ops[..1] == [Replace(0, 0, LETTER)] && ops[1..] == [Replace(0, 1, [])] && ops[1..][1..] == [];
    assert Inserts(ops[1..]) == [] + Inserts([]) && Inserts(ops) == LETTER + Inserts(ops[1..]);
    RemovesLetter(text);
    assert Splice(LETTER + text, 0, 1, []) == text;
  }

  lemma RemovesLetter(text: seq<byte>)
    requires Valid(text)
    ensures BoundaryTest(LETTER + text, 0, 1) && Valid([])
  {
    LetterValid();
    ValidConcat(LETTER, text);
    assert (LETTER + text)[..1] == LETTER;
    SelfSynchronizing(LETTER + text, 1);
  }

  // ---------------------------------------------------------------- the way to a streamed save

  /** One edit, published, and a save that has streamed everything. */
  function EditAndStream(base: seq<byte>, ops: seq<Replace>): seq<Action>
    requires Applicable(TextOf(base), ops)
  {
    [Open, CreateJournal(0), BeginAppend(ops), WriteMore(Size(Batch(1, 1, ops))), Publish, BeginSave,
     Stream(|Image(base, ops)|)]
  }

  function Image(base: seq<byte>, ops: seq<Replace>): seq<byte>
    requires Applicable(TextOf(base), ops)
  {
    Prefix(StartsWithBOM(base)) + Apply(TextOf(base), ops)
  }

  /** A session whose journal holds these batches, with nothing else on disk. */
  ghost predicate Holds(s: System, base: seq<byte>, log: seq<Batch>, appending: Option<Appending>, revision: nat) {
    && s.session.Some? && s.disk.base == base && s.retired == {} && s.disk.journals.Keys == {0}
    && s.appending == appending && s.history.log == log && s.history.committed == 0
    && var ses := s.session.value;
       && ses.base == base && ses.hasBOM == StartsWithBOM(base) && ses.journal == Some(0)
       && ses.committed == 0 && ses.revision == revision
  }

  lemma Opening(env: Env, base: seq<byte>) returns (s: System)
    requires |base| <= MAX_INT64 && Valid(TextOf(base))
    ensures Reached(env, base, [Open, CreateJournal(0)], s) && Inv(env, s)
    ensures Holds(s, base, [], None, 0) && s.session.value.phase.Idle?
  {
    hide Valid, RuneLen, TextOf, BaseTree, StartsWithBOM, Reached, Inv, Assumed, NewFile;
    ReachedStart(env, base);
    assert Assumed(env, Start(base), Open) by {
      NothingToAssume(env, Start(base), Open);
    }
    ReachedStep(env, base, [], Start(base), Open);
    var s0 := Do(env, Start(base), Open);
    assert [] + [Open] == [Open] && [Open] + [CreateJournal(0)] == [Open, CreateJournal(0)];
    NothingToAssume(env, s0, CreateJournal(0));
    ReachedStep(env, base, [Open], s0, CreateJournal(0));
    s := Do(env, s0, CreateJournal(0));
  }

  lemma NothingToAssume(env: Env, s: System, a: Action)
    requires !a.EnterBoundary? && !a.RollbackFailed?
    ensures Assumed(env, s, a)
  {
  }

  /** What the tree of such a session reads. */
  lemma Reads(env: Env, s: System, ses: Session)
    requires Inv(env, s) && s.session == Some(ses)
    ensures Live(env, s, ses) && Applicable(TextOf(ses.base), OpsOf(s.history.log))
    ensures Document(s.disk, ses) == Apply(TextOf(ses.base), OpsOf(s.history.log))
    ensures |ses.tree| == |Document(s.disk, ses)|
  {
    LiveDocument(env, s, ses);
  }

  /** The four steps of an edit and the two of a streamed save. */
  lemma Begin(env: Env, base: seq<byte>, actions: seq<Action>, s: System, ops: seq<Replace>) returns (t: System)
    requires Reached(env, base, actions, s) && Inv(env, s) && Holds(s, base, [], None, 0) && s.session.value.phase.Idle?
    requires Stageable(TextOf(base), ops) && ValidBatch(Batch(1, 1, ops))
    ensures Reached(env, base, actions + [BeginAppend(ops)], t) && Inv(env, t)
    ensures Holds(t, base, [], Some(Appending(Batch(1, 1, ops), 0)), 0) && t.session.value.phase.Idle?
  {
    hide TextOf, StartsWithBOM, Reached, Inv, Assumed, Stageable, ValidBatch, Document, Apply, Applicable;
    Reads(env, s, s.session.value);
    NothingLogged(TextOf(base));
    NothingToAssume(env, s, BeginAppend(ops));
    ReachedStep(env, base, actions, s, BeginAppend(ops));
    t := Do(env, s, BeginAppend(ops));
  }

  lemma WriteAll(env: Env, base: seq<byte>, actions: seq<Action>, s: System, b: GoodBatch) returns (t: System)
    requires Reached(env, base, actions, s) && Inv(env, s) && Holds(s, base, [], Some(Appending(b, 0)), 0)
    requires s.session.value.phase.Idle?
    ensures Reached(env, base, actions + [WriteMore(Size(b))], t) && Inv(env, t)
    ensures Holds(t, base, [], Some(Appending(b, Size(b))), 0) && t.session.value.phase.Idle?
  {
    hide StartsWithBOM, Reached, Inv, Assumed, ValidBatch, Size, Encode;
    NothingToAssume(env, s, WriteMore(Size(b)));
    ReachedStep(env, base, actions, s, WriteMore(Size(b)));
    t := Do(env, s, WriteMore(Size(b)));
  }

  lemma PublishAll(env: Env, base: seq<byte>, actions: seq<Action>, s: System, b: GoodBatch) returns (t: System)
    requires Reached(env, base, actions, s) && Inv(env, s) && Holds(s, base, [], Some(Appending(b, Size(b))), 0)
    requires s.session.value.phase.Idle?
    ensures Reached(env, base, actions + [Publish], t) && Inv(env, t)
    ensures Holds(t, base, [b], None, |b.ops|) && t.session.value.phase.Idle?
  {
    hide StartsWithBOM, Reached, Inv, Assumed, ValidBatch, Size, DecodedOf, DecodedPending, SpliceAll;
    NothingToAssume(env, s, Publish);
    ReachedStep(env, base, actions, s, Publish);
    t := Do(env, s, Publish);
    assert [] + [b] == [b];
  }

  lemma Snapshot(env: Env, base: seq<byte>, actions: seq<Action>, s: System, ops: seq<Replace>) returns (t: System)
    requires Reached(env, base, actions, s) && Inv(env, s) && Holds(s, base, [Batch(1, 1, ops)], None, |ops|)
    requires s.session.value.phase.Idle? && ValidBatch(Batch(1, 1, ops)) && Applicable(TextOf(base), ops)
    requires |Image(base, ops)| <= MAX_INT64
    ensures Reached(env, base, actions + [BeginSave], t) && Inv(env, t)
    ensures Holds(t, base, [Batch(1, 1, ops)], None, |ops|) && t.history.cut == 1
    ensures var p := t.session.value.phase;
            p.Streaming? && p.target == |ops| && p.written == []
                && |Image(base, ops)| == ImageSize(t.session.value, p.snapshot)
  {
    hide TextOf, StartsWithBOM, Reached, Inv, Assumed, ValidBatch, Document, Apply, Applicable, Prefix;
    Reads(env, s, s.session.value);
    OneLogged(Batch(1, 1, ops));
    OpsNotEmpty(Batch(1, 1, ops));
    NothingToAssume(env, s, BeginSave);
    ReachedStep(env, base, actions, s, BeginSave);
    t := Do(env, s, BeginSave);
  }

  lemma StreamAll(env: Env, base: seq<byte>, actions: seq<Action>, s: System, ops: seq<Replace>) returns (t: System)
    requires Reached(env, base, actions, s) && Inv(env, s) && Holds(s, base, [Batch(1, 1, ops)], None, |ops|)
             && s.history.cut == 1
    requires Applicable(TextOf(base), ops)
    requires var p := s.session.value.phase;
             p.Streaming? && p.target == |ops| && p.written == []
                 && |Image(base, ops)| == ImageSize(s.session.value, p.snapshot)
    ensures Reached(env, base, actions + [Stream(|Image(base, ops)|)], t) && Inv(env, t)
    ensures Holds(t, base, [Batch(1, 1, ops)], None, |ops|)
    ensures var p := t.session.value.phase; p.Streaming? && p.target == |ops| && p.written == Image(base, ops)
    ensures |t.session.value.phase.written| == ImageSize(t.session.value, t.session.value.phase.snapshot)
  {
    hide TextOf, StartsWithBOM, Reached, Inv, Assumed, ValidBatch, Apply, Applicable, Prefix, IsImage, Resolve, Live;
    var count := |Image(base, ops)|;
    NothingToAssume(env, s, Stream(count));
    ReachedStep(env, base, actions, s, Stream(count));
    t := Do(env, s, Stream(count));
    InvLive(env, t);
    StreamedLength(s, t, count);
    FullyStreamed(env, t, t.session.value);
    assert [Batch(1, 1, ops)][..1] == [Batch(1, 1, ops)];
    OneLogged(Batch(1, 1, ops));
    ImageOfLog(base, [Batch(1, 1, ops)], 1, t.session.value.phase.written);
  }

  lemma StreamedLength(s: System, t: System, count: nat)
    requires s.session.Some? && s.session.value.phase.Streaming? && s.session.value.phase.written == []
    requires count == ImageSize(s.session.value, s.session.value.phase.snapshot)
    requires t == DoStream(s, s.session.value, count)
    ensures |t.session.value.phase.written| == count
  {
  }

  lemma Fits(text: seq<byte>, ops: seq<Replace>)
    requires Stageable(text, ops)
    ensures Applicable(text, ops)
  {
  }

  lemma NothingLogged(text: seq<byte>)
    ensures Applicable(text, OpsOf([])) && Apply(text, OpsOf([])) == text
  {
  }

  /** After the last step all of the image has been streamed. */
  lemma Streamed(env: Env, base: seq<byte>, ops: seq<Replace>) returns (s: System)
    requires |base| <= MAX_INT64 && Valid(TextOf(base)) && Stageable(TextOf(base), ops) && ValidBatch(Batch(1, 1, ops))
    requires Applicable(TextOf(base), ops) && |Image(base, ops)| <= MAX_INT64
    ensures Reached(env, base, EditAndStream(base, ops), s) && Inv(env, s)
    ensures Holds(s, base, [Batch(1, 1, ops)], None, |ops|)
    ensures var p := s.session.value.phase; p.Streaming? && p.target == |ops| && p.written == Image(base, ops)
    ensures |s.session.value.phase.written| == ImageSize(s.session.value, s.session.value.phase.snapshot)
  {
    hide Valid, TextOf, StartsWithBOM, Reached, Inv, Stageable, ValidBatch, Apply, Applicable, Image, ImageSize, Size,
         Holds;
    var b: GoodBatch := Batch(1, 1, ops);
    var actions := [Open, CreateJournal(0)];
    s := Opening(env, base);
    s := Begin(env, base, actions, s, ops);
    actions := actions + [BeginAppend(ops)];
    s := WriteAll(env, base, actions, s, b);
    actions := actions + [WriteMore(Size(b))];
    s := PublishAll(env, base, actions, s, b);
    actions := actions + [Publish];
    s := Snapshot(env, base, actions, s, ops);
    actions := actions + [BeginSave];
    s := StreamAll(env, base, actions, s, ops);
    assert actions + [Stream(|Image(base, ops)|)] == EditAndStream(base, ops);
  }

  lemma InvLive(env: Env, s: System)
    requires Inv(env, s) && s.session.Some?
    ensures Live(env, s, s.session.value)
  {
  }

  lemma ImageOfLog(base: seq<byte>, log: seq<Batch>, cut: nat, image: seq<byte>)
    requires IsImage(base, log, cut, image)
    ensures cut <= |log| && Applicable(TextOf(base), OpsOf(log[..cut]))
    ensures image == Prefix(StartsWithBOM(base)) + Apply(TextOf(base), OpsOf(log[..cut]))
  {
  }

  lemma OneLogged(b: Batch)
    ensures OpsOf([b]) == b.ops
  {
    OpsSnoc([], b);
    assert [] + [b] == [b];
  }

  lemma OpsNotEmpty(b: Batch)
    requires ValidBatch(b)
    ensures |b.ops| > 0
  {
  }

  // ---------------------------------------------------------------- saving the bytes that are already there

  /** Reopening after a crash can fail. For every base file: type a letter, remove it, and save; the process ends when
      the journal for the new base has just been created. It has the fingerprint of the old one, since the new base has
      the same bytes, and reopening finds both. */
  lemma SaveOfNothing(env: Env, base: seq<byte>) returns (actions: seq<Action>, s: System, t: System)
    requires |base| < MAX_INT64 && Valid(TextOf(base))
    ensures Reached(env, base, actions, s) && Takes(env, s, EnterBoundary(1), t)
    ensures BeginAppend([Replace(0, 0, LETTER), Replace(0, 1, [])]) in actions
    ensures Reopen(env, DoCrash(t).disk).Refused?
  {
    hide Valid, RuneLen, StartsWithBOM, Reached, Stageable, ValidBatch, Apply, Applicable, Reopen, Live, ImageOf,
         FingerprintOf, Prefix;
    var ops := [Replace(0, 0, LETTER), Replace(0, 1, [])];
    BaseLength(base);
    StageNothing(TextOf(base));
    Fits(TextOf(base), ops);
    actions := EditAndStream(base, ops);
    s := Streamed(env, base, ops);
    InvLive(env, s);
    BoundaryExact(env, s, s.session.value, 1);
    t := DoEnterBoundary(env, s, s.session.value, 1);
  }

  lemma BaseLength(base: seq<byte>)
    ensures Prefix(StartsWithBOM(base)) + TextOf(base) == base && |TextOf(base)| <= |base|
  {
  }

  // ---------------------------------------------------------------- typing the bytes of a mark

  /** Reopening after a crash can give another document. For every base file without a byte order mark: type the three
      bytes of one at the beginning, and save; the process ends when the file has been replaced. The bytes that were
      text are now the mark of the file, and the reopened document is the one before the edit. */
  lemma SaveOfMark(env: Env, base: seq<byte>) returns (actions: seq<Action>, s: System, locked: System, t: System)
    requires |base| + 3 <= MAX_INT64 && Valid(base) && !StartsWithBOM(base)
    ensures Reached(env, base, actions, s) && BeginAppend([Replace(0, 0, BOM)]) in actions
    ensures s.session.Some? && Document(s.disk, s.session.value) == BOM + base
    ensures Takes(env, s, EnterBoundary(1), locked) && Takes(env, locked, ReplaceBase, t)
    ensures var r := Reopen(env, DoCrash(t).disk);
            r.Opened? && Document(r.disk, r.session) == base
  {
    hide Valid, RuneLen, Reached, Stageable, ValidBatch, Apply, Applicable, Reopen, Live, Document, NoOther, NewFile,
         ImageOf, Newer, StartsWithBOM, Prefix, TextOf, Takes, DoCrash, Inv;
    var ops := [Replace(0, 0, BOM)];
    MarkValid();
    StageInsert(base, BOM);
    Fits(base, ops);
    MarkImage(base, ops);
    actions := EditAndStream(base, ops);
    s := Streamed(env, base, ops);
    assert actions[2] in actions;
    Reads(env, s, s.session.value);
    OneLogged(Batch(1, 1, ops));
    NothingNewer(env, s);
    OtherLength(env, s, base, BOM + base);
    MarkReopens(env, s, base);
    locked, t := ReplacedAtOnce(env, s, BOM + base);
  }

  lemma MarkImage(base: seq<byte>, ops: seq<Replace>)
    requires !StartsWithBOM(base) && Applicable(base, ops)
    ensures TextOf(base) == base && Image(base, ops) == Apply(base, ops)
  {
    hide Apply, Applicable;
  }

  /** The end of a save without newer edits: the boundary, the replacement, and a crash. */
  lemma ReplacedAtOnce(env: Env, s: System, image: seq<byte>) returns (locked: System, t: System)
    requires s.session.Some? && s.appending.None? && 1 !in s.disk.journals
    requires s.session.value.phase.Streaming? && s.session.value.phase.written == image
    requires |image| == ImageSize(s.session.value, s.session.value.phase.snapshot)
    requires Newer(s.session.value.pending, s.session.value.phase.target) == []
    ensures Takes(env, s, EnterBoundary(1), locked) && Takes(env, locked, ReplaceBase, t)
    ensures DoCrash(t).disk == Disk(image, s.disk.journals[1 := NewFile(env, image)])
  {
    hide Newer, NewFile, Document, Stageable, ValidBatch, Copyable;
    locked := DoEnterBoundary(env, s, s.session.value, 1);
    t := DoReplaceBase(locked, locked.session.value);
  }

  lemma MarkReopens(env: Env, s: System, base: seq<byte>)
    requires |base| + 3 <= MAX_INT64 && Valid(base)
    requires Inv(env, s) && s.session.Some? && s.session.value.phase.Streaming? && s.disk.journals.Keys == {0}
    requires NoOther(env, s.disk, {}, BOM + base)
    ensures var disk := Disk(BOM + base, s.disk.journals[1 := NewFile(env, BOM + base)]);
            var r := Reopen(env, disk);
            r.Opened? && Document(r.disk, r.session) == base
  {
    hide Valid, RuneLen, Reopen, Live, Document, ReadFingerprint, NewFile, JournalBytes, FingerprintOf;
    var image := BOM + base;
    var disk := Disk(image, s.disk.journals[1 := NewFile(env, image)]);
    InvLive(env, s);
    Parts(env, s, s.session.value);
    NewJournal(env, image);
    assert TextOf(image) == base;
    NothingLogged(base);
    StageableNothing(base);
    OnlyNew(env, s.disk, image);
    ReopensAsLog(env, disk, [], 0, 1);
  }

  lemma OnlyNew(env: Env, disk: Disk, image: seq<byte>)
    requires AllHeaded(env, disk) && 1 !in disk.journals && NoOther(env, disk, {}, image)
    requires ReadFingerprint(NewFile(env, image), env.crc).Some?
             && NewFile(env, image) == JournalBytes(env, image, [], None)
    ensures var t := Disk(image, disk.journals[1 := NewFile(env, image)]);
            AllHeaded(env, t) && KeptIn(env, t, [], None, 1)
  {
    hide ReadFingerprint, NewFile, JournalBytes, FingerprintOf;
  }

  // ---------------------------------------------------------------- a journal that a lease keeps

  /** Nothing on disk has the fingerprint of a longer base. */
  lemma OtherLength(env: Env, s: System, base: seq<byte>, image: seq<byte>)
    requires Inv(env, s) && s.session.Some? && s.session.value.phase.Streaming?
    requires s.session.value.base == base && |image| != |base|
    requires s.disk.journals.Keys == {0} && s.session.value.journal == Some(0)
    ensures NoOther(env, s.disk, {}, image)
  {
    StreamingFacts(env, s, s.session.value);
  }

  /** The image of a text with a letter in front begins like a byte order mark exactly when the base did. */
  lemma LetterFirst(base: seq<byte>)
    ensures StartsWithBOM(Prefix(StartsWithBOM(base)) + (LETTER + TextOf(base))) == StartsWithBOM(base)
    ensures |Prefix(StartsWithBOM(base)) + (LETTER + TextOf(base))| == |base| + 1
  {
    var image := Prefix(StartsWithBOM(base)) + (LETTER + TextOf(base));
    if StartsWithBOM(base) {
      assert image[..3] == BOM;
    } else {
      assert image[0] == 97;
    }
  }

  /** The boundary of a save whose image has all edits, the replacement of the file, and the switch to the new base. */
  lemma Finished(env: Env, base: seq<byte>, ops: seq<Replace>, actions: seq<Action>, s: System) returns (t: System)
    requires Reached(env, base, actions, s) && Inv(env, s) && Holds(s, base, [Batch(1, 1, ops)], None, |ops|)
    requires var p := s.session.value.phase;
             && p.Streaming? && p.target == |ops| && |p.written| == ImageSize(s.session.value, p.snapshot)
             && |p.written| != |base| && StartsWithBOM(p.written) == StartsWithBOM(base)
    ensures Reached(env, base, actions + [EnterBoundary(1), ReplaceBase, Finish], t) && Inv(env, t)
    ensures t.session.Some? && t.session.value.phase.Idle? && t.appending.None? && t.disk.journals.Keys == {0, 1}
    ensures t.session.value.journal == Some(1) && t.session.value.revision == t.session.value.committed
  {
    hide Reached, Inv, StartsWithBOM, NoOther, NewFile, SpliceAll, BaseTree, Newer, Image;
    OtherLength(env, s, base, s.session.value.phase.written);
    ReachedStep(env, base, actions, s, EnterBoundary(1));
    var s1 := Do(env, s, EnterBoundary(1));
    NothingNewer(env, s);
    NothingToAssume(env, s1, ReplaceBase);
    ReachedStep(env, base, actions + [EnterBoundary(1)], s1, ReplaceBase);
    var s2 := Do(env, s1, ReplaceBase);
    NothingToAssume(env, s2, Finish);
    ReachedStep(env, base, actions + [EnterBoundary(1)] + [ReplaceBase], s2, Finish);
    t := Do(env, s2, Finish);
    assert actions + [EnterBoundary(1)] + [ReplaceBase] + [Finish] == actions + [EnterBoundary(1), ReplaceBase, Finish];
  }

  lemma NothingNewer(env: Env, s: System)
    requires Inv(env, s) && s.session.Some?
    ensures Newer(s.session.value.pending, s.session.value.revision) == []
  {
    var ses := s.session.value;
    InvLive(env, s);
    hide Inv, Live;
    PendingIs(env, s, ses);
    PendingRevisions(s.history.log, s.history.committed, FILE_HEADER_SIZE);
    NewerNone(ses.pending, ses.revision);
  }

  /** A clean close can leave the file unopenable once. For every base file: type a letter, save, and close while a
      lease still keeps the journal of the old base. The session's own journal is removed, the kept one matches nothing,
      and reopening fails. Every step meets what is assumed of the environment. */
  lemma CloseUnderLease(env: Env, base: seq<byte>) returns (actions: seq<Action>, s: System, t: System)
    requires |base| < MAX_INT64 && Valid(TextOf(base))
    ensures Reached(env, base, actions, s) && Takes(env, s, Close, t)
    ensures BeginAppend([Replace(0, 0, LETTER)]) in actions && Finish in actions
    ensures s.session.Some? && s.session.value.revision == s.session.value.committed
    ensures Reopen(env, t.disk).Refused?
  {
    hide Valid, RuneLen, StartsWithBOM, Reached, Stageable, ValidBatch, Apply, Applicable, Reopen, Live, Prefix, TextOf,
         Inv, Size, Document, Newer, NoOther;
    var ops := [Replace(0, 0, LETTER)];
    BaseLength(base);
    StageLetter(TextOf(base));
    Fits(TextOf(base), ops);
    LetterFirst(base);
    actions := EditAndStream(base, ops);
    s := Streamed(env, base, ops);
    s := Finished(env, base, ops, actions, s);
    var saved := [EnterBoundary(1), ReplaceBase, Finish];
    assert actions[2] in actions && saved[2] in saved;
    actions := actions + saved;
    InvLive(env, s);
    assert 0 in s.disk.journals.Keys;
    CleanCloseExact(env, s, s.session.value);
    t := DoClose(s, s.session.value);
  }
}
