/** One edit of the persistence protocol, from its start to its publication, in any state of a session. */
module SessionEdits {
  import opened Documents
  import Utf8
  import opened PieceTree
  import opened Journal
  import opened JournalFiles
  import opened SessionLog
  import opened SessionProtocol

  /** The steps of an edit that succeeds. */
  function EditSteps(ops: seq<Replace>): seq<Action> {
    [BeginAppend(ops), WriteMore(Size(Batch(1, 1, ops))), Publish]
  }

  ghost predicate CanEdit(env: Env, s: System, ses: Session, ops: seq<Replace>) {
    && s.session == Some(ses) && CanStep(env, s.disk, ses, s.appending, BeginAppend(ops))
    && ses.journal.value in s.disk.journals
  }

  /** The state after them. */
  ghost function AfterEdit(env: Env, s: System, ses: Session, ops: seq<Replace>): System
    requires CanEdit(env, s, ses, ops)
  {
    var b: GoodBatch := Batch(ses.revision + 1, ses.revision + 1, ops);
    var begun := DoBeginAppend(s, ses, b);
    var written := DoWriteMore(env, begun, ses, Appending(b, 0), Size(b));
    DoPublish(written, ses, b)
  }

  /** It is the state that the three steps lead to. */
  lemma AfterEditIs(env: Env, s: System, ses: Session, ops: seq<Replace>) returns (begun: System, written: System)
    requires CanEdit(env, s, ses, ops)
    ensures Takes(env, s, BeginAppend(ops), begun)
    ensures Takes(env, begun, WriteMore(Size(Batch(ses.revision + 1, ses.revision + 1, ops))), written)
    ensures Takes(env, written, Publish, AfterEdit(env, s, ses, ops))
  {
    hide Stageable, Document, ValidBatch, Size, Encode, SpliceAll, DecodedOf, DecodedPending;
    var b: GoodBatch := Batch(ses.revision + 1, ses.revision + 1, ops);
    begun := DoBeginAppend(s, ses, b);
    written := DoWriteMore(env, begun, ses, Appending(b, 0), Size(b));
  }

  /** The batch stands whole behind whatever the journal held, and the session remembers it there. */
  lemma AfterEditFile(env: Env, s: System, ses: Session, ops: seq<Replace>)
    requires CanEdit(env, s, ses, ops)
    ensures var t := AfterEdit(env, s, ses, ops);
            var file := JournalOf(s.disk, ses);
            var b := Batch(ses.revision + 1, ses.revision + 1, ops);
            && t.session.Some? && JournalOf(t.disk, t.session.value) == file + Encode(b, env.crc)
            && t.disk == WithFile(s.disk, ses.journal.value, file + Encode(b, env.crc))
            && t.appending.None?
            && var added := DecodedPending(DecodedOf(b, |file|));
               t.session.value == ses.(tree := SpliceAll(ses.tree, added), revision := ses.revision + |ops|,
                                       pending := ses.pending + added, journalBytes := |file| + Size(b))
  {
    hide Stageable, Document, ValidBatch, Encode, SpliceAll, DecodedOf, DecodedPending;
    var b: GoodBatch := Batch(ses.revision + 1, ses.revision + 1, ops);
    assert Encode(b, env.crc)[0..Size(b)] == Encode(b, env.crc);
  }

  /** The document of the session is the edited one, whatever the journal held. */
  lemma AfterEditDocument(env: Env, s: System, ses: Session, ops: seq<Replace>)
    requires CanEdit(env, s, ses, ops) && Readable(ses.tree, Sources(ses.base, JournalOf(s.disk, ses)))
    ensures var t := AfterEdit(env, s, ses, ops);
            && t.session.Some? && Applicable(Document(s.disk, ses), ops)
            && Document(t.disk, t.session.value) == Apply(Document(s.disk, ses), ops)
  {
    hide ValidBatch, Encode, SpliceAll, DecodedOf, DecodedPending, Apply, Applicable, Utf8.Accepted, Bounded, Resolve,
         Readable, InFile, ReadOps, AfterEdit;
    AfterEditFile(env, s, ses, ops);
    var file := JournalOf(s.disk, ses);
    var b := Batch(ses.revision + 1, ses.revision + 1, ops);
    var grown := file + Encode(b, env.crc);
    assert grown[|file|..|file| + Size(b)] == Encode(b, env.crc);
    ReadBatchOps(grown, b, |file|, env.crc);
    StillRead(ses.tree, ses.base, file, Encode(b, env.crc));
    SpliceAllApplies(ses.tree, DecodedPending(DecodedOf(b, |file|)), ses.base, grown);
  }

  lemma StillRead(refs: seq<Ref>, base: seq<byte>, file: seq<byte>, more: seq<byte>)
    requires Readable(refs, Sources(base, file))
    ensures Readable(refs, Sources(base, file + more))
    ensures Resolve(refs, Sources(base, file + more)) == Resolve(refs, Sources(base, file))
  {
  }

  /** In any state, live or not: the edit is replayed where the session remembers it, behind everything that the journal
      gave before, exactly when the journal had no torn tail. */
  lemma EditReplayed(env: Env, s: System, ses: Session, ops: seq<Replace>)
    requires CanEdit(env, s, ses, ops) && FILE_HEADER_SIZE <= |JournalOf(s.disk, ses)|
    ensures var file := JournalOf(s.disk, ses);
            var t := AfterEdit(env, s, ses, ops);
            && t.session.Some? && FILE_HEADER_SIZE <= |JournalOf(t.disk, t.session.value)|
            && (Journal.Replay(JournalOf(t.disk, t.session.value), env.crc).batches
                == Journal.Replay(file, env.crc).batches
                   + [DecodedOf(Batch(ses.revision + 1, ses.revision + 1, ops), |file|)]
                <==> !Journal.Replay(file, env.crc).truncated)
  {
    hide Stageable, Document, ValidBatch, Encode, DecodedOf, AfterEdit, ReplayFrom;
    AfterEditFile(env, s, ses, ops);
    AppendVisible(JournalOf(s.disk, ses), FILE_HEADER_SIZE, Batch(ses.revision + 1, ses.revision + 1, ops), env.crc);
  }
}
