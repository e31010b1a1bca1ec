/** The session class takes the steps of the persistence protocol. */
module SessionRefinement {
  import opened Documents
  import opened PieceTree
  import opened Journal
  import opened JournalFiles
  import opened SessionLog
  import opened SessionEdits
  import BaseScan
  import S = Sessions
  import B = SessionRebase
  import P = SessionProtocol
  import TreeStore
  import UndoHistory

  /** The session of the protocol that an object stands for, under the name that its journal has on disk. */
  ghost function View(s: S.Session, name: P.Name, phase: P.Phase): P.Session
    reads s, s.tree, s.journal
  {
    P.Session(s.base, s.hasBOM, Refs(s.tree.root), s.revision, s.committedRevision, s.pending,
              if s.journal == null then None else Some(name), s.journalBytes, phase)
  }

  /** A system shows an object: its session, and its journal on disk. */
  ghost predicate Shows(env: P.Env, sys: P.System, s: S.Session, name: P.Name, phase: P.Phase)
    reads s, s.tree, s.journal
  {
    && sys.session == Some(View(s, name, phase)) && env.crc == s.crc
    && |s.base| <= MAX_INT64 && s.fingerprint == P.FingerprintOf(env, s.base)
    && (if s.journal == null then name !in sys.disk.journals && phase.Idle? && s.journalBytes == 0
        else name in sys.disk.journals && sys.disk.journals[name] == s.journal.bytes)
  }

  /** Some steps lead from one system to another. */
  ghost predicate Leads(env: P.Env, sys: P.System, actions: seq<P.Action>, t: P.System)
    decreases |actions|
  {
    if actions == [] then t == sys
    else P.Can(env, sys, actions[0]) && Leads(env, P.Do(env, sys, actions[0]), actions[1..], t)
  }

  /** The steps of an edit: the first one creates the journal, if need be. */
  function Creation(create: bool, name: P.Name): seq<P.Action> {
    if create then [P.CreateJournal(name)] else []
  }

  ghost function Started(env: P.Env, sys: P.System, ses: P.Session, create: bool, name: P.Name): P.System {
    if create then P.DoCreateJournal(env, sys, ses, name) else sys
  }

  function Attached(ses: P.Session, create: bool, name: P.Name): P.Session {
    if create then ses.(journal := Some(name), journalBytes := FILE_HEADER_SIZE) else ses
  }

  lemma {:induction false} LeadsConcat(env: P.Env, s: P.System, a: seq<P.Action>, t: P.System, b: seq<P.Action>,
                                       u: P.System)
    requires Leads(env, s, a, t) && Leads(env, t, b, u)
    ensures Leads(env, s, a + b, u)
    decreases |a|
  {
    hide P.Can, P.Do;
    if a == [] {
      assert a + b == b;
    } else {
      LeadsConcat(env, P.Do(env, s, a[0]), a[1..], t, b, u);
      assert (a + b)[0] == a[0] && (a + b)[1..] == a[1..] + b;
    }
  }

  lemma LeadsNowhere(env: P.Env, s: P.System)
    ensures Leads(env, s, [], s)
  {
  }

  lemma LeadsOne(env: P.Env, s: P.System, a: P.Action, t: P.System)
    requires P.Takes(env, s, a, t)
    ensures Leads(env, s, [a], t)
  {
    hide P.Can, P.Do;
    assert [a][0] == a && [a][1..] == [];
    LeadsNowhere(env, P.Do(env, s, a));
  }

  lemma LeadsThree(env: P.Env, s: P.System, a: P.Action, t: P.System, b: P.Action, u: P.System, c: P.Action,
                   v: P.System)
    requires P.Takes(env, s, a, t) && P.Takes(env, t, b, u) && P.Takes(env, u, c, v)
    ensures Leads(env, s, [a, b, c], v)
  {
    hide P.Can, P.Do, Leads;
    LeadsOne(env, s, a, t);
    LeadsOne(env, t, b, u);
    LeadsOne(env, u, c, v);
    LeadsConcat(env, s, [a], t, [b], u);
    LeadsConcat(env, s, [a] + [b], u, [c], v);
    assert [a] + [b] + [c] == [a, b, c];
  }

  /** The creation of the journal. */
  lemma CreationLeads(env: P.Env, sys: P.System, ses: P.Session, create: bool, name: P.Name)
    requires sys.session == Some(ses) && sys.appending.None?
    requires create ==> ses.journal.None? && ses.phase.Idle? && name !in sys.disk.journals
    requires |ses.base| <= MAX_INT64
    ensures var t := Started(env, sys, ses, create, name);
            && Leads(env, sys, Creation(create, name), t)
            && t.session == Some(Attached(ses, create, name)) && t.appending.None?
            && (create ==> t.disk == P.WithFile(sys.disk, name, P.NewFile(env, ses.base)))
  {
    hide P.NewFile, Leads;
    LeadsNowhere(env, sys);
    if create {
      LeadsOne(env, sys, P.CreateJournal(name), P.DoCreateJournal(env, sys, ses, name));
    }
  }

  /** An edit that is published. */
  lemma EditLeads(env: P.Env, sys: P.System, ses: P.Session, ops: seq<Replace>)
    requires CanEdit(env, sys, ses, ops)
    ensures Leads(env, sys, EditSteps(ops), AfterEdit(env, sys, ses, ops))
  {
    hide CanEdit, AfterEdit, Leads, P.Can, P.Do;
    var begun, written := AfterEditIs(env, sys, ses, ops);
    var size := Size(Batch(ses.revision + 1, ses.revision + 1, ops));
    assert size == Size(Batch(1, 1, ops));
    LeadsThree(env, sys, P.BeginAppend(ops), begun, P.WriteMore(size), written, P.Publish,
               AfterEdit(env, sys, ses, ops));
  }

  /** An edit of which some bytes stay behind. */
  lemma TornLeads(env: P.Env, sys: P.System, ses: P.Session, ops: seq<Replace>, n: nat)
    requires CanEdit(env, sys, ses, ops) && n <= Size(Batch(ses.revision + 1, ses.revision + 1, ops))
             && sys.appending.None?
    ensures ses.journal.Some? && ValidBatch(Batch(ses.revision + 1, ses.revision + 1, ops))
    ensures var b := Batch(ses.revision + 1, ses.revision + 1, ops);
            var file := P.JournalOf(sys.disk, ses) + Encode(b, env.crc)[..n];
            Leads(env, sys, [P.BeginAppend(ops), P.WriteMore(n), P.RollbackFailed],
                  sys.(disk := P.WithFile(sys.disk, ses.journal.value, file)))
  {
    hide Stageable, P.Document, ValidBatch, Encode, Leads;
    var b: P.GoodBatch := Batch(ses.revision + 1, ses.revision + 1, ops);
    var begun := P.DoBeginAppend(sys, ses, b);
    var written := P.DoWriteMore(env, begun, ses, P.Appending(b, 0), n);
    assert Encode(b, env.crc)[0..0 + n] == Encode(b, env.crc)[..n];
    LeadsThree(env, sys, P.BeginAppend(ops), begun, P.WriteMore(n), written, P.RollbackFailed,
               P.DoRollbackFailed(written));
  }

  /** What the edit needs of the protocol. */
  lemma EditPossible(env: P.Env, sys: P.System, ses: P.Session, ops: seq<Replace>, doc: seq<byte>)
    requires sys.session == Some(ses) && sys.appending.None? && (ses.phase.Idle? || ses.phase.Streaming?)
    requires ses.journal.Some? && ses.journal.value in sys.disk.journals
    requires Resolve(ses.tree, Sources(ses.base, sys.disk.journals[ses.journal.value])) == doc
    requires Stageable(doc, ops) && ValidBatch(Batch(ses.revision + 1, ses.revision + 1, ops))
    ensures CanEdit(env, sys, ses, ops)
  {
    hide Stageable, ValidBatch, Resolve;
  }

  /** An edit of the class, whatever becomes of it, is a run of the protocol that shows it: the journal is created when
      there is none; then nothing happens, or the batch is appended, written in full and published, or part of it is
      written and its rollback fails. */
  method ApplyOperations(ghost env: P.Env, ghost sys: P.System, ghost name: P.Name, ghost phase: P.Phase,
                         s: S.Session, ops: seq<Replace>, recordHistory: bool)
    returns (r: S.Outcome<()>, ghost t: P.System, ghost actions: seq<P.Action>)
    requires s.Valid() && 0 < |ops| && InInt64(ops)
    requires s.history.Valid() && (recordHistory ==> s.history.Line(s.Document()))
    requires Shows(env, sys, s, name, phase) && sys.appending.None? && (phase.Idle? || phase.Streaming?)
    modifies s, s.tree, s.journal, s.history`undo, s.history`redo, s.history`epoch, s.history.store
    ensures Leads(env, sys, actions, t) && Shows(env, t, s, name, phase) && t.appending.None?
    ensures r.Done? ==> actions == Creation(old(s.journal) == null, name) + EditSteps(ops)
    ensures r.Failed? && r.error != S.RollbackFailed ==>
              actions == Creation(old(s.journal) == null && s.journal != null, name)
    ensures r == S.Failed(S.RollbackFailed) ==>
              exists n: nat ::
                actions == Creation(old(s.journal) == null, name)
                    + [P.BeginAppend(ops), P.WriteMore(n), P.RollbackFailed]
  {
    hide Refs, Stageable, Resolve, Readable, Encode, ValidBatch, FileHeader, DecodedOf, DecodedPending, SpliceAll,
         Apply, Applicable, TreeStore.ValidState, Torn, CanEdit, AfterEdit, Leads, P.Do, P.Can, Size, P.NewFile,
         P.FingerprintOf, S.Session.JournalNeed, S.Session.HistoryFits, S.Session.Remembered, S.Session.Refusal;
    ghost var ses, file, made, doc := View(s, name, phase), s.File(), s.journal == null, s.Document();
    Header(env, s);
    ReadBehind(s, made);
    r := s.ApplyOperations(ops, recordHistory);
    ghost var create := made && s.journal != null;
    ghost var start, from := Started(env, sys, ses, create, name), Attached(ses, create, name);
    CreationLeads(env, sys, ses, create, name);
    if r.Failed? && r.error != S.RollbackFailed {
      t, actions := start, Creation(create, name);
      return;
    }
    EditPossible(env, start, from, ops, doc);
    if r.Done? {
      EditLeads(env, start, from, ops);
      ShowsEdit(env, start, from, ops, s, name, doc);
      t, actions := AfterEdit(env, start, from, ops), Creation(create, name) + EditSteps(ops);
      LeadsConcat(env, sys, Creation(create, name), start, EditSteps(ops), t);
    } else {
      ghost var before := if create then P.NewFile(env, s.base) else file;
      ghost var n := TornBy(before, s.File(), Batch(ses.revision + 1, ses.revision + 1, ops), s.crc);
      TornLeads(env, start, from, ops, n);
      ghost var steps := [P.BeginAppend(ops), P.WriteMore(n), P.RollbackFailed];
      t := start.(disk := P.WithFile(start.disk, name, s.File()));
      LeadsConcat(env, sys, Creation(create, name), start, steps, t);
      actions := Creation(create, name) + steps;
    }
  }

  /** A session that has published an edit is shown by the state after the steps of that edit. */
  lemma ShowsEdit(env: P.Env, sys: P.System, from: P.Session, ops: seq<Replace>, s: S.Session, name: P.Name,
                  doc: seq<byte>)
    requires CanEdit(env, sys, from, ops) && from.journal == Some(name) && name in sys.disk.journals
    requires s.Published(Batch(from.revision + 1, from.revision + 1, ops), sys.disk.journals[name], from.tree,
                         from.pending, doc)
    requires s.revision == from.revision + |ops| && s.committedRevision == from.committed
             && s.base == from.base && s.hasBOM == from.hasBOM && s.journal != null
             && s.journalBytes == |s.journal.bytes|
    requires env.crc == s.crc && |s.base| <= MAX_INT64 && s.fingerprint == P.FingerprintOf(env, s.base)
    ensures Shows(env, AfterEdit(env, sys, from, ops), s, name, from.phase)
            && AfterEdit(env, sys, from, ops).appending.None?
  {
    hide Refs, Stageable, Resolve, Encode, ValidBatch, DecodedOf, DecodedPending, SpliceAll, Apply, CanEdit, AfterEdit,
         Size, P.FingerprintOf;
    AfterEditFile(env, sys, from, ops);
  }

  lemma TornBy(before: seq<byte>, after: seq<byte>, b: Batch, crc: Checksum) returns (n: nat)
    requires ValidBatch(b) && Torn(before, after, b, crc)
    ensures n <= Size(b) && after == before + Encode(b, crc)[..n]
  {
    n :| n <= |Encode(b, crc)| && after == before + Encode(b, crc)[..n];
  }

  lemma Header(env: P.Env, s: S.Session)
    requires |s.base| <= MAX_INT64 && s.fingerprint == P.FingerprintOf(env, s.base) && env.crc == s.crc && s.Valid()
    ensures P.NewFile(env, s.base) == FileHeader(s.fingerprint, s.crc)
    ensures s.journal != null ==> s.journalBytes == |s.journal.bytes|
  {
    hide FileHeader, Refs, Readable, Resolve, TreeStore.ValidState;
  }

  /** A tree that reads the base alone reads the same with any journal. */
  lemma ReadBehind(s: S.Session, made: bool)
    requires s.Valid() && (made <==> s.journal == null)
    ensures made ==> forall file :: Resolve(Refs(s.tree.root), Sources(s.base, file)) == s.Document()
  {
    if made {
      forall file
        ensures Resolve(Refs(s.tree.root), Sources(s.base, file)) == s.Document()
      {
        S.JournalAttached(Refs(s.tree.root), s.base, file);
      }
    }
  }

  // ---------------------------------------------------------------- saving

  /** Replacing the base is the next step of the protocol, and it leaves what Rebase needs. */
  lemma ReplaceBase(env: P.Env, sys: P.System, s: S.Session, name: P.Name, p: P.Phase)
    requires p.Locked? && p.rest == [] && Shows(env, sys, s, name, p)
    ensures var t := P.DoReplaceBase(sys, sys.session.value);
            && P.Takes(env, sys, P.ReplaceBase, t) && t.disk == sys.disk.(base := p.image)
            && Shows(env, t, s, name, P.Replaced(p.target, p.image, p.name, p.moved))
  {
    hide Refs, P.FingerprintOf;
  }

  /** The end of a save is the last step of the protocol's save. */
  method Rebase(ghost env: P.Env, ghost sys: P.System, ghost name: P.Name, ghost prepared: P.Name, s: S.Session,
                image: seq<byte>, priority: nat, fingerprint: Fingerprint, journal: B.Prepared, target: nat,
                ghost log: seq<Batch>, ghost cut: nat)
    returns (ghost t: P.System)
    requires s.Valid() && ValidFingerprint(fingerprint) && B.HoldsLog(s, log)
    requires B.Inv.IsImage(s.base, log, cut, image) && target == s.committedRevision + |OpsOf(log[..cut])|
    requires |image| <= MAX_INT64 && BaseScan.StartsWithBOM(image) == s.hasBOM
    requires cut <= |log| && AllValid(log[cut..]) && journal.pending == LogPending(log[cut..], FILE_HEADER_SIZE)
    requires journal.journal.bytes == FileHeader(fingerprint, s.crc) + EncodeAll(log[cut..], s.crc)
    requires journal.journal.crc == s.crc && journal.bytes == |journal.journal.bytes| <= MAX_INT64
    requires Shows(env, sys, s, name, P.Replaced(target, image, prepared, journal.pending)) && sys.appending.None?
    requires fingerprint == P.FingerprintOf(env, image)
    requires prepared in sys.disk.journals && sys.disk.journals[prepared] == journal.journal.bytes
    modifies s
    ensures P.Takes(env, sys, P.Finish, t) && Shows(env, t, s, prepared, P.Idle)
  {
    hide Refs, Readable, Resolve, FileHeader, EncodeAll, LogPending, SpliceAll, P.BaseTree, B.Inv.IsImage, B.HoldsLog,
         P.FingerprintOf, TreeStore.ValidState, OpsOf;
    t := P.DoFinish(sys, sys.session.value);
    B.Rebase(s, image, priority, fingerprint, journal, target, log, cut);
  }

  // ---------------------------------------------------------------- reopening

  /** Session.replay of a whole journal is what opening does in the protocol. */
  method Replay(ghost env: P.Env, ghost name: P.Name, s: S.Session, batches: seq<Decoded>) returns (r: S.Outcome<()>)
    requires s.Tracked() && s.journal != null && s.history.redo == []
    requires s.revision == 0 && s.committedRevision == 0 && s.pending == [] && env.crc == s.crc
    requires s.hasBOM == BaseScan.StartsWithBOM(s.base) && Refs(s.tree.root) == P.BaseTree(s.base, s.hasBOM)
    requires batches == Journal.Replay(s.journal.bytes, s.crc).batches
    modifies s, s.tree, s.history`undo, s.history`redo, s.history`epoch, s.history.store
    ensures var o := P.OpenJournal(env, old(s.base), name, old(s.File()));
            && (r.Done? ==> o.Opened? && o.session == View(s, name, P.Idle).(journalBytes := o.session.journalBytes))
            && (r.Failed? && r.error != S.HistoryFailed ==> o.Refused?)
  {
    hide Refs, Resolve, Readable, InFile, ReplayFrom, ReplaySession, P.BaseTree, TreeStore.ValidState,
         UndoHistory.TrackAll, UndoHistory.Traced, UndoHistory.Past, UndoHistory.Future, BaseScan.StartsWithBOM;
    BatchesInFile(s.journal.bytes, s.crc);
    r := B.Replay(s, batches);
  }

  lemma BatchesInFile(file: seq<byte>, crc: Checksum)
    requires FILE_HEADER_SIZE <= |file|
    ensures var batches := Journal.Replay(file, crc).batches;
            forall i :: 0 <= i < |batches| ==> InFile(file, DecodedPending(batches[i]))
  {
    hide InFile, ReplayFrom, DecodedPending;
    var batches := Journal.Replay(file, crc).batches;
    forall i | 0 <= i < |batches|
      ensures InFile(file, DecodedPending(batches[i]))
    {
      B.ReplayInFile(file, FILE_HEADER_SIZE, crc, i);
    }
  }
}
