/** The edit log of a session, as it stands in memory (pending operations) and in the journal (batches). */
module SessionLog {
  import opened Documents
  import opened Utf8
  import opened PieceTree
  import opened Journal
  import JournalFiles

  /** One edit that the base file does not hold yet; its inserted bytes stand in the journal. */
  datatype Pending = Pending(revision: nat, group: nat, start: nat, deleteLength: nat, insertOffset: nat,
                             insertLength: nat)

  // ---------------------------------------------------------------- batches and pending operations

  function DecodedPending(d: Decoded): (r: seq<Pending>)
    ensures |r| == |d.ops|
  {
    seq(|d.ops|, i requires 0 <= i < |d.ops| =>
      Pending(d.firstRevision + i, d.group, d.ops[i].start, d.ops[i].deleteLength, d.ops[i].payloadOffset,
              d.ops[i].insertLength))
  }

  /** The operations of all batches, in order. */
  function PendingOf(ds: seq<Decoded>): seq<Pending>
    decreases |ds|
  {
    if ds == [] then [] else PendingOf(ds[..|ds| - 1]) + DecodedPending(ds[|ds| - 1])
  }

  function OpsOf(log: seq<Batch>): seq<Replace>
    decreases |log|
  {
    if log == [] then [] else OpsOf(log[..|log| - 1]) + log[|log| - 1].ops
  }

  /** What a session must remember of a log written from an offset on. */
  function LogPending(log: seq<Batch>, offset: nat): seq<Pending>
    requires AllValid(log)
  {
    PendingOf(DecodedAll(log, offset))
  }

  /** Batches follow one another without gaps, and each is its own group. */
  predicate Chained(log: seq<Batch>, committed: nat)
    decreases |log|
  {
    log == [] ||
    (var last := |log| - 1;
     && Chained(log[..last], committed)
     && ValidBatch(log[last])
     && log[last].firstRevision == committed + |OpsOf(log[..last])| + 1
     && log[last].group == log[last].firstRevision)
  }

  lemma {:induction false} ChainedValid(log: seq<Batch>, committed: nat)
    requires Chained(log, committed)
    ensures AllValid(log)
    decreases |log|
  {
    if log != [] {
      ChainedValid(log[..|log| - 1], committed);
    }
  }

  lemma OpsSnoc(log: seq<Batch>, b: Batch)
    ensures OpsOf(log + [b]) == OpsOf(log) + b.ops
  {
    assert (log + [b])[..|log|] == log;
  }

  lemma {:induction false} OpsConcat(a: seq<Batch>, b: seq<Batch>)
    ensures OpsOf(a + b) == OpsOf(a) + OpsOf(b)
    decreases |b|
  {
    if b == [] {
      assert a + b == a && OpsOf(b) == [];
    } else {
      hide OpsOf;
      var front, last := b[..|b| - 1], b[|b| - 1];
      OpsConcat(a, front);
      OpsSnoc(a + front, last);
      OpsSnoc(front, last);
      assert b == front + [last] && a + b == (a + front) + [last];
    }
  }

  lemma ChainedSnoc(log: seq<Batch>, b: Batch, committed: nat)
    requires Chained(log, committed) && ValidBatch(b)
    requires b.firstRevision == b.group == committed + |OpsOf(log)| + 1
    ensures Chained(log + [b], committed)
  {
    assert (log + [b])[..|log|] == log;
  }

  lemma ChainedStep(log: seq<Batch>, b: Batch, committed: nat)
    ensures Chained(log + [b], committed) <==>
              Chained(log, committed) && ValidBatch(b) && b.firstRevision == b.group == committed + |OpsOf(log)| + 1
  {
    hide ValidBatch;
    assert (log + [b])[..|log|] == log;
  }

  /** Logs compose: the second is a log for the document that the first leaves. */
  lemma {:induction false} ChainedConcat(a: seq<Batch>, b: seq<Batch>, committed: nat)
    ensures Chained(a + b, committed) <==> Chained(a, committed) && Chained(b, committed + |OpsOf(a)|)
    decreases |b|
  {
    hide ValidBatch, OpsOf, Chained;
    if b == [] {
      assert a + b == a;
      ChainedNothing(committed + |OpsOf(a)|);
    } else {
      var init, last := b[..|b| - 1], b[|b| - 1];
      assert a + b == a + init + [last] && b == init + [last];
      ChainedConcat(a, init, committed);
      ChainedStep(a + init, last, committed);
      ChainedStep(init, last, committed + |OpsOf(a)|);
      OpsConcat(a, init);
    }
  }

  /** A log can be cut between batches. */
  lemma ChainedSplit(log: seq<Batch>, committed: nat, k: nat)
    requires Chained(log, committed) && k <= |log|
    ensures Chained(log[..k], committed)
    ensures Chained(log[k..], committed + |OpsOf(log[..k])|)
    ensures OpsOf(log) == OpsOf(log[..k]) + OpsOf(log[k..])
  {
    hide ValidBatch, OpsOf, Chained;
    assert log == log[..k] + log[k..];
    ChainedConcat(log[..k], log[k..], committed);
    OpsConcat(log[..k], log[k..]);
  }

  lemma ChainedNothing(committed: nat)
    ensures Chained([], committed)
  {
  }

  lemma {:induction false} DecodedAllSnoc(log: seq<Batch>, b: Batch, offset: nat)
    requires AllValid(log) && ValidBatch(b)
    ensures AllValid(log + [b])
    ensures TotalSize(log + [b]) == TotalSize(log) + Size(b)
    ensures DecodedAll(log + [b], offset) == DecodedAll(log, offset) + [DecodedOf(b, offset + TotalSize(log))]
    decreases |log|
  {
    hide ValidBatch, Size, DecodedOf;
    if log == [] {
      assert log + [b] == [b] && [b][1..] == [];
      assert DecodedAll([b], offset) == [DecodedOf(b, offset)] + DecodedAll([], offset + Size(b));
    } else {
      DecodedAllSnoc(log[1..], b, offset + Size(log[0]));
      assert (log + [b])[0] == log[0] && (log + [b])[1..] == log[1..] + [b];
    }
  }

  lemma {:induction false} EncodeAllSnoc(log: seq<Batch>, b: Batch, crc: Checksum)
    requires AllValid(log) && ValidBatch(b)
    ensures AllValid(log + [b])
    ensures EncodeAll(log + [b], crc) == EncodeAll(log, crc) + Encode(b, crc)
    decreases |log|
  {
    hide ValidBatch, Encode;
    if log == [] {
      assert log + [b] == [b] && [b][1..] == [];
      assert EncodeAll([b], crc) == Encode(b, crc) + EncodeAll([], crc);
    } else {
      EncodeAllSnoc(log[1..], b, crc);
      assert (log + [b])[0] == log[0] && (log + [b])[1..] == log[1..] + [b];
    }
  }

  lemma PendingSnoc(ds: seq<Decoded>, d: Decoded)
    ensures PendingOf(ds + [d]) == PendingOf(ds) + DecodedPending(d)
  {
    assert (ds + [d])[..|ds|] == ds;
  }

  lemma LogPendingSnoc(log: seq<Batch>, b: Batch, offset: nat)
    requires AllValid(log) && ValidBatch(b)
    ensures AllValid(log + [b])
    ensures LogPending(log + [b], offset)
            == LogPending(log, offset) + DecodedPending(DecodedOf(b, offset + TotalSize(log)))
  {
    DecodedAllSnoc(log, b, offset);
    PendingSnoc(DecodedAll(log, offset), DecodedOf(b, offset + TotalSize(log)));
  }

  lemma {:induction false} TotalSizeConcat(a: seq<Batch>, b: seq<Batch>)
    ensures TotalSize(a + b) == TotalSize(a) + TotalSize(b)
    decreases |a|
  {
    hide Size;
    if a == [] {
      assert a + b == b;
    } else {
      TotalSizeConcat(a[1..], b);
      assert (a + b)[0] == a[0] && (a + b)[1..] == a[1..] + b;
    }
  }

  /** The pending list of a log is that of its parts, the second placed behind the first. */
  lemma {:induction false} LogPendingConcat(a: seq<Batch>, b: seq<Batch>, offset: nat)
    requires AllValid(a) && AllValid(b)
    ensures AllValid(a + b)
    ensures LogPending(a + b, offset) == LogPending(a, offset) + LogPending(b, offset + TotalSize(a))
    decreases |b|
  {
    hide ValidBatch, LogPending, TotalSize;
    if b == [] {
      assert a + b == a;
      LogPendingNothing(offset + TotalSize(a));
    } else {
      var init, last := b[..|b| - 1], b[|b| - 1];
      assert a + b == a + init + [last] && b == init + [last];
      LogPendingConcat(a, init, offset);
      LogPendingSnoc(a + init, last, offset);
      LogPendingSnoc(init, last, offset + TotalSize(a));
      TotalSizeConcat(a, init);
    }
  }

  lemma LogPendingNothing(offset: nat)
    ensures LogPending([], offset) == []
  {
    assert DecodedAll([], offset) == [];
  }

  lemma {:induction false} DecodedFields(ops: seq<Replace>, cursor: nat, i: nat)
    requires (forall k :: 0 <= k < |ops| ==> ops[k].start >= 0 && ops[k].deleteLength >= 0) && i < |ops|
    ensures var o := DecodedOps(ops, cursor)[i];
            o.start == ops[i].start && o.deleteLength == ops[i].deleteLength && o.insertLength == |ops[i].insert|
    decreases |ops|
  {
    if i > 0 {
      DecodedFields(ops[1..], cursor + |ops[0].insert|, i - 1);
    }
  }

  /** The pending operations of one batch in the middle of a log. */
  lemma PendingOfBatch(log: seq<Batch>, k: nat, offset: nat)
    requires AllValid(log) && k < |log|
    ensures AllValid(log[..k])
    ensures var from := |LogPending(log[..k], offset)|;
            && from + |log[k].ops| <= |LogPending(log, offset)|
            && LogPending(log, offset)[from..from + |log[k].ops|]
               == DecodedPending(DecodedOf(log[k], offset + TotalSize(log[..k])))
  {
    hide ValidBatch, LogPending, TotalSize, DecodedOf;
    var at := offset + TotalSize(log[..k]);
    var middle := DecodedPending(DecodedOf(log[k], at));
    assert log == log[..k] + log[k..] && log[k..] == [log[k]] + log[k + 1..];
    LogPendingConcat(log[..k], log[k..], offset);
    LogPendingConcat([log[k]], log[k + 1..], at);
    LogPendingSnoc([], log[k], at);
    LogPendingNothing(at);
    assert [] + [log[k]] == [log[k]];
    OneBatch(log[k], at);
    assert |middle| == |log[k].ops| by { assert |DecodedOf(log[k], at).ops|
                                        == |log[k].ops| by { BatchCount(log[k], at); } }
  }

  lemma BatchCount(b: Batch, at: nat)
    requires ValidBatch(b)
    ensures |DecodedOf(b, at).ops| == |b.ops| > 0
  {
  }

  lemma OneBatch(b: Batch, at: nat)
    requires ValidBatch(b)
    ensures AllValid([b]) && LogPending([b], at) == DecodedPending(DecodedOf(b, at))
  {
    LogPendingSnoc([], b, at);
    LogPendingNothing(at);
    assert [] + [b] == [b];
  }

  /** Pending revisions are exactly committed + 1 up to the newest one. */
  lemma {:induction false} PendingRevisions(log: seq<Batch>, committed: nat, offset: nat)
    requires Chained(log, committed) && AllValid(log)
    ensures |LogPending(log, offset)| == |OpsOf(log)|
    ensures forall i :: 0 <= i < |OpsOf(log)| ==> LogPending(log, offset)[i].revision == committed + 1 + i
    decreases |log|
  {
    hide ValidBatch, Size, Chained, DecodedOps;
    if log == [] {
      assert DecodedAll(log, offset) == [];
    } else {
      var last := |log| - 1;
      ChainedLast(log, committed);
      PendingRevisions(log[..last], committed, offset);
      LogPendingSnoc(log[..last], log[last], offset);
      assert log[..last] + [log[last]] == log;
    }
  }

  lemma ChainedLast(log: seq<Batch>, committed: nat)
    requires Chained(log, committed) && log != []
    ensures var last := |log| - 1;
            Chained(log[..last], committed) && ValidBatch(log[last]) && AllValid(log[..last]) &&
            log[last].firstRevision == log[last].group == committed + |OpsOf(log[..last])| + 1
  {
    ChainedValid(log[..|log| - 1], committed);
  }

  // ---------------------------------------------------------------- operations read back from a journal

  predicate InFile(file: seq<byte>, pending: seq<Pending>) {
    forall i :: 0 <= i < |pending| ==> pending[i].insertOffset + pending[i].insertLength <= |file|
  }

  function ReadOp(file: seq<byte>, p: Pending): Replace
    requires p.insertOffset + p.insertLength <= |file|
  {
    Replace(p.start, p.deleteLength, file[p.insertOffset..p.insertOffset + p.insertLength])
  }

  function ReadOps(file: seq<byte>, pending: seq<Pending>): (r: seq<Replace>)
    requires InFile(file, pending)
    ensures |r| == |pending|
  {
    seq(|pending|, i requires 0 <= i < |pending| => ReadOp(file, pending[i]))
  }

  /** The operations of one written batch read back unchanged. */
  lemma ReadBatchOps(file: seq<byte>, b: Batch, at: nat, crc: Checksum)
    requires ValidBatch(b) && at + Size(b) <= |file| && file[at..at + Size(b)] == Encode(b, crc)
    ensures InFile(file, DecodedPending(DecodedOf(b, at)))
    ensures ReadOps(file, DecodedPending(DecodedOf(b, at))) == b.ops
  {
    hide Encode, DecodedOps, Records, Inserts;
    var pending := DecodedPending(DecodedOf(b, at));
    var table := at + BATCH_HEADER_SIZE + BATCH_RECORD_SIZE * |b.ops|;
    BatchParts(file, at, b, crc);
    forall i | 0 <= i < |b.ops|
      ensures pending[i].insertOffset + pending[i].insertLength <= |file| && ReadOp(file, pending[i]) == b.ops[i]
    {
      PayloadOffsetsExact(file, b.ops, table, i);
    }
  }

  lemma ReadOpsConcat(file: seq<byte>, a: seq<Pending>, b: seq<Pending>)
    ensures InFile(file, a + b) <==> InFile(file, a) && InFile(file, b)
    ensures InFile(file, a + b) ==> ReadOps(file, a + b) == ReadOps(file, a) + ReadOps(file, b)
  {
    var ab := a + b;
    assert forall i :: 0 <= i < |a| ==> a[i] == ab[i];
    assert forall i :: 0 <= i < |b| ==> b[i] == ab[|a| + i];
  }

  lemma ReadNothing(file: seq<byte>)
    ensures InFile(file, []) && ReadOps(file, []) == []
  {
  }

  lemma JoinedSlices(file: seq<byte>, at: nat, a: seq<byte>, b: seq<byte>)
    requires at + |a| + |b| <= |file| && file[at..at + |a| + |b|] == a + b
    ensures file[at..at + |a|] == a && file[at + |a|..at + |a| + |b|] == b
  {
    assert file[at..at + |a|] == file[at..at + |a| + |b|][..|a|] == a;
    assert file[at + |a|..at + |a| + |b|] == file[at..at + |a| + |b|][|a|..] == b;
  }

  /** The pending list of a log reads back the operations of the log. */
  lemma {:induction false} ReadLog(file: seq<byte>, log: seq<Batch>, offset: nat, crc: Checksum)
    requires AllValid(log) && offset + TotalSize(log) <= |file|
    requires file[offset..offset + TotalSize(log)] == EncodeAll(log, crc)
    ensures InFile(file, LogPending(log, offset))
    ensures ReadOps(file, LogPending(log, offset)) == OpsOf(log)
    decreases |log|
  {
    hide ValidBatch, Size, Encode, EncodeAll, TotalSize, DecodedOps, DecodedOf, ReadOps, InFile;
    if log == [] {
      assert DecodedAll(log, offset) == [] && OpsOf(log) == [];
      ReadNothing(file);
    } else {
      var last := |log| - 1;
      var init, b := log[..last], log[last];
      assert init + [b] == log;
      EncodeAllSnoc(init, b, crc);
      DecodedAllSnoc(init, b, offset);
      var middle := offset + TotalSize(init);
      JoinedSlices(file, offset, EncodeAll(init, crc), Encode(b, crc));
      ReadLog(file, init, offset, crc);
      ReadBatchOps(file, b, middle, crc);
      LogPendingSnoc(init, b, offset);
      ReadOpsConcat(file, LogPending(init, offset), DecodedPending(DecodedOf(b, middle)));
    }
  }

  // ---------------------------------------------------------------- the tree, by reference

  function InsertRefs(p: Pending): (r: seq<Ref>)
    ensures |r| == p.insertLength
  {
    seq(p.insertLength, i => Ref(SOURCE_JOURNAL, p.insertOffset + i))
  }

  function BaseRefs(from: nat, length: nat): (r: seq<Ref>)
    ensures |r| == length
  {
    seq(length, i => Ref(SOURCE_BASE, from + i))
  }

  /** ReplacePiece for each pending operation in turn. */
  function SpliceAll(tree: seq<Ref>, pending: seq<Pending>): seq<Ref>
    decreases |pending|
  {
    if pending == [] then tree else
      var last := |pending| - 1;
      var before := SpliceAll(tree, pending[..last]);
      var p := pending[last];
      if p.start + p.deleteLength <= |before| then Splice(before, p.start, p.deleteLength, InsertRefs(p)) else before
  }

  lemma {:induction false} SpliceAllConcat(tree: seq<Ref>, a: seq<Pending>, b: seq<Pending>)
    ensures SpliceAll(tree, a + b) == SpliceAll(SpliceAll(tree, a), b)
    decreases |b|
  {
    if b == [] {
      assert a + b == a;
    } else {
      SpliceAllConcat(tree, a, b[..|b| - 1]);
      assert (a + b)[..|a + b| - 1] == a + b[..|b| - 1];
    }
  }

  /** What the two sources of a session hold. */
  function Sources(base: seq<byte>, file: seq<byte>): World {
    World(map[SOURCE_BASE := 0, SOURCE_JOURNAL := 1], map[0 := base, 1 := file])
  }

  lemma ResolveSplice(tree: seq<Ref>, start: nat, deleteLength: nat, insert: seq<Ref>, w: World)
    requires start + deleteLength <= |tree|
    ensures Resolve(Splice(tree, start, deleteLength, insert), w)
            == Splice(Resolve(tree, w), start, deleteLength, Resolve(insert, w))
    ensures Readable(tree, w) && Readable(insert, w) ==> Readable(Splice(tree, start, deleteLength, insert), w)
  {
  }

  lemma InsertResolves(base: seq<byte>, file: seq<byte>, p: Pending)
    requires p.insertOffset + p.insertLength <= |file|
    ensures Resolve(InsertRefs(p), Sources(base, file)) == ReadOp(file, p).insert
    ensures Readable(InsertRefs(p), Sources(base, file))
  {
  }

  /** Splicing references is applying operations: the tree holds the edited document. */
  lemma {:induction false} SpliceAllApplies(tree: seq<Ref>, pending: seq<Pending>, base: seq<byte>, file: seq<byte>)
    requires InFile(file, pending) && Readable(tree, Sources(base, file))
    requires Applicable(Resolve(tree, Sources(base, file)), ReadOps(file, pending))
    ensures Readable(SpliceAll(tree, pending), Sources(base, file))
    ensures Resolve(SpliceAll(tree, pending), Sources(base, file))
            == Apply(Resolve(tree, Sources(base, file)), ReadOps(file, pending))
    decreases |pending|
  {
    hide Resolve, Readable;
    if pending != [] {
      var last := |pending| - 1;
      var w := Sources(base, file);
      var p := pending[last];
      ReadOpsConcat(file, pending[..last], [p]);
      assert pending[..last] + [p] == pending;
      assert ReadOps(file, pending)[..last] == ReadOps(file, pending[..last]);
      SpliceAllApplies(tree, pending[..last], base, file);
      var before := SpliceAll(tree, pending[..last]);
      InsertResolves(base, file, p);
      assert |Resolve(before, w)| == |before|;
      ResolveSplice(before, p.start, p.deleteLength, InsertRefs(p), w);
    }
  }

  // ---------------------------------------------------------------- what staging accepts

  /** Intermediate lengths stay in an int64, as the tree demands. */
  predicate Bounded(doc: seq<byte>, ops: seq<Replace>)
    requires Applicable(doc, ops)
    decreases |ops|
  {
    |Apply(doc, ops)| <= MAX_INT64 && (ops != [] ==> Bounded(doc, ops[..|ops| - 1]))
  }

  predicate Stageable(doc: seq<byte>, ops: seq<Replace>) {
    Applicable(doc, ops) && Accepted(doc, ops) && Bounded(doc, ops)
  }

  lemma {:induction false} BoundedConcat(doc: seq<byte>, a: seq<Replace>, b: seq<Replace>)
    requires Applicable(doc, a) && Applicable(Apply(doc, a), b)
    ensures Applicable(doc, a + b)
    ensures Bounded(doc, a + b) <==> Bounded(doc, a) && Bounded(Apply(doc, a), b)
    decreases |b|
  {
    ApplyConcat(doc, a, b);
    if b == [] {
      assert a + b == a;
    } else {
      var last := |b| - 1;
      ApplicablePrefix(Apply(doc, a), b, last);
      BoundedConcat(doc, a, b[..last]);
      assert (a + b)[..|a + b| - 1] == a + b[..last];
    }
  }

  lemma StageableConcat(doc: seq<byte>, a: seq<Replace>, b: seq<Replace>)
    ensures Stageable(doc, a + b) <==> Stageable(doc, a) && Stageable(Apply(doc, a), b)
    ensures Stageable(doc, a + b) ==> Apply(doc, a + b) == Apply(Apply(doc, a), b)
  {
    hide Accepted, Bounded, Apply;
    ApplyConcat(doc, a, b);
    if Applicable(doc, a) && Applicable(Apply(doc, a), b) {
      AcceptedConcat(doc, a, b);
      BoundedConcat(doc, a, b);
    }
  }

  lemma StageableNothing(doc: seq<byte>)
    ensures Stageable(doc, []) <==> |doc| <= MAX_INT64
  {
  }

  // ---------------------------------------------------------------- replay into a session

  datatype Recovered = Recovered(tree: seq<Ref>, revision: nat, committed: nat, pending: seq<Pending>)

  /** One batch of Session.replay; None is a refusal. */
  function ReplayBatch(r: Recovered, base: seq<byte>, file: seq<byte>, d: Decoded): Option<Recovered> {
    var pending := DecodedPending(d);
    if d.firstRevision != r.revision + 1 || d.group == 0 || d.ops == [] || !InFile(file, pending) then None
    else if !Stageable(Resolve(r.tree, Sources(base, file)), ReadOps(file, pending)) then None
    else Some(Recovered(SpliceAll(r.tree, pending), r.revision + |d.ops|, r.committed, r.pending + pending))
  }

  /** Session.replay: the first batch fixes the committed revision, every batch follows the one before. */
  function ReplaySession(tree: seq<Ref>, base: seq<byte>, file: seq<byte>, ds: seq<Decoded>): Option<Recovered>
    decreases |ds|
  {
    if ds == [] then Some(Recovered(tree, 0, 0, []))
    else
      var last := |ds| - 1;
      var before := ReplaySession(tree, base, file, ds[..last]);
      if before.None? || ds[last].firstRevision == 0 then None
      else if last == 0 then
        var committed := ds[0].firstRevision - 1;
        ReplayBatch(before.value.(revision := committed, committed := committed), base, file, ds[0])
      else ReplayBatch(before.value, base, file, ds[last])
  }

  lemma ReplaySessionSnoc(tree: seq<Ref>, base: seq<byte>, file: seq<byte>, ds: seq<Decoded>, d: Decoded,
                          before: Recovered)
    requires ReplaySession(tree, base, file, ds) == Some(before) && d.firstRevision > 0
    ensures ds != [] ==> ReplaySession(tree, base, file, ds + [d]) == ReplayBatch(before, base, file, d)
    ensures ds == [] ==>
              var committed := d.firstRevision - 1;
              ReplaySession(tree, base, file, ds + [d])
                == ReplayBatch(before.(revision := committed, committed := committed), base, file, d)
  {
    assert (ds + [d])[..|ds|] == ds;
  }

  /** The session that a log stands for, on a tree and with a committed revision. */
  function SessionOf(tree: seq<Ref>, log: seq<Batch>, committed: nat): Recovered
    requires AllValid(log)
  {
    var before := if log == [] then 0 else committed;
    Recovered(SpliceAll(tree, LogPending(log, FILE_HEADER_SIZE)), before + |OpsOf(log)|, before,
              LogPending(log, FILE_HEADER_SIZE))
  }

  /** A journal holds a log right behind its header. */
  predicate Holds(file: seq<byte>, log: seq<Batch>, crc: Checksum)
    requires AllValid(log)
  {
    FILE_HEADER_SIZE + TotalSize(log) <= |file| &&
    file[FILE_HEADER_SIZE..FILE_HEADER_SIZE + TotalSize(log)] == EncodeAll(log, crc)
  }

  lemma HoldsPrefix(file: seq<byte>, log: seq<Batch>, b: Batch, crc: Checksum)
    requires AllValid(log) && ValidBatch(b) && AllValid(log + [b])
    requires Holds(file, log + [b], crc)
    ensures Holds(file, log, crc)
    ensures var at := FILE_HEADER_SIZE + TotalSize(log);
            at + Size(b) <= |file| && file[at..at + Size(b)] == Encode(b, crc)
  {
    hide ValidBatch, Encode, EncodeAll, Size;
    DecodedAllSnoc(log, b, 0);
    EncodeAllSnoc(log, b, crc);
    JoinedSlices(file, FILE_HEADER_SIZE, EncodeAll(log, crc), Encode(b, crc));
  }

  /** Replaying a log accepts it and rebuilds its session: revisions, pending list and document. */
  lemma {:induction false} ReplayRebuilds(tree: seq<Ref>, base: seq<byte>, file: seq<byte>, log: seq<Batch>,
                                          committed: nat, crc: Checksum)
    requires Chained(log, committed) && AllValid(log) && Holds(file, log, crc)
    requires Readable(tree, Sources(base, file))
    requires Stageable(Resolve(tree, Sources(base, file)), OpsOf(log))
    ensures ReplaySession(tree, base, file, DecodedAll(log, FILE_HEADER_SIZE)) == Some(SessionOf(tree, log, committed))
    ensures var w := Sources(base, file);
            var r := SessionOf(tree, log, committed);
            Readable(r.tree, w) && Resolve(r.tree, w) == Apply(Resolve(tree, w), OpsOf(log))
    decreases |log|
  {
    hide ValidBatch, Size, Encode, EncodeAll, TotalSize, DecodedOf, Stageable, Readable, Resolve, Apply, Holds,
         ReplaySession, DecodedAll;
    var w := Sources(base, file);
    var doc := Resolve(tree, w);
    if log == [] {
      NoLog(tree, base, file);
    } else {
      var last := |log| - 1;
      var init, b := log[..last], log[last];
      assert init + [b] == log;
      ChainedLast(log, committed);
      HoldsPrefix(file, init, b, crc);
      OpsSnoc(init, b);
      StageableConcat(doc, OpsOf(init), b.ops);
      ReplayRebuilds(tree, base, file, init, committed, crc);
      ReplayOneMore(tree, base, file, init, b, committed, crc);
    }
  }

  lemma NoLog(tree: seq<Ref>, base: seq<byte>, file: seq<byte>)
    ensures DecodedAll([], FILE_HEADER_SIZE) == []
    ensures ReplaySession(tree, base, file, []) == Some(SessionOf(tree, [], 0))
    ensures SessionOf(tree, [], 0) == Recovered(tree, 0, 0, [])
    ensures forall committed: nat :: SessionOf(tree, [], committed) == SessionOf(tree, [], 0)
    ensures forall doc: seq<byte> {:trigger Apply(doc, [])} :: Apply(doc, []) == doc
    ensures OpsOf([]) == []
  {
  }

  lemma ReplayOneMore(tree: seq<Ref>, base: seq<byte>, file: seq<byte>, init: seq<Batch>, b: Batch, committed: nat,
                      crc: Checksum)
    requires AllValid(init) && ValidBatch(b) && b.firstRevision == b.group == committed + |OpsOf(init)| + 1
    requires var at := FILE_HEADER_SIZE + TotalSize(init);
             at + Size(b) <= |file| && file[at..at + Size(b)] == Encode(b, crc)
    requires ReplaySession(tree, base, file, DecodedAll(init, FILE_HEADER_SIZE))
             == Some(SessionOf(tree, init, committed))
    requires var w := Sources(base, file);
             var before := SessionOf(tree, init, committed).tree;
             Readable(before, w) && Stageable(Resolve(before, w), b.ops)
    ensures AllValid(init + [b])
    ensures ReplaySession(tree, base, file, DecodedAll(init + [b], FILE_HEADER_SIZE))
            == Some(SessionOf(tree, init + [b], committed))
    ensures var w := Sources(base, file);
            var r := SessionOf(tree, init + [b], committed);
            Readable(r.tree, w) && Resolve(r.tree, w) == Apply(Resolve(SessionOf(tree, init, committed).tree, w), b.ops)
  {
    hide Size, Encode, EncodeAll, TotalSize, Readable, Resolve, Apply, ReplaySession, DecodedAll, SpliceAll, OpsOf,
         DecodedOps, Applicable, Accepted, Bounded, PendingOf, InFile, ReadOps;
    var d := DecodedOf(b, FILE_HEADER_SIZE + TotalSize(init));
    var before := SessionOf(tree, init, committed);
    DecodedAllSnoc(init, b, FILE_HEADER_SIZE);
    LogPendingSnoc(init, b, FILE_HEADER_SIZE);
    OpsSnoc(init, b);
    ReplaySessionSnoc(tree, base, file, DecodedAll(init, FILE_HEADER_SIZE), d, before);
    ReadBatchOps(file, b, FILE_HEADER_SIZE + TotalSize(init), crc);
    SpliceAllConcat(tree, before.pending, DecodedPending(d));
    SpliceAllApplies(before.tree, DecodedPending(d), base, file);
    if init == [] {
      NoLog(tree, base, file);
    } else {
      assert DecodedAll(init, FILE_HEADER_SIZE) != [] by { assert |DecodedAll(init, FILE_HEADER_SIZE)| == |init|; }
    }
  }

  /** A log that staging would refuse on this tree cannot be replayed on it. */
  lemma {:induction false} ReplayRefuses(tree: seq<Ref>, base: seq<byte>, file: seq<byte>, log: seq<Batch>,
                                         committed: nat, crc: Checksum)
    requires Chained(log, committed) && AllValid(log) && Holds(file, log, crc)
    requires Readable(tree, Sources(base, file)) && |tree| <= MAX_INT64
    requires !Stageable(Resolve(tree, Sources(base, file)), OpsOf(log))
    ensures ReplaySession(tree, base, file, DecodedAll(log, FILE_HEADER_SIZE)).None?
    decreases |log|
  {
    hide ValidBatch, Size, Encode, EncodeAll, TotalSize, DecodedOf, Stageable, Readable, Apply, Holds,
         ReplaySession, DecodedAll, OpsOf, Resolve;
    var w := Sources(base, file);
    var doc := Resolve(tree, w);
    if log == [] {
      NoLog(tree, base, file);
      StageableNothing(doc);
    } else {
      var last := |log| - 1;
      var init, b := log[..last], log[last];
      assert init + [b] == log;
      ChainedLast(log, committed);
      HoldsPrefix(file, init, b, crc);
      OpsSnoc(init, b);
      StageableConcat(doc, OpsOf(init), b.ops);
      if Stageable(doc, OpsOf(init)) {
        ReplayRebuilds(tree, base, file, init, committed, crc);
        RefusesOneMore(tree, base, file, init, b, committed, crc);
      } else {
        ReplayRefuses(tree, base, file, init, committed, crc);
        RefusalStays(tree, base, file, init, b);
      }
    }
  }

  lemma RefusalStays(tree: seq<Ref>, base: seq<byte>, file: seq<byte>, init: seq<Batch>, b: Batch)
    requires AllValid(init) && ValidBatch(b)
    requires ReplaySession(tree, base, file, DecodedAll(init, FILE_HEADER_SIZE)).None?
    ensures AllValid(init + [b])
    ensures ReplaySession(tree, base, file, DecodedAll(init + [b], FILE_HEADER_SIZE)).None?
  {
    hide Size, ValidBatch, DecodedAll, ReplayBatch;
    DecodedAllSnoc(init, b, FILE_HEADER_SIZE);
    var ds, d := DecodedAll(init, FILE_HEADER_SIZE), DecodedOf(b, FILE_HEADER_SIZE + TotalSize(init));
    assert (ds + [d])[..|ds|] == ds;
  }

  lemma RefusesOneMore(tree: seq<Ref>, base: seq<byte>, file: seq<byte>, init: seq<Batch>, b: Batch, committed: nat,
                       crc: Checksum)
    requires AllValid(init) && ValidBatch(b) && b.firstRevision == b.group == committed + |OpsOf(init)| + 1
    requires var at := FILE_HEADER_SIZE + TotalSize(init);
             at + Size(b) <= |file| && file[at..at + Size(b)] == Encode(b, crc)
    requires ReplaySession(tree, base, file, DecodedAll(init, FILE_HEADER_SIZE))
             == Some(SessionOf(tree, init, committed))
    requires !Stageable(Resolve(SessionOf(tree, init, committed).tree, Sources(base, file)), b.ops)
    ensures AllValid(init + [b])
    ensures ReplaySession(tree, base, file, DecodedAll(init + [b], FILE_HEADER_SIZE)).None?
  {
    hide Size, Encode, EncodeAll, TotalSize, Resolve, ReplaySession, DecodedAll, SpliceAll, OpsOf, DecodedOps,
         Stageable, PendingOf, InFile, ReadOps;
    var d := DecodedOf(b, FILE_HEADER_SIZE + TotalSize(init));
    DecodedAllSnoc(init, b, FILE_HEADER_SIZE);
    ReplaySessionSnoc(tree, base, file, DecodedAll(init, FILE_HEADER_SIZE), d, SessionOf(tree, init, committed));
    ReadBatchOps(file, b, FILE_HEADER_SIZE + TotalSize(init), crc);
    if init == [] {
      NoLog(tree, base, file);
    }
  }

  // ---------------------------------------------------------------- a journal with a torn tail

  lemma {:induction false} FitsTorn(log: seq<Batch>, b: Batch, n: nat)
    requires n < Size(b)
    ensures Fits(log + [b], TotalSize(log) + n) == |log|
    decreases |log|
  {
    hide Size;
    if log == [] {
      assert log + [b] == [b];
    } else {
      assert (log + [b])[0] == log[0] && (log + [b])[1..] == log[1..] + [b];
      FitsTorn(log[1..], b, n);
    }
  }

  /** A log with a batch cut short behind it replays to the log; the cut is reported and can be repaired. */
  lemma TornReplay(file: seq<byte>, log: seq<Batch>, b: Batch, n: nat, crc: Checksum)
    requires AllValid(log) && ValidBatch(b) && n < Size(b) && FILE_HEADER_SIZE <= |file|
    requires file[FILE_HEADER_SIZE..] == EncodeAll(log, crc) + Encode(b, crc)[..n]
    ensures Replay(file, crc)
            == ReplayResult(DecodedAll(log, FILE_HEADER_SIZE), FILE_HEADER_SIZE + TotalSize(log), n > 0)
  {
    hide Encode, EncodeAll, Size, ValidBatch, DecodedAll, DecodedOf, TotalSize, ReplayFrom, Expected, Fits;
    EncodeAllSnoc(log, b, crc);
    DecodedAllSnoc(log, b, 0);
    var all := log + [b];
    assert (EncodeAll(log, crc) + Encode(b, crc))[..TotalSize(log) + n] == EncodeAll(log, crc) + Encode(b, crc)[..n];
    CutReplay(file, FILE_HEADER_SIZE, all, TotalSize(log) + n, crc);
    ExpectedFits(all, FILE_HEADER_SIZE, TotalSize(log) + n);
    FitsTorn(log, b, n);
    assert all[..|log|] == log;
  }

  /** A staged operation with the bytes it removes. */
  datatype Staged = Staged(operation: Replace, deleted: seq<byte>)

  /** What staging promises of its result. */
  ghost predicate StagedAs(doc: seq<byte>, ops: seq<Replace>, staged: seq<Staged>) {
    && Stageable(doc, ops) && |staged| == |ops|
    && forall i :: 0 <= i < |ops| ==>
         && staged[i].operation == ops[i] && Applicable(doc, ops[..i])
         && InRange(|Apply(doc, ops[..i])|, ops[i].start, ops[i].deleteLength)
         && staged[i].deleted == Apply(doc, ops[..i])[ops[i].start..ops[i].start + ops[i].deleteLength]
  }
}
