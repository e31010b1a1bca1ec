/** Undo and redo: two stacks of transactions whose texts live in a quota-bounded file that compaction rewrites. */
module UndoHistory {
  import opened Documents
  import opened Utf8
  import opened SessionLog

  const REWRITE_BUFFER := 65536

  datatype TextRef = TextRef(offset: nat, length: nat)
  datatype HistoryOperation = HistoryOperation(start: int, deleteLength: int, insert: TextRef)
  datatype Entry = Entry(forward: seq<HistoryOperation>, inverse: seq<HistoryOperation>)
  datatype Error = Quota | IO | Cancelled | UnexpectedEOF
  datatype Result<+T> = Success(value: T) | Failure(error: Error)

  // ---------------------------------------------------------------- what history means

  predicate InStore(file: seq<byte>, ref: TextRef) {
    ref.length == 0 || ref.offset + ref.length <= |file|
  }

  function Text(file: seq<byte>, ref: TextRef): seq<byte>
    requires InStore(file, ref)
  {
    if ref.length == 0 then [] else file[ref.offset..ref.offset + ref.length]
  }

  predicate Stored(file: seq<byte>, ops: seq<HistoryOperation>) {
    forall i :: 0 <= i < |ops| ==> InStore(file, ops[i].insert)
  }

  /** materializeHistory. */
  function Materialized(file: seq<byte>, ops: seq<HistoryOperation>): (r: seq<Replace>)
    requires Stored(file, ops)
    ensures |r| == |ops|
  {
    seq(|ops|, i requires 0 <= i < |ops| => Replace(ops[i].start, ops[i].deleteLength, Text(file, ops[i].insert)))
  }

  /** An entry takes one document to another, and back. */
  predicate Links(file: seq<byte>, e: Entry, before: seq<byte>, after: seq<byte>) {
    && e.forward != [] && e.inverse != [] && Stored(file, e.forward) && Stored(file, e.inverse)
    && Stageable(before, Materialized(file, e.forward)) && Apply(before, Materialized(file, e.forward)) == after
    && Stageable(after, Materialized(file, e.inverse)) && Apply(after, Materialized(file, e.inverse)) == before
  }

  /** The undo stack leads from a document back through earlier ones. */
  ghost predicate Past(file: seq<byte>, undo: seq<Entry>, doc: seq<byte>)
    decreases |undo|
  {
    undo == [] ||
    (var last := |undo| - 1;
     exists before :: Links(file, undo[last], before, doc) && Past(file, undo[..last], before))
  }

  /** The redo stack leads on to later documents; its last entry is the nearest. */
  ghost predicate Future(file: seq<byte>, redo: seq<Entry>, doc: seq<byte>)
    decreases |redo|
  {
    redo == [] ||
    (var last := |redo| - 1;
     exists after :: Links(file, redo[last], doc, after) && Future(file, redo[..last], after))
  }

  /** The document that an entry takes back to, and the one that it leads on to. */
  function Undone(file: seq<byte>, e: Entry, doc: seq<byte>): seq<byte> {
    if Stored(file, e.inverse) && Applicable(doc, Materialized(file, e.inverse))
    then Apply(doc, Materialized(file, e.inverse)) else doc
  }

  function Redone(file: seq<byte>, e: Entry, doc: seq<byte>): seq<byte> {
    if Stored(file, e.forward) && Applicable(doc, Materialized(file, e.forward))
    then Apply(doc, Materialized(file, e.forward)) else doc
  }

  /** The documents that undo leads back through, the earliest first, up to the present one. */
  function Behind(file: seq<byte>, undo: seq<Entry>, doc: seq<byte>): (r: seq<seq<byte>>)
    ensures |r| == |undo| + 1 && r[|undo|] == doc
    decreases |undo|
  {
    if undo == [] then [doc]
    else Behind(file, undo[..|undo| - 1], Undone(file, undo[|undo| - 1], doc)) + [doc]
  }

  /** The documents that redo leads on to, from the present one on. */
  function Ahead(file: seq<byte>, redo: seq<Entry>, doc: seq<byte>): (r: seq<seq<byte>>)
    ensures |r| == |redo| + 1 && r[0] == doc
    decreases |redo|
  {
    if redo == [] then [doc]
    else [doc] + Ahead(file, redo[..|redo| - 1], Redone(file, redo[|redo| - 1], doc))
  }

  /** All the documents of a history, in order. The present one stands behind the undo entries. */
  function Lineage(file: seq<byte>, undo: seq<Entry>, redo: seq<Entry>, doc: seq<byte>): (r: seq<seq<byte>>)
    ensures |r| == |undo| + |redo| + 1 && r[|undo|] == doc
  {
    Behind(file, undo, doc) + Ahead(file, redo, doc)[1..]
  }

  lemma LinkedDocuments(file: seq<byte>, e: Entry, before: seq<byte>, after: seq<byte>)
    requires Links(file, e, before, after)
    ensures Undone(file, e, after) == before && Redone(file, e, before) == after
  {
  }

  /** Two stacks hold the same operations, each with its texts in its own file. */
  predicate SameOperations(before: seq<byte>, entries: seq<Entry>, after: seq<byte>, moved: seq<Entry>) {
    && |entries| == |moved|
    && forall i :: 0 <= i < |entries| ==> SameEntry(before, entries[i], after, moved[i])
  }

  predicate SameEntry(before: seq<byte>, e: Entry, after: seq<byte>, moved: Entry) {
    && Stored(before, e.forward) && Stored(after, moved.forward)
    && Materialized(after, moved.forward) == Materialized(before, e.forward)
    && Stored(before, e.inverse) && Stored(after, moved.inverse)
    && Materialized(after, moved.inverse) == Materialized(before, e.inverse)
  }

  /** All texts of the file stay where they are when it grows. */
  lemma TextGrows(file: seq<byte>, more: seq<byte>, ops: seq<HistoryOperation>)
    requires Stored(file, ops)
    ensures Stored(file + more, ops) && Materialized(file + more, ops) == Materialized(file, ops)
  {
    forall i | 0 <= i < |ops|
      ensures Text(file + more, ops[i].insert) == Text(file, ops[i].insert)
    {
    }
  }

  lemma LinksGrows(file: seq<byte>, more: seq<byte>, e: Entry, before: seq<byte>, after: seq<byte>)
    requires Links(file, e, before, after)
    ensures Links(file + more, e, before, after)
  {
    hide Stageable, Apply, Applicable;
    TextGrows(file, more, e.forward);
    TextGrows(file, more, e.inverse);
  }

  lemma {:induction false} PastGrows(file: seq<byte>, more: seq<byte>, undo: seq<Entry>, doc: seq<byte>)
    requires Past(file, undo, doc)
    ensures Past(file + more, undo, doc) && Behind(file + more, undo, doc) == Behind(file, undo, doc)
    decreases |undo|
  {
    hide Links, Undone, Redone;
    if undo != [] {
      var last := |undo| - 1;
      var before :| Links(file, undo[last], before, doc) && Past(file, undo[..last], before);
      LinksGrows(file, more, undo[last], before, doc);
      LinkedDocuments(file, undo[last], before, doc);
      LinkedDocuments(file + more, undo[last], before, doc);
      PastGrows(file, more, undo[..last], before);
    }
  }

  lemma {:induction false} FutureGrows(file: seq<byte>, more: seq<byte>, redo: seq<Entry>, doc: seq<byte>)
    requires Future(file, redo, doc)
    ensures Future(file + more, redo, doc) && Ahead(file + more, redo, doc) == Ahead(file, redo, doc)
    decreases |redo|
  {
    hide Links, Undone, Redone;
    if redo != [] {
      var last := |redo| - 1;
      var after :| Links(file, redo[last], doc, after) && Future(file, redo[..last], after);
      LinksGrows(file, more, redo[last], doc, after);
      LinkedDocuments(file, redo[last], doc, after);
      LinkedDocuments(file + more, redo[last], doc, after);
      FutureGrows(file, more, redo[..last], after);
    }
  }

  lemma PastPush(file: seq<byte>, undo: seq<Entry>, e: Entry, before: seq<byte>, after: seq<byte>)
    requires Past(file, undo, before) && Links(file, e, before, after)
    ensures Past(file, undo + [e], after) && Behind(file, undo + [e], after) == Behind(file, undo, before) + [after]
  {
    hide Links, Behind;
    BehindPush(file, undo, e, before, after);
    assert (undo + [e])[..|undo|] == undo;
  }

  lemma FuturePush(file: seq<byte>, redo: seq<Entry>, e: Entry, before: seq<byte>, after: seq<byte>)
    requires Future(file, redo, after) && Links(file, e, before, after)
    ensures Future(file, redo + [e], before) && Ahead(file, redo + [e], before) == [before] + Ahead(file, redo, after)
  {
    hide Links, Ahead;
    AheadPush(file, redo, e, before, after);
    assert (redo + [e])[..|redo|] == redo;
  }

  lemma EmptyLine(file: seq<byte>, doc: seq<byte>)
    ensures Past(file, [], doc) && Future(file, [], doc)
  {
  }

  lemma NoFuture(file: seq<byte>, doc: seq<byte>)
    ensures Future(file, [], doc)
  {
  }

  lemma BehindPush(file: seq<byte>, undo: seq<Entry>, e: Entry, before: seq<byte>, after: seq<byte>)
    requires Links(file, e, before, after)
    ensures Behind(file, undo + [e], after) == Behind(file, undo, before) + [after]
  {
    hide Links, Undone;
    LinkedDocuments(file, e, before, after);
    assert (undo + [e])[..|undo|] == undo;
  }

  lemma AheadPush(file: seq<byte>, redo: seq<Entry>, e: Entry, before: seq<byte>, after: seq<byte>)
    requires Links(file, e, before, after)
    ensures Ahead(file, redo + [e], before) == [before] + Ahead(file, redo, after)
  {
    hide Links, Redone;
    LinkedDocuments(file, e, before, after);
    assert (redo + [e])[..|redo|] == redo;
  }

  /** An entry on either side of the present describes the same line of documents. */
  lemma LineageStep(file: seq<byte>, undo: seq<Entry>, e: Entry, redo: seq<Entry>, before: seq<byte>, after: seq<byte>)
    requires Links(file, e, before, after)
    ensures Lineage(file, undo + [e], redo, after) == Lineage(file, undo, redo + [e], before)
  {
    hide Links, Behind, Ahead;
    BehindPush(file, undo, e, before, after);
    AheadPush(file, redo, e, before, after);
  }

  lemma LastUndo(file: seq<byte>, undo: seq<Entry>, doc: seq<byte>) returns (before: seq<byte>)
    requires Past(file, undo, doc) && undo != []
    ensures Links(file, undo[|undo| - 1], before, doc) && Past(file, undo[..|undo| - 1], before)
    ensures undo == undo[..|undo| - 1] + [undo[|undo| - 1]]
  {
    hide Links;
    before :| Links(file, undo[|undo| - 1], before, doc) && Past(file, undo[..|undo| - 1], before);
  }

  lemma LastRedo(file: seq<byte>, redo: seq<Entry>, doc: seq<byte>) returns (after: seq<byte>)
    requires Future(file, redo, doc) && redo != []
    ensures Links(file, redo[|redo| - 1], doc, after) && Future(file, redo[..|redo| - 1], after)
    ensures redo == redo[..|redo| - 1] + [redo[|redo| - 1]]
  {
    hide Links;
    after :| Links(file, redo[|redo| - 1], doc, after) && Future(file, redo[..|redo| - 1], after);
  }

  /** What a link says about the texts of its entry. */
  lemma LinkParts(file: seq<byte>, e: Entry, before: seq<byte>, after: seq<byte>)
    requires Links(file, e, before, after)
    ensures e.inverse != [] && Stored(file, e.inverse) && Stageable(after, Materialized(file, e.inverse))
    ensures Applicable(after, Materialized(file, e.inverse)) && Apply(after, Materialized(file, e.inverse)) == before
    ensures e.forward != [] && Stored(file, e.forward) && Stageable(before, Materialized(file, e.forward))
    ensures Applicable(before, Materialized(file, e.forward)) && Apply(before, Materialized(file, e.forward)) == after
    ensures SameEntry(file, e, file, e)
  {
  }

  /** One undo moves back along the line: the present document is the one before, the entry changes sides, and all the
      documents stay where they are. */
  lemma UndoMoves(file: seq<byte>, undo: seq<Entry>, redo: seq<Entry>, doc: seq<byte>)
    requires Past(file, undo, doc) && Future(file, redo, doc) && undo != []
    ensures var e := undo[|undo| - 1];
            && e.inverse != [] && Stored(file, e.inverse) && Stageable(doc, Materialized(file, e.inverse))
            && var before := Apply(doc, Materialized(file, e.inverse));
               && Past(file, undo[..|undo| - 1], before) && Future(file, redo + [e], before)
               && before == Lineage(file, undo, redo, doc)[|undo| - 1]
               && Lineage(file, undo[..|undo| - 1], redo + [e], before) == Lineage(file, undo, redo, doc)
  {
    hide Links, Past, Future, Lineage, Stageable, Applicable, Apply, Materialized;
    var before := LastUndo(file, undo, doc);
    LinkParts(file, undo[|undo| - 1], before, doc);
    FuturePush(file, redo, undo[|undo| - 1], before, doc);
    LineageStep(file, undo[..|undo| - 1], undo[|undo| - 1], redo, before, doc);
  }

  /** One redo moves on along the line. */
  lemma RedoMoves(file: seq<byte>, undo: seq<Entry>, redo: seq<Entry>, doc: seq<byte>)
    requires Past(file, undo, doc) && Future(file, redo, doc) && redo != []
    ensures var e := redo[|redo| - 1];
            && e.forward != [] && Stored(file, e.forward) && Stageable(doc, Materialized(file, e.forward))
            && var after := Apply(doc, Materialized(file, e.forward));
               && Past(file, undo + [e], after) && Future(file, redo[..|redo| - 1], after)
               && after == Lineage(file, undo, redo, doc)[|undo| + 1]
               && Lineage(file, undo + [e], redo[..|redo| - 1], after) == Lineage(file, undo, redo, doc)
  {
    hide Links, Past, Future, Lineage, Stageable, Applicable, Apply, Materialized;
    var after := LastRedo(file, redo, doc);
    LinkParts(file, redo[|redo| - 1], doc, after);
    PastPush(file, undo, redo[|redo| - 1], doc, after);
    LineageStep(file, undo, redo[|redo| - 1], redo[..|redo| - 1], doc, after);
  }

  /** Undo then redo, and redo then undo, come back to the same document. */
  lemma UndoRedoRoundTrip(file: seq<byte>, undo: seq<Entry>, redo: seq<Entry>, doc: seq<byte>)
    requires Past(file, undo, doc) && Future(file, redo, doc)
    ensures undo != [] ==>
              var e := undo[|undo| - 1];
              && Stored(file, e.inverse) && Stored(file, e.forward) && Applicable(doc, Materialized(file, e.inverse))
              && var before := Apply(doc, Materialized(file, e.inverse));
                 Applicable(before, Materialized(file, e.forward))
                     && Apply(before, Materialized(file, e.forward)) == doc
    ensures redo != [] ==>
              var e := redo[|redo| - 1];
              && Stored(file, e.inverse) && Stored(file, e.forward) && Applicable(doc, Materialized(file, e.forward))
              && var after := Apply(doc, Materialized(file, e.forward));
                 Applicable(after, Materialized(file, e.inverse)) && Apply(after, Materialized(file, e.inverse)) == doc
  {
    if undo != [] {
      var before :| Links(file, undo[|undo| - 1], before, doc) && Past(file, undo[..|undo| - 1], before);
    }
    if redo != [] {
      var after :| Links(file, redo[|redo| - 1], doc, after) && Future(file, redo[..|redo| - 1], after);
    }
  }

  // ---------------------------------------------------------------- inverse transactions are never refused

  /** Intermediate lengths on the way back are those on the way there. */
  lemma {:induction false} InverseBounded(doc: seq<byte>, ops: seq<Replace>)
    requires Applicable(doc, ops) && Bounded(doc, ops)
    ensures Applicable(Apply(doc, ops), Inverse(doc, ops)) && Bounded(Apply(doc, ops), Inverse(doc, ops))
    decreases |ops|
  {
    InverseUndoes(doc, ops);
    if ops != [] {
      var last := |ops| - 1;
      var middle, after := Apply(doc, ops[..last]), Apply(doc, ops);
      var undo := [InverseOne(middle, ops[last])];
      InverseBounded(doc, ops[..last]);
      InverseUndoes(doc, ops[..last]);
      InverseOneUndoes(middle, ops[last]);
      ApplySnoc(after, [], undo[0]);
      assert [] + undo == undo;
      BoundedConcat(after, undo, Inverse(doc, ops[..last]));
      assert undo[..0] == [];
    }
  }

  /** The inverse of an accepted batch is accepted in the document that the batch leaves. */
  lemma InverseStageable(doc: seq<byte>, ops: seq<Replace>)
    requires Valid(doc) && Stageable(doc, ops)
    ensures Stageable(Apply(doc, ops), Inverse(doc, ops)) && Apply(Apply(doc, ops), Inverse(doc, ops)) == doc
  {
    hide Valid, RuneLen, Accepted, Bounded, Apply, Applicable, Inverse;
    InverseUndoes(doc, ops);
    InverseAccepted(doc, ops);
    InverseBounded(doc, ops);
  }

  // ---------------------------------------------------------------- the text store

  predicate Covers(ref: TextRef, p: nat) {
    ref.offset <= p < ref.offset + ref.length
  }

  /** A byte of the rewritten file belongs to some live text. */
  ghost predicate LiveByte(mapping: map<TextRef, TextRef>, p: nat) {
    exists ref :: ref in mapping && Covers(mapping[ref], p)
  }

  ghost predicate AllLive(mapping: map<TextRef, TextRef>, n: nat) {
    forall p: nat :: 0 <= p < n ==> LiveByte(mapping, p)
  }

  /** A mapping moves every live text and keeps its bytes. */
  predicate Moves(before: seq<byte>, after: seq<byte>, mapping: map<TextRef, TextRef>, ref: TextRef) {
    ref.length > 0 ==>
      && ref in mapping && InStore(before, ref) && InStore(after, mapping[ref])
      && mapping[ref].length == ref.length && Text(after, mapping[ref]) == Text(before, ref)
  }

  class UndoStore {
    var file: seq<byte>
    var size: nat
    const quota: nat

    predicate Valid()
      reads this
    {
      size == |file|
    }

    /** A write at the end, which may stop short. */
    method WriteAt(value: seq<byte>) returns (n: nat, failed: bool)
      modifies this`file
      ensures n <= |value| && file == old(file) + value[..n] && (!failed ==> n == |value|)
    {
      n, failed := *, *;
      if n > |value| || !failed {
        n := |value|;
      }
      file := file + value[..n];
    }

    /** append refuses what the quota cannot hold, and never moves a text that is already there. */
    method Append(value: seq<byte>) returns (r: Result<TextRef>)
      requires Valid()
      modifies this
      ensures Valid() && old(file) <= file && (old(size) <= quota ==> size <= quota)
      ensures r.Success? ==> InStore(file, r.value) && Text(file, r.value) == value && file == old(file) + value
      ensures r.Success? ==> r.value == if value == [] then TextRef(0, 0) else TextRef(|old(file)|, |value|)
      ensures r == Failure(Quota) <==> |value| > 0 && |value| > quota - old(size)
      ensures r == Failure(Quota) ==> file == old(file)
    {
      if |value| == 0 {
        return Success(TextRef(0, 0));
      }
      if |value| > quota - size {
        return Failure(Quota);
      }
      var ref := TextRef(size, |value|);
      var n, failed := WriteAt(value);
      size := size + n;
      return if failed then Failure(IO) else Success(ref);
    }

    method Read(ref: TextRef) returns (r: Result<seq<byte>>)
      requires Valid()
      ensures r.Success? ==> InStore(file, ref) && r.value == Text(file, ref)
      ensures r.Failure? ==> r.error == IO || r.error == UnexpectedEOF
    {
      if ref.length == 0 {
        return Success([]);
      }
      var failed: bool := *;
      if failed {
        return Failure(IO);
      }
      if ref.offset + ref.length > size {
        return Failure(UnexpectedEOF);
      }
      return Success(file[ref.offset..ref.offset + ref.length]);
    }

    method Reset() returns (r: Result<()>)
      requires Valid()
      modifies this
      ensures Valid() && (r.Success? ==> file == [])
      ensures r.Failure? ==> file == old(file) && r.error == IO
    {
      var failed: bool := *;
      if failed {
        return Failure(IO);
      }
      file := [];
      size := 0;
      return Success(());
    }

    /** The first loop of rewrite: the live references, each once. */
    method Unique(refs: seq<TextRef>) returns (r: Result<seq<TextRef>>)
      requires Valid()
      ensures r.Success? ==>
                && (forall i :: 0 <= i < |refs| && refs[i].length > 0 ==> refs[i] in r.value)
                && (forall i :: 0 <= i < |r.value| ==>
                     r.value[i] in refs && r.value[i].length > 0 && InStore(file, r.value[i]))
                && (forall i, j :: 0 <= i < j < |r.value| ==> r.value[i] != r.value[j])
    {
      var unique: seq<TextRef> := [];
      var i := 0;
      while i < |refs|
        invariant 0 <= i <= |refs|
        invariant forall k :: 0 <= k < i && refs[k].length > 0 ==> refs[k] in unique
        invariant forall k :: 0 <= k < |unique| ==>
                    unique[k] in refs && unique[k].length > 0 && InStore(file, unique[k])
        invariant forall j, k :: 0 <= j < k < |unique| ==> unique[j] != unique[k]
      {
        var cancelled: bool := *;
        if cancelled {
          return Failure(Cancelled);
        }
        if refs[i].length > 0 {
          if refs[i].offset > size || refs[i].length > size - refs[i].offset {
            return Failure(UnexpectedEOF);
          }
          if refs[i] !in unique {
            unique := unique + [refs[i]];
          }
        }
        i := i + 1;
      }
      return Success(unique);
    }

    /** copyUndoReference: one text, through a bounded buffer, to the end of the new file. */
    method CopyReference(destination: seq<byte>, ref: TextRef) returns (r: Result<seq<byte>>)
      requires Valid() && InStore(file, ref) && ref.length > 0
      ensures r.Success? ==> r.value == destination + Text(file, ref)
    {
      var copy := destination;
      var copied := 0;
      assert file[ref.offset..ref.offset] == [];
      while copied < ref.length
        invariant 0 <= copied <= ref.length
        invariant copy == destination + file[ref.offset..ref.offset + copied]
      {
        var cancelled: bool := *;
        if cancelled {
          return Failure(Cancelled);
        }
        var want := Min(REWRITE_BUFFER, ref.length - copied);
        var n: int := *;
        if n <= 0 || n > want {
          return Failure(UnexpectedEOF);
        }
        assert ref.offset + copied + n <= ref.offset + ref.length <= |file|;
        copy := copy + file[ref.offset + copied..ref.offset + copied + n];
        assert file[ref.offset..ref.offset + copied + n]
               == file[ref.offset..ref.offset + copied] + file[ref.offset + copied..ref.offset + copied + n];
        copied := copied + n;
      }
      return Success(copy);
    }

    /** rewriteContext: on success the store holds exactly the live texts, and the mapping says where; otherwise
        nothing has changed. */
    method Rewrite(refs: seq<TextRef>) returns (r: Result<map<TextRef, TextRef>>)
      requires Valid()
      modifies this
      ensures r.Failure? ==> file == old(file) && size == old(size)
      ensures r.Success? ==>
                && size == |file|
                && (forall i :: 0 <= i < |refs| ==> Moves(old(file), file, r.value, refs[i]))
                && (forall ref :: ref in r.value ==> ref in refs)
                && AllLive(r.value, |file|)
    {
      var unique := Unique(refs);
      if unique.Failure? {
        return Failure(unique.error);
      }
      var failed: bool := *;
      if |unique.value| == 0 {
        if failed {
          return Failure(IO);
        }
        file := [];
        size := 0;
        return Success(map[]);
      }
      if failed {
        return Failure(IO);
      }
      var mapping: map<TextRef, TextRef> := map[];
      var copy: seq<byte> := [];
      var i := 0;
      while i < |unique.value|
        invariant 0 <= i <= |unique.value|
        invariant file == old(file) && size == old(size)
        invariant mapping.Keys == set k | 0 <= k < i :: unique.value[k]
        invariant forall k :: 0 <= k < i ==> Moves(file, copy, mapping, unique.value[k])
        invariant AllLive(mapping, |copy|)
      {
        var ref := unique.value[i];
        var copied := CopyReference(copy, ref);
        if copied.Failure? {
          return Failure(copied.error);
        }
        Copied(file, copy, mapping, unique.value, i);
        mapping := mapping[ref := TextRef(|copy|, ref.length)];
        copy := copied.value;
        i := i + 1;
      }
      failed := *;
      if failed {
        return Failure(Cancelled);
      }
      file := copy;
      size := |copy|;
      return Success(mapping);
    }
  }

  /** One more text behind the copied ones disturbs none of them. */
  lemma Copied(file: seq<byte>, copy: seq<byte>, mapping: map<TextRef, TextRef>, unique: seq<TextRef>, i: nat)
    requires i < |unique| && InStore(file, unique[i]) && unique[i].length > 0
    requires forall j, k :: 0 <= j < k < |unique| ==> unique[j] != unique[k]
    requires mapping.Keys == set k | 0 <= k < i :: unique[k]
    requires forall k :: 0 <= k < i ==> Moves(file, copy, mapping, unique[k])
    requires AllLive(mapping, |copy|)
    ensures var next := copy + Text(file, unique[i]);
            var moved := mapping[unique[i] := TextRef(|copy|, unique[i].length)];
            && moved.Keys == (set k | 0 <= k < i + 1 :: unique[k])
            && (forall k :: 0 <= k < i + 1 ==> Moves(file, next, moved, unique[k]))
            && AllLive(moved, |next|)
  {
    var next := copy + Text(file, unique[i]);
    var moved := mapping[unique[i] := TextRef(|copy|, unique[i].length)];
    forall k | 0 <= k < i + 1
      ensures Moves(file, next, moved, unique[k])
    {
    }
    forall p | 0 <= p < |next|
      ensures LiveByte(moved, p)
    {
      if p < |copy| {
        assert LiveByte(mapping, p);
        var ref :| ref in mapping && Covers(mapping[ref], p);
        assert unique[i] !in mapping;
        assert ref in moved && Covers(moved[ref], p);
      } else {
        assert unique[i] in moved && Covers(moved[unique[i]], p);
      }
    }
  }

  // ---------------------------------------------------------------- recording

  /** The inverse grows at the front while the forward list grows at the back. */
  lemma InverseStep(doc: seq<byte>, ops: seq<Replace>, i: nat)
    requires i < |ops| && Applicable(doc, ops)
    ensures Applicable(doc, ops[..i]) && Applicable(doc, ops[..i + 1])
    ensures InRange(|Apply(doc, ops[..i])|, ops[i].start, ops[i].deleteLength)
    ensures Inverse(doc, ops[..i + 1]) == [InverseOne(Apply(doc, ops[..i]), ops[i])] + Inverse(doc, ops[..i])
  {
    ApplicablePrefix(doc, ops, i);
    ApplicablePrefix(doc, ops, i + 1);
    assert ops[..i + 1][..i] == ops[..i];
  }

  /** The entry under construction holds the first i operations and their inverse. */
  ghost predicate Recorded(file: seq<byte>, e: Entry, doc: seq<byte>, ops: seq<Replace>, i: nat) {
    && i <= |ops| && Applicable(doc, ops[..i])
    && Stored(file, e.forward) && Materialized(file, e.forward) == ops[..i]
    && Stored(file, e.inverse) && Materialized(file, e.inverse) == Inverse(doc, ops[..i])
  }

  lemma RecordedStep(file: seq<byte>, grown: seq<byte>, e: Entry, doc: seq<byte>, ops: seq<Replace>, i: nat,
                     deleted: seq<byte>, forward: TextRef, inverse: TextRef)
    requires Recorded(file, e, doc, ops, i) && i < |ops| && file <= grown && Applicable(doc, ops)
    requires InRange(|Apply(doc, ops[..i])|, ops[i].start, ops[i].deleteLength)
    requires deleted == Apply(doc, ops[..i])[ops[i].start..ops[i].start + ops[i].deleteLength]
    requires InStore(grown, forward) && Text(grown, forward) == ops[i].insert
    requires InStore(grown, inverse) && Text(grown, inverse) == deleted
    ensures Recorded(grown, Entry(e.forward + [HistoryOperation(ops[i].start, ops[i].deleteLength, forward)],
                                  [HistoryOperation(ops[i].start, |ops[i].insert|, inverse)] + e.inverse), doc, ops,
                                      i + 1)
  {
    hide Apply, Applicable, Inverse;
    var more := grown[|file|..];
    assert grown == file + more;
    TextGrows(file, more, e.forward);
    TextGrows(file, more, e.inverse);
    InverseStep(doc, ops, i);
  }

  lemma RecordedNothing(file: seq<byte>, doc: seq<byte>, ops: seq<Replace>)
    ensures Recorded(file, Entry([], []), doc, ops, 0)
  {
    assert ops[..0] == [];
  }

  lemma StagedAt(doc: seq<byte>, ops: seq<Replace>, staged: seq<Staged>, i: nat)
    requires StagedAs(doc, ops, staged) && i < |ops|
    ensures |staged| == |ops| && staged[i].operation == ops[i] && Applicable(doc, ops) && Applicable(doc, ops[..i])
    ensures InRange(|Apply(doc, ops[..i])|, ops[i].start, ops[i].deleteLength)
    ensures staged[i].deleted == Apply(doc, ops[..i])[ops[i].start..ops[i].start + ops[i].deleteLength]
  {
  }

  lemma StagedStageable(doc: seq<byte>, ops: seq<Replace>, staged: seq<Staged>)
    requires StagedAs(doc, ops, staged)
    ensures Stageable(doc, ops) && Applicable(doc, ops) && |staged| == |ops|
  {
  }

  lemma TextKept(file: seq<byte>, grown: seq<byte>, ref: TextRef)
    requires InStore(file, ref) && file <= grown
    ensures InStore(grown, ref) && Text(grown, ref) == Text(file, ref)
  {
  }

  /** A complete entry links the documents before and after the batch. */
  lemma RecordedLinks(file: seq<byte>, e: Entry, doc: seq<byte>, ops: seq<Replace>)
    requires Valid(doc) && ops != [] && Stageable(doc, ops) && Recorded(file, e, doc, ops, |ops|)
    ensures Links(file, e, doc, Apply(doc, ops))
  {
    hide Valid, RuneLen, Accepted, Bounded, Apply, Applicable, Inverse;
    assert ops[..|ops|] == ops;
    InverseStageable(doc, ops);
  }

  function RemapOps(ops: seq<HistoryOperation>, mapping: map<TextRef, TextRef>): (r: seq<HistoryOperation>)
    ensures |r| == |ops|
  {
    seq(|ops|, i requires 0 <= i < |ops| =>
      if ops[i].insert.length > 0 && ops[i].insert in mapping then ops[i].(insert := mapping[ops[i].insert])
          else ops[i])
  }

  function RemapEntry(e: Entry, mapping: map<TextRef, TextRef>): Entry {
    Entry(RemapOps(e.forward, mapping), RemapOps(e.inverse, mapping))
  }

  function Remap(entries: seq<Entry>, mapping: map<TextRef, TextRef>): (r: seq<Entry>)
    ensures |r| == |entries|
  {
    seq(|entries|, i requires 0 <= i < |entries| => RemapEntry(entries[i], mapping))
  }

  predicate AllMove(before: seq<byte>, after: seq<byte>, mapping: map<TextRef, TextRef>, ops: seq<HistoryOperation>) {
    forall i :: 0 <= i < |ops| ==> Moves(before, after, mapping, ops[i].insert)
  }

  predicate AllEntriesMove(before: seq<byte>, after: seq<byte>, mapping: map<TextRef, TextRef>, entries: seq<Entry>) {
    forall i :: 0 <= i < |entries| ==>
      AllMove(before, after, mapping, entries[i].forward) && AllMove(before, after, mapping, entries[i].inverse)
  }

  lemma RemapOpsKeeps(before: seq<byte>, after: seq<byte>, mapping: map<TextRef, TextRef>, ops: seq<HistoryOperation>)
    requires Stored(before, ops) && AllMove(before, after, mapping, ops)
    ensures Stored(after, RemapOps(ops, mapping))
            && Materialized(after, RemapOps(ops, mapping)) == Materialized(before, ops)
  {
  }

  lemma RemapLinks(before: seq<byte>, after: seq<byte>, mapping: map<TextRef, TextRef>, e: Entry, x: seq<byte>,
                   y: seq<byte>)
    requires Links(before, e, x, y)
    requires AllMove(before, after, mapping, e.forward) && AllMove(before, after, mapping, e.inverse)
    ensures Links(after, RemapEntry(e, mapping), x, y) && SameEntry(before, e, after, RemapEntry(e, mapping))
  {
    hide Stageable, Apply, Applicable, RemapOps;
    RemapOpsKeeps(before, after, mapping, e.forward);
    RemapOpsKeeps(before, after, mapping, e.inverse);
  }

  /** Rewriting the store and the references of both stacks moves no document of the line. */
  lemma {:induction false} RemapPast(before: seq<byte>, after: seq<byte>, mapping: map<TextRef, TextRef>,
                                     undo: seq<Entry>, doc: seq<byte>)
    requires Past(before, undo, doc) && AllEntriesMove(before, after, mapping, undo)
    ensures Past(after, Remap(undo, mapping), doc)
            && Behind(after, Remap(undo, mapping), doc) == Behind(before, undo, doc)
    ensures SameOperations(before, undo, after, Remap(undo, mapping))
    decreases |undo|
  {
    hide Links, AllMove, Undone, SameEntry, RemapEntry;
    if undo != [] {
      var last := |undo| - 1;
      var earlier := LastUndo(before, undo, doc);
      RemapLinks(before, after, mapping, undo[last], earlier, doc);
      LinkedDocuments(before, undo[last], earlier, doc);
      LinkedDocuments(after, RemapEntry(undo[last], mapping), earlier, doc);
      RemapPast(before, after, mapping, undo[..last], earlier);
      assert Remap(undo, mapping)[..last] == Remap(undo[..last], mapping);
    }
  }

  lemma {:induction false} RemapFuture(before: seq<byte>, after: seq<byte>, mapping: map<TextRef, TextRef>,
                                       redo: seq<Entry>, doc: seq<byte>)
    requires Future(before, redo, doc) && AllEntriesMove(before, after, mapping, redo)
    ensures Future(after, Remap(redo, mapping), doc)
            && Ahead(after, Remap(redo, mapping), doc) == Ahead(before, redo, doc)
    ensures SameOperations(before, redo, after, Remap(redo, mapping))
    decreases |redo|
  {
    hide Links, AllMove, Redone, SameEntry, RemapEntry;
    if redo != [] {
      var last := |redo| - 1;
      var later := LastRedo(before, redo, doc);
      RemapLinks(before, after, mapping, redo[last], doc, later);
      LinkedDocuments(before, redo[last], doc, later);
      LinkedDocuments(after, RemapEntry(redo[last], mapping), doc, later);
      RemapFuture(before, after, mapping, redo[..last], later);
      assert Remap(redo, mapping)[..last] == Remap(redo[..last], mapping);
    }
  }

  /** The texts of a line are in its file. */
  lemma {:induction false} PastStored(file: seq<byte>, undo: seq<Entry>, doc: seq<byte>)
    requires Past(file, undo, doc)
    ensures SameOperations(file, undo, file, undo)
    decreases |undo|
  {
    hide Links, Past, SameEntry;
    if undo != [] {
      var earlier := LastUndo(file, undo, doc);
      LinkParts(file, undo[|undo| - 1], earlier, doc);
      PastStored(file, undo[..|undo| - 1], earlier);
    }
  }

  lemma {:induction false} FutureStored(file: seq<byte>, redo: seq<Entry>, doc: seq<byte>)
    requires Future(file, redo, doc)
    ensures SameOperations(file, redo, file, redo)
    decreases |redo|
  {
    hide Links, Future, SameEntry;
    if redo != [] {
      var later := LastRedo(file, redo, doc);
      LinkParts(file, redo[|redo| - 1], doc, later);
      FutureStored(file, redo[..|redo| - 1], later);
    }
  }

  predicate Lists(refs: seq<TextRef>, ops: seq<HistoryOperation>) {
    forall i :: 0 <= i < |ops| && ops[i].insert.length > 0 ==> ops[i].insert in refs
  }

  predicate ListsAll(refs: seq<TextRef>, entries: seq<Entry>) {
    forall i :: 0 <= i < |entries| ==> Lists(refs, entries[i].forward) && Lists(refs, entries[i].inverse)
  }

  method CollectOps(refs: seq<TextRef>, ops: seq<HistoryOperation>) returns (r: seq<TextRef>)
    ensures refs <= r && Lists(r, ops)
  {
    r := refs;
    var i := 0;
    while i < |ops|
      invariant 0 <= i <= |ops| && refs <= r
      invariant forall k :: 0 <= k < i && ops[k].insert.length > 0 ==> ops[k].insert in r
    {
      if ops[i].insert.length > 0 {
        r := r + [ops[i].insert];
      }
      i := i + 1;
    }
  }

  /** collectHistoryRefs for one stack. */
  method CollectRefs(refs: seq<TextRef>, entries: seq<Entry>) returns (r: seq<TextRef>)
    ensures refs <= r && ListsAll(r, entries)
  {
    r := refs;
    var i := 0;
    while i < |entries|
      invariant 0 <= i <= |entries| && refs <= r
      invariant forall k :: 0 <= k < i ==> Lists(r, entries[k].forward) && Lists(r, entries[k].inverse)
    {
      r := CollectOps(r, entries[i].forward);
      r := CollectOps(r, entries[i].inverse);
      i := i + 1;
    }
  }

  /** remapHistoryRefs for one list of operations. */
  method RemapList(ops: seq<HistoryOperation>, mapping: map<TextRef, TextRef>) returns (r: seq<HistoryOperation>)
    requires forall i :: 0 <= i < |ops| && ops[i].insert.length > 0 ==> ops[i].insert in mapping
    ensures r == RemapOps(ops, mapping)
  {
    r := ops;
    var i := 0;
    while i < |ops|
      invariant 0 <= i <= |ops| == |r|
      invariant r == RemapOps(ops, mapping)[..i] + ops[i..]
    {
      var ref := r[i].insert;
      if ref.length > 0 {
        r := r[i := r[i].(insert := mapping[ref])];
      }
      i := i + 1;
    }
  }

  /** remapHistoryRefs for one stack. */
  method RemapStack(entries: seq<Entry>, mapping: map<TextRef, TextRef>, ghost before: seq<byte>,
                    ghost after: seq<byte>)
    returns (r: seq<Entry>)
    requires AllEntriesMove(before, after, mapping, entries)
    ensures r == Remap(entries, mapping)
  {
    hide AllMove, RemapEntry, AllEntriesMove, RemapOps;
    r := entries;
    var i := 0;
    while i < |entries|
      invariant 0 <= i <= |entries| == |r|
      invariant forall k :: 0 <= k < i ==> r[k] == Remap(entries, mapping)[k]
      invariant forall k :: i <= k < |r| ==> r[k] == entries[k]
    {
      RemapNext(entries, mapping, before, after, i);
      var forward := RemapList(r[i].forward, mapping);
      var inverse := RemapList(r[i].inverse, mapping);
      r := r[i := Entry(forward, inverse)];
      i := i + 1;
    }
  }

  lemma RemapNext(entries: seq<Entry>, mapping: map<TextRef, TextRef>, before: seq<byte>, after: seq<byte>, i: nat)
    requires AllEntriesMove(before, after, mapping, entries) && i < |entries|
    ensures var e := entries[i];
            && (forall k :: 0 <= k < |e.forward| && e.forward[k].insert.length > 0 ==> e.forward[k].insert in mapping)
            && (forall k :: 0 <= k < |e.inverse| && e.inverse[k].insert.length > 0 ==> e.inverse[k].insert in mapping)
            && Remap(entries, mapping)[i] == Entry(RemapOps(e.forward, mapping), RemapOps(e.inverse, mapping))
  {
  }

  lemma ListsMore(refs: seq<TextRef>, more: seq<TextRef>, entries: seq<Entry>)
    requires ListsAll(refs, entries) && refs <= more
    ensures ListsAll(more, entries)
  {
  }

  lemma ListedMove(refs: seq<TextRef>, entries: seq<Entry>, before: seq<byte>, after: seq<byte>,
                   mapping: map<TextRef, TextRef>)
    requires ListsAll(refs, entries)
    requires forall i :: 0 <= i < |refs| ==> Moves(before, after, mapping, refs[i])
    ensures AllEntriesMove(before, after, mapping, entries)
  {
    hide Moves;
    forall i | 0 <= i < |entries|
      ensures AllMove(before, after, mapping, entries[i].forward) && AllMove(before, after, mapping, entries[i].inverse)
    {
      ListedOpsMove(refs, entries[i].forward, before, after, mapping);
      ListedOpsMove(refs, entries[i].inverse, before, after, mapping);
    }
  }

  lemma ListedOpsMove(refs: seq<TextRef>, ops: seq<HistoryOperation>, before: seq<byte>, after: seq<byte>,
                      mapping: map<TextRef, TextRef>)
    requires Lists(refs, ops)
    requires forall i :: 0 <= i < |refs| ==> Moves(before, after, mapping, refs[i])
    ensures AllMove(before, after, mapping, ops)
  {
  }

  // ---------------------------------------------------------------- texts under a quota

  /** What becomes of one text: it goes behind the others, or, when the quota is exceeded, takes their place if it fits
      alone; otherwise it is lost too. */
  datatype Kept = Kept(file: seq<byte>, ref: TextRef, reset: bool)

  function Remember(file: seq<byte>, quota: nat, value: seq<byte>): Kept {
    if value == [] then Kept(file, TextRef(0, 0), false)
    else if |value| <= quota - |file| then Kept(file + value, TextRef(|file|, |value|), false)
    else if |value| <= quota then Kept(value, TextRef(0, |value|), true)
    else Kept([], TextRef(0, 0), true)
  }

  /** The store after a list of texts, and the reference that each of them got. */
  function FileAfter(file: seq<byte>, quota: nat, texts: seq<seq<byte>>): seq<byte>
    decreases |texts|
  {
    if texts == [] then file
    else Remember(FileAfter(file, quota, texts[..|texts| - 1]), quota, texts[|texts| - 1]).file
  }

  function RefsOf(file: seq<byte>, quota: nat, texts: seq<seq<byte>>): (r: seq<TextRef>)
    ensures |r| == |texts|
    decreases |texts|
  {
    if texts == [] then []
    else
      var before := texts[..|texts| - 1];
      RefsOf(file, quota, before) + [Remember(FileAfter(file, quota, before), quota, texts[|texts| - 1]).ref]
  }

  /** The text that was the last to take the place of the others, or minus one. */
  function LastReset(file: seq<byte>, quota: nat, texts: seq<seq<byte>>): (k: int)
    ensures -1 <= k < |texts|
    decreases |texts|
  {
    if texts == [] then -1
    else
      var before := texts[..|texts| - 1];
      if Remember(FileAfter(file, quota, before), quota, texts[|texts| - 1]).reset then |before|
      else LastReset(file, quota, before)
  }

  /** Two more texts. */
  lemma TwoMore(file: seq<byte>, quota: nat, texts: seq<seq<byte>>, a: seq<byte>, b: seq<byte>)
    ensures var first := Remember(FileAfter(file, quota, texts), quota, a);
            var second := Remember(first.file, quota, b);
            && FileAfter(file, quota, texts + [a, b]) == second.file
            && RefsOf(file, quota, texts + [a, b]) == RefsOf(file, quota, texts) + [first.ref, second.ref]
            && (LastReset(file, quota, texts + [a, b]) == -1
                <==> LastReset(file, quota, texts) == -1 && !first.reset && !second.reset)
  {
    assert (texts + [a, b])[..|texts| + 1] == texts + [a] && (texts + [a])[..|texts|] == texts;
  }

  /** Every reference reads back its text. */
  predicate ReadBack(file: seq<byte>, refs: seq<TextRef>, texts: seq<seq<byte>>) {
    |refs| == |texts| && forall i :: 0 <= i < |texts| ==> InStore(file, refs[i]) && Text(file, refs[i]) == texts[i]
  }

  /** The bytes of all texts, and of the first that is not empty. */
  function Sum(texts: seq<seq<byte>>): nat
    decreases |texts|
  {
    if texts == [] then 0 else Sum(texts[..|texts| - 1]) + |texts[|texts| - 1]|
  }

  function First(texts: seq<seq<byte>>): nat
    decreases |texts|
  {
    if texts == [] then 0
    else
      var first := First(texts[..|texts| - 1]);
      if first == 0 then |texts[|texts| - 1]| else first
  }

  /** The texts go behind what the store holds already. */
  predicate Fits(file: seq<byte>, quota: nat, texts: seq<seq<byte>>) {
    Sum(texts) == 0 || Sum(texts) <= quota - |file|
  }

  /** They do, or the very first of them takes the place of all that, and the others go behind it. */
  predicate Intact(file: seq<byte>, quota: nat, texts: seq<seq<byte>>) {
    Fits(file, quota, texts) || (Sum(texts) <= quota && First(texts) > quota - |file|)
  }

  lemma {:induction false} FirstInSum(texts: seq<seq<byte>>)
    ensures First(texts) <= Sum(texts) && (First(texts) == 0 <==> Sum(texts) == 0)
    decreases |texts|
  {
    if texts != [] {
      FirstInSum(texts[..|texts| - 1]);
    }
  }

  /** How the store looks after texts that stay intact. */
  lemma {:induction false} IntactFile(file: seq<byte>, quota: nat, texts: seq<seq<byte>>)
    requires Intact(file, quota, texts)
    ensures |FileAfter(file, quota, texts)| == (if Fits(file, quota, texts) then |file| else 0) + Sum(texts)
    ensures LastReset(file, quota, texts) == -1 <==> Fits(file, quota, texts)
    decreases |texts|
  {
    if texts != [] {
      FirstInSum(texts[..|texts| - 1]);
      IntactFile(file, quota, texts[..|texts| - 1]);
    }
  }

  lemma {:induction false} IntactReads(file: seq<byte>, quota: nat, texts: seq<seq<byte>>)
    requires Intact(file, quota, texts)
    ensures ReadBack(FileAfter(file, quota, texts), RefsOf(file, quota, texts), texts)
    decreases |texts|
  {
    if texts != [] {
      var before, last := texts[..|texts| - 1], texts[|texts| - 1];
      IntactStep(file, quota, texts);
      IntactReads(file, quota, before);
      hide FileAfter, Intact, Sum;
      assert texts == before + [last];
      ReadBackStep(FileAfter(file, quota, before), quota, RefsOf(file, quota, before), before, last);
      assert FileAfter(file, quota, texts) == Remember(FileAfter(file, quota, before), quota, last).file by {
        FileAfterSnoc(file, quota, texts);
      }
    }
  }

  lemma FileAfterSnoc(file: seq<byte>, quota: nat, texts: seq<seq<byte>>)
    requires texts != []
    ensures FileAfter(file, quota, texts)
            == Remember(FileAfter(file, quota, texts[..|texts| - 1]), quota, texts[|texts| - 1]).file
  {
  }

  lemma IntactStep(file: seq<byte>, quota: nat, texts: seq<seq<byte>>)
    requires Intact(file, quota, texts) && texts != []
    ensures var before, last := texts[..|texts| - 1], texts[|texts| - 1];
            && Intact(file, quota, before) && |last| <= quota
            && (Remember(FileAfter(file, quota, before), quota, last).reset ==> Sum(before) == 0)
  {
    FirstInSum(texts[..|texts| - 1]);
    IntactFile(file, quota, texts[..|texts| - 1]);
  }

  /** One more text leaves those readable that went before it, unless it takes their place. */
  lemma ReadBackStep(file: seq<byte>, quota: nat, refs: seq<TextRef>, before: seq<seq<byte>>, last: seq<byte>)
    requires ReadBack(file, refs, before) && |last| <= quota
    requires Remember(file, quota, last).reset ==> Sum(before) == 0
    ensures ReadBack(Remember(file, quota, last).file, refs + [Remember(file, quota, last).ref], before + [last])
  {
    var kept := Remember(file, quota, last);
    if kept.reset {
      AllEmpty(before);
    }
    forall i | 0 <= i < |before|
      ensures InStore(kept.file, refs[i]) && Text(kept.file, refs[i]) == before[i]
    {
      assert InStore(file, refs[i]) && Text(file, refs[i]) == before[i];
    }
  }

  lemma {:induction false} AllEmpty(texts: seq<seq<byte>>)
    requires Sum(texts) == 0
    ensures forall i :: 0 <= i < |texts| ==> texts[i] == []
    decreases |texts|
  {
    if texts != [] {
      AllEmpty(texts[..|texts| - 1]);
    }
  }

  predicate SameLengths(a: seq<seq<byte>>, b: seq<seq<byte>>) {
    |a| == |b| && forall i :: 0 <= i < |a| ==> |a[i]| == |b[i]|
  }

  /** The lengths alone decide where texts go and which are lost. */
  lemma {:induction false} LengthsDecide(file: seq<byte>, quota: nat, a: seq<seq<byte>>, b: seq<seq<byte>>)
    requires SameLengths(a, b)
    ensures |FileAfter(file, quota, a)| == |FileAfter(file, quota, b)|
            && LastReset(file, quota, a) == LastReset(file, quota, b)
    ensures Sum(a) == Sum(b) && First(a) == First(b)
    decreases |a|
  {
    if a != [] {
      LengthsDecide(file, quota, a[..|a| - 1], b[..|b| - 1]);
    }
  }

  lemma {:induction false} RefAt(file: seq<byte>, quota: nat, texts: seq<seq<byte>>, i: nat)
    requires i < |texts|
    ensures RefsOf(file, quota, texts)[i] == Remember(FileAfter(file, quota, texts[..i]), quota, texts[i]).ref
    decreases |texts|
  {
    if i < |texts| - 1 {
      RefAt(file, quota, texts[..|texts| - 1], i);
      assert texts[..|texts| - 1][..i] == texts[..i];
    }
  }

  /** Texts that are not intact: one of them does not fit at all, or some come before the last that took their place. */
  lemma {:induction false} TornShape(file: seq<byte>, quota: nat, texts: seq<seq<byte>>)
    requires forall i :: 0 <= i < |texts| ==> |texts[i]| <= quota
    requires !Intact(file, quota, texts)
    ensures LastReset(file, quota, texts) >= 0 && Sum(texts[..LastReset(file, quota, texts)]) > 0
    decreases |texts|
  {
    var before, last := texts[..|texts| - 1], texts[|texts| - 1];
    FirstInSum(before);
    if !Intact(file, quota, before) {
      TornShape(file, quota, before);
      var k := LastReset(file, quota, before);
      assert before[..k] == texts[..k];
    } else {
      IntactFile(file, quota, before);
      assert before[..|before|] == before && texts[..|before|] == before;
    }
  }

  /** Texts that are ones before a position and twos from there on. */
  function Marked(texts: seq<seq<byte>>, k: nat): (r: seq<seq<byte>>)
    ensures SameLengths(r, texts)
  {
    seq(|texts|, i requires 0 <= i < |texts| => seq(|texts[i]|, _ => if i < k then 1 as byte else 2 as byte))
  }

  predicate AllTwos(file: seq<byte>) {
    forall i :: 0 <= i < |file| ==> file[i] == 2
  }

  /** After the last text that took the place of the others, the store holds nothing from before. */
  lemma {:induction false} OnlyTwos(file: seq<byte>, quota: nat, texts: seq<seq<byte>>, k: nat)
    requires LastReset(file, quota, texts) == k < |texts|
    requires forall i, j :: k <= i < |texts| && 0 <= j < |texts[i]| ==> texts[i][j] == 2
    ensures AllTwos(FileAfter(file, quota, texts))
    decreases |texts|
  {
    var before, last := texts[..|texts| - 1], texts[|texts| - 1];
    if k < |before| {
      assert LastReset(file, quota, before) == k;
      assert forall i, j :: k <= i < |before| && 0 <= j < |before[i]| ==> before[i][j] == texts[i][j];
      OnlyTwos(file, quota, before, k);
    }
  }

  lemma {:induction false} SomeText(texts: seq<seq<byte>>) returns (i: nat)
    requires Sum(texts) > 0
    ensures i < |texts| && texts[i] != []
    decreases |texts|
  {
    if texts[|texts| - 1] != [] {
      i := |texts| - 1;
    } else {
      i := SomeText(texts[..|texts| - 1]);
    }
  }

  /** A text that went into the store before everything was replaced by twos does not come back. */
  lemma LostText(file: seq<byte>, quota: nat, texts: seq<seq<byte>>, i: nat, after: seq<byte>)
    requires i < |texts| && 0 < |texts[i]| <= quota && texts[i][0] == 1 && AllTwos(after)
    ensures !ReadBack(after, RefsOf(file, quota, texts), texts)
  {
    RefAt(file, quota, texts, i);
    hide FileAfter, RefsOf;
    var ref := RefsOf(file, quota, texts)[i];
    assert ref.length == |texts[i]|;
    if InStore(after, ref) {
      assert Text(after, ref)[0] == after[ref.offset] == 2;
    }
  }

  /** Texts of the same lengths that the store does not give back. */
  lemma TornTexts(file: seq<byte>, quota: nat, texts: seq<seq<byte>>) returns (others: seq<seq<byte>>)
    requires !Intact(file, quota, texts)
    ensures SameLengths(others, texts)
    ensures !ReadBack(FileAfter(file, quota, others), RefsOf(file, quota, others), others)
  {
    hide FileAfter, RefsOf, Intact, Sum, LastReset;
    if i :| 0 <= i < |texts| && |texts[i]| > quota {
      RefAt(file, quota, texts, i);
      return texts;
    }
    TornShape(file, quota, texts);
    var k := LastReset(file, quota, texts);
    others := Marked(texts, k);
    LengthsDecide(file, quota, others, texts);
    OnlyTwos(file, quota, others, k);
    var i := SomeText(texts[..k]);
    LostText(file, quota, others, i, FileAfter(file, quota, others));
  }

  /** When the texts of a batch can be read back, whatever they are: exactly when they all fit behind those of the
      batches before, or the first of them is too long for that and they all fit in the store alone. */
  lemma TextsReadBack(file: seq<byte>, quota: nat, texts: seq<seq<byte>>)
    ensures Intact(file, quota, texts) <==>
            forall others :: SameLengths(others, texts) ==>
                               ReadBack(FileAfter(file, quota, others), RefsOf(file, quota, others), others)
  {
    if Intact(file, quota, texts) {
      forall others | SameLengths(others, texts)
        ensures ReadBack(FileAfter(file, quota, others), RefsOf(file, quota, others), others)
      {
        LengthsDecide(file, quota, others, texts);
        IntactReads(file, quota, others);
      }
    } else {
      var others := TornTexts(file, quota, texts);
    }
  }

  // ---------------------------------------------------------------- what recovery remembers

  /** The texts of a batch in the order in which they are recorded: each operation's own, and the one it removes. */
  function BatchTexts(doc: seq<byte>, ops: seq<Replace>): (r: seq<seq<byte>>)
    requires Applicable(doc, ops)
    ensures |r| == 2 * |ops|
    decreases |ops|
  {
    if ops == [] then []
    else
      var last := |ops| - 1;
      var op := ops[last];
      BatchTexts(doc, ops[..last]) + [op.insert, Apply(doc, ops[..last])[op.start..op.start + op.deleteLength]]
  }

  /** The entry that is made of the references of those texts. */
  function EntryOf(ops: seq<Replace>, refs: seq<TextRef>): Entry
    requires |refs| == 2 * |ops|
    decreases |ops|
  {
    if ops == [] then Entry([], [])
    else
      var last := |ops| - 1;
      var e := EntryOf(ops[..last], refs[..2 * last]);
      Entry(e.forward + [HistoryOperation(ops[last].start, ops[last].deleteLength, refs[2 * last])],
            [HistoryOperation(ops[last].start, |ops[last].insert|, refs[2 * last + 1])] + e.inverse)
  }

  /** The entry holds the operations when its texts are read back. */
  lemma {:induction false} EntryReads(file: seq<byte>, doc: seq<byte>, ops: seq<Replace>, refs: seq<TextRef>)
    requires Applicable(doc, ops) && ReadBack(file, refs, BatchTexts(doc, ops))
    ensures Recorded(file, EntryOf(ops, refs), doc, ops, |ops|)
    decreases |ops|
  {
    hide BatchTexts, EntryOf, Recorded, Applicable, Apply, Text, InStore;
    if ops == [] {
      RecordedNothing(file, doc, ops);
      NoEntry(ops, refs);
    } else {
      var last := |ops| - 1;
      LastTexts(doc, ops, refs);
      var texts := BatchTexts(doc, ops);
      assert ReadBack(file, refs[..2 * last], texts[..2 * last]);
      EntryReads(file, doc, ops[..last], refs[..2 * last]);
      var e := EntryOf(ops[..last], refs[..2 * last]);
      RecordedLonger(file, e, doc, ops, last);
      RecordedStep(file, file, e, doc, ops, last, texts[2 * last + 1], refs[2 * last], refs[2 * last + 1]);
    }
  }

  lemma NoEntry(ops: seq<Replace>, refs: seq<TextRef>)
    requires ops == [] && refs == []
    ensures EntryOf(ops, refs) == Entry([], [])
  {
  }

  /** What the last operation adds to the texts and to the entry. */
  lemma LastTexts(doc: seq<byte>, ops: seq<Replace>, refs: seq<TextRef>)
    requires Applicable(doc, ops) && ops != [] && |refs| == 2 * |ops|
    ensures var last := |ops| - 1;
            var op, texts, e := ops[last], BatchTexts(doc, ops), EntryOf(ops[..last], refs[..2 * last]);
            && Applicable(doc, ops[..last]) && InRange(|Apply(doc, ops[..last])|, op.start, op.deleteLength)
            && texts[..2 * last] == BatchTexts(doc, ops[..last]) && texts[2 * last] == op.insert
            && texts[2 * last + 1] == Apply(doc, ops[..last])[op.start..op.start + op.deleteLength]
            && EntryOf(ops, refs)
               == Entry(e.forward + [HistoryOperation(op.start, op.deleteLength, refs[2 * last])],
                        [HistoryOperation(op.start, |op.insert|, refs[2 * last + 1])] + e.inverse)
  {
  }

  lemma StagedNothing(doc: seq<byte>, ops: seq<Replace>)
    ensures Applicable(doc, ops[..0]) && BatchTexts(doc, ops[..0]) == [] && Sum([]) == 0
  {
  }

  lemma {:induction false} SumPrefix(texts: seq<seq<byte>>, n: nat)
    requires n <= |texts|
    ensures Sum(texts[..n]) <= Sum(texts)
    decreases |texts|
  {
    if n < |texts| {
      SumPrefix(texts[..|texts| - 1], n);
      assert texts[..|texts| - 1][..n] == texts[..n];
    } else {
      assert texts[..n] == texts;
    }
  }

  lemma SumTwo(texts: seq<seq<byte>>, a: seq<byte>, b: seq<byte>)
    ensures Sum(texts + [a, b]) == Sum(texts) + |a| + |b|
  {
    assert (texts + [a, b])[..|texts| + 1] == texts + [a] && (texts + [a])[..|texts|] == texts;
  }

  lemma {:induction false} TextsOfPrefix(doc: seq<byte>, ops: seq<Replace>, n: nat)
    requires n <= |ops| && Applicable(doc, ops)
    ensures Applicable(doc, ops[..n]) && BatchTexts(doc, ops[..n]) == BatchTexts(doc, ops)[..2 * n]
    decreases |ops|
  {
    if n < |ops| {
      var last := |ops| - 1;
      TextsOfPrefix(doc, ops[..last], n);
      assert ops[..last][..n] == ops[..n];
      assert BatchTexts(doc, ops)[..2 * last][..2 * n] == BatchTexts(doc, ops)[..2 * n];
    } else {
      assert ops[..n] == ops;
    }
  }

  /** The bytes that a history keeps for the operations of a batch, up to one of them and with it. */
  lemma RecordedBytes(doc: seq<byte>, ops: seq<Replace>, staged: seq<Staged>, i: nat)
    requires StagedAs(doc, ops, staged) && i < |ops|
    ensures Applicable(doc, ops) && Applicable(doc, ops[..i]) && Applicable(doc, ops[..i + 1])
    ensures Sum(BatchTexts(doc, ops[..i + 1]))
            == Sum(BatchTexts(doc, ops[..i])) + |staged[i].operation.insert| + |staged[i].deleted|
    ensures Sum(BatchTexts(doc, ops[..i + 1])) <= Sum(BatchTexts(doc, ops))
  {
    hide Apply, Applicable, BatchTexts, Sum, StagedAs, EntryOf;
    StagedAt(doc, ops, staged, i);
    TextsOfPrefix(doc, ops, i + 1);
    SumPrefix(BatchTexts(doc, ops), 2 * (i + 1));
    var front := ops[..i + 1];
    assert front[..i] == ops[..i] && front[i] == ops[i];
    LastTexts(doc, front, seq(2 * |front|, _ => TextRef(0, 0)));
    var texts := BatchTexts(doc, front);
    assert texts == texts[..2 * i] + [staged[i].operation.insert, staged[i].deleted];
    SumTwo(texts[..2 * i], staged[i].operation.insert, staged[i].deleted);
  }

  /** The inserted and removed texts of a batch fit behind what the store holds: nothing has to be forgotten. */
  predicate FitsBehind(file: seq<byte>, quota: nat, doc: seq<byte>, ops: seq<Replace>) {
    Applicable(doc, ops) && Fits(file, quota, BatchTexts(doc, ops))
  }

  lemma RecordedLonger(file: seq<byte>, e: Entry, doc: seq<byte>, ops: seq<Replace>, i: nat)
    requires i <= |ops| && Recorded(file, e, doc, ops[..i], i)
    ensures Recorded(file, e, doc, ops, i)
  {
    assert ops[..i][..i] == ops[..i];
  }

  lemma {:induction false} ResetExact(file: seq<byte>, quota: nat, texts: seq<seq<byte>>)
    ensures LastReset(file, quota, texts) == -1 <==> Fits(file, quota, texts)
    ensures Fits(file, quota, texts) ==> file <= FileAfter(file, quota, texts)
    ensures Fits(file, quota, texts) ==> |FileAfter(file, quota, texts)| == |file| + Sum(texts)
    decreases |texts|
  {
    if texts != [] {
      ResetExact(file, quota, texts[..|texts| - 1]);
    }
  }

  /** The history that recovery builds up: the document, the texts, and whether the oldest entry is torn, that is, made
      while the store was emptied between its texts. */
  datatype Track = Track(doc: seq<byte>, file: seq<byte>, torn: bool)

  function TrackStep(t: Track, quota: nat, ops: seq<Replace>): Track
    requires Applicable(t.doc, ops)
  {
    var texts := BatchTexts(t.doc, ops);
    Track(Apply(t.doc, ops), FileAfter(t.file, quota, texts),
          if Fits(t.file, quota, texts) then t.torn else !Intact(t.file, quota, texts))
  }

  /** All batches of a journal, one after the other. */
  function TrackAll(t: Track, quota: nat, batches: seq<seq<Replace>>): Track
    decreases |batches|
  {
    if batches == [] then t
    else
      var before := TrackAll(t, quota, batches[..|batches| - 1]);
      if Applicable(before.doc, batches[|batches| - 1]) then TrackStep(before, quota, batches[|batches| - 1])
          else before
  }

  /** The entries lead back from the document, but for a torn oldest one. */
  ghost predicate Traced(t: Track, undo: seq<Entry>) {
    if t.torn then undo != [] && Past(t.file, undo[1..], t.doc) else Past(t.file, undo, t.doc)
  }

  /** One batch extends the line, begins a new one, or leaves a torn entry. */
  lemma TrackedStep(t: Track, quota: nat, undo: seq<Entry>, ops: seq<Replace>)
    requires Traced(t, undo) && Valid(t.doc) && ops != [] && Stageable(t.doc, ops) && Applicable(t.doc, ops)
    ensures var texts := BatchTexts(t.doc, ops);
            var kept := if LastReset(t.file, quota, texts) == -1 then undo else [];
            Traced(TrackStep(t, quota, ops), kept + [EntryOf(ops, RefsOf(t.file, quota, texts))])
  {
    hide Valid, Apply, Applicable, Stageable, BatchTexts, EntryOf, RefsOf, Intact, Fits, FileAfter, Traced, TrackStep;
    var texts := BatchTexts(t.doc, ops);
    var entry := EntryOf(ops, RefsOf(t.file, quota, texts));
    ResetExact(t.file, quota, texts);
    assert [] + [entry] == [entry];
    if !Intact(t.file, quota, texts) {
      TornEntry(t, quota, ops, entry);
    } else {
      IntactEntry(t, quota, undo, ops, entry);
    }
  }

  lemma IntactEntry(t: Track, quota: nat, undo: seq<Entry>, ops: seq<Replace>, entry: Entry)
    requires Traced(t, undo) && Valid(t.doc) && ops != [] && Stageable(t.doc, ops) && Applicable(t.doc, ops)
    requires Intact(t.file, quota, BatchTexts(t.doc, ops))
    requires entry == EntryOf(ops, RefsOf(t.file, quota, BatchTexts(t.doc, ops)))
    ensures var kept := if Fits(t.file, quota, BatchTexts(t.doc, ops)) then undo else [];
            Traced(TrackStep(t, quota, ops), kept + [entry])
  {
    hide Links, Past, Valid, RuneLen, Apply, Applicable, Stageable, Recorded, BatchTexts, EntryOf, RefsOf, Intact, Fits,
         FileAfter;
    var texts := BatchTexts(t.doc, ops);
    var file, after := FileAfter(t.file, quota, texts), Apply(t.doc, ops);
    ResetExact(t.file, quota, texts);
    IntactReads(t.file, quota, texts);
    EntryReads(file, t.doc, ops, RefsOf(t.file, quota, texts));
    RecordedLinks(file, entry, t.doc, ops);
    if Fits(t.file, quota, texts) {
      assert file == t.file + file[|t.file|..];
      var line := if t.torn then undo[1..] else undo;
      PastGrows(t.file, file[|t.file|..], line, t.doc);
      PastPush(file, line, entry, t.doc, after);
      assert t.torn ==> (undo + [entry])[1..] == undo[1..] + [entry];
    } else {
      EmptyLine(file, t.doc);
      PastPush(file, [], entry, t.doc, after);
      assert [] + [entry] == [entry];
    }
  }

  lemma TornEntry(t: Track, quota: nat, ops: seq<Replace>, entry: Entry)
    requires Applicable(t.doc, ops) && !Intact(t.file, quota, BatchTexts(t.doc, ops))
    ensures !Fits(t.file, quota, BatchTexts(t.doc, ops)) && Traced(TrackStep(t, quota, ops), [entry])
  {
    EmptyLine(TrackStep(t, quota, ops).file, Apply(t.doc, ops));
  }

  /** The texts of all batches, which is what recovery may have to remember. */
  function AllTexts(doc: seq<byte>, batches: seq<seq<Replace>>): nat
    decreases |batches|
  {
    if batches == [] then 0
    else
      var before := TrackAll(Track(doc, [], false), 0, batches[..|batches| - 1]).doc;
      AllTexts(doc, batches[..|batches| - 1])
      + (if Applicable(before, batches[|batches| - 1]) then Sum(BatchTexts(before, batches[|batches| - 1])) else 0)
  }

  lemma {:induction false} TrackDocument(t: Track, u: Track, quota: nat, other: nat, batches: seq<seq<Replace>>)
    requires t.doc == u.doc
    ensures TrackAll(t, quota, batches).doc == TrackAll(u, other, batches).doc
    decreases |batches|
  {
    if batches != [] {
      TrackDocument(t, u, quota, other, batches[..|batches| - 1]);
    }
  }

  /** With room for all texts no entry is torn. */
  lemma {:induction false} RoomForAll(t: Track, quota: nat, batches: seq<seq<Replace>>)
    requires |t.file| + AllTexts(t.doc, batches) <= quota && !t.torn
    ensures !TrackAll(t, quota, batches).torn
    ensures |TrackAll(t, quota, batches).file| == |t.file| + AllTexts(t.doc, batches)
    decreases |batches|
  {
    if batches != [] {
      var front, last := batches[..|batches| - 1], batches[|batches| - 1];
      RoomForAll(t, quota, front);
      TrackDocument(t, Track(t.doc, [], false), quota, 0, front);
      var before := TrackAll(t, quota, front);
      if Applicable(before.doc, last) {
        ResetExact(before.file, quota, BatchTexts(before.doc, last));
      }
    }
  }

  /** A torn entry, with a quota of two bytes: one byte takes the place of two. The two removed bytes empty the store
      that held the inserted one, whose reference then reads another byte: redo would insert that. */
  lemma TornRedo()
    ensures var doc, ops := [98, 99], [Replace(0, 2, [97])];
            && Applicable(doc, ops) && Apply(doc, ops) == [97]
            && var texts := BatchTexts(doc, ops);
               && texts == [[97], [98, 99]] && FileAfter([], 2, texts) == [98, 99]
               && TrackStep(Track(doc, [], false), 2, ops).torn
               && var entry := EntryOf(ops, RefsOf([], 2, texts));
                  && Stored([98, 99], entry.forward) && Materialized([98, 99], entry.forward) == [Replace(0, 2, [98])]
  {
    var doc: seq<byte>, ops := [98, 99], [Replace(0, 2, [97])];
    assert ops[..0] == [] && Apply(doc, []) == doc && doc[0..2] == doc;
    ApplySnoc(doc, [], ops[0]);
    assert [] + ops == ops;
    var texts := BatchTexts(doc, ops);
    assert BatchTexts(doc, ops[..0]) == [];
    assert texts == [[97], doc];
    TornEntryOf(doc, ops, texts);
  }

  lemma TornEntryOf(doc: seq<byte>, ops: seq<Replace>, texts: seq<seq<byte>>)
    requires doc == [98, 99] && ops == [Replace(0, 2, [97])] && texts == [[97], doc]
    ensures FileAfter([], 2, texts) == doc && !Intact([], 2, texts) && !Fits([], 2, texts)
    ensures var entry := EntryOf(ops, RefsOf([], 2, texts));
            Stored(doc, entry.forward) && Materialized(doc, entry.forward) == [Replace(0, 2, [98])]
  {
    hide BatchTexts;
    assert ops[..0] == [];
    assert texts[..1] == [[97]] && [[97 as byte]][..0] == [];
    assert FileAfter([], 2, texts[..1]) == [97];
    assert RefsOf([], 2, texts[..1]) == [TextRef(0, 1)];
    var refs := RefsOf([], 2, texts);
    assert refs == [TextRef(0, 1), TextRef(0, 2)];
    assert refs[..0] == [] && EntryOf([], []) == Entry([], []);
    assert EntryOf(ops, refs).forward == [HistoryOperation(0, 2, TextRef(0, 1))];
    assert Text(doc, TextRef(0, 1)) == [98];
    assert Sum(texts[..1]) == 1 && First(texts[..1]) == 1;
  }

  // ---------------------------------------------------------------- the two stacks

  class History {
    var undo: seq<Entry>
    var redo: seq<Entry>
    var store: UndoStore?
    var epoch: nat

    constructor (store: UndoStore?)
      ensures this.store == store && undo == redo == []
    {
      this.store := store;
      undo, redo, epoch := [], [], 0;
    }

    ghost predicate Valid()
      reads this, store
    {
      store != null ==> store.Valid()
    }

    ghost function File(): seq<byte>
      reads this, store
    {
      if store == null then [] else store.file
    }

    /** The quota of the texts, and what is left of it. */
    ghost function TextQuota(): nat
      reads this, store
    {
      if store == null then 0 else store.quota
    }

    ghost function Room(): int
      reads this, store
    {
      TextQuota() - |File()|
    }

    /** The two stacks describe one line of documents, with doc between them. */
    ghost predicate Line(doc: seq<byte>)
      reads this, store
    {
      Past(File(), undo, doc) && Future(File(), redo, doc)
    }

    /** The documents of that line. */
    ghost function Versions(doc: seq<byte>): seq<seq<byte>>
      reads this, store
    {
      Lineage(File(), undo, redo, doc)
    }

    lemma LineGrows(file: seq<byte>, doc: seq<byte>)
      requires Past(file, undo, doc) && Future(file, redo, doc) && file <= File()
      ensures Line(doc) && Versions(doc) == Lineage(file, undo, redo, doc)
    {
      var more := File()[|file|..];
      assert File() == file + more;
      PastGrows(file, more, undo, doc);
      FutureGrows(file, more, redo, doc);
    }

    method AppendText(value: seq<byte>) returns (r: Result<TextRef>)
      requires Valid()
      modifies store
      ensures Valid() && old(File()) <= File()
      ensures r.Success? ==> InStore(File(), r.value) && Text(File(), r.value) == value && File() == old(File()) + value
      ensures r.Success? ==> r.value == if value == [] then TextRef(0, 0) else TextRef(|old(File())|, |value|)
      ensures r == Failure(Quota) ==> File() == old(File())
      ensures r == Failure(Quota) <==> value != [] && |value| > old(Room())
    {
      if |value| == 0 {
        return Success(TextRef(0, 0));
      }
      if store == null {
        return Failure(Quota);
      }
      r := store.Append(value);
    }

    /** historyText: when the quota is exceeded the whole history goes, and the text is kept only if it fits alone. */
    method HistoryText(value: seq<byte>) returns (r: Result<TextRef>)
      requires Valid()
      modifies this`undo, this`redo, this`epoch, store
      ensures Valid() && epoch >= old(epoch) && TextQuota() == old(TextQuota())
      ensures epoch == old(epoch) ==>
                && undo == old(undo) && redo == old(redo) && old(File()) <= File()
                && (r.Success? ==> InStore(File(), r.value) && Text(File(), r.value) == value)
      ensures epoch != old(epoch) ==> undo == redo == []
      ensures epoch != old(epoch) <==> value != [] && |value| > old(Room())
      ensures r.Success? ==>
                var kept := Remember(old(File()), TextQuota(), value);
                File() == kept.file && r.value == kept.ref && (epoch != old(epoch) <==> kept.reset)
    {
      r := AppendText(value);
      if r != Failure(Quota) {
        return;
      }
      undo, redo := [], [];
      epoch := epoch + 1;
      if store != null {
        var reset := store.Reset();
        if reset.Failure? {
          return Failure(reset.error);
        }
      }
      r := AppendText(value);
      if r == Failure(Quota) {
        return Success(TextRef(0, 0));
      }
    }

    /** The history part of applyOperationsLocked: both texts of every operation, and the entry made of them. */
    method RecordBatch(staged: seq<Staged>, ghost doc: seq<byte>, ghost ops: seq<Replace>) returns (r: Result<Entry>)
      requires Valid() && Line(doc) && Utf8.Valid(doc) && ops != [] && StagedAs(doc, ops, staged)
      modifies this`undo, this`redo, this`epoch, store
      ensures Valid() && Line(doc) && epoch >= old(epoch)
      ensures if epoch == old(epoch) then undo == old(undo) && redo == old(redo) else undo == redo == []
      ensures epoch == old(epoch) ==> Versions(doc) == old(Versions(doc))
      ensures r.Success? && epoch == old(epoch) ==> Applicable(doc, ops) && Links(File(), r.value, doc, Apply(doc, ops))
      ensures TextQuota() == old(TextQuota())
      ensures epoch != old(epoch) ==> !FitsBehind(old(File()), TextQuota(), doc, ops)
      ensures r.Success? ==> (epoch == old(epoch) <==> FitsBehind(old(File()), TextQuota(), doc, ops))
    {
      hide Utf8.Valid, RuneLen, Links, Past, Future, Lineage, Stageable, Apply, Applicable, Recorded, StagedAs,
           BatchTexts, Sum, Text, InStore;
      StagedStageable(doc, ops, staged);
      StagedNothing(doc, ops);
      var entry := Entry([], []);
      var i := 0;
      RecordedNothing(File(), doc, ops);
      while i < |staged|
        invariant 0 <= i <= |staged| && Valid() && Line(doc) && epoch >= old(epoch)
        invariant epoch == old(epoch) ==> undo == old(undo) && redo == old(redo) && Recorded(File(), entry, doc, ops, i)
        invariant epoch == old(epoch) ==> Versions(doc) == old(Versions(doc))
        invariant epoch != old(epoch) ==> undo == redo == []
        invariant TextQuota() == old(TextQuota()) && Applicable(doc, ops[..i])
        invariant if epoch == old(epoch)
                  then RecordedBehind(old(File()), doc, ops[..i])
                  else !FitsBehind(old(File()), TextQuota(), doc, ops)
      {
        var cancelled: bool := *;
        if cancelled {
          return Failure(Cancelled);
        }
        RecordedBytes(doc, ops, staged, i);
        ghost var file := File();
        var forward := Record(staged[i].operation.insert, doc);
        if forward.Failure? {
          return Failure(forward.error);
        }
        ghost var middle := File();
        var inverse := Record(staged[i].deleted, doc);
        if inverse.Failure? {
          return Failure(inverse.error);
        }
        if epoch == old(epoch) {
          StagedAt(doc, ops, staged, i);
          TextKept(middle, File(), forward.value);
          RecordedStep(file, File(), entry, doc, ops, i, staged[i].deleted, forward.value, inverse.value);
        }
        entry := Entry(entry.forward
                       + [HistoryOperation(staged[i].operation.start, staged[i].operation.deleteLength, forward.value)],
                       [HistoryOperation(staged[i].operation.start, |staged[i].operation.insert|, inverse.value)]
                           + entry.inverse);
        i := i + 1;
      }
      assert ops[..i] == ops;
      if epoch == old(epoch) {
        RecordedLinks(File(), entry, doc, ops);
      }
      return Success(entry);
    }

    /** The texts of some operations have gone behind what the store held, and fit there. */
    ghost predicate RecordedBehind(before: seq<byte>, doc: seq<byte>, ops: seq<Replace>)
      requires Applicable(doc, ops)
      reads this, store
    {
      |File()| == |before| + Sum(BatchTexts(doc, ops)) && Fits(before, TextQuota(), BatchTexts(doc, ops))
    }

    /** One text on behalf of a batch: the line of documents survives, or the history is gone. */
    method Record(value: seq<byte>, ghost doc: seq<byte>) returns (r: Result<TextRef>)
      requires Valid() && Line(doc)
      modifies this`undo, this`redo, this`epoch, store
      ensures Valid() && Line(doc) && epoch >= old(epoch)
      ensures epoch == old(epoch) ==>
                && Versions(doc) == old(Versions(doc))
                && undo == old(undo) && redo == old(redo) && old(File()) <= File()
                && (r.Success? ==> InStore(File(), r.value) && Text(File(), r.value) == value)
      ensures epoch != old(epoch) ==> undo == redo == []
      ensures TextQuota() == old(TextQuota()) && (epoch != old(epoch) <==> value != [] && |value| > old(Room()))
      ensures r.Success? && epoch == old(epoch) ==> |File()| == |old(File())| + |value|
    {
      ghost var file := File();
      r := HistoryText(value);
      if epoch == old(epoch) {
        LineGrows(file, doc);
      }
    }

    /** Publication of a recorded batch: a new step of the past, and no future any more. */
    method Push(entry: Entry, ghost before: seq<byte>, ghost after: seq<byte>)
      requires Valid() && Line(before) && Links(File(), entry, before, after)
      modifies this`undo, this`redo
      ensures Valid() && Line(after) && undo == old(undo) + [entry] && redo == []
      ensures Versions(after) == old(Versions(before))[..|old(undo)| + 1] + [after]
    {
      PastPush(File(), undo, entry, before, after);
      undo := undo + [entry];
      redo := [];
    }

    /** materializeHistory: the operations of an entry with their texts read back. */
    method Materialize(ops: seq<HistoryOperation>) returns (r: Result<seq<Replace>>)
      requires Valid() && Stored(File(), ops)
      ensures r.Success? ==> r.value == Materialized(File(), ops)
    {
      var result: seq<Replace> := [];
      var i := 0;
      while i < |ops|
        invariant 0 <= i <= |ops| == |result| + (|ops| - i)
        invariant forall k :: 0 <= k < i ==> result[k] == Materialized(File(), ops)[k]
      {
        var cancelled: bool := *;
        if cancelled {
          return Failure(Cancelled);
        }
        var insert: seq<byte> := [];
        if ops[i].insert.length > 0 {
          if store == null {
            return Failure(Quota);
          }
          var read := store.Read(ops[i].insert);
          if read.Failure? {
            return Failure(read.error);
          }
          insert := read.value;
        }
        result := result + [Replace(ops[i].start, ops[i].deleteLength, insert)];
        i := i + 1;
      }
      return Success(result);
    }

    /** The history part of Compact: the store is rewritten and both stacks follow it, or nothing changes. Every entry
        still reads as the same operations, and the documents of the line stay. */
    method CompactStore(ghost doc: seq<byte>) returns (r: Result<()>)
      requires Valid() && Line(doc)
      modifies this`undo, this`redo, store
      ensures Valid() && Line(doc) && Versions(doc) == old(Versions(doc)) && epoch == old(epoch)
      ensures SameOperations(old(File()), old(undo), File(), undo)
              && SameOperations(old(File()), old(redo), File(), redo)
      ensures r.Failure? ==> undo == old(undo) && redo == old(redo) && File() == old(File())
    {
      hide Past, Future, Links, SameEntry;
      var past := CollectRefs([], undo);
      var refs := CollectRefs(past, redo);
      ListsMore(past, refs, undo);
      PastStored(File(), undo, doc);
      FutureStored(File(), redo, doc);
      if store == null {
        return Success(());
      }
      ghost var before := File();
      var mapping := store.Rewrite(refs);
      if mapping.Failure? {
        return Failure(mapping.error);
      }
      ListedMove(refs, undo, before, File(), mapping.value);
      ListedMove(refs, redo, before, File(), mapping.value);
      RemapPast(before, File(), mapping.value, undo, doc);
      RemapFuture(before, File(), mapping.value, redo, doc);
      undo := RemapStack(undo, mapping.value, before, File());
      redo := RemapStack(redo, mapping.value, before, File());
      return Success(());
    }
  }
}
