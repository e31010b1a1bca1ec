/** The one simple thing that every fast structure of the engine must agree with:
    a document is a byte string, and an edit replaces one range of it. */
module Documents {

  type byte = b: int | 0 <= b < 256

  const LF: byte := 10
  const CR: byte := 13
  const MAX_INT64: int := 0x7FFF_FFFF_FFFF_FFFF
  const MAX_UINT64: int := 0xFFFF_FFFF_FFFF_FFFF

  function Min(a: int, b: int): int {
    if a < b then a else b
  }

  function Max(a: int, b: int): int {
    if a < b then b else a
  }

  /** Replaces deleteLength elements at start by insert. */
  function Splice<T>(doc: seq<T>, start: nat, deleteLength: nat, insert: seq<T>): (r: seq<T>)
    requires start + deleteLength <= |doc|
    ensures |r| == |doc| - deleteLength + |insert|
  {
    doc[..start] + insert + doc[start + deleteLength..]
  }

  /** One edit. Its coordinates belong to the state produced by all the edits before it. */
  datatype Replace = Replace(start: int, deleteLength: int, insert: seq<byte>)

  /** The range check that staging, the tree and ChangeMap construction share. */
  predicate InRange(length: int, start: int, deleteLength: int) {
    start >= 0 && deleteLength >= 0 && start <= length && deleteLength <= length - start
  }

  function ApplyOne(doc: seq<byte>, op: Replace): (r: seq<byte>)
    requires InRange(|doc|, op.start, op.deleteLength)
    ensures |r| == |doc| - op.deleteLength + |op.insert|
  {
    Splice(doc, op.start, op.deleteLength, op.insert)
  }

  /** Every operation is in range of the state it meets. */
  predicate Applicable(doc: seq<byte>, ops: seq<Replace>)
    decreases |ops|, 0
  {
    ops == [] ||
    (var last := |ops| - 1;
     Applicable(doc, ops[..last]) &&
     InRange(|Apply(doc, ops[..last])|, ops[last].start, ops[last].deleteLength))
  }

  /** The document after all operations, in order. */
  function Apply(doc: seq<byte>, ops: seq<Replace>): seq<byte>
    requires Applicable(doc, ops)
    decreases |ops|, 1
  {
    if ops == [] then doc else
      var last := |ops| - 1;
      ApplyOne(Apply(doc, ops[..last]), ops[last])
  }

  lemma ApplySnoc(doc: seq<byte>, ops: seq<Replace>, op: Replace)
    requires Applicable(doc, ops)
    requires InRange(|Apply(doc, ops)|, op.start, op.deleteLength)
    ensures Applicable(doc, ops + [op])
    ensures Apply(doc, ops + [op]) == ApplyOne(Apply(doc, ops), op)
  {
    assert (ops + [op])[..|ops|] == ops;
  }

  lemma ApplicablePrefix(doc: seq<byte>, ops: seq<Replace>, n: nat)
    requires Applicable(doc, ops) && n <= |ops|
    ensures Applicable(doc, ops[..n])
    decreases |ops|
  {
    if n == |ops| {
      assert ops[..n] == ops;
    } else {
      var last := |ops| - 1;
      ApplicablePrefix(doc, ops[..last], n);
      assert ops[..last][..n] == ops[..n];
    }
  }

  /** Sequential edits compose: applying a list is applying its two halves. */
  lemma {:induction false} ApplyConcat(doc: seq<byte>, a: seq<Replace>, b: seq<Replace>)
    ensures Applicable(doc, a + b) <==> Applicable(doc, a) && Applicable(Apply(doc, a), b)
    ensures Applicable(doc, a + b) ==> Apply(doc, a + b) == Apply(Apply(doc, a), b)
    decreases |b|
  {
    if b == [] {
      assert a + b == a;
    } else {
      var last := |b| - 1;
      ApplyConcat(doc, a, b[..last]);
      assert (a + b)[..|a + b| - 1] == a + b[..last];
      assert (a + b)[|a + b| - 1] == b[last];
    }
  }

  /** The operation that puts back what op removed from doc. */
  function InverseOne(doc: seq<byte>, op: Replace): Replace
    requires InRange(|doc|, op.start, op.deleteLength)
  {
    Replace(op.start, |op.insert|, doc[op.start..op.start + op.deleteLength])
  }

  /** The inverse transaction: inverse operations in reverse order. */
  function Inverse(doc: seq<byte>, ops: seq<Replace>): (r: seq<Replace>)
    requires Applicable(doc, ops)
    ensures |r| == |ops|
    decreases |ops|
  {
    if ops == [] then [] else
      var last := |ops| - 1;
      [InverseOne(Apply(doc, ops[..last]), ops[last])] + Inverse(doc, ops[..last])
  }

  lemma InverseOneUndoes(doc: seq<byte>, op: Replace)
    requires InRange(|doc|, op.start, op.deleteLength)
    ensures var after := ApplyOne(doc, op);
            var inverse := InverseOne(doc, op);
            InRange(|after|, inverse.start, inverse.deleteLength) && ApplyOne(after, inverse) == doc
  {
  }

  /** Round trip: the inverse transaction takes the new document back to the old one. */
  lemma {:induction false} InverseUndoes(doc: seq<byte>, ops: seq<Replace>)
    requires Applicable(doc, ops)
    ensures Applicable(Apply(doc, ops), Inverse(doc, ops))
    ensures Apply(Apply(doc, ops), Inverse(doc, ops)) == doc
    decreases |ops|
  {
    if ops != [] {
      var last := |ops| - 1;
      var middle := Apply(doc, ops[..last]);
      var after := Apply(doc, ops);
      var undo := [InverseOne(middle, ops[last])];
      InverseOneUndoes(middle, ops[last]);
      ApplySnoc(after, [], undo[0]);
      assert [] + undo == undo;
      InverseUndoes(doc, ops[..last]);
      ApplyConcat(after, undo, Inverse(doc, ops[..last]));
    }
  }

  /** Number of LF bytes. */
  function CountLF(s: seq<byte>): (n: nat)
    ensures n <= |s|
    decreases |s|
  {
    if s == [] then 0 else CountLF(s[..|s| - 1]) + (if s[|s| - 1] == LF then 1 else 0)
  }

  lemma {:induction false} CountLFConcat(a: seq<byte>, b: seq<byte>)
    ensures CountLF(a + b) == CountLF(a) + CountLF(b)
    decreases |b|
  {
    if b == [] {
      assert a + b == a;
    } else {
      CountLFConcat(a, b[..|b| - 1]);
      assert (a + b)[..|a + b| - 1] == a + b[..|b| - 1];
    }
  }
}
