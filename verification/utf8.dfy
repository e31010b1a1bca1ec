/** UTF-8 as decoded by the engine (sections 3 and 4 of RFC 3629): single runes, whole texts,
    and the self-synchronisation that lets an edit test only the bytes at its two ends. */
module Utf8 {
  import opened Documents

  /** A continuation byte: never the start of a rune. */
  predicate Cont(b: byte) {
    0x80 <= b < 0xC0
  }

  /** Length announced by a first byte; 0 when no rune starts with it. */
  function Need(b: byte): nat {
    if b < 0x80 then 1
    else if 0xC2 <= b < 0xE0 then 2
    else if 0xE0 <= b < 0xF0 then 3
    else if 0xF0 <= b < 0xF5 then 4
    else 0
  }

  /** The second byte is narrower after E0, ED, F0 and F4: no overlong forms, no surrogates, no rune above U+10FFFF. */
  predicate SecondOk(first: byte, second: byte) {
    (if first == 0xE0 then 0xA0 else if first == 0xF0 then 0x90 else 0x80) <= second <=
    (if first == 0xED then 0x9F else if first == 0xF4 then 0x8F else 0xBF)
  }

  /** Length of the well-formed rune at the start of s; 0 when there is none. DecodeRune
      reports an error (RuneError of size 1) exactly where this is 0. */
  function RuneLen(s: seq<byte>): (n: nat)
    ensures n <= |s| && n <= 4
  {
    if s == [] then 0 else
      var n := Need(s[0]);
      if n == 0 || |s| < n || (n >= 2 && !SecondOk(s[0], s[1])) || (n >= 3 && !Cont(s[2])) || (n == 4 && !Cont(s[3]))
      then 0 else n
  }

  /** Enough bytes to decode the first rune, or to know that it is invalid. */
  predicate FullRune(s: seq<byte>) {
    s != [] &&
    (var n := Need(s[0]);
     n == 0 || |s| >= n || (|s| > 1 && !SecondOk(s[0], s[1])) || (|s| > 2 && !Cont(s[2])))
  }

  predicate Valid(s: seq<byte>)
    decreases |s|
  {
    s == [] || (RuneLen(s) > 0 && Valid(s[RuneLen(s)..]))
  }

  lemma RuneLenFacts(s: seq<byte>)
    ensures RuneLen(s) > 0 ==> FullRune(s) && !Cont(s[0]) && forall i :: 1 <= i < RuneLen(s) ==> Cont(s[i])
    ensures s != [] && !FullRune(s) ==> RuneLen(s) == 0 && |s| < Need(s[0]) <= 4
  {
  }

  /** Bytes after a full rune do not change how it decodes. */
  lemma RuneLenExtend(s: seq<byte>, t: seq<byte>)
    ensures RuneLen(s) > 0 ==> RuneLen(s + t) == RuneLen(s)
    ensures FullRune(s) ==> RuneLen(s + t) == RuneLen(s) && FullRune(s + t)
  {
    if s != [] {
      assert (s + t)[0] == s[0];
      if |s| > 1 { assert (s + t)[1] == s[1]; }
      if |s| > 2 { assert (s + t)[2] == s[2]; }
      if |s| > 3 { assert (s + t)[3] == s[3]; }
    }
  }

  lemma WholeRuneValid(s: seq<byte>, n: nat)
    requires n == RuneLen(s) && n > 0
    ensures RuneLen(s[..n]) == n && Valid(s[..n])
  {
    assert s[..n][0] == s[0];
    if n > 1 { assert s[..n][1] == s[1]; }
    if n > 2 { assert s[..n][2] == s[2]; }
    if n > 3 { assert s[..n][3] == s[3]; }
    assert s[..n][n..] == [];
  }

  /** After a valid text, validity is that of the rest. */
  lemma {:induction false} ValidConcat(a: seq<byte>, b: seq<byte>)
    requires Valid(a)
    ensures Valid(a + b) <==> Valid(b)
    decreases |a|
  {
    if a == [] {
      assert a + b == b;
    } else {
      var n := RuneLen(a);
      RuneLenExtend(a, b);
      ValidConcat(a[n..], b);
      assert (a + b)[n..] == a[n..] + b;
    }
  }

  /** An offset of the text where no continuation byte stands: the test done on both ends of an edit. */
  predicate RuneStart(s: seq<byte>, p: int)
    requires 0 <= p <= |s|
  {
    p == 0 || p == |s| || !Cont(s[p])
  }

  /** One whole rune off the front of a text, and the same off any prefix that holds it. */
  lemma PeelRune(s: seq<byte>, p: nat)
    requires RuneLen(s) > 0 && RuneLen(s) <= p <= |s|
    ensures RuneLen(s[..p]) == RuneLen(s)
    ensures s[..p][RuneLen(s)..] == s[RuneLen(s)..][..p - RuneLen(s)]
    ensures s[p..] == s[RuneLen(s)..][p - RuneLen(s)..]
  {
    var n := RuneLen(s);
    WholeRuneValid(s, n);
    RuneLenExtend(s[..n], s[n..p]);
    assert s[..n] + s[n..p] == s[..p];
    assert s[..p][n..] == s[n..p] == s[n..][..p - n];
    assert s[p..] == s[n..][p - n..];
  }

  /** Self-synchronisation: looking at one byte decides whether an offset of a valid text is a
      rune boundary, and cutting there leaves two valid texts. */
  lemma {:induction false} SelfSynchronizing(s: seq<byte>, p: nat)
    requires Valid(s) && p <= |s|
    ensures RuneStart(s, p) <==> Valid(s[..p])
    ensures RuneStart(s, p) ==> Valid(s[p..])
    decreases |s|
  {
    if p == 0 {
      assert s[p..] == s;
    } else {
      var n := RuneLen(s);
      RuneLenFacts(s);
      if p < n {
        assert !Valid(s[..p]);
      } else {
        PeelRune(s, p);
        SelfSynchronizing(s[n..], p - n);
        if p < |s| {
          assert s[p] == s[n..][p - n];
          RuneLenFacts(s[n..]);
        }
      }
    }
  }

  /** A valid text never starts with a continuation byte. */
  lemma ValidStarts(s: seq<byte>)
    requires Valid(s)
    ensures s != [] ==> !Cont(s[0])
  {
    RuneLenFacts(s);
  }

  /** validateUTF8ReplacementBoundaries: a start byte, or an end of the text, at both ends of the replaced range. */
  predicate BoundaryTest(doc: seq<byte>, start: nat, deleteLength: nat)
    requires start + deleteLength <= |doc|
  {
    RuneStart(doc, start) && (deleteLength > 0 ==> RuneStart(doc, start + deleteLength))
  }

  /** The test keeps the document valid, and its removed text is valid too. */
  lemma SpliceKeepsValid(doc: seq<byte>, start: nat, deleteLength: nat, insert: seq<byte>)
    requires Valid(doc) && Valid(insert) && start + deleteLength <= |doc|
    requires BoundaryTest(doc, start, deleteLength)
    ensures Valid(Splice(doc, start, deleteLength, insert))
    ensures Valid(doc[start..start + deleteLength])
  {
    hide Valid, RuneLen;
    var end := start + deleteLength;
    SelfSynchronizing(doc, start);
    SelfSynchronizing(doc, end);
    ValidConcat(doc[..start], insert);
    ValidConcat(doc[..start] + insert, doc[end..]);
    assert doc[..end] == doc[..start] + doc[start..end];
    ValidConcat(doc[..start], doc[start..end]);
  }

  /** The test refuses no edit that cuts only at rune boundaries. */
  lemma BoundaryTestExact(doc: seq<byte>, start: nat, deleteLength: nat)
    requires Valid(doc) && start + deleteLength <= |doc|
    ensures BoundaryTest(doc, start, deleteLength) <==>
              Valid(doc[..start]) && Valid(doc[start..start + deleteLength]) && Valid(doc[start + deleteLength..])
  {
    hide Valid, RuneLen;
    var end := start + deleteLength;
    SelfSynchronizing(doc, start);
    SelfSynchronizing(doc, end);
    assert doc[..end] == doc[..start] + doc[start..end];
    if Valid(doc[..start]) {
      ValidConcat(doc[..start], doc[start..end]);
    }
    if deleteLength == 0 {
      assert doc[start..end] == [];
    }
  }

  /** Every operation passes the staging checks in the state it meets. */
  predicate Accepted(doc: seq<byte>, ops: seq<Replace>)
    requires Applicable(doc, ops)
    decreases |ops|
  {
    ops == [] ||
    (var last := |ops| - 1;
     Accepted(doc, ops[..last]) && Valid(ops[last].insert) &&
     BoundaryTest(Apply(doc, ops[..last]), ops[last].start, ops[last].deleteLength))
  }

  /** Accepted batches take valid documents to valid documents. */
  lemma {:induction false} AcceptedKeepsValid(doc: seq<byte>, ops: seq<Replace>)
    requires Valid(doc) && Applicable(doc, ops) && Accepted(doc, ops)
    ensures Valid(Apply(doc, ops))
    decreases |ops|
  {
    if ops != [] {
      var last := |ops| - 1;
      AcceptedKeepsValid(doc, ops[..last]);
      SpliceKeepsValid(Apply(doc, ops[..last]), ops[last].start, ops[last].deleteLength, ops[last].insert);
    }
  }

  lemma {:induction false} AcceptedConcat(doc: seq<byte>, a: seq<Replace>, b: seq<Replace>)
    requires Applicable(doc, a) && Applicable(Apply(doc, a), b)
    ensures Applicable(doc, a + b)
    ensures Accepted(doc, a + b) <==> Accepted(doc, a) && Accepted(Apply(doc, a), b)
    decreases |b|
  {
    ApplyConcat(doc, a, b);
    if b == [] {
      assert a + b == a;
    } else {
      var last := |b| - 1;
      ApplicablePrefix(Apply(doc, a), b, last);
      AcceptedConcat(doc, a, b[..last]);
      ApplyConcat(doc, a, b[..last]);
      assert (a + b)[..|a + b| - 1] == a + b[..last];
      assert (a + b)[|a + b| - 1] == b[last];
    }
  }

  lemma InverseOneAccepted(doc: seq<byte>, op: Replace)
    requires Valid(doc) && Valid(op.insert) && InRange(|doc|, op.start, op.deleteLength)
    requires BoundaryTest(doc, op.start, op.deleteLength)
    ensures var after := ApplyOne(doc, op);
            var undo := InverseOne(doc, op);
            Valid(after) && Valid(undo.insert) && BoundaryTest(after, undo.start, undo.deleteLength)
  {
    hide Valid, RuneLen, BoundaryTest;
    var after := ApplyOne(doc, op);
    SpliceKeepsValid(doc, op.start, op.deleteLength, op.insert);
    assert after[..op.start] == doc[..op.start];
    assert after[op.start..op.start + |op.insert|] == op.insert;
    assert after[op.start + |op.insert|..] == doc[op.start + op.deleteLength..];
    BoundaryTestExact(doc, op.start, op.deleteLength);
    BoundaryTestExact(after, op.start, |op.insert|);
  }

  lemma AcceptedSingle(doc: seq<byte>, op: Replace)
    requires InRange(|doc|, op.start, op.deleteLength)
    ensures Applicable(doc, [op]) && Apply(doc, [op]) == ApplyOne(doc, op)
    ensures Accepted(doc, [op]) <==> Valid(op.insert) && BoundaryTest(doc, op.start, op.deleteLength)
  {
    ApplySnoc(doc, [], op);
    assert [] + [op] == [op] && [op][..0] == [];
  }

  /** The inverse of an accepted batch is accepted: undo never fails the boundary test, at any intermediate state. */
  lemma {:induction false} InverseAccepted(doc: seq<byte>, ops: seq<Replace>)
    requires Valid(doc) && Applicable(doc, ops) && Accepted(doc, ops)
    ensures Applicable(Apply(doc, ops), Inverse(doc, ops))
    ensures Accepted(Apply(doc, ops), Inverse(doc, ops))
    decreases |ops|
  {
    if ops != [] {
      var last := |ops| - 1;
      var middle := Apply(doc, ops[..last]);
      var after := Apply(doc, ops);
      var undo := InverseOne(middle, ops[last]);
      InverseAccepted(doc, ops[..last]);
      AcceptedKeepsValid(doc, ops[..last]);
      InverseOneAccepted(middle, ops[last]);
      InverseOneUndoes(middle, ops[last]);
      AcceptedSingle(after, undo);
      AcceptedConcat(after, [undo], Inverse(doc, ops[..last]));
    }
  }

  // ---------------------------------------------------------------- coordinates of a rune

  /** Runes of a text, counted without decoding: the bytes that are not continuation bytes. */
  function RuneCount(s: seq<byte>): (n: nat)
    ensures n <= |s|
    decreases |s|
  {
    if s == [] then 0 else RuneCount(s[..|s| - 1]) + (if Cont(s[|s| - 1]) then 0 else 1)
  }

  lemma {:induction false} RuneCountConcat(a: seq<byte>, b: seq<byte>)
    ensures RuneCount(a + b) == RuneCount(a) + RuneCount(b)
    decreases |b|
  {
    if b == [] {
      assert a + b == a;
    } else {
      RuneCountConcat(a, b[..|b| - 1]);
      assert (a + b)[..|a + b| - 1] == a + b[..|b| - 1];
    }
  }

  /** One rune is one rune, and one line break when it is LF. */
  lemma OneRune(s: seq<byte>)
    requires |s| > 0 && RuneLen(s) == |s|
    ensures RuneCount(s) == 1
    ensures s[0] != LF ==> CountLF(s) == 0
    ensures s[0] == LF ==> |s| == 1 && CountLF(s) == 1
    ensures s[|s| - 1] == LF <==> s[0] == LF
  {
    RuneLenFacts(s);
    var a := s[..1];
    assert a == [s[0]] && a[..0] == [];
    assert RuneCount(a) == 1;
    if |s| >= 2 {
      assert s[..2][..1] == a && RuneCount(s[..2]) == 1 && CountLF(s[..2]) == CountLF(a);
    }
    if |s| >= 3 {
      assert s[..3][..2] == s[..2] && RuneCount(s[..3]) == 1 && CountLF(s[..3]) == CountLF(a);
    }
    if |s| >= 4 {
      assert s[..4][..3] == s[..3] && RuneCount(s[..4]) == 1 && CountLF(s[..4]) == CountLF(a);
    }
    assert s[..|s|] == s;
  }
}
