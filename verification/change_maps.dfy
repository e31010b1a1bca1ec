/** Change maps of document/coordinate: the shape of a sequence of edits, what it does to
    positions, and the parts of the document it provably leaves alone. */
module ChangeMaps {
  import opened Documents

  const MAXIMUM_EDITS := 0x10_0000
  const MAXIMUM_TRANSFORM_STEPS := 0x100_0000

  datatype Error =
    InvalidChange | TooComplex | InvalidAffinity | InvalidOffset | InvalidRange | InvertedRange |
    RevisionMismatch | LengthMismatch

  datatype Result<+T> = Success(value: T) | Failure(error: Error)

  datatype Edit = Edit(start: int, oldLength: int, newLength: int)

  datatype ChangeMap = ChangeMap(beforeRevision: nat, afterRevision: nat,
                                 beforeLength: int, afterLength: int, edits: seq<Edit>)

  // ---------------------------------------------------------------- valid edit lists

  /** One edit of a document of the given length: in range, and the result still has an int64 length. */
  predicate ValidEdit(length: int, e: Edit) {
    e.start >= 0 && e.oldLength >= 0 && e.newLength >= 0 &&
    e.start <= length && e.oldLength <= length - e.start &&
    e.newLength <= MAX_INT64 - (length - e.oldLength)
  }

  function LengthAfter(length: int, edits: seq<Edit>): int
    decreases |edits|
  {
    if edits == [] then length else
      var e := edits[|edits| - 1];
      LengthAfter(length, edits[..|edits| - 1]) - e.oldLength + e.newLength
  }

  predicate ValidEdits(length: int, edits: seq<Edit>)
    decreases |edits|
  {
    edits == [] ||
    (ValidEdits(length, edits[..|edits| - 1]) &&
     ValidEdit(LengthAfter(length, edits[..|edits| - 1]), edits[|edits| - 1]))
  }

  predicate ValidMap(m: ChangeMap) {
    && m.beforeLength >= 0
    && ValidEdits(m.beforeLength, m.edits)
    && m.afterLength == LengthAfter(m.beforeLength, m.edits)
  }

  lemma {:induction false} LengthNonNegative(length: int, edits: seq<Edit>)
    requires length >= 0 && ValidEdits(length, edits)
    ensures LengthAfter(length, edits) >= 0
    decreases |edits|
  {
    if edits != [] {
      LengthNonNegative(length, edits[..|edits| - 1]);
    }
  }

  lemma {:induction false} ValidPrefix(length: int, edits: seq<Edit>, n: nat)
    requires ValidEdits(length, edits) && n <= |edits|
    ensures ValidEdits(length, edits[..n])
    decreases |edits|
  {
    if n == |edits| {
      assert edits[..n] == edits;
    } else {
      ValidPrefix(length, edits[..|edits| - 1], n);
      assert edits[..|edits| - 1][..n] == edits[..n];
    }
  }

  lemma {:induction false} EditsConcat(length: int, a: seq<Edit>, b: seq<Edit>)
    ensures LengthAfter(length, a + b) == LengthAfter(LengthAfter(length, a), b)
    ensures ValidEdits(length, a + b) <==> ValidEdits(length, a) && ValidEdits(LengthAfter(length, a), b)
    decreases |b|
  {
    if b == [] {
      assert a + b == a;
    } else {
      EditsConcat(length, a, b[..|b| - 1]);
      assert (a + b)[..|a + b| - 1] == a + b[..|b| - 1];
    }
  }

  method NewChangeMap(beforeRevision: nat, afterRevision: nat, beforeLength: int, edits: seq<Edit>)
    returns (r: Result<ChangeMap>)
    ensures r.Success? <==>
              beforeLength >= 0 && (edits == [] ==> beforeRevision == afterRevision) &&
              |edits| <= MAXIMUM_EDITS && ValidEdits(beforeLength, edits)
    ensures r.Success? ==>
              ValidMap(r.value) &&
              r.value == ChangeMap(beforeRevision, afterRevision, beforeLength, LengthAfter(beforeLength, edits), edits)
    ensures r == Failure(TooComplex) ==> |edits| > MAXIMUM_EDITS
  {
    if beforeLength < 0 || (|edits| == 0 && beforeRevision != afterRevision) {
      return Failure(InvalidChange);
    }
    if |edits| > MAXIMUM_EDITS {
      return Failure(TooComplex);
    }
    var length := beforeLength;
    var i := 0;
    while i < |edits|
      invariant 0 <= i <= |edits|
      invariant ValidEdits(beforeLength, edits[..i]) && length == LengthAfter(beforeLength, edits[..i])
    {
      var e := edits[i];
      assert edits[..i + 1][..i] == edits[..i];
      if e.start < 0 || e.oldLength < 0 || e.newLength < 0 || e.start > length || e.oldLength > length - e.start
         || e.newLength > MAX_INT64 - (length - e.oldLength)
      {
        if ValidEdits(beforeLength, edits) {
          ValidPrefix(beforeLength, edits, i + 1);
        }
        return Failure(InvalidChange);
      }
      length := length - e.oldLength + e.newLength;
      i := i + 1;
    }
    assert edits[..i] == edits;
    r := Success(ChangeMap(beforeRevision, afterRevision, beforeLength, length, edits));
  }

  // ---------------------------------------------------------------- maps of real edits

  function ShapeOf(op: Replace): Edit {
    Edit(op.start, op.deleteLength, |op.insert|)
  }

  function Shapes(ops: seq<Replace>): (r: seq<Edit>)
    ensures |r| == |ops|
    decreases |ops|
  {
    if ops == [] then [] else Shapes(ops[..|ops| - 1]) + [ShapeOf(ops[|ops| - 1])]
  }

  /** The edits of m take before to after. */
  ghost predicate Describes(m: ChangeMap, before: seq<byte>, after: seq<byte>) {
    |before| == m.beforeLength && |after| == m.afterLength &&
    exists ops :: Shapes(ops) == m.edits && Applicable(before, ops) && Apply(before, ops) == after
  }

  lemma {:induction false} ShapesLength(doc: seq<byte>, ops: seq<Replace>)
    requires Applicable(doc, ops)
    ensures |Apply(doc, ops)| == LengthAfter(|doc|, Shapes(ops))
    decreases |ops|
  {
    if ops != [] {
      ShapesLength(doc, ops[..|ops| - 1]);
      assert Shapes(ops)[..|ops| - 1] == Shapes(ops[..|ops| - 1]);
    }
  }

  lemma {:induction false} ShapesConcat(a: seq<Replace>, b: seq<Replace>)
    ensures Shapes(a + b) == Shapes(a) + Shapes(b)
    decreases |b|
  {
    if b == [] {
      assert a + b == a;
    } else {
      ShapesConcat(a, b[..|b| - 1]);
      assert (a + b)[..|a + b| - 1] == a + b[..|b| - 1];
    }
  }

  // ---------------------------------------------------------------- untouched prefix and suffix

  /** The smallest edit start, at most length. */
  function StablePrefix(length: int, edits: seq<Edit>): int
    decreases |edits|
  {
    if edits == [] then length else
      Min(edits[|edits| - 1].start, StablePrefix(length, edits[..|edits| - 1]))
  }

  datatype Seam = Seam(before: int, after: int)

  /** One step of stableSuffix: the seam after one more edit. */
  function SeamStep(s: Seam, e: Edit): Seam {
    var end := e.start + e.oldLength;
    if end <= s.after then Seam(s.before, s.after + e.newLength - e.oldLength)
    else Seam(s.before + end - s.after, e.start + e.newLength)
  }

  function SeamAfter(edits: seq<Edit>): Seam
    decreases |edits|
  {
    if edits == [] then Seam(0, 0) else SeamStep(SeamAfter(edits[..|edits| - 1]), edits[|edits| - 1])
  }

  /** The seam lies inside both documents, leaves suffixes of equal length, and does not precede the stable prefix. */
  lemma {:induction false} SeamBounds(length: int, edits: seq<Edit>)
    requires length >= 0 && ValidEdits(length, edits)
    ensures var s := SeamAfter(edits);
            0 <= s.before <= length && 0 <= s.after <= LengthAfter(length, edits) &&
            length - s.before == LengthAfter(length, edits) - s.after
    ensures edits != [] ==> StablePrefix(length, edits) <= SeamAfter(edits).after
    ensures 0 <= StablePrefix(length, edits) <= length
    decreases |edits|
  {
    if edits != [] {
      SeamBounds(length, edits[..|edits| - 1]);
    }
  }

  /** Edit k ends at or before an offset of the original text, carried into the text that the edit meets. */
  predicate EndsBefore(length: int, edits: seq<Edit>, k: nat, b: int)
    requires k < |edits|
  {
    edits[k].start + edits[k].oldLength <= b + LengthAfter(length, edits[..k]) - length
  }

  /** No more is given up than must be: the kept suffix begins at the least offset before which every edit ends. */
  lemma {:induction false} SeamTight(length: int, edits: seq<Edit>, b: int)
    requires length >= 0 && ValidEdits(length, edits) && 0 <= b
    ensures b >= SeamAfter(edits).before <==> forall k :: 0 <= k < |edits| ==> EndsBefore(length, edits, k, b)
    decreases |edits|
  {
    if edits != [] {
      hide LengthAfter;
      var n := |edits| - 1;
      var front := edits[..n];
      SeamTight(length, front, b);
      SeamBounds(length, front);
      forall k | 0 <= k < n
        ensures EndsBefore(length, front, k, b) <==> EndsBefore(length, edits, k, b)
      {
        assert front[..k] == edits[..k];
      }
      assert SeamAfter(edits) == SeamStep(SeamAfter(front), edits[n]);
      assert b >= SeamAfter(edits).before <==> b >= SeamAfter(front).before && EndsBefore(length, edits, n, b);
    }
  }

  /** The kept prefix reaches to the first edit. */
  lemma {:induction false} PrefixTight(length: int, edits: seq<Edit>, b: int)
    ensures b <= StablePrefix(length, edits) <==> b <= length && forall k :: 0 <= k < |edits| ==> b <= edits[k].start
    decreases |edits|
  {
    if edits != [] {
      PrefixTight(length, edits[..|edits| - 1], b);
    }
  }

  /** stableSuffix never fails on a valid map. */
  method StableSuffix(m: ChangeMap) returns (oldStart: int, newStart: int, ok: bool)
    requires ValidMap(m)
    ensures ok && Seam(oldStart, newStart) == SeamAfter(m.edits)
    ensures m.beforeLength - oldStart == m.afterLength - newStart >= 0
  {
    oldStart, newStart := 0, 0;
    var length := m.beforeLength;
    var i := 0;
    while i < |m.edits|
      invariant 0 <= i <= |m.edits|
      invariant Seam(oldStart, newStart) == SeamAfter(m.edits[..i])
      invariant length == LengthAfter(m.beforeLength, m.edits[..i])
    {
      var e := m.edits[i];
      assert m.edits[..i + 1][..i] == m.edits[..i];
      ValidPrefix(m.beforeLength, m.edits, i + 1);
      if e.start < 0 || e.oldLength < 0 || e.newLength < 0 || e.start > length || e.oldLength > length - e.start {
        return 0, 0, false;
      }
      var end := e.start + e.oldLength;
      if end <= newStart {
        newStart := newStart + (e.newLength - e.oldLength);
      } else {
        if end > newStart {
          oldStart := oldStart + (end - newStart);
        }
        newStart := e.start + e.newLength;
      }
      if e.newLength > MAX_INT64 - (length - e.oldLength) {
        return 0, 0, false;
      }
      length := length - e.oldLength + e.newLength;
      i := i + 1;
    }
    assert m.edits[..i] == m.edits;
    SeamBounds(m.beforeLength, m.edits);
    if length != m.afterLength || m.beforeLength - oldStart != m.afterLength - newStart {
      return 0, 0, false;
    }
    ok := true;
  }

  /** Behind the seam both documents are the same bytes. */
  lemma {:induction false} SuffixUntouched(doc: seq<byte>, ops: seq<Replace>)
    requires Applicable(doc, ops)
    ensures var s := SeamAfter(Shapes(ops));
            var after := Apply(doc, ops);
            0 <= s.before <= |doc| && 0 <= s.after <= |after| && doc[s.before..] == after[s.after..]
    decreases |ops|
  {
    if ops != [] {
      var n := |ops| - 1;
      SuffixUntouched(doc, ops[..n]);
      assert Shapes(ops)[..n] == Shapes(ops[..n]);
      SuffixStep(doc, Apply(doc, ops[..n]), SeamAfter(Shapes(ops[..n])), ops[n]);
    }
  }

  /** One more edit moves the seam behind itself. */
  lemma SuffixStep(doc: seq<byte>, middle: seq<byte>, s: Seam, op: Replace)
    requires 0 <= s.before <= |doc| && 0 <= s.after <= |middle| && doc[s.before..] == middle[s.after..]
    requires InRange(|middle|, op.start, op.deleteLength)
    ensures var t := SeamStep(s, ShapeOf(op));
            var after := ApplyOne(middle, op);
            0 <= t.before <= |doc| && 0 <= t.after <= |after| && doc[t.before..] == after[t.after..]
  {
    var end := op.start + op.deleteLength;
    var after := ApplyOne(middle, op);
    assert after[op.start + |op.insert|..] == middle[end..];
    assert |doc| - s.before == |middle| - s.after;
    if end <= s.after {
      assert after[op.start + |op.insert|..][s.after - end..] == middle[end..][s.after - end..];
    } else {
      assert middle[s.after..][end - s.after..] == middle[end..];
      assert doc[s.before..][end - s.after..] == doc[s.before + end - s.after..];
    }
  }

  /** Before the smallest edit start both documents are the same bytes. */
  lemma {:induction false} PrefixUntouched(doc: seq<byte>, ops: seq<Replace>)
    requires Applicable(doc, ops)
    ensures var p := StablePrefix(|doc|, Shapes(ops));
            0 <= p <= |doc| && p <= |Apply(doc, ops)| && doc[..p] == Apply(doc, ops)[..p]
    decreases |ops|
  {
    if ops != [] {
      var n := |ops| - 1;
      PrefixUntouched(doc, ops[..n]);
      assert Shapes(ops)[..n] == Shapes(ops[..n]);
      var p := StablePrefix(|doc|, Shapes(ops));
      var q := StablePrefix(|doc|, Shapes(ops[..n]));
      assert doc[..q][..p] == doc[..p];
      assert Apply(doc, ops[..n])[..q][..p] == Apply(doc, ops)[..p];
    }
  }

  // ---------------------------------------------------------------- anchors

  datatype Affinity = Before | After
  datatype Anchor = Anchor(offset: int, affinity: Affinity)
  datatype AnchoredRange = AnchoredRange(start: Anchor, end: Anchor)

  function TransformOffset(offset: int, affinity: Affinity, e: Edit): int {
    var end := e.start + e.oldLength;
    if offset < e.start then offset
    else if e.oldLength == 0 && offset == e.start then
      if affinity == After then e.start + e.newLength else e.start
    else if offset == e.start || offset < end then
      if affinity == After then e.start + e.newLength else e.start
    else offset - e.oldLength + e.newLength
  }

  function TransformAll(offset: int, affinity: Affinity, edits: seq<Edit>): int
    decreases |edits|
  {
    if edits == [] then offset else
      TransformOffset(TransformAll(offset, affinity, edits[..|edits| - 1]), affinity, edits[|edits| - 1])
  }

  function TransformAnchor(a: Anchor, edits: seq<Edit>): Anchor {
    a.(offset := TransformAll(a.offset, a.affinity, edits))
  }

  /** Where the byte at an offset goes; -1 once it is deleted. */
  function TrackOne(i: int, e: Edit): int {
    if i < e.start then i
    else if i < e.start + e.oldLength then -1
    else i - e.oldLength + e.newLength
  }

  function Track(i: int, edits: seq<Edit>): int
    decreases |edits|
  {
    if edits == [] then i else
      var before := Track(i, edits[..|edits| - 1]);
      if before < 0 then before else TrackOne(before, edits[|edits| - 1])
  }

  /** A tracked byte is the same byte in the new document. */
  lemma {:induction false} TrackFindsByte(doc: seq<byte>, ops: seq<Replace>, i: nat)
    requires Applicable(doc, ops) && i < |doc|
    ensures var j := Track(i, Shapes(ops));
            j >= 0 ==> j < |Apply(doc, ops)| && Apply(doc, ops)[j] == doc[i]
    decreases |ops|
  {
    if ops != [] {
      var n := |ops| - 1;
      TrackFindsByte(doc, ops[..n], i);
      assert Shapes(ops)[..n] == Shapes(ops[..n]);
    }
  }

  lemma {:induction false} AnchorsStayInBounds(length: int, edits: seq<Edit>, a: Anchor)
    requires length >= 0 && ValidEdits(length, edits) && 0 <= a.offset <= length
    ensures 0 <= TransformAnchor(a, edits).offset <= LengthAfter(length, edits)
    decreases |edits|
  {
    if edits != [] {
      AnchorsStayInBounds(length, edits[..|edits| - 1], a);
    }
  }

  /** An After anchor moves with the byte after it and a Before anchor with the byte before it,
      for as long as that byte survives. */
  lemma {:induction false} AnchorsFollowBytes(length: int, edits: seq<Edit>, offset: int)
    requires length >= 0 && ValidEdits(length, edits)
    ensures 0 <= offset < length && Track(offset, edits) >= 0 ==>
              TransformAll(offset, After, edits) == Track(offset, edits)
    ensures 0 < offset <= length && Track(offset - 1, edits) >= 0 ==>
              TransformAll(offset, Before, edits) == Track(offset - 1, edits) + 1
    decreases |edits|
  {
    if edits != [] {
      AnchorsFollowBytes(length, edits[..|edits| - 1], offset);
    }
  }

  /** Where one edit takes an After anchor, also out of what it replaces: to the front of the first byte at or behind it
      that survives. The end of the document always survives. */
  lemma AfterStandsBeforeSurvivor(e: Edit, x: nat, y: nat)
    requires e.start >= 0 && e.oldLength >= 0 && e.newLength >= 0 && x <= y
    requires TrackOne(y, e) >= 0 && forall i :: x <= i < y ==> TrackOne(i, e) < 0
    ensures TransformOffset(x, After, e) == TrackOne(y, e)
  {
    if x < y {
      assert TrackOne(x, e) < 0 && TrackOne(y - 1, e) < 0;
    }
  }

  /** Where one edit takes a Before anchor: behind the last byte before it that survives (y is -1 when there is none),
      except exactly at the end of what the edit replaces by other text: there it goes behind that text. */
  lemma BeforeStandsBehindSurvivor(e: Edit, x: nat, y: int)
    requires e.start >= 0 && e.oldLength >= 0 && e.newLength >= 0 && -1 <= y < x
    requires (y >= 0 ==> TrackOne(y, e) >= 0) && forall i :: y < i < x ==> TrackOne(i, e) < 0
    ensures TransformOffset(x, Before, e) == (if y >= 0 then TrackOne(y, e) + 1 else 0) <==>
              !(x == e.start + e.oldLength && e.oldLength > 0 && e.newLength > 0)
    ensures x == e.start + e.oldLength ==> e.oldLength == 0 || TransformOffset(x, Before, e) == e.start + e.newLength
  {
    if y + 1 < x {
      assert TrackOne(y + 1, e) < 0 && TrackOne(x - 1, e) < 0;
    }
  }

  /** Anchors keep their order, except that an After anchor may overtake a Before anchor. */
  lemma {:induction false} AnchorsKeepOrder(length: int, edits: seq<Edit>, a: Anchor, b: Anchor)
    requires length >= 0 && ValidEdits(length, edits)
    requires 0 <= a.offset <= b.offset <= length
    requires !(a.affinity == After && b.affinity == Before)
    ensures TransformAnchor(a, edits).offset <= TransformAnchor(b, edits).offset
    decreases |edits|
  {
    if edits != [] {
      AnchorsKeepOrder(length, edits[..|edits| - 1], a, b);
    }
  }

  /** The edit replaces the place of the anchor. */
  predicate Touches(e: Edit, offset: int) {
    offset == e.start || e.start < offset < e.start + e.oldLength
  }

  /** Exactly when one edit inverts a range. */
  lemma InversionExact(length: int, e: Edit, r: AnchoredRange)
    requires ValidEdit(length, e) && 0 <= r.start.offset <= r.end.offset <= length
    ensures TransformAnchor(r.start, [e]).offset > TransformAnchor(r.end, [e]).offset <==>
              r.start.affinity == After && r.end.affinity == Before &&
              Touches(e, r.start.offset) && Touches(e, r.end.offset) && e.newLength > 0
  {
    assert [e][..0] == [];
    assert TransformAll(r.start.offset, r.start.affinity, [e][..0]) == r.start.offset;
    assert TransformAll(r.end.offset, r.end.affinity, [e][..0]) == r.end.offset;
  }

  lemma {:induction false} TransformConcat(offset: int, affinity: Affinity, a: seq<Edit>, b: seq<Edit>)
    ensures TransformAll(offset, affinity, a + b) == TransformAll(TransformAll(offset, affinity, a), affinity, b)
    decreases |b|
  {
    if b == [] {
      assert a + b == a;
    } else {
      TransformConcat(offset, affinity, a, b[..|b| - 1]);
      assert (a + b)[..|a + b| - 1] == a + b[..|b| - 1];
    }
  }

  predicate TransformTooComplex(edits: nat, items: nat, factor: nat)
    requires factor > 0
  {
    edits > 0 && items > 0 &&
    (factor > MAXIMUM_TRANSFORM_STEPS / edits || items > MAXIMUM_TRANSFORM_STEPS / (edits * factor))
  }

  /** The batch form: edits outside, anchors inside; no partial result. */
  method TransformAnchors(m: ChangeMap, anchors: seq<Anchor>) returns (r: Result<seq<Anchor>>)
    ensures r.Success? <==>
              !TransformTooComplex(|m.edits|, |anchors|, 1) &&
              forall i :: 0 <= i < |anchors| ==> 0 <= anchors[i].offset <= m.beforeLength
    ensures r.Success? ==>
              |r.value| == |anchors| &&
              forall i :: 0 <= i < |anchors| ==> r.value[i] == TransformAnchor(anchors[i], m.edits)
  {
    if TransformTooComplex(|m.edits|, |anchors|, 1) {
      return Failure(TooComplex);
    }
    var k := 0;
    while k < |anchors|
      invariant 0 <= k <= |anchors|
      invariant forall i :: 0 <= i < k ==> 0 <= anchors[i].offset <= m.beforeLength
    {
      if anchors[k].offset < 0 || anchors[k].offset > m.beforeLength {
        return Failure(InvalidOffset);
      }
      k := k + 1;
    }
    var result := anchors;
    var i := 0;
    while i < |m.edits|
      invariant 0 <= i <= |m.edits| && |result| == |anchors|
      invariant forall x :: 0 <= x < |anchors| ==> result[x] == TransformAnchor(anchors[x], m.edits[..i])
    {
      assert m.edits[..i + 1][..i] == m.edits[..i];
      var j := 0;
      while j < |result|
        invariant 0 <= j <= |result| == |anchors|
        invariant forall x :: 0 <= x < j ==> result[x] == TransformAnchor(anchors[x], m.edits[..i + 1])
        invariant forall x :: j <= x < |anchors| ==> result[x] == TransformAnchor(anchors[x], m.edits[..i])
      {
        result := result[j := result[j].(offset := TransformOffset(result[j].offset, result[j].affinity, m.edits[i]))];
        j := j + 1;
      }
      i := i + 1;
    }
    assert m.edits[..i] == m.edits;
    r := Success(result);
  }

  /** A position in the document, with the anchors of a range in order. */
  predicate RangeIn(length: int, value: AnchoredRange) {
    0 <= value.start.offset <= value.end.offset <= length
  }

  /** TransformRange: refuses a range that is not in the document, and exactly one that the edits turned round, which
      can only happen to a range that shrinks away from its ends. */
  method TransformRange(m: ChangeMap, value: AnchoredRange) returns (r: Result<AnchoredRange>)
    requires ValidMap(m)
    ensures r == Failure(InvalidRange) <==> value.start.offset > value.end.offset
    ensures r == Failure(InvalidOffset) <==> value.start.offset <= value.end.offset && !RangeIn(m.beforeLength, value)
    ensures r == Failure(InvertedRange) <==>
              && RangeIn(m.beforeLength, value)
              && TransformAnchor(value.start, m.edits).offset > TransformAnchor(value.end, m.edits).offset
    ensures r == Failure(InvertedRange) ==> value.start.affinity == After && value.end.affinity == Before
    ensures r.Success? ==>
              && RangeIn(m.beforeLength, value) && RangeIn(m.afterLength, r.value)
              && r.value == AnchoredRange(TransformAnchor(value.start, m.edits), TransformAnchor(value.end, m.edits))
    ensures r.Failure? ==> r.error == InvalidRange || r.error == InvalidOffset || r.error == InvertedRange
  {
    if value.start.offset > value.end.offset {
      return Failure(InvalidRange);
    }
    if value.start.offset < 0 || value.start.offset > m.beforeLength {
      return Failure(InvalidOffset);
    }
    var start := TransformAnchor(value.start, m.edits);
    if value.end.offset < 0 || value.end.offset > m.beforeLength {
      return Failure(InvalidOffset);
    }
    var end := TransformAnchor(value.end, m.edits);
    if !(value.start.affinity == After && value.end.affinity == Before) {
      AnchorsKeepOrder(m.beforeLength, m.edits, value.start, value.end);
    }
    AnchorsStayInBounds(m.beforeLength, m.edits, value.start);
    AnchorsStayInBounds(m.beforeLength, m.edits, value.end);
    if start.offset > end.offset {
      return Failure(InvertedRange);
    }
    r := Success(AnchoredRange(start, end));
  }

  // ---------------------------------------------------------------- composition and inversion

  function Last(m: ChangeMap, next: seq<ChangeMap>): ChangeMap {
    if next == [] then m else next[|next| - 1]
  }

  /** A chain of adjacent maps. */
  predicate Adjacent(m: ChangeMap, next: seq<ChangeMap>)
    decreases |next|
  {
    next == [] ||
    (var front, last := next[..|next| - 1], next[|next| - 1];
     Adjacent(m, front) &&
     last.beforeRevision == Last(m, front).afterRevision && last.beforeLength == Last(m, front).afterLength)
  }

  function AllEdits(m: ChangeMap, next: seq<ChangeMap>): seq<Edit>
    decreases |next|
  {
    if next == [] then m.edits else AllEdits(m, next[..|next| - 1]) + next[|next| - 1].edits
  }

  lemma {:induction false} ChainPrefix(m: ChangeMap, next: seq<ChangeMap>, n: nat)
    requires n <= |next|
    ensures |AllEdits(m, next[..n])| <= |AllEdits(m, next)|
    ensures Adjacent(m, next) ==> Adjacent(m, next[..n])
    decreases |next|
  {
    if n < |next| {
      ChainPrefix(m, next[..|next| - 1], n);
      assert next[..|next| - 1][..n] == next[..n];
    } else {
      assert next[..n] == next;
    }
  }

  method ComposeAll(m: ChangeMap, next: seq<ChangeMap>) returns (r: Result<ChangeMap>)
    ensures r.Success? <==>
              Adjacent(m, next) && (next == [] || |AllEdits(m, next)| <= MAXIMUM_EDITS)
    ensures r.Success? ==>
              r.value == ChangeMap(m.beforeRevision, Last(m, next).afterRevision,
                                   m.beforeLength, Last(m, next).afterLength, AllEdits(m, next))
  {
    var total := |m.edits|;
    var previousRevision, previousLength := m.afterRevision, m.afterLength;
    var i := 0;
    while i < |next|
      invariant 0 <= i <= |next|
      invariant Adjacent(m, next[..i]) && total == |AllEdits(m, next[..i])|
      invariant i > 0 ==> total <= MAXIMUM_EDITS
      invariant previousRevision == Last(m, next[..i]).afterRevision
      invariant previousLength == Last(m, next[..i]).afterLength
    {
      var change := next[i];
      assert next[..i + 1][..i] == next[..i];
      ChainPrefix(m, next, i + 1);
      if previousRevision != change.beforeRevision {
        return Failure(RevisionMismatch);
      }
      if previousLength != change.beforeLength {
        return Failure(LengthMismatch);
      }
      if |change.edits| > MAXIMUM_EDITS - total {
        return Failure(TooComplex);
      }
      total := total + |change.edits|;
      previousRevision, previousLength := change.afterRevision, change.afterLength;
      i := i + 1;
    }
    assert next[..i] == next;
    var edits := m.edits;
    var k := 0;
    while k < |next|
      invariant 0 <= k <= |next|
      invariant edits == AllEdits(m, next[..k])
    {
      assert next[..k + 1][..k] == next[..k];
      edits := edits + next[k].edits;
      k := k + 1;
    }
    assert next[..k] == next;
    r := Success(ChangeMap(m.beforeRevision, previousRevision, m.beforeLength, previousLength, edits));
  }

  /** A composed map of two describes what the two describe one after the other, and moves
      anchors as they do. */
  lemma ComposeDescribes(m: ChangeMap, n: ChangeMap, a: seq<byte>, b: seq<byte>, c: seq<byte>)
    requires Describes(m, a, b) && Describes(n, b, c)
    ensures Describes(ChangeMap(m.beforeRevision, n.afterRevision, m.beforeLength, n.afterLength, m.edits + n.edits), a,
                      c)
    ensures forall anchor ::
              TransformAnchor(anchor, m.edits + n.edits)
              == TransformAnchor(TransformAnchor(anchor, m.edits), n.edits)
  {
    var first :| Shapes(first) == m.edits && Applicable(a, first) && Apply(a, first) == b;
    var second :| Shapes(second) == n.edits && Applicable(b, second) && Apply(b, second) == c;
    ShapesConcat(first, second);
    ApplyConcat(a, first, second);
    assert Shapes(first + second) == m.edits + n.edits;
    forall anchor
      ensures TransformAnchor(anchor, m.edits + n.edits) == TransformAnchor(TransformAnchor(anchor, m.edits), n.edits)
    {
      TransformConcat(anchor.offset, anchor.affinity, m.edits, n.edits);
    }
  }

  function InvertEdit(e: Edit): Edit {
    Edit(e.start, e.newLength, e.oldLength)
  }

  function InvertEdits(edits: seq<Edit>): (r: seq<Edit>)
    ensures |r| == |edits|
    decreases |edits|
  {
    if edits == [] then [] else [InvertEdit(edits[|edits| - 1])] + InvertEdits(edits[..|edits| - 1])
  }

  function InvertSpec(m: ChangeMap): ChangeMap {
    ChangeMap(m.afterRevision, m.beforeRevision, m.afterLength, m.beforeLength, InvertEdits(m.edits))
  }

  lemma {:induction false} InvertEditsAt(edits: seq<Edit>, i: nat)
    requires i < |edits|
    ensures InvertEdits(edits)[i] == InvertEdit(edits[|edits| - 1 - i])
    decreases |edits|
  {
    if |edits| > 1 {
      InvertEditsAt(edits[..|edits| - 1], if i == 0 then 0 else i - 1);
    } else {
      assert edits[..0] == [];
    }
  }

  method Invert(m: ChangeMap) returns (r: ChangeMap)
    ensures r == InvertSpec(m)
  {
    var edits: seq<Edit> := [];
    var index := 0;
    while index < |m.edits|
      invariant 0 <= index <= |m.edits|
      invariant edits == InvertEdits(m.edits)[..index]
    {
      InvertEditsAt(m.edits, index);
      var original := m.edits[|m.edits| - 1 - index];
      edits := edits + [Edit(original.start, original.newLength, original.oldLength)];
      index := index + 1;
    }
    r := ChangeMap(m.afterRevision, m.beforeRevision, m.afterLength, m.beforeLength, edits);
  }

  lemma {:induction false} ShapesOfInverse(doc: seq<byte>, ops: seq<Replace>)
    requires Applicable(doc, ops)
    ensures Shapes(Inverse(doc, ops)) == InvertEdits(Shapes(ops))
    decreases |ops|
  {
    if ops != [] {
      var n := |ops| - 1;
      ShapesOfInverse(doc, ops[..n]);
      var undo := [InverseOne(Apply(doc, ops[..n]), ops[n])];
      ShapesConcat(undo, Inverse(doc, ops[..n]));
      assert undo[..0] == [] && Shapes(undo) == [InvertEdit(ShapeOf(ops[n]))];
      assert Shapes(ops)[..n] == Shapes(ops[..n]);
    }
  }

  /** The inverse map describes the way back. */
  lemma InvertDescribes(m: ChangeMap, before: seq<byte>, after: seq<byte>)
    requires Describes(m, before, after)
    ensures Describes(InvertSpec(m), after, before)
  {
    var ops :| Shapes(ops) == m.edits && Applicable(before, ops) && Apply(before, ops) == after;
    InverseUndoes(before, ops);
    ShapesOfInverse(before, ops);
    assert Shapes(Inverse(before, ops)) == InvertSpec(m).edits;
  }
}
