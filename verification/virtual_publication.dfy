/** Fragment publication of document/virtual: validating fragments, and cutting the logical pages at their ends. */
module VirtualPublication {
  import opened Documents
  import opened Utf8
  import opened VirtualBuild

  datatype Fragment = Fragment(id: string, start: int, end: int, measure: int, dataKey: string)
  datatype FragmentMeta = FragmentMeta(fragment: Fragment, measureStart: int, pageFirst: int, pageLast: int)
  datatype Limits = Limits(maximumFragments: nat, maximumKeyBytes: nat, windowMeasure: nat)
  datatype Publication = Publication(indexedThrough: int, complete: bool, fragments: seq<Fragment>)

  datatype PublishError = InvalidPublication | InvalidFragment | Cancelled
  datatype Outcome<+T> = Done(value: T) | Failed(error: PublishError)

  // ---------------------------------------------------------------- which publications are acceptable

  function TotalMeasure(fragments: seq<Fragment>): int
    decreases |fragments|
  {
    if fragments == [] then 0 else TotalMeasure(fragments[..|fragments| - 1]) + fragments[|fragments| - 1].measure
  }

  function KeyBytes(fragments: seq<Fragment>): nat
    decreases |fragments|
  {
    if fragments == [] then 0
    else KeyBytes(fragments[..|fragments| - 1]) + |fragments[|fragments| - 1].id| + |fragments[|fragments| - 1].dataKey|
  }

  function EndBefore(fragments: seq<Fragment>, i: nat): int
    requires i <= |fragments|
  {
    if i == 0 then 0 else fragments[i - 1].end
  }

  predicate GoodFragment(fragments: seq<Fragment>, i: nat, indexedThrough: int, limits: Limits)
    requires i < |fragments|
  {
    var f := fragments[i];
    && f.id != "" && EndBefore(fragments, i) <= f.start < f.end <= indexedThrough
    && 0 <= f.measure <= limits.windowMeasure
    && (forall j :: 0 <= j < i ==> fragments[j].id != f.id)
  }

  /** Nonempty, ordered, disjoint fragments below the watermark, with distinct identities and bounded sums. */
  predicate GoodFragments(fragments: seq<Fragment>, indexedThrough: int, limits: Limits) {
    && (forall i :: 0 <= i < |fragments| ==> GoodFragment(fragments, i, indexedThrough, limits))
    && KeyBytes(fragments) <= limits.maximumKeyBytes
    && TotalMeasure(fragments) <= MAX_INT64
  }

  predicate Acceptable(p: Publication, length: int, limits: Limits) {
    && 0 <= p.indexedThrough <= length && (p.complete ==> p.indexedThrough == length)
    && |p.fragments| <= limits.maximumFragments
    && GoodFragments(p.fragments, p.indexedThrough, limits)
  }

  function Metas(fragments: seq<Fragment>): (r: seq<FragmentMeta>)
    ensures |r| == |fragments|
  {
    seq(|fragments|, i requires 0 <= i < |fragments| => FragmentMeta(fragments[i], TotalMeasure(fragments[..i]), -1,
                                                                     -1))
  }

  lemma {:induction false} PrefixSums(fragments: seq<Fragment>, n: nat)
    requires n <= |fragments| && forall i :: 0 <= i < |fragments| ==> fragments[i].measure >= 0
    ensures KeyBytes(fragments[..n]) <= KeyBytes(fragments)
            && 0 <= TotalMeasure(fragments[..n]) <= TotalMeasure(fragments)
    decreases |fragments|
  {
    if n == |fragments| {
      assert fragments[..n] == fragments;
      if n > 0 {
        PrefixSums(fragments[..n - 1], n - 1);
        assert fragments[..n - 1][..n - 1] == fragments[..n - 1];
      }
    } else {
      PrefixSums(fragments[..|fragments| - 1], n);
      assert fragments[..|fragments| - 1][..n] == fragments[..n];
    }
  }

  /** validateFragments accepts exactly the acceptable publications. */
  method ValidateFragments(p: Publication, length: nat, limits: Limits)
    returns (r: Outcome<(seq<FragmentMeta>, int, nat)>)
    requires limits.windowMeasure <= MAX_INT64
    ensures r.Done? ==>
              && Acceptable(p, length, limits)
              && r.value == (Metas(p.fragments), TotalMeasure(p.fragments), KeyBytes(p.fragments))
    ensures r.Failed? && r.error != Cancelled ==> !Acceptable(p, length, limits)
  {
    var n := |p.fragments|;
    if p.indexedThrough < 0 || p.indexedThrough > length || (p.complete && p.indexedThrough != length)
        || n > limits.maximumFragments {
      return Failed(InvalidPublication);
    }
    var metas: seq<FragmentMeta> := [];
    var seen: set<string> := {};
    var cursor, total, keyBytes := 0, 0, 0;
    var index := 0;
    while index < n
      invariant 0 <= index <= n == |p.fragments|
      invariant metas == Metas(p.fragments)[..index]
      invariant forall i :: 0 <= i < index ==> GoodFragment(p.fragments, i, p.indexedThrough, limits)
      invariant seen == set i | 0 <= i < index :: p.fragments[i].id
      invariant cursor == EndBefore(p.fragments, index)
      invariant total == TotalMeasure(p.fragments[..index]) && 0 <= total <= MAX_INT64
      invariant keyBytes == KeyBytes(p.fragments[..index]) <= limits.maximumKeyBytes
    {
      var cancelled: bool := *;
      if cancelled {
        return Failed(Cancelled);
      }
      var f := p.fragments[index];
      if f.id == "" || f.start < cursor || f.end <= f.start || f.end > p.indexedThrough ||
         f.measure < 0 || f.measure > limits.windowMeasure {
        assert !GoodFragment(p.fragments, index, p.indexedThrough, limits);
        return Failed(InvalidFragment);
      }
      assert p.fragments[..index + 1][..index] == p.fragments[..index];
      var keyLength := |f.id| + |f.dataKey|;
      if keyLength > limits.maximumKeyBytes - keyBytes || f.measure > MAX_INT64 - total {
        TooMuch(p.fragments, index + 1, p.indexedThrough, limits);
        return Failed(InvalidFragment);
      }
      if f.id in seen {
        assert !GoodFragment(p.fragments, index, p.indexedThrough, limits);
        return Failed(InvalidFragment);
      }
      seen := seen + {f.id};
      keyBytes := keyBytes + keyLength;
      metas := metas + [FragmentMeta(f, total, -1, -1)];
      total := total + f.measure;
      cursor := f.end;
      index := index + 1;
    }
    assert p.fragments[..index] == p.fragments && Metas(p.fragments)[..index] == Metas(p.fragments);
    return Done((metas, total, keyBytes));
  }

  lemma TooMuch(fragments: seq<Fragment>, n: nat, indexedThrough: int, limits: Limits)
    requires n <= |fragments|
    requires KeyBytes(fragments[..n]) > limits.maximumKeyBytes || TotalMeasure(fragments[..n]) > MAX_INT64
    ensures !GoodFragments(fragments, indexedThrough, limits)
  {
    if forall i :: 0 <= i < |fragments| ==> GoodFragment(fragments, i, indexedThrough, limits) {
      forall i | 0 <= i < |fragments|
        ensures fragments[i].measure >= 0
      {
        assert GoodFragment(fragments, i, indexedThrough, limits);
      }
      PrefixSums(fragments, n);
    }
  }

  // ---------------------------------------------------------------- offsets

  predicate Sorted(s: seq<int>) {
    forall i, j :: 0 <= i < j < |s| ==> s[i] <= s[j]
  }

  predicate StrictlySorted(s: seq<int>) {
    forall i, j :: 0 <= i < j < |s| ==> s[i] < s[j]
  }

  /** sort.Slice over offsets. */
  method SortOffsets(offsets: seq<int>) returns (r: seq<int>)
    ensures Sorted(r) && |r| == |offsets|
    ensures forall x :: x in r <==> x in offsets
  {
    r := [];
    var i := 0;
    while i < |offsets|
      invariant 0 <= i <= |offsets| && |r| == i && Sorted(r)
      invariant forall x :: x in r <==> x in offsets[..i]
    {
      var k := |r|;
      while k > 0 && r[k - 1] > offsets[i]
        invariant 0 <= k <= |r|
        invariant forall j :: k <= j < |r| ==> r[j] > offsets[i]
      {
        k := k - 1;
      }
      InsertMembers(r, k, offsets[i]);
      assert offsets[..i + 1] == offsets[..i] + [offsets[i]];
      r := r[..k] + [offsets[i]] + r[k..];
      i := i + 1;
    }
    assert offsets[..i] == offsets;
  }

  lemma InsertMembers(s: seq<int>, k: nat, e: int)
    requires k <= |s|
    ensures forall x :: x in s[..k] + [e] + s[k..] <==> x in s || x == e
  {
    assert s == s[..k] + s[k..];
    forall x
      ensures x in s[..k] + [e] + s[k..] <==> x in s || x == e
    {
      assert x in s[..k] + s[k..] <==> x in s[..k] || x in s[k..];
    }
  }

  /** compactOffsets, in place: equal neighbours of a sorted list are written once. */
  method CompactInPlace(offsets: array<int>) returns (n: nat)
    requires Sorted(offsets[..])
    modifies offsets
    ensures n <= offsets.Length && StrictlySorted(offsets[..n])
    ensures forall x :: x in offsets[..n] <==> x in old(offsets[..])
  {
    if offsets.Length == 0 {
      return 0;
    }
    ghost var before := offsets[..];
    var write := 1;
    var read := 1;
    assert before[..1] == offsets[..1];
    while read < offsets.Length
      invariant 1 <= write <= read <= offsets.Length
      invariant offsets[read..] == before[read..]
      invariant StrictlySorted(offsets[..write]) && offsets[write - 1] == before[read - 1]
      invariant forall x :: x in offsets[..write] <==> x in before[..read]
    {
      assert offsets[read] == before[read] && before[..read + 1] == before[..read] + [before[read]];
      if offsets[read] != offsets[write - 1] {
        CompactStep(offsets[..write], before, read);
        offsets[write] := offsets[read];
        write := write + 1;
        assert offsets[..write] == offsets[..write - 1] + [before[read]];
      }
      read := read + 1;
    }
    assert before[..read] == before;
    return write;
  }

  lemma CompactStep(kept: seq<int>, before: seq<int>, read: nat)
    requires Sorted(before) && 0 < read < |before| && kept != [] && StrictlySorted(kept)
    requires kept[|kept| - 1] == before[read - 1] != before[read]
    ensures StrictlySorted(kept + [before[read]])
  {
  }

  /** Sorted offsets, each once. */
  method Compacted(offsets: seq<int>) returns (r: seq<int>)
    ensures StrictlySorted(r)
    ensures forall x :: x in r <==> x in offsets
  {
    var sorted := SortOffsets(offsets);
    var buffer := new int[|sorted|](i requires 0 <= i < |sorted| => sorted[i]);
    assert buffer[..] == sorted;
    var n := CompactInPlace(buffer);
    r := buffer[..n];
  }

  // ---------------------------------------------------------------- line numbers at offsets

  predicate AfterLF(doc: seq<byte>, o: int)
    requires 0 <= o <= |doc|
  {
    o == 0 || doc[o - 1] == LF
  }

  /** Whatever the two maps know is true of the document. */
  predicate Right(doc: seq<byte>, lines: map<int, int>, afterLF: map<int, bool>) {
    && lines.Keys == afterLF.Keys
    && forall o :: o in lines ==> 0 <= o <= |doc| && lines[o] == CountLF(doc[..o]) && (afterLF[o] <==> AfterLF(doc, o))
  }

  lemma CountBetween(doc: seq<byte>, a: nat, b: nat)
    requires a <= b <= |doc|
    ensures CountLF(doc[..b]) == CountLF(doc[..a]) + CountLF(doc[a..b])
  {
    assert doc[..b] == doc[..a] + doc[a..b];
    CountLFConcat(doc[..a], doc[a..b]);
  }

  lemma RightAdd(doc: seq<byte>, lines: map<int, int>, afterLF: map<int, bool>, o: int, line: int, after: bool)
    requires Right(doc, lines, afterLF) && 0 <= o <= |doc| && line == CountLF(doc[..o]) && (after <==> AfterLF(doc, o))
    ensures Right(doc, lines[o := line], afterLF[o := after])
    ensures lines[o := line].Keys == lines.Keys + {o}
  {
    hide CountLF;
  }

  lemma SliceOfSlice(doc: seq<byte>, a: nat, b: nat, i: nat, j: nat)
    requires a <= b <= |doc| && i <= j <= b - a
    ensures doc[a..b][i..j] == doc[a + i..a + j]
  {
    var s, t := doc[a..b][i..j], doc[a + i..a + j];
    assert |s| == |t|;
    forall k | 0 <= k < |s|
      ensures s[k] == t[k]
    {
      assert s[k] == doc[a..b][i + k] == doc[a + (i + k)];
    }
  }

  /** What is known of the offsets of a list. */
  predicate Mapped(doc: seq<byte>, lines: map<int, int>, offsets: seq<int>) {
    forall k :: 0 <= k < |offsets| ==> offsets[k] in lines && 0 <= offsets[k] <= |doc| && RuneStart(doc, offsets[k])
  }

  /** The offsets inside one logical page: its bytes are read once, and lines counted from one offset to the next. */
  method MapInside(doc: seq<byte>, start: nat, end: nat, startLine: int, inside: seq<int>, lines0: map<int, int>,
                   afterLF0: map<int, bool>)
    returns (lines: map<int, int>, afterLF: map<int, bool>, ok: bool)
    requires start <= end <= |doc| && startLine == CountLF(doc[..start]) && Right(doc, lines0, afterLF0)
    requires StrictlySorted(inside) && forall k :: 0 <= k < |inside| ==> start < inside[k] < end
    ensures ok ==> Right(doc, lines, afterLF) && lines0.Keys <= lines.Keys && Mapped(doc, lines, inside)
    ensures !ok ==> exists k :: 0 <= k < |inside| && Cont(doc[inside[k]])
  {
    hide CountLF, Right;
    var data := doc[start..end];
    lines, afterLF, ok := lines0, afterLF0, true;
    var cursor := 0;
    var currentLine := startLine;
    var k := 0;
    while k < |inside|
      invariant 0 <= k <= |inside|
      invariant 0 <= cursor <= |data| && currentLine == CountLF(doc[..start + cursor])
      invariant k < |inside| ==> cursor <= inside[k] - start
      invariant Right(doc, lines, afterLF) && lines0.Keys <= lines.Keys
      invariant forall j :: 0 <= j < k ==> inside[j] in lines && !Cont(doc[inside[j]])
    {
      var offset := inside[k];
      var position := offset - start;
      if Cont(data[position]) {
        ok := false;
        return;
      }
      SliceOfSlice(doc, start, end, cursor, position);
      CountBetween(doc, start + cursor, start + position);
      currentLine := currentLine + CountLF(data[cursor..position]);
      RightAdd(doc, lines, afterLF, offset, currentLine, position == 0 || data[position - 1] == LF);
      lines := lines[offset := currentLine];
      afterLF := afterLF[offset := position == 0 || data[position - 1] == LF];
      cursor := position;
      k := k + 1;
    }
  }

  predicate AllStarts(doc: seq<byte>, extra: seq<int>) {
    forall k :: 0 <= k < |extra| ==> 0 <= extra[k] <= |doc| && RuneStart(doc, extra[k])
  }

  /** The offsets before a position that the scan has dealt with, and those from it on. */
  predicate Split(doc: seq<byte>, lines: map<int, int>, extra: seq<int>, extraIndex: nat, upTo: int) {
    && extraIndex <= |extra| && Mapped(doc, lines, extra[..extraIndex])
    && forall k :: extraIndex <= k < |extra| ==> extra[k] >= upTo
  }

  /** The inner loops for one logical page. */
  method MapPage(doc: seq<byte>, page: PageMeta, extra: seq<int>, first: nat, lines0: map<int, int>,
                 afterLF0: map<int, bool>)
    returns (extraIndex: nat, lines: map<int, int>, afterLF: map<int, bool>, ok: bool)
    requires 0 <= page.start < page.end <= |doc| && page == PageFor(doc, page.start, page.end)
    requires RuneStart(doc, page.start) && RuneStart(doc, page.end)
    requires StrictlySorted(extra) && (forall k :: 0 <= k < |extra| ==> 0 <= extra[k] <= |doc|)
    requires Right(doc, lines0, afterLF0) && page.start in lines0 && Split(doc, lines0, extra, first, page.start)
    ensures ok ==>
              && Right(doc, lines, afterLF) && lines0.Keys <= lines.Keys && page.end in lines
              && Split(doc, lines, extra, extraIndex, page.end)
    ensures !ok ==> !AllStarts(doc, extra)
  {
    hide CountLF, Right;
    RightAdd(doc, lines0, afterLF0, page.start, page.startLine, if page.start == 0 then true else !page.continuesFrom);
    lines := lines0[page.start := page.startLine];
    afterLF := afterLF0[page.start := if page.start == 0 then true else !page.continuesFrom];
    ok := true;
    extraIndex := first;
    while extraIndex < |extra| && extra[extraIndex] <= page.start
      invariant first <= extraIndex <= |extra|
      invariant forall k :: first <= k < extraIndex ==> extra[k] == page.start
    {
      extraIndex := extraIndex + 1;
    }
    var internalStart := extraIndex;
    while extraIndex < |extra| && extra[extraIndex] < page.end
      invariant internalStart <= extraIndex <= |extra|
      invariant forall k :: internalStart <= k < extraIndex ==> page.start < extra[k] < page.end
    {
      extraIndex := extraIndex + 1;
    }
    var inside := extra[internalStart..extraIndex];
    if internalStart < extraIndex {
      lines, afterLF, ok := MapInside(doc, page.start, page.end, page.startLine, inside, lines, afterLF);
      if !ok {
        ghost var k :| 0 <= k < |inside| && Cont(doc[inside[k]]);
        assert extra[internalStart + k] == inside[k];
        return;
      }
    }
    RightAdd(doc, lines, afterLF, page.end, page.endLine, page.endsWithLF);
    lines := lines[page.end := page.endLine];
    afterLF := afterLF[page.end := page.endsWithLF];
    ExtraSplit(doc, lines0, lines, extra, first, internalStart, extraIndex, page.start, page.end);
  }

  lemma ExtraSplit(doc: seq<byte>, known: map<int, int>, lines: map<int, int>, extra: seq<int>, first: nat, inner: nat,
                   last: nat, start: int, end: int)
    requires StrictlySorted(extra) && first <= inner <= last <= |extra| && known.Keys <= lines.Keys
    requires Mapped(doc, known, extra[..first]) && Mapped(doc, lines, extra[inner..last])
    requires start in known && 0 <= start <= |doc| && RuneStart(doc, start)
    requires forall k :: first <= k < inner ==> extra[k] == start
    requires last == |extra| || extra[last] >= end
    ensures Split(doc, lines, extra, last, end)
  {
    forall k | 0 <= k < last
      ensures extra[k] in lines && 0 <= extra[k] <= |doc| && RuneStart(doc, extra[k])
    {
      if k < first {
        assert extra[k] == extra[..first][k];
      } else if k >= inner {
        assert extra[k] == extra[inner..last][k - inner];
      }
    }
  }

  /** lineAndBoundaryMap: true line data for every page end and every extra offset; refused exactly when some extra
      offset is inside a rune. */
  method LineAndBoundaryMap(doc: seq<byte>, logical: seq<PageMeta>, extra: seq<int>, ghost target: nat,
                            ghost maximum: nat)
    returns (lines: map<int, int>, afterLF: map<int, bool>, ok: bool)
    requires Valid(doc) && doc != [] && PageTable(doc, logical, target, maximum) && StrictlySorted(extra)
    requires forall k :: 0 <= k < |extra| ==> 0 <= extra[k] <= |doc|
    ensures ok <==> AllStarts(doc, extra)
    ensures ok ==>
              && Right(doc, lines, afterLF) && 0 in lines
              && (forall i :: 0 <= i < |logical| ==> logical[i].end in lines)
              && (forall k :: 0 <= k < |extra| ==> extra[k] in lines)
  {
    hide Valid, RuneLen, PageTable, CountLF;
    lines, afterLF, ok := map[0 := 0], map[0 := true], true;
    MapStart(doc, lines, afterLF, extra);
    hide Right, Split;
    var extraIndex := 0;
    ghost var upTo := 0;
    var i := 0;
    while i < |logical|
      invariant 0 <= i <= |logical|
      invariant upTo == (if i == 0 then 0 else logical[i - 1].end) && upTo in lines
      invariant Right(doc, lines, afterLF) && 0 in lines && Split(doc, lines, extra, extraIndex, upTo)
      invariant forall j :: 0 <= j < i ==> logical[j].end in lines
    {
      LogicalPage(doc, logical, target, maximum, i);
      extraIndex, lines, afterLF, ok := MapPage(doc, logical[i], extra, extraIndex, lines, afterLF);
      if !ok {
        return;
      }
      upTo := logical[i].end;
      i := i + 1;
    }
    LastPage(doc, logical, target, maximum);
    MapEnd(doc, lines, extra, extraIndex);
  }

  lemma MapStart(doc: seq<byte>, lines: map<int, int>, afterLF: map<int, bool>, extra: seq<int>)
    requires lines == map[0 := 0] && afterLF == map[0 := true] && forall k :: 0 <= k < |extra| ==> 0 <= extra[k]
    ensures Right(doc, lines, afterLF) && Split(doc, lines, extra, 0, 0)
  {
    assert doc[..0] == [];
  }

  lemma MapEnd(doc: seq<byte>, lines: map<int, int>, extra: seq<int>, extraIndex: nat)
    requires Split(doc, lines, extra, extraIndex, |doc|) && |doc| in lines
    requires forall k :: 0 <= k < |extra| ==> 0 <= extra[k] <= |doc|
    ensures AllStarts(doc, extra) && forall k :: 0 <= k < |extra| ==> extra[k] in lines
  {
    forall k | 0 <= k < |extra|
      ensures extra[k] in lines && RuneStart(doc, extra[k])
    {
      if k < extraIndex {
        assert extra[k] == extra[..extraIndex][k];
      }
    }
  }

  /** A logical page with its line data, and the rune boundaries at its ends. */
  lemma LogicalPage(doc: seq<byte>, logical: seq<PageMeta>, target: nat, maximum: nat, i: nat)
    requires Valid(doc) && doc != [] && PageTable(doc, logical, target, maximum) && i < |logical|
    ensures var p := logical[i];
            && 0 <= p.start < p.end <= |doc| && p.start == (if i == 0 then 0 else logical[i - 1].end)
            && p == PageFor(doc, p.start, p.end)
            && RuneStart(doc, p.start) && RuneStart(doc, p.end)
  {
    hide Valid, RuneLen, EndsWell, PageFor, Pages;
    PageAt(doc, logical, |doc|, target, maximum, i);
    EndsAtRune(doc, logical[i].start, logical[i].end, target, maximum);
    SelfSynchronizing(doc, logical[i].end);
    if i > 0 {
      PageAt(doc, logical, |doc|, target, maximum, i - 1);
      EndsAtRune(doc, logical[i - 1].start, logical[i - 1].end, target, maximum);
      SelfSynchronizing(doc, logical[i - 1].end);
    }
  }

  lemma EndsAtRune(doc: seq<byte>, start: nat, end: nat, target: nat, maximum: nat)
    requires EndsWell(doc, start, end, target, maximum)
    ensures Valid(doc[..end])
  {
  }

  lemma LastPage(doc: seq<byte>, logical: seq<PageMeta>, target: nat, maximum: nat)
    requires doc != [] && PageTable(doc, logical, target, maximum)
    ensures logical != [] && logical[|logical| - 1].end == |doc|
  {
  }

  // ---------------------------------------------------------------- published pages

  /** The page between two neighbouring boundaries lies in one fragment, or in none. */
  predicate InFragment(fragments: seq<FragmentMeta>, start: int, end: int, f: int) {
    if f < 0 then f == -1 && forall j :: 0 <= j < |fragments| ==>
          end <= fragments[j].fragment.start || fragments[j].fragment.end <= start
    else f < |fragments| && fragments[f].fragment.start <= start && end <= fragments[f].fragment.end
  }

  /** Everything about a published page except its place in its fragment's run. */
  predicate GoodPage(doc: seq<byte>, fragments: seq<FragmentMeta>, indexedThrough: int, p: PageMeta) {
    && 0 <= p.start < p.end <= |doc| && RuneStart(doc, p.start) && RuneStart(doc, p.end)
    && p.startLine == CountLF(doc[..p.start]) && p.endLine == CountLF(doc[..p.end])
    && (p.continuesFrom <==> doc[..p.start] != [] && doc[p.start - 1] != LF)
    && (p.continuesTo <==> p.end < |doc| && doc[p.end - 1] != LF) && (p.endsWithLF <==> doc[p.end - 1] == LF)
    && (p.indexed <==> p.end <= indexedThrough)
    && InFragment(fragments, p.start, p.end, p.fragment)
    && p.measureStart == (if p.fragment < 0 then 0 else fragments[p.fragment].measureStart)
    && p.measureEnd == (if p.fragment < 0 then 0
                        else fragments[p.fragment].measureStart + fragments[p.fragment].fragment.measure)
  }

  /** The pages are the stretches between neighbouring boundaries. */
  predicate Between(pages: seq<PageMeta>, boundaries: seq<int>) {
    && |boundaries| == |pages| + 1
    && forall i :: 0 <= i < |pages| ==> pages[i].start == boundaries[i] && pages[i].end == boundaries[i + 1]
  }

  predicate Disjoint(fragments: seq<FragmentMeta>) {
    && (forall i :: 0 <= i < |fragments| ==> 0 <= fragments[i].fragment.start < fragments[i].fragment.end)
    && (forall i, j :: 0 <= i < j < |fragments| ==> fragments[i].fragment.end <= fragments[j].fragment.start)
  }

  predicate EndsIn(fragments: seq<FragmentMeta>, boundaries: seq<int>) {
    forall i :: 0 <= i < |fragments| ==>
          fragments[i].fragment.start in boundaries && fragments[i].fragment.end in boundaries
  }

  lemma NothingBetween(boundaries: seq<int>, i: nat, x: int)
    requires StrictlySorted(boundaries) && i + 1 < |boundaries| && x in boundaries
    ensures x <= boundaries[i] || x >= boundaries[i + 1]
  {
    var k :| 0 <= k < |boundaries| && boundaries[k] == x;
  }

  /** Advancing the fragment pointer finds the fragment of the next page. */
  lemma PointerFinds(fragments: seq<FragmentMeta>, boundaries: seq<int>, index: nat, f: nat)
    requires Disjoint(fragments) && StrictlySorted(boundaries) && EndsIn(fragments, boundaries)
    requires index + 1 < |boundaries| && f <= |fragments|
    requires forall j :: 0 <= j < f ==> fragments[j].fragment.end <= boundaries[index]
    requires f < |fragments| ==> fragments[f].fragment.end > boundaries[index]
    ensures var start, end := boundaries[index], boundaries[index + 1];
            InFragment(fragments, start, end,
                       if f < |fragments| && fragments[f].fragment.start <= start && end <= fragments[f].fragment.end
                           then f else -1)
  {
    if f < |fragments| {
      NothingBetween(boundaries, index, fragments[f].fragment.start);
      NothingBetween(boundaries, index, fragments[f].fragment.end);
    }
  }

  function Meta(length: int, fragments: seq<FragmentMeta>, indexedThrough: int, lines: map<int, int>,
                afterLF: map<int, bool>, start: int, end: int, f: nat): PageMeta
    requires start in lines && end in lines && start in afterLF && end in afterLF
  {
    var inside := f < |fragments| && fragments[f].fragment.start <= start && end <= fragments[f].fragment.end;
    PageMeta(start, end, lines[start], lines[end], start > 0 && !afterLF[start], end < length
             && !afterLF[end], afterLF[end],
             if inside then f else -1, 0, 0, if inside then fragments[f].measureStart else 0,
             if inside then fragments[f].measureStart + fragments[f].fragment.measure else 0, end <= indexedThrough)
  }

  lemma GoodMeta(doc: seq<byte>, fragments: seq<FragmentMeta>, boundaries: seq<int>, indexedThrough: int,
                 lines: map<int, int>, afterLF: map<int, bool>, index: nat, f: nat)
    requires Disjoint(fragments) && StrictlySorted(boundaries) && EndsIn(fragments, boundaries)
             && index + 1 < |boundaries|
    requires Right(doc, lines, afterLF) && boundaries[0] == 0
    requires forall i :: 0 <= i < |boundaries| ==>
               boundaries[i] in lines && 0 <= boundaries[i] <= |doc| && RuneStart(doc, boundaries[i])
    requires f <= |fragments| && forall j :: 0 <= j < f ==> fragments[j].fragment.end <= boundaries[index]
    requires f < |fragments| ==> fragments[f].fragment.end > boundaries[index]
    ensures GoodPage(doc, fragments, indexedThrough,
                     Meta(|doc|, fragments, indexedThrough, lines, afterLF, boundaries[index], boundaries[index + 1],
                          f))
  {
    hide CountLF, InFragment;
    PointerFinds(fragments, boundaries, index, f);
  }

  /** The first loop of buildPublishedPages. */
  method CutPages(doc: seq<byte>, fragments: seq<FragmentMeta>, boundaries: seq<int>, indexedThrough: int,
                  lines: map<int, int>, afterLF: map<int, bool>) returns (r: Outcome<seq<PageMeta>>)
    requires Disjoint(fragments) && StrictlySorted(boundaries) && EndsIn(fragments, boundaries)
    requires |boundaries| > 0 && boundaries[0] == 0 && Right(doc, lines, afterLF)
    requires forall i :: 0 <= i < |boundaries| ==>
               boundaries[i] in lines && 0 <= boundaries[i] <= |doc| && RuneStart(doc, boundaries[i])
    ensures r.Done? ==>
              && Between(r.value, boundaries)
              && forall i :: 0 <= i < |r.value| ==>
                   GoodPage(doc, fragments, indexedThrough, r.value[i])
                       && r.value[i].continuation == r.value[i].continuations == 0
    ensures r.Failed? ==> r.error == Cancelled
  {
    hide CountLF, InFragment, GoodPage, EndsIn, Disjoint;
    var pages: seq<PageMeta> := [];
    var f := 0;
    var index := 0;
    while index + 1 < |boundaries|
      invariant 0 <= index == |pages| < |boundaries| && 0 <= f <= |fragments|
      invariant forall j :: 0 <= j < f ==> fragments[j].fragment.end <= boundaries[index]
      invariant forall i :: 0 <= i < |pages| ==> pages[i].start == boundaries[i] && pages[i].end == boundaries[i + 1]
      invariant forall i :: 0 <= i < |pages| ==>
                  GoodPage(doc, fragments, indexedThrough, pages[i])
                      && pages[i].continuation == pages[i].continuations == 0
    {
      var cancelled: bool := *;
      if cancelled {
        return Failed(Cancelled);
      }
      var start, end := boundaries[index], boundaries[index + 1];
      while f < |fragments| && fragments[f].fragment.end <= start
        invariant 0 <= f <= |fragments|
        invariant forall j :: 0 <= j < f ==> fragments[j].fragment.end <= start
      {
        f := f + 1;
      }
      GoodMeta(doc, fragments, boundaries, indexedThrough, lines, afterLF, index, f);
      var meta := Meta(|doc|, fragments, indexedThrough, lines, afterLF, start, end, f);
      pages := pages + [meta];
      index := index + 1;
    }
    return Done(pages);
  }

  // ---------------------------------------------------------------- the run of pages of each fragment

  /** Pages and fragment records tell the same: the pages of a fragment are one contiguous run. */
  predicate Run(pages: seq<PageMeta>, m: FragmentMeta, f: int) {
    && 0 <= m.pageFirst <= m.pageLast < |pages|
    && (forall i :: 0 <= i < |pages| ==> (pages[i].fragment == f <==> m.pageFirst <= i <= m.pageLast))
    && pages[m.pageFirst].start == m.fragment.start && pages[m.pageLast].end == m.fragment.end
  }

  /** The record of a fragment after looking at the first n pages. */
  predicate RunSoFar(pages: seq<PageMeta>, m: FragmentMeta, f: int, n: nat) {
    && n <= |pages|
    && (if m.pageFirst < 0 then m.pageFirst == m.pageLast == -1 && forall i :: 0 <= i < n ==> pages[i].fragment != f
        else
          && m.pageFirst <= m.pageLast < n && pages[m.pageFirst].fragment == pages[m.pageLast].fragment == f
          && forall i :: 0 <= i < n && pages[i].fragment == f ==> m.pageFirst <= i <= m.pageLast)
  }

  predicate SameFragments(a: seq<FragmentMeta>, b: seq<FragmentMeta>) {
    |a| == |b| && forall i :: 0 <= i < |a| ==> a[i].fragment == b[i].fragment && a[i].measureStart == b[i].measureStart
  }

  /** The second loop: the first and last page of every fragment. */
  method FindRuns(pages: seq<PageMeta>, fragments: seq<FragmentMeta>) returns (r: seq<FragmentMeta>)
    requires forall f :: 0 <= f < |fragments| ==> fragments[f].pageFirst == fragments[f].pageLast == -1
    requires forall i :: 0 <= i < |pages| ==> -1 <= pages[i].fragment < |fragments|
    ensures SameFragments(r, fragments)
    ensures forall f :: 0 <= f < |r| ==> RunSoFar(pages, r[f], f, |pages|)
  {
    r := fragments;
    var pageIndex := 0;
    while pageIndex < |pages|
      invariant 0 <= pageIndex <= |pages| && SameFragments(r, fragments)
      invariant forall f :: 0 <= f < |r| ==> RunSoFar(pages, r[f], f, pageIndex)
    {
      var f := pages[pageIndex].fragment;
      if f >= 0 {
        if r[f].pageFirst < 0 {
          r := r[f := r[f].(pageFirst := pageIndex)];
        }
        r := r[f := r[f].(pageLast := pageIndex)];
      }
      pageIndex := pageIndex + 1;
    }
  }

  /** A fragment's pages have no gap, begin with its start and end with its end. */
  lemma RunComplete(doc: seq<byte>, pages: seq<PageMeta>, fragments: seq<FragmentMeta>, boundaries: seq<int>,
                    indexedThrough: int, f: nat, m: FragmentMeta)
    requires Between(pages, boundaries) && StrictlySorted(boundaries) && Disjoint(fragments)
             && EndsIn(fragments, boundaries)
    requires forall i :: 0 <= i < |pages| ==> GoodPage(doc, fragments, indexedThrough, pages[i])
    requires f < |fragments| && m.fragment == fragments[f].fragment && RunSoFar(pages, m, f, |pages|)
    requires |boundaries| > 0 && boundaries[|boundaries| - 1] == |doc| && fragments[f].fragment.end <= |doc|
    ensures Run(pages, m, f)
  {
    var start, end := m.fragment.start, m.fragment.end;
    var a :| 0 <= a < |boundaries| && boundaries[a] == start;
    var b :| 0 <= b < |boundaries| && boundaries[b] == end;
    assert a < b;
    forall i | 0 <= i < |pages|
      ensures pages[i].fragment == f <==> a <= i < b
    {
      PageOfFragment(doc, pages, fragments, boundaries, indexedThrough, f, a, b, i);
    }
    assert pages[a].fragment == f && pages[b - 1].fragment == f;
    assert m.pageFirst == a && m.pageLast == b - 1;
  }

  lemma PageOfFragment(doc: seq<byte>, pages: seq<PageMeta>, fragments: seq<FragmentMeta>, boundaries: seq<int>,
                       indexedThrough: int, f: nat, a: nat, b: nat, i: nat)
    requires Between(pages, boundaries) && StrictlySorted(boundaries) && Disjoint(fragments)
    requires i < |pages| && GoodPage(doc, fragments, indexedThrough, pages[i]) && f < |fragments| && a < |boundaries|
             && b < |boundaries|
    requires boundaries[a] == fragments[f].fragment.start && boundaries[b] == fragments[f].fragment.end
    ensures pages[i].fragment == f <==> a <= i < b
  {
    hide CountLF;
    assert pages[i].start == boundaries[i] && pages[i].end == boundaries[i + 1];
    assert a <= i ==> boundaries[a] <= boundaries[i];
    assert i < b ==> boundaries[i + 1] <= boundaries[b];
    assert i < a ==> boundaries[i] < boundaries[a];
    assert b <= i ==> boundaries[b] < boundaries[i + 1];
  }

  /** The place of a page in its run. */
  function Numbered(p: PageMeta, i: int, fragments: seq<FragmentMeta>): PageMeta {
    if 0 <= p.fragment < |fragments| then
      var m := fragments[p.fragment];
      p.(continuation := i - m.pageFirst, continuations := m.pageLast - m.pageFirst + 1)
    else p
  }

  /** The third loop: pages of a fragment are numbered 0 to count - 1. */
  method NumberRuns(pages: seq<PageMeta>, fragments: seq<FragmentMeta>) returns (r: seq<PageMeta>)
    requires forall f :: 0 <= f < |fragments| ==> Run(pages, fragments[f], f)
    requires forall i :: 0 <= i < |pages| ==> -1 <= pages[i].fragment < |fragments|
    ensures |r| == |pages| && forall i :: 0 <= i < |r| ==> r[i] == Numbered(pages[i], i, fragments)
  {
    r := pages;
    var f := 0;
    while f < |fragments|
      invariant 0 <= f <= |fragments| && |r| == |pages|
      invariant forall i :: 0 <= i < |r| ==>
                  r[i] == if 0 <= pages[i].fragment < f then Numbered(pages[i], i, fragments) else pages[i]
    {
      var count := fragments[f].pageLast - fragments[f].pageFirst + 1;
      var pageIndex := fragments[f].pageFirst;
      assert Run(pages, fragments[f], f);
      while pageIndex <= fragments[f].pageLast
        invariant fragments[f].pageFirst <= pageIndex <= fragments[f].pageLast + 1 && |r| == |pages|
        invariant forall i :: 0 <= i < |r| ==>
                    r[i] == if 0 <= pages[i].fragment < f || (pages[i].fragment == f && i < pageIndex)
                        then Numbered(pages[i], i, fragments)
                            else pages[i]
      {
        r := r[pageIndex := r[pageIndex].(continuation := pageIndex - fragments[f].pageFirst, continuations := count)];
        pageIndex := pageIndex + 1;
      }
      f := f + 1;
    }
  }

  // ---------------------------------------------------------------- the whole publication

  /** The fragment ends, and the watermark when it is inside the document. */
  predicate IsExtra(fragments: seq<FragmentMeta>, indexedThrough: int, length: int, x: int) {
    (exists i :: 0 <= i < |fragments| && (x == fragments[i].fragment.start || x == fragments[i].fragment.end)) ||
    (x == indexedThrough && 0 < indexedThrough < length)
  }

  predicate IsPageEnd(logical: seq<PageMeta>, x: int) {
    exists i :: 0 <= i < |logical| && x == logical[i].end
  }

  /** A published page table: it partitions the document at rune boundaries, refines the logical pages, and shows every
      fragment as one run of consecutively numbered pages. */
  predicate Published(doc: seq<byte>, logical: seq<PageMeta>, fragments: seq<FragmentMeta>, indexedThrough: int,
                      pages: seq<PageMeta>) {
    && pages != [] && pages[0].start == 0 && pages[|pages| - 1].end == |doc|
    && (forall i :: 0 <= i < |pages| - 1 ==> pages[i].end == pages[i + 1].start)
    && (forall i :: 0 <= i < |pages| ==> GoodPage(doc, fragments, indexedThrough, pages[i]))
    && (forall j :: 0 <= j < |logical| ==> IsPageEnd(pages, logical[j].end))
    && (forall f :: 0 <= f < |fragments| ==> Run(pages, fragments[f], f))
    && (forall i :: 0 <= i < |pages| ==>
          if pages[i].fragment < 0 then pages[i].continuation == pages[i].continuations == 0
          else
            var m := fragments[pages[i].fragment];
            pages[i].continuation == i - m.pageFirst && pages[i].continuations == m.pageLast - m.pageFirst + 1)
  }

  /** The offsets at which logical pages are cut. */
  method CollectExtra(fragments: seq<FragmentMeta>, indexedThrough: int, length: int) returns (extra: seq<int>)
    ensures StrictlySorted(extra) && forall x :: x in extra <==> IsExtra(fragments, indexedThrough, length, x)
  {
    var offsets: seq<int> := [];
    var i := 0;
    while i < |fragments|
      invariant 0 <= i <= |fragments|
      invariant forall x :: x in offsets <==>
                  exists k :: 0 <= k < i && (x == fragments[k].fragment.start || x == fragments[k].fragment.end)
    {
      offsets := offsets + [fragments[i].fragment.start];
      offsets := offsets + [fragments[i].fragment.end];
      i := i + 1;
    }
    if 0 < indexedThrough < length {
      offsets := offsets + [indexedThrough];
    }
    extra := Compacted(offsets);
  }

  /** All page boundaries. */
  method CollectBoundaries(logical: seq<PageMeta>, extra: seq<int>) returns (boundaries: seq<int>)
    ensures StrictlySorted(boundaries)
    ensures forall x :: x in boundaries <==> x == 0 || IsPageEnd(logical, x) || x in extra
  {
    var offsets := [0];
    var i := 0;
    while i < |logical|
      invariant 0 <= i <= |logical|
      invariant forall x :: x in offsets <==> x == 0 || exists k :: 0 <= k < i && x == logical[k].end
    {
      offsets := offsets + [logical[i].end];
      i := i + 1;
    }
    boundaries := Compacted(offsets + extra);
  }

  lemma OffsetsInRange(doc: seq<byte>, logical: seq<PageMeta>, fragments: seq<FragmentMeta>, indexedThrough: int,
                       extra: seq<int>, boundaries: seq<int>, target: nat, maximum: nat)
    requires Valid(doc) && doc != [] && PageTable(doc, logical, target, maximum) && Disjoint(fragments)
    requires forall f :: 0 <= f < |fragments| ==> fragments[f].fragment.end <= |doc|
    requires forall x :: x in extra <==> IsExtra(fragments, indexedThrough, |doc|, x)
    requires StrictlySorted(boundaries) && forall x :: x in boundaries <==>
               x == 0 || IsPageEnd(logical, x) || x in extra
    ensures forall k :: 0 <= k < |extra| ==> 0 <= extra[k] <= |doc|
    ensures |boundaries| > 1 && boundaries[0] == 0 && boundaries[|boundaries| - 1] == |doc|
    ensures EndsIn(fragments, boundaries)
    ensures AllStarts(doc, extra) ==> forall i :: 0 <= i < |boundaries| ==>
              0 <= boundaries[i] <= |doc| && RuneStart(doc, boundaries[i])
  {
    hide Valid, RuneLen, PageTable;
    forall k | 0 <= k < |extra|
      ensures 0 <= extra[k] <= |doc|
    {
      assert extra[k] in extra;
    }
    forall i | 0 <= i < |boundaries|
      ensures 0 <= boundaries[i] <= |doc| && (AllStarts(doc, extra) ==> RuneStart(doc, boundaries[i]))
    {
      assert boundaries[i] in boundaries;
      BoundaryStarts(doc, logical, extra, boundaries[i], target, maximum);
    }
    LastPage(doc, logical, target, maximum);
    assert IsPageEnd(logical, |doc|) && 0 in boundaries && |doc| in boundaries;
    FirstAndLast(boundaries, |doc|);
    forall f | 0 <= f < |fragments|
      ensures fragments[f].fragment.start in boundaries && fragments[f].fragment.end in boundaries
    {
      assert IsExtra(fragments, indexedThrough, |doc|, fragments[f].fragment.start);
      assert IsExtra(fragments, indexedThrough, |doc|, fragments[f].fragment.end);
    }
  }

  lemma FirstAndLast(s: seq<int>, last: int)
    requires StrictlySorted(s) && 0 in s && last in s && 0 < last && forall i :: 0 <= i < |s| ==> 0 <= s[i] <= last
    ensures |s| > 1 && s[0] == 0 && s[|s| - 1] == last
  {
  }

  lemma BoundaryStarts(doc: seq<byte>, logical: seq<PageMeta>, extra: seq<int>, x: int, target: nat, maximum: nat)
    requires Valid(doc) && doc != [] && PageTable(doc, logical, target, maximum)
    requires x == 0 || IsPageEnd(logical, x) || x in extra
    requires forall k :: 0 <= k < |extra| ==> 0 <= extra[k] <= |doc|
    ensures 0 <= x <= |doc| && (AllStarts(doc, extra) ==> RuneStart(doc, x))
  {
    hide Valid, RuneLen, PageTable;
    if x != 0 && x !in extra {
      var i :| 0 <= i < |logical| && x == logical[i].end;
      LogicalPage(doc, logical, target, maximum, i);
    }
  }

  /** Renumbering and the records of runs change nothing else about a page. */
  lemma StillGood(doc: seq<byte>, a: seq<FragmentMeta>, b: seq<FragmentMeta>, indexedThrough: int, p: PageMeta,
                  q: PageMeta)
    requires SameFragments(a, b) && GoodPage(doc, a, indexedThrough, p)
    requires q == p.(continuation := q.continuation, continuations := q.continuations)
    ensures GoodPage(doc, b, indexedThrough, q) && -1 <= p.fragment < |a|
  {
    hide CountLF;
  }

  /** buildPublishedPages: accepted exactly when all cuts fall on rune boundaries. */
  method BuildPublishedPages(doc: seq<byte>, logical: seq<PageMeta>, fragments: seq<FragmentMeta>, indexedThrough: int,
                             complete: bool, ghost target: nat, ghost maximum: nat)
    returns (r: Outcome<(seq<PageMeta>, seq<FragmentMeta>)>)
    requires Valid(doc) && PageTable(doc, logical, target, maximum) && Disjoint(fragments)
             && 0 <= indexedThrough <= |doc|
    requires forall f :: 0 <= f < |fragments| ==>
               fragments[f].fragment.end <= |doc| && fragments[f].pageFirst == fragments[f].pageLast == -1
    ensures r.Done? && doc != [] ==>
              && SameFragments(r.value.1, fragments) && Published(doc, logical, r.value.1, indexedThrough, r.value.0)
              && forall x :: IsExtra(fragments, indexedThrough, |doc|, x) ==> 0 <= x <= |doc| && RuneStart(doc, x)
    ensures r.Done? && doc == [] ==> r.value == ([EmptyPage.(indexed := complete)], fragments)
    ensures r == Failed(InvalidFragment) ==>
              exists x :: IsExtra(fragments, indexedThrough, |doc|, x) && 0 <= x <= |doc| && !RuneStart(doc, x)
    ensures r.Failed? ==> r.error == InvalidFragment || r.error == Cancelled
  {
    hide Valid, RuneLen, PageTable, GoodPage, Run, RunSoFar;
    if |doc| == 0 {
      return Done(([EmptyPage.(indexed := complete)], fragments));
    }
    var extra := CollectExtra(fragments, indexedThrough, |doc|);
    var boundaries := CollectBoundaries(logical, extra);
    OffsetsInRange(doc, logical, fragments, indexedThrough, extra, boundaries, target, maximum);
    var lines, afterLF, ok := LineAndBoundaryMap(doc, logical, extra, target, maximum);
    if !ok {
      ghost var k :| 0 <= k < |extra| && !RuneStart(doc, extra[k]);
      assert extra[k] in extra;
      return Failed(InvalidFragment);
    }
    BoundariesMapped(logical, extra, boundaries, lines);
    var cut := CutPages(doc, fragments, boundaries, indexedThrough, lines, afterLF);
    if cut.Failed? {
      return Failed(cut.error);
    }
    forall j | 0 <= j < |logical|
      ensures logical[j].end > 0
    {
      LogicalPage(doc, logical, target, maximum, j);
    }
    r := Finish(doc, logical, fragments, indexedThrough, boundaries, cut.value, extra);
    ExtraStarts(doc, fragments, indexedThrough, extra);
  }

  lemma ExtraStarts(doc: seq<byte>, fragments: seq<FragmentMeta>, indexedThrough: int, extra: seq<int>)
    requires AllStarts(doc, extra) && forall x :: x in extra <==> IsExtra(fragments, indexedThrough, |doc|, x)
    ensures forall x :: IsExtra(fragments, indexedThrough, |doc|, x) ==> 0 <= x <= |doc| && RuneStart(doc, x)
  {
    forall x | IsExtra(fragments, indexedThrough, |doc|, x)
      ensures 0 <= x <= |doc| && RuneStart(doc, x)
    {
      var k :| 0 <= k < |extra| && extra[k] == x;
    }
  }

  lemma BoundariesMapped(logical: seq<PageMeta>, extra: seq<int>, boundaries: seq<int>, lines: map<int, int>)
    requires forall x :: x in boundaries <==> x == 0 || IsPageEnd(logical, x) || x in extra
    requires 0 in lines && (forall i :: 0 <= i < |logical| ==> logical[i].end in lines)
             && (forall k :: 0 <= k < |extra| ==> extra[k] in lines)
    ensures forall i :: 0 <= i < |boundaries| ==> boundaries[i] in lines
  {
    forall i | 0 <= i < |boundaries|
      ensures boundaries[i] in lines
    {
      var x := boundaries[i];
      assert x in boundaries;
      if x in extra {
        var k :| 0 <= k < |extra| && extra[k] == x;
      } else if x != 0 {
        var k :| 0 <= k < |logical| && x == logical[k].end;
      }
    }
  }

  /** The second and third loops, and what they complete. */
  method Finish(doc: seq<byte>, logical: seq<PageMeta>, fragments: seq<FragmentMeta>, indexedThrough: int,
                ghost boundaries: seq<int>, cut: seq<PageMeta>, ghost extra: seq<int>)
    returns (r: Outcome<(seq<PageMeta>, seq<FragmentMeta>)>)
    requires Disjoint(fragments) && StrictlySorted(boundaries) && EndsIn(fragments, boundaries)
             && Between(cut, boundaries)
    requires |boundaries| > 1 && boundaries[0] == 0 && boundaries[|boundaries| - 1] == |doc|
    requires forall x :: x in boundaries <==> x == 0 || IsPageEnd(logical, x) || x in extra
    requires forall j :: 0 <= j < |logical| ==> logical[j].end > 0
    requires forall f :: 0 <= f < |fragments| ==>
               fragments[f].fragment.end <= |doc| && fragments[f].pageFirst == fragments[f].pageLast == -1
    requires forall i :: 0 <= i < |cut| ==>
               GoodPage(doc, fragments, indexedThrough, cut[i]) && cut[i].continuation == cut[i].continuations == 0
    ensures r.Done? && SameFragments(r.value.1, fragments)
            && Published(doc, logical, r.value.1, indexedThrough, r.value.0)
  {
    hide GoodPage, RunSoFar, EndsIn, Disjoint, StrictlySorted, Run, Between, IsPageEnd;
    FragmentsOfPages(doc, fragments, indexedThrough, cut);
    var found := FindRuns(cut, fragments);
    RunsComplete(doc, cut, fragments, boundaries, indexedThrough, found);
    var pages := NumberRuns(cut, found);
    Renumbered(doc, fragments, found, indexedThrough, cut, pages, boundaries);
    LogicalEnds(logical, boundaries, extra, pages);
    Partitioned(doc, pages, boundaries);
    return Done((pages, found));
  }

  lemma FragmentsOfPages(doc: seq<byte>, fragments: seq<FragmentMeta>, indexedThrough: int, pages: seq<PageMeta>)
    requires forall i :: 0 <= i < |pages| ==> GoodPage(doc, fragments, indexedThrough, pages[i])
    ensures forall i :: 0 <= i < |pages| ==> -1 <= pages[i].fragment < |fragments|
  {
    hide CountLF;
  }

  lemma RunsComplete(doc: seq<byte>, cut: seq<PageMeta>, fragments: seq<FragmentMeta>, boundaries: seq<int>,
                     indexedThrough: int, found: seq<FragmentMeta>)
    requires Between(cut, boundaries) && StrictlySorted(boundaries) && Disjoint(fragments)
             && EndsIn(fragments, boundaries)
    requires forall i :: 0 <= i < |cut| ==> GoodPage(doc, fragments, indexedThrough, cut[i])
    requires SameFragments(found, fragments) && forall f :: 0 <= f < |found| ==> RunSoFar(cut, found[f], f, |cut|)
    requires |boundaries| > 0 && boundaries[|boundaries| - 1] == |doc|
    requires forall f :: 0 <= f < |fragments| ==> fragments[f].fragment.end <= |doc|
    ensures forall f :: 0 <= f < |found| ==> Run(cut, found[f], f)
  {
    hide GoodPage, RunSoFar, EndsIn, Disjoint, StrictlySorted, Run, Between;
    forall f | 0 <= f < |found|
      ensures Run(cut, found[f], f)
    {
      RunComplete(doc, cut, fragments, boundaries, indexedThrough, f, found[f]);
    }
  }

  lemma Renumbered(doc: seq<byte>, fragments: seq<FragmentMeta>, found: seq<FragmentMeta>, indexedThrough: int,
                   cut: seq<PageMeta>, pages: seq<PageMeta>, boundaries: seq<int>)
    requires SameFragments(fragments, found) && Between(cut, boundaries) && |pages| == |cut|
    requires forall i :: 0 <= i < |cut| ==>
               GoodPage(doc, fragments, indexedThrough, cut[i]) && cut[i].continuation == cut[i].continuations == 0
    requires forall i :: 0 <= i < |pages| ==> pages[i] == Numbered(cut[i], i, found)
    requires forall f :: 0 <= f < |found| ==> Run(cut, found[f], f)
    ensures Between(pages, boundaries)
    ensures forall i :: 0 <= i < |pages| ==> GoodPage(doc, found, indexedThrough, pages[i])
    ensures forall f :: 0 <= f < |found| ==> Run(pages, found[f], f)
    ensures forall i :: 0 <= i < |pages| ==>
              -1 <= pages[i].fragment < |found| && pages[i] == Numbered(pages[i], i, found)
    ensures forall i :: 0 <= i < |pages| && pages[i].fragment < 0 ==>
              pages[i].continuation == pages[i].continuations == 0
  {
    hide GoodPage;
    forall i | 0 <= i < |pages|
      ensures GoodPage(doc, found, indexedThrough, pages[i]) && -1 <= pages[i].fragment < |found|
    {
      StillGood(doc, fragments, found, indexedThrough, cut[i], pages[i]);
    }
    forall f | 0 <= f < |found|
      ensures Run(pages, found[f], f)
    {
      assert Run(cut, found[f], f);
    }
  }

  lemma Partitioned(doc: seq<byte>, pages: seq<PageMeta>, boundaries: seq<int>)
    requires Between(pages, boundaries) && |boundaries| > 1 && boundaries[0] == 0
             && boundaries[|boundaries| - 1] == |doc|
    ensures pages != [] && pages[0].start == 0 && pages[|pages| - 1].end == |doc|
    ensures forall i :: 0 <= i < |pages| - 1 ==> pages[i].end == pages[i + 1].start
  {
  }

  lemma LogicalEnds(logical: seq<PageMeta>, boundaries: seq<int>, extra: seq<int>, pages: seq<PageMeta>)
    requires StrictlySorted(boundaries) && Between(pages, boundaries) && boundaries[0] == 0
    requires forall x :: x in boundaries <==> x == 0 || IsPageEnd(logical, x) || x in extra
    requires forall j :: 0 <= j < |logical| ==> logical[j].end > 0
    ensures forall j :: 0 <= j < |logical| ==> IsPageEnd(pages, logical[j].end)
  {
    forall j | 0 <= j < |logical|
      ensures IsPageEnd(pages, logical[j].end)
    {
      assert IsPageEnd(logical, logical[j].end);
      var k :| 0 <= k < |boundaries| && boundaries[k] == logical[j].end;
      assert pages[k - 1].end == boundaries[k];
    }
  }
}
