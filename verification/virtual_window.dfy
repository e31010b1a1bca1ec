/** Windows over published pages: which pages a request names, and how many of them its budget admits. */
module VirtualWindow {
  import opened Documents
  import opened VirtualBuild
  import opened VirtualPublication
  import Utf8

  datatype Budget = Budget(bytes: int, pages: int, fragments: int, measure: int)
  datatype Affinity = Before | After
  datatype WindowError = InvalidRequest | BudgetExceeded | MeasureUnavailable | NotFound
  datatype Answer<+T> = Found(value: T) | Refused(error: WindowError)

  /** What windows read of the pager's state. */
  datatype State = State(
    pages: seq<PageMeta>, fragments: seq<FragmentMeta>, byID: map<string, nat>, length: nat, totalMeasure: int)

  /** A page table with its fragment runs and cumulative measures. */
  ghost predicate ValidState(s: State) {
    && |s.pages| > 0 && s.pages[0].start == 0 && s.pages[|s.pages| - 1].end == s.length
    && (forall i :: 0 <= i < |s.pages| - 1 ==> s.pages[i].end == s.pages[i + 1].start)
    && (if s.length == 0 then |s.pages| == 1 && s.pages[0].end == 0
        else forall i :: 0 <= i < |s.pages| ==> s.pages[i].start < s.pages[i].end)
    && (forall i :: 0 <= i < |s.pages| ==> -1 <= s.pages[i].fragment < |s.fragments|)
    && (forall f :: 0 <= f < |s.fragments| ==> Run(s.pages, s.fragments[f], f))
    && Cumulative(s.fragments, s.totalMeasure)
  }

  /** The identities of the fragments lead to their positions, and nothing else is known. */
  predicate Indexed(fragments: seq<FragmentMeta>, byID: map<string, nat>) {
    && (forall id :: id in byID ==> byID[id] < |fragments| && fragments[byID[id]].fragment.id == id)
    && (forall f :: 0 <= f < |fragments| ==> fragments[f].fragment.id in byID && byID[fragments[f].fragment.id] == f)
  }

  predicate Distinct(fragments: seq<FragmentMeta>) {
    forall i, j :: 0 <= i < j < |fragments| ==> fragments[i].fragment.id != fragments[j].fragment.id
  }

  /** The index of a publication. */
  method IndexFragments(fragments: seq<FragmentMeta>) returns (byID: map<string, nat>)
    ensures Distinct(fragments) ==> Indexed(fragments, byID)
  {
    byID := map[];
    var index := 0;
    while index < |fragments|
      invariant 0 <= index <= |fragments|
      invariant forall id :: id in byID ==> byID[id] < index && fragments[byID[id]].fragment.id == id
      invariant Distinct(fragments) ==>
                  forall f :: 0 <= f < index ==> fragments[f].fragment.id in byID && byID[fragments[f].fragment.id] == f
    {
      byID := byID[fragments[index].fragment.id := index];
      index := index + 1;
    }
  }

  predicate Cumulative(fragments: seq<FragmentMeta>, total: int) {
    && (forall i :: 0 <= i < |fragments| ==> fragments[i].fragment.measure >= 0)
    && (forall i :: 0 <= i < |fragments| - 1 ==> MeasureEnd(fragments[i]) == fragments[i + 1].measureStart)
    && (if fragments == [] then total == 0
        else fragments[0].measureStart == 0 && MeasureEnd(fragments[|fragments| - 1]) == total)
  }

  function MeasureEnd(m: FragmentMeta): int {
    m.measureStart + m.fragment.measure
  }

  /** Ends of pages increase. */
  lemma {:induction false} EndsIncrease(s: State, i: nat, j: nat)
    requires ValidState(s) && i < j < |s.pages|
    ensures s.pages[i].end < s.pages[j].end && s.pages[i].end <= s.pages[j].start
    decreases j
  {
    if i + 1 < j {
      EndsIncrease(s, i, j - 1);
    }
  }

  lemma {:induction false} MeasuresIncrease(fragments: seq<FragmentMeta>, total: int, i: nat, j: nat)
    requires Cumulative(fragments, total) && i <= j < |fragments|
    ensures 0 <= fragments[i].measureStart <= fragments[j].measureStart <= MeasureEnd(fragments[j]) <= total
    ensures MeasureEnd(fragments[i]) <= MeasureEnd(fragments[j])
    ensures i < j ==> MeasureEnd(fragments[i]) <= fragments[j].measureStart
    decreases |fragments| - i, j - i
  {
    if i < j {
      MeasuresIncrease(fragments, total, i, j - 1);
    }
    if j < |fragments| - 1 {
      MeasureBelowTotal(fragments, total, j);
    }
    MeasureAboveZero(fragments, total, i);
  }

  lemma {:induction false} MeasureBelowTotal(fragments: seq<FragmentMeta>, total: int, j: nat)
    requires Cumulative(fragments, total) && j < |fragments|
    ensures MeasureEnd(fragments[j]) <= total
    decreases |fragments| - j
  {
    if j < |fragments| - 1 {
      MeasureBelowTotal(fragments, total, j + 1);
    }
  }

  lemma {:induction false} MeasureAboveZero(fragments: seq<FragmentMeta>, total: int, i: nat)
    requires Cumulative(fragments, total) && i < |fragments|
    ensures 0 <= fragments[i].measureStart
    decreases i
  {
    if i > 0 {
      MeasureAboveZero(fragments, total, i - 1);
    }
  }

  // ---------------------------------------------------------------- finding pages and fragments

  /** pageAtByte: the page that holds a byte; the last page for the end of the document. */
  method PageAtByte(s: State, offset: int) returns (index: nat)
    requires ValidState(s) && 0 <= offset <= s.length
    ensures index < |s.pages|
    ensures offset < s.length ==> s.pages[index].start <= offset < s.pages[index].end
    ensures offset == s.length ==> index == |s.pages| - 1
  {
    hide ValidState;
    PageEnds(s);
    if offset == s.length {
      return |s.pages| - 1;
    }
    var low, high := 0, |s.pages|;
    while low < high
      invariant 0 <= low <= high <= |s.pages|
      invariant low > 0 ==> s.pages[low - 1].end <= offset
      invariant high < |s.pages| ==> s.pages[high].end > offset
    {
      var middle := (low + high) / 2;
      if s.pages[middle].end > offset {
        high := middle;
      } else {
        low := middle + 1;
      }
    }
    return low;
  }

  lemma PageEnds(s: State)
    requires ValidState(s)
    ensures |s.pages| > 0 && s.pages[0].start == 0 && s.pages[|s.pages| - 1].end == s.length
    ensures forall i :: 0 < i < |s.pages| ==> s.pages[i].start == s.pages[i - 1].end
    ensures forall i :: 0 <= i < |s.pages| ==> s.pages[i].start <= s.pages[i].end
  {
    forall i | 0 < i < |s.pages|
      ensures s.pages[i].start == s.pages[i - 1].end
    {
      assert s.pages[i - 1].end == s.pages[(i - 1) + 1].start;
    }
  }

  /** The page of a byte, and the last page for the end of the document. */
  predicate HoldsByte(s: State, index: nat, x: int) {
    && index < |s.pages|
    && if x < s.length then s.pages[index].start <= x < s.pages[index].end else index == |s.pages| - 1
  }

  lemma LastPageNotEmpty(s: State)
    requires ValidState(s) && s.length > 0
    ensures s.pages[|s.pages| - 1].start < s.pages[|s.pages| - 1].end
  {
  }

  /** pageBeforeByte: the page that holds the byte before an offset. */
  method PageBeforeByte(s: State, offset: int) returns (index: nat)
    requires ValidState(s) && offset <= s.length
    ensures index < |s.pages|
    ensures offset > 0 ==> HoldsByte(s, index, offset - 1)
    ensures 0 < offset < s.length ==> s.pages[index].start < offset <= s.pages[index].end
    ensures offset <= 0 ==> index == 0
    ensures 0 < offset && offset == s.length ==> index == |s.pages| - 1
  {
    if offset <= 0 {
      return 0;
    }
    if offset >= s.length {
      LastPageNotEmpty(s);
      return |s.pages| - 1;
    }
    index := PageAtByte(s, offset - 1);
  }

  /** Which fragment a measure offset belongs to: at a common end, the affinity decides. */
  predicate AtMeasure(fragments: seq<FragmentMeta>, total: int, offset: int, affinity: Affinity, index: nat) {
    && index < |fragments|
    && (total > 0 && affinity == Before && offset > 0 ==>
          fragments[index].measureStart < offset <= MeasureEnd(fragments[index]) &&
          forall i :: index < i < |fragments| ==> fragments[i].measureStart >= offset)
    && (total > 0 && affinity == After && offset < total ==>
          fragments[index].measureStart <= offset < MeasureEnd(fragments[index]) &&
          forall i :: 0 <= i < index ==> MeasureEnd(fragments[i]) <= offset)
    && (total > 0 && affinity == Before && offset == 0 ==> index == 0)
    && (total > 0 && affinity == After && offset == total ==> index == |fragments| - 1)
    && (total == 0 ==> index == if affinity == Before then |fragments| - 1 else 0)
  }

  /** fragmentAtMeasure. */
  method FragmentAtMeasure(fragments: seq<FragmentMeta>, total: int, offset: int, affinity: Affinity)
    returns (index: nat)
    requires fragments != [] && Cumulative(fragments, total) && 0 <= offset <= total
    ensures AtMeasure(fragments, total, offset, affinity, index)
  {
    if |fragments| == 1 {
      return 0;
    }
    if total == 0 {
      return if affinity == Before then |fragments| - 1 else 0;
    }
    if affinity == Before {
      if offset == 0 {
        return 0;
      }
      index := SearchStart(fragments, total, offset);
    } else {
      index := SearchEnd(fragments, total, offset);
    }
  }

  /** The last fragment that begins before an offset. */
  method SearchStart(fragments: seq<FragmentMeta>, total: int, offset: int) returns (index: nat)
    requires fragments != [] && Cumulative(fragments, total) && 0 < offset <= total
    ensures index < |fragments| && fragments[index].measureStart < offset <= MeasureEnd(fragments[index])
    ensures forall i :: index < i < |fragments| ==> fragments[i].measureStart >= offset
  {
    var low, high := 0, |fragments|;
    while low < high
      invariant 0 <= low <= high <= |fragments|
      invariant forall i :: 0 <= i < low ==> fragments[i].measureStart < offset
      invariant forall i :: high <= i < |fragments| ==> fragments[i].measureStart >= offset
    {
      var middle := (low + high) / 2;
      if fragments[middle].measureStart >= offset {
        forall i | middle <= i < |fragments|
          ensures fragments[i].measureStart >= offset
        {
          MeasuresIncrease(fragments, total, middle, i);
        }
        high := middle;
      } else {
        forall i | 0 <= i <= middle
          ensures fragments[i].measureStart < offset
        {
          MeasuresIncrease(fragments, total, i, middle);
        }
        low := middle + 1;
      }
    }
    if low < |fragments| {
      assert fragments[(low - 1) + 1].measureStart >= offset;
    }
    return low - 1;
  }

  /** The first fragment that ends after an offset, or the last fragment. */
  method SearchEnd(fragments: seq<FragmentMeta>, total: int, offset: int) returns (index: nat)
    requires fragments != [] && Cumulative(fragments, total) && 0 <= offset <= total
    ensures index < |fragments| && (offset == total ==> index == |fragments| - 1)
    ensures offset < total ==> fragments[index].measureStart <= offset < MeasureEnd(fragments[index])
    ensures offset < total ==> forall i :: 0 <= i < index ==> MeasureEnd(fragments[i]) <= offset
  {
    var low, high := 0, |fragments|;
    while low < high
      invariant 0 <= low <= high <= |fragments|
      invariant forall i :: 0 <= i < low ==> MeasureEnd(fragments[i]) <= offset
      invariant forall i :: high <= i < |fragments| ==> MeasureEnd(fragments[i]) > offset
    {
      var middle := (low + high) / 2;
      if MeasureEnd(fragments[middle]) > offset {
        forall i | middle <= i < |fragments|
          ensures MeasureEnd(fragments[i]) > offset
        {
          MeasuresIncrease(fragments, total, middle, i);
        }
        high := middle;
      } else {
        forall i | 0 <= i <= middle
          ensures MeasureEnd(fragments[i]) <= offset
        {
          MeasuresIncrease(fragments, total, i, middle);
        }
        low := middle + 1;
      }
    }
    if low == |fragments| {
      return |fragments| - 1;
    }
    MeasureBelowTotal(fragments, total, low);
    if low > 0 {
      assert fragments[(low - 1) + 1].measureStart == MeasureEnd(fragments[low - 1]);
    }
    return low;
  }

  // ---------------------------------------------------------------- budgets

  datatype Usage = Usage(bytes: int, pages: int, fragments: set<int>, measure: int)

  /** The measure of a set of fragments, each counted once. */
  function SumOver(fragments: seq<FragmentMeta>, chosen: set<int>, n: nat): int
    requires n <= |fragments|
  {
    if n == 0 then 0
    else
      SumOver(fragments, chosen, n - 1)
      + (if n - 1 in chosen then fragments[n - 1].fragment.measure else 0)
  }

  function FragmentsIn(pages: seq<PageMeta>, from: nat, to: nat): set<int>
    requires from <= to <= |pages|
  {
    set i | from <= i < to && pages[i].fragment >= 0 :: pages[i].fragment
  }

  /** What the pages from one index up to another use. */
  function UsageOf(s: State, from: nat, to: nat): Usage
    requires from <= to <= |s.pages|
  {
    var chosen := FragmentsIn(s.pages, from, to);
    Usage(if from < to then s.pages[to - 1].end - s.pages[from].start
          else 0, to - from, chosen, SumOver(s.fragments, chosen, |s.fragments|))
  }

  predicate Within(u: Usage, b: Budget) {
    u.bytes <= b.bytes && u.pages <= b.pages && |u.fragments| <= b.fragments && u.measure <= b.measure
  }

  /** fitsPage. */
  predicate FitsPage(s: State, index: nat, b: Budget, u: Usage)
    requires index < |s.pages| && s.pages[index].fragment < |s.fragments|
  {
    var page := s.pages[index];
    if u.pages >= b.pages || page.end - page.start > b.bytes - u.bytes then false
    else if page.fragment < 0 || page.fragment in u.fragments then true
    else |u.fragments| < b.fragments && s.fragments[page.fragment].fragment.measure <= b.measure - u.measure
  }

  /** addPageUsage. */
  function AddPageUsage(s: State, index: nat, u: Usage): Usage
    requires index < |s.pages| && s.pages[index].fragment < |s.fragments|
  {
    var page := s.pages[index];
    var v := u.(bytes := u.bytes + page.end - page.start, pages := u.pages + 1);
    if page.fragment < 0 || page.fragment in u.fragments then v
    else v.(fragments := u.fragments + {page.fragment},
            measure := u.measure + s.fragments[page.fragment].fragment.measure)
  }

  /** A page fits exactly when the usage with it stays within the budget. */
  lemma FitsIsWithin(s: State, index: nat, b: Budget, u: Usage)
    requires index < |s.pages| && s.pages[index].fragment < |s.fragments| && Within(u, b)
    ensures FitsPage(s, index, b, u) <==> Within(AddPageUsage(s, index, u), b)
  {
  }

  lemma {:induction false} SumOverAdd(fragments: seq<FragmentMeta>, chosen: set<int>, f: int, n: nat)
    requires n <= |fragments| && 0 <= f < |fragments| && f !in chosen
    ensures SumOver(fragments, chosen + {f}, n)
            == SumOver(fragments, chosen, n) + (if f < n then fragments[f].fragment.measure else 0)
  {
    if n > 0 {
      SumOverAdd(fragments, chosen, f, n - 1);
    }
  }

  lemma {:induction false} SumOverNothing(fragments: seq<FragmentMeta>, n: nat)
    requires n <= |fragments|
    ensures SumOver(fragments, {}, n) == 0
  {
    if n > 0 {
      SumOverNothing(fragments, n - 1);
    }
  }

  lemma FragmentsGrow(pages: seq<PageMeta>, from: nat, to: nat, index: nat)
    requires from <= to <= |pages| && index < |pages|
             && (from == to == index || (from < to && (index + 1 == from || index == to)))
    ensures var f := pages[index].fragment;
            var chosen := FragmentsIn(pages, from, to);
            FragmentsIn(pages, if index < from then index else from, if index < from then to else to + 1)
              == if f >= 0 then chosen + {f} else chosen
  {
    var lo, hi := if index < from then index else from, if index < from then to else to + 1;
    var f := pages[index].fragment;
    var grown, chosen := FragmentsIn(pages, lo, hi), FragmentsIn(pages, from, to);
    forall g
      ensures g in grown <==> g in chosen || (f >= 0 && g == f)
    {
      if g in chosen {
        var i :| from <= i < to && pages[i].fragment >= 0 && pages[i].fragment == g;
        assert lo <= i < hi;
      }
      if f >= 0 && g == f {
        assert lo <= index < hi;
      }
      if g in grown {
        var i :| lo <= i < hi && pages[i].fragment >= 0 && pages[i].fragment == g;
        assert i == index || from <= i < to;
      }
    }
  }

  /** Growing a window by one page at its front or at its back, from no page on. */
  lemma UsageGrows(s: State, from: nat, to: nat, index: nat)
    requires ValidState(s) && from <= to <= |s.pages| && index < |s.pages| && s.pages[index].fragment < |s.fragments|
    requires from == to == index || (from < to && (index + 1 == from || index == to))
    ensures AddPageUsage(s, index, UsageOf(s, from, to)) == if index < from then UsageOf(s, index, to)
            else UsageOf(s, from, to + 1)
  {
    hide ValidState, SumOver, FragmentsIn;
    PageEnds(s);
    FragmentInRange(s, index);
    FragmentsGrow(s.pages, from, to, index);
    var chosen := FragmentsIn(s.pages, from, to);
    var f := s.pages[index].fragment;
    if f >= 0 {
      if f in chosen {
        assert chosen + {f} == chosen;
      } else {
        SumOverAdd(s.fragments, chosen, f, |s.fragments|);
      }
    }
  }

  lemma FragmentInRange(s: State, index: nat)
    requires ValidState(s) && index < |s.pages|
    ensures -1 <= s.pages[index].fragment < |s.fragments|
  {
  }

  // ---------------------------------------------------------------- windows

  datatype Window = Window(first: nat, last: nat, usage: Usage, truncatedBefore: bool, truncatedAfter: bool)

  /** What readWindow promises: a contiguous run of pages around the anchor, within budget, that reaches the desired
      ends or stops at a page that did not fit. */
  predicate GoodWindow(s: State, anchor: nat, desiredFirst: nat, desiredLast: nat, b: Budget, w: Window)
    requires anchor < |s.pages|
  {
    && desiredFirst <= w.first <= anchor <= w.last <= desiredLast < |s.pages|
    && w.usage == UsageOf(s, w.first, w.last + 1) && Within(w.usage, b)
    && (w.truncatedBefore <==> desiredFirst < w.first) && (w.truncatedAfter <==> w.last < desiredLast)
    && (w.truncatedBefore ==> !Within(UsageOf(s, w.first - 1, anchor + 1), b))
    && (w.truncatedAfter ==> !Within(UsageOf(s, w.first, w.last + 2), b))
  }

  /** readWindow, up to the reading of the bytes. */
  method ReadWindow(s: State, anchor: int, desiredFirst: int, desiredLast: int, b: Budget) returns (r: Answer<Window>)
    requires ValidState(s) && 0 <= b.bytes && 0 <= b.pages && 0 <= b.fragments && 0 <= b.measure
    ensures r == Refused(InvalidRequest) <==> !(0 <= desiredFirst <= anchor <= desiredLast < |s.pages|)
    ensures r == Refused(BudgetExceeded) <==>
              0 <= desiredFirst <= anchor <= desiredLast < |s.pages| && !Within(UsageOf(s, anchor, anchor + 1), b)
    ensures r.Found? ==> GoodWindow(s, anchor, desiredFirst, desiredLast, b, r.value)
    ensures r.Refused? ==> r.error == InvalidRequest || r.error == BudgetExceeded
  {
    hide ValidState, UsageOf, Within;
    if anchor < 0 || anchor >= |s.pages| || desiredFirst < 0 || desiredFirst > anchor || desiredLast < anchor
        || desiredLast >= |s.pages| {
      return Refused(InvalidRequest);
    }
    EmptyUsage(s, anchor, b);
    var fits, current := TryPage(s, anchor, anchor, anchor, b, Usage(0, 0, {}, 0));
    if !fits {
      return Refused(BudgetExceeded);
    }
    var first, truncatedBefore;
    current, first, truncatedBefore := GrowBefore(s, anchor, desiredFirst, b, current);
    var last, truncatedAfter;
    current, last, truncatedAfter := GrowAfter(s, first, anchor, desiredLast, b, current);
    return Found(Window(first, last, current, truncatedBefore, truncatedAfter));
  }

  /** One page more at the front or at the back of a window, if it fits. */
  method TryPage(s: State, from: nat, to: nat, index: nat, b: Budget, u: Usage) returns (fits: bool, v: Usage)
    requires ValidState(s) && from <= to <= |s.pages| && index < |s.pages|
    requires from == to == index || (from < to && (index + 1 == from || index == to))
    requires u == UsageOf(s, from, to) && Within(u, b)
    ensures var grown := if index < from then UsageOf(s, index, to) else UsageOf(s, from, to + 1);
            (fits <==> Within(grown, b)) && v == if fits then grown else u
  {
    hide ValidState, UsageOf, Within;
    FragmentInRange(s, index);
    UsageGrows(s, from, to, index);
    FitsIsWithin(s, index, b, u);
    fits := FitsPage(s, index, b, u);
    v := if fits then AddPageUsage(s, index, u) else u;
  }

  method GrowBefore(s: State, anchor: nat, desiredFirst: nat, b: Budget, u: Usage)
    returns (current: Usage, first: nat, truncated: bool)
    requires ValidState(s) && desiredFirst <= anchor < |s.pages| && u == UsageOf(s, anchor, anchor + 1) && Within(u, b)
    ensures desiredFirst <= first <= anchor && current == UsageOf(s, first, anchor + 1) && Within(current, b)
    ensures truncated <==> desiredFirst < first
    ensures truncated ==> !Within(UsageOf(s, first - 1, anchor + 1), b)
  {
    hide ValidState, UsageOf, Within;
    current, first, truncated := u, anchor, false;
    while first > desiredFirst
      invariant desiredFirst <= first <= anchor
      invariant current == UsageOf(s, first, anchor + 1) && Within(current, b) && !truncated
    {
      var fits;
      fits, current := TryPage(s, first, anchor + 1, first - 1, b, current);
      if !fits {
        truncated := true;
        return;
      }
      first := first - 1;
    }
  }

  method GrowAfter(s: State, first: nat, anchor: nat, desiredLast: nat, b: Budget, u: Usage)
    returns (current: Usage, last: nat, truncated: bool)
    requires ValidState(s) && first <= anchor <= desiredLast < |s.pages| && u == UsageOf(s, first, anchor + 1)
             && Within(u, b)
    ensures anchor <= last <= desiredLast && current == UsageOf(s, first, last + 1) && Within(current, b)
    ensures truncated <==> last < desiredLast
    ensures truncated ==> !Within(UsageOf(s, first, last + 2), b)
  {
    hide ValidState, UsageOf, Within;
    current, last, truncated := u, anchor, false;
    while last < desiredLast
      invariant anchor <= last <= desiredLast
      invariant current == UsageOf(s, first, last + 1) && Within(current, b) && !truncated
    {
      var fits;
      fits, current := TryPage(s, first, last + 1, last + 1, b, current);
      if !fits {
        truncated := true;
        return;
      }
      last := last + 1;
    }
  }

  lemma EmptyUsage(s: State, at: nat, b: Budget)
    requires at < |s.pages| && 0 <= b.bytes && 0 <= b.pages && 0 <= b.fragments && 0 <= b.measure
    ensures UsageOf(s, at, at) == Usage(0, 0, {}, 0) && Within(Usage(0, 0, {}, 0), b)
  {
    assert FragmentsIn(s.pages, at, at) == {};
    SumOverNothing(s.fragments, |s.fragments|);
  }

  // ---------------------------------------------------------------- requests

  /** A limit that a budget leaves open, or that is one at least and at most the pager's. */
  predicate Allowed(asked: int, limit: int) {
    if asked == 0 then limit >= 1 else 1 <= asked <= limit
  }

  /** resolveBudget: zeros mean the pager's own limits, and exactly what exceeds them is refused. */
  method ResolveBudget(asked: Budget, limits: Budget) returns (r: Answer<Budget>)
    ensures r.Found? <==>
              && Allowed(asked.bytes, limits.bytes) && Allowed(asked.pages, limits.pages)
              && Allowed(asked.fragments, limits.fragments) && Allowed(asked.measure, limits.measure)
    ensures r.Found? ==>
              var b := r.value;
              && 1 <= b.bytes <= limits.bytes && 1 <= b.pages <= limits.pages
              && 1 <= b.fragments <= limits.fragments && 1 <= b.measure <= limits.measure
              && b.bytes == (if asked.bytes != 0 then asked.bytes else limits.bytes)
              && b.pages == (if asked.pages != 0 then asked.pages else limits.pages)
              && b.fragments == (if asked.fragments != 0 then asked.fragments else limits.fragments)
              && b.measure == (if asked.measure != 0 then asked.measure else limits.measure)
    ensures r.Refused? ==> r.error == InvalidRequest
  {
    var b := asked;
    if b.bytes == 0 {
      b := b.(bytes := limits.bytes);
    }
    if b.pages == 0 {
      b := b.(pages := limits.pages);
    }
    if b.fragments == 0 {
      b := b.(fragments := limits.fragments);
    }
    if b.measure == 0 {
      b := b.(measure := limits.measure);
    }
    if b.bytes < 1 || b.pages < 1 || b.fragments < 1 || b.measure < 1 ||
       b.bytes > limits.bytes || b.pages > limits.pages || b.fragments > limits.fragments
           || b.measure > limits.measure {
      return Refused(InvalidRequest);
    }
    return Found(b);
  }

  /** A page within the limits of the pager always fits a budget of those limits, whatever the document. */
  lemma AnchorFits(s: State, anchor: nat, limits: Budget)
    requires ValidState(s) && anchor < |s.pages|
    requires s.pages[anchor].end - s.pages[anchor].start <= limits.bytes && 1 <= limits.pages && 1 <= limits.fragments
             && 0 <= limits.measure && 0 <= limits.bytes
    requires forall f :: 0 <= f < |s.fragments| ==> s.fragments[f].fragment.measure <= limits.measure
    ensures Within(UsageOf(s, anchor, anchor + 1), limits)
  {
    hide ValidState;
    EmptyUsage(s, anchor, limits);
    FragmentInRange(s, anchor);
    UsageGrows(s, anchor, anchor, anchor);
  }

  /** The byte that a window must reach: the request's range, clipped to the document. */
  function RangeEnd(offset: int, after: int, length: int): int {
    if offset <= MAX_INT64 - after && offset + after < length then offset + after else length
  }

  /** WindowByByte: the pages from the one with the first wanted byte to the one with the last, around the page at the
      offset. */
  method WindowByByte(s: State, offset: int, before: int, after: int, b: Budget)
    returns (r: Answer<Window>, ghost first: nat, ghost anchor: nat, ghost last: nat)
    requires ValidState(s) && s.length <= MAX_INT64 && 0 <= b.bytes && 0 <= b.pages && 0 <= b.fragments
             && 0 <= b.measure
    ensures r == Refused(InvalidRequest) <==> offset < 0 || before < 0 || after < 0 || offset > s.length
    ensures r != Refused(InvalidRequest) ==>
              && first <= anchor <= last && HoldsByte(s, anchor, offset)
              && (if before == 0 then first == anchor else HoldsByte(s, first, Max(0, offset - before)))
              && (if after == 0 || offset == s.length then last == anchor
                  else HoldsByte(s, last, RangeEnd(offset, after, s.length) - 1))
              && (r.Refused? <==> !Within(UsageOf(s, anchor, anchor + 1), b))
    ensures r.Found? ==> anchor < |s.pages| && GoodWindow(s, anchor, first, last, b, r.value)
  {
    hide UsageOf, Within, GoodWindow, ValidState;
    PageEnds(s);
    first, anchor, last := 0, 0, 0;
    if offset < 0 || before < 0 || after < 0 || offset > s.length {
      return Refused(InvalidRequest), first, anchor, last;
    }
    var at := PageAtByte(s, offset);
    var from, to := at, at;
    if before > 0 {
      from := PageAtByte(s, offset - Min(offset, before));
      NotAfter(s, from, at, offset - Min(offset, before), offset);
    }
    if after > 0 {
      var end := RangeEnd(offset, after, s.length);
      if end > offset {
        to := PageBeforeByte(s, end);
        NotAfter(s, at, to, offset, end - 1);
      }
    }
    first, anchor, last := from, at, to;
    r := ReadWindow(s, at, from, to, b);
  }

  /** An earlier byte is not on a later page. */
  lemma NotAfter(s: State, i: nat, j: nat, x: int, y: int)
    requires ValidState(s) && i < |s.pages| && j < |s.pages| && x <= y
    requires s.pages[i].start <= x && (y < s.pages[j].end || j == |s.pages| - 1)
    ensures i <= j
  {
    if j < i {
      EndsIncrease(s, j, i);
    }
  }

  /** The fragment of an earlier offset never comes after the fragment of a later one, whatever the affinities. */
  lemma MeasureOrder(fragments: seq<FragmentMeta>, total: int, x: int, i: nat, y: int, a: Affinity, j: nat)
    requires fragments != [] && Cumulative(fragments, total) && 0 <= x <= total && 0 <= y <= total
    requires AtMeasure(fragments, total, x, After, i) && x < y && AtMeasure(fragments, total, y, a, j)
    ensures i <= j
  {
    if j < i {
      MeasuresIncrease(fragments, total, j, i);
      MeasureBelowTotal(fragments, total, j);
    }
  }

  lemma MeasureOrderBefore(fragments: seq<FragmentMeta>, total: int, x: int, a: Affinity, i: nat, y: int, j: nat)
    requires fragments != [] && Cumulative(fragments, total) && 0 <= x <= total && 0 <= y <= total
    requires AtMeasure(fragments, total, x, a, i) && x < y && AtMeasure(fragments, total, y, Before, j)
    ensures i <= j
  {
    if j < i {
      MeasuresIncrease(fragments, total, j, i);
    }
  }

  /** Fragments in document order, none empty. */
  predicate InOrder(fragments: seq<FragmentMeta>) {
    && (forall k :: 0 <= k < |fragments| - 1 ==> fragments[k].fragment.end <= fragments[k + 1].fragment.start)
    && (forall k :: 0 <= k < |fragments| ==> fragments[k].fragment.start < fragments[k].fragment.end)
  }

  /** Runs of later fragments begin after those of earlier ones end. */
  lemma RunsInOrder(s: State, i: nat, j: nat)
    requires ValidState(s) && InOrder(s.fragments) && i <= j < |s.fragments|
    ensures 0 <= s.fragments[i].pageFirst <= s.fragments[j].pageFirst <= s.fragments[j].pageLast < |s.pages|
    ensures s.fragments[i].pageLast <= s.fragments[j].pageLast
    decreases j - i
  {
    assert Run(s.pages, s.fragments[i], i) && Run(s.pages, s.fragments[j], j);
    if i < j {
      OrderedFragments(s.fragments, i, j);
      var a, b := s.fragments[i].pageLast, s.fragments[j].pageFirst;
      if b <= a {
        PageSpan(s, b, a);
      }
    }
  }

  lemma {:induction false} OrderedFragments(fragments: seq<FragmentMeta>, i: nat, j: nat)
    requires InOrder(fragments) && i < j < |fragments|
    ensures fragments[i].fragment.end <= fragments[j].fragment.start
    decreases j
  {
    if i + 1 < j {
      OrderedFragments(fragments, i, j - 1);
    }
  }

  lemma RunFacts(s: State, f: nat)
    requires ValidState(s) && f < |s.fragments|
    ensures var m := s.fragments[f];
            0 <= m.pageFirst <= m.pageLast < |s.pages| && forall i :: m.pageFirst <= i <= m.pageLast ==>
                  s.pages[i].fragment == f
  {
    assert Run(s.pages, s.fragments[f], f);
  }

  lemma StateSums(s: State)
    requires ValidState(s)
    ensures Cumulative(s.fragments, s.totalMeasure)
  {
  }

  lemma PageSpan(s: State, i: nat, j: nat)
    requires ValidState(s) && i <= j < |s.pages|
    ensures s.pages[i].start <= s.pages[j].start && s.pages[i].end <= s.pages[j].end
            && s.pages[i].start <= s.pages[j].end
    ensures s.length > 0 ==> s.pages[i].start < s.pages[j].end
  {
    if i < j {
      EndsIncrease(s, i, j);
    }
  }

  /** The window around a page of a fragment, or its refusal when that page alone exceeds the budget. */
  ghost predicate FragmentWindow(s: State, f: nat, continuation: int, before: int, after: int, b: Budget,
                                 r: Answer<Window>)
    requires f < |s.fragments|
  {
    var first, last := Max(0, f - before), Min(|s.fragments| - 1, f + after);
    var anchor := s.fragments[f].pageFirst + continuation;
    && 0 <= first <= f <= last < |s.fragments| && 0 <= anchor < |s.pages| && s.pages[anchor].fragment == f
    && 0 <= s.fragments[first].pageFirst && 0 <= s.fragments[last].pageLast
    && (r.Refused? <==> !Within(UsageOf(s, anchor, anchor + 1), b))
    && (r.Found? ==> GoodWindow(s, anchor, s.fragments[first].pageFirst, s.fragments[last].pageLast, b, r.value))
  }

  /** WindowByFragment: a numbered page of the fragment with an identity, and all pages of its neighbours. */
  method WindowByFragment(s: State, id: string, continuation: int, before: int, after: int, b: Budget)
    returns (r: Answer<Window>)
    requires ValidState(s) && InOrder(s.fragments) && Indexed(s.fragments, s.byID)
    requires 0 <= b.bytes && 0 <= b.pages && 0 <= b.fragments && 0 <= b.measure
    ensures r == Refused(InvalidRequest) <==>
              || id == "" || continuation < 0 || before < 0 || after < 0
              || (id in s.byID && continuation > s.fragments[s.byID[id]].pageLast - s.fragments[s.byID[id]].pageFirst)
    ensures r == Refused(NotFound) <==>
              && id != "" && continuation >= 0 && before >= 0 && after >= 0
              && forall f :: 0 <= f < |s.fragments| ==> s.fragments[f].fragment.id != id
    ensures r.Found? || r == Refused(BudgetExceeded) ==>
              id in s.byID && FragmentWindow(s, s.byID[id], continuation, before, after, b, r)
    ensures r.Refused? ==> r.error == InvalidRequest || r.error == NotFound || r.error == BudgetExceeded
  {
    hide UsageOf, Within, GoodWindow, ValidState, Run, InOrder, Cumulative, AtMeasure;
    if id == "" || continuation < 0 || before < 0 || after < 0 {
      return Refused(InvalidRequest);
    }
    if id !in s.byID {
      return Refused(NotFound);
    }
    var fragmentIndex := s.byID[id];
    var firstFragment := fragmentIndex - Min(fragmentIndex, before);
    var lastFragment := |s.fragments| - 1;
    if after < lastFragment - fragmentIndex {
      lastFragment := fragmentIndex + after;
    }
    var target := s.fragments[fragmentIndex];
    if continuation >= target.pageLast - target.pageFirst + 1 {
      return Refused(InvalidRequest);
    }
    var anchor := target.pageFirst + continuation;
    RunsInOrder(s, firstFragment, fragmentIndex);
    RunsInOrder(s, fragmentIndex, lastFragment);
    RunFacts(s, fragmentIndex);
    r := ReadWindow(s, anchor, s.fragments[firstFragment].pageFirst, s.fragments[lastFragment].pageLast, b);
  }

  /** The page of a fragment that a measure offset stands at: the last one at the end of all measure and for an offset
      that belongs to what is before it, and otherwise the first. */
  function AnchorPage(s: State, offset: int, affinity: Affinity, m: FragmentMeta): int {
    var inside := s.totalMeasure == 0 || 0 < offset < s.totalMeasure;
    if (inside && affinity == Before) || (!inside && offset != 0) then m.pageLast else m.pageFirst
  }

  /** The fragment at a measure offset, and the page of it that a window is built around. */
  method MeasureAnchor(s: State, offset: int, affinity: Affinity) returns (fragment: nat, page: int)
    requires ValidState(s) && s.fragments != [] && 0 <= offset <= s.totalMeasure
    ensures AtMeasure(s.fragments, s.totalMeasure, offset, affinity, fragment) && fragment < |s.fragments|
    ensures 0 <= s.fragments[fragment].pageFirst <= page <= s.fragments[fragment].pageLast < |s.pages|
    ensures s.pages[page].fragment == fragment
            && page == AnchorPage(s, offset, affinity, s.fragments[fragment])
  {
    hide ValidState, Cumulative, Run, AtMeasure;
    StateSums(s);
    fragment := FragmentAtMeasure(s.fragments, s.totalMeasure, offset, affinity);
    MeasureIndex(s.fragments, s.totalMeasure, offset, affinity, fragment);
    RunFacts(s, fragment);
    page := s.fragments[fragment].pageFirst;
    if s.totalMeasure > 0 && offset == 0 {
      page := s.fragments[fragment].pageFirst;
    } else if s.totalMeasure > 0 && offset == s.totalMeasure {
      page := s.fragments[fragment].pageLast;
    } else if affinity == Before {
      page := s.fragments[fragment].pageLast;
    }
  }

  lemma MeasureIndex(fragments: seq<FragmentMeta>, total: int, offset: int, affinity: Affinity, index: nat)
    requires AtMeasure(fragments, total, offset, affinity, index)
    ensures index < |fragments|
  {
  }

  /** WindowByMeasure: the fragments that a stretch of measure touches, around the page at its offset. The page always
      lies in the stretch. */
  method WindowByMeasure(s: State, offset: int, before: int, after: int, affinity: Affinity, b: Budget)
    returns (r: Answer<Window>, ghost f: nat, ghost first: nat, ghost anchor: nat, ghost last: nat)
    requires ValidState(s) && InOrder(s.fragments) && s.totalMeasure <= MAX_INT64
    requires 0 <= b.bytes && 0 <= b.pages && 0 <= b.fragments && 0 <= b.measure
    ensures r == Refused(InvalidRequest) <==>
              offset < 0 || before < 0 || after < 0 || (s.fragments != [] && offset > s.totalMeasure)
    ensures r == Refused(MeasureUnavailable) <==> offset >= 0 && before >= 0 && after >= 0 && s.fragments == []
    ensures r.Found? || r == Refused(BudgetExceeded) ==>
              && MeasureWindow(s, offset, before, after, affinity, f, first, last) && anchor < |s.pages|
              && s.pages[anchor].fragment == f && anchor == AnchorPage(s, offset, affinity, s.fragments[f])
              && s.fragments[first].pageFirst <= anchor <= s.fragments[last].pageLast < |s.pages|
    ensures r.Found? ==> GoodWindow(s, anchor, s.fragments[first].pageFirst, s.fragments[last].pageLast, b, r.value)
  {
    hide UsageOf, Within, GoodWindow, ValidState, Run, InOrder, Cumulative, AtMeasure, MeasureEnd;
    f, first, anchor, last := 0, 0, 0, 0;
    if offset < 0 || before < 0 || after < 0 {
      r := Refused(InvalidRequest);
      return;
    }
    if |s.fragments| == 0 {
      r := Refused(MeasureUnavailable);
      return;
    }
    if offset > s.totalMeasure {
      r := Refused(InvalidRequest);
      return;
    }
    StateSums(s);
    var fragment, page := MeasureAnchor(s, offset, affinity);
    var from, to := fragment, fragment;
    if before > 0 {
      var start := offset - Min(offset, before);
      if start < offset {
        from := FragmentAtMeasure(s.fragments, s.totalMeasure, start, After);
        MeasureOrder(s.fragments, s.totalMeasure, start, from, offset, affinity, fragment);
      }
    }
    if after > 0 {
      var end := RangeEnd(offset, after, s.totalMeasure);
      if end > offset {
        to := FragmentAtMeasure(s.fragments, s.totalMeasure, end, Before);
        MeasureOrderBefore(s.fragments, s.totalMeasure, offset, affinity, fragment, end, to);
      }
    }
    RunsInOrder(s, from, fragment);
    RunsInOrder(s, fragment, to);
    f, first, anchor, last := fragment, from, page, to;
    r := ReadWindow(s, page, s.fragments[from].pageFirst, s.fragments[to].pageLast, b);
  }

  /** The fragments of a measure request: the one at the offset, and those at both ends of the stretch. */
  predicate MeasureWindow(s: State, offset: int, before: int, after: int, affinity: Affinity, f: nat, first: nat,
                          last: nat) {
    && first <= f <= last < |s.fragments|
    && AtMeasure(s.fragments, s.totalMeasure, offset, affinity, f)
    && (if Min(offset, before) > 0
        then AtMeasure(s.fragments, s.totalMeasure, offset - Min(offset, before), After, first) else first == f)
    && (var end := RangeEnd(offset, after, s.totalMeasure);
        if after > 0 && end > offset then AtMeasure(s.fragments, s.totalMeasure, end, Before, last) else last == f)
  }

  // ---------------------------------------------------------------- published tables are window states

  /** Every published page lies inside one logical page, and so keeps its size limit. */
  lemma PublishedPageSize(doc: seq<byte>, logical: seq<PageMeta>, fragments: seq<FragmentMeta>, indexedThrough: int,
                          pages: seq<PageMeta>, target: nat, maximum: nat, i: nat)
    requires doc != [] && PageTable(doc, logical, target, maximum)
             && Published(doc, logical, fragments, indexedThrough, pages) && i < |pages|
    ensures pages[i].end - pages[i].start <= maximum
    ensures exists j :: 0 <= j < |logical| && logical[j].start <= pages[i].start && pages[i].end <= logical[j].end
  {
    hide Published, EndsWell, PageFor, GoodPage;
    PublishedEnds(doc, logical, fragments, indexedThrough, pages, i);
    var j := LogicalOf(doc, logical, target, maximum, pages[i].start, |logical|);
    PageAt(doc, logical, |doc|, target, maximum, j);
    LogicalSize(doc, logical[j].start, logical[j].end, target, maximum);
    if logical[j].end < pages[i].end {
      PublishedCut(doc, logical, fragments, indexedThrough, pages, i, j);
    }
  }

  lemma LogicalSize(doc: seq<byte>, start: nat, end: nat, target: nat, maximum: nat)
    requires EndsWell(doc, start, end, target, maximum)
    ensures end - start <= maximum
  {
  }

  lemma PublishedEnds(doc: seq<byte>, logical: seq<PageMeta>, fragments: seq<FragmentMeta>, indexedThrough: int,
                      pages: seq<PageMeta>, i: nat)
    requires Published(doc, logical, fragments, indexedThrough, pages) && i < |pages|
    ensures 0 <= pages[i].start < pages[i].end <= |doc|
  {
    assert GoodPage(doc, fragments, indexedThrough, pages[i]);
  }

  /** No logical end lies strictly inside a published page. */
  lemma PublishedCut(doc: seq<byte>, logical: seq<PageMeta>, fragments: seq<FragmentMeta>, indexedThrough: int,
                     pages: seq<PageMeta>, i: nat, j: nat)
    requires Published(doc, logical, fragments, indexedThrough, pages) && i < |pages| && j < |logical|
    ensures logical[j].end <= pages[i].start || logical[j].end >= pages[i].end
  {
    hide GoodPage;
    assert IsPageEnd(pages, logical[j].end);
    var k :| 0 <= k < |pages| && logical[j].end == pages[k].end;
    if k < i {
      PublishedOrder(doc, logical, fragments, indexedThrough, pages, k, i);
    } else if i < k {
      PublishedOrder(doc, logical, fragments, indexedThrough, pages, i, k);
      PublishedEnds(doc, logical, fragments, indexedThrough, pages, k);
    }
  }

  lemma {:induction false} PublishedOrder(doc: seq<byte>, logical: seq<PageMeta>, fragments: seq<FragmentMeta>,
                                          indexedThrough: int, pages: seq<PageMeta>, i: nat, j: nat)
    requires Published(doc, logical, fragments, indexedThrough, pages) && i < j < |pages|
    ensures pages[i].end <= pages[j].start
    decreases j
  {
    hide GoodPage;
    assert pages[j - 1].end == pages[(j - 1) + 1].start;
    if i + 1 < j {
      PublishedOrder(doc, logical, fragments, indexedThrough, pages, i, j - 1);
      PublishedEnds(doc, logical, fragments, indexedThrough, pages, j - 1);
    }
  }

  /** The logical page of a byte. */
  ghost function LogicalOf(doc: seq<byte>, logical: seq<PageMeta>, target: nat, maximum: nat, x: int, n: nat): (j: nat)
    requires doc != [] && PageTable(doc, logical, target, maximum) && n <= |logical|
    requires 0 <= x && n > 0 && x < logical[n - 1].end
    ensures j < n && logical[j].start <= x < logical[j].end
    decreases n
  {
    PageAt(doc, logical, |doc|, target, maximum, n - 1);
    if logical[n - 1].start <= x then n - 1 else LogicalOf(doc, logical, target, maximum, x, n - 1)
  }

  lemma MetasDisjoint(p: Publication, length: int, limits: Limits)
    requires Acceptable(p, length, limits)
    ensures Disjoint(Metas(p.fragments)) && InOrder(Metas(p.fragments))
    ensures forall f :: 0 <= f < |p.fragments| ==>
              Metas(p.fragments)[f].fragment.end <= length && 0 <= p.fragments[f].measure <= limits.windowMeasure
  {
    var metas := Metas(p.fragments);
    forall i | 0 <= i < |metas|
      ensures 0 <= metas[i].fragment.start < metas[i].fragment.end <= length
              && 0 <= p.fragments[i].measure <= limits.windowMeasure
      ensures i + 1 < |metas| ==> metas[i].fragment.end <= metas[i + 1].fragment.start
    {
      FragmentBounds(p.fragments, p.indexedThrough, limits, i);
      if i + 1 < |metas| {
        FragmentBounds(p.fragments, p.indexedThrough, limits, i + 1);
      }
    }
    forall i, j | 0 <= i < j < |metas|
      ensures metas[i].fragment.end <= metas[j].fragment.start
    {
      OrderedFragments(metas, i, j);
    }
  }

  lemma {:induction false} FragmentBounds(fragments: seq<Fragment>, indexedThrough: int, limits: Limits, i: nat)
    requires GoodFragments(fragments, indexedThrough, limits) && i < |fragments|
    ensures var f := fragments[i];
            0 <= EndBefore(fragments, i) <= f.start < f.end <= indexedThrough && 0 <= f.measure <= limits.windowMeasure
    decreases i
  {
    assert GoodFragment(fragments, i, indexedThrough, limits);
    if i > 0 {
      FragmentBounds(fragments, indexedThrough, limits, i - 1);
    }
  }

  lemma MetasCumulative(p: Publication, length: int, limits: Limits)
    requires Acceptable(p, length, limits)
    ensures Cumulative(Metas(p.fragments), TotalMeasure(p.fragments))
  {
    var fragments := p.fragments;
    forall i | 0 <= i < |fragments|
      ensures fragments[i].measure >= 0 && fragments[..i + 1][..i] == fragments[..i]
    {
      FragmentBounds(fragments, p.indexedThrough, limits, i);
    }
    if fragments != [] {
      assert fragments[..|fragments| - 1 + 1] == fragments;
    }
  }

  /** Publication from end to end: an accepted publication gives a window state over the whole document in which every
      page keeps the size limit, so that a window with the pager's own limits always contains its anchor. */
  method Publish(doc: seq<byte>, logical: seq<PageMeta>, p: Publication, limits: Limits, ghost target: nat,
                 ghost maximum: nat)
    returns (r: Outcome<State>)
    requires Utf8.Valid(doc) && PageTable(doc, logical, target, maximum) && limits.windowMeasure <= MAX_INT64
    ensures r.Done? ==>
              && Acceptable(p, |doc|, limits) && ValidState(r.value) && InOrder(r.value.fragments)
              && r.value.length == |doc|
              && Indexed(r.value.fragments, r.value.byID)
              && SameFragments(r.value.fragments, Metas(p.fragments))
              && (if doc == [] then r.value.pages == [EmptyPage.(indexed := p.complete)] && r.value.fragments == []
                  else Published(doc, logical, r.value.fragments, p.indexedThrough, r.value.pages))
              && forall i :: 0 <= i < |r.value.pages| ==> r.value.pages[i].end - r.value.pages[i].start <= maximum
    ensures r == Failed(InvalidPublication) ==> !Acceptable(p, |doc|, limits)
    ensures r == Failed(InvalidFragment) && Acceptable(p, |doc|, limits) ==>
              exists x :: IsExtra(Metas(p.fragments), p.indexedThrough, |doc|, x) && 0 <= x <= |doc|
                  && !Utf8.RuneStart(doc, x)
  {
    hide Utf8.Valid, PageTable, Published, ValidState, Acceptable, Run;
    var validated := ValidateFragments(p, |doc|, limits);
    if validated.Failed? {
      return Failed(validated.error);
    }
    MetasDisjoint(p, |doc|, limits);
    Watermark(p, |doc|, limits);
    var built := BuildPublishedPages(doc, logical, validated.value.0, p.indexedThrough, p.complete, target, maximum);
    if built.Failed? {
      return Failed(built.error);
    }
    var byID := IndexFragments(built.value.1);
    var state := State(built.value.0, built.value.1, byID, |doc|, validated.value.1);
    if |doc| > 0 {
      PublishedDistinct(p, |doc|, limits, state.fragments);
      MetasCumulative(p, |doc|, limits);
      PublishedIsState(doc, logical, state.fragments, p.indexedThrough, state.pages, Metas(p.fragments), byID,
                       state.totalMeasure);
      forall i | 0 <= i < |state.pages|
        ensures state.pages[i].end - state.pages[i].start <= maximum
      {
        PublishedPageSize(doc, logical, state.fragments, p.indexedThrough, state.pages, target, maximum, i);
      }
    } else {
      EmptyIsState(p, limits, state);
    }
    return Done(state);
  }

  /** Only an empty list of fragments is accepted for an empty document, which has one empty page. */
  lemma EmptyIsState(p: Publication, limits: Limits, s: State)
    requires Acceptable(p, 0, limits)
    requires s.pages == [EmptyPage.(indexed := p.complete)] && s.fragments == Metas(p.fragments) && s.length == 0
    requires s.totalMeasure == TotalMeasure(p.fragments)
    ensures p.fragments == [] && ValidState(s) && InOrder(s.fragments) && Distinct(s.fragments)
  {
    if p.fragments != [] {
      FragmentBounds(p.fragments, p.indexedThrough, limits, 0);
    }
  }

  lemma PublishedDistinct(p: Publication, length: int, limits: Limits, fragments: seq<FragmentMeta>)
    requires Acceptable(p, length, limits) && SameFragments(fragments, Metas(p.fragments))
    ensures Distinct(fragments)
  {
    forall i, j | 0 <= i < j < |fragments|
      ensures fragments[i].fragment.id != fragments[j].fragment.id
    {
      assert GoodFragment(p.fragments, j, p.indexedThrough, limits);
    }
  }

  lemma Watermark(p: Publication, length: int, limits: Limits)
    requires Acceptable(p, length, limits)
    ensures 0 <= p.indexedThrough <= length
    ensures forall f :: 0 <= f < |p.fragments| ==>
              Metas(p.fragments)[f].pageFirst == Metas(p.fragments)[f].pageLast == -1
  {
  }

  lemma PublishedIsState(doc: seq<byte>, logical: seq<PageMeta>, fragments: seq<FragmentMeta>, indexedThrough: int,
                         pages: seq<PageMeta>, metas: seq<FragmentMeta>, byID: map<string, nat>, total: int)
    requires doc != [] && Published(doc, logical, fragments, indexedThrough, pages)
    requires SameFragments(fragments, metas) && Cumulative(metas, total) && InOrder(metas)
    ensures ValidState(State(pages, fragments, byID, |doc|, total)) && InOrder(fragments)
  {
    hide GoodPage, Run;
    forall i | 0 <= i < |pages|
      ensures pages[i].start < pages[i].end && -1 <= pages[i].fragment < |fragments|
    {
      PublishedEnds(doc, logical, fragments, indexedThrough, pages, i);
      StillGood(doc, fragments, fragments, indexedThrough, pages[i], pages[i]);
    }
    SameOrder(fragments, metas, total);
    hide Published, Cumulative, InOrder;
    PublishedShape(doc, logical, fragments, indexedThrough, pages);
  }

  lemma SameOrder(a: seq<FragmentMeta>, b: seq<FragmentMeta>, total: int)
    requires SameFragments(a, b) && Cumulative(b, total) && InOrder(b)
    ensures Cumulative(a, total) && InOrder(a)
  {
  }

  lemma PublishedShape(doc: seq<byte>, logical: seq<PageMeta>, fragments: seq<FragmentMeta>, indexedThrough: int,
                       pages: seq<PageMeta>)
    requires Published(doc, logical, fragments, indexedThrough, pages)
    ensures |pages| > 0 && pages[0].start == 0 && pages[|pages| - 1].end == |doc|
    ensures forall i :: 0 <= i < |pages| - 1 ==> pages[i].end == pages[i + 1].start
    ensures forall f :: 0 <= f < |fragments| ==> Run(pages, fragments[f], f)
  {
    hide GoodPage, Run;
  }

  // ---------------------------------------------------------------- the options of a pager

  const DEFAULT_TARGET_PAGE_BYTES := 0x1_0000
  const DEFAULT_MAXIMUM_PAGE_BYTES := 0x4_0000
  const MAXIMUM_PAGE_BYTES := 0x400_0000
  const DEFAULT_MAXIMUM_FRAGMENTS := 0x10_0000
  const MAXIMUM_FRAGMENTS := 0x100_0000
  const DEFAULT_MAXIMUM_KEY_BYTES := 0x100_0000
  const MAXIMUM_KEY_BYTES := 0x1000_0000
  const DEFAULT_WINDOW := Budget(0x40_0000, 128, 4096, 0x4_0000_0000_0000)
  const MAXIMUM_WINDOW := Budget(0x4000_0000, 0x10_0000, 0x100_0000, MAX_INT64)

  datatype Options = Options(targetPageBytes: int, maximumPageBytes: int, maximumFragments: int, maximumKeyBytes: int,
                             window: Budget)

  predicate AtMost(b: Budget, c: Budget) {
    b.bytes <= c.bytes && b.pages <= c.pages && b.fragments <= c.fragments && b.measure <= c.measure
  }

  predicate ResolvedOptions(o: Options) {
    && 4 <= o.targetPageBytes <= o.maximumPageBytes <= MAXIMUM_PAGE_BYTES
    && 1 <= o.maximumFragments <= MAXIMUM_FRAGMENTS && 1 <= o.maximumKeyBytes <= MAXIMUM_KEY_BYTES
    && AtMost(Budget(1, 1, 1, 1), o.window) && AtMost(o.window, MAXIMUM_WINDOW) && o.maximumPageBytes <= o.window.bytes
  }

  function OrDefault(value: int, otherwise: int): int {
    if value == 0 then otherwise else value
  }

  /** resolveOptions, for the limits that pages and windows depend on: zeros become defaults, and a window always has
      room for a page of the largest size. */
  method ResolveOptions(o: Options) returns (r: Answer<Options>)
    ensures r.Found? ==> ResolvedOptions(r.value)
    ensures r.Found? && o.maximumPageBytes != 0 ==> r.value.maximumPageBytes == o.maximumPageBytes
    ensures ResolvedOptions(o) ==> r == Found(o)
    ensures o == Options(0, 0, 0, 0, Budget(0, 0, 0, 0)) ==>
              r == Found(Options(DEFAULT_TARGET_PAGE_BYTES, DEFAULT_MAXIMUM_PAGE_BYTES, DEFAULT_MAXIMUM_FRAGMENTS,
                                 DEFAULT_MAXIMUM_KEY_BYTES, DEFAULT_WINDOW))
  {
    var window := Budget(OrDefault(o.window.bytes, DEFAULT_WINDOW.bytes),
                         OrDefault(o.window.pages, DEFAULT_WINDOW.pages),
                         OrDefault(o.window.fragments, DEFAULT_WINDOW.fragments),
                             OrDefault(o.window.measure, DEFAULT_WINDOW.measure));
    var resolved := Options(OrDefault(o.targetPageBytes, DEFAULT_TARGET_PAGE_BYTES),
                            OrDefault(o.maximumPageBytes, DEFAULT_MAXIMUM_PAGE_BYTES),
                            OrDefault(o.maximumFragments, DEFAULT_MAXIMUM_FRAGMENTS),
                                OrDefault(o.maximumKeyBytes, DEFAULT_MAXIMUM_KEY_BYTES), window);
    if resolved.targetPageBytes < 4 || resolved.maximumPageBytes < resolved.targetPageBytes
        || resolved.maximumPageBytes > MAXIMUM_PAGE_BYTES ||
       resolved.maximumFragments < 1 || resolved.maximumFragments > MAXIMUM_FRAGMENTS ||
       resolved.maximumKeyBytes < 1 || resolved.maximumKeyBytes > MAXIMUM_KEY_BYTES ||
       window.bytes < 1 || window.pages < 1 || window.fragments < 1 || window.measure < 1
           || !AtMost(window, MAXIMUM_WINDOW) ||
       window.bytes < resolved.maximumPageBytes {
      return Refused(InvalidRequest);
    }
    return Found(resolved);
  }

  /** With the budget that a pager was configured with, no request about a published document is refused for its budget:
      whatever was published under the same options, the page around which the window is built always fits. */
  lemma DefaultBudgetFits(doc: seq<byte>, logical: seq<PageMeta>, s: State, o: Options, p: Publication, anchor: nat)
    requires ResolvedOptions(o) && doc != [] && PageTable(doc, logical, o.targetPageBytes, o.maximumPageBytes)
    requires Acceptable(p, |doc|, Limits(o.maximumFragments, o.maximumKeyBytes, o.window.measure))
    requires ValidState(s) && SameFragments(s.fragments, Metas(p.fragments))
    requires Published(doc, logical, s.fragments, p.indexedThrough, s.pages) && anchor < |s.pages|
    ensures Within(UsageOf(s, anchor, anchor + 1), o.window)
  {
    hide Published, PageTable, ValidState, Acceptable, UsageOf, Within;
    var limits := Limits(o.maximumFragments, o.maximumKeyBytes, o.window.measure);
    PublishedPageSize(doc, logical, s.fragments, p.indexedThrough, s.pages, o.targetPageBytes, o.maximumPageBytes,
                      anchor);
    MetasDisjoint(p, |doc|, limits);
    AnchorFits(s, anchor, o.window);
  }
}
