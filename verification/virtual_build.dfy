/** Logical pages of document/virtual: a table over the whole document, built from reads of any size. */
module VirtualBuild {
  import opened Documents
  import opened Utf8
  import BaseScan

  const SCAN_BUFFER_BYTES := 65536

  datatype PageMeta = PageMeta(
    start: int, end: int, startLine: int, endLine: int, continuesFrom: bool, continuesTo: bool, endsWithLF: bool,
    fragment: int, continuation: int, continuations: int, measureStart: int, measureEnd: int, indexed: bool)

  datatype Error = InvalidUTF8 | Aborted
  datatype Result<+T> = Success(value: T) | Failure(error: Error)

  // ---------------------------------------------------------------- what a page table is

  /** The line data of a stretch of the document. */
  function PageFor(doc: seq<byte>, start: nat, end: nat): PageMeta
    requires start <= end <= |doc|
  {
    PageMeta(start, end, CountLF(doc[..start]), CountLF(doc[..end]),
             start > 0 && doc[start - 1] != LF, end < |doc| && end > 0 && doc[end - 1] != LF, end > 0
                 && doc[end - 1] == LF,
             -1, 0, 0, 0, 0, false)
  }

  const EmptyPage := PageMeta(0, 0, 0, 0, false, false, false, -1, 0, 0, 0, 0, false)

  /** A page ends with the first line end at or past the target, unless the hard limit comes first. */
  predicate EndsWell(doc: seq<byte>, start: nat, end: nat, target: nat, maximum: nat) {
    && start < end <= |doc| && end - start <= maximum && Valid(doc[..end])
    && (forall p :: start <= p < end - 1 && doc[p] == LF ==> p + 1 - start < target)
    && (end == |doc| || (doc[end - 1] == LF && end - start >= target) || end + RuneLen(doc[end..]) - start > maximum)
  }

  /** Pages from one offset to another, each beginning where the one before it ends. */
  predicate Pages(doc: seq<byte>, pages: seq<PageMeta>, to: nat, target: nat, maximum: nat)
    decreases |pages|
  {
    if pages == [] then to == 0
    else
      var last := pages[|pages| - 1];
      && 0 <= last.start < last.end == to <= |doc|
      && EndsWell(doc, last.start, last.end, target, maximum) && last == PageFor(doc, last.start, last.end)
      && Pages(doc, pages[..|pages| - 1], last.start, target, maximum)
  }

  predicate PageTable(doc: seq<byte>, pages: seq<PageMeta>, target: nat, maximum: nat) {
    if doc == [] then pages == [EmptyPage] else Pages(doc, pages, |doc|, target, maximum)
  }

  // ---------------------------------------------------------------- there is only one

  /** Two rune boundaries are at least a rune apart. */
  lemma NextBoundary(doc: seq<byte>, p: nat, q: nat)
    requires Valid(doc) && p < q <= |doc| && Valid(doc[..p]) && Valid(doc[..q])
    ensures q >= p + RuneLen(doc[p..]) && RuneLen(doc[p..]) > 0
  {
    SelfSynchronizing(doc, p);
    SelfSynchronizing(doc, q);
    RuneLenFacts(doc[p..]);
    assert forall i :: p < i < |doc| ==> doc[i] == doc[p..][i - p];
  }

  /** From the same start there is only one good end. */
  lemma OneEnd(doc: seq<byte>, start: nat, a: nat, b: nat, target: nat, maximum: nat)
    requires Valid(doc) && EndsWell(doc, start, a, target, maximum) && EndsWell(doc, start, b, target, maximum)
    ensures a == b
  {
    if a < b {
      NextBoundary(doc, a, b);
    } else if b < a {
      NextBoundary(doc, b, a);
    }
  }

  /** Page i of a table, by its own. */
  lemma {:induction false} PageAt(doc: seq<byte>, pages: seq<PageMeta>, to: nat, target: nat, maximum: nat, i: nat)
    requires Pages(doc, pages, to, target, maximum) && i < |pages|
    ensures 0 <= pages[i].start < pages[i].end <= to <= |doc|
    ensures EndsWell(doc, pages[i].start, pages[i].end, target, maximum)
            && pages[i] == PageFor(doc, pages[i].start, pages[i].end)
    ensures pages[i].start == if i == 0 then 0 else pages[i - 1].end
    ensures pages[i].end == to <==> i == |pages| - 1
    decreases |pages|
  {
    hide EndsWell, PageFor;
    if i < |pages| - 1 {
      PageAt(doc, pages[..|pages| - 1], pages[|pages| - 1].start, target, maximum, i);
    } else if i > 0 {
      PageAt(doc, pages[..|pages| - 1], pages[|pages| - 1].start, target, maximum, i - 1);
    }
  }

  /** Two tables of a document agree page by page. */
  lemma {:induction false} SamePages(doc: seq<byte>, a: seq<PageMeta>, b: seq<PageMeta>, target: nat, maximum: nat,
                                     n: nat)
    requires Valid(doc) && Pages(doc, a, |doc|, target, maximum) && Pages(doc, b, |doc|, target, maximum)
    requires n <= |a| && n <= |b|
    ensures a[..n] == b[..n]
    decreases n
  {
    hide EndsWell, PageFor, Valid, RuneLen;
    if n > 0 {
      SamePages(doc, a, b, target, maximum, n - 1);
      PageAt(doc, a, |doc|, target, maximum, n - 1);
      PageAt(doc, b, |doc|, target, maximum, n - 1);
      if n > 1 {
        assert a[n - 2] == a[..n - 1][n - 2] == b[..n - 1][n - 2] == b[n - 2];
      }
      OneEnd(doc, a[n - 1].start, a[n - 1].end, b[n - 1].end, target, maximum);
      assert a[..n] == a[..n - 1] + [a[n - 1]] && b[..n] == b[..n - 1] + [b[n - 1]];
    }
  }

  /** The page table is determined by the document and the two limits: however it is read, the same pages come out. */
  lemma PageTableUnique(doc: seq<byte>, a: seq<PageMeta>, b: seq<PageMeta>, target: nat, maximum: nat)
    requires Valid(doc) && PageTable(doc, a, target, maximum) && PageTable(doc, b, target, maximum)
    ensures a == b
  {
    hide Valid, RuneLen, EndsWell, PageFor;
    if doc != [] {
      var n := if |a| < |b| then |a| else |b|;
      assert a != [] && b != [];
      SamePages(doc, a, b, target, maximum, n);
      PageAt(doc, a, |doc|, target, maximum, n - 1);
      PageAt(doc, b, |doc|, target, maximum, n - 1);
      assert a[n - 1] == a[..n][n - 1] == b[..n][n - 1] == b[n - 1];
      assert a[..|a|] == a && b[..|b|] == b;
    }
  }

  // ---------------------------------------------------------------- building it

  /** The variables of the scan. */
  datatype Builder = Builder(pages: seq<PageMeta>, pageStart: nat, pageStartLine: nat, line: nat, previousLF: bool)

  /** The page under construction can still grow: it is within the limit and no line end at or past the target is in it.
      */
  predicate Open(doc: seq<byte>, b: Builder, at: nat, target: nat, maximum: nat) {
    && b.pageStart <= at <= |doc| && at - b.pageStart <= maximum
    && (forall p :: b.pageStart <= p < at && doc[p] == LF ==> p + 1 - b.pageStart < target)
  }

  predicate Scanned(doc: seq<byte>, b: Builder, at: nat, target: nat, maximum: nat) {
    && Open(doc, b, at, target, maximum)
    && Pages(doc, b.pages, b.pageStart, target, maximum)
    && b.pageStartLine == CountLF(doc[..b.pageStart]) && b.line == CountLF(doc[..at])
    && (b.previousLF <==> at > 0 && doc[at - 1] == LF)
    && Valid(doc[..at])
  }

  /** appendPage. */
  function AppendPage(b: Builder, length: nat, end: nat, endLine: nat, endsWithLF: bool): Builder {
    var continuesFrom := b.pageStart > 0 && b.pages != [] && !b.pages[|b.pages| - 1].endsWithLF;
    var page := PageMeta(b.pageStart, end, b.pageStartLine, endLine, continuesFrom, end < length
                         && !endsWithLF, endsWithLF,
                         -1, 0, 0, 0, 0, false);
    b.(pages := b.pages + [page], pageStart := end, pageStartLine := endLine)
  }

  /** A page that ends well completes the list. */
  lemma PageAppended(doc: seq<byte>, b: Builder, end: nat, target: nat, maximum: nat)
    requires Pages(doc, b.pages, b.pageStart, target, maximum) && b.pageStartLine == CountLF(doc[..b.pageStart])
    requires b.pageStart < end <= |doc| && EndsWell(doc, b.pageStart, end, target, maximum)
    ensures var c := AppendPage(b, |doc|, end, CountLF(doc[..end]), doc[end - 1] == LF);
            Pages(doc, c.pages, end, target, maximum) && c.pageStart == end && c.pageStartLine == CountLF(doc[..end])
  {
    hide EndsWell, CountLF, Valid, RuneLen;
    var c := AppendPage(b, |doc|, end, CountLF(doc[..end]), doc[end - 1] == LF);
    assert c.pages[..|b.pages|] == b.pages;
    if b.pages != [] {
      PageAt(doc, b.pages, b.pageStart, target, maximum, |b.pages| - 1);
    }
  }

  lemma CountRune(doc: seq<byte>, at: nat, size: nat)
    requires at + size <= |doc| && size == RuneLen(doc[at..]) > 0
    ensures CountLF(doc[..at + size]) == CountLF(doc[..at]) + (if doc[at] == LF then 1 else 0)
    ensures forall p :: at < p < at + size ==> doc[p] != LF
    ensures doc[at] == LF ==> size == 1
    ensures (doc[at + size - 1] == LF) <==> (doc[at] == LF)
  {
    var rune := doc[at..][..size];
    RuneLenFacts(doc[at..]);
    assert forall p :: at < p < at + size ==> doc[p] == doc[at..][p - at];
    assert doc[..at + size] == doc[..at] + rune;
    CountLFConcat(doc[..at], rune);
    CountFirst(rune);
  }

  lemma {:induction false} CountFirst(rune: seq<byte>)
    requires rune != [] && forall i :: 1 <= i < |rune| ==> rune[i] != LF
    ensures CountLF(rune) == if rune[0] == LF then 1 else 0
    decreases |rune|
  {
    if |rune| > 1 {
      CountFirst(rune[..|rune| - 1]);
    } else {
      assert rune[..0] == [];
    }
  }

  /** One decoded rune: close the page before it when it does not fit, and after it when it ends a long enough line. */
  method ScanRune(b: Builder, ghost doc: seq<byte>, length: nat, at: nat, isLF: bool, size: nat, target: nat,
                  maximum: nat)
    returns (c: Builder)
    requires 4 <= target <= maximum && length == |doc| && at < |doc| && Scanned(doc, b, at, target, maximum)
    requires size == RuneLen(doc[at..]) > 0 && (isLF <==> doc[at] == LF)
    ensures at + size <= |doc| && Scanned(doc, c, at + size, target, maximum)
  {
    hide EndsWell, Pages, Valid, RuneLen, CountLF;
    CountRune(doc, at, size);
    RuneEndValid(doc, at, size);
    c := b;
    if at + size - c.pageStart > maximum {
      HardEnd(doc, b, at, target, maximum);
      c := AppendPage(c, length, at, c.line, c.previousLF);
    }
    if isLF {
      c := c.(line := c.line + 1);
    }
    c := c.(previousLF := isLF);
    if at + size - c.pageStart >= target && isLF {
      LineEnd(doc, c, at + size, target, maximum);
      c := AppendPage(c, length, at + size, c.line, true);
    }
  }

  lemma RuneEndValid(doc: seq<byte>, at: nat, size: nat)
    requires at < |doc| && Valid(doc[..at]) && size == RuneLen(doc[at..]) > 0
    ensures at + size <= |doc| && Valid(doc[..at + size]) && size <= 4
  {
    WholeRuneValid(doc[at..], size);
    ValidConcat(doc[..at], doc[at..][..size]);
    assert doc[..at + size] == doc[..at] + doc[at..][..size];
  }

  lemma HardEnd(doc: seq<byte>, b: Builder, at: nat, target: nat, maximum: nat)
    requires 4 <= target <= maximum && at < |doc| && Scanned(doc, b, at, target, maximum)
    requires RuneLen(doc[at..]) > 0 && at + RuneLen(doc[at..]) - b.pageStart > maximum
    ensures b.pageStart < at && EndsWell(doc, b.pageStart, at, target, maximum)
    ensures var c := AppendPage(b, |doc|, at, b.line, b.previousLF);
            Pages(doc, c.pages, at, target, maximum) && c.pageStart == at && c.pageStartLine == CountLF(doc[..at])
  {
    hide Valid, Pages;
    PageAppended(doc, b, at, target, maximum);
  }

  lemma LineEnd(doc: seq<byte>, b: Builder, end: nat, target: nat, maximum: nat)
    requires 4 <= target <= maximum && 0 < end <= |doc| && doc[end - 1] == LF && end - b.pageStart >= target
    requires Open(doc, b, end - 1, target, maximum) && end - b.pageStart <= maximum && Valid(doc[..end])
    requires Pages(doc, b.pages, b.pageStart, target, maximum)
    requires b.pageStartLine == CountLF(doc[..b.pageStart]) && b.line == CountLF(doc[..end])
    ensures var c := AppendPage(b, |doc|, end, b.line, true);
            Pages(doc, c.pages, end, target, maximum) && c.pageStart == end && c.pageStartLine == CountLF(doc[..end])
  {
    hide Pages, Valid;
    PageAppended(doc, b, end, target, maximum);
  }

  /** A full rune of a chunk is the rune of the document. */
  lemma ChunkRune(doc: seq<byte>, at: nat, end: nat)
    requires at < end <= |doc| && FullRune(doc[at..end])
    ensures RuneLen(doc[at..end]) == RuneLen(doc[at..])
    ensures RuneLen(doc[at..]) == 0 && Valid(doc[..at]) ==> !Valid(doc)
  {
    hide Valid, RuneLen, FullRune;
    assert doc[at..] == doc[at..end] + doc[end..];
    RuneLenExtend(doc[at..end], doc[end..]);
    NoRune(doc[at..]);
    if Valid(doc[..at]) {
      assert doc == doc[..at] + doc[at..];
      ValidConcat(doc[..at], doc[at..]);
    }
  }

  lemma NoRune(s: seq<byte>)
    requires s != []
    ensures RuneLen(s) == 0 ==> !Valid(s)
  {
  }

  lemma Unfinished(doc: seq<byte>, at: nat)
    requires at < |doc| && Valid(doc[..at]) && !FullRune(doc[at..])
    ensures !Valid(doc)
  {
    assert doc == doc[..at] + doc[at..];
    ValidConcat(doc[..at], doc[at..]);
    RuneLenFacts(doc[at..]);
  }

  /** The runes of one read, together with what the last read left over. */
  method ScanChunk(b: Builder, doc: seq<byte>, base: nat, end: nat, target: nat, maximum: nat)
    returns (c: Builder, pending: seq<byte>, ok: bool)
    requires 4 <= target <= maximum && base <= end <= |doc| && Scanned(doc, b, base, target, maximum)
    ensures !ok ==> !Valid(doc)
    ensures ok ==>
              && |pending| <= end - base && pending == doc[end - |pending|..end]
              && (pending == [] || !FullRune(pending))
    ensures ok ==> Scanned(doc, c, end - |pending|, target, maximum)
  {
    hide RuneLen, Valid, FullRune, Pages, Open;
    var data := doc[base..end];
    c, pending, ok := b, [], true;
    var cursor := 0;
    while cursor < |data|
      invariant 0 <= cursor <= |data| && pending == [] && Scanned(doc, c, base + cursor, target, maximum)
    {
      assert data[cursor..] == doc[base + cursor..end];
      if !FullRune(data[cursor..]) {
        pending := data[cursor..];
        return;
      }
      ChunkRune(doc, base + cursor, end);
      var size := RuneLen(data[cursor..]);
      if size == 0 {
        ok := false;
        return;
      }
      c := ScanRune(c, doc, |doc|, base + cursor, data[cursor] == LF, size, target, maximum);
      cursor := cursor + size;
    }
  }

  /** buildLogicalPages: reads of any size lead to the page table, or to the refusal of an invalid text. */
  method BuildLogicalPages(doc: seq<byte>, target: nat, maximum: nat) returns (r: Result<seq<PageMeta>>)
    requires 4 <= target <= maximum
    ensures r.Success? ==> Valid(doc) && PageTable(doc, r.value, target, maximum)
    ensures r == Failure(InvalidUTF8) ==> !Valid(doc)
  {
    hide RuneLen, Valid, FullRune, Pages, Open;
    var b := Builder([], 0, 0, 0, false);
    var pending: seq<byte> := [];
    var readOffset := 0;
    ScanStart(doc, target, maximum);
    while readOffset < |doc|
      invariant 0 <= readOffset <= |doc| && |pending| <= readOffset
      invariant pending == doc[readOffset - |pending|..readOffset] && (pending == [] || !FullRune(pending))
      invariant Scanned(doc, b, readOffset - |pending|, target, maximum)
      decreases |doc| - readOffset
    {
      var cancelled: bool := *;
      var n: int := *;
      if cancelled || n <= 0 || n > Min(SCAN_BUFFER_BYTES, |doc| - readOffset) {
        return Failure(Aborted);
      }
      var ok;
      b, pending, ok := ScanChunk(b, doc, readOffset - |pending|, readOffset + n, target, maximum);
      if !ok {
        return Failure(InvalidUTF8);
      }
      readOffset := readOffset + n;
    }
    if |pending| != 0 {
      assert doc[|doc| - |pending|..] == pending;
      Unfinished(doc, |doc| - |pending|);
      return Failure(InvalidUTF8);
    }
    assert doc[..|doc|] == doc;
    StartBehind(doc, b, |doc|, target, maximum);
    if b.pageStart < |doc| {
      ScanEnd(doc, b, target, maximum);
      b := AppendPage(b, |doc|, |doc|, b.line, b.previousLF);
    }
    FinishedTable(doc, b.pages, target, maximum);
    return Success(if |b.pages| == 0 then [EmptyPage] else b.pages);
  }

  lemma ScanStart(doc: seq<byte>, target: nat, maximum: nat)
    ensures Scanned(doc, Builder([], 0, 0, 0, false), 0, target, maximum)
  {
    assert doc[..0] == [];
  }

  lemma StartBehind(doc: seq<byte>, b: Builder, at: nat, target: nat, maximum: nat)
    requires Scanned(doc, b, at, target, maximum)
    ensures b.pageStart <= at && Pages(doc, b.pages, b.pageStart, target, maximum)
  {
  }

  lemma ScanEnd(doc: seq<byte>, b: Builder, target: nat, maximum: nat)
    requires Scanned(doc, b, |doc|, target, maximum) && b.pageStart < |doc|
    ensures Pages(doc, AppendPage(b, |doc|, |doc|, b.line, b.previousLF).pages, |doc|, target, maximum)
  {
    hide Valid, Pages;
    assert doc[..|doc|] == doc;
    PageAppended(doc, b, |doc|, target, maximum);
  }

  lemma FinishedTable(doc: seq<byte>, pages: seq<PageMeta>, target: nat, maximum: nat)
    requires Pages(doc, pages, |doc|, target, maximum)
    ensures PageTable(doc, if pages == [] then [EmptyPage] else pages, target, maximum)
  {
  }
}
