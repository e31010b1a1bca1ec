/** Queries of the coordinate index, and the Index object over any chain of builds and rebuilds. */
module IndexQueries {
  import opened Documents
  import opened Utf8
  import opened Coordinates
  import opened CoordinateIndex
  import CM = ChangeMaps
  import WC = WindowCache

  // ---------------------------------------------------------------- what the answers mean

  /** Decoding the whole text up to offset. */
  function ByteAnswer(text: seq<byte>, offset: int): Result<Position> {
    if offset < 0 || offset > |text| then Failure(InvalidOffset)
    else if !RuneStart(text, offset) then Failure(NotRuneBoundary)
    else Success(PositionOf(text[..offset]))
  }

  /** The only rune boundary with that many runes before it. */
  ghost predicate RuneAnswer(text: seq<byte>, offset: int, r: Result<int>) {
    if 0 <= offset <= RuneCount(text)
    then r.Success? && 0 <= r.value <= |text| && Valid(text[..r.value]) && RuneCount(text[..r.value]) == offset
    else r == Failure(InvalidOffset)
  }

  /** The only position with that line and column, or the news that there is none. */
  ghost predicate PositionAnswer(text: seq<byte>, line: int, column: int, r: Result<int>) {
    if r.Success?
    then 0 <= r.value <= |text| && Valid(text[..r.value]) &&
         CountLF(text[..r.value]) == line && Column(text[..r.value]) == column
    else r == Failure(InvalidPosition) &&
         forall p :: IsPosition(p, text) ==> !(p.line == line && p.column == column)
  }

  /** Rune offsets and (line, column) pairs name at most one boundary. */
  lemma AnswersUnique(text: seq<byte>, p: Position, q: Position)
    requires IsPosition(p, text) && IsPosition(q, text)
    requires p.runeOffset == q.runeOffset || (p.line == q.line && p.column == q.column)
    ensures p == q
  {
    if p.byteOffset < q.byteOffset {
      PositionsOrdered(p, q, text);
    } else if q.byteOffset < p.byteOffset {
      PositionsOrdered(q, p, text);
    } else {
      PositionsOrdered(p, q, text);
    }
  }

  // ---------------------------------------------------------------- decoding inside a window

  /** A window read at a checkpoint holds the text up to a later boundary. */
  ghost predicate Covers(data: seq<byte>, text: seq<byte>, cp: Position, limit: int) {
    && IsPosition(cp, text)
    && cp.byteOffset <= limit <= cp.byteOffset + |data| <= |text|
    && data == text[cp.byteOffset..cp.byteOffset + |data|]
    && Valid(text[..limit])
  }

  /** The next rune of a window whose limit has not been reached decodes as in the whole text. */
  lemma WindowRune(data: seq<byte>, text: seq<byte>, cp: Position, limit: int, state: Position)
    requires Covers(data, text, cp, limit) && IsPosition(state, text)
    requires cp.byteOffset <= state.byteOffset < limit
    ensures var cursor := state.byteOffset - cp.byteOffset;
            var size := RuneLen(text[state.byteOffset..]);
            && cursor < |data| && FullRune(data[cursor..]) && RuneLen(data[cursor..]) == size
            && 0 < size <= limit - state.byteOffset && data[cursor] == text[state.byteOffset]
            && IsPosition(Advance(state, data[cursor], size), text)
  {
    var at, cursor := state.byteOffset, state.byteOffset - cp.byteOffset;
    RuneFits(text, at, limit);
    assert data[cursor..] == text[at..cp.byteOffset + |data|];
    assert data[cursor..] == text[at..limit] + text[limit..cp.byteOffset + |data|];
    RuneLenExtend(text[at..limit], text[limit..cp.byteOffset + |data|]);
    RuneLenFacts(data[cursor..]);
    NextPosition(state, text);
  }

  lemma InsideRune(text: seq<byte>, at: nat, offset: nat)
    requires at <= |text| && at < offset < at + RuneLen(text[at..])
    ensures offset < |text| && !RuneStart(text, offset)
  {
    RuneLenFacts(text[at..]);
    assert text[at..][offset - at] == text[offset];
  }

  /** The decoding loop of ByteToPosition. */
  method WalkToByte(ghost text: seq<byte>, cp: Position, data: seq<byte>, offset: int, ghost limit: int)
    returns (r: Result<Position>)
    requires Valid(text) && Covers(data, text, cp, limit) && cp.byteOffset <= offset < limit
    ensures r == ByteAnswer(text, offset)
  {
    var state := cp;
    var cursor := 0;
    while true
      invariant IsPosition(state, text) && cursor == state.byteOffset - cp.byteOffset
      invariant cp.byteOffset <= state.byteOffset <= offset
      decreases limit - state.byteOffset
    {
      SelfSynchronizing(text, state.byteOffset);
      if state.byteOffset == offset {
        return Success(state);
      }
      WindowRune(data, text, cp, limit, state);
      if cursor >= |data| || !FullRune(data[cursor..]) {
        return Failure(SourceInconsistent);
      }
      var size := RuneLen(data[cursor..]);
      if size == 0 {
        return Failure(InvalidUTF8);
      }
      if offset < cp.byteOffset + cursor + size {
        InsideRune(text, state.byteOffset, offset);
        return Failure(NotRuneBoundary);
      }
      state := Advance(state, data[cursor], size);
      cursor := cursor + size;
    }
  }

  /** The decoding loop of RuneToByte. */
  method WalkToRune(ghost text: seq<byte>, cp: Position, data: seq<byte>, offset: int, ghost limit: int)
    returns (r: Result<int>)
    requires Covers(data, text, cp, limit) && cp.runeOffset <= offset < RuneCount(text[..limit]) && limit <= |text|
    requires offset <= RuneCount(text)
    ensures RuneAnswer(text, offset, r)
  {
    var state := cp;
    var cursor := 0;
    ghost var end := PositionOf(text[..limit]);
    while true
      invariant IsPosition(state, text) && cursor == state.byteOffset - cp.byteOffset
      invariant cp.byteOffset <= state.byteOffset <= limit && state.runeOffset <= offset
      decreases limit - state.byteOffset
    {
      if state.runeOffset == offset {
        return Success(state.byteOffset);
      }
      PositionsOrdered(state, end, text);
      WindowRune(data, text, cp, limit, state);
      if cursor >= |data| || !FullRune(data[cursor..]) {
        return Failure(SourceInconsistent);
      }
      var size := RuneLen(data[cursor..]);
      if size == 0 {
        return Failure(InvalidUTF8);
      }
      state := Advance(state, data[cursor], size);
      cursor := cursor + size;
    }
  }

  predicate AtOrBefore(p: Position, line: int, column: int) {
    p.line < line || (p.line == line && p.column <= column)
  }

  /** No position lies strictly between two neighbouring ones. */
  lemma NothingBetween(text: seq<byte>, p: Position, next: Position, line: int, column: int)
    requires IsPosition(p, text) && IsPosition(next, text)
             && next.byteOffset == p.byteOffset + RuneLen(text[p.byteOffset..])
    requires Before(p, line, column) && !AtOrBefore(next, line, column)
    ensures forall q :: IsPosition(q, text) ==> !(q.line == line && q.column == column)
  {
    forall q | IsPosition(q, text)
      ensures !(q.line == line && q.column == column)
    {
      if q.byteOffset <= p.byteOffset {
        PositionsOrdered(q, p, text);
      } else if next.byteOffset <= q.byteOffset {
        PositionsOrdered(next, q, text);
      } else {
        InsideRune(text, p.byteOffset, q.byteOffset);
        assert text[..next.byteOffset][..q.byteOffset] == text[..q.byteOffset];
        SelfSynchronizing(text[..next.byteOffset], q.byteOffset);
      }
    }
  }

  lemma NothingBehind(text: seq<byte>, end: Position, line: int, column: int)
    requires IsPosition(end, text) && end.byteOffset == |text| && Before(end, line, column)
    ensures forall q :: IsPosition(q, text) ==> !(q.line == line && q.column == column)
  {
    forall q | IsPosition(q, text)
      ensures !(q.line == line && q.column == column)
    {
      PositionsOrdered(q, end, text);
    }
  }

  /** The decoding loop of PositionToByte; the limit is past the sought position or is the end of the text. */
  method WalkToPosition(ghost text: seq<byte>, cp: Position, data: seq<byte>, line: int, column: int, ghost limit: int)
    returns (r: Result<int>)
    requires Covers(data, text, cp, limit) && AtOrBefore(cp, line, column)
    requires limit == |text| || !AtOrBefore(PositionOf(text[..limit]), line, column)
    ensures PositionAnswer(text, line, column, r)
  {
    var state := cp;
    var cursor := 0;
    ghost var end := PositionOf(text[..limit]);
    while true
      invariant IsPosition(state, text) && cursor == state.byteOffset - cp.byteOffset
      invariant cp.byteOffset <= state.byteOffset <= limit
      invariant AtOrBefore(state, line, column) || PositionAnswer(text, line, column, Failure(InvalidPosition))
      decreases limit - state.byteOffset
    {
      if state.line == line && state.column == column {
        return Success(state.byteOffset);
      }
      if state.line > line || (state.line == line && state.column > column) {
        return Failure(InvalidPosition);
      }
      if state.byteOffset == limit {
        PositionsOrdered(state, end, text);
        NothingBehind(text, state, line, column);
      } else {
        WindowRune(data, text, cp, limit, state);
      }
      if cursor >= |data| {
        return Failure(InvalidPosition);
      }
      if !FullRune(data[cursor..]) {
        return Failure(SourceInconsistent);
      }
      var size := RuneLen(data[cursor..]);
      if size == 0 {
        return Failure(InvalidUTF8);
      }
      ghost var previous := state;
      state := Advance(state, data[cursor], size);
      if !AtOrBefore(state, line, column) {
        NothingBetween(text, previous, state, line, column);
      }
      cursor := cursor + size;
    }
  }

  // ---------------------------------------------------------------- choosing the checkpoint

  /** The last checkpoint not past a byte offset, and the boundary up to which its window is needed. */
  /** A checkpoint is the answer for its own offset. */
  lemma CheckpointAnswers(cps: seq<Position>, text: seq<byte>, block: int, k: nat)
    requires Complete(cps, text, block) && k < |cps|
    ensures ByteAnswer(text, cps[k].byteOffset) == Success(cps[k])
  {
    hide PositionOf, RuneLen, Utf8.Valid;
    CompleteValid(cps, text, block);
    assert IsPosition(cps[k], text);
    SelfSynchronizing(text, cps[k].byteOffset);
  }

  lemma WindowCoversGap(cps: seq<Position>, text: seq<byte>, block: int, k: nat, data: seq<byte>)
    requires 0 < block && Complete(cps, text, block) && k < |cps|
    requires data == text[cps[k].byteOffset..Min(|text|, cps[k].byteOffset + block + UTF_MAX)]
    ensures Covers(data, text, cps[k], if k + 1 < |cps| then cps[k + 1].byteOffset else |text|)
  {
    if k + 1 < |cps| {
      assert cps[k].byteOffset < cps[k + 1].byteOffset <= cps[k].byteOffset + block + 3;
    } else {
      assert text[..|text|] == text[..cps[k].byteOffset];
    }
  }

  lemma {:induction false} Ordered(cps: seq<Position>, text: seq<byte>, block: int, i: nat, j: nat)
    requires Complete(cps, text, block) && i <= j < |cps|
    ensures cps[i].runeOffset <= cps[j].runeOffset
    ensures AtOrBefore(cps[i], cps[j].line, cps[j].column)
    ensures i < j ==> cps[i].byteOffset < cps[j].byteOffset && cps[i].runeOffset < cps[j].runeOffset
  {
    if i < j {
      Increasing(cps, block, i, j);
      PositionsOrdered(cps[i], cps[j], text);
    }
  }

  method CheckpointForRune(cps: seq<Position>, ghost text: seq<byte>, block: int, offset: int) returns (k: nat)
    requires Complete(cps, text, block) && offset >= 0
    ensures k < |cps| && cps[k].runeOffset <= offset
    ensures k + 1 < |cps| ==> cps[k + 1].runeOffset > offset
  {
    forall i, j | 0 <= i <= j < |cps|
      ensures cps[i].runeOffset <= cps[j].runeOffset
    {
      Ordered(cps, text, block, i, j);
    }
    var beyond := i requires 0 <= i < |cps| => cps[i].runeOffset > offset;
    var n := Search(|cps|, beyond);
    assert !beyond(0);
    assert !beyond(n - 1) && (n < |cps| ==> beyond(n));
    k := n - 1;
  }

  method CheckpointForPosition(cps: seq<Position>, ghost text: seq<byte>, block: int, line: int, column: int)
    returns (k: nat)
    requires Complete(cps, text, block) && line >= 0 && column >= 0
    ensures k < |cps| && AtOrBefore(cps[k], line, column)
    ensures k + 1 < |cps| ==> !AtOrBefore(cps[k + 1], line, column)
  {
    forall i, j | 0 <= i <= j < |cps| && !AtOrBefore(cps[i], line, column)
      ensures !AtOrBefore(cps[j], line, column)
    {
      Ordered(cps, text, block, i, j);
    }
    var beyond := i requires 0 <= i < |cps| =>
      cps[i].line > line || (cps[i].line == line && cps[i].column > column);
    var n := Search(|cps|, beyond);
    assert !beyond(0);
    assert !beyond(n - 1) && (n < |cps| ==> beyond(n));
    k := n - 1;
  }

  method FetchWindow(cache: WC.Cache, text: seq<byte>, window: nat, start: nat) returns (data: seq<byte>)
    requires cache.Valid() && cache.Faithful(text, window) && start <= |text| <= MAX_INT64
    modifies cache
    ensures cache.Valid() && cache.Faithful(text, window)
    ensures data == text[start..Min(|text|, start + window)]
  {
    hide WC.Total, WC.Fit, WC.Find, WC.MoveToFront;
    var found, cached := cache.Lookup(start, text, window);
    if found {
      return cached;
    }
    var end := |text|;
    if start <= MAX_INT64 - window && start + window < end {
      end := start + window;
    }
    data := text[start..end];
    assert WC.FaithfulTo([WC.Entry(start, data)], text, window);
    cache.Store(start, data, text, window);
  }

  /** An index over one immutable source. */
  class Index {
    const source: seq<byte>
    const revision: nat
    const checkpointBytes: int
    const cache: WC.Cache
    var checkpoints: seq<Position>
    var runeCount: int
    var lineCount: int
    var closed: bool

    /** The invariant that every build and every rebuild establishes. */
    ghost predicate Good()
      reads this, cache
    {
      && 0 < checkpointBytes <= MAXIMUM_CHECKPOINT_BYTES && |source| <= MAX_INT64
      && Complete(checkpoints, source, checkpointBytes)
      && runeCount == RuneCount(source) && lineCount == CountLF(source) + 1
      && cache.Valid() && cache.Faithful(source, checkpointBytes + UTF_MAX)
    }

    constructor (source: seq<byte>, revision: nat, block: int, cps: seq<Position>, cacheBytes: int)
      requires 0 < block <= MAXIMUM_CHECKPOINT_BYTES && |source| <= MAX_INT64 && cacheBytes >= 0
      requires Complete(cps, source, block)
      ensures Good() && !closed && fresh(cache)
      ensures this.source == source && this.revision == revision && checkpointBytes == block
    {
      this.source := source;
      this.revision := revision;
      checkpointBytes := block;
      checkpoints := cps;
      runeCount := cps[|cps| - 1].runeOffset;
      lineCount := cps[|cps| - 1].line + 1;
      closed := false;
      cache := new WC.Cache(cacheBytes);
      assert source[..|source|] == source;
    }

    /** readWindow: through the cache, always the same bytes. */
    method ReadWindow(start: int) returns (data: seq<byte>)
      requires Good() && 0 <= start <= |source|
      modifies cache
      ensures Good()
      ensures data == source[start..Min(|source|, start + checkpointBytes + UTF_MAX)]
    {
      data := FetchWindow(cache, source, checkpointBytes + UTF_MAX, start);
    }

    /** Exactly what decoding the source from byte 0 gives, for every offset. */
    method ByteToPosition(offset: int) returns (r: Result<Position>)
      requires Good()
      modifies cache
      ensures Good()
      ensures r == if closed then Failure(Closed) else ByteAnswer(source, offset)
    {
      if closed {
        return Failure(Closed);
      }
      if offset < 0 || offset > |source| {
        return Failure(InvalidOffset);
      }
      var n := CountBefore(checkpoints, checkpointBytes, offset + 1);
      var k := n - 1;
      CompleteValid(checkpoints, source, checkpointBytes);
      hide Utf8.Valid, RuneLen, PositionOf;
      var cp := checkpoints[k];
      CheckpointAnswers(checkpoints, source, checkpointBytes, k);
      if cp.byteOffset == offset {
        return Success(cp);
      }
      var data := ReadWindow(cp.byteOffset);
      WindowCoversGap(checkpoints, source, checkpointBytes, k, data);
      r := WalkToByte(source, cp, data, offset, checkpoints[k + 1].byteOffset);
    }

    method RuneToByte(offset: int) returns (r: Result<int>)
      requires Good()
      modifies cache
      ensures Good()
      ensures if closed then r == Failure(Closed) else RuneAnswer(source, offset, r)
    {
      if closed {
        return Failure(Closed);
      }
      if offset < 0 || offset > runeCount {
        return Failure(InvalidOffset);
      }
      var cps := checkpoints;
      assert source[..|source|] == source;
      var k := CheckpointForRune(cps, source, checkpointBytes, offset);
      var cp := cps[k];
      if cp.runeOffset == offset {
        return Success(cp.byteOffset);
      }
      var data := ReadWindow(cp.byteOffset);
      WindowCoversGap(cps, source, checkpointBytes, k, data);
      r := WalkToRune(source, cp, data, offset, cps[k + 1].byteOffset);
    }

    method PositionToByte(line: int, column: int) returns (r: Result<int>)
      requires Good()
      modifies cache
      ensures Good()
      ensures if closed then r == Failure(Closed) else PositionAnswer(source, line, column, r)
    {
      if closed {
        return Failure(Closed);
      }
      var cps := checkpoints;
      if line < 0 || line >= lineCount || column < 0 {
        NoSuchLine(source, line, column);
        return Failure(InvalidPosition);
      }
      var k := CheckpointForPosition(cps, source, checkpointBytes, line, column);
      var cp := cps[k];
      if cp.line == line && cp.column == column {
        return Success(cp.byteOffset);
      }
      var data := ReadWindow(cp.byteOffset);
      WindowCoversGap(cps, source, checkpointBytes, k, data);
      r := WalkToPosition(source, cp, data, line, column, if k + 1 < |cps| then cps[k + 1].byteOffset else |source|);
    }

    method Close()
      modifies this`closed
      ensures closed
    {
      closed := true;
    }
  }

  lemma NoSuchLine(text: seq<byte>, line: int, column: int)
    requires line < 0 || line > CountLF(text) || column < 0
    ensures PositionAnswer(text, line, column, Failure(InvalidPosition))
  {
    forall p | IsPosition(p, text)
      ensures !(p.line == line && p.column == column)
    {
      assert text == text[..p.byteOffset] + text[p.byteOffset..];
      CountLFConcat(text[..p.byteOffset], text[p.byteOffset..]);
    }
  }

  method Build(source: seq<byte>, revision: nat, block: int, cacheBytes: int) returns (r: Result<Index>)
    requires 0 < block <= MAXIMUM_CHECKPOINT_BYTES && cacheBytes >= 0 && |source| <= MAX_INT64
    ensures r.Success? ==>
              Valid(source) && r.value.Good() && !r.value.closed && fresh(r.value) &&
              r.value.source == source && r.value.revision == revision
    ensures r.Failure? && r.error != Aborted ==> !Valid(source)
  {
    var cps := BuildCheckpoints(source, block);
    if cps.Failure? {
      return Failure(cps.error);
    }
    var index := new Index(source, revision, block, cps.value, cacheBytes);
    r := Success(index);
  }

  /** Any chain of builds and exact rebuilds: each link turns a good index into a good index of the
      new source, so the queries of every index in the chain answer as a full decode would. */
  method Rebuild(source: seq<byte>, previous: Index, changes: CM.ChangeMap) returns (r: Result<Index>)
    requires previous.Good() && CM.ValidMap(changes) && |source| <= MAX_INT64
    requires changes.beforeLength == |previous.source| && changes.afterLength == |source| ==>
               CM.Describes(changes, previous.source, source)
    ensures r.Success? ==>
              Valid(source) && r.value.Good() && !r.value.closed && fresh(r.value) &&
              r.value.source == source && r.value.revision == changes.afterRevision &&
              r.value.checkpointBytes == previous.checkpointBytes
    ensures r == Failure(Closed) <==> previous.closed
    ensures !previous.closed ==> (r == Failure(RevisionMismatch) <==> previous.revision != changes.beforeRevision)
    ensures !previous.closed && previous.revision == changes.beforeRevision ==>
              (r == Failure(LengthMismatch) <==>
                 |previous.source| != changes.beforeLength || |source| != changes.afterLength)
    ensures r.Failure? && r.error !in {Aborted, Closed, RevisionMismatch, LengthMismatch} ==> !Valid(source)
  {
    if previous.closed {
      return Failure(Closed);
    }
    if previous.revision != changes.beforeRevision {
      return Failure(RevisionMismatch);
    }
    if |previous.source| != changes.beforeLength || |source| != changes.afterLength {
      return Failure(LengthMismatch);
    }
    var cps := RebuildCheckpoints(previous.checkpoints, previous.source, source, previous.checkpointBytes, changes);
    if cps.Failure? {
      return Failure(cps.error);
    }
    var index := new Index(source, changes.afterRevision, previous.checkpointBytes, cps.value, previous.cache.maximum);
    r := Success(index);
  }
}
