/** The sparse coordinate index: a full scan, an incremental rebuild that scans only between an
    untouched prefix and an untouched suffix, and queries that decode one bounded window. */
module CoordinateIndex {
  import opened Documents
  import opened Utf8
  import opened Coordinates
  import CM = ChangeMaps
  import WC = WindowCache

  const MAXIMUM_CHECKPOINT_BYTES := 0x400_0000
  const UTF_MAX := 4
  const READ_BUFFER_BYTES := 0x1_0000

  datatype Error =
    InvalidUTF8 | SourceInconsistent | InvalidOffset | NotRuneBoundary | InvalidPosition |
    RevisionMismatch | LengthMismatch | InvalidIndex | Closed | Aborted

  datatype Result<+T> = Success(value: T) | Failure(error: Error)

  /** The errors a scan can end with. */
  predicate ScanError(e: Error) {
    e == InvalidUTF8 || e == SourceInconsistent || e == Aborted
  }

  // ---------------------------------------------------------------- checkpoint lists

  function NextCheckpointAfter(offset: int, block: int): int
    requires block > 0
  {
    if offset > MAX_INT64 - block then MAX_INT64 else (offset / block + 1) * block
  }

  lemma NextCheckpointBounds(offset: int, block: int)
    requires 0 <= offset < MAX_INT64 && block > 0
    ensures offset < NextCheckpointAfter(offset, block) <= offset + block
  {
    var q, r := offset / block, offset % block;
    assert offset == q * block + r && 0 <= r < block;
    assert (q + 1) * block == q * block + block;
  }

  predicate Spaced(cps: seq<Position>, block: int) {
    forall i :: 0 <= i < |cps| - 1 ==>
      cps[i].byteOffset < cps[i + 1].byteOffset <= cps[i].byteOffset + block + 3
  }

  predicate AllPositions(cps: seq<Position>, text: seq<byte>) {
    forall i :: 0 <= i < |cps| ==> IsPosition(cps[i], text)
  }

  /** A checkpoint list on its way: exact positions from the origin on, never more than block + 3 apart. */
  predicate Partial(cps: seq<Position>, text: seq<byte>, block: int) {
    |cps| > 0 && cps[0] == ORIGIN && AllPositions(cps, text) && Spaced(cps, block)
  }

  /** A finished list reaches the end of the text. */
  predicate Complete(cps: seq<Position>, text: seq<byte>, block: int) {
    Partial(cps, text, block) && cps[|cps| - 1].byteOffset == |text|
  }

  lemma {:induction false} Increasing(cps: seq<Position>, block: int, i: nat, j: nat)
    requires Spaced(cps, block) && i < j < |cps|
    ensures cps[i].byteOffset < cps[j].byteOffset
    decreases j - i
  {
    if i + 1 < j {
      Increasing(cps, block, i, j - 1);
    }
  }

  /** Spacing survives appending one checkpoint close enough behind the last. */
  lemma AppendCheckpoint(cps: seq<Position>, text: seq<byte>, block: int, p: Position)
    requires Partial(cps, text, block) && IsPosition(p, text)
    requires cps[|cps| - 1].byteOffset < p.byteOffset <= cps[|cps| - 1].byteOffset + block + 3
    ensures Partial(cps + [p], text, block)
  {
  }

  // ---------------------------------------------------------------- scanning

  /** The state of a scan that has decoded the text up to pos. */
  ghost predicate Scanning(cps: seq<Position>, kept: seq<Position>, text: seq<byte>, block: int,
                           pos: int, state: Position, next: int)
  {
    && block > 0
    && Partial(cps, text, block) && kept <= cps && kept != []
    && IsPosition(state.(byteOffset := pos), text)
    && var last := cps[|cps| - 1].byteOffset;
       && ((cps == kept && last <= pos) || last < pos)
       && next == NextCheckpointAfter(last, block) && pos <= next + 3
  }

  /** sort.Search: the first index at which a monotone predicate holds. */
  method Search(n: nat, p: int --> bool) returns (k: nat)
    requires forall i :: 0 <= i < n ==> p.requires(i)
    requires forall i, j :: 0 <= i <= j < n && p(i) ==> p(j)
    ensures k <= n
    ensures forall i :: 0 <= i < k ==> !p(i)
    ensures forall i :: k <= i < n ==> p(i)
  {
    var lo, hi := 0, n;
    while lo < hi
      invariant 0 <= lo <= hi <= n
      invariant forall i :: 0 <= i < lo ==> !p(i)
      invariant forall i :: hi <= i < n ==> p(i)
    {
      var mid := (lo + hi) / 2;
      if p(mid) {
        hi := mid;
      } else {
        lo := mid + 1;
      }
    }
    k := lo;
  }

  /** One decoded rune: checkpoint it when due, then advance. */
  method ScanRune(cps: seq<Position>, ghost kept: seq<Position>, text: seq<byte>, block: int,
                  pos: int, state: Position, next: int, first: byte, size: int)
    returns (cps': seq<Position>, state': Position, next': int)
    requires |text| <= MAX_INT64
    requires Scanning(cps, kept, text, block, pos, state, next)
    requires 0 <= pos < |text| && size == RuneLen(text[pos..]) > 0 && first == text[pos]
    ensures Scanning(cps', kept, text, block, pos + size, state', next')
  {
    hide PositionOf, Valid, RuneLen, NextCheckpointAfter;
    cps', state', next' := cps, state, next;
    ghost var last := cps[|cps| - 1].byteOffset;
    NextCheckpointBounds(last, block);
    if pos >= next {
      state' := state'.(byteOffset := pos);
      AppendCheckpoint(cps, text, block, state');
      cps' := cps + [state'];
      next' := NextCheckpointAfter(pos, block);
      NextCheckpointBounds(pos, block);
    }
    NextPosition(state.(byteOffset := pos), text);
    state' := Advance(state', first, size);
  }

  lemma NothingDecoded(s: seq<byte>)
    requires s != []
    ensures RuneLen(s) == 0 ==> !Valid(s)
  {
  }

  /** Where decoding failed inside [start, end), that stretch is not valid text. */
  lemma BrokenStretch(text: seq<byte>, start: nat, pos: nat, avail: nat, end: nat)
    requires start <= pos < avail <= end <= |text|
    requires Valid(text[..start]) && Valid(text[..pos])
    requires RuneLen(text[pos..avail]) == 0 && (FullRune(text[pos..avail]) || avail == end)
    ensures !Valid(text[start..end])
  {
    hide Valid;
    NothingDecoded(text[pos..end]);
    assert text[..pos] == text[..start] + text[start..pos];
    ValidConcat(text[..start], text[start..pos]);
    assert text[start..end] == text[start..pos] + text[pos..end];
    ValidConcat(text[start..pos], text[pos..end]);
    assert text[pos..end] == text[pos..avail] + text[avail..end];
    RuneLenExtend(text[pos..avail], text[avail..end]);
    if avail == end {
      assert text[pos..end] == text[pos..avail];
    }
  }

  /** The decoding loop over one chunk; it stops before a rune that the chunk cuts off. */
  method ScanChunk(cps0: seq<Position>, ghost kept: seq<Position>, text: seq<byte>, block: int,
                   start: int, end: int, pos0: int, avail: int, state0: Position, next0: int, data: seq<byte>)
    returns (cps: seq<Position>, pos: int, state: Position, next: int, error: Result<()>)
    requires |text| <= MAX_INT64 && 0 <= start <= pos0 <= avail <= end <= |text|
    requires data == text[pos0..avail] && Valid(text[..start])
    requires Scanning(cps0, kept, text, block, pos0, state0, next0)
    ensures pos0 <= pos <= avail && Scanning(cps, kept, text, block, pos, state, next)
    ensures error == Failure(InvalidUTF8) ==> !Valid(text[start..end])
    ensures error.Failure? ==> error.error == InvalidUTF8 || error.error == Aborted
    ensures error.Success? ==> pos == avail || !FullRune(text[pos..avail])
  {
    cps, pos, state, next := cps0, pos0, state0, next0;
    var cursor := 0;
    while cursor < |data|
      invariant 0 <= cursor <= |data| && pos == pos0 + cursor
      invariant Scanning(cps, kept, text, block, pos, state, next)
    {
      if * {
        return cps, pos, state, next, Failure(Aborted);
      }
      assert data[cursor..] == text[pos..avail];
      if !FullRune(data[cursor..]) {
        return cps, pos, state, next, Success(());
      }
      var size := RuneLen(data[cursor..]);
      if size == 0 {
        BrokenStretch(text, start, pos, avail, end);
        return cps, pos, state, next, Failure(InvalidUTF8);
      }
      assert text[pos..] == text[pos..avail] + text[avail..];
      RuneLenExtend(text[pos..avail], text[avail..]);
      cps, state, next := ScanRune(cps, kept, text, block, pos, state, next, data[cursor], size);
      cursor := cursor + size;
      pos := pos + size;
    }
    error := Success(());
  }

  /** A segment decoded to its end: an exact final state and a last checkpoint near enough. */
  ghost predicate Scanned(cps: seq<Position>, kept: seq<Position>, text: seq<byte>, block: int,
                          start: int, end: int, state: Position)
  {
    && 0 <= start <= end <= |text| && Valid(text[start..end])
    && Partial(cps, text, block) && kept <= cps
    && IsPosition(state, text) && state.byteOffset == end
    && var last := cps[|cps| - 1].byteOffset;
       ((cps == kept && last <= end) || last < end) && end <= last + block + 3
  }

  lemma FinishScanning(cps: seq<Position>, kept: seq<Position>, text: seq<byte>, block: int,
                       start: int, end: int, state: Position, next: int)
    requires |text| <= MAX_INT64 && 0 <= start <= end <= |text| && Valid(text[..start])
    requires Scanning(cps, kept, text, block, end, state, next)
    ensures Scanned(cps, kept, text, block, start, end, state.(byteOffset := end))
  {
    var last := cps[|cps| - 1].byteOffset;
    if last < MAX_INT64 {
      NextCheckpointBounds(last, block);
    }
    assert text[..end] == text[..start] + text[start..end];
    ValidConcat(text[..start], text[start..end]);
  }

  lemma StartScanning(kept: seq<Position>, text: seq<byte>, block: int)
    requires |text| <= MAX_INT64 && block > 0 && Partial(kept, text, block)
    ensures var p := kept[|kept| - 1];
            Scanning(kept, kept, text, block, p.byteOffset, p, NextCheckpointAfter(p.byteOffset, block))
  {
    var p := kept[|kept| - 1];
    assert p.(byteOffset := p.byteOffset) == p;
    if p.byteOffset < MAX_INT64 {
      NextCheckpointBounds(p.byteOffset, block);
    }
  }

  /** scanSegment: decodes [start, end) after the given checkpoints, in chunks of any size. */
  method ScanSegment(text: seq<byte>, block: int, kept: seq<Position>, start: int, end: int)
    returns (cps: seq<Position>, state: Position, error: Result<()>)
    requires 0 < block && |text| <= MAX_INT64
    requires Partial(kept, text, block) && kept[|kept| - 1].byteOffset == start <= end <= |text|
    ensures error.Failure? ==> ScanError(error.error)
    ensures error.Failure? && error.error != Aborted ==> !Valid(text[start..end])
    ensures error.Success? ==> Scanned(cps, kept, text, block, start, end, state)
  {
    hide PositionOf, Utf8.Valid, RuneLen;
    cps, state := kept, kept[|kept| - 1];
    assert Valid(text[..start]);
    var pending: seq<byte> := [];
    var readOffset, pos := start, start;
    var next := NextCheckpointAfter(start, block);
    StartScanning(kept, text, block);
    while readOffset < end
      invariant start <= pos <= readOffset <= end
      invariant pending == text[pos..readOffset] && (pos == readOffset || !FullRune(pending))
      invariant Scanning(cps, kept, text, block, pos, state, next)
    {
      if * {
        return cps, state, Failure(Aborted);
      }
      var want := Min(READ_BUFFER_BYTES, end - readOffset);
      var n :| 0 < n <= want;
      var data := pending + text[readOffset..readOffset + n];
      assert data == text[pos..readOffset + n];
      var e;
      cps, pos, state, next, e := ScanChunk(cps, kept, text, block, start, end, pos, readOffset + n, state, next, data);
      if e.Failure? {
        return cps, state, e;
      }
      pending := text[pos..readOffset + n];
      readOffset := readOffset + n;
    }
    if |pending| != 0 {
      RuneLenFacts(pending);
      BrokenStretch(text, start, pos, readOffset, end);
      error := Failure(if end == |text| then InvalidUTF8 else SourceInconsistent);
      return;
    }
    if * {
      return cps, state, Failure(Aborted);
    }
    FinishScanning(cps, kept, text, block, start, end, state, next);
    state := state.(byteOffset := end);
    error := Success(());
  }

  /** finishScan: closes the table of a scan that reached the end of the text. The end is the last checkpoint, once, and
      the table is complete. */
  method FinishScan(cps: seq<Position>, text: seq<byte>, block: int, ghost kept: seq<Position>, ghost start: int,
                    state: Position)
    returns (r: seq<Position>)
    requires Scanned(cps, kept, text, block, start, |text|, state)
    ensures cps <= r && Complete(r, text, block)
  {
    var end := state.(byteOffset := |text|);
    if cps[|cps| - 1].byteOffset != end.byteOffset {
      AppendCheckpoint(cps, text, block, state);
      r := cps + [end];
    } else {
      PositionsOrdered(cps[|cps| - 1], state, text);
      r := cps[|cps| - 1 := end];
    }
  }

  /** The full scan of Build: it accepts exactly valid text and indexes all of it. */
  method BuildCheckpoints(text: seq<byte>, block: int) returns (r: Result<seq<Position>>)
    requires 0 < block && |text| <= MAX_INT64
    ensures r.Success? ==> Valid(text) && Complete(r.value, text, block)
    ensures r.Failure? ==> ScanError(r.error) && (r.error != Aborted ==> !Valid(text))
  {
    assert text[..0] == [] && text[0..|text|] == text;
    var cps, state, error := ScanSegment(text, block, [ORIGIN], 0, |text|);
    if error.Failure? {
      return Failure(error.error);
    }
    var finished := FinishScan(cps, text, block, [ORIGIN], 0, state);
    r := Success(finished);
  }

  lemma SameStretch(before: seq<byte>, text: seq<byte>, o: nat, n: nat, length: nat)
    requires o + length <= |before| && n <= |text| && before[o..] == text[n..]
    ensures n + length <= |text| && before[o..o + length] == text[n..n + length]
    ensures before[o + length..] == text[n + length..]
    ensures before[..o + length] == before[..o] + before[o..o + length]
    ensures text[..n + length] == text[..n] + before[o..o + length]
  {
    assert |before[o..]| == |text[n..]|;
    assert before[o..][..length] == text[n..][..length];
    assert before[o..][length..] == text[n..][length..];
  }

  lemma TranslatedStretch(a: seq<byte>, b: seq<byte>, stretch: seq<byte>)
    requires Valid(a) && Valid(b) && Valid(a + stretch)
    ensures Valid(b + stretch)
    ensures PositionOf(b + stretch) == Translate(PositionOf(b), PositionOf(a), PositionOf(a + stretch))
  {
    ValidConcat(a, stretch);
    ValidConcat(b, stretch);
    TranslateIsExact(a, b, stretch);
  }

  /** A checkpoint behind the seam, moved to the new text, is the position of its new place. */
  lemma TranslatedPosition(before: seq<byte>, text: seq<byte>, oldSeam: Position, seam: Position, at: Position)
    requires IsPosition(oldSeam, before) && IsPosition(at, before) && IsPosition(seam, text)
    requires oldSeam.byteOffset <= at.byteOffset
    requires before[oldSeam.byteOffset..] == text[seam.byteOffset..]
    ensures IsPosition(Translate(seam, oldSeam, at), text)
  {
    hide Valid, RuneLen;
    var o, n, length := oldSeam.byteOffset, seam.byteOffset, at.byteOffset - oldSeam.byteOffset;
    SameStretch(before, text, o, n, length);
    TranslatedStretch(before[..o], text[..n], before[o..o + length]);
  }

  /** The suffix of a plan, before its seam has been scanned. */
  ghost predicate SuffixSeam(plan: Plan, before: seq<byte>, text: seq<byte>, block: int) {
    && plan.suffix != [] && AllPositions(plan.suffix, before) && Spaced(plan.suffix, block)
    && plan.suffix[|plan.suffix| - 1].byteOffset == |before|
    && 0 <= plan.scanEnd <= |text|
    && before[plan.suffix[0].byteOffset..] == text[plan.scanEnd..]
  }

  /** The old and the new text agree behind the two seams. */
  ghost predicate SuffixPlan(suffix: seq<Position>, before: seq<byte>, text: seq<byte>, block: int, seam: Position) {
    && suffix != [] && AllPositions(suffix, before) && Spaced(suffix, block)
    && suffix[|suffix| - 1].byteOffset == |before|
    && IsPosition(seam, text)
    && before[suffix[0].byteOffset..] == text[seam.byteOffset..]
  }

  /** The next translated checkpoint lies close behind the previous one. */
  lemma TranslatedGap(suffix: seq<Position>, before: seq<byte>, text: seq<byte>, block: int, seam: Position, i: nat)
    requires SuffixPlan(suffix, before, text, block, seam) && i < |suffix|
    ensures IsPosition(Translate(seam, suffix[0], suffix[i]), text)
    ensures i == 0 ==> Translate(seam, suffix[0], suffix[i]) == seam
    ensures i > 0 ==>
              var previous, next := Translate(seam, suffix[0], suffix[i - 1]), Translate(seam, suffix[0], suffix[i]);
              previous.byteOffset < next.byteOffset <= previous.byteOffset + block + 3
    ensures i == |suffix| - 1 ==> Translate(seam, suffix[0], suffix[i]).byteOffset == |text|
  {
    if i > 0 {
      Increasing(suffix, block, 0, i);
      assert suffix[i - 1].byteOffset < suffix[i - 1 + 1].byteOffset;
    }
    TranslatedPosition(before, text, suffix[0], seam, suffix[i]);
    assert |before[suffix[0].byteOffset..]| == |text[seam.byteOffset..]|;
  }

  /** appendTranslatedSuffix: the old checkpoints behind the seam, with their coordinates moved. */
  method AppendTranslatedSuffix(cps0: seq<Position>, kept: seq<Position>, text: seq<byte>, block: int, start: int,
                                seam: Position, suffix: seq<Position>, ghost before: seq<byte>)
    returns (cps: seq<Position>, reusedSuffix: int)
    requires 0 < block && SuffixPlan(suffix, before, text, block, seam)
    requires Scanned(cps0, kept, text, block, start, seam.byteOffset, seam)
    ensures Complete(cps, text, block)
    ensures |cps| == |cps0| + reusedSuffix
    ensures |suffix| - 1 <= reusedSuffix <= |suffix|
  {
    hide IsPosition, Translate;
    cps := cps0;
    reusedSuffix := |suffix|;
    var oldSeam := suffix[0];
    var i := 0;
    while i < |suffix|
      invariant 0 <= i <= |suffix| && Partial(cps, text, block)
      invariant i == 0 ==> cps == cps0 && reusedSuffix == |suffix|
      invariant i > 0 ==> cps[|cps| - 1] == Translate(seam, oldSeam, suffix[i - 1])
      invariant |suffix| - 1 <= reusedSuffix <= |suffix| && |cps| + |suffix| == |cps0| + i + reusedSuffix
    {
      var translated := Translate(seam, oldSeam, suffix[i]);
      TranslatedGap(suffix, before, text, block, seam, i);
      if cps[|cps| - 1].byteOffset == translated.byteOffset {
        PositionsOrdered(cps[|cps| - 1], translated, text);
        cps := cps[|cps| - 1 := translated];
        if i == 0 {
          reusedSuffix := reusedSuffix - 1;
        }
      } else {
        AppendCheckpoint(cps, text, block, translated);
        cps := cps + [translated];
      }
      i := i + 1;
    }
    TranslatedGap(suffix, before, text, block, seam, |suffix| - 1);
  }

  // ---------------------------------------------------------------- incremental plan

  datatype Plan = Plan(scanEnd: int, prefix: seq<Position>, suffix: seq<Position>)

  /** The last kept checkpoint is the last one not behind the first edit. */
  ghost predicate PrefixOf(prefix: seq<Position>, cps: seq<Position>, m: CM.ChangeMap) {
    prefix != [] && prefix <= cps &&
    prefix[|prefix| - 1].byteOffset <= CM.StablePrefix(m.beforeLength, m.edits) &&
    (|prefix| < |cps| ==> CM.StablePrefix(m.beforeLength, m.edits) < cps[|prefix|].byteOffset)
  }

  /** A reused suffix is an end of the old list, behind the seam, and more than the end of the text. */
  ghost predicate SuffixOf(plan: Plan, cps: seq<Position>, m: CM.ChangeMap) {
    var seam := CM.SeamAfter(m.edits);
    2 <= |plan.suffix| <= |cps| && plan.suffix == cps[|cps| - |plan.suffix|..] &&
    seam.before <= plan.suffix[0].byteOffset &&
    plan.scanEnd == seam.after + plan.suffix[0].byteOffset - seam.before
  }

  ghost predicate SeedOf(plan: Plan, cps: seq<Position>, m: CM.ChangeMap) {
    PrefixOf(plan.prefix, cps, m) &&
    (if plan.suffix == [] then plan.scanEnd == m.afterLength else SuffixOf(plan, cps, m)) &&
    plan.prefix[|plan.prefix| - 1].byteOffset <= plan.scanEnd <= m.afterLength
  }

  /** sort.Search over the byte offsets: how many checkpoints lie before a bound. */
  method CountBefore(cps: seq<Position>, block: int, bound: int) returns (k: nat)
    requires Spaced(cps, block)
    ensures k <= |cps|
    ensures k > 0 ==> cps[k - 1].byteOffset < bound
    ensures k < |cps| ==> bound <= cps[k].byteOffset
    ensures forall i :: 0 <= i < k ==> cps[i].byteOffset < bound
  {
    forall i, j | 0 <= i < j < |cps|
      ensures cps[i].byteOffset < cps[j].byteOffset
    {
      Increasing(cps, block, i, j);
    }
    var behind := i requires 0 <= i < |cps| => cps[i].byteOffset >= bound;
    k := Search(|cps|, behind);
    assert k > 0 ==> !behind(k - 1);
    assert k < |cps| ==> behind(k);
    assert forall i :: 0 <= i < k ==> !behind(i);
  }

  /** incrementalSeed: keep the checkpoints up to the first edit, and those from the first old
      checkpoint behind the untouched suffix on, unless that is the end of the text. */
  method IncrementalSeed(cps: seq<Position>, ghost before: seq<byte>, block: int, m: CM.ChangeMap)
    returns (plan: Plan)
    requires Complete(cps, before, block) && CM.ValidMap(m) && m.beforeLength == |before|
    ensures SeedOf(plan, cps, m)
  {
    var stablePrefix := FirstTouched(m);
    CM.SeamBounds(m.beforeLength, m.edits);
    var k := CountBefore(cps, block, stablePrefix + 1);
    assert k > 0;
    var prefix := cps[..k];
    if |m.edits| == 0 {
      assert k == |cps|;
      return Plan(prefix[k - 1].byteOffset, prefix, cps[k..]);
    }
    var oldSuffix, newSuffix, ok := CM.StableSuffix(m);
    var j := CountBefore(cps, block, oldSuffix);
    if j >= |cps| - 1 {
      return Plan(m.afterLength, prefix, []);
    }
    Increasing(cps, block, j, |cps| - 1);
    plan := Plan(newSuffix + cps[j].byteOffset - oldSuffix, prefix, cps[j..]);
  }

  /** The loop for the smallest edit start. */
  method FirstTouched(m: CM.ChangeMap) returns (p: int)
    ensures p == CM.StablePrefix(m.beforeLength, m.edits)
  {
    p := m.beforeLength;
    var i := 0;
    while i < |m.edits|
      invariant 0 <= i <= |m.edits| && p == CM.StablePrefix(m.beforeLength, m.edits[..i])
    {
      assert m.edits[..i + 1][..i] == m.edits[..i];
      if m.edits[i].start < p {
        p := m.edits[i].start;
      }
      i := i + 1;
    }
    assert m.edits[..i] == m.edits;
  }

  /** What an exact map says about the two texts: the same bytes before the first edit and behind the seam. */
  lemma Untouched(m: CM.ChangeMap, before: seq<byte>, text: seq<byte>)
    requires CM.ValidMap(m) && CM.Describes(m, before, text)
    ensures var p := CM.StablePrefix(m.beforeLength, m.edits);
            0 <= p <= |before| && p <= |text| && before[..p] == text[..p]
    ensures var seam := CM.SeamAfter(m.edits);
            0 <= seam.before <= |before| && 0 <= seam.after <= |text| && before[seam.before..] == text[seam.after..]
  {
    var ops :| CM.Shapes(ops) == m.edits && Applicable(before, ops) && Apply(before, ops) == text;
    CM.PrefixUntouched(before, ops);
    CM.SuffixUntouched(before, ops);
  }

  lemma PrefixStaysPartial(cps: seq<Position>, k: nat, before: seq<byte>, text: seq<byte>, block: int, p: int)
    requires Partial(cps, before, block) && 0 < k <= |cps|
    requires 0 <= p <= |before| && p <= |text| && before[..p] == text[..p] && cps[k - 1].byteOffset <= p
    ensures Partial(cps[..k], text, block)
  {
    forall i | 0 <= i < k
      ensures IsPosition(cps[i], text)
    {
      if i < k - 1 {
        Increasing(cps, block, i, k - 1);
      }
      assert before[..p][..cps[i].byteOffset] == before[..cps[i].byteOffset];
      assert text[..p][..cps[i].byteOffset] == text[..cps[i].byteOffset];
    }
  }

  /** A text is valid exactly when the stretch between two boundaries with valid surroundings is. */
  lemma SegmentValid(before: seq<byte>, text: seq<byte>, start: nat, oldSeam: nat, seam: nat)
    requires Valid(before) && oldSeam < |before| && start <= seam <= |text|
    requires Valid(text[..start]) && Valid(before[..oldSeam])
    requires before[oldSeam..] == text[seam..]
    ensures Valid(text) ==> Valid(text[start..seam])
  {
    hide Valid, RuneLen;
    if Valid(text) {
      assert before[..oldSeam] + before[oldSeam..] == before;
      ValidConcat(before[..oldSeam], before[oldSeam..]);
      ValidStarts(before[oldSeam..]);
      assert seam < |text| && text[seam] == text[seam..][0] == before[oldSeam..][0];
      SelfSynchronizing(text, seam);
      assert text[..seam] == text[..start] + text[start..seam];
      ValidConcat(text[..start], text[start..seam]);
    }
  }

  /** Rebuild: given a finished index of the old text and an exact map to the new one, it accepts
      exactly valid text, and produces a finished index of the new text although it decodes only
      the segment between the kept prefix and the seam. */
  method RebuildCheckpoints(cps: seq<Position>, ghost before: seq<byte>, text: seq<byte>, block: int, m: CM.ChangeMap)
    returns (r: Result<seq<Position>>)
    requires 0 < block && |text| <= MAX_INT64
    requires Complete(cps, before, block)
    requires CM.ValidMap(m) && CM.Describes(m, before, text)
    ensures r.Success? ==> Valid(text) && Complete(r.value, text, block)
    ensures r.Failure? ==> ScanError(r.error) && (r.error != Aborted ==> !Valid(text))
  {
    Untouched(m, before, text);
    var plan := IncrementalSeed(cps, before, block, m);
    PlanPrefix(cps, before, text, block, m, plan.prefix);
    if plan.suffix != [] {
      PlanSegment(cps, before, text, block, m, plan, plan.prefix[|plan.prefix| - 1]);
    }
    r := RunPlan(plan, before, text, block);
  }

  /** Scanning the segment of a plan and appending the kept suffix, or finishing at the end of the text. */
  method RunPlan(plan: Plan, ghost before: seq<byte>, text: seq<byte>, block: int) returns (r: Result<seq<Position>>)
    requires 0 < block && |text| <= MAX_INT64
    requires Partial(plan.prefix, text, block)
    requires plan.prefix[|plan.prefix| - 1].byteOffset <= plan.scanEnd <= |text|
    requires Valid(text) ==> Valid(text[plan.prefix[|plan.prefix| - 1].byteOffset..plan.scanEnd])
    requires if plan.suffix == [] then plan.scanEnd == |text| else SuffixSeam(plan, before, text, block)
    ensures r.Success? ==> Valid(text) && Complete(r.value, text, block)
    ensures r.Failure? ==> ScanError(r.error) && (r.error != Aborted ==> !Valid(text))
  {
    hide PositionOf, Utf8.Valid;
    var start := plan.prefix[|plan.prefix| - 1].byteOffset;
    var scanned, state, error := ScanSegment(text, block, plan.prefix, start, plan.scanEnd);
    if error.Failure? {
      return Failure(error.error);
    }
    var finished;
    if |plan.suffix| == 0 {
      finished := FinishScan(scanned, text, block, plan.prefix, start, state);
    } else {
      var reused;
      finished, reused := AppendTranslatedSuffix(scanned, plan.prefix, text, block, start, state, plan.suffix, before);
    }
    CompleteValid(finished, text, block);
    r := Success(finished);
  }

  lemma CompleteValid(cps: seq<Position>, text: seq<byte>, block: int)
    requires Complete(cps, text, block)
    ensures Valid(text)
  {
    assert IsPosition(cps[|cps| - 1], text) && text[..|text|] == text;
  }

  /** The kept prefix is a partial index of the new text too. */
  lemma PlanPrefix(cps: seq<Position>, before: seq<byte>, text: seq<byte>, block: int, m: CM.ChangeMap,
                   prefix: seq<Position>)
    requires Complete(cps, before, block) && PrefixOf(prefix, cps, m)
    requires var p := CM.StablePrefix(m.beforeLength, m.edits);
             0 <= p <= |before| && p <= |text| && before[..p] == text[..p]
    ensures Partial(prefix, text, block)
    ensures Valid(text) ==> Valid(text[prefix[|prefix| - 1].byteOffset..|text|])
  {
    var k := |prefix|;
    assert prefix == cps[..k];
    PrefixStaysPartial(cps, k, before, text, block, CM.StablePrefix(m.beforeLength, m.edits));
    RestValid(prefix[k - 1], text);
  }

  lemma RestValid(p: Position, text: seq<byte>)
    requires IsPosition(p, text)
    ensures Valid(text) ==> Valid(text[p.byteOffset..|text|])
  {
    assert text[..p.byteOffset] + text[p.byteOffset..|text|] == text;
    ValidConcat(text[..p.byteOffset], text[p.byteOffset..|text|]);
  }

  /** The end of a complete list is itself spaced and reaches the end of the text. */
  lemma SuffixOfComplete(cps: seq<Position>, text: seq<byte>, block: int, j: nat)
    requires Complete(cps, text, block) && j < |cps|
    ensures AllPositions(cps[j..], text) && Spaced(cps[j..], block)
    ensures cps[j..][|cps| - j - 1].byteOffset == |text|
  {
    forall i | 0 <= i < |cps[j..]| - 1
      ensures cps[j..][i].byteOffset < cps[j..][i + 1].byteOffset <= cps[j..][i].byteOffset + block + 3
    {
      assert cps[j + i].byteOffset < cps[j + i + 1].byteOffset;
    }
  }

  /** The scanned segment of a plan that reuses a suffix. */
  lemma PlanSegment(cps: seq<Position>, before: seq<byte>, text: seq<byte>, block: int, m: CM.ChangeMap, plan: Plan,
                    start: Position)
    requires Complete(cps, before, block) && SuffixOf(plan, cps, m)
    requires m.beforeLength == |before| && m.afterLength == |text|
    requires var seam := CM.SeamAfter(m.edits);
             0 <= seam.before <= |before| && 0 <= seam.after <= |text| && before[seam.before..] == text[seam.after..]
    requires IsPosition(start, text) && start.byteOffset <= plan.scanEnd <= |text|
    ensures SuffixSeam(plan, before, text, block)
    ensures Valid(text) ==> Valid(text[start.byteOffset..plan.scanEnd])
  {
    hide PositionOf, Utf8.Valid;
    var j := |cps| - |plan.suffix|;
    var seam, o := CM.SeamAfter(m.edits), plan.suffix[0].byteOffset;
    SuffixOfComplete(cps, before, block, j);
    assert plan.suffix[0] == cps[j];
    Increasing(cps, block, j, |cps| - 1);
    SameStretch(before, text, seam.before, seam.after, o - seam.before);
    CompleteValid(cps, before, block);
    SegmentValid(before, text, start.byteOffset, o, plan.scanEnd);
  }
}
