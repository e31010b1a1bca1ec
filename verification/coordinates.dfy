/** Text coordinates, defined on the whole prefix of a text, and their behaviour under
    concatenation: what checkpoints are made of. */
module Coordinates {
  import opened Documents
  import opened Utf8

  /** A checkpoint, and a position: byte and rune offset, line, and runes since the last LF. */
  datatype Position = Position(byteOffset: int, runeOffset: int, line: int, column: int)

  const ORIGIN := Position(0, 0, 0, 0)

  function Column(s: seq<byte>): (n: nat)
    ensures n <= RuneCount(s)
    decreases |s|
  {
    if s == [] then 0
    else if s[|s| - 1] == LF then 0
    else Column(s[..|s| - 1]) + (if Cont(s[|s| - 1]) then 0 else 1)
  }

  /** The coordinates of the end of a text. */
  function PositionOf(prefix: seq<byte>): Position {
    Position(|prefix|, RuneCount(prefix), CountLF(prefix), Column(prefix))
  }

  lemma {:induction false} ColumnConcat(a: seq<byte>, b: seq<byte>)
    ensures Column(a + b) == (if CountLF(b) == 0 then Column(a) else 0) + Column(b)
    ensures CountLF(b) == 0 ==> Column(b) == RuneCount(b)
    decreases |b|
  {
    if b == [] {
      assert a + b == a;
    } else {
      ColumnConcat(a, b[..|b| - 1]);
      assert (a + b)[..|a + b| - 1] == a + b[..|b| - 1];
    }
  }

  /** The column counts the runes behind the last line end: it is 0 right behind an LF, and at the start of a text. */
  lemma {:induction false} ColumnFromLineStart(s: seq<byte>, k: nat)
    requires k <= |s| && (k == 0 || s[k - 1] == LF) && forall i :: k <= i < |s| ==> s[i] != LF
    ensures Column(s) == RuneCount(s[k..])
    decreases |s|
  {
    if k < |s| {
      ColumnFromLineStart(s[..|s| - 1], k);
      assert s[..|s| - 1][k..] == s[k..][..|s| - k - 1];
    }
  }

  /** advance: the coordinates after one more rune with the given first byte and size. */
  function Advance(p: Position, first: byte, size: int): Position {
    Position(p.byteOffset + size, p.runeOffset + 1,
             if first == LF then p.line + 1 else p.line,
             if first == LF then 0 else p.column + 1)
  }

  lemma AdvanceOneRune(prefix: seq<byte>, rune: seq<byte>)
    requires RuneLen(rune) == |rune| > 0
    ensures PositionOf(prefix + rune) == Advance(PositionOf(prefix), rune[0], |rune|)
  {
    OneRune(rune);
    RuneCountConcat(prefix, rune);
    CountLFConcat(prefix, rune);
    ColumnConcat(prefix, rune);
    if rune[0] == LF {
      assert rune == [LF] && rune[..0] == [];
      assert Column(rune) == 0;
    }
  }

  /** Moving a position past an untouched stretch of text: how translated checkpoints are computed. */
  function Translate(seam: Position, oldSeam: Position, at: Position): Position {
    Position(seam.byteOffset + at.byteOffset - oldSeam.byteOffset,
             seam.runeOffset + at.runeOffset - oldSeam.runeOffset,
             seam.line + at.line - oldSeam.line,
             if at.line == oldSeam.line then seam.column + at.column - oldSeam.column else at.column)
  }

  lemma TranslateIsExact(a: seq<byte>, b: seq<byte>, stretch: seq<byte>)
    ensures PositionOf(b + stretch) == Translate(PositionOf(b), PositionOf(a), PositionOf(a + stretch))
  {
    RuneCountConcat(a, stretch);
    RuneCountConcat(b, stretch);
    CountLFConcat(a, stretch);
    CountLFConcat(b, stretch);
    ColumnConcat(a, stretch);
    ColumnConcat(b, stretch);
  }

  /** Line and column order positions as byte offsets do. */
  predicate Before(p: Position, line: int, column: int) {
    p.line < line || (p.line == line && p.column < column)
  }

  /** Later boundaries have later rune offsets and later (line, column) pairs. */
  lemma PositionsIncrease(a: seq<byte>, b: seq<byte>)
    requires b != [] && Valid(b)
    ensures PositionOf(a).runeOffset < PositionOf(a + b).runeOffset
    ensures PositionOf(a).line <= PositionOf(a + b).line
    ensures Before(PositionOf(a), PositionOf(a + b).line, PositionOf(a + b).column)
  {
    RuneCountConcat(a, b);
    CountLFConcat(a, b);
    ColumnConcat(a, b);
    var n := RuneLen(b);
    RuneLenFacts(b);
    assert b == b[..1] + b[1..];
    RuneCountConcat(b[..1], b[1..]);
    assert b[..1][..0] == [];
    assert RuneCount(b[..1]) == 1;
  }

  /** A position of the text: a rune boundary and its coordinates. */
  predicate IsPosition(p: Position, text: seq<byte>) {
    0 <= p.byteOffset <= |text| && Valid(text[..p.byteOffset]) && p == PositionOf(text[..p.byteOffset])
  }

  /** Two positions of one text are ordered the same way by all coordinates. */
  lemma PositionsOrdered(p: Position, q: Position, text: seq<byte>)
    requires IsPosition(p, text) && IsPosition(q, text)
    ensures p.byteOffset < q.byteOffset ==> p.runeOffset < q.runeOffset && Before(p, q.line, q.column)
    ensures p.byteOffset == q.byteOffset ==> p == q
  {
    if p.byteOffset < q.byteOffset {
      var a, b := text[..p.byteOffset], text[p.byteOffset..q.byteOffset];
      assert text[..q.byteOffset] == a + b;
      ValidConcat(a, b);
      PositionsIncrease(a, b);
    }
  }

  /** One rune further in a valid text. */
  lemma NextPosition(p: Position, text: seq<byte>)
    requires IsPosition(p, text) && p.byteOffset < |text|
    requires RuneLen(text[p.byteOffset..]) > 0
    ensures var size := RuneLen(text[p.byteOffset..]);
            IsPosition(Advance(p, text[p.byteOffset], size), text)
  {
    var size := RuneLen(text[p.byteOffset..]);
    var rune := text[p.byteOffset..p.byteOffset + size];
    WholeRuneValid(text[p.byteOffset..], size);
    assert rune == text[p.byteOffset..][..size];
    assert text[..p.byteOffset] + rune == text[..p.byteOffset + size];
    AdvanceOneRune(text[..p.byteOffset], rune);
    ValidConcat(text[..p.byteOffset], rune);
  }

  /** Between two boundaries of a valid text the next rune does not cross the later one. */
  lemma RuneFits(text: seq<byte>, at: nat, later: nat)
    requires at < later <= |text| && Valid(text[..at]) && Valid(text[..later])
    ensures 0 < RuneLen(text[at..]) <= later - at
    ensures RuneLen(text[at..later]) == RuneLen(text[at..])
  {
    assert text[..later] == text[..at] + text[at..later];
    ValidConcat(text[..at], text[at..later]);
    RuneLenExtend(text[at..later], text[later..]);
    assert text[at..] == text[at..later] + text[later..];
  }
}
