/** Opening a file: one pass over chunks of any size validates the text, finds the byte order
    mark and classifies the line ends. */
module BaseScan {
  import opened Documents
  import opened Utf8

  datatype EOLStyle = EOLLF | EOLCRLF | EOLMixed

  const BOM: seq<byte> := [0xEF, 0xBB, 0xBF]

  predicate StartsWithBOM(s: seq<byte>) {
    |s| >= 3 && s[..3] == BOM
  }

  /** The logical text of a file: everything after an initial byte order mark. */
  function TextOf(file: seq<byte>): seq<byte> {
    if StartsWithBOM(file) then file[3..] else file
  }

  /** Occurrences of CR LF. */
  function CountCRLF(s: seq<byte>): (n: nat)
    ensures n <= CountLF(s)
    decreases |s|
  {
    if s == [] then 0 else
      CountCRLF(s[..|s| - 1]) + (if |s| > 1 && s[|s| - 2] == CR && s[|s| - 1] == LF then 1 else 0)
  }

  function Style(crlf: int, lf: int): EOLStyle {
    if crlf > 0 && lf > 0 then EOLMixed else if crlf > 0 then EOLCRLF else EOLLF
  }

  /** detectEOL over a whole text. */
  function DetectEOL(text: seq<byte>): EOLStyle {
    Style(CountCRLF(text), CountLF(text) - CountCRLF(text))
  }

  /** A line end of two bytes, and one of a single LF. */
  predicate PairAt(s: seq<byte>, i: nat) {
    i + 1 < |s| && s[i] == CR && s[i + 1] == LF
  }

  predicate LoneAt(s: seq<byte>, i: nat) {
    i < |s| && s[i] == LF && (i == 0 || s[i - 1] != CR)
  }

  ghost predicate HasPair(s: seq<byte>) {
    exists i :: PairAt(s, i)
  }

  ghost predicate HasLone(s: seq<byte>) {
    exists i :: LoneAt(s, i)
  }

  lemma {:induction false} LineEndsCounted(s: seq<byte>)
    ensures CountCRLF(s) > 0 <==> HasPair(s)
    ensures CountLF(s) > CountCRLF(s) <==> HasLone(s)
    decreases |s|
  {
    if s != [] {
      var n := |s| - 1;
      LineEndsCounted(s[..n]);
      forall i: nat
        ensures PairAt(s, i) <==> PairAt(s[..n], i) || (i + 1 == n && PairAt(s, i))
        ensures LoneAt(s, i) <==> LoneAt(s[..n], i) || (i == n && LoneAt(s, n))
      {
      }
      assert n > 0 ==> (CountCRLF(s) > CountCRLF(s[..n]) <==> PairAt(s, n - 1));
      assert CountLF(s) - CountLF(s[..n]) > CountCRLF(s) - CountCRLF(s[..n]) <==> LoneAt(s, n);
    }
  }

  /** The style says which line ends a text has: mixed with both kinds, CR LF with pairs alone, and LF otherwise. */
  lemma DetectEOLMeans(text: seq<byte>)
    ensures DetectEOL(text) == if HasPair(text) then (if HasLone(text) then EOLMixed else EOLCRLF) else EOLLF
  {
    LineEndsCounted(text);
  }

  datatype Scan = Scan(size: int, hasBOM: bool, baseOffset: int, newlines: int, eol: EOLStyle)
  datatype Error = InvalidUTF8 | Aborted
  datatype Result = Success(scan: Scan) | Failure(error: Error)

  /** What opening a file must find, defined on the file as a whole. */
  function ScanOf(file: seq<byte>): Scan {
    Scan(|file|, StartsWithBOM(file), if StartsWithBOM(file) then 3 else 0,
         CountLF(TextOf(file)), DetectEOL(TextOf(file)))
  }

  /** No continuation of s is a valid text. */
  ghost predicate Hopeless(s: seq<byte>) {
    forall t :: !Valid(s + t)
  }

  lemma HopelessExtends(s: seq<byte>, t: seq<byte>)
    requires Hopeless(s)
    ensures Hopeless(s + t)
  {
    forall u ensures !Valid(s + t + u) {
      assert s + t + u == s + (t + u);
    }
  }

  /** An unfinished rune can always be finished. */
  lemma FinishRune(pending: seq<byte>) returns (rest: seq<byte>)
    requires pending != [] && !FullRune(pending)
    ensures Valid(pending + rest)
  {
    hide Valid;
    var first := pending[0];
    var n := Need(first);
    var second: byte := if first == 0xE0 then 0xA0 else if first == 0xF0 then 0x90 else 0x80;
    var least: seq<byte> := [first, second, 0x80, 0x80];
    rest := least[|pending|..n];
    var rune := pending + rest;
    forall i | |pending| <= i < n
      ensures rune[i] == least[i]
    {
      assert rune[i] == rest[i - |pending|];
    }
    assert SecondOk(rune[0], rune[1]) && (n > 2 ==> Cont(rune[2])) && (n > 3 ==> Cont(rune[3]));
    WholeRuneValid(rune, n);
    assert rune[..n] == rune;
  }

  lemma Completable(decoded: seq<byte>, pending: seq<byte>)
    requires Valid(decoded) && (pending == [] || !FullRune(pending))
    ensures !Hopeless(decoded + pending)
  {
    hide Valid, FullRune;
    if pending == [] {
      assert decoded + pending + [] == decoded;
    } else {
      var rest := FinishRune(pending);
      ValidConcat(decoded, pending + rest);
      assert decoded + pending + rest == decoded + (pending + rest);
    }
  }

  /** The incremental validator: complete runes are consumed, at most one unfinished rune is kept. */
  class Utf8StreamValidator {
    var pending: seq<byte>
    ghost var fed: seq<byte>

    ghost predicate Consistent()
      reads this
    {
      |pending| <= |fed| && fed[|fed| - |pending|..] == pending &&
      Utf8.Valid(fed[..|fed| - |pending|]) && (pending == [] || !FullRune(pending))
    }

    constructor ()
      ensures Consistent() && fed == []
    {
      pending := [];
      fed := [];
    }

    /** Refuses exactly when no later input could make the text valid. */
    method Write(value: seq<byte>) returns (ok: bool)
      requires Consistent()
      modifies this
      ensures ok ==> Consistent() && fed == old(fed) + value
      ensures ok <==> !Hopeless(old(fed) + value)
    {
      hide RuneLen, Hopeless, Utf8.Valid;
      var data := pending + value;
      ghost var whole := fed + value;
      ghost var decoded := fed[..|fed| - |pending|];
      assert whole == decoded + data;
      pending := [];
      while |data| > 0
        invariant whole == decoded + data && Utf8.Valid(decoded) && pending == []
        decreases |data|
      {
        if !FullRune(data) {
          pending := pending + data;
          fed := whole;
          assert whole[..|whole| - |data|] == decoded;
          Completable(decoded, data);
          return true;
        }
        var size := RuneLen(data);
        DecodeStep(whole, decoded, data);
        if size == 0 {
          return false;
        }
        decoded := decoded + data[..size];
        data := data[size..];
      }
      fed := whole;
      assert whole == decoded;
      Completable(decoded, []);
      ok := true;
    }

    /** Nothing unfinished is left exactly when all that was fed is a valid text. */
    method Complete() returns (complete: bool)
      requires Consistent()
      ensures complete <==> Utf8.Valid(fed)
    {
      complete := |pending| == 0;
      ghost var decoded := fed[..|fed| - |pending|];
      assert fed == decoded + pending;
      ValidConcat(decoded, pending);
      if !complete {
        RuneLenFacts(pending);
      }
    }
  }

  lemma TextGrows(s: seq<byte>, t: seq<byte>)
    requires |s| >= 3
    ensures TextOf(s + t) == TextOf(s) + t && (StartsWithBOM(s + t) <==> StartsWithBOM(s))
  {
    assert (s + t)[..3] == s[..3];
  }

  /** One full rune after a valid text: consumed, or fatal whatever follows. */
  lemma DecodeStep(whole: seq<byte>, decoded: seq<byte>, data: seq<byte>)
    requires whole == decoded + data && Valid(decoded) && FullRune(data)
    ensures RuneLen(data) == 0 ==> Hopeless(whole)
    ensures RuneLen(data) > 0 ==>
              Valid(decoded + data[..RuneLen(data)]) &&
              whole == decoded + data[..RuneLen(data)] + data[RuneLen(data)..]
  {
    var size := RuneLen(data);
    if size == 0 {
      forall t ensures !Valid(whole + t) {
        assert whole + t == decoded + (data + t);
        RuneLenExtend(data, t);
        ValidConcat(decoded, data + t);
      }
    } else {
      WholeRuneValid(data, size);
      ValidConcat(decoded, data[..size]);
    }
  }

  class Scanner {
    const validator: Utf8StreamValidator
    var probe: seq<byte>
    var bomDecided: bool
    var hasBOM: bool
    var crlf: int
    var lf: int
    var newlines: int
    var previousCR: bool
    ghost var seen: seq<byte>

    ghost predicate Counted()
      reads this`newlines, this`crlf, this`lf, this`previousCR, validator
    {
      validator.Consistent() && Tallied(validator.fed)
    }

    /** The counters are those of the text. */
    ghost predicate Tallied(text: seq<byte>)
      reads this`newlines, this`crlf, this`lf, this`previousCR
    {
      && newlines == CountLF(text)
      && crlf == CountCRLF(text)
      && lf == newlines - crlf
      && (previousCR <==> text != [] && text[|text| - 1] == CR)
    }

    ghost predicate Consistent()
      reads this, validator
    {
      && Counted()
      && (if bomDecided
          then |seen| >= 3 && (hasBOM <==> StartsWithBOM(seen)) && validator.fed == TextOf(seen)
          else |seen| < 3 && probe == seen && validator.fed == [] && !hasBOM)
    }

    constructor ()
      ensures Consistent() && seen == [] && fresh(validator)
    {
      validator := new Utf8StreamValidator();
      probe, bomDecided, hasBOM := [], false, false;
      crlf, lf, newlines, previousCR := 0, 0, 0, false;
      seen := [];
    }

    method CountByte(b: byte, ghost text: seq<byte>)
      requires Tallied(text)
      modifies this`crlf, this`lf, this`newlines, this`previousCR
      ensures Tallied(text + [b])
    {
      assert (text + [b])[..|text|] == text;
      if b == LF {
        newlines := newlines + 1;
        if previousCR {
          crlf := crlf + 1;
        } else {
          lf := lf + 1;
        }
      }
      previousCR := b == CR;
    }

    /** The counting loop of the scan, continued after the given text. */
    method CountLines(value: seq<byte>, ghost text: seq<byte>)
      requires Tallied(text)
      modifies this`crlf, this`lf, this`newlines, this`previousCR
      ensures Tallied(text + value)
    {
      ghost var done := text;
      var i := 0;
      while i < |value|
        invariant 0 <= i <= |value|
        invariant Tallied(done) && done == text + value[..i]
      {
        CountByte(value[i], done);
        done := done + [value[i]];
        i := i + 1;
      }
      assert done == text + value;
    }

    method FeedText(value: seq<byte>) returns (ok: bool)
      requires Counted()
      modifies this`crlf, this`lf, this`newlines, this`previousCR, validator
      ensures ok ==> Counted() && validator.fed == old(validator.fed) + value
      ensures !ok ==> Hopeless(old(validator.fed) + value)
    {
      ghost var text := validator.fed;
      ok := validator.Write(value);
      if ok {
        CountLines(value, text);
      }
    }

    /** Completes the three-byte probe with the start of the chunk. */
    method Probe(take: seq<byte>) returns (ok: bool)
      requires Consistent() && !bomDecided && |probe| + |take| <= 3
      modifies this, validator
      ensures ok ==> Consistent() && seen == old(seen) + take && (bomDecided <==> |seen| == 3)
      ensures !ok ==> !StartsWithBOM(old(seen) + take) && |old(seen) + take| == 3 && Hopeless(old(seen) + take)
    {
      hide Counted, Hopeless, StartsWithBOM, TextOf;
      ok := true;
      probe := probe + take;
      seen := seen + take;
      if |probe| == 3 {
        ThreeBytes(probe);
        bomDecided := true;
        if probe == BOM {
          hasBOM := true;
          probe := [];
        } else {
          assert [] + probe == probe;
          ok := FeedText(probe);
        }
      }
    }

    static lemma ThreeBytes(s: seq<byte>)
      requires |s| == 3
      ensures StartsWithBOM(s) <==> s == BOM
      ensures TextOf(s) == if s == BOM then [] else s
    {
      assert s[..3] == s;
    }

    /** Everything behind the probe is text. */
    method ConsumeText(value: seq<byte>) returns (ok: bool)
      requires Consistent() && bomDecided
      modifies this, validator
      ensures ok ==> Consistent() && seen == old(seen) + value
      ensures !ok ==> Hopeless(TextOf(old(seen) + value))
    {
      TextGrows(seen, value);
      ok := FeedText(value);
      seen := seen + value;
    }

    method Consume(chunk: seq<byte>) returns (ok: bool)
      requires Consistent()
      modifies this, validator
      ensures ok ==> Consistent() && seen == old(seen) + chunk
      ensures !ok ==> Hopeless(TextOf(old(seen) + chunk))
    {
      var value := chunk;
      if !bomDecided {
        var take := Min(3 - |probe|, |value|);
        ok := Probe(value[..take]);
        value := value[take..];
        ghost var probed := old(seen) + chunk[..take];
        assert old(seen) + chunk == probed + value;
        if !ok {
          HopelessExtends(probed, value);
          assert (probed + value)[..3] == probed;
          return;
        }
        if !bomDecided {
          assert value == [];
          return true;
        }
      }
      assert old(seen) + chunk == seen + value;
      ok := ConsumeText(value);
    }

    method Finish(size: int) returns (r: Result)
      requires Consistent() && size == |seen|
      modifies this, validator
      ensures r == if Utf8.Valid(TextOf(seen)) then Success(ScanOf(seen)) else Failure(InvalidUTF8)
      ensures seen == old(seen)
    {
      if !bomDecided {
        assert [] + probe == seen == TextOf(seen);
        var ok := FeedText(probe);
        if !ok {
          assert seen + [] == seen;
          return Failure(InvalidUTF8);
        }
      }
      var complete := validator.Complete();
      if !complete {
        return Failure(InvalidUTF8);
      }
      r := Success(Scan(size, hasBOM, if hasBOM then 3 else 0, newlines, Style(crlf, lf)));
    }
  }

  /** The open scan. The file is read in chunks whose sizes the operating system chooses, and may
      be abandoned at any of the polls; the answer does not depend on the chunks. */
  method ScanOpenedBase(file: seq<byte>, bufferSize: nat) returns (r: Result)
    requires bufferSize > 0
    ensures r != Failure(Aborted) ==>
              r == if Valid(TextOf(file)) then Success(ScanOf(file)) else Failure(InvalidUTF8)
  {
    hide Scanner.Consistent, TextOf, Hopeless, Valid, RuneLen, ScanOf;
    var scanner := new Scanner();
    var offset := 0;
    while offset < |file|
      invariant 0 <= offset <= |file|
      invariant scanner.Consistent() && scanner.seen == file[..offset]
      invariant fresh(scanner) && fresh(scanner.validator)
    {
      if * {
        return Failure(Aborted);
      }
      var want := Min(bufferSize, |file| - offset);
      var n :| 0 < n <= want;
      var ok := scanner.Consume(file[offset..offset + n]);
      assert file[..offset] + file[offset..offset + n] == file[..offset + n];
      if !ok {
        ghost var text := TextOf(file[..offset + n]);
        TextExtends(file, offset + n);
        return Failure(InvalidUTF8);
      }
      offset := offset + n;
    }
    assert file[..offset] == file;
    if * {
      return Failure(Aborted);
    }
    r := scanner.Finish(|file|);
  }

  lemma TextExtends(file: seq<byte>, n: nat)
    requires n <= |file| && Hopeless(TextOf(file[..n]))
    ensures !Valid(TextOf(file))
  {
    var rest := file[n..];
    assert file == file[..n] + rest;
    if |file[..n]| >= 3 || StartsWithBOM(file[..n]) || !StartsWithBOM(file) {
      assert n >= 3 ==> file[..n][..3] == file[..3];
      assert TextOf(file) == TextOf(file[..n]) + rest;
    } else {
      TooShortToRefuse(file[..n]);
    }
  }

  /** A proper prefix of the byte order mark can still become a valid text. */
  lemma TooShortToRefuse(s: seq<byte>)
    requires |s| < 3 && s == BOM[..|s|]
    ensures !Hopeless(s)
  {
    assert s + BOM[|s|..] == BOM;
    assert Valid([]) && RuneLen(BOM) == 3;
    assert BOM[3..] == [];
    assert Valid(BOM);
  }
}
