/** A recovery journal as a file: its 96-byte header, and the loops that append to it and read it back. */
module JournalFiles {
  import opened Documents
  import opened Journal

  type Hash = h: seq<byte> | |h| == 32 witness seq(32, _ => 0)

  /** Binds a journal to the bytes and the path of its base file. */
  datatype Fingerprint = Fingerprint(baseSize: int, pathHash: Hash, contentHash: Hash)

  const FILE_MAGIC: seq<byte> := [0x44, 0x4F, 0x43, 0x4C, 0x4F, 0x47, 0x30, 0x32]

  datatype Error = InvalidBatch | WriteFailed | ShortWrite | InvalidRepairOffset | TruncateFailed
  datatype Result<+T> = Success(value: T) | Failure(error: Error)

  // ---------------------------------------------------------------- file header

  predicate ValidFingerprint(fp: Fingerprint) {
    0 <= fp.baseSize <= MAX_INT64
  }

  /** Bytes 0 to 92, which the header checksum covers. */
  function FileHeaderPrefix(fp: Fingerprint): (s: seq<byte>)
    requires ValidFingerprint(fp)
    ensures |s| == 92
  {
    FILE_MAGIC + LE(JOURNAL_VERSION, 4) + LE(FILE_HEADER_SIZE, 4) + LE(fp.baseSize, 8) + fp.pathHash + fp.contentHash
        + LE(0, 4)
  }

  function FileHeader(fp: Fingerprint, crc: Checksum): (s: seq<byte>)
    requires ValidFingerprint(fp)
    ensures |s| == FILE_HEADER_SIZE
  {
    FileHeaderPrefix(fp) + LE(crc(FileHeaderPrefix(fp)), 4)
  }

  /** readFileHeader: None when the file is too short, or its header is unsupported or corrupt. */
  function ReadFingerprint(file: seq<byte>, crc: Checksum): Option<Fingerprint> {
    if |file| < FILE_HEADER_SIZE then None
    else if file[..8] != FILE_MAGIC || UnLE(file, 8, 4) != JOURNAL_VERSION || UnLE(file, 12, 4) != FILE_HEADER_SIZE
        then None
    else if UnLE(file, 88, 4) != 0 || UnLE(file, 92, 4) != crc(file[..92]) then None
    else if UnLE(file, 16, 8) > MAX_INT64 then None
    else Some(Fingerprint(UnLE(file, 16, 8), file[24..56], file[56..88]))
  }

  lemma LEOf(low: byte, rest: nat, n: nat)
    ensures LE(low + 256 * rest, n + 1) == [low] + LE(rest, n)
  {
    assert (low + 256 * rest) % 256 == low && (low + 256 * rest) / 256 == rest;
  }

  lemma {:induction false} UnLERoundTrip(s: seq<byte>, at: nat, n: nat)
    requires at + n <= |s|
    ensures LE(UnLE(s, at, n), n) == s[at..at + n]
    decreases n
  {
    if n > 0 {
      UnLERoundTrip(s, at + 1, n - 1);
      var v, rest := UnLE(s, at, n), UnLE(s, at + 1, n - 1);
      assert v == s[at] + 256 * rest;
      LEOf(s[at], rest, n - 1);
      hide LE, UnLE;
      assert s[at..at + n] == [s[at]] + s[at + 1..at + 1 + (n - 1)];
    }
  }

  predicate HasFields(h: seq<byte>, fp: Fingerprint)
    requires |h| >= 96 && ValidFingerprint(fp)
  {
    && h[..8] == FILE_MAGIC && h[8..12] == LE(JOURNAL_VERSION, 4) && h[12..16] == LE(FILE_HEADER_SIZE, 4)
    && h[16..24] == LE(fp.baseSize, 8) && h[24..56] == fp.pathHash && h[56..88] == fp.contentHash
    && h[88..92] == LE(0, 4)
  }

  lemma FieldsJoin(h: seq<byte>, fp: Fingerprint)
    requires |h| >= 96 && ValidFingerprint(fp) && HasFields(h, fp)
    ensures h[..92] == FileHeaderPrefix(fp)
  {
    assert h[..92] == h[..8] + h[8..12] + h[12..16] + h[16..24] + h[24..56] + h[56..88] + h[88..92];
  }

  lemma PrefixSplit(fp: Fingerprint)
    requires ValidFingerprint(fp)
    ensures var p := FileHeaderPrefix(fp);
            && |p| == 92 && p[..8] == FILE_MAGIC && p[8..12] == LE(JOURNAL_VERSION, 4)
            && p[12..16] == LE(FILE_HEADER_SIZE, 4) && p[16..24] == LE(fp.baseSize, 8) && p[24..56] == fp.pathHash
            && p[56..88] == fp.contentHash && p[88..92] == LE(0, 4)
  {
    hide LE;
    var a := FILE_MAGIC + LE(JOURNAL_VERSION, 4) + LE(FILE_HEADER_SIZE, 4);
    var b := a + LE(fp.baseSize, 8) + fp.pathHash;
    assert a[..8] == FILE_MAGIC && a[8..12] == LE(JOURNAL_VERSION, 4) && a[12..16] == LE(FILE_HEADER_SIZE, 4);
    assert b[..16] == a && b[16..24] == LE(fp.baseSize, 8) && b[24..56] == fp.pathHash;
    var p := FileHeaderPrefix(fp);
    assert p == b + fp.contentHash + LE(0, 4);
    assert p[..56] == b && p[56..88] == fp.contentHash && p[88..92] == LE(0, 4);
    assert p[..8] == b[..8] && p[8..12] == b[8..12] && p[12..16] == b[12..16] && p[16..24] == b[16..24];
  }

  lemma FieldsSplit(h: seq<byte>, fp: Fingerprint)
    requires |h| >= 96 && ValidFingerprint(fp) && h[..92] == FileHeaderPrefix(fp)
    ensures HasFields(h, fp)
  {
    var p := FileHeaderPrefix(fp);
    PrefixSplit(fp);
    hide FileHeaderPrefix;
    assert h[..8] == p[..8] && h[8..12] == p[8..12] && h[12..16] == p[12..16] && h[16..24] == p[16..24];
    assert h[24..56] == p[24..56] && h[56..88] == p[56..88] && h[88..92] == p[88..92];
  }

  lemma UnLEIs(s: seq<byte>, at: nat, v: nat, n: nat)
    requires at + n <= |s| && v < Pow256(n)
    ensures UnLE(s, at, n) == v <==> s[at..at + n] == LE(v, n)
  {
    UnLERoundTrip(s, at, n);
    if s[at..at + n] == LE(v, n) {
      LERoundTrip(s, at, v, n);
    }
  }

  /** A file is bound to a fingerprint exactly when it begins with the header written for it. */
  lemma FingerprintRoundTrip(file: seq<byte>, fp: Fingerprint, crc: Checksum)
    requires ValidFingerprint(fp)
    ensures ReadFingerprint(file, crc) == Some(fp) <==>
              |file| >= FILE_HEADER_SIZE && file[..FILE_HEADER_SIZE] == FileHeader(fp, crc)
  {
    if |file| >= FILE_HEADER_SIZE {
      FieldsRead(file, fp);
      var sum := crc(FileHeaderPrefix(fp));
      Pow256Values();
      UnLEIs(file, 92, sum, 4);
      var header := FileHeader(fp, crc);
      assert header[..92] == FileHeaderPrefix(fp) && header[92..] == LE(sum, 4);
      if HasFields(file, fp) {
        FieldsJoin(file, fp);
        assert file[..96] == file[..92] + file[92..96];
        if file[..96] == header {
          assert file[92..96] == header[92..];
        }
      } else if file[..96] == header {
        assert file[..92] == header[..92];
        FieldsSplit(file, fp);
      }
    }
  }

  lemma FieldsRead(file: seq<byte>, fp: Fingerprint)
    requires |file| >= 96 && ValidFingerprint(fp)
    ensures HasFields(file, fp) <==>
              && file[..8] == FILE_MAGIC && UnLE(file, 8, 4) == JOURNAL_VERSION && UnLE(file, 12, 4) == FILE_HEADER_SIZE
              && UnLE(file, 88, 4) == 0 && Fingerprint(UnLE(file, 16, 8), file[24..56], file[56..88]) == fp
  {
    Pow256Values();
    UnLEIs(file, 8, JOURNAL_VERSION, 4);
    UnLEIs(file, 12, FILE_HEADER_SIZE, 4);
    UnLEIs(file, 16, fp.baseSize, 8);
    UnLEIs(file, 88, 0, 4);
  }

  // ---------------------------------------------------------------- appending

  lemma {:induction false} RecordsConcat(a: seq<Replace>, b: seq<Replace>)
    requires forall i :: 0 <= i < |a| ==> a[i].start >= 0 && a[i].deleteLength >= 0
    requires forall i :: 0 <= i < |b| ==> b[i].start >= 0 && b[i].deleteLength >= 0
    ensures Records(a + b) == Records(a) + Records(b)
    decreases |a|
  {
    if a == [] {
      assert a + b == b;
    } else {
      RecordsConcat(a[1..], b);
      assert (a + b)[0] == a[0] && (a + b)[1..] == a[1..] + b;
    }
  }

  lemma {:induction false} InsertsConcat(a: seq<Replace>, b: seq<Replace>)
    ensures Inserts(a + b) == Inserts(a) + Inserts(b)
    decreases |a|
  {
    if a == [] {
      assert a + b == b;
    } else {
      InsertsConcat(a[1..], b);
      assert (a + b)[0] == a[0] && (a + b)[1..] == a[1..] + b;
    }
  }

  predicate InInt64(ops: seq<Replace>) {
    forall i :: 0 <= i < |ops| ==> ops[i].start <= MAX_INT64 && ops[i].deleteLength <= MAX_INT64
  }

  predicate Nonnegative(ops: seq<Replace>) {
    forall i :: 0 <= i < |ops| ==> ops[i].start >= 0 && ops[i].deleteLength >= 0
  }

  /** batchPayloadSize: the size of the payload, or refusal of exactly the batches that cannot be encoded. */
  method BatchPayloadSize(firstRevision: nat, group: nat, ops: seq<Replace>) returns (r: Result<nat>)
    requires firstRevision <= MAX_UINT64 && group <= MAX_UINT64 && InInt64(ops)
    ensures r == if ValidBatch(Batch(firstRevision, group, ops))
            then Success(BATCH_RECORD_SIZE * |ops| + |Inserts(ops)|)
                 else Failure(InvalidBatch)
  {
    if |ops| == 0 || |ops| > MAXIMUM_BATCH_SIZE || firstRevision == 0 || group == 0
        || firstRevision > MAX_UINT64 - (|ops| - 1) {
      return Failure(InvalidBatch);
    }
    var total := BATCH_RECORD_SIZE * |ops|;
    var i := 0;
    while i < |ops|
      invariant 0 <= i <= |ops|
      invariant Nonnegative(ops[..i])
      invariant total == BATCH_RECORD_SIZE * |ops| + |Inserts(ops[..i])| <= MAXIMUM_BATCH_PAYLOAD
    {
      InsertsStep(ops, i);
      if ops[i].start < 0 || ops[i].deleteLength < 0 || |ops[i].insert| > MAXIMUM_BATCH_PAYLOAD - total {
        return Failure(InvalidBatch);
      }
      total := total + |ops[i].insert|;
      i := i + 1;
    }
    assert ops[..i] == ops;
    return Success(total);
  }

  lemma InsertsStep(ops: seq<Replace>, i: nat)
    requires i < |ops|
    ensures Inserts(ops[..i + 1]) == Inserts(ops[..i]) + ops[i].insert
    ensures |Inserts(ops[..i + 1])| <= |Inserts(ops)|
  {
    assert ops[..i + 1] == ops[..i] + [ops[i]];
    InsertsConcat(ops[..i], [ops[i]]);
    assert ops == ops[..i + 1] + ops[i + 1..];
    InsertsConcat(ops[..i + 1], ops[i + 1..]);
  }

  lemma RecordsStep(ops: seq<Replace>, i: nat)
    requires i < |ops| && Nonnegative(ops)
    ensures Records(ops[..i + 1]) == Records(ops[..i]) + Record(ops[i])
  {
    assert ops[..i + 1] == ops[..i] + [ops[i]];
    RecordsConcat(ops[..i], [ops[i]]);
  }

  /** copy: overwrites part of a buffer. */
  method CopyInto(buffer: array<byte>, at: nat, s: seq<byte>)
    requires at + |s| <= buffer.Length
    modifies buffer
    ensures buffer[..] == old(buffer[..at]) + s + old(buffer[at + |s|..])
  {
    forall i | 0 <= i < |s| {
      buffer[at + i] := s[i];
    }
    assert buffer[..at] == old(buffer[..at]) && buffer[at..at + |s|] == s
           && buffer[at + |s|..] == old(buffer[at + |s|..]);
    assert buffer[..] == buffer[..at] + buffer[at..at + |s|] + buffer[at + |s|..];
  }

  /** The half-filled buffer: records up to i in the table, their inserted bytes behind the table. */
  predicate Filled(payload: seq<byte>, ops: seq<Replace>, i: nat)
    requires i <= |ops| && Nonnegative(ops)
  {
    var table, inserted := BATCH_RECORD_SIZE * |ops|, Inserts(ops[..i]);
    && table + |inserted| <= |payload|
    && payload[..BATCH_RECORD_SIZE * i] == Records(ops[..i])
    && payload[table..table + |inserted|] == inserted
  }

  lemma FilledStep(before: seq<byte>, middle: seq<byte>, after: seq<byte>, ops: seq<Replace>, i: nat)
    requires i < |ops| && Nonnegative(ops) && Filled(before, ops, i)
    requires |before| == BATCH_RECORD_SIZE * |ops| + |Inserts(ops)|
    requires var at := BATCH_RECORD_SIZE * i;
             middle == before[..at] + Record(ops[i]) + before[at + BATCH_RECORD_SIZE..]
    requires var cursor := BATCH_RECORD_SIZE * |ops| + |Inserts(ops[..i])|;
             cursor + |ops[i].insert| <= |before| &&
             after == middle[..cursor] + ops[i].insert + middle[cursor + |ops[i].insert|..]
    ensures Filled(after, ops, i + 1)
  {
    hide LE, Record, Records, Inserts;
    InsertsStep(ops, i);
    RecordsStep(ops, i);
    var at, table := BATCH_RECORD_SIZE * i, BATCH_RECORD_SIZE * |ops|;
    var cursor := table + |Inserts(ops[..i])|;
    assert middle[..at] == before[..at] && middle[at..at + BATCH_RECORD_SIZE] == Record(ops[i]);
    assert middle[table..cursor] == before[table..cursor];
    assert after[..at] == middle[..at] && after[at..at + BATCH_RECORD_SIZE] == middle[at..at + BATCH_RECORD_SIZE];
    assert after[table..cursor] == middle[table..cursor] && after[cursor..cursor + |ops[i].insert|] == ops[i].insert;
    assert after[..at + BATCH_RECORD_SIZE] == after[..at] + after[at..at + BATCH_RECORD_SIZE];
    assert after[table..cursor + |ops[i].insert|] == after[table..cursor] + after[cursor..cursor + |ops[i].insert|];
  }

  /** One operation of encodeBatchPayload: its record and its inserted bytes. */
  method FillOperation(payload: array<byte>, ops: seq<Replace>, i: nat, cursor: nat)
    requires i < |ops| && Nonnegative(ops) && payload.Length == BATCH_RECORD_SIZE * |ops| + |Inserts(ops)|
    requires cursor == BATCH_RECORD_SIZE * |ops| + |Inserts(ops[..i])| && Filled(payload[..], ops, i)
    modifies payload
    ensures Filled(payload[..], ops, i + 1)
  {
    hide LE, Records, Inserts, Record;
    InsertsStep(ops, i);
    FilledRoom(payload[..], ops, i);
    hide Filled;
    ghost var before := payload[..];
    CopyInto(payload, BATCH_RECORD_SIZE * i, Record(ops[i]));
    ghost var middle := payload[..];
    CopyInto(payload, cursor, ops[i].insert);
    FilledStep(before, middle, payload[..], ops, i);
  }

  lemma FilledRoom(payload: seq<byte>, ops: seq<Replace>, i: nat)
    requires i < |ops| && Nonnegative(ops) && Filled(payload, ops, i)
    ensures |Record(ops[i])| == BATCH_RECORD_SIZE && BATCH_RECORD_SIZE * i + BATCH_RECORD_SIZE <= |payload|
  {
  }

  lemma FilledWhole(payload: seq<byte>, b: Batch)
    requires ValidBatch(b) && Filled(payload, b.ops, |b.ops|)
    requires |payload| == BATCH_RECORD_SIZE * |b.ops| + |Inserts(b.ops)|
    ensures payload == Payload(b)
  {
    assert b.ops[..|b.ops|] == b.ops;
    var table := BATCH_RECORD_SIZE * |b.ops|;
    assert payload == payload[..table] + payload[table..table + |Inserts(b.ops)|];
  }

  /** encodeBatchPayload fills one buffer at two places: the table from the front, the inserted bytes behind it. */
  method EncodePayload(firstRevision: nat, group: nat, ops: seq<Replace>) returns (r: Result<(seq<byte>, seq<nat>)>)
    requires firstRevision <= MAX_UINT64 && group <= MAX_UINT64 && InInt64(ops)
    ensures r.Success? <==> ValidBatch(Batch(firstRevision, group, ops))
    ensures r.Failure? ==> r.error == InvalidBatch
    ensures r.Success? ==>
              && r.value.0 == Payload(Batch(firstRevision, group, ops))
              && |r.value.1| == |ops|
              && forall i :: 0 <= i < |ops| ==> r.value.1[i] == BATCH_RECORD_SIZE * |ops| + |Inserts(ops[..i])|
  {
    hide LE, Record, Records, Payload, Inserts;
    InsertsEnds(ops);
    var size := BatchPayloadSize(firstRevision, group, ops);
    if size.Failure? {
      return Failure(size.error);
    }
    var payload := new byte[size.value](_ => 0);
    var relative: seq<nat> := [];
    var cursor := BATCH_RECORD_SIZE * |ops|;
    var i := 0;
    FilledNone(payload[..], ops);
    hide Filled;
    while i < |ops|
      invariant 0 <= i <= |ops| && |relative| == i
      invariant payload.Length == BATCH_RECORD_SIZE * |ops| + |Inserts(ops)|
      invariant cursor == BATCH_RECORD_SIZE * |ops| + |Inserts(ops[..i])|
      invariant Filled(payload[..], ops, i)
      invariant forall k :: 0 <= k < i ==> relative[k] == BATCH_RECORD_SIZE * |ops| + |Inserts(ops[..k])|
    {
      InsertsStep(ops, i);
      relative := relative + [cursor];
      FillOperation(payload, ops, i, cursor);
      cursor := cursor + |ops[i].insert|;
      i := i + 1;
    }
    FilledWhole(payload[..], Batch(firstRevision, group, ops));
    return Success((payload[..], relative));
  }

  lemma InsertsEnds(ops: seq<Replace>)
    ensures Inserts(ops[..0]) == [] && ops[..|ops|] == ops
  {
  }

  lemma FilledNone(payload: seq<byte>, ops: seq<Replace>)
    requires Nonnegative(ops) && |payload| >= BATCH_RECORD_SIZE * |ops|
    ensures Filled(payload, ops, 0)
  {
    assert payload[..0] == [];
  }

  // ---------------------------------------------------------------- the open file

  datatype Appended = Appended(batchOffset: nat, payloadOffsets: seq<nat>, endOffset: nat)

  /** The bytes that a failed append may leave: nothing new, or part of the batch when the rollback failed too. */
  ghost predicate Torn(before: seq<byte>, after: seq<byte>, b: Batch, crc: Checksum)
    requires ValidBatch(b)
  {
    exists n: nat :: n <= |Encode(b, crc)| && after == before + Encode(b, crc)[..n]
  }

  /** AppendBatch reports where everything went. */
  ghost predicate AppendedAt(r: Appended, at: nat, b: Batch)
    requires ValidBatch(b)
  {
    && r.batchOffset == at && r.endOffset == at + Size(b)
    && |r.payloadOffsets| == |b.ops|
    && forall i :: 0 <= i < |b.ops| ==> r.payloadOffsets[i] == DecodedOf(b, at).ops[i].payloadOffset
  }

  function Truncated(file: seq<byte>, n: nat): (r: seq<byte>)
    ensures |r| == n
  {
    if n <= |file| then file[..n] else file + seq(n - |file|, _ => 0)
  }

  lemma {:induction false} OffsetsOfDecoded(ops: seq<Replace>, cursor: nat, i: nat)
    requires Nonnegative(ops) && i < |ops|
    ensures DecodedOps(ops, cursor)[i].payloadOffset == cursor + |Inserts(ops[..i])|
    decreases |ops|
  {
    if i > 0 {
      OffsetsOfDecoded(ops[1..], cursor + |ops[0].insert|, i - 1);
      assert ops[..i][0] == ops[0] && ops[..i][1..] == ops[1..][..i - 1];
    }
  }

  class JournalFile {
    var bytes: seq<byte>
    const crc: Checksum

    constructor (fingerprint: Fingerprint, crc: Checksum)
      requires ValidFingerprint(fingerprint)
      ensures bytes == FileHeader(fingerprint, crc) && this.crc == crc
    {
      bytes := FileHeader(fingerprint, crc);
      this.crc := crc;
    }

    /** A write may stop short, with or without an error. */
    method Write(data: seq<byte>) returns (n: nat, failed: bool)
      modifies this`bytes
      ensures n <= |data| && bytes == old(bytes) + data[..n]
    {
      n, failed := *, *;
      if n > |data| {
        n := |data|;
      }
      bytes := bytes + data[..n];
    }

    method Truncate(size: nat) returns (ok: bool)
      modifies this`bytes
      ensures bytes == if ok then Truncated(old(bytes), size) else old(bytes)
    {
      ok := *;
      if ok {
        bytes := Truncated(bytes, size);
      }
    }

    /** Writes all of data, or cuts the file back to where the append began. */
    method WriteOrRollback(data: seq<byte>, end: nat) returns (r: Result<()>)
      requires end <= |bytes|
      modifies this`bytes
      ensures r.Success? ==> bytes == old(bytes) + data
      ensures r.Failure? && r.error != TruncateFailed ==> bytes == old(bytes)[..end]
      ensures r.Failure? && r.error == TruncateFailed ==>
                exists n: nat :: n <= |data| && bytes == old(bytes) + data[..n]
      ensures r.Failure? ==> r.error != InvalidBatch
    {
      var n, failed := Write(data);
      if failed || n != |data| {
        var ok := Truncate(end);
        assert ok ==> bytes == old(bytes)[..end];
        return Failure(if !ok then TruncateFailed else if failed then WriteFailed else ShortWrite);
      }
      return Success(());
    }

    /** The offsets within the payload become offsets within the file. */
    method PlaceOffsets(b: Batch, relative: seq<nat>, end: nat) returns (payloadOffsets: seq<nat>)
      requires ValidBatch(b) && |relative| == |b.ops|
      requires forall i :: 0 <= i < |b.ops| ==> relative[i] == BATCH_RECORD_SIZE * |b.ops| + |Inserts(b.ops[..i])|
      ensures |payloadOffsets| == |b.ops|
      ensures forall i :: 0 <= i < |b.ops| ==> payloadOffsets[i] == DecodedOf(b, end).ops[i].payloadOffset
    {
      payloadOffsets := [];
      var i := 0;
      while i < |b.ops|
        invariant 0 <= i <= |b.ops| && |payloadOffsets| == i
        invariant forall k :: 0 <= k < i ==> payloadOffsets[k] == DecodedOf(b, end).ops[k].payloadOffset
      {
        OffsetsOfDecoded(b.ops, end + BATCH_HEADER_SIZE + BATCH_RECORD_SIZE * |b.ops|, i);
        payloadOffsets := payloadOffsets + [end + BATCH_HEADER_SIZE + relative[i]];
        i := i + 1;
      }
    }

    /** Appends one batch in two writes. On success the file has grown by exactly the encoded batch and the
        result says where its parts are; on failure the file is as before, unless the rollback failed as well. */
    method AppendBatch(firstRevision: nat, group: nat, ops: seq<Replace>) returns (r: Result<Appended>)
      requires firstRevision <= MAX_UINT64 && group <= MAX_UINT64 && InInt64(ops)
      modifies this`bytes
      ensures var b := Batch(firstRevision, group, ops);
              if !ValidBatch(b) then r == Failure(InvalidBatch) && bytes == old(bytes)
              else match r
                case Success(a) => AppendedAt(a, |old(bytes)|, b) && bytes == old(bytes) + Encode(b, crc)
                case Failure(TruncateFailed) => Torn(old(bytes), bytes, b, crc)
                case Failure(error) => error != InvalidBatch && bytes == old(bytes)
    {
      hide PrefixOf, Payload, DecodedOps, Inserts;
      var encoded := EncodePayload(firstRevision, group, ops);
      if encoded.Failure? {
        return Failure(encoded.error);
      }
      var b := Batch(firstRevision, group, ops);
      ghost var before := bytes;
      var end := |bytes|;
      var payload, relative := encoded.value.0, encoded.value.1;
      var head := Header(b, crc);
      ghost var whole := Encode(b, crc);
      assert whole == head + payload && whole[..|head|] == head;
      var written := WriteOrRollback(head, end);
      if written.Failure? {
        TornAt(before, bytes, head, payload, end, true);
        return Failure(written.error);
      }
      written := WriteOrRollback(payload, end);
      if written.Failure? {
        TornAt(before, bytes, head, payload, end, false);
        return Failure(written.error);
      }
      assert bytes == before + whole;
      var payloadOffsets := PlaceOffsets(b, relative, end);
      return Success(Appended(end, payloadOffsets, end + BATCH_HEADER_SIZE + |payload|));
    }

    /** Batch by batch, the checksum over chunks of the payload, until the first batch that is not whole. */
    method Replay() returns (r: ReplayResult)
      ensures r == if |bytes| < FILE_HEADER_SIZE then ReplayResult([], FILE_HEADER_SIZE, false)
                   else ReplayFrom(bytes, FILE_HEADER_SIZE, crc)
    {
      hide DecodeHead, DecodeBody;
      r := ReplayResult([], FILE_HEADER_SIZE, false);
      var offset := FILE_HEADER_SIZE;
      while offset < |bytes|
        invariant |bytes| >= FILE_HEADER_SIZE ==> offset <= |bytes|
        invariant !r.truncated && r.validBytes == offset
        invariant |bytes| >= FILE_HEADER_SIZE ==>
                    Ahead(r.batches, ReplayFrom(bytes, offset, crc)) == ReplayFrom(bytes, FILE_HEADER_SIZE, crc)
        invariant |bytes| < FILE_HEADER_SIZE ==> r.batches == [] && offset == FILE_HEADER_SIZE
        decreases |bytes| - offset
      {
        var d := ReadBatch(offset);
        if d.None? {
          ReplayStop(bytes, offset, crc);
          return r.(truncated := true);
        }
        ReplayStep(bytes, offset, d.value.0, d.value.1, crc);
        AheadSnoc(r.batches, d.value.0, ReplayFrom(bytes, d.value.1, crc));
        r := ReplayResult(r.batches + [d.value.0], d.value.1, false);
        offset := d.value.1;
      }
    }

    /** One turn of the replay loop. */
    method ReadBatch(offset: nat) returns (r: Option<(Decoded, nat)>)
      requires offset <= |bytes|
      ensures r == DecodeAt(bytes, offset, crc)
    {
      hide DecodeHead, DecodeRecord;
      if |bytes| - offset < BATCH_HEADER_SIZE {
        return None;
      }
      var header := bytes[offset..offset + BATCH_HEADER_SIZE];
      var head := DecodeHead(header);
      if head.None? || head.value.payloadLength > MAXIMUM_BATCH_PAYLOAD {
        return None;
      }
      var at := offset + BATCH_HEADER_SIZE;
      var payloadLength := head.value.payloadLength;
      if payloadLength > |bytes| - at {
        return None;
      }
      var covered := CoverPayload(header[..56], at, payloadLength);
      if crc(covered) != head.value.crc {
        return None;
      }
      var ops := DecodeOperations(head.value.count, at, payloadLength);
      if ops.None? {
        return None;
      }
      return Some((Decoded(head.value.firstRevision, head.value.group, ops.value), at + payloadLength));
    }

    /** What the checksum has seen after reading the payload through a 64 KiB buffer. */
    method CoverPayload(prefix: seq<byte>, at: nat, payloadLength: nat) returns (covered: seq<byte>)
      requires at + payloadLength <= |bytes|
      ensures covered == prefix + bytes[at..at + payloadLength]
    {
      covered := prefix;
      var cursor := at;
      assert bytes[at..at] == [];
      while cursor < at + payloadLength
        invariant at <= cursor <= at + payloadLength
        invariant covered == prefix + bytes[at..cursor]
      {
        var want := Min(65536, at + payloadLength - cursor);
        covered := covered + bytes[cursor..cursor + want];
        assert bytes[at..cursor + want] == bytes[at..cursor] + bytes[cursor..cursor + want];
        cursor := cursor + want;
      }
    }

    /** decodeBatchOperations. */
    method DecodeOperations(count: nat, at: nat, payloadLength: nat) returns (r: Option<seq<Operation>>)
      requires at + payloadLength <= |bytes|
      ensures var table := at + BATCH_RECORD_SIZE * count;
              r == if table > at + payloadLength then None
                  else DecodeOps(bytes[at..table], count, table, at + payloadLength)
    {
      hide DecodeRecord;
      var metadataLength := BATCH_RECORD_SIZE * count;
      if metadataLength > payloadLength {
        return None;
      }
      var metadata := bytes[at..at + metadataLength];
      var payloadEnd := at + payloadLength;
      var cursor := at + metadataLength;
      var result: seq<Operation> := [];
      var index := 0;
      ghost var whole := DecodeOps(metadata, count, cursor, payloadEnd);
      assert metadata[BATCH_RECORD_SIZE * 0..] == metadata;
      PrependNothing(whole);
      while index < count
        invariant 0 <= index <= count && 0 <= cursor <= payloadEnd
        invariant |metadata| == BATCH_RECORD_SIZE * count
        invariant Prepend(result, DecodeOps(metadata[BATCH_RECORD_SIZE * index..], count - index, cursor, payloadEnd))
                  == whole
      {
        ghost var rest := metadata[BATCH_RECORD_SIZE * index..];
        var record := metadata[index * BATCH_RECORD_SIZE..(index + 1) * BATCH_RECORD_SIZE];
        assert rest[..BATCH_RECORD_SIZE] == record
               && rest[BATCH_RECORD_SIZE..] == metadata[BATCH_RECORD_SIZE * (index + 1)..];
        var o := DecodeRecord(record, cursor);
        if o.None? || o.value.insertLength > payloadEnd - cursor {
          return None;
        }
        PrependSnoc(result, o.value,
                    DecodeOps(rest[BATCH_RECORD_SIZE..], count - index - 1, cursor + o.value.insertLength, payloadEnd));
        result := result + [o.value];
        cursor := cursor + o.value.insertLength;
        index := index + 1;
      }
      if cursor != payloadEnd {
        return None;
      }
      assert result + [] == result;
      return Some(result);
    }

    method RepairTail(validBytes: int) returns (r: Result<()>)
      modifies this`bytes
      ensures validBytes < FILE_HEADER_SIZE ==> r == Failure(InvalidRepairOffset)
      ensures r == Success(()) || r == Failure(InvalidRepairOffset) || r == Failure(TruncateFailed)
      ensures bytes == if r.Success? then Truncated(old(bytes), validBytes) else old(bytes)
    {
      if validBytes < FILE_HEADER_SIZE {
        return Failure(InvalidRepairOffset);
      }
      var ok := Truncate(validBytes);
      return if ok then Success(()) else Failure(TruncateFailed);
    }
  }

  function Prepend(done: seq<Operation>, rest: Option<seq<Operation>>): Option<seq<Operation>> {
    if rest.None? then None else Some(done + rest.value)
  }

  lemma PrependNothing(rest: Option<seq<Operation>>)
    ensures Prepend([], rest) == rest
  {
    assert rest.Some? ==> [] + rest.value == rest.value;
  }

  lemma PrependSnoc(done: seq<Operation>, o: Operation, rest: Option<seq<Operation>>)
    ensures Prepend(done, Prepend([o], rest)) == Prepend(done + [o], rest)
  {
    assert rest.Some? ==> done + ([o] + rest.value) == done + [o] + rest.value;
  }

  /** A replay result with batches found before it. */
  function Ahead(done: seq<Decoded>, rest: ReplayResult): ReplayResult {
    ReplayResult(done + rest.batches, rest.validBytes, rest.truncated)
  }

  lemma AheadSnoc(done: seq<Decoded>, d: Decoded, rest: ReplayResult)
    ensures Ahead(done, Ahead([d], rest)) == Ahead(done + [d], rest)
  {
    assert done + ([d] + rest.batches) == done + [d] + rest.batches;
  }

  /** Whatever part of head and payload was written, it is the beginning of the batch. */
  lemma TornAt(before: seq<byte>, after: seq<byte>, head: seq<byte>, payload: seq<byte>, end: nat, first: bool)
    requires end == |before|
    ensures (before + head)[..end] == before && before[..end] == before
    ensures first ==> forall n: nat | n <= |head| && after == before + head[..n] ::
                        after == before + (head + payload)[..n]
    ensures !first ==> forall n: nat | n <= |payload| && after == before + head + payload[..n] ::
                         after == before + (head + payload)[..|head| + n]
  {
    assert forall n: nat | n <= |head| :: (head + payload)[..n] == head[..n];
    assert forall n: nat | n <= |payload| :: before + (head + payload)[..|head| + n] == before + head + payload[..n];
  }
}
