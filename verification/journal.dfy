/** The append-only recovery journal: bytes of a batch, decoding, replay of a torn file, repair. */
module Journal {
  import opened Documents

  const FILE_HEADER_SIZE := 96
  const BATCH_HEADER_SIZE := 64
  const BATCH_RECORD_SIZE := 24
  const MAXIMUM_BATCH_SIZE := 256
  const MAXIMUM_BATCH_PAYLOAD := 0x4000_0000
  const JOURNAL_VERSION := 2

  type uint32 = x: int | 0 <= x < 0x1_0000_0000

  /** CRC-32C, uninterpreted. */
  type Checksum = seq<byte> -> uint32

  const BATCH_MAGIC: seq<byte> := [0x44, 0x4F, 0x43, 0x4A, 0x4E, 0x4C, 0x30, 0x32]

  datatype Option<+T> = None | Some(value: T)

  /** One durable edit unit. */
  datatype Batch = Batch(firstRevision: nat, group: nat, ops: seq<Replace>)

  /** A replayed replacement; the inserted bytes stay in the file at payloadOffset. */
  datatype Operation = Operation(start: nat, deleteLength: nat, insertLength: nat, payloadOffset: nat)
  datatype Decoded = Decoded(firstRevision: nat, group: nat, ops: seq<Operation>)
  datatype ReplayResult = ReplayResult(batches: seq<Decoded>, validBytes: nat, truncated: bool)

  // ---------------------------------------------------------------- little-endian numbers

  function Pow256(n: nat): (p: nat)
    ensures p > 0
  {
    if n == 0 then 1 else 256 * Pow256(n - 1)
  }

  function LE(v: nat, n: nat): (s: seq<byte>)
    ensures |s| == n
    decreases n, v
  {
    if n == 0 then [] else [v % 256] + LE(v / 256, n - 1)
  }

  /** The number held by n bytes of s from at on. */
  function UnLE(s: seq<byte>, at: nat, n: nat): (v: nat)
    requires at + n <= |s|
    ensures v < Pow256(n)
    decreases n, s
  {
    if n == 0 then 0 else
      var rest := UnLE(s, at + 1, n - 1);
      assert rest + 1 <= Pow256(n - 1);
      s[at] + 256 * rest
  }

  lemma {:induction false} LERoundTrip(s: seq<byte>, at: nat, v: nat, n: nat)
    requires at + n <= |s| && s[at..at + n] == LE(v, n) && v < Pow256(n)
    ensures UnLE(s, at, n) == v
    decreases n
  {
    if n > 0 {
      assert v / 256 < Pow256(n - 1);
      assert s[at] == s[at..at + n][0] == LE(v, n)[0];
      assert s[at + 1..at + n] == s[at..at + n][1..] == LE(v, n)[1..] == LE(v / 256, n - 1);
      LERoundTrip(s, at + 1, v / 256, n - 1);
    }
  }

  lemma Pow256Values()
    ensures Pow256(2) == 0x1_0000 && Pow256(4) == 0x1_0000_0000 && Pow256(8) == 0x1_0000_0000_0000_0000
  {
    assert Pow256(0) == 1 && Pow256(1) == 256 && Pow256(2) == 0x1_0000;
    assert Pow256(3) == 0x100_0000 && Pow256(4) == 0x1_0000_0000;
    assert Pow256(5) == 0x100_0000_0000 && Pow256(6) == 0x1_0000_0000_0000;
    assert Pow256(7) == 0x100_0000_0000_0000;
  }

  // ---------------------------------------------------------------- encoding

  function Record(op: Replace): (s: seq<byte>)
    requires op.start >= 0 && op.deleteLength >= 0
    ensures |s| == BATCH_RECORD_SIZE
  {
    LE(op.start, 8) + LE(op.deleteLength, 8) + LE(|op.insert|, 8)
  }

  function Records(ops: seq<Replace>): (s: seq<byte>)
    requires forall i :: 0 <= i < |ops| ==> ops[i].start >= 0 && ops[i].deleteLength >= 0
    ensures |s| == BATCH_RECORD_SIZE * |ops|
    decreases |ops|
  {
    if ops == [] then [] else Record(ops[0]) + Records(ops[1..])
  }

  function Inserts(ops: seq<Replace>): (s: seq<byte>)
    decreases |ops|
  {
    if ops == [] then [] else ops[0].insert + Inserts(ops[1..])
  }

  /** batchPayloadSize accepts: the numeric ranges of the fields are those of int64 and uint64. */
  predicate ValidBatch(b: Batch) {
    && 0 < |b.ops| <= MAXIMUM_BATCH_SIZE
    && 0 < b.firstRevision <= MAX_UINT64 - (|b.ops| - 1)
    && 0 < b.group <= MAX_UINT64
    && (forall i :: 0 <= i < |b.ops| ==>
          0 <= b.ops[i].start <= MAX_INT64 && 0 <= b.ops[i].deleteLength <= MAX_INT64)
    && BATCH_RECORD_SIZE * |b.ops| + |Inserts(b.ops)| <= MAXIMUM_BATCH_PAYLOAD
  }

  function Payload(b: Batch): (s: seq<byte>)
    requires ValidBatch(b)
    ensures |s| == BATCH_RECORD_SIZE * |b.ops| + |Inserts(b.ops)|
  {
    Records(b.ops) + Inserts(b.ops)
  }

  /** Bytes 0 to 16 of a batch header: magic, version, flags, header size. */
  function HeaderKind(): (s: seq<byte>)
    ensures |s| == 16
  {
    BATCH_MAGIC + LE(JOURNAL_VERSION, 2) + LE(0, 2) + LE(BATCH_HEADER_SIZE, 4)
  }

  /** Bytes 16 to 32: first revision and group. */
  function HeaderIdentity(firstRevision: nat, group: nat): (s: seq<byte>)
    ensures |s| == 16
  {
    LE(firstRevision, 8) + LE(group, 8)
  }

  /** Bytes 32 to 48: operation count, record size, payload length. */
  function HeaderSizes(count: nat, payloadLength: nat): (s: seq<byte>)
    ensures |s| == 16
  {
    LE(count, 4) + LE(BATCH_RECORD_SIZE, 4) + LE(payloadLength, 8)
  }

  /** The bytes that the checksum covers: 0 to 56, the last eight of them zero. */
  function HeaderPrefix(firstRevision: nat, group: nat, count: nat, payloadLength: nat): (s: seq<byte>)
    ensures |s| == 56
  {
    HeaderKind() + HeaderIdentity(firstRevision, group) + HeaderSizes(count, payloadLength) + LE(0, 8)
  }

  /** Bytes 56 to 64: checksum and four zero bytes. */
  function Trailer(crc: uint32): (s: seq<byte>)
    ensures |s| == 8
  {
    LE(crc, 4) + LE(0, 4)
  }

  function PrefixOf(b: Batch): (s: seq<byte>)
    requires ValidBatch(b)
    ensures |s| == 56
  {
    HeaderPrefix(b.firstRevision, b.group, |b.ops|, |Payload(b)|)
  }

  function Header(b: Batch, crc: Checksum): (s: seq<byte>)
    requires ValidBatch(b)
    ensures |s| == BATCH_HEADER_SIZE
  {
    PrefixOf(b) + Trailer(crc(PrefixOf(b) + Payload(b)))
  }

  /** BatchEncodedSize. */
  function Size(b: Batch): nat {
    BATCH_HEADER_SIZE + BATCH_RECORD_SIZE * |b.ops| + |Inserts(b.ops)|
  }

  function Encode(b: Batch, crc: Checksum): (s: seq<byte>)
    requires ValidBatch(b)
    ensures |s| == BATCH_HEADER_SIZE + |Payload(b)| == Size(b)
  {
    Header(b, crc) + Payload(b)
  }

  /** The fields of record i of an operation table: eight bytes each for start, delete length and insert length. */
  predicate HoldsRecord(s: seq<byte>, at: nat, op: Replace) {
    at + BATCH_RECORD_SIZE <= |s|
    && UnLE(s, at, 8) == op.start && UnLE(s, at + 8, 8) == op.deleteLength && UnLE(s, at + 16, 8) == |op.insert|
  }

  lemma {:induction false} RecordHeld(s: seq<byte>, at: nat, op: Replace)
    requires 0 <= op.start <= MAX_INT64 && 0 <= op.deleteLength <= MAX_INT64 && |op.insert| <= MAX_INT64
    requires at + BATCH_RECORD_SIZE <= |s| && s[at..at + BATCH_RECORD_SIZE] == Record(op)
    ensures HoldsRecord(s, at, op)
  {
    hide LE, UnLE;
    Pow256Values();
    var r := s[at..at + BATCH_RECORD_SIZE];
    assert s[at..at + 8] == r[..8] == LE(op.start, 8);
    assert s[at + 8..at + 16] == r[8..16] == LE(op.deleteLength, 8);
    assert s[at + 16..at + 24] == r[16..24] == LE(|op.insert|, 8);
    LERoundTrip(s, at, op.start, 8);
    LERoundTrip(s, at + 8, op.deleteLength, 8);
    LERoundTrip(s, at + 16, |op.insert|, 8);
  }

  lemma {:induction false} RecordStands(ops: seq<Replace>, i: nat)
    requires i < |ops| && forall i :: 0 <= i < |ops| ==> ops[i].start >= 0 && ops[i].deleteLength >= 0
    ensures Records(ops)[BATCH_RECORD_SIZE * i..BATCH_RECORD_SIZE * (i + 1)] == Record(ops[i])
    decreases i
  {
    if i > 0 {
      RecordStands(ops[1..], i - 1);
      assert Records(ops)[BATCH_RECORD_SIZE..] == Records(ops[1..]);
      assert Records(ops)[BATCH_RECORD_SIZE..][BATCH_RECORD_SIZE * (i - 1)..BATCH_RECORD_SIZE * i]
             == Records(ops)[BATCH_RECORD_SIZE * i..BATCH_RECORD_SIZE * (i + 1)];
    }
  }

  lemma {:induction false} InsertShorter(ops: seq<Replace>, i: nat)
    requires i < |ops|
    ensures |ops[i].insert| <= |Inserts(ops)|
    decreases i
  {
    if i > 0 {
      InsertShorter(ops[1..], i - 1);
    }
  }

  /** In a file with a batch at its end, the records of the batch hold the fields of its operations. */
  lemma {:induction false} AppendedRecords(file: seq<byte>, b: Batch, crc: Checksum, i: nat)
    requires ValidBatch(b) && i < |b.ops|
    ensures HoldsRecord(file + Encode(b, crc), |file| + BATCH_HEADER_SIZE + BATCH_RECORD_SIZE * i, b.ops[i])
  {
    hide Header, Record, Records, Inserts, HoldsRecord;
    RecordStands(b.ops, i);
    InsertShorter(b.ops, i);
    var s, table := file + Encode(b, crc), |file| + BATCH_HEADER_SIZE;
    var at := table + BATCH_RECORD_SIZE * i;
    assert s[table..table + |Records(b.ops)|] == Records(b.ops);
    assert s[at..at + BATCH_RECORD_SIZE]
           == s[table..table + |Records(b.ops)|][BATCH_RECORD_SIZE * i..BATCH_RECORD_SIZE * (i + 1)];
    RecordHeld(s, at, b.ops[i]);
  }

  // ---------------------------------------------------------------- decoding

  datatype Head = Head(firstRevision: nat, group: nat, count: nat, payloadLength: nat, crc: nat)

  function DecodeHead(h: seq<byte>): Option<Head>
    requires |h| == BATCH_HEADER_SIZE
  {
    if h[..8] != BATCH_MAGIC || UnLE(h, 8, 2) != JOURNAL_VERSION || UnLE(h, 10, 2) != 0 ||
       UnLE(h, 12, 4) != BATCH_HEADER_SIZE || UnLE(h, 48, 8) != 0 || UnLE(h, 60, 4) != 0 then None
    else
      var count, payloadLength := UnLE(h, 32, 4), UnLE(h, 40, 8);
      var firstRevision, group := UnLE(h, 16, 8), UnLE(h, 24, 8);
      if count == 0 || count > MAXIMUM_BATCH_SIZE || UnLE(h, 36, 4) != BATCH_RECORD_SIZE || payloadLength > MAX_INT64 ||
         firstRevision == 0 || group == 0 || firstRevision > MAX_UINT64 - (count - 1) then None
      else Some(Head(firstRevision, group, count, payloadLength, UnLE(h, 56, 4)))
  }

  /** The fields of one record; None when one does not fit in an int64. */
  function DecodeRecord(r: seq<byte>, cursor: nat): Option<Operation>
    requires |r| == BATCH_RECORD_SIZE
  {
    var start, deleteLength, insertLength := UnLE(r, 0, 8), UnLE(r, 8, 8), UnLE(r, 16, 8);
    if start > MAX_INT64 || deleteLength > MAX_INT64 || insertLength > MAX_INT64 then None
    else Some(Operation(start, deleteLength, insertLength, cursor))
  }

  /** The operation table: records are read in order, inserted bytes follow one another from cursor on. */
  function DecodeOps(records: seq<byte>, count: nat, cursor: nat, payloadEnd: nat): (r: Option<seq<Operation>>)
    requires |records| == BATCH_RECORD_SIZE * count && cursor <= payloadEnd
    decreases count
  {
    if count == 0 then (if cursor == payloadEnd then Some([]) else None) else
      var o := DecodeRecord(records[..BATCH_RECORD_SIZE], cursor);
      if o.None? || o.value.insertLength > payloadEnd - cursor then None
      else
        var rest := DecodeOps(records[BATCH_RECORD_SIZE..], count - 1, cursor + o.value.insertLength, payloadEnd);
        if rest.None? then None else Some([o.value] + rest.value)
  }

  /** The payload of a batch whose header has been read: checksum first, then the operation table. */
  function DecodeBody(file: seq<byte>, at: nat, prefix: seq<byte>, head: Head, crc: Checksum): Option<Decoded>
    requires at + head.payloadLength <= |file|
  {
    var end := at + head.payloadLength;
    var table := at + BATCH_RECORD_SIZE * head.count;
    if crc(prefix + file[at..end]) != head.crc || table > end then None
    else
      var ops := DecodeOps(file[at..table], head.count, table, end);
      if ops.None? then None else Some(Decoded(head.firstRevision, head.group, ops.value))
  }

  /** One complete, checksummed and well-formed batch at an offset, with the offset behind it. */
  function DecodeAt(file: seq<byte>, offset: nat, crc: Checksum): (r: Option<(Decoded, nat)>)
    ensures r.Some? ==> offset + BATCH_HEADER_SIZE <= r.value.1 <= |file|
  {
    if BATCH_HEADER_SIZE > |file| - offset then None else
      var at := offset + BATCH_HEADER_SIZE;
      var head := DecodeHead(file[offset..at]);
      if head.None? || head.value.payloadLength > MAXIMUM_BATCH_PAYLOAD || head.value.payloadLength > |file| - at
          then None
      else
        var body := DecodeBody(file, at, file[offset..at][..56], head.value, crc);
        if body.None? then None else Some((body.value, at + head.value.payloadLength))
  }

  /** Replay from an offset: complete batches until the end of the file or the first bad one. */
  function ReplayFrom(file: seq<byte>, offset: nat, crc: Checksum): (r: ReplayResult)
    requires offset <= |file|
    ensures offset <= r.validBytes <= |file|
    ensures r.truncated <==> r.validBytes < |file|
    decreases |file| - offset
  {
    if offset == |file| then ReplayResult([], offset, false) else
      var d := DecodeAt(file, offset, crc);
      if d.None? then ReplayResult([], offset, true) else
        var rest := ReplayFrom(file, d.value.1, crc);
        ReplayResult([d.value.0] + rest.batches, rest.validBytes, rest.truncated)
  }

  function Replay(file: seq<byte>, crc: Checksum): ReplayResult
    requires FILE_HEADER_SIZE <= |file|
  {
    ReplayFrom(file, FILE_HEADER_SIZE, crc)
  }

  // ---------------------------------------------------------------- round trip of one batch

  function DecodedOps(ops: seq<Replace>, cursor: nat): (r: seq<Operation>)
    requires forall i :: 0 <= i < |ops| ==> ops[i].start >= 0 && ops[i].deleteLength >= 0
    ensures |r| == |ops|
    decreases |ops|
  {
    if ops == [] then [] else
      [Operation(ops[0].start, ops[0].deleteLength, |ops[0].insert|, cursor)]
          + DecodedOps(ops[1..], cursor + |ops[0].insert|)
  }

  /** What replay must report for a batch written at an offset. */
  function DecodedOf(b: Batch, offset: nat): Decoded
    requires ValidBatch(b)
  {
    Decoded(b.firstRevision, b.group, DecodedOps(b.ops, offset + BATCH_HEADER_SIZE + BATCH_RECORD_SIZE * |b.ops|))
  }

  /** Fields of a concatenation, by position. */
  lemma Cut<T>(a: seq<T>, b: seq<T>, c: seq<T>)
    ensures (a + b + c)[..|a|] == a
    ensures (a + b + c)[|a|..|a| + |b|] == b
    ensures (a + b + c)[|a| + |b|..] == c
  {
  }

  lemma RecordRoundTrip(op: Replace, cursor: nat)
    requires 0 <= op.start <= MAX_INT64 && 0 <= op.deleteLength <= MAX_INT64 && |op.insert| <= MAX_INT64
    ensures DecodeRecord(Record(op), cursor) == Some(Operation(op.start, op.deleteLength, |op.insert|, cursor))
  {
    Pow256Values();
    var r := Record(op);
    Cut(LE(op.start, 8), LE(op.deleteLength, 8), LE(|op.insert|, 8));
    assert r[0..8] == r[..8] && r[16..24] == r[16..];
    LERoundTrip(r, 0, op.start, 8);
    LERoundTrip(r, 8, op.deleteLength, 8);
    LERoundTrip(r, 16, |op.insert|, 8);
  }

  lemma DecodeOpsStep(r: seq<byte>, records: seq<byte>, count: nat, cursor: nat, end: nat, o: Operation,
                      rest: seq<Operation>)
    requires |r| == BATCH_RECORD_SIZE && |records| == BATCH_RECORD_SIZE * count
    requires cursor + o.insertLength <= end && DecodeRecord(r, cursor) == Some(o)
    requires DecodeOps(records, count, cursor + o.insertLength, end) == Some(rest)
    ensures |r + records| == BATCH_RECORD_SIZE * (count + 1)
    ensures DecodeOps(r + records, count + 1, cursor, end) == Some([o] + rest)
  {
    assert (r + records)[..BATCH_RECORD_SIZE] == r && (r + records)[BATCH_RECORD_SIZE..] == records;
  }

  lemma {:induction false} OpsRoundTrip(ops: seq<Replace>, cursor: nat)
    requires forall i :: 0 <= i < |ops| ==>
               0 <= ops[i].start <= MAX_INT64 && 0 <= ops[i].deleteLength <= MAX_INT64
    requires |Inserts(ops)| <= MAX_INT64
    ensures DecodeOps(Records(ops), |ops|, cursor, cursor + |Inserts(ops)|) == Some(DecodedOps(ops, cursor))
    decreases |ops|
  {
    hide LE, Record, DecodeRecord;
    if ops != [] {
      var n := |ops[0].insert|;
      RecordRoundTrip(ops[0], cursor);
      OpsRoundTrip(ops[1..], cursor + n);
      DecodeOpsStep(Record(ops[0]), Records(ops[1..]), |ops| - 1, cursor, cursor + |Inserts(ops)|,
                    Operation(ops[0].start, ops[0].deleteLength, n, cursor), DecodedOps(ops[1..], cursor + n));
    }
  }

  /** A 64-byte header by its fields. */
  lemma HeaderSlices(a: seq<byte>, b: seq<byte>, c: seq<byte>, d: seq<byte>, e: seq<byte>)
    requires |a| == |b| == |c| == 16 && |d| == |e| == 8
    ensures var h := a + b + c + d + e;
            && h[..8] == a[..8] && h[8..10] == a[8..10] && h[10..12] == a[10..12] && h[12..16] == a[12..16]
            && h[16..24] == b[0..8] && h[24..32] == b[8..16]
            && h[32..36] == c[0..4] && h[36..40] == c[4..8] && h[40..48] == c[8..16]
            && h[48..56] == d && h[56..60] == e[0..4] && h[60..64] == e[4..8]
  {
  }

  lemma GroupSlices(firstRevision: nat, group: nat, count: nat, payloadLength: nat, crc: uint32)
    ensures var k := HeaderKind();
            && k[..8] == BATCH_MAGIC && k[8..10] == LE(JOURNAL_VERSION, 2) && k[10..12] == LE(0, 2)
            && k[12..16] == LE(BATCH_HEADER_SIZE, 4)
    ensures var i := HeaderIdentity(firstRevision, group); i[0..8] == LE(firstRevision, 8) && i[8..16] == LE(group, 8)
    ensures var z := HeaderSizes(count, payloadLength);
            z[0..4] == LE(count, 4) && z[4..8] == LE(BATCH_RECORD_SIZE, 4) && z[8..16] == LE(payloadLength, 8)
    ensures Trailer(crc)[0..4] == LE(crc, 4) && Trailer(crc)[4..8] == LE(0, 4)
  {
    Cut(BATCH_MAGIC, LE(JOURNAL_VERSION, 2), LE(0, 2));
    Cut(BATCH_MAGIC + LE(JOURNAL_VERSION, 2) + LE(0, 2), LE(BATCH_HEADER_SIZE, 4), []);
    assert HeaderKind() == BATCH_MAGIC + LE(JOURNAL_VERSION, 2) + LE(0, 2) + LE(BATCH_HEADER_SIZE, 4) + [];
  }

  lemma HeadRoundTrip(firstRevision: nat, group: nat, count: nat, payloadLength: nat, crc: uint32)
    requires 0 < count <= MAXIMUM_BATCH_SIZE && 0 < firstRevision <= MAX_UINT64 - (count - 1)
    requires 0 < group <= MAX_UINT64 && payloadLength <= MAX_INT64
    ensures DecodeHead(HeaderPrefix(firstRevision, group, count, payloadLength) + Trailer(crc))
         == Some(Head(firstRevision, group, count, payloadLength, crc))
  {
    var h := HeaderPrefix(firstRevision, group, count, payloadLength) + Trailer(crc);
    GroupSlices(firstRevision, group, count, payloadLength, crc);
    HeaderSlices(HeaderKind(), HeaderIdentity(firstRevision, group), HeaderSizes(count, payloadLength), LE(0, 8),
                 Trailer(crc));
    Pow256Values();
    LERoundTrip(h, 8, JOURNAL_VERSION, 2);
    LERoundTrip(h, 10, 0, 2);
    LERoundTrip(h, 12, BATCH_HEADER_SIZE, 4);
    LERoundTrip(h, 16, firstRevision, 8);
    LERoundTrip(h, 24, group, 8);
    LERoundTrip(h, 32, count, 4);
    LERoundTrip(h, 36, BATCH_RECORD_SIZE, 4);
    LERoundTrip(h, 40, payloadLength, 8);
    LERoundTrip(h, 48, 0, 8);
    LERoundTrip(h, 56, crc, 4);
    LERoundTrip(h, 60, 0, 4);
  }

  /** The two parts of a written batch, where they stand in the file. */
  lemma BatchParts(file: seq<byte>, offset: nat, b: Batch, crc: Checksum)
    requires ValidBatch(b) && offset + |Encode(b, crc)| <= |file|
    requires file[offset..offset + |Encode(b, crc)|] == Encode(b, crc)
    ensures var payloadOffset := offset + BATCH_HEADER_SIZE;
            var end := payloadOffset + |Payload(b)|;
            var table := payloadOffset + BATCH_RECORD_SIZE * |b.ops|;
            && file[offset..payloadOffset] == Header(b, crc) && file[payloadOffset..end] == Payload(b)
            && file[payloadOffset..table] == Records(b.ops) && file[table..end] == Inserts(b.ops)
  {
    var whole := file[offset..offset + |Encode(b, crc)|];
    var metadata := BATCH_RECORD_SIZE * |b.ops|;
    assert whole[..64] == Header(b, crc) && whole[64..] == Payload(b);
    assert Payload(b)[..metadata] == Records(b.ops) && Payload(b)[metadata..] == Inserts(b.ops);
    assert whole[64..][..metadata] == Records(b.ops) && whole[64..][metadata..] == Inserts(b.ops);
  }

  function HeadOf(b: Batch, crc: Checksum): Head
    requires ValidBatch(b)
  {
    Head(b.firstRevision, b.group, |b.ops|, |Payload(b)|, crc(PrefixOf(b) + Payload(b)))
  }

  lemma HeaderDecodes(b: Batch, crc: Checksum)
    requires ValidBatch(b)
    ensures DecodeHead(Header(b, crc)) == Some(HeadOf(b, crc))
    ensures Header(b, crc)[..56] == PrefixOf(b)
  {
    HeadRoundTrip(b.firstRevision, b.group, |b.ops|, |Payload(b)|, crc(PrefixOf(b) + Payload(b)));
  }

  lemma BodyRoundTrip(file: seq<byte>, at: nat, b: Batch, crc: Checksum)
    requires ValidBatch(b) && at + |Payload(b)| <= |file|
    requires file[at..at + |Payload(b)|] == Payload(b)
    requires file[at..at + BATCH_RECORD_SIZE * |b.ops|] == Records(b.ops)
    ensures DecodeBody(file, at, PrefixOf(b), HeadOf(b, crc), crc)
         == Some(Decoded(b.firstRevision, b.group, DecodedOps(b.ops, at + BATCH_RECORD_SIZE * |b.ops|)))
  {
    hide PrefixOf, Records, Inserts, DecodeOps, DecodedOps;
    OpsRoundTrip(b.ops, at + BATCH_RECORD_SIZE * |b.ops|);
  }

  lemma DecodeAtStep(file: seq<byte>, offset: nat, crc: Checksum, head: Head, body: Decoded)
    requires offset + BATCH_HEADER_SIZE + head.payloadLength <= |file| && head.payloadLength <= MAXIMUM_BATCH_PAYLOAD
    requires DecodeHead(file[offset..offset + BATCH_HEADER_SIZE]) == Some(head)
    requires DecodeBody(file, offset + BATCH_HEADER_SIZE, file[offset..offset + BATCH_HEADER_SIZE][..56], head, crc)
             == Some(body)
    ensures DecodeAt(file, offset, crc) == Some((body, offset + BATCH_HEADER_SIZE + head.payloadLength))
  {
  }

  /** A written batch decodes to itself wherever it stands. */
  lemma BatchRoundTrip(file: seq<byte>, offset: nat, b: Batch, crc: Checksum)
    requires ValidBatch(b) && offset + |Encode(b, crc)| <= |file|
    requires file[offset..offset + |Encode(b, crc)|] == Encode(b, crc)
    ensures DecodeAt(file, offset, crc) == Some((DecodedOf(b, offset), offset + |Encode(b, crc)|))
  {
    hide DecodeHead, DecodeBody, PrefixOf, Records, Inserts, DecodedOps;
    BatchParts(file, offset, b, crc);
    HeaderDecodes(b, crc);
    BodyRoundTrip(file, offset + BATCH_HEADER_SIZE, b, crc);
    DecodeAtStep(file, offset, crc, HeadOf(b, crc), DecodedOf(b, offset));
  }

  /** The inserted bytes of every operation are where replay says they are. */
  lemma {:induction false} PayloadOffsetsExact(file: seq<byte>, ops: seq<Replace>, cursor: nat, i: nat)
    requires forall k :: 0 <= k < |ops| ==> ops[k].start >= 0 && ops[k].deleteLength >= 0
    requires cursor + |Inserts(ops)| <= |file| && file[cursor..cursor + |Inserts(ops)|] == Inserts(ops)
    requires i < |ops|
    ensures var o := DecodedOps(ops, cursor)[i];
            && o.start == ops[i].start && o.deleteLength == ops[i].deleteLength && o.insertLength == |ops[i].insert|
            && o.payloadOffset + o.insertLength <= cursor + |Inserts(ops)|
            && file[o.payloadOffset..o.payloadOffset + o.insertLength] == ops[i].insert
    decreases |ops|
  {
    var n := |ops[0].insert|;
    var inserts := Inserts(ops);
    assert inserts[..n] == ops[0].insert && inserts[n..] == Inserts(ops[1..]);
    assert file[cursor..cursor + |inserts|][..n] == file[cursor..cursor + n];
    assert file[cursor..cursor + |inserts|][n..] == file[cursor + n..cursor + |inserts|];
    if i > 0 {
      PayloadOffsetsExact(file, ops[1..], cursor + n, i - 1);
    }
  }

  // ---------------------------------------------------------------- replay of whole, cut and extended files

  predicate AllValid(bs: seq<Batch>) {
    forall i :: 0 <= i < |bs| ==> ValidBatch(bs[i])
  }

  function TotalSize(bs: seq<Batch>): nat {
    if bs == [] then 0 else Size(bs[0]) + TotalSize(bs[1..])
  }

  function EncodeAll(bs: seq<Batch>, crc: Checksum): (s: seq<byte>)
    requires AllValid(bs)
    ensures |s| == TotalSize(bs)
  {
    if bs == [] then [] else Encode(bs[0], crc) + EncodeAll(bs[1..], crc)
  }

  function DecodedAll(bs: seq<Batch>, offset: nat): (r: seq<Decoded>)
    requires AllValid(bs)
    ensures |r| == |bs|
  {
    if bs == [] then [] else [DecodedOf(bs[0], offset)] + DecodedAll(bs[1..], offset + Size(bs[0]))
  }

  /** How many whole batches fit in the given room. */
  function Fits(bs: seq<Batch>, room: nat): (k: nat)
    ensures k <= |bs|
  {
    if bs == [] || Size(bs[0]) > room then 0
    else 1 + Fits(bs[1..], room - Size(bs[0]))
  }

  /** The bytes up to the end of a decoded batch decide how it decodes. */
  lemma DecodeAtLocal(f: seq<byte>, g: seq<byte>, offset: nat, crc: Checksum)
    requires DecodeAt(f, offset, crc).Some?
    requires var end := DecodeAt(f, offset, crc).value.1; end <= |g| && f[..end] == g[..end]
    ensures DecodeAt(g, offset, crc) == DecodeAt(f, offset, crc)
  {
    hide DecodeHead, DecodeBody;
    var end := DecodeAt(f, offset, crc).value.1;
    var at := offset + BATCH_HEADER_SIZE;
    SameSlice(f, g, end, offset, at);
    var head := DecodeHead(f[offset..at]).value;
    DecodeBodyLocal(f, g, at, f[offset..at][..56], head, crc);
  }

  lemma DecodeBodyLocal(f: seq<byte>, g: seq<byte>, at: nat, prefix: seq<byte>, head: Head, crc: Checksum)
    requires var end := at + head.payloadLength; end <= |f| && end <= |g| && f[..end] == g[..end]
    ensures DecodeBody(g, at, prefix, head, crc) == DecodeBody(f, at, prefix, head, crc)
  {
    hide DecodeOps;
    var end := at + head.payloadLength;
    SameSlice(f, g, end, at, end);
    if at + BATCH_RECORD_SIZE * head.count <= end {
      SameSlice(f, g, end, at, at + BATCH_RECORD_SIZE * head.count);
    }
  }

  lemma SameSlice(f: seq<byte>, g: seq<byte>, n: nat, a: nat, b: nat)
    requires n <= |f| && n <= |g| && f[..n] == g[..n] && a <= b <= n
    ensures f[a..b] == g[a..b]
  {
    assert f[a..b] == f[..n][a..b] && g[a..b] == g[..n][a..b];
  }

  /** A batch cut anywhere before its last byte does not decode. */
  lemma TornBatch(file: seq<byte>, offset: nat, b: Batch, n: nat, crc: Checksum)
    requires ValidBatch(b) && n < |Encode(b, crc)| && |file| == offset + n
    requires file[offset..] == Encode(b, crc)[..n]
    ensures DecodeAt(file, offset, crc).None?
  {
    if n >= BATCH_HEADER_SIZE {
      var at := offset + BATCH_HEADER_SIZE;
      assert file[offset..at] == file[offset..][..BATCH_HEADER_SIZE] == Encode(b, crc)[..n][..BATCH_HEADER_SIZE];
      assert Encode(b, crc)[..n][..BATCH_HEADER_SIZE] == Encode(b, crc)[..BATCH_HEADER_SIZE] == Header(b, crc);
      HeaderDecodes(b, crc);
    }
  }

  /** The first batch of a cut journal that holds it, and what is left behind it. */
  lemma CutFirst(file: seq<byte>, offset: nat, first: seq<byte>, rest: seq<byte>, room: nat)
    requires offset <= |file| && |first| <= room <= |first| + |rest|
    requires file[offset..] == (first + rest)[..room]
    ensures offset + |first| <= |file| && |file| == offset + room
    ensures file[offset..offset + |first|] == first
    ensures file[offset + |first|..] == rest[..room - |first|]
  {
    assert |file[offset..]| == room;
    assert file[offset..offset + |first|] == file[offset..][..|first|];
    assert file[offset + |first|..] == file[offset..][|first|..];
  }

  lemma PrefixCons(bs: seq<Batch>, k: nat, offset: nat)
    requires AllValid(bs) && bs != [] && k <= |bs| - 1
    ensures TotalSize(bs[..k + 1]) == Size(bs[0]) + TotalSize(bs[1..][..k])
    ensures DecodedAll(bs[..k + 1], offset)
         == [DecodedOf(bs[0], offset)] + DecodedAll(bs[1..][..k], offset + Size(bs[0]))
  {
    assert bs[..k + 1][0] == bs[0] && bs[..k + 1][1..] == bs[1..][..k];
  }

  lemma ReplayStop(file: seq<byte>, offset: nat, crc: Checksum)
    requires offset < |file| && DecodeAt(file, offset, crc).None?
    ensures ReplayFrom(file, offset, crc) == ReplayResult([], offset, true)
  {
  }

  lemma ReplayStep(file: seq<byte>, offset: nat, d: Decoded, end: nat, crc: Checksum)
    requires offset < |file| && DecodeAt(file, offset, crc) == Some((d, end))
    ensures end <= |file|
    ensures var rest := ReplayFrom(file, end, crc);
            ReplayFrom(file, offset, crc) == ReplayResult([d] + rest.batches, rest.validBytes, rest.truncated)
  {
  }

  /** What the first room bytes of an encoded list of batches must replay to. */
  function Expected(bs: seq<Batch>, offset: nat, room: nat): ReplayResult
    requires AllValid(bs)
  {
    if bs == [] || Size(bs[0]) > room then ReplayResult([], offset, room > 0)
    else
      var rest := Expected(bs[1..], offset + Size(bs[0]), room - Size(bs[0]));
      ReplayResult([DecodedOf(bs[0], offset)] + rest.batches, rest.validBytes, rest.truncated)
  }

  lemma ExpectedStep(bs: seq<Batch>, offset: nat, room: nat)
    requires AllValid(bs) && bs != [] && room > 0
    ensures Size(bs[0]) > room ==> Expected(bs, offset, room) == ReplayResult([], offset, true)
    ensures Size(bs[0]) <= room ==>
              var rest := Expected(bs[1..], offset + Size(bs[0]), room - Size(bs[0]));
              Expected(bs, offset, room)
                == ReplayResult([DecodedOf(bs[0], offset)] + rest.batches, rest.validBytes, rest.truncated)
  {
  }

  /** Every cut of a journal replays to what is expected of it. */
  lemma {:induction false} CutReplay(file: seq<byte>, offset: nat, bs: seq<Batch>, room: nat, crc: Checksum)
    requires AllValid(bs) && offset <= |file|
    requires room <= TotalSize(bs) && file[offset..] == EncodeAll(bs, crc)[..room]
    ensures ReplayFrom(file, offset, crc) == Expected(bs, offset, room)
    decreases |bs|
  {
    hide DecodeAt, Encode;
    assert |file[offset..]| == room;
    if room > 0 {
      var first, rest := Encode(bs[0], crc), EncodeAll(bs[1..], crc);
      if |first| > room {
        assert (first + rest)[..room] == first[..room];
        TornBatch(file, offset, bs[0], room, crc);
        ReplayStop(file, offset, crc);
        ExpectedStep(bs, offset, room);
      } else {
        CutFirst(file, offset, first, rest, room);
        BatchRoundTrip(file, offset, bs[0], crc);
        ReplayStep(file, offset, DecodedOf(bs[0], offset), offset + |first|, crc);
        CutReplay(file, offset + |first|, bs[1..], room - |first|, crc);
        ExpectedStep(bs, offset, room);
      }
    }
  }

  /** What is expected are exactly the batches that fit, at the offsets at which they were written; the
      valid bytes end with the last of them, and the file is truncated exactly when the cut does not. */
  lemma {:induction false} ExpectedFits(bs: seq<Batch>, offset: nat, room: nat)
    requires AllValid(bs)
    ensures var r, kept := Expected(bs, offset, room), bs[..Fits(bs, room)];
            && r.batches == DecodedAll(kept, offset)
            && TotalSize(kept) <= room && r.validBytes == offset + TotalSize(kept)
            && (r.truncated <==> TotalSize(kept) < room)
    decreases |bs|
  {
    if bs == [] || Size(bs[0]) > room {
      assert bs[..0] == [];
    } else {
      ExpectedFits(bs[1..], offset + Size(bs[0]), room - Size(bs[0]));
      PrefixCons(bs, Fits(bs[1..], room - Size(bs[0])), offset);
    }
  }

  lemma {:induction false} FitsAll(bs: seq<Batch>)
    ensures Fits(bs, TotalSize(bs)) == |bs|
  {
    if bs != [] {
      FitsAll(bs[1..]);
    }
  }

  /** A whole journal replays to all its batches. */
  lemma ReplayComplete(file: seq<byte>, offset: nat, bs: seq<Batch>, crc: Checksum)
    requires AllValid(bs) && offset <= |file| && file[offset..] == EncodeAll(bs, crc)
    ensures ReplayFrom(file, offset, crc) == ReplayResult(DecodedAll(bs, offset), |file|, false)
  {
    var all := EncodeAll(bs, crc);
    assert all[..|all|] == all && bs[..|bs|] == bs;
    CutReplay(file, offset, bs, |all|, crc);
    ExpectedFits(bs, offset, |all|);
    FitsAll(bs);
  }

  /** Truncating to the reported offset loses no batch and leaves nothing to truncate, whatever the file holds. */
  lemma {:induction false} RepairedReplay(file: seq<byte>, offset: nat, crc: Checksum)
    requires offset <= |file|
    ensures var r := ReplayFrom(file, offset, crc);
            ReplayFrom(file[..r.validBytes], offset, crc) == r.(truncated := false)
    decreases |file| - offset
  {
    hide DecodeAt;
    if offset < |file| && DecodeAt(file, offset, crc).Some? {
      var end := DecodeAt(file, offset, crc).value.1;
      RepairedReplay(file, end, crc);
      var kept := file[..ReplayFrom(file, offset, crc).validBytes];
      assert kept[..end] == file[..end];
      DecodeAtLocal(file, kept, offset, crc);
    }
  }

  /** Bytes behind a journal never remove one of its batches, whatever they are. */
  lemma {:induction false} ReplayExtends(file: seq<byte>, tail: seq<byte>, offset: nat, crc: Checksum)
    requires offset <= |file|
    ensures var r, s := ReplayFrom(file, offset, crc), ReplayFrom(file + tail, offset, crc);
            && r.batches <= s.batches && r.validBytes <= s.validBytes
            && var rest := ReplayFrom(file + tail, r.validBytes, crc);
               s == ReplayResult(r.batches + rest.batches, rest.validBytes, rest.truncated)
    decreases |file| - offset
  {
    hide DecodeAt;
    if offset < |file| && DecodeAt(file, offset, crc).Some? {
      var end := DecodeAt(file, offset, crc).value.1;
      assert (file + tail)[..end] == file[..end];
      DecodeAtLocal(file, file + tail, offset, crc);
      ReplayExtends(file, tail, end, crc);
    }
  }

  lemma {:induction false} DecodeOpsShape(records: seq<byte>, count: nat, cursor: nat, end: nat)
    requires |records| == BATCH_RECORD_SIZE * count && cursor <= end && DecodeOps(records, count, cursor, end).Some?
    ensures |DecodeOps(records, count, cursor, end).value| == count
    ensures count > 0 ==> DecodeOps(records, count, cursor, end).value[0].payloadOffset == cursor
    decreases count
  {
    if count > 0 {
      var o := DecodeRecord(records[..BATCH_RECORD_SIZE], cursor).value;
      DecodeOpsShape(records[BATCH_RECORD_SIZE..], count - 1, cursor + o.insertLength, end);
    }
  }

  /** A decoded batch betrays the offset it was read at. */
  lemma DecodedPlace(file: seq<byte>, offset: nat, crc: Checksum)
    requires DecodeAt(file, offset, crc).Some?
    ensures var ops := DecodeAt(file, offset, crc).value.0.ops;
            |ops| > 0 && ops[0].payloadOffset == offset + BATCH_HEADER_SIZE + BATCH_RECORD_SIZE * |ops|
  {
    var at := offset + BATCH_HEADER_SIZE;
    var head := DecodeHead(file[offset..at]).value;
    var table := at + BATCH_RECORD_SIZE * head.count;
    DecodeOpsShape(file[at..table], head.count, table, at + head.payloadLength);
  }

  /** An append behind a clean end is replayed. */
  lemma CleanAppend(file: seq<byte>, offset: nat, b: Batch, crc: Checksum)
    requires offset <= |file| && ValidBatch(b) && !ReplayFrom(file, offset, crc).truncated
    ensures ReplayFrom(file + Encode(b, crc), offset, crc)
         == ReplayResult(ReplayFrom(file, offset, crc).batches + [DecodedOf(b, |file|)], |file + Encode(b, crc)|, false)
  {
    hide DecodeAt;
    var whole := file + Encode(b, crc);
    ReplayExtends(file, Encode(b, crc), offset, crc);
    Cut(file, Encode(b, crc), []);
    assert whole == file + Encode(b, crc) + [];
    BatchRoundTrip(whole, |file|, b, crc);
    ReplayStep(whole, |file|, DecodedOf(b, |file|), |whole|, crc);
  }

  /** An append behind a torn tail is never found at its place. */
  lemma TornAppend(file: seq<byte>, tail: seq<byte>, offset: nat, b: Batch, crc: Checksum)
    requires offset <= |file| && ValidBatch(b) && ReplayFrom(file, offset, crc).truncated
    ensures ReplayFrom(file + tail, ReplayFrom(file, offset, crc).validBytes, crc).batches != [DecodedOf(b, |file|)]
  {
    var at := ReplayFrom(file, offset, crc).validBytes;
    if DecodeAt(file + tail, at, crc).Some? {
      DecodedPlace(file + tail, at, crc);
      var (d, end) := DecodeAt(file + tail, at, crc).value;
      ReplayStep(file + tail, at, d, end, crc);
      assert ReplayFrom(file + tail, at, crc).batches[0] == d;
      assert DecodedOf(b, |file|).ops[0].payloadOffset == |file| + BATCH_HEADER_SIZE + BATCH_RECORD_SIZE * |b.ops|;
    }
  }

  /** A batch appended to a file is replayed, after the batches already there, exactly when the file
      had no torn tail. A torn tail is what a failed append leaves when its rollback fails too. */
  lemma AppendVisible(file: seq<byte>, offset: nat, b: Batch, crc: Checksum)
    requires offset <= |file| && ValidBatch(b)
    ensures ReplayFrom(file + Encode(b, crc), offset, crc).batches
              == ReplayFrom(file, offset, crc).batches + [DecodedOf(b, |file|)]
            <==> !ReplayFrom(file, offset, crc).truncated
  {
    var r := ReplayFrom(file, offset, crc);
    if r.truncated {
      ReplayExtends(file, Encode(b, crc), offset, crc);
      TornAppend(file, Encode(b, crc), offset, b, crc);
      var rest := ReplayFrom(file + Encode(b, crc), r.validBytes, crc).batches;
      assert (r.batches + rest)[|r.batches|..] == rest;
      assert (r.batches + [DecodedOf(b, |file|)])[|r.batches|..] == [DecodedOf(b, |file|)];
    } else {
      CleanAppend(file, offset, b, crc);
    }
  }

  /** A one-byte torn tail, for instance, hides every batch appended after it. */
  lemma TornTailHides(header: seq<byte>, b: Batch, crc: Checksum)
    requires |header| == FILE_HEADER_SIZE && ValidBatch(b)
    ensures Replay(header + [BATCH_MAGIC[0]], crc).truncated
    ensures Replay(header + [BATCH_MAGIC[0]] + Encode(b, crc), crc).batches == []
  {
    var file := header + [BATCH_MAGIC[0]];
    var whole := file + Encode(b, crc);
    var h := whole[FILE_HEADER_SIZE..FILE_HEADER_SIZE + BATCH_HEADER_SIZE];
    assert whole[FILE_HEADER_SIZE] == BATCH_MAGIC[0] && whole[FILE_HEADER_SIZE + 1] == Encode(b, crc)[0];
    assert Encode(b, crc)[0] == HeaderKind()[0] == BATCH_MAGIC[0];
    assert h[..8][1] == BATCH_MAGIC[0] != BATCH_MAGIC[1];
    assert DecodeHead(h).None?;
  }
}
