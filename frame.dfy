/** Framing of a TTY session log: each record is a 24-byte little-endian
    header `op, tty, length, direction, sec, usec` followed by its payload. */
module Frame {
  import opened Wire

  const OP_OPEN: i32 := 1
  const OP_CLOSE: i32 := 2
  const OP_WRITE: i32 := 3
  const OP_EXEC: i32 := 4

  const TYPE_INPUT: i32 := 1
  const TYPE_OUTPUT: i32 := 2
  const TYPE_INTERACT: i32 := 3

  /** Size of the header layout `<iLiiLL`: six 4-byte fields, no padding. */
  const HEADER_SIZE: nat := 24

  datatype Header = Header(op: i32, tty: u32, length: i32, direction: i32, sec: u32, usec: u32)

  datatype Record = Record(header: Header, payload: seq<byte>)

  datatype Option<T> = None | Some(value: T)

  /** Unpacks a header: op, length and direction signed, the rest unsigned. */
  function ParseHeader(b: seq<byte>): (h: Header)
    requires |b| == HEADER_SIZE
    // the signed fields are negative exactly when the top bit of their last byte is set
    ensures h.op < 0 <==> b[3] >= 0x80
    ensures h.length < 0 <==> b[11] >= 0x80
    ensures h.direction < 0 <==> b[15] >= 0x80
    // every field agrees with its unsigned little-endian word modulo 2^32
    ensures (h.op as int - LeU32(b[0..4]) as int) % 0x1_0000_0000 == 0
    ensures (h.length as int - LeU32(b[8..12]) as int) % 0x1_0000_0000 == 0
    ensures (h.direction as int - LeU32(b[12..16]) as int) % 0x1_0000_0000 == 0
    ensures h.tty == LeU32(b[4..8]) && h.sec == LeU32(b[16..20]) && h.usec == LeU32(b[20..24])
  {
    Header(AsSigned(LeU32(b[0..4])), LeU32(b[4..8]), AsSigned(LeU32(b[8..12])),
           AsSigned(LeU32(b[12..16])), LeU32(b[16..20]), LeU32(b[20..24]))
  }

  /** Packs a header in the same layout. */
  function EncodeHeader(h: Header): (b: seq<byte>)
    ensures |b| == HEADER_SIZE
  {
    LeBytes(AsUnsigned(h.op)) + LeBytes(h.tty) + LeBytes(AsUnsigned(h.length))
    + LeBytes(AsUnsigned(h.direction)) + LeBytes(h.sec) + LeBytes(h.usec)
  }

  /** Reads one record from the start of `buf`: the header, then `length`
      payload bytes clamped to what remains (a negative length takes the
      rest). Returns the record and the number of bytes consumed, or None
      when fewer than a header's worth of bytes remain. */
  function ReadRecord(buf: seq<byte>): (r: Option<(Record, nat)>)
    ensures r.None? <==> |buf| < HEADER_SIZE
    ensures r.Some? ==>
      var (rec, used) := r.value;
      HEADER_SIZE <= used <= |buf|
      && rec.header == ParseHeader(buf[..HEADER_SIZE])
      && rec.payload == buf[HEADER_SIZE..used]
      && (0 <= rec.header.length <= |buf| - HEADER_SIZE ==> used == HEADER_SIZE + rec.header.length)
      && (rec.header.length < 0 || |buf| - HEADER_SIZE < rec.header.length ==> used == |buf|)
  {
    var (head, afterHead) := Read(buf, 0, HEADER_SIZE);
    if |head| != HEADER_SIZE then None
    else
      var h := ParseHeader(head);
      var (payload, afterPayload) := Read(buf, afterHead, h.length);
      Some((Record(h, payload), afterPayload))
  }

  /** The records a buffer frames into, in stream order, up to the first
      point where a full header can no longer be read. */
  function Frames(buf: seq<byte>): (rs: seq<Record>)
    // every record takes at least a header's worth of bytes
    ensures |rs| * HEADER_SIZE <= |buf|
    ensures |buf| < HEADER_SIZE <==> rs == []
    decreases |buf|
  {
    match ReadRecord(buf)
    case None => []
    case Some((rec, used)) => [rec] + Frames(buf[used..])
  }

  /** Framing the suffix of `buf` from `pos` on: the record read there with
      two clamped reads, then the frames after it. */
  lemma FramesAt(buf: seq<byte>, pos: nat)
    requires pos + HEADER_SIZE <= |buf|
    ensures var (head, afterHead) := Read(buf, pos, HEADER_SIZE);
            var h := ParseHeader(head);
            var (data, next) := Read(buf, afterHead, h.length);
            Frames(buf[pos..]) == [Record(h, data)] + Frames(buf[next..])
  {
    var rest := buf[pos..];
    var (head, afterHead) := Read(buf, pos, HEADER_SIZE);
    var h := ParseHeader(head);
    var (data, next) := Read(buf, afterHead, h.length);
    assert rest[..HEADER_SIZE] == head;
    assert rest[HEADER_SIZE..next - pos] == data;
    assert ReadRecord(rest) == Some((Record(h, data), (next - pos) as nat));
    assert rest[next - pos..] == buf[next..];
  }

  /** Appending bytes after a buffer leaves the header of its first record
      unchanged, and the whole record too unless its payload read was cut
      short by the end of the buffer. */
  lemma ReadRecordExtended(buf: seq<byte>, extra: seq<byte>)
    requires HEADER_SIZE <= |buf|
    ensures ReadRecord(buf + extra).Some?
    ensures ReadRecord(buf + extra).value.0.header == ReadRecord(buf).value.0.header
    ensures ReadRecord(buf).value.1 < |buf| ==> ReadRecord(buf + extra) == ReadRecord(buf)
  {
    assert (buf + extra)[..HEADER_SIZE] == buf[..HEADER_SIZE];
    var (rec, used) := ReadRecord(buf).value;
    if used < |buf| {
      assert (buf + extra)[HEADER_SIZE..used] == buf[HEADER_SIZE..used];
    }
  }

  /** A record whose length field matches its payload, as a writer produces. */
  predicate WellFormed(r: Record) {
    r.header.length as int == |r.payload|
  }

  function EncodeRecord(r: Record): (b: seq<byte>)
    ensures |b| == HEADER_SIZE + |r.payload|
  {
    EncodeHeader(r.header) + r.payload
  }

  function EncodeRecords(rs: seq<Record>): (b: seq<byte>)
  {
    if rs == [] then [] else EncodeRecord(rs[0]) + EncodeRecords(rs[1..])
  }

  lemma HeaderRoundTrip(h: Header)
    ensures ParseHeader(EncodeHeader(h)) == h
  {
    var b := EncodeHeader(h);
    assert b[0..4] == LeBytes(AsUnsigned(h.op));
    assert b[4..8] == LeBytes(h.tty);
    assert b[8..12] == LeBytes(AsUnsigned(h.length));
    assert b[12..16] == LeBytes(AsUnsigned(h.direction));
    assert b[16..20] == LeBytes(h.sec);
    assert b[20..24] == LeBytes(h.usec);
    LeBytesDecode(AsUnsigned(h.op));
    LeBytesDecode(h.tty);
    LeBytesDecode(AsUnsigned(h.length));
    LeBytesDecode(AsUnsigned(h.direction));
    LeBytesDecode(h.sec);
    LeBytesDecode(h.usec);
    SignedRoundTrip(h.op, 0);
    SignedRoundTrip(h.length, 0);
    SignedRoundTrip(h.direction, 0);
  }

  /** Every 24-byte block is the encoding of exactly the header it parses to. */
  lemma ParseHeaderInjective(b: seq<byte>)
    requires |b| == HEADER_SIZE
    ensures EncodeHeader(ParseHeader(b)) == b
  {
    LeU32Encode(b[0..4]);
    LeU32Encode(b[4..8]);
    LeU32Encode(b[8..12]);
    LeU32Encode(b[12..16]);
    LeU32Encode(b[16..20]);
    LeU32Encode(b[20..24]);
    assert b == b[0..4] + b[4..8] + b[8..12] + b[12..16] + b[16..20] + b[20..24];
  }

  /** A well-formed record is read back whole from its encoding, whatever follows it. */
  lemma ReadRecordEncoded(r: Record, rest: seq<byte>)
    requires WellFormed(r)
    ensures ReadRecord(EncodeRecord(r) + rest) == Some((r, HEADER_SIZE + |r.payload|))
  {
    var buf := EncodeRecord(r) + rest;
    assert buf[..HEADER_SIZE] == EncodeHeader(r.header);
    HeaderRoundTrip(r.header);
    assert buf[HEADER_SIZE..HEADER_SIZE + |r.payload|] == r.payload;
  }

  /** Framing a well-formed record's encoding yields that record, then frames what follows. */
  lemma FramesEncodedRecord(r: Record, rest: seq<byte>)
    requires WellFormed(r)
    ensures Frames(EncodeRecord(r) + rest) == [r] + Frames(rest)
  {
    var buf := EncodeRecord(r) + rest;
    ReadRecordEncoded(r, rest);
    assert buf[HEADER_SIZE + |r.payload|..] == rest;
  }

  lemma EncodeRecordsCons(rs: seq<Record>, rest: seq<byte>)
    requires rs != []
    ensures EncodeRecords(rs) + rest == EncodeRecord(rs[0]) + (EncodeRecords(rs[1..]) + rest)
  {
  }

  /** Splitting off the head of a sequence and putting it back. */
  lemma SeqCons<T>(s: seq<T>, c: seq<T>)
    requires s != []
    ensures [s[0]] + (s[1..] + c) == s + c
  {
    assert [s[0]] + s[1..] == s;
  }

  /** Framing inverts encoding: the encoded records come back in order, and
      framing then carries on with whatever bytes follow them. */
  lemma {:induction false} FramesEncodeRecords(rs: seq<Record>, rest: seq<byte>)
    requires forall i | 0 <= i < |rs| :: WellFormed(rs[i])
    ensures Frames(EncodeRecords(rs) + rest) == rs + Frames(rest)
  {
    if rs == [] {
      assert EncodeRecords(rs) + rest == rest;
    } else {
      var tail := EncodeRecords(rs[1..]) + rest;
      EncodeRecordsCons(rs, rest);
      FramesEncodedRecord(rs[0], tail);
      FramesEncodeRecords(rs[1..], rest);
      SeqCons(rs, Frames(rest));
    }
  }
}
