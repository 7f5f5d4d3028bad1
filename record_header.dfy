/**
 * The 16-byte pcap record header that precedes every captured frame:
 * four unsigned 32-bit fields in the capture file's byte order.
 */
module RecordHeaders {
  import opened Bytes
  import opened Values

  datatype RecordHeader = RecordHeader(tsSec: nat, tsUsec: nat, inclLen: nat, origLen: nat)

  const HeaderSize: nat := 16

  /** Every field fits in an unsigned 32-bit integer. */
  predicate Fits(h: RecordHeader) {
    h.tsSec < TwoTo32 && h.tsUsec < TwoTo32 && h.inclLen < TwoTo32 && h.origLen < TwoTo32
  }

  /** The `unpack` of the prologue into ts_sec, ts_usec, incl_len, orig_len. */
  function ParseRecordHeader(e: Endian, data: seq<byte>): (h: RecordHeader)
    requires |data| == HeaderSize
    ensures Fits(h)
  {
    RecordHeader(U32(e, data[0..4]), U32(e, data[4..8]), U32(e, data[8..12]), U32(e, data[12..16]))
  }

  /** The prologue a capture writer lays down for `h`. */
  function EncodeRecordHeader(e: Endian, h: RecordHeader): (data: seq<byte>)
    requires Fits(h)
    ensures |data| == HeaderSize
  {
    U32Bytes(e, h.tsSec) + U32Bytes(e, h.tsUsec) + U32Bytes(e, h.inclLen) + U32Bytes(e, h.origLen)
  }

  /** The prologue is read field by field in the order it is written. */
  lemma ParseEncoded(e: Endian, h: RecordHeader)
    requires Fits(h)
    ensures ParseRecordHeader(e, EncodeRecordHeader(e, h)) == h
  {
    var data := EncodeRecordHeader(e, h);
    assert data[0..4] == U32Bytes(e, h.tsSec);
    assert data[4..8] == U32Bytes(e, h.tsUsec);
    assert data[8..12] == U32Bytes(e, h.inclLen);
    assert data[12..16] == U32Bytes(e, h.origLen);
    U32OfBytes(e, h.tsSec);
    U32OfBytes(e, h.tsUsec);
    U32OfBytes(e, h.inclLen);
    U32OfBytes(e, h.origLen);
  }

  /** Parsing loses nothing: every prologue is the encoding of what it parses to. */
  lemma EncodeParsed(e: Endian, data: seq<byte>)
    requires |data| == HeaderSize
    ensures EncodeRecordHeader(e, ParseRecordHeader(e, data)) == data
  {
    BytesOfU32(e, data[0..4]);
    BytesOfU32(e, data[4..8]);
    BytesOfU32(e, data[8..12]);
    BytesOfU32(e, data[12..16]);
    assert data == data[0..4] + data[4..8] + data[8..12] + data[12..16];
  }

  /** The head array `unpack` returns, keyed by the format's field names. */
  function HeaderFields(h: RecordHeader): (m: Context)
    ensures m.Keys == {"ts_sec", "ts_usec", "incl_len", "orig_len"}
    ensures m["incl_len"] == Num(h.inclLen) && m["orig_len"] == Num(h.origLen)
    ensures m["ts_sec"] == Num(h.tsSec) && m["ts_usec"] == Num(h.tsUsec)
  {
    map["ts_sec" := Num(h.tsSec), "ts_usec" := Num(h.tsUsec),
        "incl_len" := Num(h.inclLen), "orig_len" := Num(h.origLen)]
  }
}
