/**
 * Raw bytes and the fixed-width unsigned fields that PHP's `unpack`
 * reads out of them ("C", "n", "N" and the byte-order dependent "V"/"N"
 * chosen by the capture file's encoding), plus PHP's `substr`.
 */
module Bytes {

  /** One octet of a PHP binary string. */
  type byte = b: int | 0 <= b < 256

  /** The byte order the capture file's encoding selects for 32-bit fields. */
  datatype Endian = Little | Big

  const TwoTo16: nat := 0x1_0000
  const TwoTo32: nat := 0x1_0000_0000

  /** `unpack("n", …)`: an unsigned 16-bit big-endian field. */
  function U16Be(hi: byte, lo: byte): (r: nat)
    ensures r < TwoTo16
    ensures r / 256 == hi && r % 256 == lo
  {
    hi as int * 256 + lo
  }

  /** The two bytes `pack("n", x)` writes. */
  function U16BeBytes(x: nat): (r: seq<byte>)
    requires x < TwoTo16
    ensures |r| == 2 && U16Be(r[0], r[1]) == x
  {
    [x / 256, x % 256]
  }

  /** An unsigned 32-bit field of four bytes in the given byte order. */
  function U32(e: Endian, s: seq<byte>): (r: nat)
    requires |s| == 4
    ensures r < TwoTo32
  {
    match e
    case Big => ((s[0] as int * 256 + s[1]) * 256 + s[2]) * 256 + s[3]
    case Little => ((s[3] as int * 256 + s[2]) * 256 + s[1]) * 256 + s[0]
  }

  /** The four bytes that hold `x` in the given byte order. */
  function U32Bytes(e: Endian, x: nat): (r: seq<byte>)
    requires x < TwoTo32
    ensures |r| == 4
  {
    var b := [x / 256 / 256 / 256, x / 256 / 256 % 256, x / 256 % 256, x % 256];
    match e
    case Big => b
    case Little => [b[3], b[2], b[1], b[0]]
  }

  /** Writing a 32-bit value and reading it back gives the value. */
  lemma U32OfBytes(e: Endian, x: nat)
    requires x < TwoTo32
    ensures U32(e, U32Bytes(e, x)) == x
  {
    var q1 := x / 256;
    var q2 := q1 / 256;
    var q3 := q2 / 256;
    assert x == q1 * 256 + x % 256;
    assert q1 == q2 * 256 + q1 % 256;
    assert q2 == q3 * 256 + q2 % 256;
    assert q3 < 256;
  }

  /** Reading four bytes and writing the value back gives the same bytes. */
  lemma BytesOfU32(e: Endian, s: seq<byte>)
    requires |s| == 4
    ensures U32Bytes(e, U32(e, s)) == s
  {
    var x := U32(e, s);
    var t := if e.Big? then s else [s[3], s[2], s[1], s[0]];
    assert x == ((t[0] as int * 256 + t[1]) * 256 + t[2]) * 256 + t[3];
    assert x / 256 == (t[0] as int * 256 + t[1]) * 256 + t[2];
    assert x / 256 / 256 == t[0] as int * 256 + t[1];
    assert x / 256 / 256 / 256 == t[0];
  }

  /**
   * PHP's `substr(s, start, length)` for a non-negative start: empty when
   * `start` lies beyond the end, at most `length` bytes for a non-negative
   * length, and everything but the last `-length` bytes for a negative one.
   */
  function Substr(s: seq<byte>, start: nat, length: int): (r: seq<byte>)
    ensures start > |s| ==> r == []
    ensures start <= |s| ==> start + |r| <= |s| && r == s[start..start + |r|]
    ensures start <= |s| && length >= 0 ==>
              |r| == if start + length <= |s| then length else |s| - start
    ensures start <= |s| && length < 0 ==>
              |r| == if |s| + length >= start then |s| + length - start else 0
  {
    if start > |s| then []
    else if length >= 0 then
      if start + length <= |s| then s[start..start + length] else s[start..]
    else if |s| + length >= start then s[start..|s| + length]
    else []
  }
}
