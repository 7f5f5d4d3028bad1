/**
 * The two byte-level helpers of the packet: splitting an Ethernet II frame
 * and splitting the fixed 20-byte IPv4 header of section 3.1 of RFC 791.
 */
module Frames {
  import opened Bytes

  // ---------------------------------------------------------------------
  // Ethernet II
  // ---------------------------------------------------------------------

  /** The MAC addresses are kept as their six raw bytes (`bin2hex` is not modelled). */
  datatype EthernetFrame = EthernetFrame(destinationMac: seq<byte>, sourceMac: seq<byte>,
                                         ethertype: nat, data: seq<byte>)

  predicate WellFormedEthernet(f: EthernetFrame) {
    |f.destinationMac| == 6 && |f.sourceMac| == 6 && f.ethertype < TwoTo16
  }

  /** The bytes of a frame: destination, source, big-endian EtherType, payload. */
  function EncodeEthernetFrame(f: EthernetFrame): (data: seq<byte>)
    requires WellFormedEthernet(f)
    ensures |data| == 14 + |f.data|
  {
    f.destinationMac + f.sourceMac + U16BeBytes(f.ethertype) + f.data
  }

  /** The two bytes of a 16-bit field are recovered from its value. */
  lemma U16BeBytesOf(hi: byte, lo: byte)
    ensures U16BeBytes(U16Be(hi, lo)) == [hi, lo]
  {
  }

  /**
   * `decodeEthernetFrame`: bytes 0..5 are the destination, 6..11 the
   * source, 12..13 the EtherType and the rest the payload; nothing is lost.
   */
  function DecodeEthernetFrame(data: seq<byte>): (f: EthernetFrame)
    requires |data| >= 14
    ensures WellFormedEthernet(f)
    ensures EncodeEthernetFrame(f) == data
  {
    var f := EthernetFrame(data[..6], data[6..12], U16Be(data[12], data[13]), data[14..]);
    U16BeBytesOf(data[12], data[13]);
    assert data == data[..6] + data[6..12] + [data[12], data[13]] + data[14..];
    f
  }

  /** Splitting the bytes of a well-formed frame gives the frame back. */
  lemma DecodeEncodedEthernet(f: EthernetFrame)
    requires WellFormedEthernet(f)
    ensures DecodeEthernetFrame(EncodeEthernetFrame(f)) == f
  {
    var data := EncodeEthernetFrame(f);
    assert data[..6] == f.destinationMac;
    assert data[6..12] == f.sourceMac;
    assert data[12..14] == U16BeBytes(f.ethertype);
    assert data[14..] == f.data;
  }

  // ---------------------------------------------------------------------
  // IPv4
  // ---------------------------------------------------------------------

  /** The header fields `decodeIpFrame` extracts (the dotted-quad strings are not modelled). */
  datatype IpHeader = IpHeader(
    version: nat, ihl: nat, services: byte, length: nat, identification: nat,
    flags: nat, offset: nat, ttl: byte, protocol: byte, checksum: nat,
    source: nat, destination: nat, data: seq<byte>)

  const IpHeaderSize: nat := 20

  /**
   * `decodeIpFrame`: the version/IHL byte split into its nibbles (`>> 4`
   * and `& 0xf`), the flags/fragment-offset word split into its top three
   * and low thirteen bits (`>> 13` and `& 0x1fff`), the big-endian fields
   * read in header order, and the payload taken with
   * `substr($data, ihl*4, length - ihl*4)`, ignoring options.
   */
  function DecodeIpFields(data: seq<byte>): (x: IpHeader)
    requires |data| >= IpHeaderSize
    ensures x.version < 16 && x.ihl < 16 && x.version * 16 + x.ihl == data[0]
    ensures x.flags < 8 && x.offset < 8192
    ensures x.flags * 8192 + x.offset == U16Be(data[6], data[7])
    ensures x.length == U16Be(data[2], data[3])
    ensures x.ihl * 4 <= |data| ==>
              x.ihl * 4 + |x.data| <= |data| && data[x.ihl * 4..x.ihl * 4 + |x.data|] == x.data
    ensures x.ihl * 4 > |data| ==> x.data == []
    ensures x.data == Substr(data, x.ihl * 4, x.length - x.ihl * 4)
    ensures x.ihl * 4 <= x.length <= |data| ==> x.data == data[x.ihl * 4..x.length]
    ensures x.ihl * 4 <= |data| < x.length ==> x.data == data[x.ihl * 4..]
    ensures x.length < x.ihl * 4 && x.ihl * 4 <= |data| + x.length - x.ihl * 4 ==>
              x.data == data[x.ihl * 4..|data| + x.length - x.ihl * 4]
    ensures x.length < x.ihl * 4 && |data| + x.length - x.ihl * 4 < x.ihl * 4 ==> x.data == []
  {
    var flagsOffset := U16Be(data[6], data[7]);
    var ihl := data[0] % 16;
    var length := U16Be(data[2], data[3]);
    IpHeader(
      data[0] / 16, ihl, data[1], length, U16Be(data[4], data[5]),
      flagsOffset / 8192, flagsOffset % 8192, data[8], data[9], U16Be(data[10], data[11]),
      U32(Big, data[12..16]), U32(Big, data[16..20]),
      Substr(data, ihl * 4, length - ihl * 4))
  }

  predicate FitsIpHeader(x: IpHeader) {
    && x.version < 16 && x.ihl < 16 && x.length < TwoTo16 && x.identification < TwoTo16
    && x.flags < 8 && x.offset < 8192 && x.checksum < TwoTo16
    && x.source < TwoTo32 && x.destination < TwoTo32
  }

  /** The 20 header bytes that carry the fields of `x`. */
  function EncodeIpHeader(x: IpHeader): (r: seq<byte>)
    requires FitsIpHeader(x)
    ensures |r| == IpHeaderSize
  {
    [x.version * 16 + x.ihl, x.services] + U16BeBytes(x.length) + U16BeBytes(x.identification)
    + U16BeBytes(x.flags * 8192 + x.offset) + [x.ttl, x.protocol] + U16BeBytes(x.checksum)
    + U32Bytes(Big, x.source) + U32Bytes(Big, x.destination)
  }

  /** Nine consecutive slices of the first 20 bytes, laid end to end, give those bytes back. */
  lemma HeaderSlices(s: seq<byte>, p0: seq<byte>, p1: seq<byte>, p2: seq<byte>, p3: seq<byte>,
                     p4: seq<byte>, p5: seq<byte>, p6: seq<byte>, p7: seq<byte>, p8: seq<byte>)
    requires |s| >= 20
    requires p0 == s[0..2] && p1 == s[2..4] && p2 == s[4..6] && p3 == s[6..8] && p4 == s[8..10]
    requires p5 == s[10..12] && p6 == s[12..16] && p7 == s[16..20] && p8 == []
    ensures p0 + p1 + p2 + p3 + p4 + p5 + p6 + p7 + p8 == s[..20]
  {
    assert s[..20] == s[0..2] + s[2..4] + s[4..6] + s[6..8] + s[8..10] + s[10..12] + s[12..16] + s[16..20];
  }

  /** A big-endian 16-bit field is rebuilt from the two bytes it was read from. */
  lemma U16Slice(data: seq<byte>, i: nat)
    requires i + 2 <= |data|
    ensures U16BeBytes(U16Be(data[i], data[i + 1])) == data[i..i + 2]
  {
    U16BeBytesOf(data[i], data[i + 1]);
  }

  /** Header fields that agree with the first 20 bytes encode to exactly those bytes. */
  lemma RebuildFromFields(data: seq<byte>, x: IpHeader)
    requires |data| >= IpHeaderSize
    requires x.version < 16 && x.ihl < 16 && x.version * 16 + x.ihl == data[0] && x.services == data[1]
    requires x.length == U16Be(data[2], data[3]) && x.identification == U16Be(data[4], data[5])
    requires x.flags < 8 && x.offset < 8192 && x.flags * 8192 + x.offset == U16Be(data[6], data[7])
    requires x.ttl == data[8] && x.protocol == data[9] && x.checksum == U16Be(data[10], data[11])
    requires x.source == U32(Big, data[12..16]) && x.destination == U32(Big, data[16..20])
    ensures FitsIpHeader(x)
    ensures EncodeIpHeader(x) == data[..IpHeaderSize]
  {
    var p0 := [x.version * 16 + x.ihl, x.services];
    assert p0 == data[0..2];
    var p1 := U16BeBytes(x.length);
    U16Slice(data, 2);
    var p2 := U16BeBytes(x.identification);
    U16Slice(data, 4);
    var p3 := U16BeBytes(x.flags * 8192 + x.offset);
    U16Slice(data, 6);
    var p4 := [x.ttl, x.protocol];
    assert p4 == data[8..10];
    var p5 := U16BeBytes(x.checksum);
    U16Slice(data, 10);
    var p6 := U32Bytes(Big, x.source);
    BytesOfU32(Big, data[12..16]);
    var p7 := U32Bytes(Big, x.destination);
    BytesOfU32(Big, data[16..20]);
    HeaderSlices(data, p0, p1, p2, p3, p4, p5, p6, p7, []);
    assert EncodeIpHeader(x) == p0 + p1 + p2 + p3 + p4 + p5 + p6 + p7 + [];
  }

  /** The split loses nothing: the fields rebuild the first 20 bytes. */
  lemma IpFieldsRebuildHeader(data: seq<byte>)
    requires |data| >= IpHeaderSize
    ensures FitsIpHeader(DecodeIpFields(data))
    ensures EncodeIpHeader(DecodeIpFields(data)) == data[..IpHeaderSize]
  {
    RebuildFromFields(data, DecodeIpFields(data));
  }
}
