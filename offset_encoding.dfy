/**
 * The register offset of a post-box read, as the address bytes written on the bus
 * ahead of the data read: one byte when the offset fits in a u8, two bytes in
 * big-endian order otherwise.
 */
module OffsetEncoding {
  import opened Bytes

  /** `x.to_be_bytes()` for a u16: its two bytes, most significant first. */
  function ToBeBytes(x: u16): (r: seq<u8>)
    ensures |r| == 2 && BigEndianValue(r) == x as nat
  {
    var r := [(x / 256) as u8, (x % 256) as u8];
    assert r[..1] == [r[0]] && [r[0]][..0] == [];
    assert BigEndianValue(r) == BigEndianValue([r[0]]) * 256 + r[1] as nat;
    assert BigEndianValue([r[0]]) == r[0] as nat;
    r
  }

  /**
   * The address bytes for `offset`. As in the source, a zeroed two-byte buffer is
   * either given the offset in its first byte and cut to that one byte, or replaced
   * by the offset's big-endian bytes.
   */
  function EncodeOffset(offset: u16): (r: seq<u8>)
    ensures |r| == 1 || |r| == 2
  {
    var buf: seq<u8> := [0, 0];
    if offset as int <= U8_MAX then
      var buf := buf[0 := offset as u8];
      buf[..1]
    else
      ToBeBytes(offset)
  }

  /** An address of one byte, or of two whose leading byte is not zero: no shorter form holds the same value. */
  predicate IsMinimal(bs: seq<u8>)
  {
    |bs| == 1 || (|bs| == 2 && bs[0] != 0)
  }

  /** The two branches of the encoder, byte by byte. */
  lemma EncodeOffsetCases(offset: u16)
    ensures offset as int <= U8_MAX ==> EncodeOffset(offset) == [offset as u8]
    ensures offset as int > U8_MAX ==>
              EncodeOffset(offset) == [(offset / 256) as u8, (offset % 256) as u8]
  {
  }

  /** One byte exactly when the offset fits in a u8. */
  lemma EncodeOffsetLength(offset: u16)
    ensures |EncodeOffset(offset)| == 1 <==> offset as int <= U8_MAX
    ensures |EncodeOffset(offset)| == 2 <==> offset as int > U8_MAX
  {
  }

  /** Reading the address bytes big-endian, as the device does, gives back the offset. */
  lemma EncodeOffsetRoundTrip(offset: u16)
    ensures BigEndianValue(EncodeOffset(offset)) == offset as nat
  {
  }

  /** The encoding is the shortest big-endian form of the offset. */
  lemma EncodeOffsetMinimal(offset: u16)
    ensures IsMinimal(EncodeOffset(offset))
  {
  }

  /** Different offsets never share an address encoding. */
  lemma EncodeOffsetInjective(a: u16, b: u16)
    requires EncodeOffset(a) == EncodeOffset(b)
    ensures a == b
  {
    EncodeOffsetRoundTrip(a);
    EncodeOffsetRoundTrip(b);
  }

  /** Every minimal address is the encoding of the offset it denotes: the other half of the round trip. */
  lemma EncodeOffsetComplete(bs: seq<u8>)
    requires IsMinimal(bs)
    ensures BigEndianValue(bs) < 0x1_0000
    ensures EncodeOffset(BigEndianValue(bs) as u16) == bs
  {
  }
}
