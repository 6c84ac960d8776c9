/** Explicit little-endian field codecs, standing in for the `struct` formats
    the source uses: "B" (one byte), "<H" (two bytes) and "<I" (four bytes). */
module LittleEndian {
  import opened Errors

  /** One byte of the image. */
  newtype Byte = b: int | 0 <= b < 0x100

  /** "B": one unsigned byte. */
  function DecodeU8(b: seq<Byte>): (v: nat)
    requires |b| == 1
    ensures v < 0x100
  {
    b[0] as nat
  }

  /** "<H": low byte first. */
  function DecodeU16(b: seq<Byte>): (v: nat)
    requires |b| == 2
    ensures v < 0x1_0000
    ensures v % 0x100 == b[0] as nat && v / 0x100 == b[1] as nat
  {
    b[0] as nat + 0x100 * b[1] as nat
  }

  /** "<I": least significant byte first. */
  function DecodeU32(b: seq<Byte>): (v: nat)
    requires |b| == 4
    ensures v < 0x1_0000_0000
  {
    DecodeU16(b[..2]) + 0x1_0000 * DecodeU16(b[2..])
  }

  function EncodeU16(v: nat): (b: seq<Byte>)
    requires v < 0x1_0000
    ensures |b| == 2
    ensures b[0] as nat == v % 0x100 && b[1] as nat == v / 0x100
  {
    [(v % 0x100) as Byte, (v / 0x100) as Byte]
  }

  function EncodeU32(v: nat): (b: seq<Byte>)
    requires v < 0x1_0000_0000
    ensures |b| == 4
    ensures b[..2] == EncodeU16(v % 0x1_0000) && b[2..] == EncodeU16(v / 0x1_0000)
  {
    EncodeU16(v % 0x1_0000) + EncodeU16(v / 0x1_0000)
  }

  /** `struct.pack("<H", v)`: raises struct.error unless 0 <= v <= 0xFFFF. */
  function PackU16(v: int): (r: Result<seq<Byte>>)
    ensures r.Ok? <==> 0 <= v < 0x1_0000
    ensures r.Err? ==> r.error == ValueOutOfRange
    ensures r.Ok? ==> |r.value| == 2 && DecodeU16(r.value) == v
  {
    if 0 <= v < 0x1_0000 then
      DecodeEncodeU16(v);
      Ok(EncodeU16(v))
    else
      Err(ValueOutOfRange)
  }

  lemma DecodeEncodeU16(v: nat)
    requires v < 0x1_0000
    ensures DecodeU16(EncodeU16(v)) == v
  {
  }

  lemma EncodeDecodeU16(b: seq<Byte>)
    requires |b| == 2
    ensures EncodeU16(DecodeU16(b)) == b
  {
  }

  lemma DecodeEncodeU32(v: nat)
    requires v < 0x1_0000_0000
    ensures DecodeU32(EncodeU32(v)) == v
  {
    var b := EncodeU32(v);
    DecodeEncodeU16(v % 0x1_0000);
    DecodeEncodeU16(v / 0x1_0000);
    assert DecodeU32(b) == DecodeU16(b[..2]) + 0x1_0000 * DecodeU16(b[2..]);
  }

  lemma EncodeDecodeU32(b: seq<Byte>)
    requires |b| == 4
    ensures EncodeU32(DecodeU32(b)) == b
  {
    var lo, hi := DecodeU16(b[..2]), DecodeU16(b[2..]);
    assert DecodeU32(b) % 0x1_0000 == lo && DecodeU32(b) / 0x1_0000 == hi;
    EncodeDecodeU16(b[..2]);
    EncodeDecodeU16(b[2..]);
    assert b == b[..2] + b[2..];
  }

  /** Two-byte encodings of distinct values differ, so a FAT link is determined by its bytes. */
  lemma EncodeU16Injective(v: nat, w: nat)
    requires v < 0x1_0000 && w < 0x1_0000
    requires EncodeU16(v) == EncodeU16(w)
    ensures v == w
  {
    DecodeEncodeU16(v);
    DecodeEncodeU16(w);
  }
}
