/** Fixed-width integers and their little-endian byte layout on the wire.
    The firmware runs on a little-endian Cortex-M0+, so every `uint32_t` it
    hands to `tud_cdc_write`, and the packed `lba` field it reads with
    `tud_cdc_read`, is laid out least significant byte first. */
module Wire {

  /** One octet on the CDC byte channel. */
  newtype byte = x: int | 0 <= x < 0x100

  /** The C `uint32_t`. Arithmetic on it is range-checked, so an increment
      that could wrap is a verification error rather than a silent wrap. */
  newtype u32 = x: int | 0 <= x < 0x1_0000_0000

  datatype Option<T> = None | Some(value: T)

  /** The four bytes of `x`, least significant first. */
  function LE32(x: u32): (r: seq<byte>)
    ensures |r| == 4
  {
    var v := x as int;
    [(v % 0x100) as byte,
     (v / 0x100 % 0x100) as byte,
     (v / 0x1_0000 % 0x100) as byte,
     (v / 0x100_0000) as byte]
  }

  /** The word whose little-endian layout is `b`. */
  function FromLE32(b: seq<byte>): (x: u32)
    requires |b| == 4
  {
    ((b[0] as int) + 0x100 * (b[1] as int) + 0x1_0000 * (b[2] as int) + 0x100_0000 * (b[3] as int)) as u32
  }

  lemma FromLE32OfLE32(x: u32)
    ensures FromLE32(LE32(x)) == x
  {
    var v := x as int;
    var b := LE32(x);
    assert v == v % 0x100 + 0x100 * (v / 0x100);
    assert v / 0x100 == v / 0x100 % 0x100 + 0x100 * (v / 0x1_0000);
    assert v / 0x1_0000 == v / 0x1_0000 % 0x100 + 0x100 * (v / 0x100_0000);
  }

  lemma LE32OfFromLE32(b: seq<byte>)
    requires |b| == 4
    ensures LE32(FromLE32(b)) == b
  {
    var b0, b1, b2, b3 := b[0] as int, b[1] as int, b[2] as int, b[3] as int;
    var v := FromLE32(b) as int;
    assert v == b0 + 0x100 * (b1 + 0x100 * (b2 + 0x100 * b3));
    DivModStep(v, b0, b1 + 0x100 * (b2 + 0x100 * b3));
    DivModStep(v / 0x100, b1, b2 + 0x100 * b3);
    DivModStep(v / 0x1_0000, b2, b3);
    assert v / 0x100 / 0x100 == v / 0x1_0000;
    assert v / 0x1_0000 / 0x100 == v / 0x100_0000;
    assert LE32(FromLE32(b)) == [b0 as byte, b1 as byte, b2 as byte, b3 as byte];
  }

  /** Splitting `v == lo + 256 * hi` with a byte `lo` recovers `lo` and `hi`. */
  lemma DivModStep(v: int, lo: int, hi: int)
    requires 0 <= lo < 0x100 && 0 <= hi && v == lo + 0x100 * hi
    ensures v % 0x100 == lo && v / 0x100 == hi
  {
  }

  /** Distinct words never share a layout, so a status word read back by the
      host identifies the status the device sent. */
  lemma LE32Injective(x: u32, y: u32)
    requires LE32(x) == LE32(y)
    ensures x == y
  {
    FromLE32OfLE32(x);
    FromLE32OfLE32(y);
  }
}
