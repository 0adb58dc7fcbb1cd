/** Bytes, words and their big-endian encodings, as `from_be_bytes` reads them. */
module Bytes {

  type Byte = b: int | 0 <= b < 0x100

  type Word16 = w: int | 0 <= w < 0x1_0000

  type Word32 = w: int | 0 <= w < 0x1_0000_0000

  type Bytes = seq<Byte>

  function Be16(w: Word16): (s: Bytes)
    ensures |s| == 2
    ensures FromBe16(s) == w
  {
    [w / 0x100, w % 0x100]
  }

  function FromBe16(s: Bytes): Word16
    requires |s| == 2
  {
    var b0: int, b1: int := s[0], s[1];
    0x100 * b0 + b1
  }

  function Be32(w: Word32): (s: Bytes)
    ensures |s| == 4
    ensures FromBe32(s) == w
  {
    Be16(w / 0x1_0000) + Be16(w % 0x1_0000)
  }

  function FromBe32(s: Bytes): Word32
    requires |s| == 4
  {
    var high: int, low: int := FromBe16(s[..2]), FromBe16(s[2..]);
    0x1_0000 * high + low
  }

  /** Big-endian reading loses nothing: the same two bytes are written back. */
  lemma Be16OfFrom(s: Bytes)
    requires |s| == 2
    ensures Be16(FromBe16(s)) == s
  {
  }

  /** Big-endian reading loses nothing: the same four bytes are written back. */
  lemma Be32OfFrom(s: Bytes)
    requires |s| == 4
    ensures Be32(FromBe32(s)) == s
  {
    Be16OfFrom(s[..2]);
    Be16OfFrom(s[2..]);
  }

  /** Big-endian: numbers compare as their bytes do from the first byte on. */
  lemma Be16Order(v: Word16, w: Word16)
    ensures v < w <==> exists i :: 0 <= i < 2 && Be16(v)[..i] == Be16(w)[..i] && Be16(v)[i] < Be16(w)[i]
  {
    var a, b := Be16(v), Be16(w);
    assert a[..0] == b[..0];
    assert a[..1] == [a[0]] && b[..1] == [b[0]];
    assert v == FromBe16(a) && w == FromBe16(b);
  }

  /** The same for four bytes. */
  lemma Be32Order(v: Word32, w: Word32)
    ensures v < w <==> exists i :: 0 <= i < 4 && Be32(v)[..i] == Be32(w)[..i] && Be32(v)[i] < Be32(w)[i]
  {
    var a, b := Be32(v), Be32(w);
    assert a[..0] == b[..0];
    assert a[..1] == [a[0]] && b[..1] == [b[0]];
    assert a[..2] == [a[0], a[1]] && b[..2] == [b[0], b[1]];
    assert a[..3] == [a[0], a[1], a[2]] && b[..3] == [b[0], b[1], b[2]];
    assert v == FromBe32(a) && w == FromBe32(b);
  }
}
