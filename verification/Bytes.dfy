/** Bytes, fixed-width unsigned integers and the result types shared by all modules. */
module Bytes {

  const U31: int := 0x8000_0000
  const U32: int := 0x1_0000_0000

  type Byte = x: int | 0 <= x < 256
  type Word16 = x: int | 0 <= x < 0x1_0000
  type Word32 = x: int | 0 <= x < 0x1_0000_0000

  datatype Option<+T> = None | Some(value: T)

  predicate IsAscii(s: string) {
    forall i :: 0 <= i < |s| ==> s[i] as int < 0x80
  }

  /** The bytes of an ASCII text. */
  function Ascii(s: string): (r: seq<Byte>)
    requires IsAscii(s)
    ensures |r| == |s|
  {
    seq(|s|, i requires 0 <= i < |s| => s[i] as int)
  }

  /** A number in base 256. */
  lemma Base256(q: int, r: int)
    requires 0 <= r < 0x100
    ensures (0x100 * q + r) / 0x100 == q && (0x100 * q + r) % 0x100 == r
  {}

  /** The four bytes of a word. */
  lemma FourBytes(x: int)
    requires 0 <= x < U32
    ensures x / 0x1_0000 == x / 0x100 / 0x100 && x / 0x100_0000 == x / 0x100 / 0x100 / 0x100
    ensures x == x / 0x100_0000 * 0x100_0000 + x / 0x1_0000 % 0x100 * 0x1_0000 + x / 0x100 % 0x100 * 0x100 + x % 0x100
  {
    var y, z, w := x / 0x100, x / 0x100 / 0x100, x / 0x100 / 0x100 / 0x100;
    var a, b, c := x % 0x100, y % 0x100, z % 0x100;
    assert x == 0x100 * y + a && y == 0x100 * z + b && z == 0x100 * w + c;
    Quotient(x, 0x1_0000, z, 0x100 * b + a);
    Quotient(x, 0x100_0000, w, 0x1_0000 * c + 0x100 * b + a);
  }

  lemma Quotient(x: int, m: int, q: int, r: int)
    requires (m == 0x1_0000 || m == 0x100_0000) && 0 <= r < m && x == q * m + r
    ensures x / m == q && x % m == r
  {
    if m == 0x1_0000 {
      assert x == 0x1_0000 * q + r;
    } else {
      assert x == 0x100_0000 * q + r;
    }
  }
}
