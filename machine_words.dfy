/** Fixed-width machine quantities shared by the secure and the host side:
    bytes, unsigned 32-bit words with C's wrap-around, little-endian
    32-bit loads and stores, and optional values. */
module MachineWords {

  /** A value that may be absent: a NULL pointer, a failed lookup, an
      unwritten page-table slot. */
  datatype Option<+T> = None | Some(value: T)

  /** 2^32. Products, quotients and remainders below write it as a literal,
      which keeps them linear for the solver. */
  const TwoTo32: int := 0x1_0000_0000

  type byte = x: int | 0 <= x < 256
  type u32 = x: int | 0 <= x < 0x1_0000_0000

  /** The value an unsigned 32-bit C expression holds after wrap-around. */
  function Wrap(x: int): (r: u32)
    ensures 0 <= x < 0x1_0000_0000 ==> r == x
  {
    x % 0x1_0000_0000
  }

  /** Adding to a wrapped value and wrapping again is one wrapped addition:
      a cursor advanced by a page at a time stays `Wrap(base + n * step)`. */
  lemma WrapAdd(a: int, b: int)
    ensures Wrap(Wrap(a) + b) == Wrap(a + b)
  {
    var q := a / 0x1_0000_0000;
    assert a == q * 0x1_0000_0000 + Wrap(a);
    assert Wrap(a) + b == (a + b) - q * 0x1_0000_0000;
    ModShift(a + b, q);
  }

  lemma ModShift(x: int, q: int)
    ensures (x - q * 0x1_0000_0000) % 0x1_0000_0000 == x % 0x1_0000_0000
  {
    var m := x % 0x1_0000_0000;
    var d := x / 0x1_0000_0000;
    assert x == d * 0x1_0000_0000 + m;
    assert x - q * 0x1_0000_0000 == (d - q) * 0x1_0000_0000 + m;
  }

  /** Little-endian load of four bytes. */
  function Le32(b0: byte, b1: byte, b2: byte, b3: byte): u32
  {
    b0 + 256 * b1 + 65536 * b2 + 16777216 * b3
  }

  /** Little-endian store of a 32-bit word: the top byte, then the bytes of
      what is left below it, from the highest down. */
  function Le32Bytes(w: u32): (r: seq<byte>)
    ensures |r| == 4
  {
    var low3 := w % 16777216;
    var low2 := low3 % 65536;
    [low2 % 256, low2 / 256, low3 / 65536, w / 16777216]
  }

  /** Reading back what was stored gives the same word. */
  lemma Le32RoundTrip(w: u32)
    ensures var b := Le32Bytes(w); Le32(b[0], b[1], b[2], b[3]) == w
  {
    var low3 := w % 16777216;
    var low2 := low3 % 65536;
    assert w == 16777216 * (w / 16777216) + low3;
    assert low3 == 65536 * (low3 / 65536) + low2;
    assert low2 == 256 * (low2 / 256) + low2 % 256;
  }

  /** Storing what was read gives the same four bytes. */
  lemma Le32BytesRoundTrip(b0: byte, b1: byte, b2: byte, b3: byte)
    ensures Le32Bytes(Le32(b0, b1, b2, b3)) == [b0, b1, b2, b3]
  {
    SplitLowByte(b0 + 256 * b1 + 65536 * b2, b3, 16777216);
    SplitLowByte(b0 + 256 * b1, b2, 65536);
    SplitLowByte(b0, b1, 256);
  }

  lemma SplitLowByte(lo: int, hi: int, d: int)
    requires d == 256 || d == 65536 || d == 16777216
    requires 0 <= lo < d
    ensures (lo + d * hi) / d == hi && (lo + d * hi) % d == lo
  {
    if d == 256 {
    } else if d == 65536 {
    } else {
    }
  }
}
