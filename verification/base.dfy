/** Shared vocabulary: bytes, UTF-16 code units, optional and fallible results, and the
    JavaScript integer conversions the codecs rely on (32-bit shifts, typed-array stores,
    truncating remainder). */
module Base {

  /** One byte of an `ArrayBuffer`. */
  type Byte = b: int | 0 <= b < 0x100

  /** One UTF-16 code unit, as returned by `charCodeAt`. JavaScript strings are sequences of
      these, so lone surrogates are representable. */
  type Unit = u: int | 0 <= u < 0x1_0000

  datatype Option<+T> = None | Some(value: T)

  datatype Result<+T, +E> = Ok(value: T) | Err(error: E)

  const TWO_32: int := 0x1_0000_0000
  const TWO_31: int := 0x8000_0000

  /** ECMAScript ToInt32: the signed 32-bit integer congruent to `x` modulo 2^32. */
  function ToInt32(x: int): (r: int)
    ensures -TWO_31 <= r < TWO_31
    ensures (x - r) % TWO_32 == 0
    ensures -TWO_31 <= x < TWO_31 ==> r == x
  {
    var m := x % TWO_32;
    if m >= TWO_31 then m - TWO_32 else m
  }

  /** `x >> 8`: arithmetic shift of the 32-bit value of `x`. */
  function Sar8(x: int): (r: int)
    ensures 0 <= x < TWO_31 ==> r == x / 0x100
    ensures x > 0 ==> r < x
  {
    ToInt32(x) / 0x100
  }

  /** `x >> 16`. */
  function Sar16(x: int): (r: int)
    ensures 0 <= x < TWO_31 ==> r == x / 0x1_0000
  {
    ToInt32(x) / 0x1_0000
  }

  /** `x << 8`: the shift wraps to a signed 32-bit value. */
  function Shl8(x: int): (r: int)
    ensures -TWO_31 <= r < TWO_31
    ensures 0 <= x < 0x80_0000 ==> r == x * 0x100
  {
    ToInt32(ToInt32(x) * 0x100)
  }

  /** Storing an integer into a `Uint8Array` slot keeps it modulo 256; this is also `x & 0xFF`. */
  function LowByte(x: int): (b: Byte)
    ensures 0 <= x < 0x100 ==> b == x
  {
    x % 0x100
  }

  /** The code unit a pair of `Uint8Array` stores `x & 0xFF`, `x >> 8` leaves behind when the
      buffer is read back as 16-bit little-endian units. */
  function LowUnit(x: int): (u: Unit)
    ensures 0 <= x < 0x1_0000 ==> u == x
  {
    x % 0x1_0000
  }

  /** The code unit that `x & 0xFF` and `x >> 8`, stored as a little-endian byte pair, read back
      as: `x` itself for every code unit, and the low 16 bits of the 32-bit value otherwise. */
  function EmitUnit(x: int): (u: Unit)
    ensures 0 <= x < 0x1_0000 ==> u == x
  {
    LowByte(x) + 0x100 * LowByte(Sar8(x))
  }

  /** JavaScript `%`: the remainder truncates toward zero, so it takes the sign of `x`. */
  function JsRem(x: int, d: int): (r: int)
    requires d > 0
    ensures x >= 0 ==> r == x % d
    ensures x < 0 ==> -d < r <= 0 && (x - r) % d == 0
    ensures -d < r < d
  {
    if x >= 0 then x % d
    else
      var q := (-x) / d;
      MultipleHasNoRemainder(-q, d);
      assert x - -((-x) % d) == d * -q;
      -((-x) % d)
  }

  /** A multiple of `d` leaves no remainder. */
  lemma MultipleHasNoRemainder(k: int, d: int)
    requires d > 0
    ensures (d * k) % d == 0
  {
    var q, r := (d * k) / d, (d * k) % d;
    assert d * (k - q) == r;
    if k - q >= 1 {
      assert false;
    } else if k - q <= -1 {
      assert false;
    }
  }

  function Min(a: int, b: int): int {
    if a <= b then a else b
  }

  lemma AppendAssoc<T>(a: seq<T>, b: seq<T>, c: seq<T>)
    ensures a + (b + c) == (a + b) + c
  {
  }

  /** Concatenation of a sequence of chunks. */
  function Concat<T>(chunks: seq<seq<T>>): (r: seq<T>)
    decreases |chunks|
  {
    if |chunks| == 0 then [] else chunks[0] + Concat(chunks[1..])
  }
}
