/** The four-byte GB18030 fallback of `encodings/dbcs-codec.js`, the "index gb18030 ranges"
    mechanism of section 10.2 of the WHATWG Encoding Standard: code points not in the two-byte
    table are mapped linearly, range by range, onto a pointer, and the pointer is written as four
    bytes b1 b2 b3 b4 with b1, b3 in 0x81..0xFE and b2, b4 in 0x30..0x39. A value JavaScript would
    compute as `NaN` (an index outside a table, a byte missing from a short token) is `None`. */
module Gb18030 {
  import opened Base
  import opened Util

  /** The range table: `uChars[i]` is the first code point of range `i` and `gbChars[i]` the
      pointer it maps to. */
  datatype Ranges = Ranges(uChars: seq<int>, gbChars: seq<int>)

  /** Ranges that map code points to pointers one-to-one: both columns strictly ascending, of
      equal length, and every range as long in pointers as in code points. */
  ghost predicate Consistent(r: Ranges) {
    && |r.uChars| == |r.gbChars| > 0
    && StrictlyAscending(r.uChars)
    && StrictlyAscending(r.gbChars)
    && forall i :: 0 <= i < |r.uChars| - 1 ==> Gap(r.gbChars, i) == Gap(r.uChars, i)
  }

  /** The length of range `i` of a column: the distance from its first entry to the next. */
  function Gap(column: seq<int>, i: int): int
    requires 0 <= i < |column| - 1
  {
    column[i + 1] - column[i]
  }

  const BYTE1_SPAN: nat := 12600
  const BYTE2_SPAN: nat := 1260
  const BYTE3_SPAN: nat := 10

  /** The number of pointers the four-byte form covers with a first byte in 0x81..0xFE. */
  const POINTER_LIMIT: nat := 126 * BYTE1_SPAN

  // ---------------------------------------------------------------------------
  // Encoder side

  /** The pointer the encoder computes for code `u`: `None` when `u` lies below every range,
      `Some(None)` when the range index falls outside `gbChars` (the sum is `NaN`), otherwise the
      range's first pointer plus the offset of `u` in the range. */
  function EncodePointer(r: Ranges, u: int): (p: Option<Option<int>>)
    ensures p.None? <==> FindIdx(r.uChars, u) == -1
  {
    var idx := FindIdx(r.uChars, u);
    if idx == -1 then None
    else if idx < |r.gbChars| && idx < |r.uChars| then Some(Some(r.gbChars[idx] + (u - r.uChars[idx])))
    else Some(None)
  }

  /** The four bytes the encoder writes for a pointer, with JavaScript's floor division and
      truncating remainder and each value stored modulo 256; a `NaN` pointer writes four zero
      bytes. */
  function PointerBytes(p: Option<int>): (bs: seq<Byte>)
    ensures |bs| == 4
  {
    match p
    case None => [0, 0, 0, 0]
    case Some(d) =>
      var d1 := JsRem(d, BYTE1_SPAN);
      var d2 := JsRem(d1, BYTE2_SPAN);
      var d3 := JsRem(d2, BYTE3_SPAN);
      [LowByte(0x81 + d / BYTE1_SPAN), LowByte(0x30 + d1 / BYTE2_SPAN), LowByte(0x81 + d2 / BYTE3_SPAN), LowByte(0x30 + d3)]
  }

  // ---------------------------------------------------------------------------
  // Decoder side

  /** The pointer the decoder computes from the bytes of a token; only the first four count, and
      a token shorter than four bytes gives `NaN`. */
  function TokenPointer(token: seq<Byte>): (p: Option<int>)
    ensures p.Some? <==> |token| >= 4
  {
    if |token| < 4 then None
    else Some(PointerOf(token[0], token[1], token[2], token[3]))
  }

  /** The pointer of the four bytes of a token. */
  function PointerOf(b0: Byte, b1: Byte, b2: Byte, b3: Byte): (p: int)
    ensures 0x81 <= b0 <= 0xFE && 0x30 <= b1 <= 0x39 && 0x81 <= b2 <= 0xFE && 0x30 <= b3 <= 0x39
            ==> 0 <= p < 126 * BYTE1_SPAN
  {
    (b0 as int - 0x81) * BYTE1_SPAN + (b1 as int - 0x30) * BYTE2_SPAN + (b2 as int - 0x81) * BYTE3_SPAN + (b3 as int - 0x30)
  }

  /** The code the decoder computes from a pointer: the range found by `findIdx` over `gbChars`,
      shifted onto `uChars`; `NaN` when the pointer is, or when the index falls outside a table
      (including the -1 of a pointer below every range). */
  function DecodePointer(r: Ranges, p: Option<int>): (u: Option<int>)
    ensures u.Some? ==> p.Some? && 0 <= FindIdx(r.gbChars, p.value) < |r.uChars|
  {
    match p
    case None => None
    case Some(ptr) =>
      var idx := FindIdx(r.gbChars, ptr);
      if 0 <= idx < |r.uChars| && idx < |r.gbChars| then Some(r.uChars[idx] + ptr - r.gbChars[idx]) else None
  }

  // ---------------------------------------------------------------------------
  // Properties

  /** The bytes of a pointer below 126 * 12600 lie in the four-byte ranges (first and third
      byte 0x81..0xFE, second and fourth 0x30..0x39), and the decoder's formula gives the pointer
      back. */
  lemma PointerRoundTrip(p: int)
    requires 0 <= p < POINTER_LIMIT
    ensures var bs := PointerBytes(Some(p));
            && 0x81 <= bs[0] <= 0xFE && 0x30 <= bs[1] <= 0x39
            && 0x81 <= bs[2] <= 0xFE && 0x30 <= bs[3] <= 0x39
            && TokenPointer(bs) == Some(p)
  {
    var d1 := p % BYTE1_SPAN;
    var d2 := d1 % BYTE2_SPAN;
    var d3 := d2 % BYTE3_SPAN;
    assert p == (p / BYTE1_SPAN) * BYTE1_SPAN + d1;
    assert d1 == (d1 / BYTE2_SPAN) * BYTE2_SPAN + d2;
    assert d2 == (d2 / BYTE3_SPAN) * BYTE3_SPAN + d3;
  }

  /** Conversely, every token in the four-byte ranges is written back as itself from its
      pointer. */
  lemma TokenRoundTrip(bs: seq<Byte>)
    requires |bs| == 4
    requires 0x81 <= bs[0] <= 0xFE && 0x30 <= bs[1] <= 0x39 && 0x81 <= bs[2] <= 0xFE && 0x30 <= bs[3] <= 0x39
    ensures TokenPointer(bs).Some? && 0 <= TokenPointer(bs).value < POINTER_LIMIT
    ensures PointerBytes(TokenPointer(bs)) == bs
  {
    var q0, q1, q2, q3 := bs[0] as int - 0x81, bs[1] as int - 0x30, bs[2] as int - 0x81, bs[3] as int - 0x30;
    var p := q0 * BYTE1_SPAN + q1 * BYTE2_SPAN + q2 * BYTE3_SPAN + q3;
    var d2 := q2 * BYTE3_SPAN + q3;
    var d1 := q1 * BYTE2_SPAN + d2;
    assert 0 <= d2 < BYTE2_SPAN && d2 / BYTE3_SPAN == q2 && d2 % BYTE3_SPAN == q3;
    assert 0 <= d1 < BYTE1_SPAN && d1 / BYTE2_SPAN == q1 && d1 % BYTE2_SPAN == d2;
    assert p / BYTE1_SPAN == q0 && p % BYTE1_SPAN == d1;
  }

  /** With consistent ranges, the decoder's range lookup inverts the encoder's: a code point
      that the encoder maps to a pointer is decoded from that pointer. */
  lemma RangesRoundTrip(r: Ranges, u: int)
    requires Consistent(r)
    requires EncodePointer(r, u).Some?
    ensures EncodePointer(r, u).value.Some?
    ensures DecodePointer(r, EncodePointer(r, u).value) == Some(u)
  {
    var idx := FindIdx(r.uChars, u);
    var p := r.gbChars[idx] + (u - r.uChars[idx]);
    assert r.gbChars[idx] <= p && (idx + 1 == |r.gbChars| || p < r.gbChars[idx + 1]) by {
      ShiftIntoRange(r.uChars, r.gbChars, idx, u);
    }
    BracketIsUnique(r.gbChars, p, idx);
  }

  /** And the other way round: a pointer at or above the first range decodes to a code point
      the encoder maps back to the same pointer. */
  lemma PointersRoundTrip(r: Ranges, p: int)
    requires Consistent(r)
    requires r.gbChars[0] <= p
    ensures DecodePointer(r, Some(p)).Some?
    ensures EncodePointer(r, DecodePointer(r, Some(p)).value) == Some(Some(p))
  {
    var idx := FindIdx(r.gbChars, p);
    var u := r.uChars[idx] + p - r.gbChars[idx];
    assert r.uChars[idx] <= u && (idx + 1 == |r.uChars| || u < r.uChars[idx + 1]) by {
      ShiftIntoRange(r.gbChars, r.uChars, idx, p);
    }
    BracketIsUnique(r.uChars, u, idx);
  }

  /** A value bracketed by entries `idx` and `idx + 1` of one column, shifted onto the other
      column, stays bracketed there when the two ranges have equal gaps. */
  lemma ShiftIntoRange(from: seq<int>, to: seq<int>, idx: int, x: int)
    requires 0 <= idx < |from| == |to|
    requires from[idx] <= x && (idx + 1 == |from| || x < from[idx + 1])
    requires idx + 1 < |from| ==> Gap(to, idx) == Gap(from, idx)
    ensures var y := to[idx] + (x - from[idx]);
            to[idx] <= y && (idx + 1 == |to| || y < to[idx + 1])
  {
  }
}
