/** The UTF-16BE codec of `encodings/utf16.ts`: the encoder byte-swaps the host (little-endian)
    code-unit buffer, and the decoder swaps back, carrying an odd trailing byte from one `write`
    to the next (section 3.1 of RFC 2781 fixes the big-endian byte order). */
module Utf16Be {
  import opened Base
  import opened Util

  /** The big-endian reading of a byte stream: one unit per complete pair, high byte first; an
      odd final byte contributes nothing. */
  function BePairs(x: seq<Byte>): (u: seq<Unit>)
    ensures |u| == |x| / 2
    decreases |x|
  {
    if |x| < 2 then [] else [(x[0] as int) * 0x100 + x[1]] + BePairs(x[2..])
  }

  /** Unit `k` of the big-endian reading is bytes `2k` (high) and `2k+1` (low). */
  lemma {:induction false} BePairsUnits(x: seq<Byte>)
    ensures var u := BePairs(x);
            forall k :: 0 <= k < |u| ==> u[k] == (x[2 * k] as int) * 0x100 + x[2 * k + 1]
    decreases |x|
  {
    if |x| >= 2 {
      BePairsUnits(x[2..]);
      var u := BePairs(x);
      var rest := BePairs(x[2..]);
      assert forall k :: 1 <= k < |u| ==> u[k] == rest[k - 1] && x[2 * k] == x[2..][2 * (k - 1)];
    }
  }

  /** The big-endian serialisation of a string: high byte, then low byte, of every unit. */
  function BeBytes(s: seq<Unit>): (b: seq<Byte>)
    ensures |b| == 2 * |s|
    decreases |s|
  {
    if |s| == 0 then [] else [s[0] / 0x100, s[0] % 0x100] + BeBytes(s[1..])
  }

  lemma {:induction false} BeBytesBytes(s: seq<Unit>)
    ensures var b := BeBytes(s);
            forall k :: 0 <= k < |s| ==> b[2 * k] == s[k] / 0x100 && b[2 * k + 1] == s[k] % 0x100
    decreases |s|
  {
    if |s| > 0 {
      BeBytesBytes(s[1..]);
      var b := BeBytes(s);
      var rest := BeBytes(s[1..]);
      assert forall k :: 1 <= k < |s| ==> b[2 * k] == rest[2 * (k - 1)] && b[2 * k + 1] == rest[2 * (k - 1) + 1];
    }
  }

  /** Reading the big-endian serialisation gives back the string. */
  lemma {:induction false} BePairsOfBeBytes(s: seq<Unit>)
    ensures BePairs(BeBytes(s)) == s
    decreases |s|
  {
    if |s| > 0 {
      BePairsOfBeBytes(s[1..]);
      var b := BeBytes(s);
      assert b[2..] == BeBytes(s[1..]);
      assert s == [s[0]] + s[1..];
    }
  }

  /** The swap loop of `Utf16BEEncoder.write`. */
  function SwapPairs(b: seq<Byte>): (r: seq<Byte>)
    requires |b| % 2 == 0
    ensures |r| == |b|
    decreases |b|
  {
    if |b| == 0 then [] else [b[1], b[0]] + SwapPairs(b[2..])
  }

  lemma {:induction false} SwapOfStrToBuf(s: seq<Unit>)
    ensures SwapPairs(StrToBuf(s)) == BeBytes(s)
    decreases |s|
  {
    if |s| > 0 {
      SwapOfStrToBuf(s[1..]);
      var b := StrToBuf(s);
      assert b[2..] == StrToBuf(s[1..]);
    }
  }

  /** `Utf16BEEncoder.write`: `strToBuf` followed by swapping every byte pair, so byte `2k` is
      the high byte and byte `2k+1` the low byte of unit `k`. */
  function EncoderWrite(s: seq<Unit>): (b: seq<Byte>)
    ensures |b| == 2 * |s|
    ensures forall k :: 0 <= k < |s| ==> b[2 * k] == s[k] / 0x100 && b[2 * k + 1] == s[k] % 0x100
  {
    SwapOfStrToBuf(s);
    BeBytesBytes(s);
    SwapPairs(StrToBuf(s))
  }

  /** `Utf16BEEncoder.end()` produces nothing. */
  function EncoderEnd(): (b: seq<Byte>)
    ensures |b| == 0
  {
    []
  }

  lemma {:induction false} BeBytesAppend(a: seq<Unit>, b: seq<Unit>)
    ensures BeBytes(a + b) == BeBytes(a) + BeBytes(b)
    decreases |a|
  {
    if |a| > 0 {
      BeBytesAppend(a[1..], b);
      assert (a + b)[1..] == a[1..] + b;
    } else {
      assert a + b == b;
    }
  }

  /** The encoder keeps no state, so writing a string in pieces gives the bytes of the whole. */
  lemma EncoderWriteSplits(a: seq<Unit>, b: seq<Unit>)
    ensures EncoderWrite(a + b) == EncoderWrite(a) + EncoderWrite(b)
  {
    SwapOfStrToBuf(a + b);
    SwapOfStrToBuf(a);
    SwapOfStrToBuf(b);
    BeBytesAppend(a, b);
  }

  /** Decoder state: the byte left over when a chunk ended in the middle of a pair
      (`overflowByte`, -1 in the source when absent). */
  datatype Decoder = Decoder(overflowByte: Option<Byte>)

  const Fresh: Decoder := Decoder(None)

  /** The pending byte as a (zero- or one-byte) prefix of the next chunk. */
  function Pending(d: Decoder): seq<Byte> {
    if d.overflowByte.Some? then [d.overflowByte.value] else []
  }

  /** The swap loop of `Utf16BEDecoder.write`, from byte `i` on. */
  function SwapFrom(buf: seq<Byte>, i: nat): (r: seq<Byte>)
    requires i <= |buf|
    ensures |r| == 2 * ((|buf| - i) / 2)
    decreases |buf| - i
  {
    if i + 1 < |buf| then [buf[i + 1], buf[i]] + SwapFrom(buf, i + 2) else []
  }

  lemma {:induction false} SwapFromReadsPairs(buf: seq<Byte>, i: nat)
    requires i <= |buf|
    ensures BufToStr(SwapFrom(buf, i)) == BePairs(buf[i..])
    decreases |buf| - i
  {
    if i + 1 < |buf| {
      SwapFromReadsPairs(buf, i + 2);
      var r := SwapFrom(buf, i);
      var rest := SwapFrom(buf, i + 2);
      assert r == [buf[i + 1], buf[i]] + rest;
      assert r[2..] == rest;
      assert BufToStr(r) == [buf[i + 1] + (buf[i] as int) * 0x100] + BufToStr(rest);
      var t := buf[i..];
      assert t[0] == buf[i] && t[1] == buf[i + 1];
      assert t[2..] == buf[i + 2..];
      assert BePairs(t) == [(buf[i] as int) * 0x100 + buf[i + 1]] + BePairs(buf[i + 2..]);
    } else {
      assert |buf[i..]| < 2;
    }
  }

  /** The byte a stream leaves unpaired: its last byte when its length is odd. */
  function Leftover(x: seq<Byte>): (r: seq<Byte>)
    ensures |r| == |x| % 2
    ensures x == x[..|x| - |r|] + r
  {
    if |x| % 2 == 1 then [x[|x| - 1]] else []
  }

  /** `Utf16BEDecoder.write`. It reads the stream "pending byte, then chunk" as big-endian pairs:
      a pending byte becomes the high byte of the first unit, paired with the chunk's first byte,
      and every later pair `(b[i], b[i+1])` becomes `b[i]*256 + b[i+1]`. The unpaired byte of
      that stream becomes the new pending byte. An empty chunk returns '' and leaves the state
      alone. */
  function DecoderWrite(d: Decoder, buf: seq<Byte>): (r: (seq<Unit>, Decoder))
    ensures |buf| == 0 ==> r == ([], d)
    ensures r.0 == BePairs(Pending(d) + buf)
    ensures Pending(r.1) == Leftover(Pending(d) + buf)
  {
    if |buf| == 0 then ([], d)
    else
      var head := if d.overflowByte.Some? then [buf[0], d.overflowByte.value] else [];
      var i0 := if d.overflowByte.Some? then 1 else 0;
      var body := SwapFrom(buf, i0);
      var iEnd := i0 + |body|;
      var out := BufToStr(head + body);
      var d' := Decoder(if iEnd == |buf| - 1 then Some(buf[|buf| - 1]) else None);
      DecoderWriteReads(d, buf);
      (out, d')
  }

  /** The facts behind `DecoderWrite`'s contract, stated on the pieces of its body. */
  lemma DecoderWriteReads(d: Decoder, buf: seq<Byte>)
    requires |buf| > 0
    ensures var i0 := if d.overflowByte.Some? then 1 else 0;
            var head := if d.overflowByte.Some? then [buf[0], d.overflowByte.value] else [];
            var body := SwapFrom(buf, i0);
            var x := Pending(d) + buf;
            && BufToStr(head + body) == BePairs(x)
            && (if i0 + |body| == |buf| - 1 then [buf[|buf| - 1]] else []) == Leftover(x)
  {
    var i0 := if d.overflowByte.Some? then 1 else 0;
    var head := if d.overflowByte.Some? then [buf[0], d.overflowByte.value] else [];
    var body := SwapFrom(buf, i0);
    var x := Pending(d) + buf;
    SwapFromReadsPairs(buf, i0);
    BufToStrAppend(head, body);
    if d.overflowByte.Some? {
      var o := d.overflowByte.value;
      assert x == [o] + buf;
      assert x[0] == o && x[1] == buf[0];
      assert x[2..] == buf[1..];
      assert BePairs(x) == [(o as int) * 0x100 + buf[0]] + BePairs(buf[1..]);
      assert head[2..] == [];
      assert BufToStr(head) == [buf[0] + (o as int) * 0x100];
    } else {
      assert x == buf[0..];
      assert BufToStr(head) == [];
      assert head + body == body;
    }
  }

  lemma {:induction false} BePairsAppend(x: seq<Byte>, y: seq<Byte>)
    requires |x| % 2 == 0
    ensures BePairs(x + y) == BePairs(x) + BePairs(y)
    decreases |x|
  {
    if |x| > 0 {
      BePairsAppend(x[2..], y);
      assert (x + y)[2..] == x[2..] + y;
    } else {
      assert x + y == y;
    }
  }

  lemma LeftoverAppend(x: seq<Byte>, y: seq<Byte>)
    requires |x| % 2 == 0
    ensures Leftover(x + y) == Leftover(y)
  {
    if |y| % 2 == 1 {
      assert (x + y)[|x + y| - 1] == y[|y| - 1];
    }
  }

  lemma PendingDetermines(d: Decoder, e: Decoder)
    requires Pending(d) == Pending(e)
    ensures d == e
  {
    if d.overflowByte.Some? {
      assert Pending(e)[0] == d.overflowByte.value;
    }
  }

  /** A stream read after its even-length prefix has been consumed: the prefix's units followed
      by the units of the rest. */
  lemma ResumeAfterPairs(x: seq<Byte>, y: seq<Byte>)
    ensures BePairs(x + y) == BePairs(x) + BePairs(Leftover(x) + y)
    ensures Leftover(x + y) == Leftover(Leftover(x) + y)
  {
    var l := Leftover(x);
    var e := x[..|x| - |l|];
    assert x + y == e + (l + y);
    BePairsAppend(e, l + y);
    BePairsAppend(e, l);
    assert x == e + l;
    LeftoverAppend(e, l + y);
  }

  /** Splitting a byte stream between two `write` calls at any point yields the same text and
      the same final state as writing it whole. */
  lemma DecoderWriteSplits(d: Decoder, a: seq<Byte>, b: seq<Byte>)
    ensures var r1 := DecoderWrite(d, a);
            var r2 := DecoderWrite(r1.1, b);
            var r := DecoderWrite(d, a + b);
            r1.0 + r2.0 == r.0 && r2.1 == r.1
  {
    var r1 := DecoderWrite(d, a);
    var r2 := DecoderWrite(r1.1, b);
    var r := DecoderWrite(d, a + b);
    var x := Pending(d) + a;
    assert r.0 == BePairs(x + b) && Pending(r.1) == Leftover(x + b) by {
      assert Pending(d) + (a + b) == x + b;
    }
    assert r1.0 + r2.0 == r.0 && Pending(r2.1) == Pending(r.1) by {
      ResumeAfterPairs(x, b);
    }
    PendingDetermines(r2.1, r.1);
  }

  /** `Utf16BEDecoder.end()` returns nothing, whatever byte is pending. */
  function DecoderEnd(d: Decoder): (r: seq<Unit>)
    ensures |r| == 0
  {
    []
  }

  /** Writes of successive chunks, threading the decoder state. */
  function DecodeChunks(d: Decoder, chunks: seq<seq<Byte>>): (r: (seq<Unit>, Decoder))
    decreases |chunks|
  {
    if |chunks| == 0 then ([], d)
    else
      var first := DecoderWrite(d, chunks[0]);
      var rest := DecodeChunks(first.1, chunks[1..]);
      (first.0 + rest.0, rest.1)
  }

  /** However a byte stream is cut into chunks, writing them and calling `end()` yields the
      big-endian units of its complete pairs; an odd final byte is dropped without output. */
  lemma {:induction false} DecodeChunksReadsConcatenation(d: Decoder, chunks: seq<seq<Byte>>)
    ensures var r := DecodeChunks(d, chunks);
            var x := Pending(d) + Concat(chunks);
            r.0 + DecoderEnd(r.1) == BePairs(x) && Pending(r.1) == Leftover(x)
    decreases |chunks|
  {
    if |chunks| == 0 {
      assert Pending(d) + Concat(chunks) == Pending(d);
    } else {
      var first := DecoderWrite(d, chunks[0]);
      var rest := DecodeChunks(first.1, chunks[1..]);
      var tail := Concat(chunks[1..]);
      assert Pending(d) + Concat(chunks) == Pending(d) + chunks[0] + tail by {
        assert Concat(chunks) == chunks[0] + tail;
        AppendAssoc(Pending(d), chunks[0], tail);
      }
      assert rest.0 == BePairs(Pending(first.1) + tail) && Pending(rest.1) == Leftover(Pending(first.1) + tail) by {
        DecodeChunksReadsConcatenation(first.1, chunks[1..]);
        assert rest.0 + DecoderEnd(rest.1) == rest.0;
      }
      WriteThenRest(d, chunks[0], tail, rest.0, rest.1);
      assert DecodeChunks(d, chunks) == (first.0 + rest.0, rest.1);
      assert DecodeChunks(d, chunks).0 + DecoderEnd(rest.1) == first.0 + rest.0;
    }
  }

  /** One step of `DecodeChunksReadsConcatenation`: a `write` followed by whatever reads the
      rest of the stream from the state it leaves. */
  lemma WriteThenRest(d: Decoder, c: seq<Byte>, tail: seq<Byte>, out: seq<Unit>, e: Decoder)
    requires out == BePairs(Pending(DecoderWrite(d, c).1) + tail)
    requires Pending(e) == Leftover(Pending(DecoderWrite(d, c).1) + tail)
    ensures DecoderWrite(d, c).0 + out == BePairs(Pending(d) + c + tail)
    ensures Pending(e) == Leftover(Pending(d) + c + tail)
  {
    ResumeAfterPairs(Pending(d) + c, tail);
  }

  /** Decoding the encoder's output gives back the string and leaves nothing pending. */
  lemma DecodeOfEncode(s: seq<Unit>)
    ensures DecoderWrite(Fresh, EncoderWrite(s)) == (s, Fresh)
  {
    var b := EncoderWrite(s);
    SwapOfStrToBuf(s);
    BePairsOfBeBytes(s);
    assert Pending(Fresh) + b == b;
    assert b[2 * (|b| / 2)..] == [];
  }
}
