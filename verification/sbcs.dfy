/** The single-byte codec of `encodings/sbcs-codec.ts`: a table of 128 or 256 code units, one
    per byte value, and the 65536-entry reverse table the encoder looks code units up in. */
module Sbcs {
  import opened Base

  /** The codec options: the `chars` table, when present, and the codec's name for messages. */
  datatype Options = Options(chars: Option<seq<Unit>>, name: string)

  datatype CodecError =
    | NoData                 // the constructor got no options at all
    | BadChars(name: string) // `chars` missing, empty, or of a length other than 128 and 256

  /** A constructed codec: the full 256-entry `chars` table and the reverse table. */
  datatype Codec = Codec(chars: seq<Unit>, encodeTable: seq<Byte>)

  const ENCODE_TABLE_SIZE: nat := 0x1_0000

  /** The byte `iconv.defaultCharSingleByte.charCodeAt(0)` stores in a `Uint8Array`: its low
      byte, or 0 when the string is empty (`NaN` is stored as 0). */
  function DefaultByte(defaultCharSingleByte: seq<Unit>): (b: Byte)
    ensures |defaultCharSingleByte| > 0 && defaultCharSingleByte[0] < 0x100 ==> b == defaultCharSingleByte[0]
  {
    if |defaultCharSingleByte| == 0 then 0 else LowByte(defaultCharSingleByte[0])
  }

  /** Code units 0..127 in order, the prefix a 128-entry table is completed with. */
  function AsciiPrefix(): (s: seq<Unit>)
    ensures |s| == 128 && forall i :: 0 <= i < 128 ==> s[i] == i
  {
    seq(128, i requires 0 <= i < 128 => i)
  }

  /** The last index at which `u` occurs in `cs`, if any. */
  function LastIndexOf(cs: seq<Unit>, u: Unit): (r: Option<nat>)
    ensures r.None? <==> u !in cs
    ensures r.Some? ==> r.value < |cs| && cs[r.value] == u && forall j :: r.value < j < |cs| ==> cs[j] != u
    decreases |cs|
  {
    if |cs| == 0 then None
    else if cs[|cs| - 1] == u then Some(|cs| - 1)
    else LastIndexOf(cs[..|cs| - 1], u)
  }

  /** What the reverse table holds for `u`: the last index of `u` in `chars`, or the default byte
      for a code unit the table does not contain. */
  function EncodedByte(chars: seq<Unit>, def: Byte, u: Unit): (b: Byte)
    requires |chars| <= 0x100
    ensures u in chars ==> b < |chars| && chars[b] == u && forall j :: b < j < |chars| ==> chars[j] != u
    ensures u !in chars ==> b == def
  {
    match LastIndexOf(chars, u)
    case Some(i) => i
    case None => def
  }

  /** The two loops of the constructor that build the reverse table: fill every entry with the
      default byte, then store `i` at `chars[i]` for every `i` in order. */
  method BuildEncodeTable(chars: seq<Unit>, def: Byte) returns (table: seq<Byte>)
    requires |chars| <= 0x100
    ensures |table| == ENCODE_TABLE_SIZE
    ensures forall u: Unit :: table[u] == EncodedByte(chars, def, u)
  {
    table := seq(ENCODE_TABLE_SIZE, _ => def);
    var i := 0;
    while i < |chars|
      invariant 0 <= i <= |chars|
      invariant |table| == ENCODE_TABLE_SIZE
      invariant forall u: Unit :: table[u] == EncodedByte(chars[..i], def, u)
    {
      assert chars[..i + 1][..i] == chars[..i];
      table := table[chars[i] := i];
      i := i + 1;
    }
    assert chars[..i] == chars;
  }

  /** The `SBCSCodec` constructor. It fails without options, and when `chars` is missing or is
      neither 128 nor 256 units long; a 128-unit table is completed with the ASCII units 0..127
      in front. */
  method NewCodec(options: Option<Options>, defaultCharSingleByte: seq<Unit>)
    returns (r: Result<Codec, CodecError>)
    ensures options.None? ==> r == Err(NoData)
    ensures options.Some? ==>
              var chars := options.value.chars;
              && (chars.None? || |chars.value| !in {128, 256} ==> r == Err(BadChars(options.value.name)))
              && (chars.Some? && |chars.value| == 256 ==> r.Ok? && r.value.chars == chars.value)
              && (chars.Some? && |chars.value| == 128 ==> r.Ok? && r.value.chars == AsciiPrefix() + chars.value)
    ensures r.Ok? ==> |r.value.chars| == 256 && |r.value.encodeTable| == ENCODE_TABLE_SIZE
    ensures r.Ok? ==> forall u: Unit ::
              r.value.encodeTable[u] == EncodedByte(r.value.chars, DefaultByte(defaultCharSingleByte), u)
  {
    if options.None? {
      return Err(NoData);
    }
    var opts := options.value;
    if opts.chars.None? || (|opts.chars.value| != 128 && |opts.chars.value| != 256) {
      return Err(BadChars(opts.name));
    }
    var chars := opts.chars.value;
    if |chars| == 128 {
      chars := AsciiPrefix() + chars;
    }
    var table := BuildEncodeTable(chars, DefaultByte(defaultCharSingleByte));
    return Ok(Codec(chars, table));
  }

  /** `SBCSEncoder.write`: one byte per code unit, looked up in the reverse table. */
  function EncoderWrite(c: Codec, str: seq<Unit>): (b: seq<Byte>)
    requires |c.encodeTable| == ENCODE_TABLE_SIZE
    ensures |b| == |str|
    decreases |str|
  {
    if |str| == 0 then [] else [c.encodeTable[str[0]]] + EncoderWrite(c, str[1..])
  }

  /** `SBCSEncoder.end()` produces nothing. */
  function EncoderEnd(c: Codec): (b: seq<Byte>)
    ensures |b| == 0
  {
    []
  }

  /** Byte `i` of the output encodes unit `i` of the input, as the reverse table says: the last
      position of the unit in `chars`, or the default byte. */
  lemma {:induction false} EncoderWriteBytes(c: Codec, def: Byte, str: seq<Unit>)
    requires |c.chars| <= 0x100 && |c.encodeTable| == ENCODE_TABLE_SIZE
    requires forall u: Unit :: c.encodeTable[u] == EncodedByte(c.chars, def, u)
    ensures var b := EncoderWrite(c, str);
            forall i :: 0 <= i < |str| ==> b[i] == EncodedByte(c.chars, def, str[i])
    decreases |str|
  {
    if |str| > 0 {
      EncoderWriteBytes(c, def, str[1..]);
      var b := EncoderWrite(c, str);
      assert forall i :: 1 <= i < |str| ==> b[i] == EncoderWrite(c, str[1..])[i - 1] && str[i] == str[1..][i - 1];
    }
  }

  /** Every unit the table contains survives a round trip through the table: reading the
      encoded byte back in `chars` gives the unit again. */
  lemma EncodeThenLookUp(c: Codec, def: Byte, str: seq<Unit>)
    requires |c.chars| <= 0x100 && |c.encodeTable| == ENCODE_TABLE_SIZE
    requires forall u: Unit :: c.encodeTable[u] == EncodedByte(c.chars, def, u)
    requires forall i :: 0 <= i < |str| ==> str[i] in c.chars
    ensures var b := EncoderWrite(c, str);
            forall i :: 0 <= i < |str| ==> b[i] < |c.chars| && c.chars[b[i]] == str[i]
  {
    EncoderWriteBytes(c, def, str);
  }

  /** Units absent from `chars` become the default byte. */
  lemma UnmappedUnitsGetTheDefault(c: Codec, def: Byte, str: seq<Unit>)
    requires |c.chars| <= 0x100 && |c.encodeTable| == ENCODE_TABLE_SIZE
    requires forall u: Unit :: c.encodeTable[u] == EncodedByte(c.chars, def, u)
    ensures var b := EncoderWrite(c, str);
            forall i :: 0 <= i < |str| && str[i] !in c.chars ==> b[i] == def
  {
    EncoderWriteBytes(c, def, str);
  }

  /** With a 128-unit table, an ASCII unit encodes to itself unless the upper half also holds it,
      in which case the later (upper-half) position wins. */
  lemma AsciiEncodesToItself(upper: seq<Unit>, def: Byte, u: Unit)
    requires |upper| == 128 && u < 128
    ensures u !in upper ==> EncodedByte(AsciiPrefix() + upper, def, u) == u
    ensures u in upper ==> EncodedByte(AsciiPrefix() + upper, def, u) >= 128
  {
    var chars := AsciiPrefix() + upper;
    assert chars[u] == u;
    if u !in upper {
      assert forall j :: 128 <= j < 256 ==> chars[j] == upper[j - 128];
    } else {
      var k :| 0 <= k < 128 && upper[k] == u;
      assert chars[128 + k] == u;
    }
  }
}
