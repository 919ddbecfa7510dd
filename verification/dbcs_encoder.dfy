/** The streaming encoder of `encodings/dbcs-codec.js` (`DBCSEncoder`): UTF-16 code units in,
    bytes out. It pairs surrogates, follows multi-character sequences through the sequence
    trees, looks single characters up in the encode table, and falls back to the four-byte
    GB18030 ranges. Its state between calls is a pending lead surrogate and a pending sequence
    tree. */
module DbcsEncoder {
  import opened Base
  import opened DbcsTables
  import opened DbcsTrie
  import opened DbcsEncodeTable
  import opened Gb18030
  import opened Util
  import opened DbcsCodec

  /** `leadSurrogate` (-1 is `None`) and `seqObj` (`undefined` is `None`). */
  datatype EncState = EncState(lead: Option<Unit>, pending: Option<SeqTree>)

  function Clean(): EncState { EncState(None, None) }

  /** The state and the bytes a call leaves behind. */
  datatype Encoded = Encoded(state: EncState, bytes: seq<Byte>)

  /** The number of pending items; every replayed character leaves one fewer. */
  function Rank(st: EncState): nat {
    (if st.lead.Some? then 1 else 0) + (if st.pending.Some? then 1 else 0)
  }

  predicate IsSurrogate(u: int) { 0xD800 <= u < 0xE000 }

  // ---------------------------------------------------------------------------
  // Output widths

  /** The big-endian value of a byte string. */
  function BigEndian(bs: seq<Byte>): nat
    decreases |bs|
  {
    if |bs| == 0 then 0 else BigEndian(bs[..|bs| - 1]) * 0x100 + bs[|bs| - 1]
  }

  /** The bytes written for a code in step 3 of `write`: one byte below 0x100, two below
      0x10000 and three otherwise, high byte first. An undefined code (a missing single-byte
      default) fails every comparison and lands in the three-byte branch, where its shifts all
      give 0. */
  function CodeBytes(code: Option<int>): (bs: seq<Byte>)
    ensures code.None? ==> bs == [0, 0, 0]
    ensures code.Some? ==> |bs| == if code.value < 0x100 then 1 else if code.value < 0x1_0000 then 2 else 3
    ensures code.Some? && 0 <= code.value < 0x100_0000 ==> BigEndian(bs) == code.value
  {
    match code
    case None => [0, 0, 0]
    case Some(d) =>
      if d < 0x100 then
        assert [LowByte(d)][..0] == [];
        [LowByte(d)]
      else if d < 0x1_0000 then
        BigEndianPair(LowByte(Sar8(d)), LowByte(d));
        assert d == (d / 0x100) * 0x100 + d % 0x100;
        [LowByte(Sar8(d)), LowByte(d)]
      else
        BigEndianTriple(LowByte(Sar16(d)), LowByte(Sar8(d)), LowByte(d));
        assert d < 0x100_0000 ==> d == (d / 0x1_0000) * 0x1_0000 + ((d / 0x100) % 0x100) * 0x100 + d % 0x100;
        [LowByte(Sar16(d)), LowByte(Sar8(d)), LowByte(d)]
  }

  lemma BigEndianPair(hi: Byte, lo: Byte)
    ensures BigEndian([hi, lo]) == hi * 0x100 + lo
  {
    assert [hi][..0] == [];
    assert BigEndian([hi]) == hi;
    assert [hi, lo][..1] == [hi];
  }

  lemma BigEndianTriple(b0: Byte, b1: Byte, b2: Byte)
    ensures BigEndian([b0, b1, b2]) == b0 * 0x1_0000 + b1 * 0x100 + b2
  {
    assert [b0, b1, b2][..2] == [b0, b1];
    BigEndianPair(b0, b1);
  }

  /** What `dbcsCode` turns into: UNASSIGNED writes the single-byte default. */
  function Emit(c: Codec, v: int): seq<Byte> {
    CodeBytes(if v == UNASSIGNED then c.defCharSB else Some(v))
  }

  /** The bytes of the single-byte default. */
  function DefaultBytes(c: Codec): seq<Byte> {
    CodeBytes(c.defCharSB)
  }

  // ---------------------------------------------------------------------------
  // One pass of the loop

  /** Step 1 of the loop: a lead surrogate is held (or, after another lead, replaces it and
      yields UNASSIGNED), a trail surrogate completes a held lead (or alone yields UNASSIGNED),
      and any other character after a held lead yields UNASSIGNED and is replayed. */
  datatype Paired = Held(held: Unit) | Ready(code: int, lead: Option<Unit>, next: Option<int>)

  function PairSurrogates(lead: Option<Unit>, u: int): (p: Paired)
    requires lead.Some? ==> IsLead(lead.value)
    ensures p.Ready? && p.code != UNASSIGNED ==> p.lead.None? && p.next.None?
    ensures p.Ready? && p.next.Some? ==> lead.Some? && p.lead.None? && p.next.value == u
  {
    if IsSurrogate(u) then
      if u < 0xDC00 then
        if lead.None? then Held(u) else Ready(UNASSIGNED, Some(u), None)
      else if lead.Some? then Ready(PairCode(lead.value, u), None, None)
      else Ready(UNASSIGNED, None, None)
    else if lead.Some? then Ready(UNASSIGNED, None, Some(u))
    else Ready(u, None, None)
  }

  /** What one pass of the loop leaves: the state, the bytes written and the character to
      replay (`nextChar`), if any. */
  datatype Pass = Pass(state: EncState, out: seq<Byte>, next: Option<int>)

  predicate ValidState(st: EncState) {
    st.lead.Some? ==> IsLead(st.lead.value)
  }

  /** One pass of the loop of `write` on character `u`: step 1, then step 2 (sequence
      matching, table lookup, GB18030 fallback), then step 3 (writing `dbcsCode`). */
  function Iterate(c: Codec, st: EncState, u: int): (r: Pass)
    requires ValidTable(c.encodeTable) && ValidState(st)
    ensures ValidState(r.state)
    ensures r.next.Some? ==> Rank(r.state) < Rank(st)
  {
    match PairSurrogates(st.lead, u)
    case Held(l) => Pass(EncState(Some(l), st.pending), [], None)
    case Ready(code, lead, next) =>
      if st.pending.Some? && code != UNASSIGNED then
        var tree := st.pending.value;
        if code in tree.children then
          match tree.children[code]
          case Child(sub) => Pass(EncState(lead, Some(sub)), [], next)
          case Leaf(v) => Pass(EncState(lead, None), Emit(c, v), next)
        else if tree.def.Some? then Pass(EncState(lead, None), Emit(c, tree.def.value), Some(code))
        else Pass(EncState(lead, None), Emit(c, UNASSIGNED), next)
      else if code >= 0 then
        var v := Lookup(c.encodeTable, code);
        if v <= SEQ_START then
          var k := SEQ_START - v;
          var tree := if k < |c.encodeTable.seqs| then Some(c.encodeTable.seqs[k]) else None;
          Pass(EncState(lead, tree), [], next)
        else if v == UNASSIGNED && c.gb18030.Some? && EncodePointer(c.gb18030.value, code).Some? then
          Pass(EncState(lead, st.pending), PointerBytes(EncodePointer(c.gb18030.value, code).value), next)
        else Pass(EncState(lead, st.pending), Emit(c, v), next)
      else Pass(EncState(lead, st.pending), Emit(c, UNASSIGNED), next)
  }

  /** Character `u` with all the passes it causes: the replayed character, if any, runs
      through the loop again, before the next input character. */
  function Feed(c: Codec, st: EncState, u: int): (e: Encoded)
    requires ValidTable(c.encodeTable) && ValidState(st)
    ensures ValidState(e.state)
    decreases Rank(st)
  {
    var p := Iterate(c, st, u);
    match p.next
    case None => Encoded(p.state, p.out)
    case Some(n) =>
      var e := Feed(c, p.state, n);
      Encoded(e.state, p.out + e.bytes)
  }

  /** `write(str)`, with the output as a growable sequence: the characters in order. */
  function Write(c: Codec, st: EncState, str: seq<int>): (e: Encoded)
    requires ValidTable(c.encodeTable) && ValidState(st)
    ensures ValidState(e.state)
    decreases |str|
  {
    if |str| == 0 then Encoded(st, [])
    else
      var a := Feed(c, st, str[0]);
      var b := Write(c, a.state, str[1..]);
      Encoded(b.state, a.bytes + b.bytes)
  }

  /** Splitting the input anywhere gives the same bytes and the same final state: the
      encoder streams. */
  lemma {:induction false} WriteAppend(c: Codec, st: EncState, x: seq<int>, y: seq<int>)
    requires ValidTable(c.encodeTable) && ValidState(st)
    ensures var a := Write(c, st, x);
            var b := Write(c, a.state, y);
            Write(c, st, x + y) == Encoded(b.state, a.bytes + b.bytes)
    decreases |x|
  {
    if |x| == 0 {
      assert x + y == y;
    } else {
      var f := Feed(c, st, x[0]);
      var a := Write(c, f.state, x[1..]);
      var b := Write(c, a.state, y);
      assert Write(c, st, x) == Encoded(a.state, f.bytes + a.bytes);
      WriteAppend(c, f.state, x[1..], y);
      var rest := Write(c, f.state, x[1..] + y);
      assert rest == Encoded(b.state, a.bytes + b.bytes);
      assert (x + y)[0] == x[0] && (x + y)[1..] == x[1..] + y;
      assert Write(c, st, x + y) == Encoded(rest.state, f.bytes + rest.bytes);
      AppendAssoc(f.bytes, a.bytes, b.bytes);
    }
  }

  // ---------------------------------------------------------------------------
  // The loop of `write`, as the source runs it

  /** The rest of a call from inside the loop: the character waiting in `nextChar`, if any,
      then the unread input. */
  function Resume(c: Codec, st: EncState, next: Option<int>, rest: seq<int>): Encoded
    requires ValidTable(c.encodeTable) && ValidState(st)
  {
    match next
    case None => Write(c, st, rest)
    case Some(n) =>
      var a := Feed(c, st, n);
      var b := Write(c, a.state, rest);
      Encoded(b.state, a.bytes + b.bytes)
  }

  lemma ResumeStep(c: Codec, st: EncState, u: int, rest: seq<int>)
    requires ValidTable(c.encodeTable) && ValidState(st)
    ensures var p := Iterate(c, st, u);
            var r := Resume(c, p.state, p.next, rest);
            Resume(c, st, Some(u), rest) == Encoded(r.state, p.out + r.bytes)
  {
    var p := Iterate(c, st, u);
    if p.next.Some? {
      var e := Feed(c, p.state, p.next.value);
      var b := Write(c, e.state, rest);
      AppendAssoc(p.out, e.bytes, b.bytes);
    }
  }

  /** The loop of `DBCSEncoder.write`: each turn takes `nextChar` if set, otherwise the next
      input character, and runs one pass; the loop ends when nothing is waiting and the input
      is used up. The result is `Write`. */
  method EncodeLoop(c: Codec, st: EncState, str: seq<int>) returns (e: Encoded)
    requires ValidTable(c.encodeTable) && ValidState(st)
    ensures e == Write(c, st, str)
  {
    var cur := st;
    var out: seq<Byte> := [];
    var next: Option<int> := None;
    var i := 0;
    while true
      invariant 0 <= i <= |str| && ValidState(cur)
      invariant var r := Resume(c, cur, next, str[i..]);
                Write(c, st, str) == Encoded(r.state, out + r.bytes)
      decreases |str| - i, if next.Some? then 3 + Rank(cur) else Rank(cur)
    {
      var u: int;
      if next.None? {
        if i == |str| {
          break;
        }
        u := str[i];
        assert str[i..][0] == u && str[i..][1..] == str[i + 1..];
        i := i + 1;
      } else {
        u := next.value;
      }
      ResumeStep(c, cur, u, str[i..]);
      var p := Iterate(c, cur, u);
      AppendAssoc(out, p.out, Resume(c, p.state, p.next, str[i..]).bytes);
      cur := p.state;
      out := out + p.out;
      next := p.next;
    }
    assert str[i..] == [];
    e := Encoded(cur, out);
  }

  // ---------------------------------------------------------------------------
  // end()

  /** `end()`: a pending sequence writes its DEF_CHAR (one byte below 0x100, otherwise the two
      low bytes), a pending lead surrogate writes the single-byte default as one byte (0 when
      there is none), and all state is cleared. */
  function End(c: Codec, st: EncState): (e: Encoded)
    ensures e.state == Clean()
    ensures Rank(st) == 0 ==> e.bytes == []
    ensures |e.bytes| <= 3
  {
    var fromSeq :=
      if st.pending.Some? && st.pending.value.def.Some? then
        var d := st.pending.value.def.value;
        if d < 0x100 then [LowByte(d)] else [LowByte(Sar8(d)), LowByte(d)]
      else [];
    var fromLead :=
      if st.lead.Some? then [if c.defCharSB.Some? then LowByte(c.defCharSB.value) else 0] else [];
    Encoded(Clean(), fromSeq + fromLead)
  }

  /** A second `end()` writes nothing. */
  lemma EndIsIdempotent(c: Codec, st: EncState)
    ensures End(c, End(c, st).state) == Encoded(Clean(), [])
  {
  }

  /** `end()` with only a lead surrogate pending writes exactly one default byte. */
  lemma EndAfterLead(c: Codec, lead: Unit)
    ensures var e := End(c, EncState(Some(lead), None));
            |e.bytes| == 1 && (c.defCharSB.Some? ==> e.bytes == [LowByte(c.defCharSB.value)])
  {
  }

  /** `end()` with only a sequence pending writes its DEF_CHAR, if any, high byte first, in one
      or two bytes. */
  lemma EndAfterSequence(c: Codec, tree: SeqTree)
    ensures var e := End(c, EncState(None, Some(tree)));
            && (tree.def.None? ==> e.bytes == [])
            && (tree.def.Some? && 0 <= tree.def.value < 0x1_0000 ==>
                  |e.bytes| == (if tree.def.value < 0x100 then 1 else 2) && BigEndian(e.bytes) == tree.def.value)
  {
    var e := End(c, EncState(None, Some(tree)));
    if tree.def.Some? && 0 <= tree.def.value < 0x1_0000 {
      var d := tree.def.value;
      if d < 0x100 {
        assert e.bytes == [d] && [d][..0] == [];
      } else {
        assert e.bytes == [d / 0x100, d % 0x100];
        BigEndianPair(d / 0x100, d % 0x100);
      }
    }
  }

  // ---------------------------------------------------------------------------
  // Surrogates

  /** A lead surrogate followed by a trail surrogate encodes like the astral code point they
      stand for. */
  lemma PairIsOneCode(c: Codec, pending: Option<SeqTree>, hi: Unit, lo: Unit)
    requires ValidTable(c.encodeTable)
    requires IsLead(hi) && IsTrail(lo)
    ensures Write(c, EncState(None, pending), [hi, lo]) == Feed(c, EncState(None, pending), PairCode(hi, lo))
  {
    var st := EncState(None, pending);
    assert Feed(c, st, hi) == Encoded(EncState(Some(hi), pending), []);
    assert [hi, lo][1..] == [lo] && [lo][1..] == [];
    assert Iterate(c, EncState(Some(hi), pending), lo) == Iterate(c, st, PairCode(hi, lo));
    var e := Feed(c, st, PairCode(hi, lo));
    assert Feed(c, EncState(Some(hi), pending), lo) == e;
    assert Write(c, EncState(Some(hi), pending), [lo]) == Encoded(e.state, e.bytes + []);
    assert [] + (e.bytes + []) == e.bytes;
  }

  /** A trail surrogate with no lead before it writes the single-byte default; the pending
      sequence, if any, stays. */
  lemma LoneTrail(c: Codec, pending: Option<SeqTree>, lo: Unit)
    requires ValidTable(c.encodeTable) && IsTrail(lo)
    ensures Feed(c, EncState(None, pending), lo) == Encoded(EncState(None, pending), DefaultBytes(c))
  {
  }

  /** A second lead surrogate writes the single-byte default and becomes the pending lead. */
  lemma SecondLead(c: Codec, pending: Option<SeqTree>, hi1: Unit, hi2: Unit)
    requires ValidTable(c.encodeTable) && IsLead(hi1) && IsLead(hi2)
    ensures Feed(c, EncState(Some(hi1), pending), hi2) == Encoded(EncState(Some(hi2), pending), DefaultBytes(c))
  {
  }

  /** Any other character after a lead surrogate writes the single-byte default and then
      encodes as if no lead had been there. */
  lemma CharAfterLead(c: Codec, pending: Option<SeqTree>, hi: Unit, u: int)
    requires ValidTable(c.encodeTable) && IsLead(hi) && !IsSurrogate(u)
    ensures var e := Feed(c, EncState(None, pending), u);
            Feed(c, EncState(Some(hi), pending), u) == Encoded(e.state, DefaultBytes(c) + e.bytes)
  {
  }

  // ---------------------------------------------------------------------------
  // Sequences

  /** With a sequence pending, a character that reaches a leaf writes the leaf's code and ends
      the sequence. */
  lemma LeafMatched(c: Codec, tree: SeqTree, u: int, code: int)
    requires ValidTable(c.encodeTable) && !IsSurrogate(u) && u >= 0
    requires u in tree.children && tree.children[u] == Leaf(code) && code != UNASSIGNED
    ensures Feed(c, EncState(None, Some(tree)), u) == Encoded(Clean(), CodeBytes(Some(code)))
  {
  }

  /** A character with no entry in the pending tree writes the tree's DEF_CHAR and is then
      encoded afresh against the encode table. */
  lemma UnmatchedUsesDef(c: Codec, tree: SeqTree, u: int)
    requires ValidTable(c.encodeTable) && !IsSurrogate(u) && u >= 0
    requires u !in tree.children && tree.def.Some?
    ensures var e := Feed(c, Clean(), u);
            Feed(c, EncState(None, Some(tree)), u) == Encoded(e.state, Emit(c, tree.def.value) + e.bytes)
  {
  }

  /** Without a DEF_CHAR the pending sequence is dropped, the single-byte default is written,
      and the character itself is consumed. */
  lemma UnmatchedWithoutDef(c: Codec, tree: SeqTree, u: int)
    requires ValidTable(c.encodeTable) && !IsSurrogate(u) && u >= 0
    requires u !in tree.children && tree.def.None?
    ensures Feed(c, EncState(None, Some(tree)), u) == Encoded(Clean(), DefaultBytes(c))
  {
  }

  /** A two-character sequence stored in the encode table (the first character's slot names a
      tree with a leaf under the second) encodes to the leaf's code. */
  lemma SequenceEncodes(c: Codec, u0: int, u1: int, code: int)
    requires ValidTable(c.encodeTable) && !IsSurrogate(u0) && !IsSurrogate(u1) && u0 >= 0 && u1 >= 0
    requires var v := Lookup(c.encodeTable, u0);
             && v <= SEQ_START && SEQ_START - v < |c.encodeTable.seqs|
             && Walk(c.encodeTable.seqs[SEQ_START - v], [u1]) == Some(Leaf(code))
    requires code != UNASSIGNED
    ensures Write(c, Clean(), [u0, u1]) == Encoded(Clean(), CodeBytes(Some(code)))
  {
    var tree := c.encodeTable.seqs[SEQ_START - Lookup(c.encodeTable, u0)];
    assert Feed(c, Clean(), u0) == Encoded(EncState(None, Some(tree)), []);
    assert u1 in tree.children && tree.children[u1] == Leaf(code);
    LeafMatched(c, tree, u1, code);
    var bs := CodeBytes(Some(code));
    assert Write(c, EncState(None, Some(tree)), [u1]) == Encoded(Clean(), bs + []) by {
      assert [u1][1..] == [];
    }
    assert [] + (bs + []) == bs;
    assert [u0, u1][1..] == [u1] && [u1][1..] == [];
  }

  // ---------------------------------------------------------------------------
  // Single characters

  /** A character the encode table maps to a code encodes to that code's bytes. */
  lemma DirectCode(c: Codec, u: int)
    requires ValidTable(c.encodeTable) && !IsSurrogate(u) && u >= 0
    requires Lookup(c.encodeTable, u) >= 0
    ensures Feed(c, Clean(), u) == Encoded(Clean(), CodeBytes(Some(Lookup(c.encodeTable, u))))
  {
  }

  /** A character the table leaves UNASSIGNED but the GB18030 ranges cover encodes to four
      bytes in the four-byte ranges, which the decoder's formula and range lookup turn back into
      the character. */
  lemma Gb18030Fallback(c: Codec, u: int)
    requires ValidTable(c.encodeTable) && !IsSurrogate(u) && u >= 0
    requires Lookup(c.encodeTable, u) == UNASSIGNED && c.gb18030.Some? && Consistent(c.gb18030.value)
    requires EncodePointer(c.gb18030.value, u).Some?
    requires var p := EncodePointer(c.gb18030.value, u).value; p.Some? && 0 <= p.value < POINTER_LIMIT
    ensures var e := Feed(c, Clean(), u);
            && e.state == Clean() && |e.bytes| == 4
            && IsLeadByte(e.bytes[0]) && IsDigitByte(e.bytes[1]) && IsLeadByte(e.bytes[2]) && IsDigitByte(e.bytes[3])
            && DecodePointer(c.gb18030.value, TokenPointer(e.bytes)) == Some(u)
  {
    var p := EncodePointer(c.gb18030.value, u).value;
    PointerRoundTrip(p.value);
    RangesRoundTrip(c.gb18030.value, u);
  }

  // ---------------------------------------------------------------------------
  // The output buffer

  /** `write` as written: the output buffer holds 3 bytes per input character (4 with GB18030)
      and a `Uint8Array` ignores stores past its end, so the result is cut to that size. */
  function WriteAsWritten(c: Codec, st: EncState, str: seq<int>): (e: Encoded)
    requires ValidTable(c.encodeTable) && ValidState(st)
    ensures var full := Write(c, st, str);
            e.state == full.state && e.bytes <= full.bytes
            && |e.bytes| == Min(|full.bytes|, |str| * if c.gb18030.Some? then 4 else 3)
  {
    var full := Write(c, st, str);
    var cap := |str| * if c.gb18030.Some? then 4 else 3;
    Encoded(full.state, full.bytes[..Min(|full.bytes|, cap)])
  }

  /** A codec mapping 'A' to the three-byte code 0x8FA1A1 (the shape of EUC-JP's JIS X 0212
      plane), with '?' as the single-byte default. */
  function WideCodeCodec(): (c: Codec)
    ensures ValidTable(c.encodeTable)
  {
    var bucket := seq(NODE_SIZE, b => if b == 0x41 then 0x8F_A1A1 else if b == 0x3F then 0x3F else UNASSIGNED);
    Codec(EmptyTrie(), EncodeTable(map[0 := bucket], []), Some(0x3F), [0xFFFD], None)
  }

  /** A lead surrogate left pending by one call, then a call with one character of a
      three-byte code: the loop writes the default byte and the three code bytes, four bytes in
      all, into a three-byte buffer, and the last byte is lost. */
  lemma LeadThenWideCode()
    ensures var c := WideCodeCodec();
            var st := EncState(Some(0xD800), None);
            && Write(c, st, [0x41]).bytes == [0x3F, 0x8F, 0xA1, 0xA1]
            && WriteAsWritten(c, st, [0x41]).bytes == [0x3F, 0x8F, 0xA1]
  {
    var c := WideCodeCodec();
    var st := EncState(Some(0xD800), None);
    assert Lookup(c.encodeTable, 0x41) == 0x8F_A1A1;
    assert Lookup(c.encodeTable, 0x3F) == 0x3F;
    assert CodeBytes(Some(0x8F_A1A1)) == [0x8F, 0xA1, 0xA1];
    assert Feed(c, Clean(), 0x41) == Encoded(Clean(), [0x8F, 0xA1, 0xA1]);
    CharAfterLead(c, None, 0xD800, 0x41);
    assert [0x41][1..] == [];
  }

  /** The growable output keeps every byte the loop writes: after a pending lead, the default
      byte and then the character's own bytes, whatever their number. */
  lemma LeadThenCharKeepsAllBytes(c: Codec, hi: Unit, u: int)
    requires ValidTable(c.encodeTable) && IsLead(hi) && !IsSurrogate(u)
    ensures var e := Feed(c, Clean(), u);
            Write(c, EncState(Some(hi), None), [u]).bytes == DefaultBytes(c) + e.bytes
  {
    CharAfterLead(c, None, hi, u);
    assert [u][1..] == [];
  }
}
