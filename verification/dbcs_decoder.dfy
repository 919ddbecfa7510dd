/** The streaming decoder of `encodings/dbcs-codec.js` (`DBCSDecoder`): bytes in, UTF-16 code
    units out. It walks the decode trie byte by byte from the root; a character, sequence or
    GB18030 slot ends a character, a node slot descends, and an UNASSIGNED slot writes the
    default character and starts again one byte after the first byte of the failed sequence.
    Bytes of a sequence still open at the end of a chunk are kept and read again with the next
    chunk. The chunks are joined by plain concatenation. */
module DbcsDecoder {
  import opened Base
  import opened DbcsTables
  import opened DbcsTrie
  import opened Gb18030
  import opened DbcsCodec
  import opened DbcsEncodeTable

  /** `nodeIdx` and `prevBuf`. */
  datatype DecState = DecState(node: nat, prev: seq<Byte>)

  function Fresh(): DecState { DecState(0, []) }

  /** The state and the code units a call leaves behind. */
  datatype Decoded = Decoded(state: DecState, units: seq<Unit>)

  /** What the decoder needs of a codec: a trie every slot of which it can act on. */
  predicate Ready(c: Codec) {
    Decodable(c.trie, c.gb18030.Some?)
  }

  predicate ValidState(c: Codec, st: DecState) {
    st.node < |c.trie.nodes|
  }

  // ---------------------------------------------------------------------------
  // Writing one character

  /** The code units written for a decoded code: a code above 0xFFFF as a lead and a trail
      surrogate, anything else as the unit its low 16 bits give, and `NaN` as unit 0. */
  function CodeUnits(code: Option<int>): (us: seq<Unit>)
    ensures code.None? ==> us == [0]
    ensures code.Some? && 0 <= code.value < 0x1_0000 ==> us == [code.value]
    ensures code.Some? && 0x1_0000 <= code.value < 0x11_0000 ==>
              |us| == 2 && IsLead(us[0]) && IsTrail(us[1]) && PairCode(us[0], us[1]) == code.value
  {
    match code
    case None => [0]
    case Some(x) =>
      if x > 0xFFFF then
        var y := x - 0x1_0000;
        [EmitUnit(0xD800 + y / 0x400), EmitUnit(0xDC00 + y % 0x400)]
      else [EmitUnit(x)]
  }

  /** Decoding a surrogate pair's code gives the pair back. */
  lemma SurrogatesRoundTrip(lead: Unit, trail: Unit)
    requires IsLead(lead) && IsTrail(trail)
    ensures CodeUnits(Some(PairCode(lead, trail))) == [lead, trail]
  {
    var y := PairCode(lead, trail) - 0x1_0000;
    assert y == (lead - 0xD800) * 0x400 + (trail - 0xDC00);
    TenBitSplit(y, lead - 0xD800, trail - 0xDC00);
  }

  /** Division by 0x400 takes apart what `q * 0x400 + r` put together. */
  lemma TenBitSplit(y: int, q: int, r: int)
    requires 0 <= r < 0x400 && y == q * 0x400 + r
    ensures y / 0x400 == q && y % 0x400 == r
  {
  }

  /** The units of a sequence slot. The source writes all but the last unit as they are and
      the last one as a code (`SeqUnitsAsWritten` is that reading); since a unit is below
      0x10000 this gives the sequence itself. An empty sequence reads its last unit as
      `undefined` and writes unit 0. */
  function SeqUnits(q: seq<Unit>): (us: seq<Unit>)
  {
    if |q| == 0 then [0] else q
  }

  /** The loop's literal reading of a sequence slot. */
  function SeqUnitsAsWritten(q: seq<Unit>): seq<Unit> {
    if |q| == 0 then CodeUnits(None) else q[..|q| - 1] + CodeUnits(Some(q[|q| - 1]))
  }

  lemma SeqUnitsAgree(q: seq<Unit>)
    ensures SeqUnitsAsWritten(q) == SeqUnits(q)
    ensures |q| > 0 ==> SeqUnits(q) == q
  {
    if |q| > 0 {
      assert q == q[..|q| - 1] + [q[|q| - 1]];
    }
  }

  /** `defaultCharUnicode.charCodeAt(0)`, `NaN` for an empty default. */
  function DefaultCode(c: Codec): Option<int> {
    if |c.defaultCharUnicode| == 0 then None else Some(c.defaultCharUnicode[0])
  }

  /** The units written for an UNASSIGNED slot: the first unit of the default character. */
  function DefaultUnits(c: Codec): (us: seq<Unit>)
    ensures |us| == 1
  {
    CodeUnits(DefaultCode(c))
  }

  // ---------------------------------------------------------------------------
  // Characters

  /** A character the loop finishes, before it is written: the code of a character slot, the
      pointer of a GB18030 token, a sequence slot, or the default character. */
  datatype Char = CodeChar(code: nat) | GbChar(pointer: Option<int>) | SeqChar(index: nat) | DefaultChar

  /** The code units a finished character is written as. A sequence index outside the table
      cannot come from a trie the decoder accepts and writes nothing, as does a GB18030
      token without the range table. */
  function CharUnits(c: Codec, ch: Char): seq<Unit> {
    match ch
    case CodeChar(x) => CodeUnits(Some(x))
    case GbChar(ptr) => if c.gb18030.Some? then CodeUnits(DecodePointer(c.gb18030.value, ptr)) else []
    case SeqChar(k) => if k < |c.trie.seqs| then SeqUnits(c.trie.seqs[k]) else []
    case DefaultChar => DefaultUnits(c)
  }

  /** The code units of the characters, in order. */
  function Render(c: Codec, chars: seq<Char>): seq<Unit> {
    if |chars| == 0 then [] else Render(c, chars[..|chars| - 1]) + CharUnits(c, chars[|chars| - 1])
  }

  lemma RenderOne(c: Codec, ch: Char)
    ensures Render(c, [ch]) == CharUnits(c, ch)
  {
    assert [ch][..0] == [];
  }

  /** Writing two runs of characters writes the units of the first, then of the second. */
  lemma {:induction false} RenderAppend(c: Codec, a: seq<Char>, b: seq<Char>)
    ensures Render(c, a + b) == Render(c, a) + Render(c, b)
    decreases |b|
  {
    if |b| == 0 {
      assert a + b == a;
    } else {
      var b' := b[..|b| - 1];
      assert (a + b)[..|a + b| - 1] == a + b';
      assert (a + b)[|a + b| - 1] == b[|b| - 1];
      RenderAppend(c, a, b');
      AppendAssoc(Render(c, a), Render(c, b'), CharUnits(c, b[|b| - 1]));
    }
  }

  // ---------------------------------------------------------------------------
  // The scan

  /** The pointer of the open sequence from `s` to `p`: its first four bytes count, and a
      sequence shorter than four bytes has none. */
  function PointerAt(data: seq<Byte>, s: nat, p: nat): Option<int>
    requires s <= p < |data|
  {
    if p - s < 3 then None else Some(PointerOf(data[s], data[s + 1], data[s + 2], data[s + 3]))
  }

  lemma PointerAtIsToken(data: seq<Byte>, s: nat, p: nat)
    requires s <= p < |data|
    ensures PointerAt(data, s, p) == TokenPointer(data[s..p + 1])
  {
    if p - s >= 3 {
      var token := data[s..p + 1];
      assert token[0] == data[s] && token[1] == data[s + 1] && token[2] == data[s + 2] && token[3] == data[s + 3];
    }
  }

  /** Where one round of the loop leaves the open sequence's start, the next byte and the
      node, and the character it finishes, if any. Positions are those of the data. */
  datatype Next = Next(start: nat, pos: nat, node: nat, done: Option<Char>)

  /** The characters of a round: none, or the one it finishes. */
  function Done(o: Option<Char>): seq<Char> {
    if o.Some? then [o.value] else []
  }

  /** One round of the loop on the byte at `p`, the open sequence starting at `s` and the walk
      being in `node`: a node slot descends, a character, sequence or GB18030 slot finishes a
      character and the next sequence starts after it, and an UNASSIGNED slot finishes the
      default character and starts again one byte after the sequence's first byte. */
  function Step(c: Codec, data: seq<Byte>, s: nat, p: nat, node: nat): (t: Next)
    requires Ready(c) && node < |c.trie.nodes| && s <= p < |data|
    ensures s <= t.start <= t.pos <= |data| && t.node < |c.trie.nodes|
    ensures (t.start == s && t.pos == p + 1 && t.done.None?) || (s < t.start && t.done.Some?)
  {
    assert DecodableSlot(c.trie, c.gb18030.Some?, node, data[p]);
    var stay := Next(s, p + 1, node, None);
    match SlotAt(c.trie, node, data[p])
    case Code(x) => Next(p + 1, p + 1, 0, Some(CodeChar(x)))
    case Unassigned => Next(s + 1, s + 1, 0, Some(DefaultChar))
    case Gb18030 => Next(p + 1, p + 1, 0, Some(GbChar(PointerAt(data, s, p))))
    case Node(k) => Next(s, p + 1, k, None)
    case Sequence(k) => Next(p + 1, p + 1, 0, Some(SeqChar(k)))
    case Invalid(_) => assert false; stay
  }

  /** The characters finished, where the sequence still open starts in the data, and the
      node the walk is in. */
  datatype Scanned = Scanned(chars: seq<Char>, start: nat, node: nat)

  function Prepend(cs: seq<Char>, r: Scanned): Scanned {
    Scanned(cs + r.chars, r.start, r.node)
  }

  lemma PrependPrepend(a: seq<Char>, b: seq<Char>, r: Scanned)
    ensures Prepend(a, Prepend(b, r)) == Prepend(a + b, r)
  {
    AppendAssoc(a, b, r.chars);
  }

  /** The decoding loop over the data from byte `p` on, with the open sequence starting at
      `s` and the walk in `node`. */
  function Scan(c: Codec, data: seq<Byte>, s: nat, p: nat, node: nat): (r: Scanned)
    requires Ready(c) && node < |c.trie.nodes| && s <= p <= |data|
    ensures s <= r.start <= |data| && r.node < |c.trie.nodes|
    decreases |data| - s, |data| - p, 1
  {
    if p == |data| then Scanned([], s, node) else Resume(c, data, s, p, Step(c, data, s, p, node))
  }

  /** The character a round from `s` and `p` finishes, if any, then the scan from where the
      round leaves the open sequence. */
  function Resume(c: Codec, data: seq<Byte>, s: nat, p: nat, t: Next): (r: Scanned)
    requires Ready(c) && t.node < |c.trie.nodes| && t.start <= t.pos <= |data|
    requires (t.start == s && t.pos == p + 1) || s < t.start
    ensures t.start <= r.start <= |data| && r.node < |c.trie.nodes|
    decreases |data| - s, |data| - p, 0
  {
    Prepend(Done(t.done), Scan(c, data, t.start, t.pos, t.node))
  }

  /** The open sequence's bytes as the source keeps them: when more of them than the chunk
      holds are kept, only those up to the chunk's tenth byte. */
  function Window(kept: seq<Byte>, buf: seq<Byte>): (w: seq<Byte>)
    ensures w <= kept
    ensures |kept| <= |buf| || |buf| <= 10 ==> w == kept
  {
    if |kept| <= |buf| then kept else kept[..|kept| - |buf| + Min(10, |buf|)]
  }

  /** `write(buf)`. The loop starts at the chunk's first byte in the node the kept bytes led to,
      with the current sequence starting at the first kept byte. The bytes of the sequence
      still open at the end are kept, cut by `Window`. */
  function Write(c: Codec, st: DecState, buf: seq<Byte>): (d: Decoded)
    requires Ready(c) && ValidState(c, st)
    ensures ValidState(c, d.state)
    ensures |d.state.prev| <= |st.prev| + |buf|
  {
    var data := st.prev + buf;
    var r := Scan(c, data, 0, |st.prev|, st.node);
    Decoded(DecState(r.node, Window(data[r.start..], buf)), Render(c, r.chars))
  }

  /** Whether the 10-byte window leaves the kept bytes whole: the open sequence started inside
      the chunk, or the chunk is at most 10 bytes long. */
  predicate KeepsAll(c: Codec, st: DecState, buf: seq<Byte>)
    requires Ready(c) && ValidState(c, st)
  {
    |buf| <= 10 || Scan(c, st.prev + buf, 0, |st.prev|, st.node).start >= |st.prev|
  }

  // ---------------------------------------------------------------------------
  // The loop of `write`, as the source runs it

  /** Only the first four bytes of a GB18030 token count, so cutting the token at the window
      changes nothing: a cut token still has more than four bytes. */
  lemma WindowedToken(data: seq<Byte>, kept: nat, s: nat, p: nat)
    requires s < kept <= |data| && s <= p < |data|
    ensures var window := data[..kept + Min(10, |data| - kept)];
            TokenPointer(window[s..Min(p + 1, |window|)]) == TokenPointer(data[s..p + 1])
  {
    var window := data[..kept + Min(10, |data| - kept)];
    var a := window[s..Min(p + 1, |window|)];
    var b := data[s..p + 1];
    if p + 1 <= |window| {
      assert a == b;
    } else {
      assert |a| >= 4 && |b| >= 4;
      assert a[0] == b[0] && a[1] == b[1] && a[2] == b[2] && a[3] == b[3];
    }
  }

  /** The byte at loop index `i`: a negative index reads `prevBuf`, the kept bytes joined with
      the chunk's first 10 bytes. */
  function ByteAt(prevBuf: seq<Byte>, buf: seq<Byte>, offset: nat, i: int): Byte
    requires 0 <= i + offset && i < |buf| && (i < 0 ==> i + offset < |prevBuf|)
  {
    if i >= 0 then buf[i] else prevBuf[i + offset]
  }

  /** The bytes of the open sequence as the GB18030 branch slices them. */
  function TokenAt(prevBuf: seq<Byte>, buf: seq<Byte>, offset: nat, seqStart: int, i: int): seq<Byte>
    requires 0 <= seqStart + offset && seqStart <= i < |buf| && (seqStart < 0 ==> seqStart + offset <= |prevBuf|)
  {
    if seqStart >= 0 then buf[seqStart..i + 1]
    else prevBuf[seqStart + offset..Min(i + 1 + offset, |prevBuf|)]
  }

  /** The loop's byte and GB18030 token are those of the joined data, up to the window. */
  lemma LoopBytes(prev: seq<Byte>, prevBuf: seq<Byte>, buf: seq<Byte>, seqStart: int, i: int)
    requires prevBuf == (if |prev| > 0 then prev + buf[..Min(10, |buf|)] else prev)
    requires -|prev| <= seqStart <= i < |buf|
    ensures i < 0 ==> i + |prev| < |prevBuf|
    ensures seqStart < 0 ==> seqStart + |prev| <= |prevBuf|
    ensures ByteAt(prevBuf, buf, |prev|, i) == (prev + buf)[i + |prev|]
    ensures TokenPointer(TokenAt(prevBuf, buf, |prev|, seqStart, i))
         == TokenPointer((prev + buf)[seqStart + |prev|..i + |prev| + 1])
  {
    var data := prev + buf;
    var offset := |prev|;
    var s: nat, p: nat := seqStart + offset, i + offset;
    if seqStart >= 0 {
      assert TokenAt(prevBuf, buf, offset, seqStart, i) == data[s..p + 1];
    } else {
      WindowedToken(data, offset, s, p);
      assert prevBuf == data[..offset + Min(10, |data| - offset)];
    }
  }

  /** What the loop reads at index `i` is the data's byte there and the pointer of the open
      sequence. */
  lemma RoundReads(data: seq<Byte>, prev: seq<Byte>, prevBuf: seq<Byte>, buf: seq<Byte>, seqStart: int, i: int)
    requires data == prev + buf && prevBuf == (if |prev| > 0 then prev + buf[..Min(10, |buf|)] else prev)
    requires -|prev| <= seqStart <= i < |buf|
    ensures i < 0 ==> i + |prev| < |prevBuf|
    ensures seqStart < 0 ==> seqStart + |prev| <= |prevBuf|
    ensures ByteAt(prevBuf, buf, |prev|, i) == data[i + |prev|]
    ensures TokenPointer(TokenAt(prevBuf, buf, |prev|, seqStart, i)) == PointerAt(data, seqStart + |prev|, i + |prev|)
  {
    LoopBytes(prev, prevBuf, buf, seqStart, i);
    PointerAtIsToken(data, seqStart + |prev|, i + |prev|);
  }

  /** The units a round writes: those of the character it finishes, if any. */
  function DoneUnits(c: Codec, o: Option<Char>): seq<Unit> {
    if o.Some? then CharUnits(c, o.value) else []
  }

  /** One round of the loop of `DBCSDecoder.write` on the byte at index `i`: the units it
      writes and where the index, the node and the sequence start go next, as `Step` says for
      the data the loop reads through `ByteAt` and `TokenAt`, `offset` above its indexes. */
  method Round(c: Codec, prevBuf: seq<Byte>, buf: seq<Byte>, offset: nat, node: nat, seqStart: int, i: int,
               ghost data: seq<Byte>, ghost s: nat, ghost p: nat)
    returns (units: seq<Unit>, node': nat, seqStart': int, i': int, ghost done: Option<Char>)
    requires Ready(c) && node < |c.trie.nodes|
    requires s == seqStart + offset && p == i + offset
    requires seqStart <= i < |buf| && i + offset < |data|
    requires i < 0 ==> i + offset < |prevBuf|
    requires seqStart < 0 ==> seqStart + offset <= |prevBuf|
    requires ByteAt(prevBuf, buf, offset, i) == data[i + offset]
    requires TokenPointer(TokenAt(prevBuf, buf, offset, seqStart, i)) == PointerAt(data, seqStart + offset, i + offset)
    ensures seqStart <= seqStart' <= i' <= |buf| && 0 <= seqStart' + offset
    ensures Step(c, data, s, p, node) == Next(seqStart' + offset, i' + offset, node', done)
    ensures units == DoneUnits(c, done)
  {
    var curByte := ByteAt(prevBuf, buf, offset, i);
    assert DecodableSlot(c.trie, c.gb18030.Some?, node, curByte);
    var v := c.trie.nodes[node][curByte];
    units, node', seqStart', i', done := [], 0, i + 1, i + 1, None;
    if v >= 0 {
      units := CodeUnits(Some(v));
      done := Some(CodeChar(v));
    } else if v == UNASSIGNED {
      units := DefaultUnits(c);
      seqStart', i', done := seqStart + 1, seqStart + 1, Some(DefaultChar);
    } else if v == GB18030_CODE {
      var curSeq := TokenAt(prevBuf, buf, offset, seqStart, i);
      units := CodeUnits(DecodePointer(c.gb18030.value, TokenPointer(curSeq)));
      done := Some(GbChar(PointerAt(data, seqStart + offset, i + offset)));
    } else if v <= NODE_START {
      node', seqStart' := NODE_START - v, seqStart;
    } else if v <= SEQ_START {
      units := SeqUnits(c.trie.seqs[SEQ_START - v]);
      done := Some(SeqChar(SEQ_START - v));
    } else {
      assert false;
    }
  }

  /** The loop's invariant: the characters finished so far, followed by those of the scan
      from the open sequence at `s` and the next byte at `p`, are those of the scan from the
      start, and the units written are those of the characters finished so far. */
  ghost predicate Progress(c: Codec, data: seq<Byte>, whole: Scanned, s: nat, p: nat, node: nat,
                           chars: seq<Char>, out: seq<Unit>)
  {
    && Ready(c) && node < |c.trie.nodes| && s <= p <= |data|
    && Prepend(chars, Scan(c, data, s, p, node)) == whole
    && out == Render(c, chars)
  }

  /** A round of the loop together with the units it appends to the output. The data
      positions `s` and `p` of the open sequence and the next byte are `|prev|` above the
      loop's indexes. */
  method Advance(c: Codec, ghost data: seq<Byte>, prev: seq<Byte>, prevBuf: seq<Byte>, buf: seq<Byte>,
                 ghost whole: Scanned, node: nat, seqStart: int, i: int, ghost s: nat, ghost p: nat,
                 ghost chars: seq<Char>, out: seq<Unit>)
    returns (node': nat, seqStart': int, i': int, ghost s': nat, ghost p': nat,
             ghost chars': seq<Char>, out': seq<Unit>)
    requires data == prev + buf && prevBuf == (if |prev| > 0 then prev + buf[..Min(10, |buf|)] else prev)
    requires s == seqStart + |prev| && p == i + |prev| && i < |buf|
    requires Progress(c, data, whole, s, p, node, chars, out)
    ensures s' == seqStart' + |prev| && p' == i' + |prev| && i' <= |buf|
    ensures Progress(c, data, whole, s', p', node', chars', out')
    ensures (seqStart' == seqStart && i' == i + 1) || seqStart < seqStart'
  {
    var units;
    ghost var done;
    RoundReads(data, prev, prevBuf, buf, seqStart, i);
    units, node', seqStart', i', done := Round(c, prevBuf, buf, |prev|, node, seqStart, i, data, s, p);
    s', p' := seqStart' + |prev|, i' + |prev|;
    ProgressStep(c, data, whole, s, p, node, chars, out, Next(s', p', node', done), units);
    out', chars' := out + units, chars + Done(done);
  }

  /** A round keeps the loop's invariant. */
  lemma ProgressStep(c: Codec, data: seq<Byte>, whole: Scanned, s: nat, p: nat, node: nat,
                     chars: seq<Char>, out: seq<Unit>, t: Next, units: seq<Unit>)
    requires Progress(c, data, whole, s, p, node, chars, out) && p < |data|
    requires Step(c, data, s, p, node) == t && units == DoneUnits(c, t.done)
    ensures Progress(c, data, whole, t.start, t.pos, t.node, chars + Done(t.done), out + units)
  {
    ScanStep(c, data, s, p, node, t);
    PrependPrepend(chars, Done(t.done), Scan(c, data, t.start, t.pos, t.node));
    RenderStep(c, chars, t.done);
  }

  /** The units of the characters so far, followed by those of a round, are the units of
      both. */
  lemma RenderStep(c: Codec, chars: seq<Char>, done: Option<Char>)
    ensures Render(c, chars) + DoneUnits(c, done) == Render(c, chars + Done(done))
  {
    RenderAppend(c, chars, Done(done));
    if done.Some? {
      RenderOne(c, done.value);
    }
  }

  /** The loop of `DBCSDecoder.write`: the index runs from 0 over the chunk, starting in the
      node the kept bytes led to with the sequence starting at the first kept byte; an
      UNASSIGNED slot sends the index back to the sequence start. The result is `Write`. */
  method DecodeLoop(c: Codec, st: DecState, buf: seq<Byte>) returns (d: Decoded)
    requires Ready(c) && ValidState(c, st)
    ensures d == Write(c, st, buf)
  {
    var offset := |st.prev|;
    var prevBuf := if offset > 0 then st.prev + buf[..Min(10, |buf|)] else st.prev;
    var node: nat := st.node;
    var seqStart: int := -offset;
    var out: seq<Unit> := [];
    var i: int := 0;
    ghost var data := st.prev + buf;
    ghost var whole := Scan(c, data, 0, offset, st.node);
    ghost var chars: seq<Char> := [];
    ghost var s: nat, p: nat := 0, offset;
    assert [] + whole.chars == whole.chars;
    while i < |buf|
      invariant s == seqStart + offset && p == i + offset && i <= |buf|
      invariant Progress(c, data, whole, s, p, node, chars, out)
      decreases |buf| - seqStart, |buf| - i
    {
      node, seqStart, i, s, p, chars, out := Advance(c, data, st.prev, prevBuf, buf, whole, node, seqStart, i, s, p, chars, out);
    }
    var kept := if seqStart >= 0 then buf[seqStart..] else prevBuf[seqStart + offset..];
    ProgressEnd(c, data, whole, s, p, node, chars, out);
    LoopExit(c, st, buf, prevBuf, chars, out, node, seqStart);
    d := Decoded(DecState(node, kept), out);
  }

  /** At the end of the data the loop has finished the characters of the scan and keeps the
      open sequence. */
  lemma ProgressEnd(c: Codec, data: seq<Byte>, whole: Scanned, s: nat, p: nat, node: nat,
                    chars: seq<Char>, out: seq<Unit>)
    requires Progress(c, data, whole, s, p, node, chars, out) && p == |data|
    ensures whole == Scanned(chars, s, node)
  {
    assert chars + [] == chars;
  }

  /** When the loop has run over the whole chunk, the units written, the node and the kept
      bytes are those of `Write`. */
  lemma LoopExit(c: Codec, st: DecState, buf: seq<Byte>, prevBuf: seq<Byte>, chars: seq<Char>, out: seq<Unit>,
                 node: nat, seqStart: int)
    requires Ready(c) && ValidState(c, st) && -|st.prev| <= seqStart <= |buf|
    requires prevBuf == (if |st.prev| > 0 then st.prev + buf[..Min(10, |buf|)] else st.prev)
    requires Scan(c, st.prev + buf, 0, |st.prev|, st.node) == Scanned(chars, seqStart + |st.prev|, node)
    requires out == Render(c, chars)
    ensures seqStart < 0 ==> seqStart + |st.prev| <= |prevBuf|
    ensures var kept := if seqStart >= 0 then buf[seqStart..] else prevBuf[seqStart + |st.prev|..];
            Decoded(DecState(node, kept), out) == Write(c, st, buf)
  {
    KeptBytes(st.prev, buf, prevBuf, seqStart);
  }

  /** The bytes the loop keeps are those of the joined data from the sequence start, cut by
      the window when the sequence started among the kept bytes. */
  lemma KeptBytes(prev: seq<Byte>, buf: seq<Byte>, prevBuf: seq<Byte>, seqStart: int)
    requires prevBuf == (if |prev| > 0 then prev + buf[..Min(10, |buf|)] else prev)
    requires -|prev| <= seqStart <= |buf|
    ensures seqStart < 0 ==> seqStart + |prev| <= |prevBuf|
    ensures var kept := if seqStart >= 0 then buf[seqStart..] else prevBuf[seqStart + |prev|..];
            kept == Window((prev + buf)[seqStart + |prev|..], buf)
  {
  }

  // ---------------------------------------------------------------------------
  // The output buffer

  /** `write` as written: the output buffer holds two bytes per input byte and a `Uint8Array`
      ignores stores past its end, so the result is cut to as many units as the chunk has
      bytes. */
  function WriteAsWritten(c: Codec, st: DecState, buf: seq<Byte>): (d: Decoded)
    requires Ready(c) && ValidState(c, st)
    ensures var full := Write(c, st, buf);
            && d.state == full.state && d.units <= full.units
            && |d.units| == Min(|full.units|, |buf|)
  {
    var full := Write(c, st, buf);
    Decoded(full.state, full.units[..Min(|full.units|, |buf|)])
  }

  /** A codec whose only character is byte 0x41, mapped to U+1F600 (a chunk `["41", "😀"]`). */
  function AstralByteCodec(): (c: Codec)
    ensures Ready(c)
  {
    var root := seq(NODE_SIZE, b => if b == 0x41 then 0x1_F600 else UNASSIGNED);
    var c := Codec(Trie([root], []), EmptyTable(), Some(0x3F), [0xFFFD], None);
    assert forall n, b :: 0 <= n < 1 && 0 <= b < NODE_SIZE ==> DecodableSlot(c.trie, false, n, b);
    c
  }

  /** One byte decoding to a character above U+FFFF: the loop writes its two surrogates into a
      buffer with room for one unit, and the trail surrogate is lost. */
  lemma AstralByteIsCut()
    ensures var c := AstralByteCodec();
            && Write(c, Fresh(), [0x41]).units == [0xD83D, 0xDE00]
            && WriteAsWritten(c, Fresh(), [0x41]).units == [0xD83D]
  {
    var c := AstralByteCodec();
    assert Write(c, Fresh(), [0x41]).units == [0xD83D, 0xDE00] by {
      assert SlotAt(c.trie, 0, 0x41) == Code(0x1_F600);
      assert Follow(c.trie, 0, []) == Some(0);
      CharacterDecodes(c, [], 0, 0x41, 0x1_F600);
      assert [] + [0x41 as Byte] == [0x41];
      assert PairCode(0xD83D, 0xDE00) == 0x1_F600;
      SurrogatesRoundTrip(0xD83D, 0xDE00);
    }
  }

  // ---------------------------------------------------------------------------
  // end()

  /** `end()`: while bytes are kept, write the whole default character, drop the first kept
      byte and decode the rest from the root as a chunk of its own; then reset the node. Each
      round keeps fewer bytes than the one before, so the loop ends. */
  function End(c: Codec, st: DecState): (d: Decoded)
    requires Ready(c)
    ensures d.state == Fresh()
    ensures |st.prev| == 0 ==> d.units == []
    ensures |st.prev| > 0 ==> c.defaultCharUnicode <= d.units
    decreases |st.prev|
  {
    if |st.prev| == 0 then Decoded(Fresh(), [])
    else
      var rest := st.prev[1..];
      var w := if |rest| > 0 then Write(c, Fresh(), rest) else Decoded(Fresh(), []);
      var e := End(c, w.state);
      Decoded(e.state, c.defaultCharUnicode + (w.units + e.units))
  }

  /** A second `end()` writes nothing. */
  lemma EndThenEnd(c: Codec, st: DecState)
    requires Ready(c)
    ensures End(c, End(c, st).state) == Decoded(Fresh(), [])
  {
  }

  /** A single kept byte ends as one default character. */
  lemma EndOfOneByte(c: Codec, node: nat, b: Byte)
    requires Ready(c)
    ensures End(c, DecState(node, [b])).units == c.defaultCharUnicode
  {
    assert [b][1..] == [];
  }

  // ---------------------------------------------------------------------------
  // Facts about the scan

  /** One round of the scan: the character the round finishes, if any, then the scan from
      where the round leaves the open sequence. */
  lemma ScanStep(c: Codec, data: seq<Byte>, s: nat, p: nat, node: nat, t: Next)
    requires Ready(c) && node < |c.trie.nodes| && s <= p < |data|
    requires Step(c, data, s, p, node) == t
    ensures t.start <= t.pos <= |data| && t.node < |c.trie.nodes|
    ensures Scan(c, data, s, p, node) == Prepend(Done(t.done), Scan(c, data, t.start, t.pos, t.node))
  {
  }

  /** Bytes that lead through node slots only add to the open sequence. */
  lemma {:induction false} WalkNodes(c: Codec, data: seq<Byte>, s: nat, p: nat, q: nat, node: nat, n: nat)
    requires Ready(c) && node < |c.trie.nodes| && s <= p <= q <= |data|
    requires Follow(c.trie, node, data[p..q]) == Some(n)
    ensures n < |c.trie.nodes|
    ensures Scan(c, data, s, p, node) == Scan(c, data, s, q, n)
    decreases q - p
  {
    if p == q {
      assert data[p..q] == [];
    } else {
      assert data[p..q][0] == data[p] && data[p..q][1..] == data[p + 1..q];
      var m := SlotAt(c.trie, node, data[p]).index;
      WalkNodes(c, data, s, p + 1, q, m, n);
    }
  }

  /** The scan's positions, moved `d` bytes on. */
  function Shift(r: Scanned, d: nat): Scanned {
    Scanned(r.chars, r.start + d, r.node)
  }

  /** A round on the second part of joined data is the round on that part alone, moved on by
      the length of the first part. */
  lemma StepSuffix(c: Codec, z: seq<Byte>, x: seq<Byte>, s: nat, p: nat, node: nat)
    requires Ready(c) && node < |c.trie.nodes| && s <= p < |x|
    ensures var u := Step(c, x, s, p, node);
            Step(c, z + x, |z| + s, |z| + p, node) == Next(|z| + u.start, |z| + u.pos, u.node, u.done)
  {
    var data := z + x;
    assert data[|z| + p] == x[p];
    if p - s >= 3 {
      assert data[|z| + s] == x[s] && data[|z| + s + 1] == x[s + 1];
      assert data[|z| + s + 2] == x[s + 2] && data[|z| + s + 3] == x[s + 3];
    }
  }

  /** Scanning the second part of joined data is scanning that part alone, with its positions
      moved on by the length of the first part. */
  lemma {:induction false} ScanSuffix(c: Codec, z: seq<Byte>, x: seq<Byte>, s: nat, p: nat, node: nat)
    requires Ready(c) && node < |c.trie.nodes| && s <= p <= |x|
    ensures Scan(c, z + x, |z| + s, |z| + p, node) == Shift(Scan(c, x, s, p, node), |z|)
    decreases |x| - s, |x| - p
  {
    if p < |x| {
      var u := Step(c, x, s, p, node);
      StepSuffix(c, z, x, s, p, node);
      ScanSuffix(c, z, x, u.start, u.pos, u.node);
    }
  }

  /** A round before the end of the first part of joined data is the round on that part. */
  lemma StepPrefix(c: Codec, x: seq<Byte>, y: seq<Byte>, s: nat, p: nat, node: nat)
    requires Ready(c) && node < |c.trie.nodes| && s <= p < |x|
    ensures Step(c, x + y, s, p, node) == Step(c, x, s, p, node)
  {
    var data := x + y;
    assert data[p] == x[p];
    if p - s >= 3 {
      assert data[s] == x[s] && data[s + 1] == x[s + 1] && data[s + 2] == x[s + 2] && data[s + 3] == x[s + 3];
    }
  }

  /** Scanning joined data does what the scan of the first part does, up to its end, and
      goes on from there. */
  lemma {:induction false} ScanPrefix(c: Codec, x: seq<Byte>, y: seq<Byte>, s: nat, p: nat, node: nat)
    requires Ready(c) && node < |c.trie.nodes| && s <= p <= |x|
    ensures var r := Scan(c, x, s, p, node);
            Scan(c, x + y, s, p, node) == Prepend(r.chars, Scan(c, x + y, r.start, |x|, r.node))
    decreases |x| - s, |x| - p
  {
    if p == |x| {
      assert [] + Scan(c, x + y, s, p, node).chars == Scan(c, x + y, s, p, node).chars;
    } else {
      var t := Step(c, x, s, p, node);
      StepPrefix(c, x, y, s, p, node);
      ScanPrefix(c, x, y, t.start, t.pos, t.node);
      var r := Scan(c, x, t.start, t.pos, t.node);
      PrependPrepend(Done(t.done), r.chars, Scan(c, x + y, r.start, |x|, r.node));
    }
  }

  lemma TailOfTail(data: seq<Byte>, a: nat, b: nat)
    requires a + b <= |data|
    ensures data[a..][b..] == data[a + b..]
  {
  }

  // ---------------------------------------------------------------------------
  // Properties of write

  /** A fresh decoder writes the characters the scan of the chunk from the root finishes and
      keeps the open sequence whole. */
  lemma WriteFresh(c: Codec, buf: seq<Byte>)
    requires Ready(c)
    ensures var r := Scan(c, buf, 0, 0, 0);
            Write(c, Fresh(), buf) == Decoded(DecState(r.node, buf[r.start..]), Render(c, r.chars))
  {
    assert [] + buf == buf;
  }

  /** A fresh decoder keeps the last bytes of the chunk. */
  lemma FreshKeepsTail(c: Codec, buf: seq<Byte>)
    requires Ready(c)
    ensures var d := Write(c, Fresh(), buf);
            d.state.prev == buf[|buf| - |d.state.prev|..]
  {
    WriteFresh(c, buf);
  }

  /** A chunk that leads from the root through node slots only writes nothing, keeps all its
      bytes, and leaves the decoder in the node reached. */
  lemma OpenSequenceIsKept(c: Codec, path: seq<Byte>, n: nat)
    requires Ready(c) && Follow(c.trie, 0, path) == Some(n)
    ensures Write(c, Fresh(), path) == Decoded(DecState(n, path), [])
  {
    assert path[0..|path|] == path;
    WalkNodes(c, path, 0, 0, |path|, 0, n);
    WriteFresh(c, path);
  }

  /** When the scan of a chunk from the root finishes a character and goes on as the scan of
      the chunk without its first `d` bytes, writing the chunk writes that character, then
      what writing the shorter chunk writes. */
  lemma WriteAfterChar(c: Codec, buf: seq<Byte>, d: nat, ch: Char)
    requires Ready(c) && d <= |buf|
    requires Scan(c, buf, 0, 0, 0) == Prepend([ch], Shift(Scan(c, buf[d..], 0, 0, 0), d))
    ensures var w := Write(c, Fresh(), buf[d..]);
            Write(c, Fresh(), buf) == Decoded(w.state, CharUnits(c, ch) + w.units)
  {
    WriteFresh(c, buf);
    WriteFresh(c, buf[d..]);
    var r := Scan(c, buf[d..], 0, 0, 0);
    TailOfTail(buf, d, r.start);
    RenderAppend(c, [ch], r.chars);
    RenderOne(c, ch);
  }

  /** Bytes leading from the root to a slot that finishes a character decode to that
      character and leave the decoder fresh. */
  lemma LastByteFinishes(c: Codec, path: seq<Byte>, n: nat, b: Byte, ch: Char)
    requires Ready(c) && Follow(c.trie, 0, path) == Some(n)
    requires Step(c, path + [b], 0, |path|, n) == Next(|path| + 1, |path| + 1, 0, Some(ch))
    ensures Write(c, Fresh(), path + [b]) == Decoded(Fresh(), CharUnits(c, ch))
  {
    var data := path + [b];
    assert data[0..|path|] == path && data[|data|..] == [];
    WalkNodes(c, data, 0, 0, |path|, 0, n);
    ScanStep(c, data, 0, |path|, n, Next(|data|, |data|, 0, Some(ch)));
    WriteAfterChar(c, data, |data|, ch);
    assert CharUnits(c, ch) + [] == CharUnits(c, ch);
  }

  /** Bytes leading from the root to a character slot decode to that character, as one unit or
      a surrogate pair, and leave the decoder fresh. */
  lemma CharacterDecodes(c: Codec, path: seq<Byte>, n: nat, b: Byte, code: nat)
    requires Ready(c) && Follow(c.trie, 0, path) == Some(n)
    requires SlotAt(c.trie, n, b) == Code(code)
    ensures Write(c, Fresh(), path + [b]) == Decoded(Fresh(), CodeUnits(Some(code)))
  {
    assert (path + [b])[|path|] == b;
    LastByteFinishes(c, path, n, b, CodeChar(code));
  }

  /** Bytes leading from the root to a sequence slot decode to all the units of the
      sequence. */
  lemma SequenceDecodes(c: Codec, path: seq<Byte>, n: nat, b: Byte, k: nat)
    requires Ready(c) && Follow(c.trie, 0, path) == Some(n)
    requires SlotAt(c.trie, n, b) == Sequence(k) && k < |c.trie.seqs| && |c.trie.seqs[k]| > 0
    ensures Write(c, Fresh(), path + [b]) == Decoded(Fresh(), c.trie.seqs[k])
  {
    assert (path + [b])[|path|] == b;
    LastByteFinishes(c, path, n, b, SeqChar(k));
    SeqUnitsAgree(c.trie.seqs[k]);
  }

  /** Bytes leading from the root to a GB18030 slot decode to the code the range table gives
      for the pointer of their first four bytes. */
  lemma Gb18030Decodes(c: Codec, path: seq<Byte>, n: nat, b: Byte)
    requires Ready(c) && Follow(c.trie, 0, path) == Some(n)
    requires SlotAt(c.trie, n, b) == Gb18030
    ensures c.gb18030.Some?
    ensures Write(c, Fresh(), path + [b])
         == Decoded(Fresh(), CodeUnits(DecodePointer(c.gb18030.value, TokenPointer(path + [b]))))
  {
    var data := path + [b];
    assert data[|path|] == b && data[0..|path| + 1] == data;
    assert DecodableSlot(c.trie, c.gb18030.Some?, n, b);
    PointerAtIsToken(data, 0, |path|);
    LastByteFinishes(c, path, n, b, GbChar(PointerAt(data, 0, |path|)));
  }

  /** The scan of a chunk from the root that runs into an UNASSIGNED slot finishes the default
      character and scans again from the chunk's second byte. */
  lemma ScanResyncs(c: Codec, buf: seq<Byte>, p: nat, n: nat)
    requires Ready(c) && p < |buf|
    requires Follow(c.trie, 0, buf[..p]) == Some(n) && SlotAt(c.trie, n, buf[p]) == Unassigned
    ensures Scan(c, buf, 0, 0, 0) == Prepend([DefaultChar], Shift(Scan(c, buf[1..], 0, 0, 0), 1))
  {
    assert buf[0..p] == buf[..p];
    WalkNodes(c, buf, 0, 0, p, 0, n);
    ScanStep(c, buf, 0, p, n, Next(1, 1, 0, Some(DefaultChar)));
    ScanSuffix(c, buf[..1], buf[1..], 0, 0, 0);
    assert buf[..1] + buf[1..] == buf;
  }

  /** A sequence that runs into an UNASSIGNED slot writes one default unit, and decoding
      starts again at its second byte: the result is that of the chunk without its first
      byte, after the default unit. */
  lemma UnassignedResyncs(c: Codec, buf: seq<Byte>, p: nat, n: nat)
    requires Ready(c) && p < |buf|
    requires Follow(c.trie, 0, buf[..p]) == Some(n) && SlotAt(c.trie, n, buf[p]) == Unassigned
    ensures var rest := Write(c, Fresh(), buf[1..]);
            Write(c, Fresh(), buf) == Decoded(rest.state, DefaultUnits(c) + rest.units)
  {
    ScanResyncs(c, buf, p, n);
    WriteAfterChar(c, buf, 1, DefaultChar);
    assert CharUnits(c, DefaultChar) == DefaultUnits(c);
  }

  /** Scanning joined data is scanning the first part, then the bytes it kept joined with the
      second part. */
  lemma ScanJoin(c: Codec, x: seq<Byte>, y: seq<Byte>, k: nat, node: nat)
    requires Ready(c) && node < |c.trie.nodes| && k <= |x|
    ensures var r := Scan(c, x, 0, k, node);
            var r' := Scan(c, x[r.start..] + y, 0, |x[r.start..]|, r.node);
            Scan(c, x + y, 0, k, node) == Prepend(r.chars, Shift(r', r.start))
  {
    var r := Scan(c, x, 0, k, node);
    var z, rest := x[..r.start], x[r.start..] + y;
    assert z + rest == x + y && |z| == r.start;
    var tail := Scan(c, x + y, r.start, |x|, r.node);
    assert tail == Shift(Scan(c, rest, 0, |x[r.start..]|, r.node), r.start) by {
      ScanSuffix(c, z, rest, 0, |x| - r.start, r.node);
    }
    assert Scan(c, x + y, 0, k, node) == Prepend(r.chars, tail) by {
      ScanPrefix(c, x, y, 0, k, node);
    }
  }

  /** Splitting the input anywhere gives the same units and the same final state, as long as
      the 10-byte window of the source keeps the open sequence whole in each call. */
  lemma WriteSplit(c: Codec, st: DecState, x: seq<Byte>, y: seq<Byte>)
    requires Ready(c) && ValidState(c, st)
    requires KeepsAll(c, st, x) && KeepsAll(c, st, x + y)
    requires KeepsAll(c, Write(c, st, x).state, y)
    ensures var a := Write(c, st, x);
            var b := Write(c, a.state, y);
            Write(c, st, x + y) == Decoded(b.state, a.units + b.units)
  {
    var X := st.prev + x;
    assert st.prev + (x + y) == X + y;
    var r1 := Scan(c, X, 0, |st.prev|, st.node);
    var r := Scan(c, X[r1.start..] + y, 0, |X[r1.start..]|, r1.node);
    var R := Scan(c, X + y, 0, |st.prev|, st.node);
    ScanJoin(c, X, y, |st.prev|, st.node);
    WriteWhole(c, st, x);
    WriteWhole(c, st, x + y);
    WriteWhole(c, Write(c, st, x).state, y);
    JoinParts(c, X, y, r1, r, R);
  }

  /** The kept bytes and the units of a scan of joined data, in terms of the scans of its
      parts. */
  lemma JoinParts(c: Codec, X: seq<Byte>, y: seq<Byte>, r1: Scanned, r: Scanned, R: Scanned)
    requires r1.start <= |X| && r.start <= |X| - r1.start + |y|
    requires R == Prepend(r1.chars, Shift(r, r1.start))
    ensures (X + y)[R.start..] == (X[r1.start..] + y)[r.start..]
    ensures Render(c, R.chars) == Render(c, r1.chars) + Render(c, r.chars)
  {
    assert (X + y)[r1.start..] == X[r1.start..] + y;
    TailOfTail(X + y, r1.start, r.start);
    RenderAppend(c, r1.chars, r.chars);
  }

  /** When the window leaves the open sequence whole, `write` keeps all of it. */
  lemma WriteWhole(c: Codec, st: DecState, buf: seq<Byte>)
    requires Ready(c) && ValidState(c, st) && KeepsAll(c, st, buf)
    ensures var data := st.prev + buf;
            var r := Scan(c, data, 0, |st.prev|, st.node);
            Write(c, st, buf) == Decoded(DecState(r.node, data[r.start..]), Render(c, r.chars))
  {
  }
}
