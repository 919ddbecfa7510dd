/** Building the decode trie from mapping chunks: `_getDecodeTrieNode` and `_addDecodeChunk` of
    `encodings/dbcs-codec.js`. A chunk names the multi-byte address of its first character and
    lists the characters of consecutive addresses, as strings of code units and as counts of
    codes that continue the previous one. */
module DbcsTrie {
  import opened Base
  import opened DbcsTables

  // ---------------------------------------------------------------------------
  // Addresses

  /** The bytes of an address, least significant first, as `for (; addr > 0; addr >>= 8)`
      collects them. The shift works on the 32-bit value, so an address of 2^31 or more turns
      negative after one step and ends the loop. */
  function AddrBytes(addr: int): (bs: seq<Byte>)
    decreases if addr > 0 then addr else 0
  {
    if addr > 0 then [LowByte(addr)] + AddrBytes(Sar8(addr)) else []
  }

  /** The number a little-endian byte list stands for. */
  function LittleEndianValue(bs: seq<Byte>): nat
    decreases |bs|
  {
    if |bs| == 0 then 0 else bs[0] + 0x100 * LittleEndianValue(bs[1..])
  }

  /** For an address below 2^31, the collected bytes are its base-256 digits with no leading
      zero digit. */
  lemma {:induction false} AddrBytesAreDigits(addr: int)
    requires 0 <= addr < TWO_31
    ensures LittleEndianValue(AddrBytes(addr)) == addr
    ensures |AddrBytes(addr)| > 0 ==> AddrBytes(addr)[|AddrBytes(addr)| - 1] != 0
    ensures addr == 0 <==> |AddrBytes(addr)| == 0
    decreases addr
  {
    if addr > 0 {
      AddrBytesAreDigits(addr / 0x100);
    }
  }

  /** The bytes `_getDecodeTrieNode` works with: the collected bytes, or the single byte 0 for an
      address that collects none. */
  function AddrPath(addr: int): (bs: seq<Byte>)
    ensures |bs| > 0
    ensures addr <= 0 ==> bs == [0]
  {
    var bs := AddrBytes(addr);
    if |bs| == 0 then [0] else bs
  }

  /** The bytes above the lowest one, most significant first: the nodes to walk through before
      the node the chunk writes into. */
  function Prefix(addr: int): (p: seq<Byte>)
    ensures |p| == |AddrPath(addr)| - 1
    ensures forall i :: 0 <= i < |p| ==> p[i] == AddrPath(addr)[|p| - i]
  {
    var bs := AddrPath(addr);
    seq(|bs| - 1, i requires 0 <= i < |bs| - 1 => bs[|bs| - 1 - i])
  }

  // ---------------------------------------------------------------------------
  // _getDecodeTrieNode

  datatype BuildError =
    | Overwrite(addr: int)          // the address runs through a slot holding a character
    | DanglingNode(addr: int)       // the address runs through a node pointer past the table
    | BadSurrogate(addr: int)       // a lead surrogate not followed by a trail surrogate
    | TruncatedSequence(addr: int)  // a sequence marker with fewer units after it than it announces
    | RunAtNodeStart(addr: int)     // a count at slot 0, where there is no previous code to continue
    | BadPartType(addr: int)        // a chunk element that is neither a string nor a number
    | ChunkTooLong(addr: int, cursor: int)

  /** The read-only walk: the node reached by following node pointers along `path`, if every
      step finds one. */
  function Follow(t: Trie, n: nat, path: seq<Byte>): (r: Option<nat>)
    requires Rows256(t) && n < |t.nodes|
    ensures r.Some? ==> r.value < |t.nodes|
    decreases |path|
  {
    if |path| == 0 then Some(n)
    else match SlotAt(t, n, path[0])
      case Node(k) => if k < |t.nodes| then Follow(t, k, path[1..]) else None
      case _ => None
  }

  /** A walk through a node slot goes on from the node it points to. */
  lemma FollowStep(t: Trie, n: nat, b: Byte, rest: seq<Byte>, k: nat)
    requires Rows256(t) && n < |t.nodes| && k < |t.nodes| && SlotAt(t, n, b) == Node(k)
    ensures Follow(t, n, [b] + rest) == Follow(t, k, rest)
  {
    assert ([b] + rest)[0] == b && ([b] + rest)[1..] == rest;
  }

  /** The first slot the walk along `path` cannot go through, if any: a character, sequence,
      GB18030 or invalid slot, or a pointer past the node table. Meeting an UNASSIGNED slot
      first means every later step runs through freshly created nodes, which cannot block. */
  function Obstacle(t: Trie, n: nat, path: seq<Byte>): Option<Slot>
    requires Rows256(t) && n < |t.nodes|
    decreases |path|
  {
    if |path| == 0 then None
    else match SlotAt(t, n, path[0])
      case Unassigned => None
      case Node(k) => if k < |t.nodes| then Obstacle(t, k, path[1..]) else Some(Node(k))
      case other => Some(other)
  }

  /** The error `_getDecodeTrieNode` ends with at an obstacle: a pointer past the table fails as
      soon as the missing node is used; anything else is the "Overwrite byte" error. */
  function ObstacleError(s: Slot, addr: int): BuildError {
    if s.Node? then DanglingNode(addr) else Overwrite(addr)
  }

  /** The node-walking loop of `_getDecodeTrieNode`: through an UNASSIGNED slot it appends a
      fresh all-UNASSIGNED node and points the slot at it; through a node pointer it follows it;
      any other slot is an error. The result is the node reached after the whole path. */
  function Descend(t: Trie, n: nat, path: seq<Byte>, addr: int): (r: Result<(Trie, nat), BuildError>)
    requires Rows256(t) && n < |t.nodes|
    ensures r.Err? <==> Obstacle(t, n, path).Some?
    ensures r.Err? ==> r.error == ObstacleError(Obstacle(t, n, path).value, addr)
    ensures r.Ok? ==>
              var t' := r.value.0;
              var k := r.value.1;
              && Rows256(t') && k < |t'.nodes| && t'.seqs == t.seqs
              && |t.nodes| <= |t'.nodes|
              && Follow(t', n, path) == Some(k)
              && (forall m, b :: |t.nodes| <= m < |t'.nodes| && 0 <= b < NODE_SIZE ==>
                    t'.nodes[m][b] == UNASSIGNED || m < NODE_START - t'.nodes[m][b] < |t'.nodes|)
              && (forall m, b :: 0 <= m < |t.nodes| && 0 <= b < NODE_SIZE && t'.nodes[m][b] != t.nodes[m][b] ==>
                    t.nodes[m][b] == UNASSIGNED && |t.nodes| <= NODE_START - t'.nodes[m][b] < |t'.nodes|)
    decreases |path|
  {
    if |path| == 0 then Ok((t, n))
    else
      match SlotAt(t, n, path[0])
      case Unassigned =>
        var k := |t.nodes|;
        var t1 := Trie(t.nodes[n := t.nodes[n][path[0] := NODE_START - k]] + [UnassignedNode()], t.seqs);
        var r1 := Descend(t1, k, path[1..], addr);
        if r1.Ok? then
          GrowthComposes(t, n, path[0], t1, r1.value.0);
          FollowStep(r1.value.0, n, path[0], path[1..], k);
          assert path == [path[0]] + path[1..];
          r1
        else r1
      case Node(k) =>
        if k < |t.nodes| then Descend(t, k, path[1..], addr) else Err(DanglingNode(addr))
      case _ => Err(Overwrite(addr))
  }

  /** Growing a trie by one node under an UNASSIGNED slot, then by whatever a walk from the
      new node adds, only fills UNASSIGNED slots, and only with pointers to the added nodes. */
  lemma GrowthComposes(t: Trie, n: nat, b: Byte, t1: Trie, t2: Trie)
    requires Rows256(t) && n < |t.nodes| && t.nodes[n][b] == UNASSIGNED
    requires t1 == Trie(t.nodes[n := t.nodes[n][b := NODE_START - |t.nodes|]] + [UnassignedNode()], t.seqs)
    requires Rows256(t2) && |t1.nodes| <= |t2.nodes|
    requires forall m, c :: |t1.nodes| <= m < |t2.nodes| && 0 <= c < NODE_SIZE ==>
               t2.nodes[m][c] == UNASSIGNED || m < NODE_START - t2.nodes[m][c] < |t2.nodes|
    requires forall m, c :: 0 <= m < |t1.nodes| && 0 <= c < NODE_SIZE && t2.nodes[m][c] != t1.nodes[m][c] ==>
               t1.nodes[m][c] == UNASSIGNED && |t1.nodes| <= NODE_START - t2.nodes[m][c] < |t2.nodes|
    ensures forall m, c :: |t.nodes| <= m < |t2.nodes| && 0 <= c < NODE_SIZE ==>
              t2.nodes[m][c] == UNASSIGNED || m < NODE_START - t2.nodes[m][c] < |t2.nodes|
    ensures forall m, c :: 0 <= m < |t.nodes| && 0 <= c < NODE_SIZE && t2.nodes[m][c] != t.nodes[m][c] ==>
              t.nodes[m][c] == UNASSIGNED && |t.nodes| <= NODE_START - t2.nodes[m][c] < |t2.nodes|
    ensures SlotAt(t2, n, b) == Node(|t.nodes|)
  {
    assert t1.nodes[n][b] == NODE_START - |t.nodes|;
    var k := |t.nodes|;
    forall m, c | k <= m < |t2.nodes| && 0 <= c < NODE_SIZE
      ensures t2.nodes[m][c] == UNASSIGNED || m < NODE_START - t2.nodes[m][c] < |t2.nodes|
    {
      if m == k {
        assert t1.nodes[k] == UnassignedNode();
      }
    }
    forall m, c | 0 <= m < k && 0 <= c < NODE_SIZE && t2.nodes[m][c] != t.nodes[m][c]
      ensures t.nodes[m][c] == UNASSIGNED && k <= NODE_START - t2.nodes[m][c] < |t2.nodes|
    {
      assert t1.nodes[m] == if m == n then t.nodes[n][b := NODE_START - k] else t.nodes[m];
    }
  }

  /** `_getDecodeTrieNode(addr)`: the node a chunk starting at `addr` writes into, reached from
      the root through the address's bytes above the lowest. It fails exactly when that walk
      meets a slot that is neither UNASSIGNED nor a node pointer. */
  function GetDecodeTrieNode(t: Trie, addr: int): (r: Result<(Trie, nat), BuildError>)
    requires Rows256(t) && |t.nodes| > 0
    ensures r.Err? <==> Obstacle(t, 0, Prefix(addr)).Some?
    ensures r.Ok? ==> Rows256(r.value.0) && r.value.1 < |r.value.0.nodes|
                      && Follow(r.value.0, 0, Prefix(addr)) == Some(r.value.1)
    ensures 0 <= addr < 0x100 ==> r == Ok((t, 0))
  {
    assert 0 < addr < 0x100 ==> AddrBytes(addr) == [LowByte(addr)] + AddrBytes(Sar8(addr)) && Sar8(addr) == 0;
    Descend(t, 0, Prefix(addr), addr)
  }

  // ---------------------------------------------------------------------------
  // The elements of a chunk

  /** A chunk: the address of its first character (the hexadecimal `chunk[0]`, already parsed;
      an unparsable address reads as 0, since `NaN` collects no bytes and `NaN & 0xFF` is 0) and
      the elements after it. */
  datatype Chunk = Chunk(addr: int, parts: seq<Part>)

  datatype Part =
    | Text(units: seq<Unit>)  // a string element
    | Count(n: int)           // a number element
    | Other                   // an element of any other type

  /** What one character of a string element stands for. */
  datatype Token =
    | Char(code: nat)           // a code unit, or a surrogate pair combined into one code
    | Seq(units: seq<Unit>)     // a sequence marker and the units it announces

  datatype LexError = LoneLead | ShortSequence

  predicate IsLead(u: int) { 0xD800 <= u < 0xDC00 }
  predicate IsTrail(u: int) { 0xDC00 <= u < 0xE000 }
  predicate IsSeqMarker(u: int) { 0x0FF0 < u <= 0x0FFF }

  /** The number of units a sequence marker announces. */
  function SeqLength(marker: Unit): nat
    requires IsSeqMarker(marker)
  {
    0xFFF - marker + 2
  }

  /** The combined code of a surrogate pair. */
  function PairCode(lead: Unit, trail: Unit): (c: nat)
    requires IsLead(lead) && IsTrail(trail)
    ensures 0x1_0000 <= c < 0x11_0000
  {
    0x1_0000 + (lead - 0xD800) * 0x400 + (trail - 0xDC00)
  }

  /** The number of units the first token of a string is read from: a surrogate pair, a
      sequence marker with the units it announces, or a single unit. */
  function HeadLength(u: seq<Unit>): (k: nat)
    requires |u| > 0
    ensures k >= 1
  {
    if IsLead(u[0]) then 2 else if IsSeqMarker(u[0]) then 1 + SeqLength(u[0]) else 1
  }

  /** One round of the inner loop of `_addDecodeChunk` over a string element: a lead surrogate
      takes the next unit as its trail, a unit in 0x0FF1..0x0FFF takes the 2..16 units after it as
      a sequence, any other unit stands for itself. */
  function HeadToken(u: seq<Unit>): (r: Result<Token, LexError>)
    requires |u| > 0
    ensures r.Ok? ==> HeadLength(u) <= |u|
  {
    if IsLead(u[0]) then
      if |u| >= 2 && IsTrail(u[1]) then Ok(Char(PairCode(u[0], u[1]))) else Err(LoneLead)
    else if IsSeqMarker(u[0]) then
      var len := SeqLength(u[0]);
      if |u| - 1 >= len then Ok(Seq(u[1..1 + len])) else Err(ShortSequence)
    else Ok(Char(u[0]))
  }

  /** The inner loop of `_addDecodeChunk` over a string element: its tokens, or the first
      error. */
  function Lex(u: seq<Unit>): (r: Result<seq<Token>, LexError>)
    decreases |u|
  {
    if |u| == 0 then Ok([])
    else
      var h := HeadToken(u);
      if h.Err? then Err(h.error)
      else
        var rest := Lex(u[HeadLength(u)..]);
        if rest.Err? then rest else Ok([h.value] + rest.value)
  }

  /** The units a token is written with: the inverse reading of `Lex`. */
  function UnlexToken(tok: Token): seq<Unit>
    requires ValidToken(tok)
  {
    match tok
    case Char(c) =>
      if c >= 0x1_0000 then [0xD800 + (c - 0x1_0000) / 0x400, 0xDC00 + (c - 0x1_0000) % 0x400] else [c]
    case Seq(q) => [0xFFF + 2 - |q|] + q
  }

  /** A token some string element lexes to: a code that is not itself a lead surrogate or a
      sequence marker, at most 0x10FFFF, or a sequence of 2..16 units. */
  predicate ValidToken(tok: Token) {
    match tok
    case Char(c) => c < 0x11_0000 && !IsLead(c) && !IsSeqMarker(c)
    case Seq(q) => 2 <= |q| <= 16
  }

  /** Every token of the list is valid. */
  predicate AllValid(ts: seq<Token>) {
    forall i :: 0 <= i < |ts| ==> ValidToken(ts[i])
  }

  /** A valid token before valid tokens. */
  lemma ValidCons(t: Token, ts: seq<Token>)
    requires ValidToken(t) && AllValid(ts)
    ensures AllValid([t] + ts)
  {
  }

  function Unlex(ts: seq<Token>): seq<Unit>
    requires AllValid(ts)
    decreases |ts|
  {
    if |ts| == 0 then [] else UnlexToken(ts[0]) + Unlex(ts[1..])
  }

  /** A token before others is written before them. */
  lemma UnlexCons(t: Token, ts: seq<Token>)
    requires ValidToken(t) && AllValid(ts)
    ensures AllValid([t] + ts) && Unlex([t] + ts) == UnlexToken(t) + Unlex(ts)
  {
    assert ([t] + ts)[1..] == ts;
  }

  /** Lexing yields valid tokens. */
  lemma {:induction false} LexValid(u: seq<Unit>)
    requires Lex(u).Ok?
    ensures AllValid(Lex(u).value)
    decreases |u|
  {
    if |u| > 0 {
      var k := HeadLength(u);
      HeadUnlexes(u);
      LexValid(u[k..]);
      ValidCons(HeadToken(u).value, Lex(u[k..]).value);
    }
  }

  /** Lexing yields valid tokens, and writing them out again gives back the string. */
  lemma {:induction false} LexThenUnlex(u: seq<Unit>)
    requires Lex(u).Ok?
    ensures AllValid(Lex(u).value)
    ensures Unlex(Lex(u).value) == u
    decreases |u|
  {
    LexValid(u);
    if |u| > 0 {
      var k := HeadLength(u);
      var h := HeadToken(u).value;
      var ts' := Lex(u[k..]).value;
      assert UnlexToken(h) == u[..k] by {
        HeadUnlexes(u);
      }
      LexThenUnlex(u[k..]);
      UnlexCons(h, ts');
      assert u[..k] + u[k..] == u;
    }
  }

  /** The first token of a string is valid and is written as the units it was read from. */
  lemma HeadUnlexes(u: seq<Unit>)
    requires |u| > 0 && HeadToken(u).Ok?
    ensures ValidToken(HeadToken(u).value) && UnlexToken(HeadToken(u).value) == u[..HeadLength(u)]
  {
    if IsLead(u[0]) {
      PairUnits(u[0], u[1]);
      assert u[..2] == [u[0], u[1]];
    } else if IsSeqMarker(u[0]) {
      var len := SeqLength(u[0]);
      assert u[..1 + len] == [u[0]] + u[1..1 + len];
    } else {
      assert u[..1] == [u[0]];
    }
  }

  /** The code of a surrogate pair is written as that pair. */
  lemma PairUnits(lead: Unit, trail: Unit)
    requires IsLead(lead) && IsTrail(trail)
    ensures var c := PairCode(lead, trail);
            ValidToken(Char(c)) && UnlexToken(Char(c)) == [lead, trail]
  {
    var y := PairCode(lead, trail) - 0x1_0000;
    assert y == (lead - 0xD800) * 0x400 + (trail - 0xDC00);
    assert y / 0x400 == lead - 0xD800 && y % 0x400 == trail - 0xDC00;
  }

  /** Conversely, every list of valid tokens is what its written form lexes to. */
  lemma {:induction false} UnlexThenLex(ts: seq<Token>)
    requires AllValid(ts)
    ensures Lex(Unlex(ts)) == Ok(ts)
    decreases |ts|
  {
    if |ts| > 0 {
      var rest := Unlex(ts[1..]);
      UnlexThenLex(ts[1..]);
      UnlexReads(ts[0], rest);
      var u := UnlexToken(ts[0]) + rest;
      assert u[HeadLength(u)..] == rest;
      assert [ts[0]] + ts[1..] == ts;
    }
  }

  /** A valid token written before other units is read back as the first token, from the
      units it was written as. */
  lemma UnlexReads(tok: Token, rest: seq<Unit>)
    requires ValidToken(tok)
    ensures var u := UnlexToken(tok) + rest;
            |u| > 0 && HeadToken(u) == Ok(tok) && HeadLength(u) == |UnlexToken(tok)|
  {
    var u := UnlexToken(tok) + rest;
    match tok
    case Char(c) =>
      if c >= 0x1_0000 {
        var y := c - 0x1_0000;
        assert u[0] == 0xD800 + y / 0x400 && u[1] == 0xDC00 + y % 0x400;
        assert IsLead(u[0]) && IsTrail(u[1]);
        assert PairCode(u[0], u[1]) == c;
      } else {
        assert u[0] == c;
      }
    case Seq(q) =>
      assert u[0] == 0xFFF + 2 - |q| && SeqLength(u[0]) == |q|;
      assert u[1..1 + |q|] == q;
  }

  // ---------------------------------------------------------------------------
  // Writing a node row: the cursor-based loop of `_addDecodeChunk`

  /** What the chunk loop works on: the row of the node being written, the cursor (`curAddr`)
      and the sequence table. The cursor never passes the row's end, so each store either
      overwrites a slot or appends one, as a store into a JS array does. */
  datatype Writer = Writer(row: seq<int>, cur: nat, seqs: seq<seq<Unit>>)

  predicate Valid(w: Writer) { w.cur <= |w.row| }

  /** `writeTable[curAddr++] = v`. */
  function Put(w: Writer, v: int): (r: Writer)
    requires Valid(w)
    ensures Valid(r) && r.cur == w.cur + 1 && r.seqs == w.seqs
    ensures |r.row| == if w.cur < |w.row| then |w.row| else |w.row| + 1
  {
    var row := if w.cur < |w.row| then w.row[w.cur := v] else w.row + [v];
    Writer(row, w.cur + 1, w.seqs)
  }

  /** The store for one token; a sequence gets the next index of the sequence table. */
  function WriteToken(w: Writer, tok: Token): (r: Writer)
    requires Valid(w)
    ensures Valid(r)
  {
    match tok
    case Char(c) => Put(w, c)
    case Seq(q) =>
      var w1 := Put(w, SEQ_START - |w.seqs|);
      Writer(w1.row, w1.cur, w1.seqs + [q])
  }

  /** The stores for the tokens of a string element, in order. */
  function WriteTokens(w: Writer, ts: seq<Token>): (r: Writer)
    requires Valid(w)
    ensures Valid(r)
    decreases |ts|
  {
    if |ts| == 0 then w else WriteTokens(WriteToken(w, ts[0]), ts[1..])
  }

  /** A string element: lexed, then written. A bad surrogate pair or a short sequence fails the
      whole construction. */
  function WriteText(w: Writer, units: seq<Unit>, addr: int): (r: Result<Writer, BuildError>)
    requires Valid(w)
    ensures r.Ok? ==> Valid(r.value)
  {
    match Lex(units)
    case Err(LoneLead) => Err(BadSurrogate(addr))
    case Err(ShortSequence) => Err(TruncatedSequence(addr))
    case Ok(ts) => Ok(WriteTokens(w, ts))
  }

  /** The inner loop of a number element: `n` stores of consecutive codes from `code` on. */
  function WriteRun(w: Writer, n: int, code: int): (r: Writer)
    requires Valid(w)
    ensures Valid(r)
    decreases if n > 0 then n else 0
  {
    if n <= 0 then w else WriteRun(Put(w, code), n - 1, code + 1)
  }

  /** The loop over the elements of a chunk. A number element continues from the slot before
      the cursor; a string element is lexed and written; anything else fails. */
  function WriteParts(w: Writer, parts: seq<Part>, addr: int): (r: Result<Writer, BuildError>)
    requires Valid(w)
    ensures r.Ok? ==> Valid(r.value)
    decreases |parts|
  {
    if |parts| == 0 then Ok(w)
    else match parts[0]
      case Text(units) =>
        var w1 := WriteText(w, units, addr);
        if w1.Err? then w1 else WriteParts(w1.value, parts[1..], addr)
      case Count(n) =>
        if n <= 0 then WriteParts(w, parts[1..], addr)
        else if w.cur == 0 then Err(RunAtNodeStart(addr))
        else WriteParts(WriteRun(w, n, w.row[w.cur - 1] + 1), parts[1..], addr)
      case Other => Err(BadPartType(addr))
  }

  // ---------------------------------------------------------------------------
  // What a chunk writes, stated without a cursor

  /** The slot value of a token when the sequence table already holds `base` entries. */
  function TokenValue(tok: Token, base: nat): int {
    match tok
    case Char(c) => c
    case Seq(_) => SEQ_START - base
  }

  /** The sequence a token adds to the sequence table, if any. */
  function TokenSeq(tok: Token): (qs: seq<seq<Unit>>)
    ensures |qs| <= 1
  {
    match tok
    case Char(_) => []
    case Seq(q) => [q]
  }

  /** The slot values of a list of tokens when the sequence table already holds `base` entries. */
  function TokenValues(ts: seq<Token>, base: nat): (vs: seq<int>)
    ensures |vs| == |ts|
    decreases |ts|
  {
    if |ts| == 0 then [] else [TokenValue(ts[0], base)] + TokenValues(ts[1..], base + |TokenSeq(ts[0])|)
  }

  /** The sequences among the tokens, in order. */
  function TokenSeqs(ts: seq<Token>): seq<seq<Unit>>
    decreases |ts|
  {
    if |ts| == 0 then [] else TokenSeq(ts[0]) + TokenSeqs(ts[1..])
  }

  /** `n` consecutive codes from `code` on. */
  function Run(n: nat, code: int): (vs: seq<int>)
    ensures |vs| == n && forall i :: 0 <= i < n ==> vs[i] == code + i
  {
    seq(n, i requires 0 <= i < n => code + i)
  }

  /** The values a chunk's elements stand for, the sequences they add, and the first error, if
      any. `prev` is the value in the slot before the first one written (none at slot 0); a
      number element continues from the last value before it. */
  function ChunkValues(parts: seq<Part>, prev: Option<int>, base: nat, addr: int)
    : (r: Result<(seq<int>, seq<seq<Unit>>), BuildError>)
    decreases |parts|
  {
    if |parts| == 0 then Ok(([], []))
    else match parts[0]
      case Text(units) =>
        (match Lex(units)
         case Err(LoneLead) => Err(BadSurrogate(addr))
         case Err(ShortSequence) => Err(TruncatedSequence(addr))
         case Ok(ts) =>
           var vs := TokenValues(ts, base);
           var qs := TokenSeqs(ts);
           var rest := ChunkValues(parts[1..], if |vs| > 0 then Some(vs[|vs| - 1]) else prev, base + |qs|, addr);
           if rest.Err? then rest else Ok((vs + rest.value.0, qs + rest.value.1)))
      case Count(n) =>
        if n <= 0 then ChunkValues(parts[1..], prev, base, addr)
        else if prev.None? then Err(RunAtNodeStart(addr))
        else
          var vs := Run(n, prev.value + 1);
          var rest := ChunkValues(parts[1..], Some(vs[n - 1]), base, addr);
          if rest.Err? then rest else Ok((vs + rest.value.0, rest.value.1))
      case Other => Err(BadPartType(addr))
  }

  /** `vals` laid over `row` from slot `cur` on. */
  function Splice(row: seq<int>, cur: nat, vals: seq<int>): (r: seq<int>)
    requires cur <= |row|
    ensures |r| == if cur + |vals| < |row| then |row| else cur + |vals|
  {
    row[..cur] + vals + (if cur + |vals| < |row| then row[cur + |vals|..] else [])
  }

  /** The spliced row holds the values from slot `cur` on and the row's own values elsewhere. */
  lemma SpliceAt(row: seq<int>, cur: nat, vals: seq<int>)
    requires cur <= |row|
    ensures var r := Splice(row, cur, vals);
            forall i :: 0 <= i < |r| ==> r[i] == if cur <= i < cur + |vals| then vals[i - cur] else row[i]
  {
  }

  lemma SpliceNothing(row: seq<int>, cur: nat)
    requires cur <= |row|
    ensures Splice(row, cur, []) == row
  {
  }

  lemma SpliceSplice(row: seq<int>, cur: nat, a: seq<int>, b: seq<int>)
    requires cur <= |row|
    ensures cur + |a| <= |Splice(row, cur, a)|
    ensures Splice(Splice(row, cur, a), cur + |a|, b) == Splice(row, cur, a + b)
  {
    var m := Splice(row, cur, a);
    var l := Splice(m, cur + |a|, b);
    var r := Splice(row, cur, a + b);
    assert |l| == |r|;
    forall i | 0 <= i < |l| ensures l[i] == r[i] {
      SpliceIndex(m, cur + |a|, b, i);
      SpliceIndex(row, cur, a + b, i);
      if i < cur + |a| {
        SpliceIndex(row, cur, a, i);
        if cur <= i {
          assert (a + b)[i - cur] == a[i - cur];
        }
      } else if i < cur + |a| + |b| {
        assert (a + b)[i - cur] == b[i - cur - |a|];
      } else {
        SpliceIndex(row, cur, a, i);
      }
    }
  }

  /** One slot of a spliced row. */
  lemma SpliceIndex(row: seq<int>, cur: nat, vals: seq<int>, i: nat)
    requires cur <= |row| && i < |Splice(row, cur, vals)|
    ensures Splice(row, cur, vals)[i] == if cur <= i < cur + |vals| then vals[i - cur] else row[i]
  {
    SpliceAt(row, cur, vals);
  }

  /** Storing a value is splicing one value in. */
  lemma PutIsSplice(w: Writer, v: int)
    requires Valid(w)
    ensures Put(w, v).row == Splice(w.row, w.cur, [v])
  {
  }

  /** Storing a token is splicing its value in and appending its sequence. */
  lemma WriteTokenSplices(w: Writer, tok: Token)
    requires Valid(w)
    ensures WriteToken(w, tok) == Writer(Splice(w.row, w.cur, [TokenValue(tok, |w.seqs|)]), w.cur + 1, w.seqs + TokenSeq(tok))
  {
    PutIsSplice(w, TokenValue(tok, |w.seqs|));
  }

  /** Storing the tokens one after another is splicing their values in, from the cursor on, and
      appending their sequences. */
  lemma {:induction false} WriteTokensSplices(w: Writer, ts: seq<Token>)
    requires Valid(w)
    ensures WriteTokens(w, ts)
            == Writer(Splice(w.row, w.cur, TokenValues(ts, |w.seqs|)), w.cur + |ts|, w.seqs + TokenSeqs(ts))
    decreases |ts|
  {
    if |ts| == 0 {
      SpliceNothing(w.row, w.cur);
    } else {
      var tok, rest := ts[0], ts[1..];
      var w1 := WriteToken(w, tok);
      WriteTokenSplices(w, tok);
      WriteTokensSplices(w1, rest);
      assert ts == [tok] + rest;
      TokenThenTokens(w, tok, rest, w1);
    }
  }

  /** One token spliced in, then the rest after it, is all of them spliced in at once. */
  lemma TokenThenTokens(w: Writer, tok: Token, rest: seq<Token>, w1: Writer)
    requires Valid(w)
    requires w1 == Writer(Splice(w.row, w.cur, [TokenValue(tok, |w.seqs|)]), w.cur + 1, w.seqs + TokenSeq(tok))
    ensures Writer(Splice(w1.row, w1.cur, TokenValues(rest, |w1.seqs|)), w1.cur + |rest|, w1.seqs + TokenSeqs(rest))
            == Writer(Splice(w.row, w.cur, TokenValues([tok] + rest, |w.seqs|)), w.cur + |[tok] + rest|,
                      w.seqs + TokenSeqs([tok] + rest))
  {
    var v, q := TokenValue(tok, |w.seqs|), TokenSeq(tok);
    var vs := TokenValues(rest, |w1.seqs|);
    assert ([tok] + rest)[1..] == rest;
    assert TokenValues([tok] + rest, |w.seqs|) == [v] + vs;
    assert TokenSeqs([tok] + rest) == q + TokenSeqs(rest);
    SpliceSplice(w.row, w.cur, [v], vs);
    AppendAssoc(w.seqs, q, TokenSeqs(rest));
  }

  lemma {:induction false} WriteRunSplices(w: Writer, n: nat, code: int)
    requires Valid(w)
    ensures WriteRun(w, n, code) == Writer(Splice(w.row, w.cur, Run(n, code)), w.cur + n, w.seqs)
    decreases n
  {
    if n == 0 {
      SpliceNothing(w.row, w.cur);
    } else {
      WriteRunSplices(Put(w, code), n - 1, code + 1);
      PutIsSplice(w, code);
      SpliceSplice(w.row, w.cur, [code], Run(n - 1, code + 1));
      assert [code] + Run(n - 1, code + 1) == Run(n, code);
    }
  }

  /** The slot before the cursor, if there is one. */
  function Previous(w: Writer): Option<int>
    requires Valid(w)
  {
    if w.cur == 0 then None else Some(w.row[w.cur - 1])
  }

  /** The writer after laying the values of `cv` over the row from the cursor and appending
      its sequences, or the error of `cv`. */
  function Spliced(w: Writer, cv: Result<(seq<int>, seq<seq<Unit>>), BuildError>): Result<Writer, BuildError>
    requires Valid(w)
  {
    if cv.Err? then Err(cv.error)
    else Ok(Writer(Splice(w.row, w.cur, cv.value.0), w.cur + |cv.value.0|, w.seqs + cv.value.1))
  }

  /** Values and sequences written first, then those of `cv`. */
  function Before(vs: seq<int>, qs: seq<seq<Unit>>, cv: Result<(seq<int>, seq<seq<Unit>>), BuildError>)
    : Result<(seq<int>, seq<seq<Unit>>), BuildError>
  {
    if cv.Err? then cv else Ok((vs + cv.value.0, qs + cv.value.1))
  }

  /** Writing `vs` and `qs` and then the values of `cv` is writing both at once. */
  lemma SplicedAfter(w: Writer, vs: seq<int>, qs: seq<seq<Unit>>, cv: Result<(seq<int>, seq<seq<Unit>>), BuildError>)
    requires Valid(w)
    ensures Valid(Writer(Splice(w.row, w.cur, vs), w.cur + |vs|, w.seqs + qs))
    ensures Spliced(Writer(Splice(w.row, w.cur, vs), w.cur + |vs|, w.seqs + qs), cv) == Spliced(w, Before(vs, qs, cv))
  {
    if cv.Ok? {
      SpliceSplice(w.row, w.cur, vs, cv.value.0);
      AppendAssoc(w.seqs, qs, cv.value.1);
    }
  }

  /** The claim of `WritePartsSplices`. */
  predicate WritesChunkValues(w: Writer, parts: seq<Part>, addr: int)
    requires Valid(w)
  {
    WriteParts(w, parts, addr) == Spliced(w, ChunkValues(parts, Previous(w), |w.seqs|, addr))
  }

  /** The cursor-based loop writes exactly the values `ChunkValues` lists, one after another
      from the starting cursor, and appends exactly the sequences it lists; it fails with the
      same error when `ChunkValues` does. */
  lemma {:induction false} WritePartsSplices(w: Writer, parts: seq<Part>, addr: int)
    requires Valid(w)
    ensures WritesChunkValues(w, parts, addr)
    decreases |parts|, 1
  {
    if |parts| == 0 {
      SpliceNothing(w.row, w.cur);
      assert w.seqs + [] == w.seqs;
    } else {
      match parts[0]
      case Text(units) => TextPartSplices(w, parts, addr);
      case Count(n) => CountPartSplices(w, parts, addr);
      case Other =>
    }
  }

  lemma {:induction false} TextPartSplices(w: Writer, parts: seq<Part>, addr: int)
    requires Valid(w) && |parts| > 0 && parts[0].Text?
    ensures WritesChunkValues(w, parts, addr)
    decreases |parts|, 0
  {
    var units := parts[0].units;
    if Lex(units).Ok? {
      var ts := Lex(units).value;
      var vs := TokenValues(ts, |w.seqs|);
      var qs := TokenSeqs(ts);
      var w1 := Writer(Splice(w.row, w.cur, vs), w.cur + |vs|, w.seqs + qs);
      PreviousAfter(w, vs, qs);
      var cv := ChunkValues(parts[1..], Previous(w1), |w1.seqs|, addr);
      calc {
        WriteParts(w, parts, addr);
      == { TextWrites(w, parts, addr, ts, vs, w1); }
        WriteParts(w1, parts[1..], addr);
      == { WritePartsSplices(w1, parts[1..], addr); }
        Spliced(w1, cv);
      == { SplicedAfter(w, vs, qs, cv); }
        Spliced(w, Before(vs, qs, cv));
      == { TextValues(parts, Previous(w), |w.seqs|, addr); }
        Spliced(w, ChunkValues(parts, Previous(w), |w.seqs|, addr));
      }
    }
  }

  /** The loop on a string element that lexes writes its tokens and goes on with the rest. */
  lemma TextWrites(w: Writer, parts: seq<Part>, addr: int, ts: seq<Token>, vs: seq<int>, w1: Writer)
    requires Valid(w) && |parts| > 0 && parts[0].Text? && Lex(parts[0].units) == Ok(ts)
    requires vs == TokenValues(ts, |w.seqs|)
    requires w1 == Writer(Splice(w.row, w.cur, vs), w.cur + |vs|, w.seqs + TokenSeqs(ts))
    ensures Valid(w1) && WriteParts(w, parts, addr) == WriteParts(w1, parts[1..], addr)
  {
    assert WriteTokens(w, ts) == w1 by { WriteTokensSplices(w, ts); }
    assert WriteText(w, parts[0].units, addr) == Ok(w1);
  }

  /** The values of a string element that lexes are its tokens' values, then those of the
      rest of the chunk, which continues from the last of them. */
  lemma TextValues(parts: seq<Part>, prev: Option<int>, base: nat, addr: int)
    requires |parts| > 0 && parts[0].Text? && Lex(parts[0].units).Ok?
    ensures var ts := Lex(parts[0].units).value;
            var vs := TokenValues(ts, base);
            var qs := TokenSeqs(ts);
            ChunkValues(parts, prev, base, addr)
            == Before(vs, qs, ChunkValues(parts[1..], if |vs| > 0 then Some(vs[|vs| - 1]) else prev, base + |qs|, addr))
  {
  }

  /** The slot before the cursor after values are spliced in is the last of them, if any. */
  lemma PreviousAfter(w: Writer, vs: seq<int>, qs: seq<seq<Unit>>)
    requires Valid(w)
    ensures Valid(Writer(Splice(w.row, w.cur, vs), w.cur + |vs|, w.seqs + qs))
    ensures Previous(Writer(Splice(w.row, w.cur, vs), w.cur + |vs|, w.seqs + qs))
            == if |vs| > 0 then Some(vs[|vs| - 1]) else Previous(w)
  {
    SpliceAt(w.row, w.cur, vs);
  }

  lemma {:induction false} CountPartSplices(w: Writer, parts: seq<Part>, addr: int)
    requires Valid(w) && |parts| > 0 && parts[0].Count?
    ensures WritesChunkValues(w, parts, addr)
    decreases |parts|, 0
  {
    var n := parts[0].n;
    if n <= 0 {
      WritePartsSplices(w, parts[1..], addr);
    } else if w.cur > 0 {
      var vs := Run(n, w.row[w.cur - 1] + 1);
      var none: seq<seq<Unit>> := [];
      var w1 := Writer(Splice(w.row, w.cur, vs), w.cur + |vs|, w.seqs + none);
      PreviousAfter(w, vs, none);
      var cv := ChunkValues(parts[1..], Previous(w1), |w1.seqs|, addr);
      calc {
        WriteParts(w, parts, addr);
      == { CountWrites(w, parts, addr, vs, w1); }
        WriteParts(w1, parts[1..], addr);
      == { WritePartsSplices(w1, parts[1..], addr); }
        Spliced(w1, cv);
      == { SplicedAfter(w, vs, none, cv); }
        Spliced(w, Before(vs, none, cv));
      == { CountValues(parts, Previous(w), |w.seqs|, addr); }
        Spliced(w, ChunkValues(parts, Previous(w), |w.seqs|, addr));
      }
    }
  }

  /** The loop on a number element after a slot writes the run of codes after that slot's and
      goes on with the rest. */
  lemma CountWrites(w: Writer, parts: seq<Part>, addr: int, vs: seq<int>, w1: Writer)
    requires Valid(w) && |parts| > 0 && parts[0].Count? && parts[0].n > 0 && w.cur > 0
    requires vs == Run(parts[0].n, w.row[w.cur - 1] + 1)
    requires w1 == Writer(Splice(w.row, w.cur, vs), w.cur + |vs|, w.seqs + [])
    ensures Valid(w1) && WriteParts(w, parts, addr) == WriteParts(w1, parts[1..], addr)
  {
    var n, code := parts[0].n, w.row[w.cur - 1] + 1;
    assert WriteRun(w, n, code) == w1 by {
      WriteRunSplices(w, n, code);
      assert w.seqs + [] == w.seqs;
    }
    assert WriteParts(w, parts, addr) == WriteParts(WriteRun(w, n, code), parts[1..], addr);
  }

  /** The values of a number element after a value are the run of codes after it, then those
      of the rest of the chunk, which continues from the last of them. */
  lemma CountValues(parts: seq<Part>, prev: Option<int>, base: nat, addr: int)
    requires |parts| > 0 && parts[0].Count? && parts[0].n > 0 && prev.Some?
    ensures var n := parts[0].n;
            var vs := Run(n, prev.value + 1);
            ChunkValues(parts, prev, base, addr) == Before(vs, [], ChunkValues(parts[1..], Some(vs[n - 1]), base, addr))
  {
    var n := parts[0].n;
    var cv := ChunkValues(parts[1..], Some(Run(n, prev.value + 1)[n - 1]), base, addr);
    if cv.Ok? {
      var none: seq<seq<Unit>> := [];
      assert none + cv.value.1 == cv.value.1;
    }
  }

  // ---------------------------------------------------------------------------
  // _addDecodeChunk

  /** `_addDecodeChunk` with the end-of-chunk test as a parameter: the chunk is rejected when its
      cursor ends past `limit`. The chunk walks to the node of its address, writes its values
      there from the address's low byte on, and appends its sequences to the sequence table. It
      fails with the first error its elements raise, then with `ChunkTooLong`. */
  function AddChunkWithLimit(t: Trie, chunk: Chunk, limit: nat): (r: Result<Trie, BuildError>)
    requires Rows256(t) && |t.nodes| > 0 && limit <= NODE_SIZE
    ensures var g := GetDecodeTrieNode(t, chunk.addr);
            && (g.Err? ==> r == Err(g.error))
            && (g.Ok? ==>
                  var t1 := g.value.0;
                  var n := g.value.1;
                  var c0 := LowByte(chunk.addr);
                  var prev := if c0 == 0 then None else Some(t1.nodes[n][c0 - 1]);
                  var cv := ChunkValues(chunk.parts, prev, |t1.seqs|, chunk.addr);
                  && (cv.Err? ==> r == Err(cv.error))
                  && (cv.Ok? && c0 + |cv.value.0| > limit ==> r == Err(ChunkTooLong(chunk.addr, c0 + |cv.value.0|)))
                  && (cv.Ok? && c0 + |cv.value.0| <= limit ==>
                        r == Ok(Trie(t1.nodes[n := Splice(t1.nodes[n], c0, cv.value.0)], t1.seqs + cv.value.1))))
    ensures r.Ok? ==> Rows256(r.value) && |t.nodes| <= |r.value.nodes|
  {
    match GetDecodeTrieNode(t, chunk.addr)
    case Err(e) => Err(e)
    case Ok((t1, n)) =>
      var w0 := Writer(t1.nodes[n], LowByte(chunk.addr), t1.seqs);
      WritePartsSplices(w0, chunk.parts, chunk.addr);
      var w := WriteParts(w0, chunk.parts, chunk.addr);
      if w.Err? then Err(w.error)
      else if w.value.cur > limit then Err(ChunkTooLong(chunk.addr, w.value.cur))
      else Ok(Trie(t1.nodes[n := w.value.row], w.value.seqs))
  }

  /** `_addDecodeChunk` as written: a chunk fails when its cursor ends above 0xFF, which also
      rejects a chunk whose last character lands in slot 0xFF. */
  function AddDecodeChunkAsWritten(t: Trie, chunk: Chunk): (r: Result<Trie, BuildError>)
    requires Rows256(t) && |t.nodes| > 0
    ensures r.Ok? ==> Rows256(r.value) && |t.nodes| <= |r.value.nodes|
  {
    AddChunkWithLimit(t, chunk, 0xFF)
  }

  /** `_addDecodeChunk` with the evidently intended end test: a chunk fails only when it has
      written past the last slot of its node. */
  function AddDecodeChunk(t: Trie, chunk: Chunk): (r: Result<Trie, BuildError>)
    requires Rows256(t) && |t.nodes| > 0
    ensures r.Ok? ==> Rows256(r.value) && |t.nodes| <= |r.value.nodes|
  {
    AddChunkWithLimit(t, chunk, NODE_SIZE)
  }

  /** A chunk whose characters fill the node up to and including slot 0xFF: the code as written
      rejects it, the corrected test accepts it and stores the character in slot 0xFF. */
  lemma LastSlotChunk()
    ensures AddDecodeChunkAsWritten(EmptyTrie(), Chunk(0xFF, [Text([0x41])])) == Err(ChunkTooLong(0xFF, 0x100))
    ensures var r := AddDecodeChunk(EmptyTrie(), Chunk(0xFF, [Text([0x41])]));
            r.Ok? && r.value.nodes[0][0xFF] == 0x41
  {
    var t := EmptyTrie();
    var chunk := Chunk(0xFF, [Text([0x41])]);
    assert GetDecodeTrieNode(t, 0xFF) == Ok((t, 0));
    var u: seq<Unit> := [0x41];
    assert Lex(u) == Ok([Char(0x41)]) by {
      assert HeadToken(u) == Ok(Char(0x41)) && HeadLength(u) == 1;
      assert u[1..] == [] && Lex(u[1..]) == Ok([]);
      assert [Char(0x41)] + [] == [Char(0x41)];
    }
    var ts := [Char(0x41)];
    assert TokenValues(ts, 0) == [0x41] && TokenSeqs(ts) == [] by {
      assert ts[1..] == [];
    }
    assert ChunkValues([], Some(0x41), 0, 0xFF) == Ok(([], []));
    assert ChunkValues(chunk.parts, Some(t.nodes[0][0xFE]), 0, 0xFF) == Ok(([0x41], [])) by {
      assert chunk.parts[0] == Text(u) && chunk.parts[1..] == [];
      assert [0x41] + [] == [0x41];
      var none: seq<seq<Unit>> := [];
      assert none + none == none;
    }
  }

  /** A chunk is accepted exactly when its elements are well formed and its cursor ends at or
      below the limit (0xFF as written, 0x100 corrected); its values then occupy the slots from
      the address's low byte on, in order, and nothing else in that node changes. */
  lemma ChunkLandsInsideNode(t: Trie, chunk: Chunk, limit: nat)
    requires Rows256(t) && |t.nodes| > 0 && limit <= NODE_SIZE
    requires GetDecodeTrieNode(t, chunk.addr).Ok?
    ensures var (t1, n) := GetDecodeTrieNode(t, chunk.addr).value;
            var c0 := LowByte(chunk.addr);
            var prev := if c0 == 0 then None else Some(t1.nodes[n][c0 - 1]);
            var cv := ChunkValues(chunk.parts, prev, |t1.seqs|, chunk.addr);
            var r := AddChunkWithLimit(t, chunk, limit);
            && (r.Ok? <==> cv.Ok? && c0 + |cv.value.0| <= limit)
            && (r.Ok? ==>
                  var vals := cv.value.0;
                  && |r.value.nodes| == |t1.nodes|
                  && (forall m :: 0 <= m < |t1.nodes| && m != n ==> r.value.nodes[m] == t1.nodes[m])
                  && (forall i :: 0 <= i < |vals| ==> r.value.nodes[n][c0 + i] == vals[i])
                  && (forall b :: 0 <= b < NODE_SIZE && !(c0 <= b < c0 + |vals|) ==> r.value.nodes[n][b] == t1.nodes[n][b]))
  {
    var (t1, n) := GetDecodeTrieNode(t, chunk.addr).value;
    var c0 := LowByte(chunk.addr);
    var prev := if c0 == 0 then None else Some(t1.nodes[n][c0 - 1]);
    var cv := ChunkValues(chunk.parts, prev, |t1.seqs|, chunk.addr);
    if cv.Ok? {
      SpliceAt(t1.nodes[n], c0, cv.value.0);
    }
  }

  /** The constructor's loop over the mapping table, each chunk added as the source adds it. */
  function AddChunks(t: Trie, chunks: seq<Chunk>): (r: Result<Trie, BuildError>)
    requires Rows256(t) && |t.nodes| > 0
    ensures r.Ok? ==> Rows256(r.value) && |t.nodes| <= |r.value.nodes|
    decreases |chunks|
  {
    if |chunks| == 0 then Ok(t)
    else
      var r1 := AddDecodeChunkAsWritten(t, chunks[0]);
      if r1.Err? then r1 else AddChunks(r1.value, chunks[1..])
  }

  /** Adding two lists of chunks one after the other is adding their concatenation. */
  lemma {:induction false} AddChunksAppend(t: Trie, a: seq<Chunk>, b: seq<Chunk>)
    requires Rows256(t) && |t.nodes| > 0
    ensures var ra := AddChunks(t, a);
            AddChunks(t, a + b) == if ra.Err? then ra else AddChunks(ra.value, b)
    decreases |a|
  {
    if |a| > 0 {
      assert (a + b)[0] == a[0] && (a + b)[1..] == a[1..] + b;
      var r1 := AddDecodeChunkAsWritten(t, a[0]);
      if r1.Ok? {
        AddChunksAppend(r1.value, a[1..], b);
      }
    } else {
      assert a + b == b;
    }
  }

  /** The decode trie of a mapping table: an all-UNASSIGNED root, then every chunk in order. */
  function BuildTrie(chunks: seq<Chunk>): (r: Result<Trie, BuildError>)
    ensures r.Ok? ==> Rows256(r.value) && |r.value.nodes| > 0
  {
    AddChunks(EmptyTrie(), chunks)
  }
}
