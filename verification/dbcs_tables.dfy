/** The decode trie of the multi-byte codec (`encodings/dbcs-codec.js`). A trie is a list of
    256-slot nodes, node 0 being the root, and a list of code-unit sequences. Each slot holds a
    tagged integer: a character code (>= 0), UNASSIGNED (-1), GB18030_CODE (-2), a sequence
    index (SEQ_START - k, from -10 down) or a node index (NODE_START - k, from -1000 down).
    Slots are kept as the raw integers, since the builder does arithmetic on them; `Classify`
    gives the tagged reading every consumer of the trie uses. */
module DbcsTables {
  import opened Base

  const UNASSIGNED: int := -1
  const GB18030_CODE: int := -2
  const SEQ_START: int := -10
  const NODE_START: int := -1000

  /** Number of slots in a trie node, one per byte value. */
  const NODE_SIZE: nat := 0x100

  datatype Slot =
    | Code(code: nat)
    | Unassigned
    | Gb18030
    | Sequence(index: nat)
    | Node(index: nat)
    | Invalid(raw: int)  // -3 .. -9, which no consumer accepts

  /** The reading of a raw slot. The node test comes before the sequence test everywhere in the
      codec, so a sequence index of 990 or more reads as a node. */
  function Classify(v: int): (s: Slot)
    ensures s.Code? <==> v >= 0
    ensures s.Node? <==> v <= NODE_START
    ensures s.Sequence? <==> NODE_START < v <= SEQ_START
    ensures s.Invalid? <==> SEQ_START < v < GB18030_CODE
  {
    if v >= 0 then Code(v)
    else if v == UNASSIGNED then Unassigned
    else if v == GB18030_CODE then Gb18030
    else if v <= NODE_START then Node(NODE_START - v)
    else if v <= SEQ_START then Sequence(SEQ_START - v)
    else Invalid(v)
  }

  /** The raw value of a tagged slot. */
  function Raw(s: Slot): int {
    match s
    case Code(c) => c
    case Unassigned => UNASSIGNED
    case Gb18030 => GB18030_CODE
    case Sequence(k) => SEQ_START - k
    case Node(k) => NODE_START - k
    case Invalid(v) => v
  }

  /** A slot survives the trip through its raw value unless it is a sequence index too large to
      be told apart from a node, or an `Invalid` holding a value outside -9..-3. */
  predicate Representable(s: Slot) {
    match s
    case Sequence(k) => k < SEQ_START - NODE_START
    case Invalid(v) => SEQ_START < v < GB18030_CODE
    case _ => true
  }

  lemma ClassifyRaw(s: Slot)
    ensures Representable(s) <==> Classify(Raw(s)) == s
  {
  }

  lemma RawClassify(v: int)
    ensures Raw(Classify(v)) == v
  {
  }

  /** The trie: `nodes[0]` is the root, and the sequence table holds the code units a
      sequence slot stands for. */
  datatype Trie = Trie(nodes: seq<seq<int>>, seqs: seq<seq<Unit>>)

  /** A node with every slot UNASSIGNED (`UNASSIGNED_NODE`). */
  function UnassignedNode(): (n: seq<int>)
    ensures |n| == NODE_SIZE && forall b :: 0 <= b < NODE_SIZE ==> n[b] == UNASSIGNED
  {
    seq(NODE_SIZE, _ => UNASSIGNED)
  }

  /** The trie before any chunk is added: an all-UNASSIGNED root and no sequences. */
  function EmptyTrie(): Trie {
    Trie([UnassignedNode()], [])
  }

  predicate Rows256(t: Trie) {
    forall n :: 0 <= n < |t.nodes| ==> |t.nodes[n]| == NODE_SIZE
  }

  /** The slot of node `n` for byte `b`, tagged. */
  function SlotAt(t: Trie, n: nat, b: Byte): Slot
    requires n < |t.nodes| && |t.nodes[n]| == NODE_SIZE
  {
    Classify(t.nodes[n][b])
  }

  /** A slot the encode-table walk can act on: a pointer to a later, existing node, a sequence
      index within the sequence table, a code, or UNASSIGNED. */
  predicate ForwardSlot(t: Trie, n: nat, b: nat)
    requires n < |t.nodes| && b < |t.nodes[n]|
  {
    match Classify(t.nodes[n][b])
    case Node(k) => n < k < |t.nodes|
    case Sequence(k) => k < |t.seqs|
    case Gb18030 => false
    case Invalid(_) => false
    case _ => true
  }

  /** What the encode-table derivation needs of a trie: a root, 256 slots per node, node
      pointers that lead forward to existing nodes (so the depth-first walk ends), sequence
      indexes within the sequence table, non-empty sequences, and no GB18030 or invalid
      slots. */
  predicate WellFormed(t: Trie) {
    && |t.nodes| > 0
    && Rows256(t)
    && (forall k :: 0 <= k < |t.seqs| ==> |t.seqs[k]| > 0)
    && forall n, b :: 0 <= n < |t.nodes| && 0 <= b < NODE_SIZE ==> ForwardSlot(t, n, b)
  }

  /** A slot the decoder can act on: a pointer to an existing node, a sequence index within the
      sequence table, a code, UNASSIGNED, or GB18030_CODE when the GB18030 ranges are present. */
  predicate DecodableSlot(t: Trie, hasGb: bool, n: nat, b: nat)
    requires n < |t.nodes| && b < |t.nodes[n]|
  {
    match Classify(t.nodes[n][b])
    case Node(k) => k < |t.nodes|
    case Sequence(k) => k < |t.seqs|
    case Gb18030 => hasGb
    case Invalid(_) => false
    case _ => true
  }

  /** What the decoder needs of a trie: a root, 256 slots per node, and slots it can act on. */
  predicate Decodable(t: Trie, hasGb: bool) {
    && |t.nodes| > 0
    && Rows256(t)
    && forall n, b :: 0 <= n < |t.nodes| && 0 <= b < NODE_SIZE ==> DecodableSlot(t, hasGb, n, b)
  }

  lemma WellFormedIsDecodable(t: Trie, hasGb: bool)
    requires WellFormed(t)
    ensures Decodable(t, hasGb)
  {
    forall n, b | 0 <= n < |t.nodes| && 0 <= b < NODE_SIZE ensures DecodableSlot(t, hasGb, n, b) {
      assert ForwardSlot(t, n, b);
    }
  }
}
