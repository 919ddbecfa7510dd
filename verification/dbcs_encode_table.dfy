/** The encode table of the multi-byte codec (`encodings/dbcs-codec.js`): the reverse of the
    decode trie. Code points are looked up in buckets of 256 slots keyed by `code >> 8`; a slot
    holds the multi-byte code, UNASSIGNED, or SEQ_START - k for a code point that starts a
    sequence, `k` indexing a list of sequence trees. A sequence tree maps the following code
    points to further trees or to leaves holding multi-byte codes, and its DEF_CHAR entry is the
    code of the sequence that ends there. */
module DbcsEncodeTable {
  import opened Base
  import opened DbcsTables

  // ---------------------------------------------------------------------------
  // Data

  /** A node of a sequence tree: entries keyed by code point, and the DEF_CHAR entry. */
  datatype SeqTree = SeqTree(children: map<int, SeqEntry>, def: Option<int>)

  datatype SeqEntry = Leaf(code: int) | Child(tree: SeqTree)

  /** `encodeTable` (buckets that exist) and `encodeTableSeq`. */
  datatype EncodeTable = EncodeTable(buckets: map<int, seq<int>>, seqs: seq<SeqTree>)

  predicate ValidTable(et: EncodeTable) {
    forall h :: h in et.buckets ==> |et.buckets[h]| == NODE_SIZE
  }

  function EmptyTable(): EncodeTable {
    EncodeTable(map[], [])
  }

  /** Setting a DEF_CHAR or a sequence through a bucket value that names no sequence tree: the
      source dereferences `undefined` and throws a TypeError. */
  datatype TableError = MissingSequence(index: int)

  /** The bucket key and slot of a code point: `code >> 8` and `code & 0xFF`. */
  function High(u: int): int { Sar8(u) }

  predicate SameSlot(u: int, v: int) {
    High(u) == High(v) && LowByte(u) == LowByte(v)
  }

  /** The value the encoder reads for `u`: the bucket slot, or UNASSIGNED when there is no
      bucket. */
  function Lookup(et: EncodeTable, u: int): int
    requires ValidTable(et)
  {
    if High(u) in et.buckets then et.buckets[High(u)][LowByte(u)] else UNASSIGNED
  }

  // ---------------------------------------------------------------------------
  // _getEncodeBucket, _setEncodeChar

  /** `_getEncodeBucket(u)`: creates the bucket of `u` filled with UNASSIGNED when missing. This
      changes no slot's reading. */
  function GetEncodeBucket(et: EncodeTable, u: int): (r: EncodeTable)
    requires ValidTable(et)
    ensures ValidTable(r) && High(u) in r.buckets && r.seqs == et.seqs
    ensures forall v :: Lookup(r, v) == Lookup(et, v)
  {
    if High(u) in et.buckets then et
    else EncodeTable(et.buckets[High(u) := UnassignedNode()], et.seqs)
  }

  /** Stores `value` in the slot of `u`, bucket already present. */
  function SetSlot(et: EncodeTable, u: int, value: int): (r: EncodeTable)
    requires ValidTable(et) && High(u) in et.buckets
    ensures ValidTable(r) && r.seqs == et.seqs && Lookup(r, u) == value
    ensures forall v :: !SameSlot(u, v) ==> Lookup(r, v) == Lookup(et, v)
  {
    var h := High(u);
    EncodeTable(et.buckets[h := et.buckets[h][LowByte(u) := value]], et.seqs)
  }

  /** `_setEncodeChar(u, code)`. An UNASSIGNED slot takes the code; a slot that starts a sequence
      gets the code as that sequence's DEF_CHAR (a single code point arriving after the
      sequence); any other slot keeps its value, so the first mapping of a code point wins. */
  function SetEncodeChar(et: EncodeTable, u: int, code: int): (r: Result<EncodeTable, TableError>)
    requires ValidTable(et)
    ensures r.Ok? ==> ValidTable(r.value) && forall w :: !SameSlot(u, w) ==> Lookup(r.value, w) == Lookup(et, w)
    ensures var v := Lookup(et, u);
            && (v == UNASSIGNED ==> r.Ok? && Lookup(r.value, u) == code && r.value.seqs == et.seqs)
            && (SEQ_START < v && v != UNASSIGNED ==> r.Ok? && Lookup(r.value, u) == v && r.value.seqs == et.seqs)
            && (v <= SEQ_START ==>
                  && (r.Ok? <==> SEQ_START - v < |et.seqs|)
                  && (r.Ok? ==> Lookup(r.value, u) == v
                                && r.value.seqs == et.seqs[SEQ_START - v := et.seqs[SEQ_START - v].(def := Some(code))]))
  {
    var et1 := GetEncodeBucket(et, u);
    var v := Lookup(et1, u);
    if v <= SEQ_START then
      var k := SEQ_START - v;
      if k < |et1.seqs| then
        Ok(EncodeTable(et1.buckets, et1.seqs[k := et1.seqs[k].(def := Some(code))]))
      else Err(MissingSequence(k))
    else if v == UNASSIGNED then Ok(SetSlot(et1, u, code))
    else Ok(et1)
  }

  // ---------------------------------------------------------------------------
  // _setEncodeSequence

  /** The entry reached by following `keys` from `t`, if every step but the last finds a tree. */
  function Walk(t: SeqTree, keys: seq<int>): Option<SeqEntry>
    requires |keys| > 0
    decreases |keys|
  {
    if keys[0] !in t.children then None
    else if |keys| == 1 then Some(t.children[keys[0]])
    else match t.children[keys[0]]
      case Child(c) => Walk(c, keys[1..])
      case Leaf(_) => None
  }

  function Repeat(x: int, n: nat): (r: seq<int>)
    ensures |r| == n && forall i :: 0 <= i < n ==> r[i] == x
  {
    seq(n, _ => x)
  }

  /** The traversal loop and leaf store of `_setEncodeSequence`: `depth` steps through the entry
      under `key` (a leaf met on the way becomes the DEF_CHAR of a fresh tree put in its place),
      then the leaf `code` under `last`. */
  function InsertPath(t: SeqTree, key: int, depth: nat, last: int, code: int): (r: SeqTree)
    ensures Walk(r, Repeat(key, depth) + [last]) == Some(Leaf(code))
    ensures r.def == t.def
    decreases depth
  {
    if depth == 0 then SeqTree(t.children[last := Leaf(code)], t.def)
    else
      var child :=
        if key in t.children && t.children[key].Child? then t.children[key].tree
        else SeqTree(map[], if key in t.children then Some(t.children[key].code) else None);
      var r := SeqTree(t.children[key := Child(InsertPath(child, key, depth - 1, last, code))], t.def);
      assert (Repeat(key, depth) + [last])[1..] == Repeat(key, depth - 1) + [last];
      r
  }

  /** The path under the first code point at which `_setEncodeSequence` stores a sequence. The
      traversal loop keys every intermediate step on the first code point rather than on the
      sequence's own code points, so a sequence of three or more units is stored under
      `q[0], q[0], ..., q[0], q[|q|-1]`; sequences of two units are stored under their second
      unit. */
  function StoredPath(q: seq<Unit>): (p: seq<int>)
    requires |q| > 0
    ensures |p| == if |q| >= 2 then |q| - 1 else 1
  {
    Repeat(q[0], if |q| >= 2 then |q| - 2 else 0) + [q[|q| - 1]]
  }

  /** `_setEncodeSequence(q, code)`. The first code point's slot either already names a tree,
      or gets a fresh one (a code it held becomes the tree's DEF_CHAR); the rest of the sequence
      is stored in that tree along `StoredPath(q)`. */
  function SetEncodeSequence(et: EncodeTable, q: seq<Unit>, code: int): (r: Result<EncodeTable, TableError>)
    requires ValidTable(et) && |q| > 0
    ensures r.Ok? ==> ValidTable(r.value) && forall w :: !SameSlot(q[0], w) ==> Lookup(r.value, w) == Lookup(et, w)
    ensures var v := Lookup(et, q[0]);
            && (r.Err? <==> v <= SEQ_START && SEQ_START - v >= |et.seqs|)
            && (r.Ok? ==>
                  var w := Lookup(r.value, q[0]);
                  var k := SEQ_START - w;
                  && w <= SEQ_START && 0 <= k < |r.value.seqs|
                  && Walk(r.value.seqs[k], StoredPath(q)) == Some(Leaf(code))
                  && (v <= SEQ_START ==> w == v && |r.value.seqs| == |et.seqs| && r.value.seqs[k].def == et.seqs[k].def)
                  && (v > SEQ_START ==>
                        k == |et.seqs| && |r.value.seqs| == |et.seqs| + 1
                        && r.value.seqs[k].def == if v == UNASSIGNED then None else Some(v))
                  && (forall j :: 0 <= j < |et.seqs| && j != k ==> r.value.seqs[j] == et.seqs[j]))
  {
    var u := q[0];
    var start := SequenceRoot(GetEncodeBucket(et, u), u);
    if start.Err? then Err(start.error)
    else
      var et3 := start.value.0;
      var k := start.value.1;
      var depth := if |q| >= 2 then |q| - 2 else 0;
      Ok(EncodeTable(et3.buckets, et3.seqs[k := InsertPath(et3.seqs[k], u, depth, q[|q| - 1], code)]))
  }

  /** The first half of `_setEncodeSequence`: the tree the slot of `u` names, or a fresh tree
      appended to the list and named by the slot, with the code the slot held, if any, as its
      DEF_CHAR. */
  function SequenceRoot(et: EncodeTable, u: int): (r: Result<(EncodeTable, nat), TableError>)
    requires ValidTable(et) && High(u) in et.buckets
    ensures r.Ok? ==> ValidTable(r.value.0) && r.value.1 < |r.value.0.seqs|
  {
    var v := Lookup(et, u);
    if v <= SEQ_START then
      if SEQ_START - v < |et.seqs| then Ok((et, SEQ_START - v)) else Err(MissingSequence(SEQ_START - v))
    else
      var newTree := SeqTree(map[], if v != UNASSIGNED then Some(v) else None);
      var et2 := SetSlot(et, u, SEQ_START - |et.seqs|);
      Ok((EncodeTable(et2.buckets, et2.seqs + [newTree]), |et.seqs|))
  }

  // ---------------------------------------------------------------------------
  // _fillEncodeTable

  /** One `encodeSkipVals` entry: a single multi-byte code, or an inclusive range of them. */
  datatype SkipVal = Val(v: int) | Range(from: int, to: int)

  predicate Skipped(skips: seq<SkipVal>, mb: int) {
    exists i :: 0 <= i < |skips| && match skips[i]
      case Val(v) => mb == v
      case Range(from, to) => from <= mb <= to
  }

  /** One step of the encode-table derivation: a code point and the multi-byte code it gets, or
      a sequence and its code. */
  datatype Mapping = CharMapping(u: int, mb: int) | SeqMapping(q: seq<Unit>, mb: int)

  predicate ValidMapping(m: Mapping) {
    m.SeqMapping? ==> |m.q| > 0
  }

  function ApplyMapping(et: EncodeTable, m: Mapping): (r: Result<EncodeTable, TableError>)
    requires ValidTable(et) && ValidMapping(m)
    ensures r.Ok? ==> ValidTable(r.value)
  {
    match m
    case CharMapping(u, mb) => SetEncodeChar(et, u, mb)
    case SeqMapping(q, mb) => SetEncodeSequence(et, q, mb)
  }

  /** The mappings applied one after another, stopping at the first error. */
  function ApplyAll(et: EncodeTable, ms: seq<Mapping>): (r: Result<EncodeTable, TableError>)
    requires ValidTable(et) && forall i :: 0 <= i < |ms| ==> ValidMapping(ms[i])
    ensures r.Ok? ==> ValidTable(r.value)
    decreases |ms|
  {
    if |ms| == 0 then Ok(et)
    else
      var r1 := ApplyMapping(et, ms[0]);
      if r1.Err? then r1 else ApplyAll(r1.value, ms[1..])
  }

  lemma {:induction false} ApplyAllAppend(et: EncodeTable, a: seq<Mapping>, b: seq<Mapping>)
    requires ValidTable(et)
    requires forall i :: 0 <= i < |a| ==> ValidMapping(a[i])
    requires forall i :: 0 <= i < |b| ==> ValidMapping(b[i])
    ensures forall i :: 0 <= i < |a + b| ==> ValidMapping((a + b)[i])
    ensures var ra := ApplyAll(et, a);
            ApplyAll(et, a + b) == if ra.Err? then ra else ApplyAll(ra.value, b)
    decreases |a|
  {
    assert forall i :: 0 <= i < |a + b| ==> ValidMapping((a + b)[i]) by {
      forall i | 0 <= i < |a + b| ensures ValidMapping((a + b)[i]) {
        if i < |a| { assert (a + b)[i] == a[i]; } else { assert (a + b)[i] == b[i - |a|]; }
      }
    }
    if |a| == 0 {
      assert a + b == b;
    } else {
      assert (a + b)[0] == a[0] && (a + b)[1..] == a[1..] + b;
      var r1 := ApplyMapping(et, a[0]);
      if r1.Ok? {
        ApplyAllAppend(r1.value, a[1..], b);
      }
    }
  }

  /** The mappings `_fillEncodeTable(n, prefix)` applies from slot `i` of node `n` on, in the
      order it applies them: slots in ascending byte order, a node pointer expanded depth-first
      in place with the prefix shifted left by a byte. */
  function DfsMappings(t: Trie, n: nat, prefix: int, skips: seq<SkipVal>, i: nat): (ms: seq<Mapping>)
    requires WellFormed(t) && n < |t.nodes| && i <= NODE_SIZE
    ensures forall j :: 0 <= j < |ms| ==> ValidMapping(ms[j]) && !Skipped(skips, ms[j].mb)
    decreases |t.nodes| - n, NODE_SIZE - i, 1
  {
    if i == NODE_SIZE then []
    else
      var here := SlotMappings(t, n, prefix, skips, i);
      var rest := DfsMappings(t, n, prefix, skips, i + 1);
      assert forall j :: 0 <= j < |here + rest| ==> (here + rest)[j] == if j < |here| then here[j] else rest[j - |here|];
      here + rest
  }

  /** The mappings of slot `i` of node `n`: none for a skipped multi-byte code or an UNASSIGNED
      slot, one for a code or a sequence, and the whole subtree's for a node pointer. */
  function SlotMappings(t: Trie, n: nat, prefix: int, skips: seq<SkipVal>, i: nat): (ms: seq<Mapping>)
    requires WellFormed(t) && n < |t.nodes| && i < NODE_SIZE
    ensures forall j :: 0 <= j < |ms| ==> ValidMapping(ms[j]) && !Skipped(skips, ms[j].mb)
    decreases |t.nodes| - n, NODE_SIZE - i, 0
  {
    assert ForwardSlot(t, n, i);
    var v := t.nodes[n][i];
    var mb := prefix + i;
    if Skipped(skips, mb) then []
    else if v >= 0 then [CharMapping(v, mb)]
    else if v <= NODE_START then DfsMappings(t, NODE_START - v, Shl8(mb), skips, 0)
    else if v <= SEQ_START then [SeqMapping(t.seqs[SEQ_START - v], mb)]
    else []
  }

  /** `_fillEncodeTable(n, prefix, skips)` from slot `i` on, as the source runs it: each slot
      is handled in place, a node pointer by a recursive call. */
  function FillEncodeTable(t: Trie, n: nat, prefix: int, skips: seq<SkipVal>, et: EncodeTable, i: nat)
    : (r: Result<EncodeTable, TableError>)
    requires WellFormed(t) && n < |t.nodes| && i <= NODE_SIZE && ValidTable(et)
    ensures r.Ok? ==> ValidTable(r.value)
    decreases |t.nodes| - n, NODE_SIZE - i, 1
  {
    if i == NODE_SIZE then Ok(et)
    else
      var r1 := FillSlot(t, n, prefix, skips, et, i);
      if r1.Err? then r1 else FillEncodeTable(t, n, prefix, skips, r1.value, i + 1)
  }

  /** One iteration of the loop of `_fillEncodeTable`. */
  function FillSlot(t: Trie, n: nat, prefix: int, skips: seq<SkipVal>, et: EncodeTable, i: nat)
    : (r: Result<EncodeTable, TableError>)
    requires WellFormed(t) && n < |t.nodes| && i < NODE_SIZE && ValidTable(et)
    ensures r.Ok? ==> ValidTable(r.value)
    decreases |t.nodes| - n, NODE_SIZE - i, 0
  {
    assert ForwardSlot(t, n, i);
    var v := t.nodes[n][i];
    var mb := prefix + i;
    if Skipped(skips, mb) then Ok(et)
    else if v >= 0 then SetEncodeChar(et, v, mb)
    else if v <= NODE_START then FillEncodeTable(t, NODE_START - v, Shl8(mb), skips, et, 0)
    else if v <= SEQ_START then SetEncodeSequence(et, t.seqs[SEQ_START - v], mb)
    else Ok(et)
  }

  /** The in-place recursion applies exactly the depth-first list of mappings, in order. */
  lemma {:induction false} FillIsFold(t: Trie, n: nat, prefix: int, skips: seq<SkipVal>, et: EncodeTable, i: nat)
    requires WellFormed(t) && n < |t.nodes| && i <= NODE_SIZE && ValidTable(et)
    ensures FillEncodeTable(t, n, prefix, skips, et, i) == ApplyAll(et, DfsMappings(t, n, prefix, skips, i))
    decreases |t.nodes| - n, NODE_SIZE - i, 1
  {
    if i < NODE_SIZE {
      var here := SlotMappings(t, n, prefix, skips, i);
      var rest := DfsMappings(t, n, prefix, skips, i + 1);
      var r1 := ApplyAll(et, here);
      assert FillSlot(t, n, prefix, skips, et, i) == r1 by { FillSlotIsFold(t, n, prefix, skips, et, i); }
      assert ApplyAll(et, here + rest) == if r1.Err? then r1 else ApplyAll(r1.value, rest) by {
        ApplyAllAppend(et, here, rest);
      }
      assert DfsMappings(t, n, prefix, skips, i) == here + rest;
      if r1.Ok? {
        FillIsFold(t, n, prefix, skips, r1.value, i + 1);
      }
    }
  }

  lemma {:induction false} FillSlotIsFold(t: Trie, n: nat, prefix: int, skips: seq<SkipVal>, et: EncodeTable, i: nat)
    requires WellFormed(t) && n < |t.nodes| && i < NODE_SIZE && ValidTable(et)
    ensures FillSlot(t, n, prefix, skips, et, i) == ApplyAll(et, SlotMappings(t, n, prefix, skips, i))
    decreases |t.nodes| - n, NODE_SIZE - i, 0
  {
    assert ForwardSlot(t, n, i);
    var v := t.nodes[n][i];
    var mb := prefix + i;
    if Skipped(skips, mb) {
    } else if v >= 0 {
      assert [CharMapping(v, mb)][1..] == [];
    } else if v <= NODE_START {
      FillIsFold(t, NODE_START - v, Shl8(mb), skips, et, 0);
    } else if v <= SEQ_START {
      assert [SeqMapping(t.seqs[SEQ_START - v], mb)][1..] == [];
    }
  }

  /** The whole derivation, started at the root with prefix 0. */
  function FillFromRoot(t: Trie, skips: seq<SkipVal>): (r: Result<EncodeTable, TableError>)
    requires WellFormed(t)
    ensures r.Ok? ==> ValidTable(r.value)
    ensures r == ApplyAll(EmptyTable(), DfsMappings(t, 0, 0, skips, 0))
  {
    FillIsFold(t, 0, 0, skips, EmptyTable(), 0);
    FillEncodeTable(t, 0, 0, skips, EmptyTable(), 0)
  }

  // ---------------------------------------------------------------------------
  // First mapping wins

  /** The multi-byte code of the first single-character mapping in `ms` whose code point
      shares `u`'s slot. */
  function FirstCode(ms: seq<Mapping>, u: int): Option<int>
    decreases |ms|
  {
    if |ms| == 0 then None
    else if ms[0].CharMapping? && SameSlot(ms[0].u, u) then Some(ms[0].mb)
    else FirstCode(ms[1..], u)
  }

  /** Over single-character mappings, a slot that starts out UNASSIGNED ends up holding the code
      of the first mapping for it, and later mappings for the same code point are ignored; a
      slot no mapping names keeps its value. Single-character mappings only ever fill
      UNASSIGNED slots, so nothing goes wrong while no slot names a sequence. */
  lemma {:induction false} FirstMappingWins(et: EncodeTable, ms: seq<Mapping>, u: int)
    requires ValidTable(et)
    requires forall i :: 0 <= i < |ms| ==> ms[i].CharMapping?
    requires forall w :: Lookup(et, w) > SEQ_START
    requires forall i :: 0 <= i < |ms| ==> ms[i].mb >= 0
    ensures ApplyAll(et, ms).Ok?
    ensures forall w :: Lookup(ApplyAll(et, ms).value, w) > SEQ_START
    ensures var s := Lookup(ApplyAll(et, ms).value, u);
            match FirstCode(ms, u)
            case None => s == Lookup(et, u)
            case Some(mb) => s == if Lookup(et, u) == UNASSIGNED then mb else Lookup(et, u)
    decreases |ms|
  {
    if |ms| > 0 {
      var m := ms[0];
      var r1 := SetEncodeChar(et, m.u, m.mb);
      assert r1.Ok?;
      var et1 := r1.value;
      assert forall w :: Lookup(et1, w) > SEQ_START by {
        forall w ensures Lookup(et1, w) > SEQ_START {
          if SameSlot(m.u, w) {
            assert Lookup(et1, w) == Lookup(et1, m.u) && Lookup(et, w) == Lookup(et, m.u);
          }
        }
      }
      FirstMappingWins(et1, ms[1..], u);
      if SameSlot(m.u, u) {
        assert Lookup(et1, u) == Lookup(et1, m.u) && Lookup(et, u) == Lookup(et, m.u);
        SlotStaysAfterAssigned(et1, ms[1..], u);
      }
    }
  }

  /** Once a slot holds a code, single-character mappings leave it alone. */
  lemma {:induction false} SlotStaysAfterAssigned(et: EncodeTable, ms: seq<Mapping>, u: int)
    requires ValidTable(et)
    requires forall i :: 0 <= i < |ms| ==> ms[i].CharMapping?
    requires forall w :: Lookup(et, w) > SEQ_START
    requires forall i :: 0 <= i < |ms| ==> ms[i].mb >= 0
    requires Lookup(et, u) != UNASSIGNED
    ensures ApplyAll(et, ms).Ok? && Lookup(ApplyAll(et, ms).value, u) == Lookup(et, u)
    decreases |ms|
  {
    if |ms| > 0 {
      var m := ms[0];
      var et1 := SetEncodeChar(et, m.u, m.mb).value;
      if SameSlot(m.u, u) {
        assert Lookup(et1, u) == Lookup(et1, m.u) && Lookup(et, u) == Lookup(et, m.u);
      }
      assert forall w :: Lookup(et1, w) > SEQ_START by {
        forall w ensures Lookup(et1, w) > SEQ_START {
          if SameSlot(m.u, w) {
            assert Lookup(et1, w) == Lookup(et1, m.u) && Lookup(et, w) == Lookup(et, m.u);
          }
        }
      }
      SlotStaysAfterAssigned(et1, ms[1..], u);
    }
  }
}
