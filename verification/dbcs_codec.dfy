/** The `DBCSCodec` constructor of `encodings/dbcs-codec.js`: the decode trie built from the
    mapping chunks, the encode table derived from it, the `encodeAdd` extras, the single-byte
    default, and the extra trie nodes that route four-byte GB18030 sequences to GB18030_CODE. */
module DbcsCodec {
  import opened Base
  import opened DbcsTables
  import opened DbcsTrie
  import opened DbcsEncodeTable
  import opened Gb18030

  /** The codec options the constructor reads. `table` stands for the chunks `table()` returns
      (absent when there is no `table`), `encodeAdd` lists the object's own keys and values in
      iteration order, and `gb18030` stands for the ranges `gb18030()` returns (absent when it
      is not a function). */
  datatype CodecOptions = CodecOptions(
    encodingName: string,
    table: Option<seq<Chunk>>,
    encodeSkipVals: seq<SkipVal>,
    encodeAdd: seq<(seq<Unit>, int)>,
    gb18030: Option<Ranges>)

  datatype CodecError =
    | NoOptions                    // no options at all
    | NoTable(name: string)        // options without a `table`
    | BadChunk(error: BuildError)  // a chunk the trie builder rejects
    | MalformedTrie                // a trie the encode-table walk cannot traverse
    | BadTable(tableError: TableError)
    | NoSingleByteBucket           // no bucket for code points 0..255 to take the default byte from
    | GbLeadNotNode(lead: Byte)    // a GB18030 lead byte whose root slot is not a node pointer

  datatype Codec = Codec(
    trie: Trie,
    encodeTable: EncodeTable,
    defCharSB: Option<int>,
    defaultCharUnicode: seq<Unit>,
    gb18030: Option<Ranges>)

  // ---------------------------------------------------------------------------
  // encodeAdd and the single-byte default

  /** `uChar.charCodeAt(0)` of an `encodeAdd` key; an empty key gives `NaN`, which the bucket
      lookup treats as 0. */
  function KeyUnit(key: seq<Unit>): Unit {
    if |key| == 0 then 0 else key[0]
  }

  /** The `encodeAdd` entries as single-character mappings, in order. */
  function AddMappings(adds: seq<(seq<Unit>, int)>): (ms: seq<Mapping>)
    ensures |ms| == |adds|
    ensures forall i :: 0 <= i < |adds| ==> ms[i] == CharMapping(KeyUnit(adds[i].0), adds[i].1)
  {
    seq(|adds|, i requires 0 <= i < |adds| => CharMapping(KeyUnit(adds[i].0), adds[i].1))
  }

  /** `defCharSB`: the value in bucket 0 for the first unit of the default single-byte string.
      An empty string or a unit above 0xFF reads past the bucket, and an UNASSIGNED value falls
      back to the bucket's `'?'` property, which arrays do not have; all three leave
      `defCharSB` undefined (`None`), so the `'?'` fallbacks never produce a byte. */
  function DefCharSB(et: EncodeTable, defaultCharSingleByte: seq<Unit>): (r: Result<Option<int>, CodecError>)
    requires ValidTable(et)
    ensures r.Err? <==> 0 !in et.buckets
    ensures r.Ok? ==>
              (r.value.Some? <==> |defaultCharSingleByte| > 0 && defaultCharSingleByte[0] < 0x100
                                  && Lookup(et, defaultCharSingleByte[0]) != UNASSIGNED)
    ensures r.Ok? && r.value.Some? ==> r.value.value == Lookup(et, defaultCharSingleByte[0])
  {
    if 0 !in et.buckets then Err(NoSingleByteBucket)
    else if |defaultCharSingleByte| == 0 || defaultCharSingleByte[0] >= 0x100 then Ok(None)
    else
      var v := et.buckets[0][defaultCharSingleByte[0]];
      if v == UNASSIGNED then Ok(None) else Ok(Some(v))
  }

  // ---------------------------------------------------------------------------
  // GB18030 wiring

  /** `row` with slots `from..to` set to `v`. */
  function SetSlots(row: seq<int>, from: int, to: int, v: int): (r: seq<int>)
    ensures |r| == |row|
    ensures forall b :: 0 <= b < |row| ==> r[b] == if from <= b <= to then v else row[b]
  {
    seq(|row|, b requires 0 <= b < |row| => if from <= b <= to then v else row[b])
  }

  predicate IsLeadByte(b: int) { 0x81 <= b <= 0xFE }
  predicate IsDigitByte(b: int) { 0x30 <= b <= 0x39 }

  /** Whether the root points to node `m` under some lead byte from `i` on. */
  predicate UnderLead(root: seq<int>, i: nat, m: int)
    requires |root| == NODE_SIZE
  {
    exists b :: i <= b <= 0xFE && root[b] == NODE_START - m
  }

  /** The nodes after the first wiring loop has run from lead byte `i` on: every node under one
      of those lead bytes has its digit slots pointed at the third-byte node. */
  function Linked(nodes: seq<seq<int>>, third: nat, i: nat): (r: seq<seq<int>>)
    requires |nodes| > 0 && |nodes[0]| == NODE_SIZE
    ensures |r| == |nodes|
  {
    seq(|nodes|, m requires 0 <= m < |nodes| =>
      if UnderLead(nodes[0], i, m) then SetSlots(nodes[m], 0x30, 0x39, NODE_START - third) else nodes[m])
  }

  /** Whether every lead byte from `i` on has a node under it in the root. */
  predicate LeadsAreNodes(nodes: seq<seq<int>>, i: nat)
    requires |nodes| > 0 && |nodes[0]| == NODE_SIZE
  {
    forall b :: i <= b <= 0xFE ==> nodes[0][b] <= NODE_START && NODE_START - nodes[0][b] < |nodes|
  }

  /** The first wiring loop, from lead byte `i` on, as the source runs it: one lead byte at a
      time, the node under it gets its slots 0x30..0x39 pointed at the third-byte node. A lead
      byte whose root slot is not a pointer to an existing node fails (the source indexes
      `undefined`). The root itself is never a target, so the loop reads the original root
      throughout. */
  function LinkSecondBytes(nodes: seq<seq<int>>, third: nat, i: nat): (r: Result<seq<seq<int>>, CodecError>)
    requires |nodes| > 0 && |nodes[0]| == NODE_SIZE
    requires 0x81 <= i <= 0xFF
    requires forall b :: i <= b <= 0xFE && nodes[0][b] <= NODE_START ==> 0 < NODE_START - nodes[0][b]
    ensures r.Ok? <==> LeadsAreNodes(nodes, i)
    ensures r.Ok? ==> r.value == Linked(nodes, third, i)
    decreases 0xFF - i
  {
    if i == 0xFF then
      assert forall m :: 0 <= m < |nodes| ==> !UnderLead(nodes[0], i, m);
      Ok(nodes)
    else
      var v := nodes[0][i];
      if v <= NODE_START && NODE_START - v < |nodes| then
        var nodes1 := nodes[NODE_START - v := SetSlots(nodes[NODE_START - v], 0x30, 0x39, NODE_START - third)];
        var r := LinkSecondBytes(nodes1, third, i + 1);
        LinkStep(nodes, third, i);
        r
      else Err(GbLeadNotNode(i))
  }

  lemma LinkStep(nodes: seq<seq<int>>, third: nat, i: nat)
    requires |nodes| > 0 && |nodes[0]| == NODE_SIZE
    requires 0x81 <= i <= 0xFE
    requires nodes[0][i] <= NODE_START && 0 < NODE_START - nodes[0][i] < |nodes|
    ensures var k := NODE_START - nodes[0][i];
            var nodes1 := nodes[k := SetSlots(nodes[k], 0x30, 0x39, NODE_START - third)];
            && nodes1[0] == nodes[0]
            && (LeadsAreNodes(nodes1, i + 1) <==> LeadsAreNodes(nodes, i))
            && Linked(nodes1, third, i + 1) == Linked(nodes, third, i)
  {
    var k := NODE_START - nodes[0][i];
    var nodes1 := nodes[k := SetSlots(nodes[k], 0x30, 0x39, NODE_START - third)];
    var a := Linked(nodes1, third, i + 1);
    var b := Linked(nodes, third, i);
    forall m | 0 <= m < |nodes| ensures a[m] == b[m] {
      assert UnderLead(nodes[0], i, m) <==> UnderLead(nodes[0], i + 1, m) || m == k;
      if m == k {
        assert UnderLead(nodes[0], i, m);
        assert SetSlots(SetSlots(nodes[k], 0x30, 0x39, NODE_START - third), 0x30, 0x39, NODE_START - third)
            == SetSlots(nodes[k], 0x30, 0x39, NODE_START - third);
      }
    }
  }

  /** The third-byte node: every lead byte points to the fourth-byte node `fourth`. */
  function ThirdNode(fourth: nat): (r: seq<int>)
    ensures |r| == NODE_SIZE
  {
    seq(NODE_SIZE, b => if IsLeadByte(b) then NODE_START - fourth else UNASSIGNED)
  }

  /** The fourth-byte node: every digit holds GB18030_CODE. */
  function FourthNode(): (r: seq<int>)
    ensures |r| == NODE_SIZE
  {
    seq(NODE_SIZE, b => if IsDigitByte(b) then GB18030_CODE else UNASSIGNED)
  }

  /** The nodes of the wired trie, node by node: each old node under a lead byte with its digit
      slots pointed at the third-byte node, the others as they were, then the third-byte and
      fourth-byte nodes. */
  function WiredNodes(t: Trie): (r: seq<seq<int>>)
    requires |t.nodes| > 0 && Rows256(t)
    ensures |r| == |t.nodes| + 2
  {
    var third := |t.nodes|;
    seq(third + 2, m requires 0 <= m < third + 2 =>
      if m == third then ThirdNode(third + 1)
      else if m == third + 1 then FourthNode()
      else if UnderLead(t.nodes[0], 0x81, m) then SetSlots(t.nodes[m], 0x30, 0x39, NODE_START - third)
      else t.nodes[m])
  }

  /** Whether every lead byte 0x81..0xFE of the root holds a node pointer or no value, which is
      what the wiring needs to find a second-byte node under it. */
  predicate LeadsPointDown(t: Trie)
    requires WellFormed(t)
  {
    forall b :: 0x81 <= b <= 0xFE ==> t.nodes[0][b] <= NODE_START
  }

  /** The GB18030 wiring: two fresh nodes are appended, the third-byte node (every lead byte
      0x81..0xFE points to the fourth-byte node) and the fourth-byte node (digits 0x30..0x39
      hold GB18030_CODE), and the node under every lead byte has its digit slots pointed at the
      third-byte node. */
  function WireGb18030(t: Trie): (r: Result<Trie, CodecError>)
    requires WellFormed(t)
    ensures r.Ok? <==> LeadsPointDown(t)
    ensures r.Ok? ==> r.value == Trie(WiredNodes(t), t.seqs)
  {
    var third := |t.nodes|;
    var nodes := t.nodes + [UnassignedNode(), UnassignedNode()];
    RootLeadsForward(t, nodes);
    var linked := LinkSecondBytes(nodes, third, 0x81);
    if linked.Err? then Err(linked.error)
    else
      WiringCloses(t, nodes, linked.value);
      Ok(Trie(CloseWiring(linked.value, third), t.seqs))
  }

  /** The last two wiring loops: the third-byte node points to the fourth-byte node under every
      lead byte, and the fourth-byte node holds GB18030_CODE under every digit. */
  function CloseWiring(n2: seq<seq<int>>, third: nat): (r: seq<seq<int>>)
    requires |n2| == third + 2
  {
    var n3 := n2[third := SetSlots(n2[third], 0x81, 0xFE, NODE_START - (third + 1))];
    n3[third + 1 := SetSlots(n3[third + 1], 0x30, 0x39, GB18030_CODE)]
  }

  /** Under a WellFormed root, the lead bytes that hold node pointers point past the root and
      into the old nodes, so the wiring's lead-byte test is the source's. */
  lemma RootLeadsForward(t: Trie, nodes: seq<seq<int>>)
    requires WellFormed(t)
    requires nodes == t.nodes + [UnassignedNode(), UnassignedNode()]
    ensures nodes[0] == t.nodes[0]
    ensures forall b :: 0x81 <= b <= 0xFE && nodes[0][b] <= NODE_START ==> 0 < NODE_START - nodes[0][b] < |t.nodes|
    ensures LeadsAreNodes(nodes, 0x81) <==> LeadsPointDown(t)
  {
    assert nodes[0] == t.nodes[0];
    forall b | 0x81 <= b <= 0xFE && nodes[0][b] <= NODE_START ensures 0 < NODE_START - nodes[0][b] < |t.nodes| {
      assert ForwardSlot(t, 0, b);
    }
  }

  lemma WiringCloses(t: Trie, nodes: seq<seq<int>>, n2: seq<seq<int>>)
    requires WellFormed(t)
    requires nodes == t.nodes + [UnassignedNode(), UnassignedNode()]
    requires n2 == Linked(nodes, |t.nodes|, 0x81)
    ensures |n2| == |t.nodes| + 2 && CloseWiring(n2, |t.nodes|) == WiredNodes(t)
  {
    var third := |t.nodes|;
    var n3 := n2[third := SetSlots(n2[third], 0x81, 0xFE, NODE_START - (third + 1))];
    var n4 := n3[third + 1 := SetSlots(n3[third + 1], 0x30, 0x39, GB18030_CODE)];
    var w := WiredNodes(t);
    forall b | 0x81 <= b <= 0xFE ensures t.nodes[0][b] != NODE_START - third && t.nodes[0][b] != NODE_START - (third + 1) {
      assert ForwardSlot(t, 0, b);
    }
    assert !UnderLead(nodes[0], 0x81, third) && !UnderLead(nodes[0], 0x81, third + 1);
    forall m | 0 <= m < third + 2 ensures n4[m] == w[m] {
      if m < third {
        assert nodes[m] == t.nodes[m];
      }
    }
  }

  /** The wired trie, slot by slot: the old nodes keep their slots except the digit slots of
      nodes under a lead byte, which point to the third-byte node; the third-byte node points to
      the fourth under every lead byte; the fourth holds GB18030_CODE under every digit. */
  lemma WiredSlots(t: Trie, m: nat, b: Byte)
    requires WellFormed(t) && LeadsPointDown(t)
    requires m < |t.nodes| + 2
    ensures var w := WireGb18030(t).value;
            var third := |t.nodes|;
            && |w.nodes[m]| == NODE_SIZE
            && w.nodes[m][b] == (
                 if m == third then (if IsLeadByte(b) then NODE_START - (third + 1) else UNASSIGNED)
                 else if m == third + 1 then (if IsDigitByte(b) then GB18030_CODE else UNASSIGNED)
                 else if IsDigitByte(b) && exists l :: IsLeadByte(l) && t.nodes[0][l] == NODE_START - m then NODE_START - third
                 else t.nodes[m][b])
  {
    var third := |t.nodes|;
    if m < third {
      assert UnderLead(t.nodes[0], 0x81, m) <==> exists l :: IsLeadByte(l) && t.nodes[0][l] == NODE_START - m;
    }
  }

  /** After the wiring every slot is one the decoder can act on, GB18030_CODE included. */
  lemma WiredIsDecodable(t: Trie)
    requires WellFormed(t) && LeadsPointDown(t)
    ensures Decodable(WireGb18030(t).value, true)
  {
    var w := WireGb18030(t).value;
    WiredRows(t);
    forall m, b | 0 <= m < |w.nodes| && 0 <= b < NODE_SIZE ensures DecodableSlot(w, true, m, b) {
      WiredSlotDecodable(t, m, b);
    }
  }

  /** One slot of the wired trie is one the decoder can act on. */
  lemma WiredSlotDecodable(t: Trie, m: nat, b: Byte)
    requires WellFormed(t) && LeadsPointDown(t)
    ensures |WireGb18030(t).value.nodes| == |t.nodes| + 2
    ensures m < |t.nodes| + 2 ==>
              var w := WireGb18030(t).value;
              |w.nodes[m]| == NODE_SIZE && DecodableSlot(w, true, m, b)
  {
    if m < |t.nodes| + 2 {
      WiredSlots(t, m, b);
      if m < |t.nodes| {
        assert ForwardSlot(t, m, b);
      }
    }
  }

  /** After the wiring, every four-byte sequence lead, digit, lead, digit walks from the root
      through the node under the lead byte, the third-byte node and the fourth-byte node to a
      GB18030_CODE slot. */
  lemma Gb18030PathsArrive(t: Trie, b1: Byte, b2: Byte, b3: Byte, b4: Byte)
    requires WellFormed(t) && LeadsPointDown(t)
    requires IsLeadByte(b1) && IsDigitByte(b2) && IsLeadByte(b3) && IsDigitByte(b4)
    ensures var w := WireGb18030(t).value;
            Rows256(w) && Follow(w, 0, [b1, b2, b3]) == Some(|t.nodes| + 1)
            && SlotAt(w, |t.nodes| + 1, b4) == Gb18030
  {
    var k := NODE_START - t.nodes[0][b1];
    assert ForwardSlot(t, 0, b1) && Classify(t.nodes[0][b1]) == Node(k) && 0 < k < |t.nodes|;
    PathsArriveIn(t, WireGb18030(t).value, k, b1, b2, b3, b4);
  }

  /** The walk of `Gb18030PathsArrive` in the wired trie `w`, with `k` the node under `b1`. */
  lemma PathsArriveIn(t: Trie, w: Trie, k: nat, b1: Byte, b2: Byte, b3: Byte, b4: Byte)
    requires WellFormed(t) && WireGb18030(t) == Ok(w)
    requires IsLeadByte(b1) && IsDigitByte(b2) && IsLeadByte(b3) && IsDigitByte(b4)
    requires 0 < k < |t.nodes| && t.nodes[0][b1] == NODE_START - k
    ensures Rows256(w) && Follow(w, 0, [b1, b2, b3]) == Some(|t.nodes| + 1)
            && SlotAt(w, |t.nodes| + 1, b4) == Gb18030
  {
    var third := |t.nodes|;
    WiredRows(t);
    assert SlotAt(w, 0, b1) == Node(k) by {
      WiredSlots(t, 0, b1);
    }
    assert SlotAt(w, k, b2) == Node(third) by {
      WiredSlots(t, k, b2);
    }
    assert SlotAt(w, third, b3) == Node(third + 1) by {
      WiredSlots(t, third, b3);
    }
    assert SlotAt(w, third + 1, b4) == Gb18030 by {
      WiredSlots(t, third + 1, b4);
    }
    ThreeNodeWalk(w, b1, b2, b3, k, third, third + 1);
  }

  /** A walk through three node slots in a row ends in the node the third one points to. */
  lemma ThreeNodeWalk(w: Trie, b1: Byte, b2: Byte, b3: Byte, k1: nat, k2: nat, k3: nat)
    requires Rows256(w) && 0 < |w.nodes| && k1 < |w.nodes| && k2 < |w.nodes| && k3 < |w.nodes|
    requires SlotAt(w, 0, b1) == Node(k1) && SlotAt(w, k1, b2) == Node(k2) && SlotAt(w, k2, b3) == Node(k3)
    ensures Follow(w, 0, [b1, b2, b3]) == Some(k3)
  {
    assert Follow(w, k2, [b3]) == Some(k3) by {
      FollowStep(w, k2, b3, [], k3);
      assert [b3] + [] == [b3];
    }
    assert Follow(w, k1, [b2, b3]) == Some(k3) by {
      FollowStep(w, k1, b2, [b3], k2);
      assert [b2] + [b3] == [b2, b3];
    }
    FollowStep(w, 0, b1, [b2, b3], k1);
    assert [b1] + [b2, b3] == [b1, b2, b3];
  }

  /** Every node of the wired trie has 256 slots. */
  lemma WiredRows(t: Trie)
    requires WellFormed(t) && LeadsPointDown(t)
    ensures Rows256(WireGb18030(t).value)
  {
    var w := WireGb18030(t).value;
    forall m | 0 <= m < |w.nodes| ensures |w.nodes[m]| == NODE_SIZE {
      WiredSlots(t, m, 0);
    }
  }

  // ---------------------------------------------------------------------------
  // The constructor

  /** The encode table: the depth-first derivation from the trie, then the `encodeAdd`
      entries. */
  function BuildEncodeTable(t: Trie, skips: seq<SkipVal>, adds: seq<(seq<Unit>, int)>): (r: Result<EncodeTable, TableError>)
    requires WellFormed(t)
    ensures r.Ok? ==> ValidTable(r.value)
    ensures r == ApplyAll(EmptyTable(), DfsMappings(t, 0, 0, skips, 0) + AddMappings(adds))
  {
    var filled := FillFromRoot(t, skips);
    ApplyAllAppend(EmptyTable(), DfsMappings(t, 0, 0, skips, 0), AddMappings(adds));
    if filled.Err? then filled else ApplyAll(filled.value, AddMappings(adds))
  }

  /** `new DBCSCodec(codecOptions, iconv)`. It fails without options or without a table, on a
      chunk the trie builder rejects, on a trie the encode-table walk cannot traverse, on an
      encode-table step that dereferences a missing sequence tree, without a bucket for
      0..255, and when a GB18030 lead byte has no node under it. */
  function NewCodec(options: Option<CodecOptions>, defaultCharUnicode: seq<Unit>, defaultCharSingleByte: seq<Unit>)
    : (r: Result<Codec, CodecError>)
    ensures options.None? ==> r == Err(NoOptions)
    ensures options.Some? && options.value.table.None? ==> r == Err(NoTable(options.value.encodingName))
    ensures r.Ok? ==>
              var o := options.value;
              var built := BuildTrie(o.table.value);
              && built.Ok? && WellFormed(built.value)
              && Decodable(r.value.trie, o.gb18030.Some?)
              && ValidTable(r.value.encodeTable)
              && ApplyAll(EmptyTable(), DfsMappings(built.value, 0, 0, o.encodeSkipVals, 0) + AddMappings(o.encodeAdd))
                 == Ok(r.value.encodeTable)
              && r.value.gb18030 == o.gb18030
              && r.value.defaultCharUnicode == defaultCharUnicode
              && (o.gb18030.None? ==> r.value.trie == built.value)
              && (o.gb18030.Some? ==> WireGb18030(built.value).Ok? && r.value.trie == WireGb18030(built.value).value)
  {
    if options.None? then Err(NoOptions)
    else
      var o := options.value;
      if o.table.None? then Err(NoTable(o.encodingName))
      else
        var built := BuildTrie(o.table.value);
        if built.Err? then Err(BadChunk(built.error))
        else
          var t := built.value;
          if !WellFormed(t) then Err(MalformedTrie)
          else
            var et := BuildEncodeTable(t, o.encodeSkipVals, o.encodeAdd);
            if et.Err? then Err(BadTable(et.error))
            else
              var def := DefCharSB(et.value, defaultCharSingleByte);
              if def.Err? then Err(def.error)
              else if o.gb18030.None? then
                WellFormedIsDecodable(t, false);
                Ok(Codec(t, et.value, def.value, defaultCharUnicode, None))
              else
                var wired := WireGb18030(t);
                if wired.Err? then Err(wired.error)
                else
                  WiredIsDecodable(t);
                  Ok(Codec(wired.value, et.value, def.value, defaultCharUnicode, o.gb18030))
  }
}
