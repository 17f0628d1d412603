/** A plain DTB (src/dtb.c): header, structure block, strings block; finding and parsing its partitions node. */
module Dtb {
  import opened Util
  import opened Fdt
  import opened Walk
  import opened StringBlock
  import opened Partitions
  import opened NodeMeaning
  import opened NodeParser
  import opened Splice
  import opened Target
  import RoundTrip

  // ---- The header, struct dtb_header after dtb_header_swapbytes ----

  const HEADER_SIZE: nat := 40

  const TOTALSIZE: nat := 4
  const OFF_DT_STRUCT: nat := 8
  const OFF_DT_STRINGS: nat := 12
  const SIZE_DT_STRINGS: nat := 32
  const SIZE_DT_STRUCT: nat := 36

  function Field(d: Bytes, k: nat): nat
    requires HEADER_SIZE <= |d| && k + 4 <= HEADER_SIZE
  {
    Read32(d, k)
  }

  function SetField(d: Bytes, k: nat, v: u32): (r: Bytes)
    requires HEADER_SIZE <= |d| && k + 4 <= HEADER_SIZE
    ensures |r| == |d|
  {
    d[..k] + BE32(v) + d[k + 4..]
  }

  lemma SetFieldReads(d: Bytes, k: nat, v: u32, j: nat)
    requires HEADER_SIZE <= |d| && k + 4 <= HEADER_SIZE && j + 4 <= HEADER_SIZE && (j + 4 <= k || j == k || k + 4 <= j)
    ensures Field(SetField(d, k, v), j) == if j == k then v else Field(d, j)
  {
    hide BE32;
    var r := SetField(d, k, v);
    if j == k {
      assert r[k..k + 4] == BE32(v);
      assert At(r, k, BE32(v));
      ReadBE32(r, k, v);
    } else {
      assert r[j] == d[j] && r[j + 1] == d[j + 1] && r[j + 2] == d[j + 2] && r[j + 3] == d[j + 3];
    }
  }

  lemma SetFieldKeeps(d: Bytes, k: nat, v: u32)
    requires HEADER_SIZE <= |d| && k + 4 <= HEADER_SIZE
    ensures SetField(d, k, v)[HEADER_SIZE..] == d[HEADER_SIZE..]
  {
  }

  lemma TailAt(d: Bytes, d': Bytes, p: nat, x: Bytes)
    requires |d| == |d'| && HEADER_SIZE <= |d| && d[HEADER_SIZE..] == d'[HEADER_SIZE..] && HEADER_SIZE <= p
    requires At(d, p, x)
    ensures At(d', p, x)
  {
    var k := p - HEADER_SIZE;
    assert d[p..p + |x|] == d[HEADER_SIZE..][k..k + |x|] == d'[HEADER_SIZE..][k..k + |x|] == d'[p..p + |x|];
  }

  // ---- The structure block ----

  /** NOPs, the root node, whose name is empty, and END. */
  datatype Dts = Dts(nops: nat, pad: Bytes, body: Body)

  predicate DtsOk(t: Dts) {
    NameOk([], t.pad) && Wf(t.body)
  }

  function Nops(n: nat): Bytes {
    if n == 0 then [] else BE32(NOP) + Nops(n - 1)
  }

  /** Everything before the contents of the root. */
  function DtsHead(t: Dts): Bytes {
    Nops(t.nops) + BE32(BEGIN_NODE) + NameBytes([], t.pad)
  }

  function SerDts(t: Dts): Bytes
    requires DtsOk(t)
  {
    DtsHead(t) + Ser(t.body) + BE32(END)
  }

  lemma {:induction false} NopsLength(n: nat)
    ensures |Nops(n)| == 4 * n
  {
    if n > 0 {
      NopsLength(n - 1);
    }
  }

  lemma HeadLength(t: Dts)
    requires DtsOk(t)
    ensures |DtsHead(t)| == 4 * t.nops + 8
    ensures |SerDts(t)| == 4 * t.nops + 8 + 4 * Words(t.body) + 4
  {
    NopsLength(t.nops);
    SerLength(t.body);
  }

  /** Where the contents of the root start. */
  function BodyAt(d: Bytes, t: Dts): nat
    requires HEADER_SIZE <= |d|
  {
    Field(d, OFF_DT_STRUCT) + 4 * t.nops + 8
  }

  /** d is a DTB whose structure block is t, with its blocks in the order of section 5.1 of the Devicetree
      Specification. */
  ghost predicate DtbOk(d: Bytes, t: Dts) {
    && HEADER_SIZE <= |d| && DtsOk(t)
    && Field(d, TOTALSIZE) == |d|
    && HEADER_SIZE <= Field(d, OFF_DT_STRUCT)
    && At(d, Field(d, OFF_DT_STRUCT), SerDts(t))
    && Field(d, SIZE_DT_STRUCT) == |SerDts(t)|
    && Field(d, OFF_DT_STRUCT) + Field(d, SIZE_DT_STRUCT) <= Field(d, OFF_DT_STRINGS)
    && Field(d, OFF_DT_STRINGS) + Field(d, SIZE_DT_STRINGS) <= |d| < U32_LIMIT
  }

  /** The strings block directly follows the structure block, with no free space between them. */
  ghost predicate StringsFollow(d: Bytes)
    requires HEADER_SIZE <= |d|
  {
    Field(d, OFF_DT_STRINGS) == Field(d, OFF_DT_STRUCT) + Field(d, SIZE_DT_STRUCT)
  }

  /** The free space between the two. */
  function Gap(d: Bytes): int
    requires HEADER_SIZE <= |d|
  {
    Field(d, OFF_DT_STRINGS) - (Field(d, OFF_DT_STRUCT) + Field(d, SIZE_DT_STRUCT))
  }

  function Strings(d: Bytes): Bytes
    requires HEADER_SIZE <= |d| && Field(d, OFF_DT_STRINGS) + Field(d, SIZE_DT_STRINGS) <= |d|
  {
    d[Field(d, OFF_DT_STRINGS)..Field(d, OFF_DT_STRINGS) + Field(d, SIZE_DT_STRINGS)]
  }

  lemma DtsParts(d: Bytes, t: Dts)
    requires DtbOk(d, t)
    ensures var b := BodyAt(d, t);
            && At(d, Field(d, OFF_DT_STRUCT), Nops(t.nops) + (BE32(BEGIN_NODE) + (NameBytes([], t.pad) + Ser(t.body))))
            && At(d, b, Ser(t.body)) && At(d, b + 4 * Words(t.body), BE32(END))
            && IsNodeAt(d, b - 4, Tree([], t.pad, t.body))
  {
    hide At, Ser, BE32, NameBytes;
    var off := Field(d, OFF_DT_STRUCT);
    HeadLength(t);
    NopsLength(t.nops);
    SerLength(t.body);
    AtConcat(d, off, DtsHead(t) + Ser(t.body), BE32(END));
    AtConcat(d, off, DtsHead(t), Ser(t.body));
    assert DtsHead(t) + Ser(t.body) == Nops(t.nops) + (BE32(BEGIN_NODE) + (NameBytes([], t.pad) + Ser(t.body)));
    AtConcat(d, off, Nops(t.nops), BE32(BEGIN_NODE) + (NameBytes([], t.pad) + Ser(t.body)));
    AtConcat(d, off + 4 * t.nops, BE32(BEGIN_NODE), NameBytes([], t.pad) + Ser(t.body));
  }

  // ---- Looking for the partitions node ----

  /** dts_skip_nop: the BEGIN_NODE after the leading NOPs. */
  method SkipNop(s: Bytes, p: nat, ghost n: nat, ghost rest: Bytes) returns (start: Option<nat>)
    requires At(s, p, Nops(n) + (BE32(BEGIN_NODE) + rest))
    ensures start == Some(p + 4 * n)
  {
    hide At, BE32, Read32;
    var q: nat := p;
    ghost var left: nat := n;
    NopStep(s, q, left, rest);
    while Read32(s, q) == NOP
      invariant q + 4 * left == p + 4 * n && At(s, q, Nops(left) + (BE32(BEGIN_NODE) + rest))
      invariant q + 4 <= |s|
      invariant Read32(s, q) == if left > 0 then NOP else BEGIN_NODE
      decreases left
    {
      NopStep(s, q, left, rest);
      q, left := q + 4, left - 1;
      NopStep(s, q, left, rest);
    }
    if Read32(s, q) != BEGIN_NODE {
      assert false;
    }
    return Some(q);
  }

  lemma NopStep(s: Bytes, p: nat, n: nat, rest: Bytes)
    requires At(s, p, Nops(n) + (BE32(BEGIN_NODE) + rest))
    ensures p + 4 <= |s| && Read32(s, p) == if n > 0 then NOP else BEGIN_NODE
    ensures n > 0 ==> At(s, p + 4, Nops(n - 1) + (BE32(BEGIN_NODE) + rest))
  {
    hide At, BE32;
    var x := BE32(BEGIN_NODE) + rest;
    if n > 0 {
      assert Nops(n) + x == BE32(NOP) + (Nops(n - 1) + x);
      AtConcat(s, p, BE32(NOP), Nops(n - 1) + x);
      ReadBE32(s, p, NOP);
    } else {
      assert Nops(0) + x == x;
      AtConcat(s, p, BE32(BEGIN_NODE), rest);
      ReadBE32(s, p, BEGIN_NODE);
    }
  }

  /** The path "/partitions", as dts_get_path_layers splits it. */
  const PARTITIONS_PATH: seq<Bytes> := ["", PARTITIONS]

  /** The node that phelper->node points at. */
  function PartitionsAt(d: Bytes, t: Dts): Option<nat>
    requires HEADER_SIZE <= |d|
  {
    if HasChild(t.body, PARTITIONS) then Some(BodyAt(d, t) + Offset(t.body, PARTITIONS) + 4) else None
  }

  /** dts_get_node_from_path for "/partitions". */
  method GetPartitionsNode(d: Bytes, ghost t: Dts) returns (node: Option<nat>)
    requires DtbOk(d, t)
    ensures node == PartitionsAt(d, t)
  {
    hide At, Ser, SerDts, IsNodeAt, FindBody, BE32, NameBytes, Read32;
    WordsFit(t);
    DtsParts(d, t);
    HeadLength(t);
    var off, maxOffset := Field(d, OFF_DT_STRUCT), Field(d, SIZE_DT_STRUCT);
    var found := SkipNop(d, off, t.nops, NameBytes([], t.pad) + Ser(t.body));
    var start := found.value;
    var r, target :=
      GetNode(d, start + 4, maxOffset - (start - off) - 4, PARTITIONS_PATH, None, Tree([], t.pad, t.body));
    RootSearch(d, t);
    WordsFit(t);
    if r == 0 {
      assert false;
    }
    return target;
  }

  /** The walk from the root ends before the size of the structure block does. */
  lemma WordsFit(t: Dts)
    requires DtsOk(t)
    ensures |SerDts(t)| - 4 * t.nops - 4 >= 0
    ensures WalkResult([], t.body, |SerDts(t)| - 4 * t.nops - 4) == Words(t.body) > 0
  {
    HeadLength(t);
  }

  lemma RootSearch(d: Bytes, t: Dts)
    requires HEADER_SIZE <= |d|
    ensures FindNode([], t.body, PARTITIONS_PATH, BodyAt(d, t) - 4, None) == PartitionsAt(d, t)
  {
    assert PARTITIONS_PATH[1..] == [PARTITIONS];
    FindIsOffset(t.body, PARTITIONS, BodyAt(d, t), None);
  }

  /** The node found is the child of the root. */
  lemma PartitionsNode(d: Bytes, t: Dts)
    requires DtbOk(d, t) && HasChild(t.body, PARTITIONS)
    ensures var node, c := PartitionsAt(d, t).value, Child(t.body, PARTITIONS);
            IsNodeAt(d, node, c) && TreeOk(c) && c.name == PARTITIONS && node + 12 <= |d|
  {
    hide At, Ser, BE32;
    DtsParts(d, t);
    var b := BodyAt(d, t);
    FindIsOffset(t.body, PARTITIONS, b, None);
    FindIsLookup(d, t.body, [PARTITIONS], b, None);
    ChildName(t.body, PARTITIONS);
    ChildIsHere(t.body, PARTITIONS);
    NodeFits(d, PartitionsAt(d, t).value, Child(t.body, PARTITIONS));
  }

  lemma {:induction false} ChildName(b: Body, name: Bytes)
    requires HasChild(b, name)
    ensures Child(b, name).name == name
  {
    if HasChild(b.rest, name) {
      ChildName(b.rest, name);
    }
  }

  lemma NodeFits(d: Bytes, node: nat, c: Tree)
    requires IsNodeAt(d, node, c) && c.name == PARTITIONS
    ensures node + 12 <= |d|
  {
    NameLength(c.name, c.pad);
    AtBound(d, node, NameBytes(c.name, c.pad) + Ser(c.body));
  }

  // ---- Parsing a DTB ----

  /** struct dtb_buffer_entry. */
  datatype DtbEntry = DtbEntry(buffer: Bytes, node: Option<nat>, parsed: Parsed, hasPartitions: bool, name: TargetName)

  /** An entry that was loaded: its DTB has a name that can be split, and a partitions node that parses or none. */
  ghost predicate EntryOk(e: DtbEntry, t: Dts) {
    && DtbOk(e.buffer, t) && e.node == PartitionsAt(e.buffer, t)
    && NameOf(Strings(e.buffer), t.body) == Some(e.name)
    && (e.hasPartitions ==>
          HasChild(t.body, PARTITIONS) && ParsedOk(e.buffer, e.node.value, Child(t.body, PARTITIONS), e.parsed))
  }

  /** What dts_get_partitions_from_node returns for this node. */
  ghost function NodeParses(d: Bytes, node: nat, c: Tree): Result<Parsed>
    requires HasStrings(d) && IsNodeAt(d, node, c) && node + 12 <= |d|
  {
    if d[node..node + 12] != PARTITIONS + [NUL, NUL] then Err(1)
    else if GetOffsets(Strings(d)) == None then Err(2)
    else
      PartitionsStart(d, node, c);
      AtBody(d, node + 12, c.body);
      ParseBody(d, c.body, node + 12, false, Strings(d), GetOffsets(Strings(d)).value, NothingParsed())
  }

  /** The strings block is where the header says. */
  ghost predicate HasStrings(d: Bytes) {
    HEADER_SIZE <= |d| && Field(d, OFF_DT_STRINGS) + Field(d, SIZE_DT_STRINGS) <= |d|
  }

  /** Parsed, then sorted: the same partitions; if there are as many records as partitions, and all of them name one,
      then the i-th partition is the one of the i-th record, and with another number of records the order is that of the
      nodes. */
  ghost predicate ParsedOk(d: Bytes, node: nat, c: Tree, parsed: Parsed) {
    && HasStrings(d) && IsNodeAt(d, node, c) && node + 12 <= |d|
    && NodeParses(d, node, c).Ok?
    && var raw := NodeParses(d, node, c).value;
       && multiset(parsed.partitions) == multiset(raw.partitions) && parsed == raw.(partitions := parsed.partitions)
       && IsPartitionsNode(d, node, c) && NodeMeans(c.body, Strings(d), GetOffsets(Strings(d)).value, raw)
       && (RoundTrip.InRecordOrder(raw) || |raw.partitions| != raw.recordCount ==> parsed == raw)
       && (|raw.partitions| == raw.recordCount && RoundTrip.Recorded(raw) ==> RoundTrip.InRecordOrder(parsed))
  }

  /** The partitions node is one that can be parsed. */
  ghost predicate IsPartitionsNode(d: Bytes, node: nat, c: Tree)
    requires HasStrings(d) && node + 12 <= |d|
  {
    && d[node..node + 12] == PARTITIONS + [NUL, NUL] && GetOffsets(Strings(d)).Some?
    && NodeOk(c.body, Strings(d), GetOffsets(Strings(d)).value)
  }

  /** It parses exactly if it is, and to what it means. */
  lemma NodeParsesMeans(d: Bytes, node: nat, c: Tree)
    requires HasStrings(d) && IsNodeAt(d, node, c) && node + 12 <= |d|
    ensures NodeParses(d, node, c).Ok? <==> IsPartitionsNode(d, node, c)
    ensures IsPartitionsNode(d, node, c) ==>
              NodeMeans(c.body, Strings(d), GetOffsets(Strings(d)).value, NodeParses(d, node, c).value)
  {
    hide IsNodeAt, At, Ser, ParseBody, GetOffsets, NodeOk, NodeMeans;
    if d[node..node + 12] == PARTITIONS + [NUL, NUL] && GetOffsets(Strings(d)).Some? {
      PartitionsStart(d, node, c);
      AtBody(d, node + 12, c.body);
      ParseMeans(d, c.body, node + 12, Strings(d), GetOffsets(Strings(d)).value);
    }
  }

  /** Parsing the partitions node gets to one of its nodes. */
  ghost predicate NodeCounts(d: Bytes, node: nat, c: Tree)
    requires HasStrings(d) && IsNodeAt(d, node, c) && node + 12 <= |d|
  {
    && d[node..node + 12] == PARTITIONS + [NUL, NUL] && GetOffsets(Strings(d)).Some?
    && (PartitionsStart(d, node, c);
        AtBody(d, node + 12, c.body);
        ReachesNode(d, c.body, node + 12, Strings(d), GetOffsets(Strings(d)).value, NothingParsed()))
  }

  /** The DTB has a partitions node that parses, or that is refused only after a partition was counted. */
  ghost predicate CountsPartitions(d: Bytes, t: Dts)
    requires HasStrings(d)
  {
    && HasChild(t.body, PARTITIONS)
    && var node, c := PartitionsAt(d, t).value, Child(t.body, PARTITIONS);
       && IsNodeAt(d, node, c) && node + 12 <= |d|
       && (NodeParses(d, node, c).Ok? || NodeCounts(d, node, c))
  }

  /** dtb_get_partitions; its error 2 is never reached. */
  method GetPartitions(d: Bytes, ghost t: Dts) returns (r: int, node: Option<nat>, parsed: Parsed)
    requires DtbOk(d, t)
    ensures node == PartitionsAt(d, t)
    ensures r == 3 <==> !HasChild(t.body, PARTITIONS)
    ensures r == 0 || r == 3 || r == 4
    ensures r == 3 ==> parsed == NothingParsed()
    ensures r == 0 || parsed.partitions != [] <==> CountsPartitions(d, t)
    ensures HasChild(t.body, PARTITIONS) ==>
              var c := Child(t.body, PARTITIONS);
              && IsNodeAt(d, node.value, c) && node.value + 12 <= |d| && (r == 0 <==> NodeParses(d, node.value, c).Ok?)
              && (r == 0 <==> IsPartitionsNode(d, node.value, c))
              && (r == 0 ==> ParsedOk(d, node.value, c, parsed))
  {
    hide At, Ser, IsNodeAt, ParseBody, GetOffsets, SerDts, ReachesNode, NodeOk, NodeMeans;
    parsed := NothingParsed();
    if Field(d, OFF_DT_STRINGS) + Field(d, SIZE_DT_STRINGS) > |d| {
      assert false;
    }
    node := GetPartitionsNode(d, t);
    if node == None {
      return 3, node, parsed;
    }
    PartitionsNode(d, t);
    NodeParsesMeans(d, node.value, Child(t.body, PARTITIONS));
    var s;
    s, parsed := GetPartitionsFromNode(d, node.value, Strings(d), Child(t.body, PARTITIONS));
    if s != 0 {
      return 4, node, parsed;
    }
    ParsedFits(d, node.value, Child(t.body, PARTITIONS));
    var ignored;
    ignored, parsed := RoundTrip.SortPartitions(parsed);
    return 0, node, parsed;
  }

  // ---- Its name ----

  /** dtb_get_target, into a zeroed buffer; its error 2 is never reached. */
  method GetTarget(d: Bytes, ghost t: Dts) returns (r: int, target: Bytes)
    requires DtbOk(d, t)
    ensures r == 0 || r == 1
    ensures r == 0 <==> TargetText(Strings(d), t.body).Some?
    ensures r == 0 ==> TargetText(Strings(d), t.body) == Some(target) && |target| <= 36
  {
    hide At, Ser, SerDts, IsNodeAt, BE32, NameBytes, Read32, StringAt, Find;
    var off := FindString(Strings(d), TARGET_ID);
    if off == None {
      return 1, [];
    }
    DtsParts(d, t);
    var found := SkipNop(d, Field(d, OFF_DT_STRUCT), t.nops, NameBytes([], t.pad) + Ser(t.body));
    if found == None {
      assert false;
    }
    var ignored;
    ignored, target := GetPropertyString(d, found.value + 4, off.value, 36, Tree([], t.pad, t.body));
    if ignored == 0 {
      TextLength(FirstProp(t.body, off.value).value, 0);
    }
    return 0, target;
  }

  /** dtb_parse_entry: 2 or 3 if the DTB has no name or one that cannot be split, -1 if it has a name but no
      partitions. */
  method ParseEntry(d: Bytes, ghost t: Dts) returns (r: int, e: DtbEntry)
    requires DtbOk(d, t)
    ensures e.buffer == d
    ensures r == 2 <==> TargetText(Strings(d), t.body) == None
    ensures r == 3 <==> TargetText(Strings(d), t.body).Some? && NameOf(Strings(d), t.body) == None
    ensures r == 0 || r == -1 || r == 2 || r == 3
    ensures r <= 0 ==> EntryOk(e, t)
    ensures e.hasPartitions == (r == 0)
    ensures r <= 0 ==> (e.hasPartitions || e.parsed.partitions != [] <==> CountsPartitions(d, t))
    ensures r <= 0 && HasChild(t.body, PARTITIONS) ==>
              var node, c := PartitionsAt(d, t).value, Child(t.body, PARTITIONS);
              IsNodeAt(d, node, c) && node + 12 <= |d| && (r == 0 <==> NodeParses(d, node, c).Ok?)
  {
    hide SerDts, At, IsNodeAt, NodeParses, ParsedOk, CountsPartitions, TargetText, SplitName, HasChild, Strings;
    e := DtbEntry(d, None, NothingParsed(), false, NoName());
    var noTarget, target := GetTarget(d, t);
    if noTarget != 0 {
      return 2, e;
    }
    var noSplit, name := SplitTarget(target);
    SplitMeans(target);
    hide Splits, SplitsInto;
    if noSplit != 0 {
      return 3, e;
    }
    var bad, node, parsed := GetPartitions(d, t);
    e := DtbEntry(d, node, parsed, bad == 0, name);
    return if bad == 0 then 0 else -1, e;
  }

  lemma ParsedFits(d: Bytes, node: nat, c: Tree)
    requires HasStrings(d) && IsNodeAt(d, node, c) && node + 12 <= |d| && NodeParses(d, node, c).Ok?
    ensures |NodeParses(d, node, c).value.partitions| <= 32 && |NodeParses(d, node, c).value.phandles| == 32
  {
    PartitionsStart(d, node, c);
    AtBody(d, node + 12, c.body);
    ParseCount(d, c.body, node + 12, false, Strings(d), GetOffsets(Strings(d)).value, NothingParsed());
  }

  lemma {:induction false} ParseCount(s: Bytes, b: Body, p: nat, inPartition: bool, strings: Bytes, offs: Offsets,
                                      st: Parsed)
    requires Wf(b) && StOk(st, inPartition) && p + 4 * Words(b) <= |s| && |st.partitions| <= 32
    requires ParseBody(s, b, p, inPartition, strings, offs, st).Ok?
    ensures |ParseBody(s, b, p, inPartition, strings, offs, st).value.partitions| <= 32
    decreases b
  {
    hide PropStep, Steps;
    match b
    case End =>
    case Nop(rest) => ParseCount(s, rest, p + 4, inPartition, strings, offs, st);
    case Prop(nameOff, value, pad, rest) =>
      StepsCover(|value|);
      PropCount(s, p + 12, nameOff, |value|, strings, offs, inPartition, st);
      ParseCount(s, rest, p + 12 + 4 * Steps(|value|), inPartition, strings, offs,
                 PropStep(s, p + 12, nameOff, |value|, strings, offs, inPartition, st).value);
    case Node(name, _, child, rest) =>
      var st1 := Begin(st, name).value;
      var q := p + 4 + 4 * Steps(|name| + 1);
      ParseCount(s, child, q, true, strings, offs, st1);
      ParseCount(s, rest, q + 4 * Words(child), false, strings, offs,
                 ParseBody(s, child, q, true, strings, offs, st1).value);
  }
}
