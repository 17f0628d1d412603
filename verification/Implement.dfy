/** Putting a new partitions node into a DTB, and taking the node out again (src/dtb.c). */
module Implement {
  import opened Util
  import opened Ept
  import opened Fdt
  import opened Walk
  import opened StringBlock
  import opened Phandle
  import opened Partitions
  import opened Compose
  import opened RoundTrip
  import opened Splice
  import opened PhandleSafety
  import opened NewPhandles
  import opened Target
  import opened Dtb

  // ---- The bytes that change ----

  /** Where the new node goes, from the start of the root's contents: at the old one, or before the root's END_NODE. */
  function From(b: Body): nat
    requires Wf(b)
  {
    SerLength(b);
    if HasChild(b, PARTITIONS) then Offset(b, PARTITIONS) else |Ser(b)| - 4
  }

  /** Where the bytes that stay resume. */
  function Until(b: Body): nat
    requires Wf(b)
  {
    if HasChild(b, PARTITIONS) then
      ChildIsHere(b, PARTITIONS);
      Offset(b, PARTITIONS) + |TreeBytes(Child(b, PARTITIONS))|
    else From(b)
  }

  lemma ImplementSplices(b: Body, t: Tree)
    requires Wf(b) && TreeOk(t) && t.name == PARTITIONS
    ensures Wf(Splice.Implement(b, t)) && From(b) <= Until(b) <= |Ser(b)|
    ensures Ser(Splice.Implement(b, t)) == Ser(b)[..From(b)] + TreeBytes(t) + Ser(b)[Until(b)..]
  {
    hide Ser, TreeBytes, BE32;
    if HasChild(b, PARTITIONS) {
      ReplaceSplices(b, PARTITIONS, t);
    } else {
      AppendSplices(b, t);
    }
  }

  lemma Sandwich(head: Bytes, ser: Bytes, end: Bytes, from: nat, until: nat)
    requires from <= until <= |ser|
    ensures (head + ser + end)[..|head| + from] == head + ser[..from]
    ensures (head + ser + end)[|head| + until..] == ser[until..] + end
  {
  }

  lemma Regroup(pre: Bytes, head: Bytes, a: Bytes, x: Bytes, b: Bytes, end: Bytes, tail: Bytes)
    ensures pre + (head + a) + x + (b + end) + tail == pre + (head + (a + x + b) + end) + tail
  {
  }

  /** Cutting a piece out of the root's contents and putting x there yields the serialisation of the changed tree. */
  lemma StructReplaced(d: Bytes, t: Dts, b': Body, x: Bytes, tail: Bytes, from: nat, until: nat)
    requires DtbOk(d, t) && Wf(b') && from <= until <= |Ser(t.body)|
    requires Ser(b') == Ser(t.body)[..from] + x + Ser(t.body)[until..]
    ensures var off, at := Field(d, OFF_DT_STRUCT), BodyAt(d, t);
            && at + until <= off + Field(d, SIZE_DT_STRUCT) <= |d|
            && d[..at + from] + x + d[at + until..off + Field(d, SIZE_DT_STRUCT)] + tail == d[..off]
                 + SerDts(t.(body := b')) + tail
            && |SerDts(t.(body := b'))| + (until - from) == |SerDts(t)| + |x|
  {
    hide Ser, DtsHead, BE32, Read32;
    HeadLength(t);
    HeadLength(t.(body := b'));
    SerLength(t.body);
    SerLength(b');
    SameHead(t, b');
    CutAndPut(d, Field(d, OFF_DT_STRUCT), DtsHead(t), Ser(t.body), BE32(END), from, until, x, tail);
  }

  lemma CutAndPut(d: Bytes, off: nat, head: Bytes, ser: Bytes, end: Bytes, from: nat, until: nat, x: Bytes, tail: Bytes)
    requires At(d, off, head + ser + end) && from <= until <= |ser|
    ensures var h := off + |head|;
            d[..h + from] + x + d[h + until..h + |ser| + |end|] + tail == d[..off]
              + (head + (ser[..from] + x + ser[until..]) + end) + tail
  {
    var whole := head + ser + end;
    assert d[off..off + |whole|] == whole;
    Sandwich(head, ser, end, from, until);
    var h := |head|;
    assert d[..off + h + from] == d[..off] + whole[..h + from];
    assert d[off + h + until..off + |whole|] == whole[h + until..];
    Regroup(d[..off], head, ser[..from], x, ser[until..], end, tail);
  }

  lemma SameHead(t: Dts, b': Body)
    ensures DtsHead(t.(body := b')) == DtsHead(t)
  {
  }

  // ---- The header ----

  /** The four fields that are rewritten. */
  function NewHeader(d: Bytes, total: u32, sizeStruct: u32, offStrings: u32, sizeStrings: u32): (r: Bytes)
    requires HEADER_SIZE <= |d|
    ensures |r| == |d|
  {
    SetField(SetField(SetField(SetField(d, TOTALSIZE, total), SIZE_DT_STRUCT, sizeStruct), OFF_DT_STRINGS, offStrings),
             SIZE_DT_STRINGS, sizeStrings)
  }

  lemma NewHeaderReads(d: Bytes, total: u32, sizeStruct: u32, offStrings: u32, sizeStrings: u32)
    requires HEADER_SIZE <= |d|
    ensures var r := NewHeader(d, total, sizeStruct, offStrings, sizeStrings);
            && Field(r, TOTALSIZE) == total && Field(r, SIZE_DT_STRUCT) == sizeStruct
            && Field(r, OFF_DT_STRINGS) == offStrings && Field(r, SIZE_DT_STRINGS) == sizeStrings
            && r[HEADER_SIZE..] == d[HEADER_SIZE..]
    ensures forall k: nat {:trigger Field(d, k)} ::
              k in {0, OFF_DT_STRUCT, 16, 20, 24, 28} ==>
                Field(NewHeader(d, total, sizeStruct, offStrings, sizeStrings), k) == Field(d, k)
  {
    hide SetField, Field;
    var a := SetField(d, TOTALSIZE, total);
    var b := SetField(a, SIZE_DT_STRUCT, sizeStruct);
    var c := SetField(b, OFF_DT_STRINGS, offStrings);
    forall k: nat | k in {0, TOTALSIZE, OFF_DT_STRUCT, OFF_DT_STRINGS, 16, 20, 24, 28, SIZE_DT_STRINGS, SIZE_DT_STRUCT}
      ensures Field(a, k) == if k == TOTALSIZE then total else Field(d, k)
      ensures Field(b, k) == if k == SIZE_DT_STRUCT then sizeStruct else Field(a, k)
      ensures Field(c, k) == if k == OFF_DT_STRINGS then offStrings else Field(b, k)
      ensures Field(SetField(c, SIZE_DT_STRINGS, sizeStrings), k) ==
                if k == SIZE_DT_STRINGS then sizeStrings else Field(c, k)
    {
      SetFieldReads(d, TOTALSIZE, total, k);
      SetFieldReads(a, SIZE_DT_STRUCT, sizeStruct, k);
      SetFieldReads(b, OFF_DT_STRINGS, offStrings, k);
      SetFieldReads(c, SIZE_DT_STRINGS, sizeStrings, k);
    }
    SetFieldKeeps(d, TOTALSIZE, total);
    SetFieldKeeps(a, SIZE_DT_STRUCT, sizeStruct);
    SetFieldKeeps(b, OFF_DT_STRINGS, offStrings);
    SetFieldKeeps(c, SIZE_DT_STRINGS, sizeStrings);
  }

  // ---- Writing the new DTB ----

  /** malloc and memset(0). */
  method Zeroed(n: nat) returns (buffer: array<char>)
    ensures fresh(buffer) && buffer[..] == seq(n, _ => NUL)
  {
    buffer := new char[n](_ => NUL);
  }

  /** memcpy to a moving pointer. */
  method PutBytes(buffer: array<char>, at: nat, x: Bytes) returns (next: nat)
    requires at + |x| <= buffer.Length
    modifies buffer
    ensures next == at + |x|
    ensures buffer[..next] == old(buffer[..at]) + x
    ensures forall k :: next <= k < buffer.Length ==> buffer[k] == old(buffer[k])
  {
    forall k | 0 <= k < |x| {
      buffer[at + k] := x[k];
    }
    next := at + |x|;
    assert buffer[at..next] == x;
  }

  method PutField(buffer: array<char>, k: nat, v: u32)
    requires HEADER_SIZE <= buffer.Length && k + 4 <= HEADER_SIZE
    modifies buffer
    ensures buffer[..] == SetField(old(buffer[..]), k, v)
  {
    hide BE32;
    var next := PutBytes(buffer, k, BE32(v));
    assert buffer[next..] == old(buffer[k + 4..]);
    assert buffer[..] == buffer[..next] + buffer[next..];
  }

  method PutHeader(buffer: array<char>, sizeStruct: u32, offStrings: u32, sizeStrings: u32)
    requires HEADER_SIZE <= buffer.Length < U32_LIMIT
    modifies buffer
    ensures buffer[..] == NewHeader(old(buffer[..]), buffer.Length, sizeStruct, offStrings, sizeStrings)
  {
    hide SetField;
    PutField(buffer, TOTALSIZE, buffer.Length);
    PutField(buffer, SIZE_DT_STRUCT, sizeStruct);
    PutField(buffer, OFF_DT_STRINGS, offStrings);
    PutField(buffer, SIZE_DT_STRINGS, sizeStrings);
  }

  /** The sizes computed before the new buffer is allocated. */
  datatype Cut = Cut(nodeStart: nat, endStart: nat, sizeStruct: nat, offStrings: nat, sizeNew: nat)

  predicate CutOk(d: Bytes, cut: Cut) {
    && HEADER_SIZE <= |d| && HEADER_SIZE <= Field(d, OFF_DT_STRUCT)
    && Field(d, OFF_DT_STRUCT) <= cut.nodeStart <= cut.endStart <= Field(d, OFF_DT_STRUCT)
         + Field(d, SIZE_DT_STRUCT) <= |d|
  }

  /** What is copied: everything before the new node, the node, the rest of the structure block, and the tail. */
  function Spliced(d: Bytes, cut: Cut, x: Bytes, tail: Bytes): Bytes
    requires CutOk(d, cut)
  {
    d[..cut.nodeStart] + x + d[cut.endStart..Field(d, OFF_DT_STRUCT) + Field(d, SIZE_DT_STRUCT)] + tail
  }

  predicate AllNul(x: Bytes) {
    forall k :: 0 <= k < |x| ==> x[k] == NUL
  }

  /** Lines 821-835: allocate the new buffer and copy everything into it. */
  method CopyWithNode(d: Bytes, cut: Cut, node: Bytes, strings: Bytes) returns (buffer: array<char>, ghost pad: Bytes)
    requires CutOk(d, cut)
    requires cut.sizeStruct + (cut.endStart - cut.nodeStart) == Field(d, SIZE_DT_STRUCT) + |node| + 8
    requires Field(d, OFF_DT_STRUCT) + cut.sizeStruct + |strings| <= cut.sizeNew
    ensures fresh(buffer) && buffer.Length == cut.sizeNew && AllNul(pad)
    ensures buffer[..] == Spliced(d, cut, BE32(BEGIN_NODE) + node + BE32(END_NODE), strings + pad)
  {
    hide BE32, Read32;
    var end := Field(d, OFF_DT_STRUCT) + Field(d, SIZE_DT_STRUCT);
    var before, after := d[..cut.nodeStart], d[cut.endStart..end];
    assert |before| == cut.nodeStart && |after| == end - cut.endStart;
    buffer := Zeroed(cut.sizeNew);
    var hot := PutBytes(buffer, 0, before);
    assert buffer[..hot] == before;
    hot := PutNode(buffer, hot, node);
    hot := PutBytes(buffer, hot, after);
    hot := PutBytes(buffer, hot, strings);
    pad := buffer[hot..];
    assert buffer[..] == buffer[..hot] + pad;
    Assoc(before + (BE32(BEGIN_NODE) + node + BE32(END_NODE)) + after, strings, pad);
  }

  /** The node between its two tokens. */
  method PutNode(buffer: array<char>, at: nat, node: Bytes) returns (next: nat)
    requires at + |node| + 8 <= buffer.Length
    modifies buffer
    ensures next == at + |node| + 8
    ensures buffer[..next] == old(buffer[..at]) + (BE32(BEGIN_NODE) + node + BE32(END_NODE))
    ensures forall k :: next <= k < buffer.Length ==> buffer[k] == old(buffer[k])
  {
    hide BE32;
    ghost var before := buffer[..at];
    next := PutBytes(buffer, at, BE32(BEGIN_NODE));
    next := PutBytes(buffer, next, node);
    next := PutBytes(buffer, next, BE32(END_NODE));
    Assoc(before, BE32(BEGIN_NODE), node);
    Assoc(before, BE32(BEGIN_NODE) + node, BE32(END_NODE));
  }

  /** Lines 821-840: every byte of the new buffer. */
  method BuildWithNode(d: Bytes, cut: Cut, node: Bytes, strings: Bytes) returns (buffer: array<char>, ghost pad: Bytes)
    requires CutOk(d, cut) && cut.sizeNew < U32_LIMIT
    requires cut.sizeStruct + (cut.endStart - cut.nodeStart) == Field(d, SIZE_DT_STRUCT) + |node| + 8
    requires Field(d, OFF_DT_STRUCT) + cut.sizeStruct + |strings| <= cut.sizeNew && cut.offStrings < U32_LIMIT
    ensures fresh(buffer) && buffer.Length == cut.sizeNew && AllNul(pad)
    ensures var raw := Spliced(d, cut, BE32(BEGIN_NODE) + node + BE32(END_NODE), strings + pad);
            |raw| == cut.sizeNew && buffer[..] == NewHeader(raw, cut.sizeNew, cut.sizeStruct, cut.offStrings, |strings|)
  {
    hide NewHeader, BE32, Read32, Spliced;
    buffer, pad := CopyWithNode(d, cut, node, strings);
    PutHeader(buffer, cut.sizeStruct, cut.offStrings, |strings|);
  }

  // ---- The new DTB ----

  /** Where the change is made. */
  ghost predicate CutFor(d: Bytes, t: Dts, cut: Cut) {
    && DtbOk(d, t)
    && cut.nodeStart == BodyAt(d, t) + From(t.body) && cut.endStart == BodyAt(d, t) + Until(t.body)
  }

  /** d' is the DTB d with its tree changed to t' and its strings block to what starts the tail. */
  ghost predicate Rewritten(d: Bytes, t: Dts, d': Bytes, t': Dts, tail: Bytes) {
    && HEADER_SIZE <= |d| && HEADER_SIZE <= |d'| && DtsOk(t')
    && Field(d', OFF_DT_STRUCT) == Field(d, OFF_DT_STRUCT)
    && At(d', Field(d, OFF_DT_STRUCT), SerDts(t') + tail)
    && |d'| == Field(d, OFF_DT_STRUCT) + |SerDts(t')| + |tail|
    && (forall k: nat {:trigger Field(d, k)} :: k in {0, 16, 20, 24, 28} ==> Field(d', k) == Field(d, k))
    && HEADER_SIZE <= Field(d, OFF_DT_STRUCT) <= |d| && Field(d, OFF_DT_STRUCT) <= |d'|
    && d'[HEADER_SIZE..Field(d, OFF_DT_STRUCT)] == d[HEADER_SIZE..Field(d, OFF_DT_STRUCT)]
  }

  lemma SplicedIsRewritten(d: Bytes, t: Dts, cut: Cut, x: Bytes, tail: Bytes, b': Body, d': Bytes, offStrings: u32,
                           sizeStrings: u32)
    requires CutFor(d, t, cut) && Wf(b') && From(t.body) <= Until(t.body) <= |Ser(t.body)|
    requires Ser(b') == Ser(t.body)[..From(t.body)] + x + Ser(t.body)[Until(t.body)..]
    requires CutOk(d, cut) && |Spliced(d, cut, x, tail)| == cut.sizeNew < U32_LIMIT && cut.sizeStruct < U32_LIMIT
    requires d' == NewHeader(Spliced(d, cut, x, tail), cut.sizeNew, cut.sizeStruct, offStrings, sizeStrings)
    ensures Rewritten(d, t, d', t.(body := b'), tail)
    ensures |d'| == Field(d, OFF_DT_STRUCT) + |SerDts(t.(body := b'))| + |tail|
    ensures Field(d', TOTALSIZE) == |d'| == cut.sizeNew
    ensures Field(d', SIZE_DT_STRUCT) == cut.sizeStruct && Field(d', OFF_DT_STRINGS) == offStrings
    ensures Field(d', SIZE_DT_STRINGS) == sizeStrings
    ensures |SerDts(t.(body := b'))| + (Until(t.body) - From(t.body)) == |SerDts(t)| + |x|
  {
    hide SerDts, Ser, NewHeader, Read32, From, Until;
    var t' := t.(body := b');
    var raw := Spliced(d, cut, x, tail);
    var off := Field(d, OFF_DT_STRUCT);
    StructReplaced(d, t, b', x, tail, From(t.body), Until(t.body));
    assert raw == d[..off] + SerDts(t') + tail;
    NewHeaderReads(raw, cut.sizeNew, cut.sizeStruct, offStrings, sizeStrings);
    HeaderKept(d, raw, off, SerDts(t') + tail);
    TailAt(raw, d', off, SerDts(t') + tail);
  }

  /** Bytes up to the structure block are copied as they are. */
  lemma HeaderKept(d: Bytes, raw: Bytes, off: nat, rest: Bytes)
    requires HEADER_SIZE <= off <= |d| && raw == d[..off] + rest
    ensures At(raw, off, rest) && raw[HEADER_SIZE..off] == d[HEADER_SIZE..off]
    ensures forall k: nat {:trigger Field(d, k)} :: k + 4 <= HEADER_SIZE ==> Field(raw, k) == Field(d, k)
  {
    assert raw[off..] == rest;
    forall k: nat | k + 4 <= HEADER_SIZE
      ensures Field(raw, k) == Field(d, k)
    {
      assert raw[k] == d[k] && raw[k + 1] == d[k + 1] && raw[k + 2] == d[k + 2] && raw[k + 3] == d[k + 3];
    }
  }

  // ---- Where the change is made ----

  /** dts_get_node_full_length. */
  method NodeFullLength(s: Bytes, node: nat, maxOffset: nat, ghost t: Tree) returns (r: nat)
    requires IsNodeAt(s, node, t) && TreeOk(t) && Words(t.body) <= maxOffset / 4
    ensures r == |TreeBytes(t)| > 0
  {
    hide IsNodeAt, TreeBytes;
    var offsetChild := SkipNode(s, node, maxOffset, t);
    TreeLength(t);
    NodeNotEmpty(t);
    if offsetChild == 0 {
      assert false;
    }
    return 4 * (offsetChild + 2);
  }

  lemma NodeNotEmpty(t: Tree)
    ensures NodeSteps(t.name, t.body) > 0
  {
  }

  /** Lines 787-814: the old node, or the place before the two tokens that end the structure block. Error 6 is never
      reached. */
  method Locate(was: DtbEntry, ghost t: Dts) returns (nodeStart: nat, endStart: nat)
    requires EntryOk(was, t)
    ensures nodeStart == BodyAt(was.buffer, t) + From(t.body) && endStart == BodyAt(was.buffer, t) + Until(t.body)
    ensures From(t.body) <= Until(t.body) <= |Ser(t.body)|
    ensures Field(was.buffer, OFF_DT_STRUCT) <= nodeStart
    ensures endStart <= Field(was.buffer, OFF_DT_STRUCT) + Field(was.buffer, SIZE_DT_STRUCT)
  {
    hide NameOf, ParsedOk, Ser, SerDts, IsNodeAt, Read32, BE32, At, TreeBytes;
    var d := was.buffer;
    HeadLength(t);
    SerLength(t.body);
    var end := Field(d, OFF_DT_STRUCT) + Field(d, SIZE_DT_STRUCT);
    if was.node.Some? {
      PartitionsNode(d, t);
      ChildIsHere(t.body, PARTITIONS);
      ChildFits(t.body);
      nodeStart := was.node.value - 4;
      var length := NodeFullLength(d, was.node.value, Field(d, SIZE_DT_STRUCT), Child(t.body, PARTITIONS));
      endStart := nodeStart + length;
    } else {
      nodeStart := end - 8;
      StructEnds(d, t);
      if Read32(d, nodeStart) != END_NODE || Read32(d, nodeStart + 4) != END {
        assert false;
      }
      endStart := nodeStart;
    }
  }

  lemma ChildFits(b: Body)
    requires Wf(b) && HasChild(b, PARTITIONS)
    ensures TreeOk(Child(b, PARTITIONS)) && Words(Child(b, PARTITIONS).body) <= Words(b)
  {
    hide Ser, TreeBytes;
    ChildIsHere(b, PARTITIONS);
    TreeLength(Child(b, PARTITIONS));
    SerLength(b);
  }

  /** A structure block ends with the END_NODE of the root and END. */
  lemma StructEnds(d: Bytes, t: Dts)
    requires DtbOk(d, t)
    ensures var end := Field(d, OFF_DT_STRUCT) + Field(d, SIZE_DT_STRUCT);
            8 <= end <= |d| && Read32(d, end - 8) == END_NODE && Read32(d, end - 4) == END
  {
    hide At, Ser, SerDts, Read32;
    HeadLength(t);
    DtsParts(d, t);
    SerLength(t.body);
    var b := BodyAt(d, t);
    AppendSplices(t.body, Tree([], t.pad, t.body));
    var n := |Ser(t.body)| - 4;
    assert Ser(t.body) == Ser(t.body)[..n] + BE32(END_NODE);
    AtConcat(d, b, Ser(t.body)[..n], BE32(END_NODE));
    ReadBE32(d, b + n, END_NODE);
    ReadBE32(d, b + n + 4, END);
  }

  // ---- Collecting and dropping phandles ----

  /** The list of phandles after walking the tree. */
  ghost function Collected(d: Bytes, t: Dts, offPhandle: u32, offLinux: u32): Option<seq<Slot>>
    requires HEADER_SIZE <= |d|
  {
    RecordAll(seq(128, _ => EMPTY), Claims(t.body, BodyAt(d, t) - 4, BodyAt(d, t), offPhandle, offLinux))
  }

  /** The tree has phandles, none of them 0 or malformed, and no two nodes claim the same. */
  ghost predicate Collectable(d: Bytes, t: Dts, offPhandle: u32, offLinux: u32)
    requires HEADER_SIZE <= |d|
  {
    var e := Collected(d, t, offPhandle, offLinux);
    e.Some? && !Held(e.value, 0) && exists h :: 1 <= h < |e.value| && Held(e.value, h)
  }

  ghost predicate UsesLinux(e: seq<Slot>) {
    exists h :: 1 <= h < |e| && e[h].linux
  }

  /** dts_get_phandles. */
  method CollectPhandles(d: Bytes, offPhandle: u32, offLinux: u32, ghost t: Dts) returns (r: int, plist: PhandleList)
    requires DtbOk(d, t)
    ensures fresh(plist)
    ensures r == 0 <==> Collectable(d, t, offPhandle, offLinux)
    ensures r == 0 ==>
              Collected(d, t, offPhandle, offLinux) == Some(plist.entries)
              && (plist.hasLinux <==> UsesLinux(plist.entries))
  {
    hide At, Ser, SerDts, IsNodeAt, RecordAll, Claims, BE32, NameBytes, Read32;
    DtsParts(d, t);
    WordsFit(t);
    var off, maxOffset := Field(d, OFF_DT_STRUCT), Field(d, SIZE_DT_STRUCT);
    var found := SkipNop(d, off, t.nops, NameBytes([], t.pad) + Ser(t.body));
    var start := found.value;
    plist := new PhandleList();
    NothingHeld();
    ghost var e0 := plist.entries;
    var length := plist.GetPhandles(d, start + 4, maxOffset - (start - off) - 4, offPhandle, offLinux,
                                    Tree([], t.pad, t.body));
    if length == 0 {
      return 2, plist;
    }
    RecordAllConsistent(e0, Claims(t.body, BodyAt(d, t) - 4, BodyAt(d, t), offPhandle, offLinux));
    var bad := plist.Finish();
    r := if bad != 0 then 3 else 0;
  }

  lemma NothingHeld()
    ensures Consistent(seq(128, _ => EMPTY))
  {
  }

  /** The phandles that dts_drop_partitions_phandles frees. */
  function OldPhandles(was: DtbEntry): seq<nat> {
    var parts := was.parsed.partitions;
    if was.hasPartitions then seq(|parts|, i requires 0 <= i < |parts| => parts[i].phandle) + [was.parsed.phandleRoot]
    else []
  }

  lemma NodePhandlesAreClaimed(d: Bytes, node: nat, c: Tree, offPhandle: u32, offLinux: u32)
    requires HasStrings(d) && IsNodeAt(d, node, c) && node + 12 <= |d| && NodeParses(d, node, c).Ok?
    requires Find(Strings(d), "phandle") == Some(offPhandle as nat)
    ensures PhandlesIn(NodeParses(d, node, c).value, All(c.body, Pair(offPhandle, offLinux)))
  {
    hide At, Ser, ParseBody, All, Find;
    PartitionsStart(d, node, c);
    AtBody(d, node + 12, c.body);
    var hs := All(c.body, Pair(offPhandle, offLinux));
    ParsedPhandles(d, c.body, node + 12, false, Strings(d), GetOffsets(Strings(d)).value, NothingParsed(), offLinux,
                   hs);
  }

  /** Every phandle that the old partitions node recorded is claimed in it. */
  lemma OldPhandlesAreClaimed(was: DtbEntry, t: Dts, offPhandle: u32, offLinux: u32, h: nat)
    requires EntryOk(was, t) && was.hasPartitions && Find(Strings(was.buffer), "phandle") == Some(offPhandle as nat)
    requires h in OldPhandles(was) && h != 0
    ensures HasChild(t.body, PARTITIONS) && h in All(Child(t.body, PARTITIONS).body, Pair(offPhandle, offLinux))
  {
    hide NameOf, At, Ser, SerDts, IsNodeAt, ParseBody, All, DtbOk, Find, NodeParses, InRecordOrder, Recorded, NodeMeans,
         NodeOk;
    var d, c := was.buffer, Child(t.body, PARTITIONS);
    var node := was.node.value;
    var raw := NodeParses(d, node, c).value;
    NodePhandlesAreClaimed(d, node, c, offPhandle, offLinux);
    if h != was.parsed.phandleRoot {
      var i :| 0 <= i < |was.parsed.partitions| && was.parsed.partitions[i].phandle == h;
      assert was.parsed.partitions[i] in multiset(raw.partitions);
    }
  }

  lemma ClaimedIsHeld(d: Bytes, t: Dts, offPhandle: u32, offLinux: u32, h: nat)
    requires HEADER_SIZE <= |d| && Collected(d, t, offPhandle, offLinux).Some?
    requires HasChild(t.body, PARTITIONS) && h in All(Child(t.body, PARTITIONS).body, Pair(offPhandle, offLinux))
    ensures h < |Collected(d, t, offPhandle, offLinux).value|
  {
    hide IsClaimed, RecordAll, SubDistinct, Claims;
    DistinctSplit(t.body, PARTITIONS, Pair(offPhandle, offLinux));
    var at := BodyAt(d, t);
    var n := AllIsClaimed(t.body, at - 4, at, offPhandle, offLinux, h);
    RecordedExactly(seq(128, _ => EMPTY), Claims(t.body, at - 4, at, offPhandle, offLinux), h, n);
  }

  /** Lines 765-769: its error 4 is never reached. */
  method DropOld(plist: PhandleList, was: DtbEntry, ghost t: Dts, ghost offPhandle: u32, ghost offLinux: u32)
    requires EntryOk(was, t) && Find(Strings(was.buffer), "phandle") == Some(offPhandle as nat)
    requires Collected(was.buffer, t, offPhandle, offLinux) == Some(plist.entries)
    modifies plist`entries
    ensures plist.entries == Dropped(old(plist.entries), OldPhandles(was))
  {
    hide NameOf, ParsedOk, SerDts, At, Collected, Find, HasChild;
    if was.hasPartitions {
      var phandles := seq(|was.parsed.partitions|,
                          i requires 0 <= i < |was.parsed.partitions| => was.parsed.partitions[i].phandle);
      assert OldPhandles(was) == phandles + [was.parsed.phandleRoot];
      OldPhandleFits(was, t, offPhandle, offLinux, was.parsed.phandleRoot);
      forall i | 0 <= i < |phandles|
        ensures phandles[i] < |plist.entries|
      {
        assert OldPhandles(was)[i] == phandles[i];
        OldPhandleFits(was, t, offPhandle, offLinux, phandles[i]);
      }
      var bad := plist.Drop(phandles, was.parsed.phandleRoot);
      if bad != 0 {
        assert false;
      }
    } else {
      DropNothing(plist.entries);
    }
  }

  lemma DropNothing(e: seq<Slot>)
    ensures Dropped(e, []) == e
  {
  }

  lemma OldPhandleFits(was: DtbEntry, t: Dts, offPhandle: u32, offLinux: u32, h: nat)
    requires EntryOk(was, t) && was.hasPartitions && Find(Strings(was.buffer), "phandle") == Some(offPhandle as nat)
    requires Collected(was.buffer, t, offPhandle, offLinux).Some? && h in OldPhandles(was)
    ensures h < |Collected(was.buffer, t, offPhandle, offLinux).value|
  {
    hide NameOf, ParsedOk, SerDts, At, Collected, Find, HasChild, OldPhandles;
    SomeSlots(was.buffer, t, offPhandle, offLinux);
    if h != 0 {
      OldPhandlesAreClaimed(was, t, offPhandle, offLinux, h);
      ClaimedIsHeld(was.buffer, t, offPhandle, offLinux, h);
    }
  }

  lemma SomeSlots(d: Bytes, t: Dts, offPhandle: u32, offLinux: u32)
    requires HEADER_SIZE <= |d| && Collected(d, t, offPhandle, offLinux).Some?
    ensures Collected(d, t, offPhandle, offLinux).value != []
  {
  }

  lemma CollectedIsRoomy(d: Bytes, t: Dts, offPhandle: u32, offLinux: u32, freed: seq<nat>, n: nat)
    requires DtbOk(d, t) && Collected(d, t, offPhandle, offLinux).Some? && n <= 128
    ensures var e := Dropped(Collected(d, t, offPhandle, offLinux).value, freed); 1 < |e| < U32_LIMIT && Enough(e, n)
  {
    hide SerDts, At, RecordAll, Claims, Enough, Read32;
    HeadLength(t);
    ClaimsCount(t.body, BodyAt(d, t) - 4, BodyAt(d, t), offPhandle, offLinux);
    CollectedIsEnough(Claims(t.body, BodyAt(d, t) - 4, BodyAt(d, t), offPhandle, offLinux), freed, n);
  }

  // ---- The new node ----

  function NodeOf(c: Composed): Tree
    requires |c.ms| < U32_LIMIT
  {
    Tree(PARTITIONS, [NUL], RootBody(c.ms, c.root, c.names, c.linux))
  }

  function NodeText(c: Composed): Bytes
    requires AllMadeOk(c.ms) && |c.ms| < U32_LIMIT
  {
    PARTITIONS + [NUL, NUL] + RootText(c.ms, c.root, c.names, c.linux)
  }

  lemma NodeIsTree(c: Composed)
    requires AllMadeOk(c.ms) && |c.ms| < U32_LIMIT
    ensures TreeOk(NodeOf(c)) && TreeBytes(NodeOf(c)) == BE32(BEGIN_NODE) + NodeText(c) + BE32(END_NODE)
  {
    hide RootBody, RootText, BE32;
    SerRoot(c.ms, c.root, c.names, c.linux);
    var text := RootText(c.ms, c.root, c.names, c.linux);
    assert NameBytes(PARTITIONS, [NUL]) == PARTITIONS + [NUL, NUL];
    Assoc(PARTITIONS + [NUL, NUL], text, BE32(END_NODE));
    Assoc(BE32(BEGIN_NODE), NodeText(c), BE32(END_NODE));
  }

  /** A name in the strings block other than the two phandle names is at another offset than they are. */
  lemma NotAPhandle(strings: Bytes, off: u32, offPhandle: u32, offLinux: u32)
    requires |strings| < U32_LIMIT && StringAt(strings, off) != [] && StringAt(strings, offPhandle) == "phandle"
    requires offLinux == U32_LIMIT - 1 || StringAt(strings, offLinux) == "linux,phandle"
    requires StringAt(strings, off) != "phandle" && StringAt(strings, off) != "linux,phandle"
    ensures off !in Pair(offPhandle, offLinux) && off !in PhandleNames(strings)
  {
  }

  lemma IsAPhandle(strings: Bytes, off: u32)
    requires StringAt(strings, off) == "phandle" || StringAt(strings, off) == "linux,phandle"
    ensures off in PhandleNames(strings)
  {
  }

  /** The composed node has its phandles where the walker looks, and under the names a reader of the tree looks for. */
  lemma NamesAreApart(c: Composed, parts: seq<DtsPart>, strings: Bytes, strings': Bytes, e: seq<Slot>)
    requires Terminated(strings) && |strings'| < U32_LIMIT && Find(strings, "phandle").Some?
    requires |parts| <= MAX_PARTITIONS_COUNT
    requires ComposedFrom(c, parts, strings, strings', e, OffsetOf(Find(strings, "phandle")),
                          OffsetOf(Find(strings, "linux,phandle")))
    requires c.linux ==> Find(strings, "linux,phandle").Some?
    ensures NamesApart(c, Pair(c.names.phandle, c.names.linux)) && NamesApart(c, PhandleNames(strings'))
  {
    hide Find, StringAt, InternAll, PartName, PartNames, FreshPhandles, AllMadeOk;
    InternedNamesMatch(c, parts, strings, strings', e);
    LinuxName(c, parts, strings, strings', e);
    hide Terminated, PhandleNames;
    IsAPhandle(strings', c.names.phandle);
    if c.linux {
      IsAPhandle(strings', c.names.linux);
    }
    NotAPhandle(strings', c.names.parts, c.names.phandle, c.names.linux);
    NotAPhandle(strings', c.names.pname, c.names.phandle, c.names.linux);
    NotAPhandle(strings', c.names.size, c.names.phandle, c.names.linux);
    NotAPhandle(strings', c.names.mask, c.names.phandle, c.names.linux);
    forall i | 0 <= i < |c.ms|
      ensures c.ms[i].offPartN !in Pair(c.names.phandle, c.names.linux) && c.ms[i].offPartN !in PhandleNames(strings')
    {
      PartNameId(i);
      NotAPhandle(strings', c.ms[i].offPartN, c.names.phandle, c.names.linux);
    }
  }

  lemma ComposedStrings(c: Composed, parts: seq<DtsPart>, strings: Bytes, strings': Bytes, e: seq<Slot>)
    requires ComposedFrom(c, parts, strings, strings', e, OffsetOf(Find(strings, "phandle")),
                          OffsetOf(Find(strings, "linux,phandle")))
    ensures strings' == InternAll(strings, ESSENTIALS + PartNames(|parts|)).0 && |c.ms| == |parts| < U32_LIMIT
    ensures FreshPhandles(e, Phandles(c))
  {
  }

  lemma LinuxName(c: Composed, parts: seq<DtsPart>, strings: Bytes, strings': Bytes, e: seq<Slot>)
    requires Terminated(strings) && |strings'| < U32_LIMIT && Find(strings, "phandle").Some?
    requires ComposedFrom(c, parts, strings, strings', e, OffsetOf(Find(strings, "phandle")),
                          OffsetOf(Find(strings, "linux,phandle")))
    ensures c.names.linux == U32_LIMIT - 1 || StringAt(strings', c.names.linux) == "linux,phandle"
  {
    hide StringAt, InternAll, Find, Terminated, AllMadeOk, FreshPhandles, PartNames;
    StringsStay(strings, |parts|);
    ComposedStrings(c, parts, strings, strings', e);
    KeptString(strings, strings', "linux,phandle");
  }

  lemma StringsStay(strings: Bytes, n: nat)
    requires Terminated(strings)
    ensures var strings' := InternAll(strings, ESSENTIALS + PartNames(n)).0;
            |strings| <= |strings'| && forall i :: 0 <= i < |strings| ==> StringAt(strings', i) == StringAt(strings, i)
  {
    hide StringAt, InternAll, Find, Terminated, PartNames;
    Internable(n);
    InternAllIsStable(strings, ESSENTIALS + PartNames(n));
  }

  lemma KeptString(strings: Bytes, strings': Bytes, str: Bytes)
    requires str != [] && forall i :: 0 <= i < |strings| ==> StringAt(strings', i) == StringAt(strings, i)
    ensures Find(strings, str).Some? ==>
              Find(strings, str).value < |strings| && StringAt(strings', Find(strings, str).value) == str
  {
  }

  lemma PlainPartName(i: nat)
    requires i < MAX_PARTITIONS_COUNT
    ensures Plain(PartName(i))
  {
    PartNameId(i);
  }

  lemma PlainEssential(k: nat)
    requires k < 4
    ensures Plain(ESSENTIALS[k])
  {
    assert ESSENTIALS[k] in {"parts", "pname", "size", "mask"};
  }

  lemma PlainNames(strings: Bytes, n: nat)
    requires Terminated(strings) && n <= MAX_PARTITIONS_COUNT
    ensures PhandleNames(InternAll(strings, ESSENTIALS + PartNames(n)).0) == PhandleNames(strings)
  {
    hide PartName, PhandleNames, InternAll, Plain;
    var strs := ESSENTIALS + PartNames(n);
    forall k | 0 <= k < |strs|
      ensures Plain(strs[k])
    {
      if k >= 4 {
        assert strs[k] == PartName(k - 4);
        PlainPartName(k - 4);
      } else {
        PlainEssential(k);
      }
    }
    InternAllNames(strings, strs);
  }

  /** The phandle list when new phandles are assigned: collected, without the old partitions node. */
  ghost function Occupied(was: DtbEntry, t: Dts, offPhandle: u32, offLinux: u32): seq<Slot>
    requires HEADER_SIZE <= |was.buffer| && Collected(was.buffer, t, offPhandle, offLinux).Some?
  {
    Dropped(Collected(was.buffer, t, offPhandle, offLinux).value, OldPhandles(was))
  }

  /** Outside the partitions node no two nodes have the same phandle by name, and none has by name a phandle that goes
      to the new node or one of its n partitions. */
  ghost predicate StaysDistinct(was: DtbEntry, t: Dts, n: nat, offPhandle: u32, offLinux: u32)
    requires HasStrings(was.buffer) && Collected(was.buffer, t, offPhandle, offLinux).Some?
  {
    var rest, names := Without(t.body, PARTITIONS), PhandleNames(Strings(was.buffer));
    && Distinct(rest, names)
    && OutOfTheWay(rest, Occupied(was, t, offPhandle, offLinux), n + 1, names)
  }

  lemma OldFromChild(was: DtbEntry, t: Dts, offPhandle: u32, offLinux: u32)
    requires EntryOk(was, t) && Find(Strings(was.buffer), "phandle") == Some(offPhandle as nat)
    ensures forall h :: h in OldPhandles(was) && h != 0 ==>
              HasChild(t.body, PARTITIONS) && h in All(Child(t.body, PARTITIONS).body, Pair(offPhandle, offLinux))
  {
    hide NameOf, Find, ParsedOk, SerDts, At, OldPhandles, All;
    forall h | h in OldPhandles(was) && h != 0
      ensures HasChild(t.body, PARTITIONS) && h in All(Child(t.body, PARTITIONS).body, Pair(offPhandle, offLinux))
    {
      OldNotEmpty(was, h);
      OldPhandlesAreClaimed(was, t, offPhandle, offLinux, h);
    }
  }

  /** What the walker collects stays distinct, and the composer hands out none of it. */
  lemma CollectedApart(was: DtbEntry, t: Dts, n: nat, offPhandle: u32, offLinux: u32)
    requires EntryOk(was, t) && Find(Strings(was.buffer), "phandle") == Some(offPhandle as nat)
    requires Collected(was.buffer, t, offPhandle, offLinux).Some?
    ensures Distinct(Without(t.body, PARTITIONS), Pair(offPhandle, offLinux))
    ensures OutOfTheWay(Without(t.body, PARTITIONS), Occupied(was, t, offPhandle, offLinux), n,
                        Pair(offPhandle, offLinux))
  {
    hide NameOf, Find, Claims, RecordAll, ParsedOk, SerDts, At, OldPhandles, All, Dropped, Distinct, Without;
    OldFromChild(was, t, offPhandle, offLinux);
    var at, e0, e := BodyAt(was.buffer, t), seq(128, _ => EMPTY), Collected(was.buffer, t, offPhandle, offLinux).value;
    CollectedIsDistinct(t.body, PARTITIONS, at - 4, at, offPhandle, offLinux, e0);
    forall v | v in All(Without(t.body, PARTITIONS), Pair(offPhandle, offLinux))
      ensures !NextFree(Occupied(was, t, offPhandle, offLinux), n, v)
    {
      CollectedStaysTaken(t.body, PARTITIONS, at - 4, at, offPhandle, offLinux, e0, e, OldPhandles(was), v);
    }
  }

  /** If outside the partitions node every property that reads as a phandle has one of the two looked-up offsets, the
      new tree has distinct phandles. */
  lemma FoundStaysDistinct(was: DtbEntry, t: Dts, n: nat, offPhandle: u32, offLinux: u32)
    requires EntryOk(was, t) && Find(Strings(was.buffer), "phandle") == Some(offPhandle as nat)
    requires Collected(was.buffer, t, offPhandle, offLinux).Some?
    requires AllFound(Without(t.body, PARTITIONS), PhandleNames(Strings(was.buffer)), Pair(offPhandle, offLinux))
    ensures StaysDistinct(was, t, n, offPhandle, offLinux)
  {
    hide NameOf, Find, Collected, ParsedOk, SerDts, At, OldPhandles, All, Occupied, Distinct, Without, PhandleNames,
         NextFree, AllFound;
    CollectedApart(was, t, n + 1, offPhandle, offLinux);
    FoundIsDistinct(Without(t.body, PARTITIONS), PhandleNames(Strings(was.buffer)), Pair(offPhandle, offLinux));
  }

  /** With phandles collected, dropped and assigned, the nodes of the new tree have distinct phandles as the walker sees
      them; by name they have if and only if no phandle outside the partitions node that it did not see is in the
      way. */
  lemma NewPhandlesDistinct(was: DtbEntry, t: Dts, c: Composed, parts: seq<DtsPart>, strings': Bytes)
    requires EntryOk(was, t) && Terminated(Strings(was.buffer)) && |strings'| < U32_LIMIT
    requires |parts| <= MAX_PARTITIONS_COUNT
    requires Find(Strings(was.buffer), "phandle").Some? && Find(Strings(was.buffer), "phandle").value < U32_LIMIT
    requires Collected(was.buffer, t, c.names.phandle, c.names.linux).Some?
    requires ComposedFrom(c, parts, Strings(was.buffer), strings', Occupied(was, t, c.names.phandle, c.names.linux),
                          OffsetOf(Find(Strings(was.buffer), "phandle")),
                            OffsetOf(Find(Strings(was.buffer), "linux,phandle")))
    requires c.linux ==> Find(Strings(was.buffer), "linux,phandle").Some?
    ensures var f, l := c.names.phandle, c.names.linux;
            var b, b', names := t.body, Splice.Implement(t.body, NodeOf(c)), PhandleNames(Strings(was.buffer));
            && Distinct(b', Pair(f, l)) && PhandleNames(strings') == names
            && (Distinct(b', names) <==> StaysDistinct(was, t, |parts|, f, l))
            && (AllFound(Without(b, PARTITIONS), names, Pair(f, l)) ==> Distinct(b', names))
  {
    hide NameOf, Find, InternAll, RootBody, Collected, FreshPhandles, NamesApart, ParsedOk, SerDts, At, Occupied, All,
         Distinct, PhandleNames, Without, NextFree, AllFound, Terminated, Splice.Implement, AllMadeOk;
    ComposedStrings(c, parts, Strings(was.buffer), strings', Occupied(was, t, c.names.phandle, c.names.linux));
    var strings, f, l := Strings(was.buffer), c.names.phandle, c.names.linux;
    var e := Occupied(was, t, f, l);
    NamesAreApart(c, parts, strings, strings', e);
    PlainNames(strings, |parts|);
    CollectedApart(was, t, |parts| + 1, f, l);
    NewTreeDistinct(t.body, e, c, NodeOf(c), Pair(f, l));
    NewTreeDistinct(t.body, e, c, NodeOf(c), PhandleNames(strings));
    if AllFound(Without(t.body, PARTITIONS), PhandleNames(strings), Pair(f, l)) {
      FoundStaysDistinct(was, t, |parts|, f, l);
    }
  }

  lemma OldNotEmpty(was: DtbEntry, h: nat)
    requires h in OldPhandles(was)
    ensures was.hasPartitions
  {
  }

  // ---- dtb_buffer_entry_implement_partitions ----

  /** The structure block with the new node in it. */
  function NewDts(t: Dts, c: Composed): Dts
    requires |c.ms| < U32_LIMIT
  {
    t.(body := Splice.Implement(t.body, NodeOf(c)))
  }

  function CutOf(d: Bytes, nodeStart: nat, endStart: nat, lenNode: nat, lenStrings: nat): (cut: Cut)
    requires HEADER_SIZE <= |d|
    requires HEADER_SIZE <= Field(d, OFF_DT_STRUCT) <= nodeStart <= endStart <= Field(d, OFF_DT_STRUCT)
               + Field(d, SIZE_DT_STRUCT)
    requires Field(d, OFF_DT_STRUCT) + Field(d, SIZE_DT_STRUCT) <= Field(d, OFF_DT_STRINGS)
    requires Field(d, OFF_DT_STRINGS) + Field(d, SIZE_DT_STRINGS) <= |d|
    ensures CutOk(d, cut) && cut.nodeStart == nodeStart && cut.endStart == endStart
    ensures cut.sizeStruct + (endStart - nodeStart) == Field(d, SIZE_DT_STRUCT) + lenNode + 8
    ensures Field(d, OFF_DT_STRUCT) + cut.sizeStruct <= cut.offStrings && cut.offStrings + lenStrings <= cut.sizeNew
    ensures cut.offStrings == Field(d, OFF_DT_STRUCT) + cut.sizeStruct + Gap(d)
    ensures cut.sizeNew + Field(d, SIZE_DT_STRINGS) < |d| + lenNode + 8 + lenStrings + 4
  {
    var sizeBefore := nodeStart;
    var sizeAfter := Field(d, OFF_DT_STRUCT) + Field(d, SIZE_DT_STRUCT) - endStart;
    var sizeStruct := sizeBefore - Field(d, OFF_DT_STRUCT) + sizeAfter + lenNode + 8;
    var offStrings := Field(d, OFF_DT_STRINGS) + sizeStruct - Field(d, SIZE_DT_STRUCT);
    var sizeNew := AlignUp(|d| - Field(d, SIZE_DT_STRUCT) + sizeStruct - Field(d, SIZE_DT_STRINGS) + lenStrings, 4);
    Cut(nodeStart, endStart, sizeStruct, offStrings, sizeNew)
  }

  /** The new buffer is the DTB with the new node in its tree and the new strings block behind the structure block. The
      new header gives the place of that strings block exactly if there was no free space before the old one. */
  ghost predicate Implemented(d: Bytes, t: Dts, d': Bytes, t': Dts, strings': Bytes) {
    && DtbOk(d, t) && DtbOk(d', t')
    && (exists pad :: AllNul(pad) && Rewritten(d, t, d', t', strings' + pad))
    && Field(d', SIZE_DT_STRINGS) == |strings'|
    && Gap(d') == Gap(d)
    && (Strings(d') == strings' <==> StringsFollow(d))
  }

  lemma BuiltIsImplemented(d: Bytes, t: Dts, cut: Cut, c: Composed, strings': Bytes, pad: Bytes, d': Bytes)
    requires CutFor(d, t, cut) && AllMadeOk(c.ms) && |c.ms| < U32_LIMIT
    requires From(t.body) <= Until(t.body) && CutOk(d, cut) && AllNul(pad) && !AllNul(strings')
    requires cut.sizeStruct + (cut.endStart - cut.nodeStart) == Field(d, SIZE_DT_STRUCT) + |NodeText(c)| + 8
    requires Field(d, OFF_DT_STRUCT) + cut.sizeStruct <= cut.offStrings
    requires cut.offStrings + |strings'| <= cut.sizeNew < U32_LIMIT
    requires cut.offStrings == Field(d, OFF_DT_STRUCT) + cut.sizeStruct + Gap(d)
    requires var raw := Spliced(d, cut, BE32(BEGIN_NODE) + NodeText(c) + BE32(END_NODE), strings' + pad);
             |raw| == cut.sizeNew && d' == NewHeader(raw, cut.sizeNew, cut.sizeStruct, cut.offStrings, |strings'|)
    ensures Wf(NewDts(t, c).body) && Implemented(d, t, d', NewDts(t, c), strings')
  {
    hide SerDts, Ser, NewHeader, Read32, From, Until, NodeText, RootBody, TreeBytes, BE32, Spliced, At;
    var t' := NewDts(t, c);
    NodeIsTree(c);
    ImplementSplices(t.body, NodeOf(c));
    var x := BE32(BEGIN_NODE) + NodeText(c) + BE32(END_NODE);
    SplicedIsRewritten(d, t, cut, x, strings' + pad, t'.body, d', cut.offStrings, |strings'|);
    assert Rewritten(d, t, d', t', strings' + pad);
    var off := Field(d, OFF_DT_STRUCT);
    AtConcat(d', off, SerDts(t'), strings' + pad);
    var gap := cut.offStrings - off - |SerDts(t')|;
    AtBound(d', off + |SerDts(t')|, strings' + pad);
    WholeTail(d', off + |SerDts(t')|, strings', pad, gap);
  }

  /** Reading a strings block some bytes too late gives another one, as zeros follow it. */
  lemma WholeTail(s: Bytes, p: nat, strings: Bytes, pad: Bytes, gap: nat)
    requires At(s, p, strings + pad) && AllNul(pad) && !AllNul(strings) && p + gap + |strings| <= |s|
    requires |s| == p + |strings + pad|
    ensures s[p + gap..p + gap + |strings|] == strings <==> gap == 0
  {
    var tail := strings + pad;
    SliceAt(s, p, tail, gap, |strings|);
    if gap > 0 && tail[gap..gap + |strings|] == strings {
      Shifted(strings, pad, gap);
    }
  }

  lemma SliceAt(s: Bytes, p: nat, x: Bytes, k: nat, n: nat)
    requires At(s, p, x) && k + n <= |x|
    ensures s[p + k..p + k + n] == x[k..k + n]
  {
    var a, b := s[p + k..p + k + n], x[k..k + n];
    forall i | 0 <= i < n
      ensures a[i] == b[i]
    {
      AtByte(s, p, x, k + i);
      assert a[i] == s[p + (k + i)] && b[i] == x[k + i];
    }
  }

  lemma Shifted(strings: Bytes, pad: Bytes, gap: nat)
    requires 0 < gap <= |pad| && AllNul(pad) && (strings + pad)[gap..gap + |strings|] == strings
    ensures AllNul(strings)
  {
    forall k | 0 <= k < |strings|
      ensures strings[k] == NUL
    {
      AllZero(strings, pad, gap, k);
    }
  }

  lemma {:induction false} AllZero(strings: Bytes, pad: Bytes, gap: nat, k: nat)
    requires gap > 0 && gap <= |pad| && AllNul(pad) && k < |strings| && (strings + pad)[gap..gap + |strings|] == strings
    ensures strings[k] == NUL
    decreases |strings| - k
  {
    assert (strings + pad)[k + gap] == (strings + pad)[gap..gap + |strings|][k] == strings[k];
    if k + gap < |strings| {
      AllZero(strings, pad, gap, k + gap);
    }
  }

  /** What the parser finds in the new DTB is the list that was put in. */
  lemma ImplementedParses(d': Bytes, t: Dts, c: Composed, parts: seq<DtsPart>, strings: Bytes, strings': Bytes,
                          e: seq<Slot>)
    requires |c.ms| == |parts| <= MAX_PARTITIONS_COUNT && AllMadeOk(c.ms) && DtbOk(d', NewDts(t, c))
    requires Strings(d') == strings'
    requires Terminated(strings) && |strings'| < U32_LIMIT && Find(strings, "phandle").Some?
    requires ComposedFrom(c, parts, strings, strings', e, OffsetOf(Find(strings, "phandle")),
                          OffsetOf(Find(strings, "linux,phandle")))
    requires c.linux ==> Find(strings, "linux,phandle").Some?
    ensures HasChild(NewDts(t, c).body, PARTITIONS)
    ensures var node, child := PartitionsAt(d', NewDts(t, c)).value, Child(NewDts(t, c).body, PARTITIONS);
            && IsNodeAt(d', node, child) && node + 12 <= |d'| && NodeParses(d', node, child) == Result.Ok(Expected(c))
    ensures InRecordOrder(Expected(c)) && SameParts(Expected(c).partitions, parts)
  {
    hide Find, InternAll, RootBody, RootText, FreshPhandles, Ser, SerDts, BE32, Read32, ParseBody, GetOffsets;
    var t' := NewDts(t, c);
    ImplementThenRemove(t.body, NodeOf(c));
    PartitionsNode(d', t');
    var node := PartitionsAt(d', t').value;
    NodeIsTree(c);
    SerRoot(c.ms, c.root, c.names, c.linux);
    assert NameBytes(PARTITIONS, [NUL]) == PARTITIONS + [NUL, NUL];
    Assoc(PARTITIONS + [NUL, NUL], RootText(c.ms, c.root, c.names, c.linux), BE32(END_NODE));
    ComposeParseSort(d', node, c, parts, strings, strings', e);
  }

  /** The same names, sizes and masks in the same order. */
  predicate SameParts(entries: seq<Entry>, parts: seq<DtsPart>) {
    |entries| == |parts| && forall i :: 0 <= i < |parts| ==>
      PartOf(entries[i]) == (parts[i].name, parts[i].size, parts[i].mask)
  }

  /** The phandles that the parser finds: those of the partitions, then that of their node; each of them also as
      linux,phandle if the DTB uses that form. */
  predicate GivenPhandles(parsed: Parsed, phandles: seq<u32>, linux: bool) {
    var n := |parsed.partitions|;
    && |phandles| == n + 1 && parsed.phandleRoot == phandles[n]
    && parsed.linuxRoot == (if linux then phandles[n] else 0)
    && forall i :: 0 <= i < n ==>
         && parsed.partitions[i].phandle == phandles[i]
         && parsed.partitions[i].linux == (if linux then phandles[i] else 0)
  }

  lemma ExpectedPhandles(c: Composed)
    requires |c.ms| <= MAX_PARTITIONS_COUNT
    ensures GivenPhandles(Expected(c), Phandles(c), c.linux)
  {
  }

  /** dts_compare_partitions_mixed: entries of the fixed-size array that were not parsed hold zeros. */
  method ComparePartitions(entries: seq<Entry>, parts: seq<DtsPart>) returns (r: nat)
    requires |entries| <= MAX_PARTITIONS_COUNT && |parts| <= MAX_PARTITIONS_COUNT
    ensures r == 0 <==> SameParts(entries, parts)
  {
    r := 0;
    for i := 0 to |parts|
      invariant r == 0 <==> forall j :: 0 <= j < i ==>
                  PartOf(EntryAt(entries, j)) == (parts[j].name, parts[j].size, parts[j].mask)
    {
      var a := EntryAt(entries, i);
      r := r + (if a.name != parts[i].name then 1 else 0) + (if a.size != parts[i].size then 2 else 0)
        + (if a.mask != parts[i].mask then 4 else 0);
    }
    r := r + 8 * (if |entries| > |parts| then |entries| - |parts| else |parts| - |entries|);
  }

  function EntryAt(entries: seq<Entry>, i: nat): Entry {
    if i < |entries| then entries[i] else Entry("", 0, 0, 0, 0)
  }

  lemma BufferRoom(n: nat)
    requires n > 0
    ensures AlignUp(2 * n, 0x1000) >= 8 && AlignUp(2 * n, 0x1000) >= n
  {
  }

  lemma ParsedBack(entry: DtbEntry, t: Dts, c: Composed, parts: seq<DtsPart>, strings: Bytes, strings': Bytes,
                   e: seq<Slot>)
    requires |c.ms| == |parts| <= MAX_PARTITIONS_COUNT && AllMadeOk(c.ms) && EntryOk(entry, NewDts(t, c))
    requires Strings(entry.buffer) == strings'
    requires entry.hasPartitions && Terminated(strings) && |strings'| < U32_LIMIT && Find(strings, "phandle").Some?
    requires ComposedFrom(c, parts, strings, strings', e, OffsetOf(Find(strings, "phandle")),
                          OffsetOf(Find(strings, "linux,phandle")))
    requires c.linux ==> Find(strings, "linux,phandle").Some?
    ensures SameParts(entry.parsed.partitions, parts) && GivenPhandles(entry.parsed, Phandles(c), c.linux)
  {
    hide NameOf, Find, InternAll, RootBody, FreshPhandles, SerDts, NodeParses, InRecordOrder, SameParts, At,
         Splice.Implement, GivenPhandles, Expected;
    ImplementedParses(entry.buffer, t, c, parts, strings, strings', e);
    ExpectedPhandles(c);
  }

  lemma ImplementedDtb(d: Bytes, t: Dts, d': Bytes, t': Dts, strings': Bytes)
    requires Implemented(d, t, d', t', strings')
    ensures DtbOk(d', t') && (Strings(d') == strings' <==> StringsFollow(d))
  {
  }

  lemma NamesSurvive(was: DtbEntry, t: Dts, d': Bytes, t': Dts, strings': Bytes)
    requires Implemented(was.buffer, t, d', t', strings') && StringsFollow(was.buffer)
    requires PhandleNames(strings') == PhandleNames(Strings(was.buffer))
    ensures PhandleNames(Strings(d')) == PhandleNames(Strings(was.buffer))
  {
    hide PhandleNames;
  }

  lemma NotAllNul(c: Composed, parts: seq<DtsPart>, strings: Bytes, strings': Bytes, e: seq<Slot>)
    requires Terminated(strings) && |strings'| < U32_LIMIT && Find(strings, "phandle").Some?
    requires ComposedFrom(c, parts, strings, strings', e, OffsetOf(Find(strings, "phandle")),
                          OffsetOf(Find(strings, "linux,phandle")))
    requires c.linux ==> Find(strings, "linux,phandle").Some?
    ensures !AllNul(strings')
  {
    hide Find, InternAll, FreshPhandles, AllMadeOk;
    InternedNamesMatch(c, parts, strings, strings', e);
    assert StringAt(strings', GetOffsets(strings').value.parts) != [];
  }

  lemma {:induction false} ShortNames(parts: seq<DtsPart>, linux: bool)
    requires forall i :: 0 <= i < |parts| ==> |parts[i].name| <= 15
    ensures ChildrenLen(parts, linux) <= 128 * |parts|
    decreases |parts|
  {
    if parts != [] {
      ShortNames(parts[..|parts| - 1], linux);
    }
  }

  /** The name offsets as the phandle walker gets them, cut to 32 bits. */
  function PhandleOffset(strings: Bytes): u32 {
    OffsetOf(Find(strings, "phandle")) % U32_LIMIT
  }

  function LinuxOffset(strings: Bytes): u32 {
    OffsetOf(Find(strings, "linux,phandle")) % U32_LIMIT
  }

  predicate PartsOk(parts: seq<DtsPart>) {
    |parts| <= MAX_PARTITIONS_COUNT && forall i :: 0 <= i < |parts| ==> NUL !in parts[i].name && |parts[i].name| <= 15
  }

  /** No two nodes of the new tree share a phandle at the two looked-up name offsets. By name, which is how the tree is
      read, none do if and only if no phandle outside the partitions node is in the way, and none is if the walker saw
      all of them. */
  ghost predicate PhandlesApart(was: DtbEntry, t: Dts, t': Dts, n: nat)
    requires HasStrings(was.buffer)
  {
    var strings := Strings(was.buffer);
    var f, l := PhandleOffset(strings), LinuxOffset(strings);
    && Collected(was.buffer, t, f, l).Some?
    && Distinct(t'.body, Pair(f, l))
    && (Distinct(t'.body, PhandleNames(strings)) <==> StaysDistinct(was, t, n, f, l))
    && (AllFound(Without(t.body, PARTITIONS), PhandleNames(strings), Pair(f, l)) ==>
        Distinct(t'.body, PhandleNames(strings)))
  }

  lemma NewPhandlesApart(was: DtbEntry, t: Dts, c: Composed, parts: seq<DtsPart>, strings': Bytes)
    requires EntryOk(was, t) && Terminated(Strings(was.buffer)) && |strings'| < U32_LIMIT
    requires |c.ms| < U32_LIMIT && |parts| <= MAX_PARTITIONS_COUNT && Find(Strings(was.buffer), "phandle").Some?
    requires var f, l := PhandleOffset(Strings(was.buffer)), LinuxOffset(Strings(was.buffer));
             && Collected(was.buffer, t, f, l).Some?
             && ComposedFrom(c, parts, Strings(was.buffer), strings', Occupied(was, t, f, l),
                             OffsetOf(Find(Strings(was.buffer), "phandle")),
                             OffsetOf(Find(Strings(was.buffer), "linux,phandle")))
    requires c.linux ==> Find(Strings(was.buffer), "linux,phandle").Some?
    ensures PhandlesApart(was, t, NewDts(t, c), |parts|)
    ensures PhandleNames(strings') == PhandleNames(Strings(was.buffer))
  {
    hide NameOf, Find, InternAll, ParsedOk, SerDts, At, Read32, RootBody, Collected, Occupied, FreshPhandles, AllMadeOk,
         Distinct, Terminated, StaysDistinct, AllFound, PhandleNames;
    FoundInside(Strings(was.buffer), "phandle");
    NewPhandlesDistinct(was, t, c, parts, strings');
  }

  /** dtb_buffer_entry_implement_partitions. The new DTB is the old tree with the partitions node replaced or appended;
      it says exactly when its phandles are distinct; it parses to the list that was asked for and keeps its name. The
      errors of the final self-check, 8, 9 and 10, can only come up when there is free space between the structure block
      and the strings block, and one of them does, 8, when that is as long as the new strings block. */
  method ImplementPartitions(was: DtbEntry, parts: seq<DtsPart>, ghost t: Dts)
    returns (r: int, new': DtbEntry, ghost c: Composed)
    requires EntryOk(was, t) && Terminated(Strings(was.buffer)) && |was.buffer| + 0x2000 < U32_LIMIT && PartsOk(parts)
    ensures var d, strings := was.buffer, Strings(was.buffer);
            var possible := Collectable(d, t, PhandleOffset(strings), LinuxOffset(strings));
            var linux := possible && UsesLinux(Collected(d, t, PhandleOffset(strings), LinuxOffset(strings)).value);
            && (r == -1 <==> parts == [])
            && (r == 2 <==> parts != [] && Find(strings, "phandle") == None)
            && (r == 3 <==> parts != [] && Find(strings, "phandle").Some? && !possible)
            && (r == 5 <==>
                  parts != [] && Find(strings, "phandle").Some? && linux && Find(strings, "linux,phandle") == None)
            && r in {-1, 0, 2, 3, 5, 8, 9, 10}
            && (StringsFollow(d) ==> r !in {8, 9, 10})
            && (r in {0, 9, 10} ==> Gap(d) < |InternAll(strings, ESSENTIALS + PartNames(|parts|)).0|)
    ensures r == 0 ==>
              && |c.ms| == |parts|
              && c.linux == UsesLinux(Collected(was.buffer, t, PhandleOffset(Strings(was.buffer)),
                                                LinuxOffset(Strings(was.buffer))).value)
              && (StringsFollow(was.buffer) ==> GivenPhandles(new'.parsed, Phandles(c), c.linux))
              && Implemented(was.buffer, t, new'.buffer, NewDts(t, c),
                             InternAll(Strings(was.buffer), ESSENTIALS + PartNames(|parts|)).0)
              && EntryOk(new', NewDts(t, c)) && new'.hasPartitions && SameParts(new'.parsed.partitions, parts)
              && PhandlesApart(was, t, NewDts(t, c), |parts|)
              && FreshPhandles(Occupied(was, t, PhandleOffset(Strings(was.buffer)), LinuxOffset(Strings(was.buffer))),
                               Phandles(c))
              && (StringsFollow(was.buffer) ==>
                    PhandleNames(Strings(new'.buffer)) == PhandleNames(Strings(was.buffer)) && new'.name == was.name)
  {
    hide Find, InternAll, ParsedOk, SerDts, Ser, At, Read32, RootBody, RootText, BE32, Collected, Enough, Dropped,
         OldPhandles, FreshPhandles, AllMadeOk, NewHeader, Spliced, Distinct, CutOf, From, Until, NodeParses,
         Terminated, Implemented, NodeLen, PhandlesApart, NameOf, PhandleNames, NewDts, Gap, StringsFollow,
         GivenPhandles;
    var d := was.buffer;
    c := Composed([], 0, Names(0, 0, 0, 0, 0, 0), false);
    new' := DtbEntry([], None, NothingParsed(), false, NoName());
    if parts == [] {
      return -1, new', c;
    }
    var strings := Strings(d);
    var phandle := FindString(strings, "phandle");
    if phandle == None {
      return 2, new', c;
    }
    var linuxPhandle := FindString(strings, "linux,phandle");
    var s, plist := CollectPhandles(d, PhandleOffset(strings), LinuxOffset(strings), t);
    if s != 0 {
      return 3, new', c;
    }
    FoundInside(strings, "phandle");
    CollectedIsRoomy(d, t, PhandleOffset(strings), LinuxOffset(strings), OldPhandles(was), |parts| + 1);
    DropOld(plist, was, t, PhandleOffset(strings), LinuxOffset(strings));
    BufferRoom(|strings|);
    var shelper := new Helper(strings, AlignUp(2 * |strings|, 0x1000));
    var composed, node;
    composed, node, c := ComposePartitionsNode(plist, shelper, parts, OffsetOf(phandle), OffsetOf(linuxPhandle));
    if composed != 0 {
      return 5, new', c;
    }
    ghost var e := Occupied(was, t, PhandleOffset(strings), LinuxOffset(strings));
    NodeLenBound(parts, c.linux);
    NewPhandlesApart(was, t, c, parts, shelper.block);
    ComposedStrings(c, parts, strings, shelper.block, e);
    r, new' := Rebuild(was, parts, node[..], shelper.block, t, c, e);
    if r == 0 && StringsFollow(d) {
      NamesSurvive(was, t, new'.buffer, NewDts(t, c), shelper.block);
    }
  }

  /** Lines 787-863: lay out the new buffer, copy into it, rewrite the header, and parse the result as a check. */
  method Rebuild(was: DtbEntry, parts: seq<DtsPart>, node: Bytes, strings': Bytes, ghost t: Dts, ghost c: Composed,
                 ghost e: seq<Slot>)
    returns (r: int, new': DtbEntry)
    requires EntryOk(was, t) && Terminated(Strings(was.buffer)) && PartsOk(parts) && parts != []
    requires Find(Strings(was.buffer), "phandle").Some?
    requires (c.linux ==> Find(Strings(was.buffer), "linux,phandle").Some?)
    requires ComposedFrom(c, parts, Strings(was.buffer), strings', e,
                          OffsetOf(Find(Strings(was.buffer), "phandle")),
                            OffsetOf(Find(Strings(was.buffer), "linux,phandle")))
    requires node == NodeText(c)
    requires |was.buffer| + |node| + 12 + |strings'| < U32_LIMIT + |Strings(was.buffer)|
    ensures r in {0, 8, 9, 10}
    ensures StringsFollow(was.buffer) ==>
              r == 0 && new'.name == was.name && GivenPhandles(new'.parsed, Phandles(c), c.linux)
    ensures Gap(was.buffer) >= |strings'| ==> r == 8
    ensures r == 0 ==>
              && Implemented(was.buffer, t, new'.buffer, NewDts(t, c), strings')
              && EntryOk(new', NewDts(t, c)) && new'.hasPartitions && SameParts(new'.parsed.partitions, parts)
  {
    hide Find, InternAll, ParsedOk, SerDts, Ser, At, Read32, RootBody, NodeText, BE32, FreshPhandles, AllMadeOk,
         NewHeader, Spliced, CutOf, From, Until, NodeParses, Terminated, Implemented, Splice.Implement, InRecordOrder,
         PartsOk, GivenPhandles;
    var d := was.buffer;
    new' := DtbEntry([], None, NothingParsed(), false, NoName());
    var nodeStart, endStart := Locate(was, t);
    var cut := CutOf(d, nodeStart, endStart, |node|, |strings'|);
    var buffer, pad := BuildWithNode(d, cut, node, strings');
    ghost var t' := NewDts(t, c);
    NotAllNul(c, parts, Strings(d), strings', e);
    BuiltIsImplemented(d, t, cut, c, strings', pad, buffer[..]);
    ImplementedDtb(d, t, buffer[..], t', strings');
    FewParts(parts);
    if StringsFollow(d) {
      ImplementedParses(buffer[..], t, c, parts, Strings(d), strings', e);
      NameKept(was, t, c, parts, strings', e);
    }
    if Gap(d) >= |strings'| {
      WideGapLosesName(d, t, buffer[..], t', strings');
    }
    var q, parsed := ParseEntry(buffer[..], t');
    if q != 0 {
      return 8, new';
    }
    if StringsFollow(d) {
      ParsedBack(parsed, t, c, parts, Strings(d), strings', e);
    }
    if !parsed.hasPartitions || parsed.parsed.partitions == [] {
      return 9, new';
    }
    SortedCount(parsed, t');
    var diff := ComparePartitions(parsed.parsed.partitions, parts);
    if diff != 0 {
      return 10, new';
    }
    return 0, parsed;
  }

  /** If the free space is as long as the new strings block, the header of the new DTB points behind all of it. */
  lemma WideGapLosesStrings(d: Bytes, t: Dts, d': Bytes, t': Dts, strings': Bytes)
    requires Implemented(d, t, d', t', strings') && Gap(d) >= |strings'|
    ensures AllNul(Strings(d'))
  {
    hide SerDts, At, Read32;
    var pad :| AllNul(pad) && Rewritten(d, t, d', t', strings' + pad);
    var at, gap := Field(d', OFF_DT_STRUCT) + |SerDts(t')|, Gap(d) - |strings'|;
    AtConcat(d', Field(d', OFF_DT_STRUCT), SerDts(t'), strings' + pad);
    AtConcat(d', at, strings', pad);
    InPad(d', at + |strings'|, pad, gap, |strings'|);
  }

  lemma InPad(d: Bytes, p: nat, pad: Bytes, k: nat, n: nat)
    requires At(d, p, pad) && AllNul(pad) && k + n <= |pad|
    ensures p + k + n <= |d| && AllNul(d[p + k..p + k + n])
  {
    AtBound(d, p, pad);
    var x := d[p + k..p + k + n];
    forall i | 0 <= i < n
      ensures x[i] == NUL
    {
      AtByte(d, p, pad, k + i);
      assert x[i] == d[p + (k + i)];
    }
  }

  lemma {:induction false} NothingFound(b: Bytes, str: Bytes, i: nat)
    requires AllNul(b) && str != []
    ensures FindFrom(b, str, i) == None
    decreases |b| - i
  {
    if i < |b| {
      NothingFound(b, str, i + 1);
    }
  }

  /** Then there is not even a name. */
  lemma WideGapLosesName(d: Bytes, t: Dts, d': Bytes, t': Dts, strings': Bytes)
    requires Implemented(d, t, d', t', strings') && Gap(d) >= |strings'|
    ensures HasStrings(d') && TargetText(Strings(d'), t'.body) == None
  {
    hide SerDts, At, Read32;
    WideGapLosesStrings(d, t, d', t', strings');
    NothingFound(Strings(d'), TARGET_ID, 0);
  }

  /** The new DTB has the name of the old one. */
  lemma NameKept(was: DtbEntry, t: Dts, c: Composed, parts: seq<DtsPart>, strings': Bytes, e: seq<Slot>)
    requires EntryOk(was, t) && Terminated(Strings(was.buffer)) && |c.ms| < U32_LIMIT
    requires ComposedFrom(c, parts, Strings(was.buffer), strings', e,
                          OffsetOf(Find(Strings(was.buffer), "phandle")),
                          OffsetOf(Find(Strings(was.buffer), "linux,phandle")))
    ensures NameOf(strings', NewDts(t, c).body) == Some(was.name)
  {
    hide Find, InternAll, RootBody, ParsedOk, SerDts, At, FreshPhandles, AllMadeOk, Terminated, PartNames, SplitName,
         FirstProp, Splice.Implement;
    var strings := Strings(was.buffer);
    Internable(|parts|);
    hide AllInternable;
    KeptAt(strings, ESSENTIALS + PartNames(|parts|), TARGET_ID);
    ComposedStrings(c, parts, strings, strings', e);
    ImplementKeepsName(strings, strings', t.body, NodeOf(c));
  }

  lemma FewParts(parts: seq<DtsPart>)
    requires PartsOk(parts)
    ensures |parts| <= MAX_PARTITIONS_COUNT
  {
  }

  lemma SortedCount(entry: DtbEntry, t: Dts)
    requires EntryOk(entry, t) && entry.hasPartitions
    ensures |entry.parsed.partitions| <= MAX_PARTITIONS_COUNT
  {
    hide NameOf, DtbOk, NodeParses, InRecordOrder;
    ParsedFits(entry.buffer, entry.node.value, Child(t.body, PARTITIONS));
    var raw := NodeParses(entry.buffer, entry.node.value, Child(t.body, PARTITIONS)).value;
    assert |multiset(entry.parsed.partitions)| == |multiset(raw.partitions)|;
  }

  lemma NodeLenBound(parts: seq<DtsPart>, linux: bool)
    requires PartsOk(parts)
    ensures NodeLen(parts, linux) < 0x1800
  {
    ShortNames(parts, linux);
  }
}