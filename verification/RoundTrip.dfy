/** A composed partitions node, parsed and sorted, gives back the list it was composed from. */
module RoundTrip {
  import opened Util
  import opened Ept
  import opened Fdt
  import opened Walk
  import opened StringBlock
  import opened Partitions
  import opened Compose
  import Literal
  import Phandle

  // ---- The offsets mean the right strings ----

  /** The offsets the parser looks up in the strings block are the ones the composer used. */
  ghost predicate NamesMatch(c: Composed, strings: Bytes, offs: Offsets) {
    && c.names.parts == offs.parts && c.names.pname == offs.pname && c.names.size == offs.size
    && c.names.mask == offs.mask
    && c.names.phandle == offs.phandle && (c.linux ==> offs.linux == Some(c.names.linux))
    && StringAt(strings, offs.parts) == "parts" && StringAt(strings, offs.pname) == "pname"
    && StringAt(strings, offs.size) == "size" && StringAt(strings, offs.mask) == "mask"
    && StringAt(strings, offs.phandle) == "phandle"
    && (offs.linux.Some? ==> StringAt(strings, offs.linux.value) == "linux,phandle")
    && forall i :: 0 <= i < |c.ms| ==> StringAt(strings, c.ms[i].offPartN) == PartName(i)
  }

  // ---- A partition ----

  function EntryOf(m: Made, linux: bool): Entry {
    Entry(m.part.name, m.part.size, m.part.mask, m.phandle, if linux then m.phandle else 0)
  }

  /** The state inside a partition whose entry is e so far. */
  function Inside(st: Parsed, e: Entry): Parsed {
    st.(partitions := st.partitions + [e])
  }

  lemma InsideOk(st: Parsed, e: Entry)
    requires StOk(st, false)
    ensures StOk(Inside(st, e), true)
    ensures Inside(st, e).partitions[|Inside(st, e).partitions| - 1] == e
    ensures forall e' :: Inside(st, e).(partitions := Inside(st, e).partitions[|Inside(st, e).partitions| - 1 := e'])
              == Inside(st, e')
  {
    var last := |st.partitions|;
    forall e'
      ensures Inside(st, e).partitions[last := e'] == Inside(st, e').partitions
    {
    }
  }

  /** A property of a partition that turns its entry from e into e'. */
  lemma PropInside(s: Bytes, p: nat, b: Body, strings: Bytes, offs: Offsets, st: Parsed, e: Entry, e': Entry)
    requires b.Prop? && Wf(b) && At(s, p, Ser(b)) && StOk(st, false)
    requires p + 12 + |b.value| <= |s| && ChildProp(s, p + 12, b.nameOff, |b.value|, offs, e) == Ok(e')
    ensures p + 4 * Words(b) <= |s| && StOk(Inside(st, e), true) && StOk(Inside(st, e'), true)
    ensures var next := p + 12 + 4 * Steps(|b.value|);
            next + 4 * Words(b.rest) <= |s|
            && ParseBody(s, b, p, true, strings, offs, Inside(st, e))
                 == ParseBody(s, b.rest, next, true, strings, offs, Inside(st, e'))
  {
    hide At, ChildProp, Steps;
    InsideOk(st, e);
    InsideOk(st, e');
    AtBody(s, p, b);
  }

  lemma WordAt(s: Bytes, p: nat, b: Body, value: u32)
    requires b.Prop? && b.value == BE32(value) && Wf(b) && At(s, p, Ser(b))
    ensures p + 16 <= |s| && |b.value| == 4 && Steps(|b.value|) == 1
    ensures Read32(s, p + 12) == value && At(s, p + 16, Ser(b.rest))
  {
    hide At;
    AtProp(s, p, b.nameOff, b.value, b.pad, Ser(b.rest));
    ReadBE32(s, p + 12, value);
  }

  lemma SizeAt(s: Bytes, p: nat, b: Body, size: u64)
    requires b.Prop? && b.value == BE64(size) && Wf(b) && At(s, p, Ser(b))
    ensures p + 20 <= |s| && |b.value| == 8 && Steps(|b.value|) == 2
    ensures Read32(s, p + 12) * U32_LIMIT + Read32(s, p + 16) == size && At(s, p + 20, Ser(b.rest))
  {
    hide At;
    AtProp(s, p, b.nameOff, b.value, b.pad, Ser(b.rest));
    AtConcat(s, p + 12, BE32(size / U32_LIMIT), BE32(size % U32_LIMIT));
    ReadBE32(s, p + 12, size / U32_LIMIT);
    ReadBE32(s, p + 16, size % U32_LIMIT);
  }

  lemma PnameAt(s: Bytes, p: nat, b: Body, name: Bytes)
    requires b.Prop? && b.value == name + [NUL] && NUL !in name && Wf(b) && At(s, p, Ser(b))
    ensures p + 12 + |b.value| <= |s| && StringAt(s, p + 12) == name
    ensures At(s, p + 12 + 4 * Steps(|b.value|), Ser(b.rest))
  {
    hide At;
    AtProp(s, p, b.nameOff, b.value, b.pad, Ser(b.rest));
    ReadString(s, p + 12, name);
  }

  // The contents of a partition's node, from each property on.

  function FromLinux(m: Made, c: Composed): Body {
    if c.linux then Word(c.names.linux, m.phandle, End) else End
  }

  function FromPhandle(m: Made, c: Composed): Body {
    Word(c.names.phandle, m.phandle, FromLinux(m, c))
  }

  function FromMask(m: Made, c: Composed): Body {
    Word(c.names.mask, m.part.mask, FromPhandle(m, c))
  }

  function FromSize(m: Made, c: Composed): Body {
    Prop(c.names.size, BE64(m.part.size), [], FromMask(m, c))
  }

  ghost predicate Yields(s: Bytes, p: nat, b: Body, strings: Bytes, offs: Offsets, st: Parsed, e: Entry, e': Entry) {
    && Wf(b) && StOk(Inside(st, e), true) && p + 4 * Words(b) <= |s|
    && ParseBody(s, b, p, true, strings, offs, Inside(st, e)) == Ok(Inside(st, e'))
  }

  lemma ParseFromLinux(s: Bytes, p: nat, m: Made, c: Composed, strings: Bytes, offs: Offsets, st: Parsed)
    requires NamesMatch(c, strings, offs) && StOk(st, false) && Wf(FromLinux(m, c)) && At(s, p, Ser(FromLinux(m, c)))
    ensures Yields(s, p, FromLinux(m, c), strings, offs, st, EntryOf(m, false), EntryOf(m, c.linux))
  {
    hide At;
    InsideOk(st, EntryOf(m, c.linux));
    if c.linux {
      WordAt(s, p, FromLinux(m, c), m.phandle);
      PropInside(s, p, FromLinux(m, c), strings, offs, st, EntryOf(m, false), EntryOf(m, true));
    } else {
      AtBody(s, p, End);
    }
  }

  lemma ParseFromPhandle(s: Bytes, p: nat, m: Made, c: Composed, strings: Bytes, offs: Offsets, st: Parsed)
    requires NamesMatch(c, strings, offs) && StOk(st, false) && Wf(FromPhandle(m, c))
    requires At(s, p, Ser(FromPhandle(m, c)))
    ensures Yields(s, p, FromPhandle(m, c), strings, offs, st, EntryOf(m, false).(phandle := 0), EntryOf(m, c.linux))
  {
    hide At, ParseBody;
    WordAt(s, p, FromPhandle(m, c), m.phandle);
    ParseFromLinux(s, p + 16, m, c, strings, offs, st);
    PropInside(s, p, FromPhandle(m, c), strings, offs, st, EntryOf(m, false).(phandle := 0), EntryOf(m, false));
  }

  lemma ParseFromMask(s: Bytes, p: nat, m: Made, c: Composed, strings: Bytes, offs: Offsets, st: Parsed)
    requires NamesMatch(c, strings, offs) && StOk(st, false) && Wf(FromMask(m, c)) && At(s, p, Ser(FromMask(m, c)))
    ensures Yields(s, p, FromMask(m, c), strings, offs, st, Entry(m.part.name, m.part.size, 0, 0, 0),
                   EntryOf(m, c.linux))
  {
    hide At, ParseBody;
    WordAt(s, p, FromMask(m, c), m.part.mask);
    ParseFromPhandle(s, p + 16, m, c, strings, offs, st);
    PropInside(s, p, FromMask(m, c), strings, offs, st, Entry(m.part.name, m.part.size, 0, 0, 0),
               EntryOf(m, false).(phandle := 0));
  }

  lemma ParseFromSize(s: Bytes, p: nat, m: Made, c: Composed, strings: Bytes, offs: Offsets, st: Parsed)
    requires NamesMatch(c, strings, offs) && StOk(st, false) && Wf(FromSize(m, c)) && At(s, p, Ser(FromSize(m, c)))
    ensures Yields(s, p, FromSize(m, c), strings, offs, st, Entry(m.part.name, 0, 0, 0, 0), EntryOf(m, c.linux))
  {
    hide At, ParseBody;
    SizeAt(s, p, FromSize(m, c), m.part.size);
    ParseFromMask(s, p + 20, m, c, strings, offs, st);
    PropInside(s, p, FromSize(m, c), strings, offs, st, Entry(m.part.name, 0, 0, 0, 0),
               Entry(m.part.name, m.part.size, 0, 0, 0));
  }

  /** The contents of a partition's node give back its entry. */
  lemma ParseChild(s: Bytes, p: nat, m: Made, c: Composed, strings: Bytes, offs: Offsets, st: Parsed)
    requires NamesMatch(c, strings, offs) && StOk(st, false) && MadeOk(m)
    requires Wf(ChildBody(m, c.names, c.linux)) && At(s, p, Ser(ChildBody(m, c.names, c.linux)))
    ensures Yields(s, p, ChildBody(m, c.names, c.linux), strings, offs, st, Entry(m.part.name, 0, 0, 0, 0),
                   EntryOf(m, c.linux))
  {
    hide At, ParseBody, Steps, StringAt;
    var b := ChildBody(m, c.names, c.linux);
    assert b.rest == FromSize(m, c);
    PnameAt(s, p, b, m.part.name);
    ParseFromSize(s, p + 12 + 4 * Steps(|b.value|), m, c, strings, offs, st);
    PropInside(s, p, b, strings, offs, st, Entry(m.part.name, 0, 0, 0, 0), Entry(m.part.name, 0, 0, 0, 0));
  }

  // ---- The list ----

  function Entries(ms: seq<Made>, linux: bool): seq<Entry> {
    seq(|ms|, i requires 0 <= i < |ms| => EntryOf(ms[i], linux))
  }

  /** What parsing a body of the partitions node itself yields. */
  ghost predicate RootYields(s: Bytes, p: nat, b: Body, strings: Bytes, offs: Offsets, st: Parsed, st': Parsed) {
    && Wf(b) && StOk(st, false) && p + 4 * Words(b) <= |s|
    && ParseBody(s, b, p, false, strings, offs, st) == Ok(st')
  }

  lemma ParseOneNode(s: Bytes, p: nat, b: Body, m: Made, c: Composed, strings: Bytes, offs: Offsets, st: Parsed)
    requires NamesMatch(c, strings, offs) && StOk(st, false) && MadeOk(m) && |st.partitions| < MAX_PARTITIONS_COUNT
    requires b.Node? && b.name == m.part.name && b.pad == m.pad && b.child == ChildBody(m, c.names, c.linux)
    requires Wf(b) && At(s, p, Ser(b))
    ensures var next := p + 4 + 4 * Steps(|b.name| + 1) + 4 * Words(b.child);
            && p + 4 * Words(b) <= |s| && Wf(b.rest) && At(s, next, Ser(b.rest)) && next + 4 * Words(b.rest) <= |s|
            && StOk(Inside(st, EntryOf(m, c.linux)), false)
            && ParseBody(s, b, p, false, strings, offs, st)
               == ParseBody(s, b.rest, next, false, strings, offs, Inside(st, EntryOf(m, c.linux)))
  {
    hide At, Steps, ChildBody, ParseBody, NamesMatch, Ser;
    EnterNode(s, p, b);
    AtBody(s, p, b);
    var inside := p + 4 + 4 * Steps(|b.name| + 1);
    AtBody(s, inside + 4 * Words(b.child), b.rest);
    ParseChild(s, inside, m, c, strings, offs, st);
    UnfoldNode(s, p, b, strings, offs, st, Inside(st, EntryOf(m, c.linux)));
  }

  lemma UnfoldNode(s: Bytes, p: nat, b: Body, strings: Bytes, offs: Offsets, st: Parsed, st': Parsed)
    requires b.Node? && Wf(b) && p + 4 * Words(b) <= |s| && StOk(st, false)
    requires var st1 := Inside(st, Entry(b.name, 0, 0, 0, 0));
             && Begin(st, b.name) == Ok(st1) && StOk(st1, true)
             && ParseBody(s, b.child, p + 4 + 4 * Steps(|b.name| + 1), true, strings, offs, st1) == Ok(st')
    ensures StOk(st', false)
    ensures ParseBody(s, b, p, false, strings, offs, st)
            == ParseBody(s, b.rest, p + 4 + 4 * Steps(|b.name| + 1) + 4 * Words(b.child), false, strings, offs, st')
  {
    hide Steps;
  }

  lemma {:induction false} ParseNodes(s: Bytes, p: nat, ms: seq<Made>, c: Composed, strings: Bytes, offs: Offsets,
                                      st: Parsed)
    requires NamesMatch(c, strings, offs) && StOk(st, false) && AllMadeOk(ms)
    requires |st.partitions| + |ms| <= MAX_PARTITIONS_COUNT
    requires Wf(ChildNodes(ms, c.names, c.linux)) && At(s, p, Ser(ChildNodes(ms, c.names, c.linux)))
    ensures RootYields(s, p, ChildNodes(ms, c.names, c.linux), strings, offs, st,
                       st.(partitions := st.partitions + Entries(ms, c.linux)))
    decreases |ms|
  {
    hide At, Steps, NamesMatch, Ser, Wf, ParseBody, ChildNodes, ChildBody, Words;
    var b := ChildNodes(ms, c.names, c.linux);
    AtBody(s, p, b);
    NodesShape(ms, c);
    if ms == [] {
      ParseNothing(s, p, strings, offs, st);
      assert st.partitions + Entries(ms, c.linux) == st.partitions;
    } else {
      var st' := Inside(st, EntryOf(ms[0], c.linux));
      ParseOneNode(s, p, b, ms[0], c, strings, offs, st);
      ParseNodes(s, p + 4 + 4 * Steps(|b.name| + 1) + 4 * Words(b.child), ms[1..], c, strings, offs, st');
      assert st'.partitions + Entries(ms[1..], c.linux) == st.partitions + Entries(ms, c.linux);
    }
  }

  lemma NodesShape(ms: seq<Made>, c: Composed)
    ensures var b := ChildNodes(ms, c.names, c.linux);
            if ms == [] then b == End
            else
              b.Node? && b.name == ms[0].part.name && b.pad == ms[0].pad
              && b.child == ChildBody(ms[0], c.names, c.linux)
              && b.rest == ChildNodes(ms[1..], c.names, c.linux)
  {
  }

  lemma ParseNothing(s: Bytes, p: nat, strings: Bytes, offs: Offsets, st: Parsed)
    requires StOk(st, false) && p + 4 * Words(End) <= |s|
    ensures Wf(End) && ParseBody(s, End, p, false, strings, offs, st) == Ok(st)
  {
  }

  /** A property of the partitions node itself. */
  lemma ParseRootProp(s: Bytes, p: nat, b: Body, value: u32, strings: Bytes, offs: Offsets, st: Parsed, st': Parsed,
                      end: Parsed)
    requires b.Prop? && b.value == BE32(value) && Wf(b) && At(s, p, Ser(b)) && StOk(st, false)
    requires p + 16 <= |s| && RootProp(s, p + 12, b.nameOff, 4, strings, offs, st) == Ok(st')
    requires RootYields(s, p + 16, b.rest, strings, offs, st', end)
    ensures RootYields(s, p, b, strings, offs, st, end)
  {
    hide At, RootProp;
    WordAt(s, p, b, value);
    AtBody(s, p, b);
  }

  /** The state after the "part-N" properties of partitions k and up. */
  function WithPhandles(st: Parsed, ms: seq<Made>, k: nat): Parsed
    requires |st.phandles| == MAX_PARTITIONS_COUNT && k <= |ms| <= MAX_PARTITIONS_COUNT
  {
    st.(phandles := seq(MAX_PARTITIONS_COUNT, i requires 0 <= i < MAX_PARTITIONS_COUNT =>
      if k <= i < |ms| then ms[i].phandle else st.phandles[i]))
  }

  lemma PartNameId(i: nat)
    requires i < MAX_PARTITIONS_COUNT
    ensures "part-" <= PartName(i) && Literal.Strtoul(PartName(i)[5..], 10).0 == i
    ensures PartName(i) != "parts" && PartName(i) != "phandle" && PartName(i) != "linux,phandle"
  {
    Literal.DecReadsBack(i, [], 10);
    assert Literal.Dec(i) + [] == Literal.Dec(i);
    assert PartName(i)[5..] == Literal.Dec(i);
    assert PartName(i)[4] == '-';
  }

  lemma {:induction false} ParseParts(s: Bytes, p: nat, k: nat, c: Composed, rest: Body, strings: Bytes, offs: Offsets,
                                      st: Parsed, end: Parsed)
    requires NamesMatch(c, strings, offs) && StOk(st, false) && k <= |c.ms| <= MAX_PARTITIONS_COUNT && Wf(rest)
    requires Wf(PartProps(c.ms[k..], rest)) && At(s, p, Ser(PartProps(c.ms[k..], rest)))
    requires At(s, p + 16 * (|c.ms| - k), Ser(rest)) ==>
               RootYields(s, p + 16 * (|c.ms| - k), rest, strings, offs, WithPhandles(st, c.ms, k), end)
    ensures RootYields(s, p, PartProps(c.ms[k..], rest), strings, offs, st, end)
    decreases |c.ms| - k
  {
    hide At, RootYields, Ser, Wf, PartProps, RootProp, NamesMatch, BE32;
    PropsShape(c.ms, k, rest);
    if k == |c.ms| {
      assert WithPhandles(st, c.ms, k).phandles == st.phandles;
    } else {
      var m, b := c.ms[k], PartProps(c.ms[k..], rest);
      WordAt(s, p, b, m.phandle);
      var st' := st.(phandles := st.phandles[k := m.phandle]);
      PartNProp(s, p + 12, k, c, strings, offs, st);
      assert WithPhandles(st', c.ms, k + 1).phandles == WithPhandles(st, c.ms, k).phandles;
      WfRest(b);
      ParseParts(s, p + 16, k + 1, c, rest, strings, offs, st', end);
      ParseRootProp(s, p, b, m.phandle, strings, offs, st, st', end);
    }
  }

  lemma WfRest(b: Body)
    requires Wf(b) && b.Prop?
    ensures Wf(b.rest)
  {
  }

  lemma PropsShape(ms: seq<Made>, k: nat, rest: Body)
    requires k <= |ms|
    ensures PartProps(ms[k..], rest) ==
            if k == |ms| then rest else Word(ms[k].offPartN, ms[k].phandle, PartProps(ms[k + 1..], rest))
  {
    if k < |ms| {
      assert ms[k..][1..] == ms[k + 1..];
    }
  }

  /** The "part-N" property of partition k sets entry k of the phandle list. */
  lemma PartNProp(s: Bytes, p: nat, k: nat, c: Composed, strings: Bytes, offs: Offsets, st: Parsed)
    requires NamesMatch(c, strings, offs) && StOk(st, false) && k < |c.ms| <= MAX_PARTITIONS_COUNT && p + 4 <= |s|
    requires Read32(s, p) == c.ms[k].phandle
    ensures RootProp(s, p, c.ms[k].offPartN, 4, strings, offs, st)
              == Ok(st.(phandles := st.phandles[k := c.ms[k].phandle]))
  {
    hide StringAt, Read32, PartName;
    PartNameId(k);
    assert StringAt(strings, c.ms[k].offPartN) == PartName(k);
  }

  // ---- The whole node ----

  /** What the parser must find in a composed node. */
  function Expected(c: Composed): Parsed
    requires |c.ms| <= MAX_PARTITIONS_COUNT
  {
    Parsed(Entries(c.ms, c.linux), c.root, if c.linux then c.root else 0,
           WithPhandles(NothingParsed(), c.ms, 0).phandles, |c.ms|)
  }

  lemma ParseRootLinux(s: Bytes, p: nat, c: Composed, nodes: Body, strings: Bytes, offs: Offsets, st: Parsed,
                       end: Parsed)
    requires NamesMatch(c, strings, offs) && StOk(st, false) && Wf(nodes)
    requires var b := if c.linux then Word(c.names.linux, c.root, nodes) else nodes; Wf(b) && At(s, p, Ser(b))
    requires var q := if c.linux then p + 16 else p;
             At(s, q, Ser(nodes)) ==>
               RootYields(s, q, nodes, strings, offs, if c.linux then st.(linuxRoot := c.root) else st, end)
    ensures RootYields(s, p, if c.linux then Word(c.names.linux, c.root, nodes) else nodes, strings, offs, st, end)
  {
    hide At, RootYields, Ser, StringAt;
    if c.linux {
      var b := Word(c.names.linux, c.root, nodes);
      WordAt(s, p, b, c.root);
      ParseRootProp(s, p, b, c.root, strings, offs, st, st.(linuxRoot := c.root), end);
    }
  }

  lemma ParseRootRest(s: Bytes, p: nat, c: Composed, strings: Bytes, offs: Offsets, st: Parsed)
    requires NamesMatch(c, strings, offs) && StOk(st, false) && AllMadeOk(c.ms) && |c.ms| <= MAX_PARTITIONS_COUNT
    requires st.partitions == []
    requires st.linuxRoot == 0
    requires var b := RootRest(c.ms, c.root, c.names, c.linux); Wf(b) && At(s, p, Ser(b))
    ensures RootYields(s, p, RootRest(c.ms, c.root, c.names, c.linux), strings, offs, st,
                       st.(phandleRoot := c.root, linuxRoot := if c.linux then c.root else 0,
                           partitions := Entries(c.ms, c.linux)))
  {
    hide At, RootYields, Ser, StringAt, ChildNodes;
    var nodes := ChildNodes(c.ms, c.names, c.linux);
    var b := RootRest(c.ms, c.root, c.names, c.linux);
    NodesWf(c.ms, c.names, c.linux);
    WordAt(s, p, b, c.root);
    var st1 := st.(phandleRoot := c.root);
    var st2 := if c.linux then st1.(linuxRoot := c.root) else st1;
    var end := st2.(partitions := Entries(c.ms, c.linux));
    var q := if c.linux then p + 32 else p + 16;
    assert st2.partitions + Entries(c.ms, c.linux) == Entries(c.ms, c.linux);
    if At(s, q, Ser(nodes)) {
      ParseNodes(s, q, c.ms, c, strings, offs, st2);
    }
    ParseRootLinux(s, p + 16, c, nodes, strings, offs, st1, end);
    ParseRootProp(s, p, b, c.root, strings, offs, st, st1, end);
  }

  /** Parsing what was composed: every name, size, mask, phandle and record, in order. */
  lemma ParseComposed(s: Bytes, p: nat, c: Composed, strings: Bytes, offs: Offsets)
    requires NamesMatch(c, strings, offs) && AllMadeOk(c.ms) && |c.ms| <= MAX_PARTITIONS_COUNT
    requires var b := RootBody(c.ms, c.root, c.names, c.linux); Wf(b) && At(s, p, Ser(b))
    ensures RootYields(s, p, RootBody(c.ms, c.root, c.names, c.linux), strings, offs, NothingParsed(), Expected(c))
  {
    hide At, RootYields, Ser, StringAt, ChildNodes, RootRest;
    var b := RootBody(c.ms, c.root, c.names, c.linux);
    var rest := RootRest(c.ms, c.root, c.names, c.linux);
    RootRestWf(c);
    WordAt(s, p, b, |c.ms|);
    var st1 := NothingParsed().(recordCount := |c.ms|);
    var st2 := WithPhandles(st1, c.ms, 0);
    assert c.ms[0..] == c.ms;
    var q := p + 16 + 16 * |c.ms|;
    if At(s, q, Ser(rest)) {
      ParseRootRest(s, q, c, strings, offs, st2);
    }
    ParseParts(s, p + 16, 0, c, rest, strings, offs, st1, Expected(c));
    ParseRootProp(s, p, b, |c.ms|, strings, offs, NothingParsed(), st1, Expected(c));
  }

  lemma RootRestWf(c: Composed)
    requires AllMadeOk(c.ms) && |c.ms| < U32_LIMIT
    ensures Wf(RootRest(c.ms, c.root, c.names, c.linux))
  {
    var nodes := ChildNodes(c.ms, c.names, c.linux);
    NodesWf(c.ms, c.names, c.linux);
    WordWf(c.names.linux, c.root, nodes);
    WordWf(c.names.phandle, c.root, if c.linux then Word(c.names.linux, c.root, nodes) else nodes);
  }

  // ---- The offsets after interning ----

  /** What stringblock_find_string returns: -1 if the string is not there. */
  function OffsetOf(found: Option<nat>): int {
    match found case Some(i) => i case None => -1
  }

  lemma Internable(n: nat)
    ensures AllInternable(ESSENTIALS + PartNames(n))
  {
    hide PartName;
    forall k | 0 <= k < |ESSENTIALS + PartNames(n)|
      ensures (ESSENTIALS + PartNames(n))[k] != [] && NUL !in (ESSENTIALS + PartNames(n))[k]
    {
      if k >= 4 {
        assert (ESSENTIALS + PartNames(n))[k] == PartName(k - 4);
      }
    }
  }

  /** A string that was interned is found, and reads back. */
  lemma InternedAt(b: Bytes, strs: seq<Bytes>, k: nat)
    requires Terminated(b) && AllInternable(strs) && k < |strs|
    ensures var (b', offsets) := InternAll(b, strs);
            |offsets| == |strs| && offsets[k] < |b'| && StringAt(b', offsets[k]) == strs[k]
            && Find(b', strs[k]) == Some(offsets[k])
  {
    hide Find, StringAt, InternAll;
    InternAllIsStable(b, strs);
    FoundInside(InternAll(b, strs).0, strs[k]);
  }

  /** A string that was there is found at its old place. */
  lemma KeptAt(b: Bytes, strs: seq<Bytes>, str: Bytes)
    requires Terminated(b) && AllInternable(strs) && Find(b, str).Some? && str != []
    ensures var b' := InternAll(b, strs).0;
            Find(b', str) == Find(b, str) && Find(b', str).value < |b'| && StringAt(b', Find(b', str).value) == str
  {
    hide Find, StringAt, InternAll;
    InternAllIsStable(b, strs);
    var b' := InternAll(b, strs).0;
    FoundInside(b', str);
    FoundReads(b', str);
  }

  lemma InternedGrows(b: Bytes, strs: seq<Bytes>)
    requires Terminated(b) && AllInternable(strs)
    ensures Terminated(InternAll(b, strs).0) && b <= InternAll(b, strs).0
  {
    hide Find, StringAt, InternAll;
    InternAllIsStable(b, strs);
  }

  /** The essential names are found where the composer put them. */
  lemma EssentialsMatch(strings: Bytes, n: nat)
    requires Terminated(strings) && Find(strings, "phandle").Some?
    ensures var (strings', offsets) := InternAll(strings, ESSENTIALS + PartNames(n));
            && |offsets| == 4 + n && (forall k :: 0 <= k < 4 ==> offsets[k] < |strings'|)
            && Find(strings, "phandle").value < |strings'|
            && GetOffsets(strings')
                 == Some(Offsets(offsets[0], offsets[1], offsets[2], offsets[3], Find(strings, "phandle").value,
                                                    Find(strings', "linux,phandle")))
  {
    hide Find, StringAt, InternAll, PartName, Terminated;
    Internable(n);
    var strs := ESSENTIALS + PartNames(n);
    assert strs[0] == "parts" && strs[1] == "pname" && strs[2] == "size" && strs[3] == "mask";
    hide AllInternable;
    InternedAt(strings, strs, 0);
    InternedAt(strings, strs, 1);
    InternedAt(strings, strs, 2);
    InternedAt(strings, strs, 3);
    KeptAt(strings, strs, "phandle");
  }

  /** And they read back there. */
  lemma EssentialsRead(strings: Bytes, n: nat)
    requires Terminated(strings) && Find(strings, "phandle").Some?
    ensures var (strings', offsets) := InternAll(strings, ESSENTIALS + PartNames(n));
            && |offsets| == 4 + n
            && StringAt(strings', offsets[0]) == "parts" && StringAt(strings', offsets[1]) == "pname"
            && StringAt(strings', offsets[2]) == "size" && StringAt(strings', offsets[3]) == "mask"
            && StringAt(strings', Find(strings, "phandle").value) == "phandle"
  {
    hide Find, StringAt, InternAll, PartName, Terminated;
    Internable(n);
    var strs := ESSENTIALS + PartNames(n);
    assert strs[0] == "parts" && strs[1] == "pname" && strs[2] == "size" && strs[3] == "mask";
    hide AllInternable;
    InternedAt(strings, strs, 0);
    InternedAt(strings, strs, 1);
    InternedAt(strings, strs, 2);
    InternedAt(strings, strs, 3);
    KeptAt(strings, strs, "phandle");
  }

  lemma PartNameReads(strings: Bytes, n: nat, i: nat)
    requires Terminated(strings) && i < n
    ensures var (strings', offsets) := InternAll(strings, ESSENTIALS + PartNames(n));
            |offsets| == 4 + n && offsets[4 + i] < |strings'| && StringAt(strings', offsets[4 + i]) == PartName(i)
  {
    hide Find, StringAt, InternAll, PartName, Terminated;
    Internable(n);
    hide AllInternable;
    InternedAt(strings, ESSENTIALS + PartNames(n), 4 + i);
  }

  lemma LinuxKept(strings: Bytes, n: nat)
    requires Terminated(strings)
    ensures var strings' := InternAll(strings, ESSENTIALS + PartNames(n)).0;
            && Terminated(strings') && strings <= strings'
            && (Find(strings, "linux,phandle").Some? ==>
                  Find(strings', "linux,phandle") == Find(strings, "linux,phandle")
                  && Find(strings, "linux,phandle").value < |strings'|)
            && (Find(strings', "linux,phandle").Some? ==>
                StringAt(strings', Find(strings', "linux,phandle").value) == "linux,phandle")
  {
    hide Find, StringAt, InternAll, PartName, PartNames, Terminated;
    Internable(n);
    var strs := ESSENTIALS + PartNames(n);
    hide AllInternable;
    InternedGrows(strings, strs);
    if Find(strings, "linux,phandle").Some? {
      KeptAt(strings, strs, "linux,phandle");
    }
    if Find(InternAll(strings, strs).0, "linux,phandle").Some? {
      FoundReads(InternAll(strings, strs).0, "linux,phandle");
    }
  }

  /** The strings block that the composer leaves behind is the one the parser needs, whatever was in it before. */
  lemma InternedNamesMatch(c: Composed, parts: seq<DtsPart>, strings: Bytes, strings': Bytes, e: seq<Phandle.Slot>)
    requires Terminated(strings) && |strings'| < U32_LIMIT && Find(strings, "phandle").Some?
    requires ComposedFrom(c, parts, strings, strings', e, OffsetOf(Find(strings, "phandle")),
                          OffsetOf(Find(strings, "linux,phandle")))
    requires c.linux ==> Find(strings, "linux,phandle").Some?
    ensures GetOffsets(strings').Some? && NamesMatch(c, strings', GetOffsets(strings').value)
    ensures Terminated(strings') && strings <= strings'
  {
    hide Find, StringAt, FreshPhandles, AllMadeOk, PartName, InternAll, GetOffsets, Terminated, PartNames;
    EssentialsMatch(strings, |parts|);
    EssentialsRead(strings, |parts|);
    LinuxKept(strings, |parts|);
    forall i | 0 <= i < |parts|
      ensures StringAt(strings', c.ms[i].offPartN) == PartName(i)
    {
      PartNameReads(strings, |parts|, i);
    }
  }

  // ---- Sorting ----

  /** The body of the loop of dts_sort_partitions: bring the partition with this phandle, if it is further on, to place
      i. */
  method SortStep(parts: seq<Entry>, phandle: nat, i: nat) returns (parts': seq<Entry>)
    requires i < |parts|
    ensures |parts'| == |parts| && multiset(parts') == multiset(parts) && parts'[..i] == parts[..i]
    ensures (exists k :: i <= k < |parts| && parts[k].phandle == phandle) ==> parts'[i].phandle == phandle
    ensures parts[i].phandle == phandle ==> parts' == parts
  {
    parts' := parts;
    if phandle != parts[i].phandle {
      for j := i + 1 to |parts|
        invariant parts' == parts && forall k :: i <= k < j ==> parts[k].phandle != phandle
      {
        if parts[j].phandle == phandle {
          parts' := parts[i := parts[j]][j := parts[i]];
          SwapKeeps(parts, i, j);
          break;
        }
      }
    }
  }

  /** dts_sort_partitions. */
  method SortPartitions(st: Parsed) returns (r: int, st': Parsed)
    requires |st.phandles| == MAX_PARTITIONS_COUNT && |st.partitions| <= MAX_PARTITIONS_COUNT
    ensures r == 0 <==> |st.partitions| == st.recordCount
    ensures multiset(st'.partitions) == multiset(st.partitions) && st' == st.(partitions := st'.partitions)
    ensures r == 0 && Recorded(st) ==> InRecordOrder(st')
    ensures r != 0 ==> st' == st
    ensures InRecordOrder(st) ==> st' == st
  {
    st' := st;
    if st.recordCount > MAX_PARTITIONS_COUNT {
      return 2, st';
    }
    var pcount := |st.partitions|;
    if pcount != st.recordCount {
      return 3, st';
    }
    var parts := st.partitions;
    for i := 0 to pcount
      invariant |parts| == pcount && multiset(parts) == multiset(st.partitions)
      invariant Recorded(st) ==> OrderedUpTo(parts, st.phandles, i)
      invariant InRecordOrder(st) ==> parts == st.partitions
    {
      if Recorded(st) {
        RecordedIsHere(st, parts, i);
      }
      ghost var was := parts;
      parts := SortStep(parts, st.phandles[i], i);
      assert forall k :: 0 <= k < i ==> parts[..i][k] == was[..i][k];
    }
    st' := st.(partitions := parts);
    return 0, st';
  }

  ghost predicate OrderedUpTo(parts: seq<Entry>, phandles: seq<nat>, n: nat) {
    n <= |parts| <= |phandles| && forall k :: 0 <= k < n ==> parts[k].phandle == phandles[k]
  }

  /** Every recorded phandle belongs to some partition, and no two records are the same. */
  ghost predicate Recorded(st: Parsed) {
    && |st.partitions| <= |st.phandles|
    && (forall i, j :: 0 <= i < j < |st.partitions| ==> st.phandles[i] != st.phandles[j])
    && forall i :: 0 <= i < |st.partitions| ==> HasPhandle(st.partitions, st.phandles[i])
  }

  ghost predicate HasPhandle(parts: seq<Entry>, phandle: nat) {
    exists e :: e in multiset(parts) && e.phandle == phandle
  }

  ghost predicate InRecordOrder(st: Parsed) {
    |st.partitions| <= |st.phandles| && forall i :: 0 <= i < |st.partitions| ==>
      st.partitions[i].phandle == st.phandles[i]
  }

  lemma SwapKeeps(parts: seq<Entry>, i: nat, j: nat)
    requires i < |parts| && j < |parts|
    ensures multiset(parts[i := parts[j]][j := parts[i]]) == multiset(parts)
  {
  }

  lemma RecordedIsHere(st: Parsed, parts: seq<Entry>, i: nat)
    requires Recorded(st) && i < |parts| == |st.partitions| && multiset(parts) == multiset(st.partitions)
    requires OrderedUpTo(parts, st.phandles, i)
    ensures exists k :: i <= k < |parts| && parts[k].phandle == st.phandles[i]
  {
    assert HasPhandle(st.partitions, st.phandles[i]);
    var e :| e in multiset(st.partitions) && e.phandle == st.phandles[i];
    assert e in multiset(parts);
    assert e in parts;
    var k :| 0 <= k < |parts| && parts[k] == e;
  }

  lemma ExpectedInOrder(c: Composed)
    requires |c.ms| <= MAX_PARTITIONS_COUNT
    ensures InRecordOrder(Expected(c)) && |Expected(c).partitions| == Expected(c).recordCount
  {
  }

  function PartOf(e: Entry): (string, nat, nat) {
    (e.name, e.size, e.mask)
  }

  /** Composing a list into a node, then parsing and sorting the node, gives back the list: names, 64-bit sizes, masks
      and order, with or without linux,phandle. */
  lemma ComposeParseSort(s: Bytes, node: nat, c: Composed, parts: seq<DtsPart>, strings: Bytes, strings': Bytes,
                         e: seq<Phandle.Slot>)
    requires Terminated(strings) && |strings'| < U32_LIMIT && Find(strings, "phandle").Some?
    requires |parts| <= MAX_PARTITIONS_COUNT
    requires ComposedFrom(c, parts, strings, strings', e, OffsetOf(Find(strings, "phandle")),
                          OffsetOf(Find(strings, "linux,phandle")))
    requires c.linux ==> Find(strings, "linux,phandle").Some?
    requires At(s, node, PARTITIONS + [NUL, NUL] + RootText(c.ms, c.root, c.names, c.linux) + BE32(END_NODE))
    ensures GetOffsets(strings').Some?
    ensures var b := RootBody(c.ms, c.root, c.names, c.linux);
            && IsNodeAt(s, node, Tree(PARTITIONS, [NUL], b)) && node + 12 <= |s|
            && s[node..node + 12] == PARTITIONS + [NUL, NUL]
            && node + 12 + 4 * Words(b) <= |s|
            && ParseBody(s, b, node + 12, false, strings', GetOffsets(strings').value, NothingParsed())
                 == Ok(Expected(c))
    ensures InRecordOrder(Expected(c)) && |Expected(c).partitions| == |parts| == Expected(c).recordCount
    ensures forall i :: 0 <= i < |parts| ==>
              PartOf(Expected(c).partitions[i]) == (parts[i].name, parts[i].size, parts[i].mask)
  {
    hide At, Ser, RootText, RootBody, ParseBody, InternAll, NamesMatch;
    InternedNamesMatch(c, parts, strings, strings', e);
    SerRoot(c.ms, c.root, c.names, c.linux);
    var b := RootBody(c.ms, c.root, c.names, c.linux);
    ComposedAt(s, node, RootText(c.ms, c.root, c.names, c.linux), b);
    ParseComposed(s, node + 12, c, strings', GetOffsets(strings').value);
    ExpectedInOrder(c);
  }

  lemma ComposedAt(s: Bytes, node: nat, text: Bytes, b: Body)
    requires Wf(b) && Ser(b) == text + BE32(END_NODE)
    requires At(s, node, PARTITIONS + [NUL, NUL] + text + BE32(END_NODE))
    ensures IsNodeAt(s, node, Tree(PARTITIONS, [NUL], b)) && At(s, node + 12, Ser(b))
    ensures node + 12 <= |s| && s[node..node + 12] == PARTITIONS + [NUL, NUL]
  {
    assert NameBytes(PARTITIONS, [NUL]) == PARTITIONS + [NUL, NUL];
    Assoc(PARTITIONS + [NUL, NUL], text, BE32(END_NODE));
    AtConcat(s, node, PARTITIONS + [NUL, NUL], Ser(b));
  }
}
