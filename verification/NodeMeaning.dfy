/** Parsing a partitions node, said of the abstract node: when it succeeds, what it finds, and what its errors mean. */
module NodeMeaning {
  import opened Util
  import opened Fdt
  import opened Walk
  import opened StringBlock
  import opened Partitions
  import Literal
  import Ept

  /** No two of the looked-up names are at one offset. */
  predicate OffsetsApart(offs: Offsets) {
    && offs.pname !in {offs.size, offs.mask, offs.phandle} && offs.size !in {offs.mask, offs.phandle}
    && offs.mask != offs.phandle && offs.parts != offs.phandle
    && (offs.linux.Some? ==>
          offs.linux.value !in {offs.pname, offs.size, offs.mask, offs.phandle, offs.parts})
  }

  lemma FoundApart(strings: Bytes, a: Bytes, b: Bytes)
    requires a != [] && b != [] && a != b && Find(strings, a).Some? && Find(strings, b).Some?
    ensures Find(strings, a) != Find(strings, b)
  {
    FoundReads(strings, a);
    FoundReads(strings, b);
  }

  lemma OffsetsAreApart(strings: Bytes)
    requires GetOffsets(strings).Some?
    ensures OffsetsApart(GetOffsets(strings).value)
  {
    hide Find;
    FoundApart(strings, "pname", "size");
    FoundApart(strings, "pname", "mask");
    FoundApart(strings, "pname", "phandle");
    FoundApart(strings, "size", "mask");
    FoundApart(strings, "size", "phandle");
    FoundApart(strings, "mask", "phandle");
    FoundApart(strings, "parts", "phandle");
    if Find(strings, "linux,phandle").Some? {
      FoundApart(strings, "linux,phandle", "pname");
      FoundApart(strings, "linux,phandle", "size");
      FoundApart(strings, "linux,phandle", "mask");
      FoundApart(strings, "linux,phandle", "phandle");
      FoundApart(strings, "linux,phandle", "parts");
    }
  }

  lemma NumberOfWord(v: Bytes)
    requires |v| == 4
    ensures Number(v) == Read32(v, 0)
  {
    var a, b, c := v[..3], v[..2], v[..1];
    assert a[..2] == b && b[..1] == c && c[..0] == [];
    assert Number(c) == v[0] as nat;
    assert Number(b) == Number(c) * 0x100 + v[1] as nat;
    assert Number(a) == Number(b) * 0x100 + v[2] as nat;
  }

  lemma NumberSplit(v: Bytes, k: nat)
    requires k <= |v|
    ensures |v| == k + 4 ==> Number(v) == Number(v[..k]) * U32_LIMIT + Number(v[k..])
  {
    if |v| == k + 4 {
      var w := v[k..];
      NumberOfWord(w);
      var a, b, c := v[..k + 3], v[..k + 2], v[..k + 1];
      assert v[..|v| - 1] == a && a[..k + 2] == b && b[..k + 1] == c && c[..k] == v[..k];
      assert Number(c) == Number(v[..k]) * 0x100 + v[k] as nat;
      assert Number(b) == Number(c) * 0x100 + v[k + 1] as nat;
      assert Number(a) == Number(b) * 0x100 + v[k + 2] as nat;
    }
  }

  lemma ReadNumber(s: Bytes, p: nat, v: Bytes)
    requires At(s, p, v)
    ensures p + |v| <= |s|
    ensures |v| == 4 ==> Read32(s, p) == Number(v)
    ensures |v| == 8 ==> Read32(s, p) * U32_LIMIT + Read32(s, p + 4) == Number(v)
  {
    hide Read32;
    AtBound(s, p, v);
    if |v| == 4 {
      NumberOfWord(v);
      WordAtStart(s, p, v);
    } else if |v| == 8 {
      assert v == v[..4] + v[4..];
      AtConcat(s, p, v[..4], v[4..]);
      WordAtStart(s, p, v[..4]);
      WordAtStart(s, p + 4, v[4..]);
      NumberOfWord(v[..4]);
      NumberOfWord(v[4..]);
      NumberSplit(v, 4);
    }
  }

  lemma WordAtStart(s: Bytes, p: nat, v: Bytes)
    requires At(s, p, v) && |v| == 4
    ensures p + 4 <= |s| && Read32(s, p) == Read32(v, 0)
  {
    AtBound(s, p, v);
    AtByte(s, p, v, 0);
    AtByte(s, p, v, 1);
    AtByte(s, p, v, 2);
    AtByte(s, p, v, 3);
  }

  lemma {:induction false} TextStops(s: Bytes, p: nat, x: Bytes, k: nat)
    requires At(s, p, x) && k <= |x| && p + |x| < |s| && s[p + |x|] == NUL
    ensures StringAt(s, p + k) == StringAt(x, k)
    decreases |x| - k
  {
    if k < |x| {
      AtByte(s, p, x, k);
      TextStops(s, p, x, k + 1);
    }
  }

  /** Every token begins with a zero byte, which ends a text before it. */
  lemma TokenIsZero(s: Bytes, p: nat, b: Body)
    requires Wf(b) && At(s, p, Ser(b))
    ensures p < |s| && s[p] == NUL
  {
    var first := BE32(if b.End? then END_NODE else if b.Nop? then NOP else if b.Prop? then PROP else BEGIN_NODE);
    assert first <= Ser(b) && first[0] == NUL;
    AtByte(s, p, Ser(b), 0);
  }

  lemma PropertyAt(s: Bytes, p: nat, b: Body)
    requires b.Prop? && Wf(b) && At(s, p, Ser(b))
    ensures At(s, p + 12, b.value) && StringAt(s, p + 12) == TextOf(Property(b.nameOff, b.value, b.pad))
  {
    hide BE32, At, Ser, StringAt;
    SerOfProp(b);
    PropLength(b.nameOff, b.value, b.pad);
    PadToWord(|b.value|);
    var head := BE32(PROP) + BE32(|b.value|) + BE32(b.nameOff);
    assert Ser(b) == head + ((b.value + b.pad) + Ser(b.rest));
    AtConcat(s, p, head, (b.value + b.pad) + Ser(b.rest));
    AtConcat(s, p + 12, b.value + b.pad, Ser(b.rest));
    AtConcat(s, p + 12, b.value, b.pad);
    TokenIsZero(s, p + 12 + |b.value + b.pad|, b.rest);
    TextStops(s, p + 12, b.value + b.pad, 0);
  }

  lemma SerOfProp(b: Body)
    requires b.Prop? && Wf(b)
    ensures Ser(b) == BE32(PROP) + BE32(|b.value|) + BE32(b.nameOff) + b.value + b.pad + Ser(b.rest)
  {
  }

  lemma LastValueMore(p: Property, ps: seq<Property>, nameOff: nat, default: nat)
    ensures NumberOr(LastValue([p] + ps, nameOff), default) ==
            NumberOr(LastValue(ps, nameOff), NumberOr(LastValue([p], nameOff), default))
  {
    assert ([p] + ps)[1..] == ps && [p][1..] == [];
  }

  lemma UpdatedMore(e: Entry, p: Property, ps: seq<Property>, offs: Offsets)
    ensures Updated(e, [p] + ps, offs) == Updated(Updated(e, [p], offs), ps, offs)
  {
    hide LastValue;
    LastValueMore(p, ps, offs.size, e.size);
    LastValueMore(p, ps, offs.mask, e.mask);
    LastValueMore(p, ps, offs.phandle, e.phandle);
    if offs.linux.Some? {
      LastValueMore(p, ps, offs.linux.value, e.linux);
    }
  }

  lemma OneValue(p: Property, nameOff: nat)
    ensures LastValue([p], nameOff) == if p.nameOff == nameOff then Some(p.value) else None
  {
    assert [p][1..] == [];
  }

  /** One property of a partition. */
  lemma ChildPropMeans(s: Bytes, p: nat, pr: Property, offs: Offsets, e: Entry)
    requires OffsetsApart(offs) && At(s, p, pr.value) && p + |pr.value| <= |s| && StringAt(s, p) == TextOf(pr)
    ensures var r := ChildProp(s, p, pr.nameOff, |pr.value|, offs, e);
            && (r.Ok? <==> PartProp(pr, e.name, offs))
            && (r.Ok? ==> r.value == Updated(e, [pr], offs))
  {
    hide LastValue, Number, StringAt, TextOf, Read32;
    ReadNumber(s, p, pr.value);
    OneValue(pr, offs.size);
    OneValue(pr, offs.mask);
    OneValue(pr, offs.phandle);
    if offs.linux.Some? {
      OneValue(pr, offs.linux.value);
    }
  }

  /** The contents of a partition's node. */
  lemma {:induction false} ChildMeans(s: Bytes, b: Body, p: nat, strings: Bytes, offs: Offsets, st: Parsed)
    requires Wf(b) && StOk(st, true) && At(s, p, Ser(b)) && p + 4 * Words(b) <= |s| && OffsetsApart(offs)
    ensures var n := |st.partitions| - 1;
            var e, r := st.partitions[n], ParseBody(s, b, p, true, strings, offs, st);
            && (r.Ok? <==>
                && Nodes(b) == [] && (forall pr :: pr in Props(b) ==> PartProp(pr, e.name, offs))
                && SamePhandles(Updated(e, Props(b), offs)))
            && (r.Ok? ==> r.value == st.(partitions := st.partitions[n := Updated(e, Props(b), offs)]))
    decreases b
  {
    hide At, Ser, Steps, PartProp, Updated, ChildProp, TextOf, SamePhandles;
    var n := |st.partitions| - 1;
    var e := st.partitions[n];
    match b
    case End =>
      NothingUpdates(e, offs);
      EndMeans(e);
    case Nop(rest) =>
      EnterToken(s, p, b);
      ChildMeans(s, rest, p + 4, strings, offs, st);
    case Node(_, _, _, _) =>
    case Prop(nameOff, value, pad, rest) =>
      var pr := Property(nameOff, value, pad);
      EnterToken(s, p, b);
      PropertyAt(s, p, b);
      StepsCover(|value|);
      ChildPropMeans(s, p + 12, pr, offs, e);
      UpdatedMore(e, pr, Props(rest), offs);
      InPropsOf(pr, Props(rest));
      var step := ChildProp(s, p + 12, nameOff, |value|, offs, e);
      if step.Ok? {
        ChildMeans(s, rest, p + 12 + 4 * Steps(|value|), strings, offs,
                   st.(partitions := st.partitions[n := step.value]));
        UpdatedName(e, [pr], offs);
      }
  }

  lemma NothingUpdates(e: Entry, offs: Offsets)
    ensures Updated(e, [], offs) == e
  {
  }

  lemma UpdatedName(e: Entry, ps: seq<Property>, offs: Offsets)
    ensures Updated(e, ps, offs).name == e.name
  {
  }

  lemma EndMeans(e: Entry)
    ensures EndOk(e) <==> SamePhandles(e)
  {
  }

  lemma InPropsOf(pr: Property, ps: seq<Property>)
    ensures forall x :: x in [pr] + ps <==> x == pr || x in ps
  {
  }

  // ---- The same for the partitions node itself ----

  function RecordsOf(was: seq<nat>, ps: seq<Property>, strings: Bytes, offs: Offsets): (r: seq<nat>)
    ensures |r| == |was|
  {
    seq(|was|, i requires 0 <= i < |was| => NumberOr(LastRecord(ps, strings, offs, i), was[i]))
  }

  function EntriesOf(nodes: seq<Tree>, offs: Offsets): (r: seq<Entry>)
    ensures |r| == |nodes|
  {
    seq(|nodes|, i requires 0 <= i < |nodes| => EntryOfNode(nodes[i], offs))
  }

  function WithProps(st: Parsed, ps: seq<Property>, strings: Bytes, offs: Offsets): Parsed {
    st.(recordCount := NumberOr(LastValue(ps, offs.parts), st.recordCount),
        phandleRoot := NumberOr(LastValue(ps, offs.phandle), st.phandleRoot),
        linuxRoot := NumberOr(LinuxValue(ps, offs), st.linuxRoot),
        phandles := RecordsOf(st.phandles, ps, strings, offs))
  }

  lemma LastRecordMore(p: Property, ps: seq<Property>, strings: Bytes, offs: Offsets, i: nat, default: nat)
    ensures NumberOr(LastRecord([p] + ps, strings, offs, i), default) ==
            NumberOr(LastRecord(ps, strings, offs, i), NumberOr(LastRecord([p], strings, offs, i), default))
  {
    hide RecordOf;
    assert ([p] + ps)[1..] == ps && [p][1..] == [];
  }

  lemma WithPropsMore(st: Parsed, p: Property, ps: seq<Property>, strings: Bytes, offs: Offsets)
    ensures WithProps(st, [p] + ps, strings, offs) == WithProps(WithProps(st, [p], strings, offs), ps, strings, offs)
  {
    hide LastValue, LastRecord;
    LastValueMore(p, ps, offs.parts, st.recordCount);
    LastValueMore(p, ps, offs.phandle, st.phandleRoot);
    if offs.linux.Some? {
      LastValueMore(p, ps, offs.linux.value, st.linuxRoot);
    }
    RecordsMore(st.phandles, p, ps, strings, offs);
  }

  lemma RecordsMore(was: seq<nat>, p: Property, ps: seq<Property>, strings: Bytes, offs: Offsets)
    ensures RecordsOf(was, [p] + ps, strings, offs) == RecordsOf(RecordsOf(was, [p], strings, offs), ps, strings, offs)
  {
    hide LastRecord;
    var a, b := RecordsOf(was, [p] + ps, strings, offs),
        RecordsOf(RecordsOf(was, [p], strings, offs), ps, strings, offs);
    forall i | 0 <= i < |was|
      ensures a[i] == b[i]
    {
      LastRecordMore(p, ps, strings, offs, i, was[i]);
    }
  }

  lemma NoProps(st: Parsed, strings: Bytes, offs: Offsets)
    ensures WithProps(st, [], strings, offs) == st
  {
    assert RecordsOf(st.phandles, [], strings, offs) == st.phandles;
  }

  lemma OneRecord(was: seq<nat>, p: Property, strings: Bytes, offs: Offsets)
    ensures RecordsOf(was, [p], strings, offs) ==
            match RecordOf(p, strings, offs)
            case None => was
            case Some(i) => if i < |was| then was[i := Number(p.value)] else was
  {
    hide RecordOf;
    assert [p][1..] == [];
    forall i: nat
      ensures LastRecord([p], strings, offs, i) == if RecordOf(p, strings, offs) == Some(i) then Some(p.value) else None
    {
      assert LastRecord([], strings, offs, i) == None;
    }
  }

  /** One property of the partitions node. */
  lemma RootPropMeans(s: Bytes, p: nat, pr: Property, strings: Bytes, offs: Offsets, st: Parsed)
    requires OffsetsApart(offs) && At(s, p, pr.value) && p + |pr.value| <= |s| && StOk(st, false)
    ensures var r := RootProp(s, p, pr.nameOff, |pr.value|, strings, offs, st);
            && (r.Ok? <==> RootPropOk(pr, strings, offs))
            && (r.Ok? ==> r.value == WithProps(st, [pr], strings, offs))
  {
    hide LastValue, LastRecord, RecordsOf, Number, StringAt, Read32, Literal.Strtoul;
    ReadNumber(s, p, pr.value);
    OneValue(pr, offs.parts);
    OneValue(pr, offs.phandle);
    if offs.linux.Some? {
      OneValue(pr, offs.linux.value);
    }
    OneRecord(st.phandles, pr, strings, offs);
  }

  function WithNodes(st: Parsed, nodes: seq<Tree>, offs: Offsets): Parsed {
    st.(partitions := st.partitions + EntriesOf(nodes, offs))
  }

  /** A child of the partitions node, and then the rest. */
  lemma ChildThenRest(s: Bytes, q: nat, c: Tree, rest: Body, strings: Bytes, offs: Offsets, st: Parsed)
    requires Wf(c.body) && Wf(rest) && StOk(st, false) && At(s, q, Ser(c.body)) && OffsetsApart(offs) && |c.name| <= 15
    requires q + 4 * Words(c.body) + 4 * Words(rest) <= |s|
    ensures var st1 := st.(partitions := st.partitions + [Entry(c.name, 0, 0, 0, 0)]);
            var r, st' := Remaining(s, q, true, c.body, rest, strings, offs, st1), WithNodes(st, [c], offs);
            && StOk(st', false)
            && (if PartitionNode(c, offs) then r == ParseBody(s, rest, q + 4 * Words(c.body), false, strings, offs, st')
                else r.Err?)
  {
    hide At, Ser, PartProp, Updated, SamePhandles, ParseBody;
    var e := Entry(c.name, 0, 0, 0, 0);
    var st1 := st.(partitions := st.partitions + [e]);
    assert st1.partitions[|st.partitions|] == e;
    ChildMeans(s, c.body, q, strings, offs, st1);
    OneEntry(st, c, offs);
  }

  /** A child of the partitions node. */
  lemma PartitionMeans(s: Bytes, b: Body, p: nat, strings: Bytes, offs: Offsets, st: Parsed)
    requires b.Node? && Wf(b) && StOk(st, false) && At(s, p, Ser(b)) && p + 4 * Words(b) <= |s| && OffsetsApart(offs)
    ensures var c, q := Tree(b.name, b.pad, b.child), p + 4 + 4 * Steps(|b.name| + 1) + 4 * Words(b.child);
            var st', r := WithNodes(st, [c], offs), ParseBody(s, b, p, false, strings, offs, st);
            && StOk(st', false) && q + 4 * Words(b.rest) <= |s|
            && (if |st.partitions| < Ept.MAX_PARTITIONS_COUNT && PartitionNode(c, offs) then
                  r == ParseBody(s, b.rest, q, false, strings, offs, st')
                else r.Err?)
  {
    hide At, Ser, Steps, ParseBody, Remaining, WithNodes, PartProp, Updated, SamePhandles, IsNodeAt;
    NodeParts(b);
    ParseBegin(s, b, p, false, strings, offs, st);
    EnterNode(s, p, b);
    WithNodesOk(st, Tree(b.name, b.pad, b.child), offs);
    if Begin(st, b.name).Ok? {
      ChildThenRest(s, p + 4 + 4 * Steps(|b.name| + 1), Tree(b.name, b.pad, b.child), b.rest, strings, offs, st);
    }
  }

  lemma WithNodesOk(st: Parsed, c: Tree, offs: Offsets)
    requires StOk(st, false)
    ensures StOk(WithNodes(st, [c], offs), false)
  {
  }

  lemma OneEntry(st: Parsed, c: Tree, offs: Offsets)
    ensures var n, e := |st.partitions|, Entry(c.name, 0, 0, 0, 0);
            (st.partitions + [e])[n := Updated(e, Props(c.body), offs)] == WithNodes(st, [c], offs).partitions
  {
    hide Updated;
  }

  lemma MoreNodes(st: Parsed, c: Tree, nodes: seq<Tree>, offs: Offsets)
    ensures WithNodes(WithNodes(st, [c], offs), nodes, offs) == WithNodes(st, [c] + nodes, offs)
    ensures forall x :: x in [c] + nodes <==> x == c || x in nodes
  {
    hide EntryOfNode;
    assert EntriesOf([c], offs) + EntriesOf(nodes, offs) == EntriesOf([c] + nodes, offs);
  }

  /** Nodes and properties are counted separately. */
  lemma NodesThenProps(st: Parsed, nodes: seq<Tree>, ps: seq<Property>, strings: Bytes, offs: Offsets)
    ensures WithNodes(WithProps(st, ps, strings, offs), nodes, offs)
              == WithProps(WithNodes(st, nodes, offs), ps, strings, offs)
  {
    hide LastValue, RecordsOf, EntriesOf;
  }

  predicate AllRootProps(ps: seq<Property>, strings: Bytes, offs: Offsets) {
    forall p :: p in ps ==> RootPropOk(p, strings, offs)
  }

  predicate AllPartitionNodes(nodes: seq<Tree>, offs: Offsets) {
    forall c :: c in nodes ==> PartitionNode(c, offs)
  }

  /** The result of parsing these properties and nodes on top of what was parsed before. */
  ghost predicate Adds(st: Parsed, ps: seq<Property>, nodes: seq<Tree>, strings: Bytes, offs: Offsets,
                       r: Result<Parsed>) {
    && (r.Ok? <==>
        && |st.partitions| + |nodes| <= Ept.MAX_PARTITIONS_COUNT
        && AllRootProps(ps, strings, offs) && AllPartitionNodes(nodes, offs))
    && (r.Ok? ==> r.value == WithNodes(WithProps(st, ps, strings, offs), nodes, offs))
  }

  lemma AddsNode(st: Parsed, c: Tree, ps: seq<Property>, nodes: seq<Tree>, strings: Bytes, offs: Offsets,
                 r: Result<Parsed>)
    requires if |st.partitions| < Ept.MAX_PARTITIONS_COUNT && PartitionNode(c, offs) then
               Adds(WithNodes(st, [c], offs), ps, nodes, strings, offs, r)
             else r.Err?
    ensures Adds(st, ps, [c] + nodes, strings, offs, r)
  {
    hide RootPropOk, PartitionNode, WithProps, WithNodes;
    var st' := WithNodes(st, [c], offs);
    MoreNodes(WithProps(st, ps, strings, offs), c, nodes, offs);
    OneMoreNode(st, c, offs);
    NodesThenProps(st, [c], ps, strings, offs);
  }

  lemma {:induction false} RootMeans(s: Bytes, b: Body, p: nat, strings: Bytes, offs: Offsets, st: Parsed)
    requires Wf(b) && StOk(st, false) && At(s, p, Ser(b)) && p + 4 * Words(b) <= |s| && OffsetsApart(offs)
    requires |st.partitions| <= Ept.MAX_PARTITIONS_COUNT
    ensures Adds(st, Props(b), Nodes(b), strings, offs, ParseBody(s, b, p, false, strings, offs, st))
    decreases b
  {
    hide At, Ser, Steps, RootPropOk, PartitionNode, WithProps, RootProp, WithNodes, Adds;
    match b
    case End =>
      AddsNothing(s, b, p, strings, offs, st);
    case Nop(rest) =>
      EnterToken(s, p, b);
      RootMeans(s, rest, p + 4, strings, offs, st);
    case Prop(nameOff, value, pad, rest) =>
      RootMeansProp(s, b, p, strings, offs, st);
    case Node(name, pad, child, rest) =>
      RootMeansNode(s, b, p, strings, offs, st);
  }

  lemma {:induction false} RootMeansNode(s: Bytes, b: Body, p: nat, strings: Bytes, offs: Offsets, st: Parsed)
    requires b.Node? && Wf(b) && StOk(st, false) && At(s, p, Ser(b)) && p + 4 * Words(b) <= |s| && OffsetsApart(offs)
    requires |st.partitions| <= Ept.MAX_PARTITIONS_COUNT
    ensures Adds(st, Props(b), Nodes(b), strings, offs, ParseBody(s, b, p, false, strings, offs, st))
    decreases b, 0
  {
    hide At, Ser, Steps, PartitionNode, WithProps, WithNodes, Adds, RootProp;
    var c := Tree(b.name, b.pad, b.child);
    PartitionMeans(s, b, p, strings, offs, st);
    EnterToken(s, p, b);
    hide ParseBody;
    if |st.partitions| < Ept.MAX_PARTITIONS_COUNT && PartitionNode(c, offs) {
      OneMoreNode(st, c, offs);
      RootMeans(s, b.rest, p + 4 + 4 * Steps(|b.name| + 1) + 4 * Words(b.child), strings, offs,
                WithNodes(st, [c], offs));
    }
    AddsNode(st, c, Props(b.rest), Nodes(b.rest), strings, offs, ParseBody(s, b, p, false, strings, offs, st));
  }

  lemma OneMoreNode(st: Parsed, c: Tree, offs: Offsets)
    ensures |WithNodes(st, [c], offs).partitions| == |st.partitions| + 1
  {
  }

  lemma NoNodes(st: Parsed, offs: Offsets)
    ensures WithNodes(st, [], offs) == st
  {
  }

  lemma AddsNothing(s: Bytes, b: Body, p: nat, strings: Bytes, offs: Offsets, st: Parsed)
    requires b.End? && Wf(b) && StOk(st, false) && p + 4 * Words(b) <= |s| && At(s, p, Ser(b))
    requires |st.partitions| <= Ept.MAX_PARTITIONS_COUNT
    ensures Adds(st, Props(b), Nodes(b), strings, offs, ParseBody(s, b, p, false, strings, offs, st))
  {
    hide At, WithProps, WithNodes;
    NoProps(st, strings, offs);
    NoNodes(st, offs);
  }

  lemma {:induction false} RootMeansProp(s: Bytes, b: Body, p: nat, strings: Bytes, offs: Offsets, st: Parsed)
    requires b.Prop? && Wf(b) && StOk(st, false) && At(s, p, Ser(b)) && p + 4 * Words(b) <= |s| && OffsetsApart(offs)
    requires |st.partitions| <= Ept.MAX_PARTITIONS_COUNT
    ensures Adds(st, Props(b), Nodes(b), strings, offs, ParseBody(s, b, p, false, strings, offs, st))
    decreases b, 0
  {
    hide At, Ser, Steps, RootPropOk, PartitionNode, WithProps, RootProp, WithNodes, AllPartitionNodes;
    var pr := Property(b.nameOff, b.value, b.pad);
    EnterToken(s, p, b);
    PropertyAt(s, p, b);
    StepsCover(|b.value|);
    RootPropMeans(s, p + 12, pr, strings, offs, st);
    InPropsOf(pr, Props(b.rest));
    WithPropsMore(st, pr, Props(b.rest), strings, offs);
    var step := RootProp(s, p + 12, b.nameOff, |b.value|, strings, offs, st);
    if step.Ok? {
      WithPropsKeeps(st, [pr], strings, offs);
      RootMeans(s, b.rest, p + 12 + 4 * Steps(|b.value|), strings, offs, step.value);
    }
  }

  lemma WithPropsKeeps(st: Parsed, ps: seq<Property>, strings: Bytes, offs: Offsets)
    ensures var st' := WithProps(st, ps, strings, offs);
            st'.partitions == st.partitions && (StOk(st, false) ==> StOk(st', false))
  {
  }

  /** Parsing succeeds exactly if the node and its children are as they have to be, and then finds what they mean. */
  lemma ParseMeans(s: Bytes, b: Body, p: nat, strings: Bytes, offs: Offsets)
    requires Wf(b) && At(s, p, Ser(b)) && p + 4 * Words(b) <= |s| && GetOffsets(strings) == Some(offs)
    ensures var r := ParseBody(s, b, p, false, strings, offs, NothingParsed());
            && (r.Ok? <==> NodeOk(b, strings, offs))
            && (r.Ok? ==> NodeMeans(b, strings, offs, r.value))
  {
    hide At, Ser, ParseBody, GetOffsets, RootPropOk, PartitionNode, LastValue, LastRecord, EntryOfNode;
    OffsetsAreApart(strings);
    RootMeans(s, b, p, strings, offs, NothingParsed());
  }

  // ---- What the error codes say ----

  /** 3: a node too many, too long in name, or nested; 4: phandles that differ; 5: a property. */
  predicate Complains(code: int, badNode: bool, badPhandles: bool, badProp: bool) {
    (code == 3 && badNode) || (code == 4 && badPhandles) || (code == 5 && badProp)
  }

  predicate AllPartProps(ps: seq<Property>, name: Bytes, offs: Offsets) {
    forall p :: p in ps ==> PartProp(p, name, offs)
  }

  lemma {:induction false} ChildComplains(s: Bytes, b: Body, p: nat, strings: Bytes, offs: Offsets, st: Parsed)
    requires Wf(b) && StOk(st, true) && At(s, p, Ser(b)) && p + 4 * Words(b) <= |s| && OffsetsApart(offs)
    ensures var e, r := st.partitions[|st.partitions| - 1], ParseBody(s, b, p, true, strings, offs, st);
            r.Err? ==> Complains(r.code, Nodes(b) != [], !SamePhandles(Updated(e, Props(b), offs)),
                                 !AllPartProps(Props(b), e.name, offs))
    decreases b
  {
    hide At, Ser, Steps, PartProp, Updated, ChildProp, TextOf, SamePhandles;
    var n := |st.partitions| - 1;
    var e := st.partitions[n];
    match b
    case End =>
      NothingUpdates(e, offs);
      EndMeans(e);
    case Nop(rest) =>
      EnterToken(s, p, b);
      ChildComplains(s, rest, p + 4, strings, offs, st);
    case Node(_, _, _, _) =>
    case Prop(nameOff, value, pad, rest) =>
      var pr := Property(nameOff, value, pad);
      EnterToken(s, p, b);
      PropertyAt(s, p, b);
      StepsCover(|value|);
      ChildPropMeans(s, p + 12, pr, offs, e);
      UpdatedMore(e, pr, Props(rest), offs);
      InPropsOf(pr, Props(rest));
      var step := ChildProp(s, p + 12, nameOff, |value|, offs, e);
      if step.Ok? {
        ChildComplains(s, rest, p + 12 + 4 * Steps(|value|), strings, offs,
                       st.(partitions := st.partitions[n := step.value]));
        UpdatedName(e, [pr], offs);
      } else {
        ChildPropCode(s, p + 12, nameOff, |value|, offs, e);
      }
  }

  lemma ChildPropCode(s: Bytes, p: nat, nameOff: nat, length: nat, offs: Offsets, e: Entry)
    requires p + length <= |s| && ChildProp(s, p, nameOff, length, offs, e).Err?
    ensures ChildProp(s, p, nameOff, length, offs, e) == Err(5)
  {
  }

  predicate BadNode(c: Tree) {
    |c.name| > 15 || Nodes(c.body) != []
  }

  predicate BadNodes(nodes: seq<Tree>, room: nat) {
    |nodes| > room || exists c :: c in nodes && BadNode(c)
  }

  predicate BadPhandles(nodes: seq<Tree>, offs: Offsets) {
    exists c :: c in nodes && !SamePhandles(EntryOfNode(c, offs))
  }

  predicate BadProps(ps: seq<Property>, nodes: seq<Tree>, strings: Bytes, offs: Offsets) {
    !AllRootProps(ps, strings, offs) || exists c :: c in nodes && !AllPartProps(Props(c.body), c.name, offs)
  }

  predicate ComplainsOf(code: int, ps: seq<Property>, nodes: seq<Tree>, room: nat, strings: Bytes, offs: Offsets) {
    Complains(code, BadNodes(nodes, room), BadPhandles(nodes, offs), BadProps(ps, nodes, strings, offs))
  }

  /** What is wrong with a part is wrong with the whole. */
  lemma ComplainsMore(code: int, ps: seq<Property>, nodes: seq<Tree>, room: nat, strings: Bytes, offs: Offsets, c: Tree)
    requires ComplainsOf(code, ps, nodes, room, strings, offs)
    ensures ComplainsOf(code, ps, [c] + nodes, room + 1, strings, offs)
  {
    hide BadNode, SamePhandles, AllPartProps, AllRootProps, EntryOfNode;
    assert forall x :: x in nodes ==> x in [c] + nodes;
  }

  lemma ComplainsOfNode(code: int, ps: seq<Property>, nodes: seq<Tree>, room: nat, strings: Bytes, offs: Offsets,
                        c: Tree)
    requires Complains(code, room == 0 || BadNode(c), !SamePhandles(EntryOfNode(c, offs)),
                       !AllPartProps(Props(c.body), c.name, offs))
    ensures ComplainsOf(code, ps, [c] + nodes, room, strings, offs)
  {
    hide BadNode, SamePhandles, AllPartProps, AllRootProps, EntryOfNode;
    assert c in [c] + nodes;
  }

  lemma ComplainsOfProp(code: int, pr: Property, ps: seq<Property>, nodes: seq<Tree>, room: nat, strings: Bytes,
                        offs: Offsets)
    requires (code == 5 && !RootPropOk(pr, strings, offs)) || ComplainsOf(code, ps, nodes, room, strings, offs)
    ensures ComplainsOf(code, [pr] + ps, nodes, room, strings, offs)
  {
    hide RootPropOk, BadNodes, BadPhandles, AllPartProps;
    InPropsOf(pr, ps);
    assert pr in [pr] + ps;
  }

  /** Error 3, 4 or 5 says what is wrong somewhere in the node. */
  lemma {:induction false} RootComplains(s: Bytes, b: Body, p: nat, strings: Bytes, offs: Offsets, st: Parsed)
    requires Wf(b) && StOk(st, false) && At(s, p, Ser(b)) && p + 4 * Words(b) <= |s| && OffsetsApart(offs)
    requires |st.partitions| <= Ept.MAX_PARTITIONS_COUNT
    ensures var r := ParseBody(s, b, p, false, strings, offs, st);
            r.Err? ==> ComplainsOf(r.code, Props(b), Nodes(b), Ept.MAX_PARTITIONS_COUNT - |st.partitions|, strings,
                                   offs)
    decreases b
  {
    hide At, Ser, Steps, RootPropOk, PartitionNode, WithProps, RootProp, ComplainsOf;
    match b
    case End =>
    case Nop(rest) =>
      EnterToken(s, p, b);
      RootComplains(s, rest, p + 4, strings, offs, st);
    case Prop(nameOff, value, pad, rest) =>
      var pr := Property(nameOff, value, pad);
      EnterToken(s, p, b);
      PropertyAt(s, p, b);
      StepsCover(|value|);
      RootPropMeans(s, p + 12, pr, strings, offs, st);
      var step := RootProp(s, p + 12, nameOff, |value|, strings, offs, st);
      var r := ParseBody(s, b, p, false, strings, offs, st);
      if step.Ok? {
        WithPropsKeeps(st, [pr], strings, offs);
        RootComplains(s, rest, p + 12 + 4 * Steps(|value|), strings, offs, step.value);
      } else {
        RootPropCode(s, p + 12, nameOff, |value|, strings, offs, st);
      }
      if r.Err? {
        ComplainsOfProp(r.code, pr, Props(rest), Nodes(rest), Ept.MAX_PARTITIONS_COUNT - |st.partitions|, strings,
                        offs);
      }
    case Node(name, pad, child, rest) =>
      var c, room := Tree(name, pad, child), Ept.MAX_PARTITIONS_COUNT - |st.partitions|;
      PartitionMeans(s, b, p, strings, offs, st);
      EnterToken(s, p, b);
      var r := ParseBody(s, b, p, false, strings, offs, st);
      if room > 0 && PartitionNode(c, offs) {
        hide ParseBody;
        OneMoreNode(st, c, offs);
        RootComplains(s, rest, p + 4 + 4 * Steps(|name| + 1) + 4 * Words(child), strings, offs,
                      WithNodes(st, [c], offs));
        if r.Err? {
          ComplainsMore(r.code, Props(rest), Nodes(rest), room - 1, strings, offs, c);
        }
      } else {
        PartitionComplains(s, b, p, strings, offs, st);
        hide ParseBody;
        ComplainsOfNode(r.code, Props(rest), Nodes(rest), room, strings, offs, c);
      }
  }

  lemma ParseComplains(s: Bytes, b: Body, p: nat, strings: Bytes, offs: Offsets)
    requires Wf(b) && At(s, p, Ser(b)) && p + 4 * Words(b) <= |s| && GetOffsets(strings) == Some(offs)
    ensures var r := ParseBody(s, b, p, false, strings, offs, NothingParsed());
            r.Err? ==>
              3 <= r.code <= 5 && ComplainsOf(r.code, Props(b), Nodes(b), Ept.MAX_PARTITIONS_COUNT, strings, offs)
  {
    hide At, Ser, ParseBody, GetOffsets, BadNodes, BadPhandles, BadProps;
    OffsetsAreApart(strings);
    RootComplains(s, b, p, strings, offs, NothingParsed());
  }

  lemma RootPropCode(s: Bytes, p: nat, nameOff: nat, length: nat, strings: Bytes, offs: Offsets, st: Parsed)
    requires p + length <= |s| && StOk(st, false) && RootProp(s, p, nameOff, length, strings, offs, st).Err?
    ensures RootProp(s, p, nameOff, length, strings, offs, st) == Err(5)
  {
  }

  lemma PartitionComplains(s: Bytes, b: Body, p: nat, strings: Bytes, offs: Offsets, st: Parsed)
    requires b.Node? && Wf(b) && StOk(st, false) && At(s, p, Ser(b)) && p + 4 * Words(b) <= |s| && OffsetsApart(offs)
    requires |st.partitions| >= Ept.MAX_PARTITIONS_COUNT || !PartitionNode(Tree(b.name, b.pad, b.child), offs)
    ensures var c, r := Tree(b.name, b.pad, b.child), ParseBody(s, b, p, false, strings, offs, st);
            && r.Err?
            && Complains(r.code, |st.partitions| >= Ept.MAX_PARTITIONS_COUNT || BadNode(c),
                         !SamePhandles(EntryOfNode(c, offs)), !AllPartProps(Props(c.body), c.name, offs))
  {
    hide At, Ser, Steps, PartProp, Updated, SamePhandles, IsNodeAt;
    var c := Tree(b.name, b.pad, b.child);
    PartitionMeans(s, b, p, strings, offs, st);
    NodeParts(b);
    ParseBegin(s, b, p, false, strings, offs, st);
    EnterNode(s, p, b);
    hide ParseBody;
    if Begin(st, b.name).Ok? {
      var q, st1 := p + 4 + 4 * Steps(|b.name| + 1), Begin(st, b.name).value;
      assert st1.partitions[|st.partitions|] == Entry(b.name, 0, 0, 0, 0);
      ChildMeans(s, b.child, q, strings, offs, st1);
      ChildComplains(s, b.child, q, strings, offs, st1);
    }
  }
}
