/** The partitions node of src/dts.c: how it is parsed, sorted and composed. */
module Partitions {
  import opened Util
  import opened Fdt
  import opened Walk
  import opened StringBlock
  import Literal
  import Ept

  /** struct dts_partition_entry; numbers are as read from memory. */
  datatype Entry = Entry(name: Bytes, size: nat, mask: nat, phandle: nat, linux: nat)

  /** struct dts_partitions_helper. */
  datatype Parsed = Parsed(partitions: seq<Entry>, phandleRoot: nat, linuxRoot: nat, phandles: seq<nat>,
                           recordCount: nat)

  function NothingParsed(): Parsed {
    Parsed([], 0, 0, seq(Ept.MAX_PARTITIONS_COUNT, _ => 0), 0)
  }

  /** struct dts_stringblock_essential_offsets; linux,phandle is optional. */
  datatype Offsets = Offsets(parts: nat, pname: nat, size: nat, mask: nat, phandle: nat, linux: Option<nat>)

  /** dts_get_partitions_get_essential_offsets. */
  function GetOffsets(strings: Bytes): Option<Offsets> {
    match (Find(strings, "parts"), Find(strings, "pname"), Find(strings, "size"), Find(strings, "mask"),
           Find(strings, "phandle"))
    case (Some(parts), Some(pname), Some(size), Some(mask), Some(phandle)) =>
      Some(Offsets(parts, pname, size, mask, phandle, Find(strings, "linux,phandle")))
    case _ => None
  }

  // ---- One step of the parser ----

  /** dts_parse_partitions_node_begin. */
  function Begin(st: Parsed, name: Bytes): Result<Parsed> {
    if |st.partitions| >= Ept.MAX_PARTITIONS_COUNT || |name| > 15 then Err(3)
    else Ok(st.(partitions := st.partitions + [Entry(name, 0, 0, 0, 0)]))
  }

  /** dts_parse_partitions_node_end. */
  predicate EndOk(e: Entry) {
    !(e.phandle != 0 && e.linux != 0 && e.phandle != e.linux)
  }

  /** dts_parse_partitions_node_prop_root, for a value at p. */
  function RootProp(s: Bytes, p: nat, nameOff: nat, length: nat, strings: Bytes, offs: Offsets,
                    st: Parsed): Result<Parsed>
    requires p + length <= |s| && |st.phandles| == Ept.MAX_PARTITIONS_COUNT
  {
    if length != 4 then Err(5)
    else if nameOff == offs.parts then Ok(st.(recordCount := Read32(s, p)))
    else if nameOff == offs.phandle then Ok(st.(phandleRoot := Read32(s, p)))
    else if offs.linux == Some(nameOff) then Ok(st.(linuxRoot := Read32(s, p)))
    else
      var name := StringAt(strings, nameOff);
      if !("part-" <= name) then Err(5)
      else
        var id := Literal.Strtoul(name[5..], 10).0;
        if id > Ept.MAX_PARTITIONS_COUNT - 1 then Err(5)
        else Ok(st.(phandles := st.phandles[id := Read32(s, p)]))
  }

  /** dts_parse_partitions_node_prop_child, for a value at p. */
  function ChildProp(s: Bytes, p: nat, nameOff: nat, length: nat, offs: Offsets, e: Entry): Result<Entry>
    requires p + length <= |s|
  {
    if nameOff == offs.pname then
      if length > 16 || StringAt(s, p) != e.name then Err(5) else Ok(e)
    else if nameOff == offs.size then
      if length == 8 then Ok(e.(size := Read32(s, p) * U32_LIMIT + Read32(s, p + 4))) else Err(5)
    else if length != 4 then Err(5)
    else if nameOff == offs.mask then Ok(e.(mask := Read32(s, p)))
    else if nameOff == offs.phandle then Ok(e.(phandle := Read32(s, p)))
    else if offs.linux == Some(nameOff) then Ok(e.(linux := Read32(s, p)))
    else Err(5)
  }

  /** dts_parse_partitions_node_prop. */
  function PropStep(s: Bytes, p: nat, nameOff: nat, length: nat, strings: Bytes, offs: Offsets, inPartition: bool,
                    st: Parsed): (r: Result<Parsed>)
    requires p + length <= |s| && StOk(st, inPartition)
    ensures r.Ok? ==> StOk(r.value, inPartition)
  {
    if inPartition then
      var last := |st.partitions| - 1;
      match ChildProp(s, p, nameOff, length, offs, st.partitions[last])
      case Err(code) => Err(code)
      case Ok(e) => Ok(st.(partitions := st.partitions[last := e]))
    else RootProp(s, p, nameOff, length, strings, offs, st)
  }

  // ---- The parser on the tree ----

  predicate StOk(st: Parsed, inPartition: bool) {
    |st.phandles| == Ept.MAX_PARTITIONS_COUNT && (inPartition ==> st.partitions != [])
  }

  /** What parsing a body at p yields, on top of what was parsed before. */
  function ParseBody(s: Bytes, b: Body, p: nat, inPartition: bool, strings: Bytes, offs: Offsets,
                     st: Parsed): (r: Result<Parsed>)
    requires Wf(b) && StOk(st, inPartition) && p + 4 * Words(b) <= |s|
    ensures r.Ok? ==> StOk(r.value, inPartition)
    decreases b
  {
    match b
    case End =>
      if inPartition && !EndOk(st.partitions[|st.partitions| - 1]) then Err(4) else Ok(st)
    case Nop(rest) => ParseBody(s, rest, p + 4, inPartition, strings, offs, st)
    case Prop(nameOff, value, pad, rest) =>
      StepsCover(|value|);
      (match PropStep(s, p + 12, nameOff, |value|, strings, offs, inPartition, st)
       case Err(code) => Err(code)
       case Ok(st') => ParseBody(s, rest, p + 12 + 4 * Steps(|value|), inPartition, strings, offs, st'))
    case Node(name, _, child, rest) =>
      if inPartition then Err(3)
      else
        match Begin(st, name)
        case Err(code) => Err(code)
        case Ok(st1) =>
          match ParseBody(s, child, p + 4 + 4 * Steps(|name| + 1), true, strings, offs, st1)
          case Err(code) => Err(code)
          case Ok(st2) => ParseBody(s, rest, p + 4 + 4 * Steps(|name| + 1) + 4 * Words(child), false, strings, offs,
                                    st2)
  }

  lemma StepsCover(length: nat)
    ensures length <= 4 * Steps(length)
  {
    PadToWord(length);
  }

  /** Parsing gets to a node before anything fails: from then on the count of partitions is not 0. */
  predicate ReachesNode(s: Bytes, b: Body, p: nat, strings: Bytes, offs: Offsets, st: Parsed)
    requires Wf(b) && StOk(st, false) && p + 4 * Words(b) <= |s|
    decreases b
  {
    match b
    case End => false
    case Nop(rest) => ReachesNode(s, rest, p + 4, strings, offs, st)
    case Prop(nameOff, value, _, rest) =>
      StepsCover(|value|);
      (match PropStep(s, p + 12, nameOff, |value|, strings, offs, false, st)
       case Err(_) => false
       case Ok(st') => ReachesNode(s, rest, p + 12 + 4 * Steps(|value|), strings, offs, st'))
    case Node(_, _, _, _) => true
  }

  lemma PropCount(s: Bytes, p: nat, nameOff: nat, length: nat, strings: Bytes, offs: Offsets, inPartition: bool,
                  st: Parsed)
    requires p + length <= |s| && StOk(st, inPartition)
    ensures var r := PropStep(s, p, nameOff, length, strings, offs, inPartition, st); r.Ok? ==>
              |r.value.partitions| == |st.partitions|
  {
    hide ChildProp;
  }

  // ---- What a node means ----

  datatype Property = Property(nameOff: u32, value: Bytes, pad: Bytes)

  /** The properties of a node, wherever they stand among its children. */
  function Props(b: Body): seq<Property> {
    match b
    case End => []
    case Nop(rest) => Props(rest)
    case Prop(nameOff, value, pad, rest) => [Property(nameOff, value, pad)] + Props(rest)
    case Node(_, _, _, rest) => Props(rest)
  }

  function Nodes(b: Body): seq<Tree> {
    match b
    case End => []
    case Nop(rest) => Nodes(rest)
    case Prop(_, _, _, rest) => Nodes(rest)
    case Node(name, pad, child, rest) => [Tree(name, pad, child)] + Nodes(rest)
  }

  /** The value of the last property with this name offset. */
  function LastValue(ps: seq<Property>, nameOff: nat): Option<Bytes> {
    if ps == [] then None
    else if LastValue(ps[1..], nameOff).Some? then LastValue(ps[1..], nameOff)
    else if ps[0].nameOff == nameOff then Some(ps[0].value)
    else None
  }

  /** A big-endian number of any length. */
  function Number(value: Bytes): nat {
    if value == [] then 0 else Number(value[..|value| - 1]) * 0x100 + value[|value| - 1] as nat
  }

  function NumberOr(value: Option<Bytes>, default: nat): nat {
    match value case None => default case Some(v) => Number(v)
  }

  /** The text of a value; the padding is read if there is no NUL before it. */
  function TextOf(p: Property): Bytes {
    StringAt(p.value + p.pad, 0)
  }

  /** A property that a partition may have: its name, or a number of the right length. */
  predicate PartProp(p: Property, name: Bytes, offs: Offsets) {
    || (p.nameOff == offs.pname && |p.value| <= 16 && TextOf(p) == name)
    || (p.nameOff == offs.size && |p.value| == 8)
    || (p.nameOff in {offs.mask, offs.phandle} && |p.value| == 4)
    || (offs.linux == Some(p.nameOff as nat) && |p.value| == 4)
  }

  /** Its two phandles are the same, or one of them is 0. */
  predicate SamePhandles(e: Entry) {
    e.phandle == e.linux || e.phandle == 0 || e.linux == 0
  }

  function LinuxValue(ps: seq<Property>, offs: Offsets): Option<Bytes> {
    match offs.linux case None => None case Some(off) => LastValue(ps, off)
  }

  /** What the properties make of an entry: the last one of each kind counts, in whatever order they stand. */
  function Updated(e: Entry, ps: seq<Property>, offs: Offsets): Entry {
    Entry(e.name, NumberOr(LastValue(ps, offs.size), e.size), NumberOr(LastValue(ps, offs.mask), e.mask),
          NumberOr(LastValue(ps, offs.phandle), e.phandle), NumberOr(LinuxValue(ps, offs), e.linux))
  }

  function EntryOfNode(c: Tree, offs: Offsets): Entry {
    Updated(Entry(c.name, 0, 0, 0, 0), Props(c.body), offs)
  }

  /** A node that describes a partition. */
  predicate PartitionNode(c: Tree, offs: Offsets) {
    && |c.name| <= 15 && Nodes(c.body) == []
    && (forall p :: p in Props(c.body) ==> PartProp(p, c.name, offs))
    && SamePhandles(EntryOfNode(c, offs))
  }

  /** Which record a property of the partitions node is by its name: N of "part-N". */
  function RecordOf(p: Property, strings: Bytes, offs: Offsets): Option<nat> {
    var name := StringAt(strings, p.nameOff);
    if p.nameOff in {offs.parts, offs.phandle} || offs.linux == Some(p.nameOff as nat) || !("part-" <= name) then None
    else Some(Literal.Strtoul(name[5..], 10).0)
  }

  predicate RootPropOk(p: Property, strings: Bytes, offs: Offsets) {
    && |p.value| == 4
    && (|| p.nameOff in {offs.parts, offs.phandle}
        || offs.linux == Some(p.nameOff as nat)
        || (RecordOf(p, strings, offs).Some? && RecordOf(p, strings, offs).value < Ept.MAX_PARTITIONS_COUNT))
  }

  /** The value of the last property that is record i. */
  function LastRecord(ps: seq<Property>, strings: Bytes, offs: Offsets, i: nat): Option<Bytes> {
    if ps == [] then None
    else if LastRecord(ps[1..], strings, offs, i).Some? then LastRecord(ps[1..], strings, offs, i)
    else if RecordOf(ps[0], strings, offs) == Some(i) then Some(ps[0].value)
    else None
  }

  /** The node and its children are as they have to be. */
  predicate NodeOk(b: Body, strings: Bytes, offs: Offsets) {
    && |Nodes(b)| <= Ept.MAX_PARTITIONS_COUNT
    && (forall p :: p in Props(b) ==> RootPropOk(p, strings, offs))
    && (forall c :: c in Nodes(b) ==> PartitionNode(c, offs))
  }

  /** What is then read from it: an entry for each child, and the last value of each kind of property, or 0. */
  predicate NodeMeans(b: Body, strings: Bytes, offs: Offsets, st: Parsed) {
    var ps := Props(b);
    && |st.partitions| == |Nodes(b)| && |st.phandles| == Ept.MAX_PARTITIONS_COUNT
    && (forall i :: 0 <= i < |Nodes(b)| ==> st.partitions[i] == EntryOfNode(Nodes(b)[i], offs))
    && st.recordCount == NumberOr(LastValue(ps, offs.parts), 0)
    && st.phandleRoot == NumberOr(LastValue(ps, offs.phandle), 0)
    && st.linuxRoot == NumberOr(LinuxValue(ps, offs), 0)
    && forall i :: 0 <= i < Ept.MAX_PARTITIONS_COUNT ==>
         st.phandles[i] == NumberOr(LastRecord(ps, strings, offs, i), 0)
  }

  // ---- The parser as a loop over tokens ----

  /** What is still to come: the rest of the current node at p, then, inside a partition, the rest of the partitions
      node. */
  ghost function Remaining(s: Bytes, p: nat, inPartition: bool, cur: Body, outer: Body, strings: Bytes, offs: Offsets,
                           st: Parsed): Result<Parsed>
    requires Wf(cur) && Wf(outer) && StOk(st, inPartition)
    requires p + 4 * Words(cur) + (if inPartition then 4 * Words(outer) else 0) <= |s|
  {
    if !inPartition then ParseBody(s, cur, p, false, strings, offs, st)
    else
      match ParseBody(s, cur, p, true, strings, offs, st)
      case Err(code) => Err(code)
      case Ok(st') => ParseBody(s, outer, p + 4 * Words(cur), false, strings, offs, st')
  }

  ghost predicate Parsing(s: Bytes, p: nat, inPartition: bool, cur: Body, outer: Body, strings: Bytes, offs: Offsets,
                          st: Parsed, goal: Result<Parsed>) {
    && Wf(cur) && Wf(outer) && StOk(st, inPartition)
    && At(s, p, Ser(cur)) && (inPartition ==> At(s, p + 4 * Words(cur), Ser(outer)))
    && p + 4 * Words(cur) + (if inPartition then 4 * Words(outer) else 0) <= |s|
    && goal == Remaining(s, p, inPartition, cur, outer, strings, offs, st)
  }

  lemma AtBody(s: Bytes, p: nat, b: Body)
    requires Wf(b) && At(s, p, Ser(b))
    ensures p + 4 * Words(b) <= |s|
  {
    SerLength(b);
  }

  lemma ParseStart(s: Bytes, p: nat, b: Body, strings: Bytes, offs: Offsets, st: Parsed)
    requires Wf(b) && At(s, p, Ser(b)) && StOk(st, false)
    ensures p + 4 * Words(b) <= |s|
    ensures Parsing(s, p, false, b, End, strings, offs, st, ParseBody(s, b, p, false, strings, offs, st))
  {
    hide At;
    AtBody(s, p, b);
  }

  lemma ParseLook(s: Bytes, p: nat, inPartition: bool, cur: Body, outer: Body, strings: Bytes, offs: Offsets,
                  st: Parsed, goal: Result<Parsed>)
    requires Parsing(s, p, inPartition, cur, outer, strings, offs, st, goal)
    ensures p + 4 <= |s| && Read32(s, p) == Token(cur) && StOk(st, inPartition)
  {
    hide At, ParseBody;
    AtToken(s, p, cur);
  }

  lemma ParseEnd(s: Bytes, p: nat, inPartition: bool, outer: Body, strings: Bytes, offs: Offsets, st: Parsed,
                 goal: Result<Parsed>)
    requires Parsing(s, p, inPartition, End, outer, strings, offs, st, goal)
    ensures !inPartition ==> goal == Ok(st)
    ensures inPartition && !EndOk(st.partitions[|st.partitions| - 1]) ==> goal == Err(4)
    ensures inPartition && EndOk(st.partitions[|st.partitions| - 1]) ==>
              Parsing(s, p + 4, false, outer, End, strings, offs, st, goal)
  {
    hide At;
  }

  lemma ParseNop(s: Bytes, p: nat, inPartition: bool, cur: Body, outer: Body, strings: Bytes, offs: Offsets, st: Parsed,
                 goal: Result<Parsed>)
    requires Parsing(s, p, inPartition, cur, outer, strings, offs, st, goal) && cur.Nop?
    ensures Parsing(s, p + 4, inPartition, cur.rest, outer, strings, offs, st, goal)
  {
    hide At;
    AtNop(s, p, Ser(cur.rest));
  }

  lemma ParseProp(s: Bytes, p: nat, inPartition: bool, cur: Body, outer: Body, strings: Bytes, offs: Offsets,
                  st: Parsed, goal: Result<Parsed>)
    requires Parsing(s, p, inPartition, cur, outer, strings, offs, st, goal) && cur.Prop?
    ensures p + 12 + |cur.value| <= |s| && Read32(s, p + 4) == |cur.value| && Read32(s, p + 8) == cur.nameOff
    ensures StOk(st, inPartition)
    ensures match PropStep(s, p + 12, cur.nameOff, |cur.value|, strings, offs, inPartition, st)
            case Err(code) => goal == Err(code)
            case Ok(st') => Parsing(s, p + 12 + 4 * Steps(|cur.value|), inPartition, cur.rest, outer, strings, offs,
                                    st', goal)
  {
    hide At, PropStep, Steps;
    AtProp(s, p, cur.nameOff, cur.value, cur.pad, Ser(cur.rest));
  }

  lemma ParseNode(s: Bytes, p: nat, inPartition: bool, cur: Body, outer: Body, strings: Bytes, offs: Offsets,
                  st: Parsed, goal: Result<Parsed>)
    requires Parsing(s, p, inPartition, cur, outer, strings, offs, st, goal) && cur.Node?
    ensures StringAt(s, p + 4) == cur.name
    ensures inPartition ==> goal == Err(3)
    ensures !inPartition ==>
              match Begin(st, cur.name)
              case Err(code) => goal == Err(code)
              case Ok(st') => Parsing(s, p + 4 + 4 * Steps(|cur.name| + 1), true, cur.child, cur.rest, strings, offs,
                                      st', goal)
  {
    hide At, Steps, ParseBody, Begin, Ser, IsNodeAt;
    EnterNode(s, p, cur);
    EnterNodeName(s, p + 4, Tree(cur.name, cur.pad, cur.child));
    SerLength(cur.child);
    NodeParts(cur);
    ParseBegin(s, cur, p, inPartition, strings, offs, st);
  }

  lemma NodeParts(b: Body)
    requires b.Node? && Wf(b)
    ensures Wf(b.child) && Wf(b.rest) && Words(b) == 1 + Steps(|b.name| + 1) + Words(b.child) + Words(b.rest)
  {
    hide Steps;
  }

  /** Parsing a node is parsing its contents and then the rest. */
  lemma ParseBegin(s: Bytes, b: Body, p: nat, inPartition: bool, strings: Bytes, offs: Offsets, st: Parsed)
    requires b.Node? && Wf(b) && StOk(st, inPartition) && p + 4 * Words(b) <= |s|
    ensures inPartition ==> ParseBody(s, b, p, inPartition, strings, offs, st) == Err(3)
    ensures Begin(st, b.name).Err? ==> Begin(st, b.name) == Err(3)
    ensures !inPartition ==>
              var r, q := ParseBody(s, b, p, inPartition, strings, offs, st), p + 4 + 4 * Steps(|b.name| + 1);
              match Begin(st, b.name)
              case Err(code) => r == Err(code)
              case Ok(st') => StOk(st', true) && r == Remaining(s, q, true, b.child, b.rest, strings, offs, st')
  {
    hide Steps;
  }

  lemma EnterNodeName(s: Bytes, p: nat, t: Tree)
    requires IsNodeAt(s, p, t)
    ensures StringAt(s, p) == t.name
  {
    Enter(s, p, t);
  }

  const PARTITIONS: Bytes := "partitions"

  /** A node whose first 12 bytes are the padded name is called so, and its contents start right after them. */
  lemma PartitionsStart(s: Bytes, node: nat, t: Tree)
    requires IsNodeAt(s, node, t) && node + 12 <= |s| && s[node..node + 12] == PARTITIONS + [NUL, NUL]
    ensures t.name == PARTITIONS && Wf(t.body) && At(s, node + 12, Ser(t.body))
  {
    hide Ser;
    assert At(s, node, PARTITIONS + [NUL, NUL]);
    assert PARTITIONS + [NUL, NUL] == PARTITIONS + [NUL] + [NUL];
    hide At;
    AtConcat(s, node, PARTITIONS + [NUL], [NUL]);
    ReadString(s, node, PARTITIONS);
    AtName(s, node, t.name, t.pad, Ser(t.body));
  }
}
