/** dts_compose_partitions_node and dts_sort_partitions (src/dts.c), and the round trip through the parser. */
module Compose {
  import opened Util
  import opened Ept
  import opened Fdt
  import opened Walk
  import opened StringBlock
  import opened Phandle
  import opened Partitions
  import Literal

  // ---- The node as a tree ----

  /** What is known about a partition when it is written: its strings-block offset for "part-N", its phandle, and the
      bytes malloc left behind the two copies of its name. */
  datatype Made = Made(part: DtsPart, offPartN: u32, phandle: u32, pad: Bytes, pnamePad: Bytes)

  /** The name offsets the composer uses. */
  datatype Names = Names(parts: u32, pname: u32, size: u32, mask: u32, phandle: u32, linux: u32)

  function Word(nameOff: u32, value: u32, rest: Body): Body {
    Prop(nameOff, BE32(value), [], rest)
  }

  function BE64(v: u64): Bytes {
    BE32(v / U32_LIMIT) + BE32(v % U32_LIMIT)
  }

  /** The contents of a partition's node. */
  function ChildBody(m: Made, names: Names, linux: bool): Body {
    Prop(names.pname, m.part.name + [NUL], m.pnamePad,
      Prop(names.size, BE64(m.part.size), [],
        Word(names.mask, m.part.mask,
          Word(names.phandle, m.phandle,
            if linux then Word(names.linux, m.phandle, End) else End))))
  }

  function ChildNodes(ms: seq<Made>, names: Names, linux: bool): Body {
    if ms == [] then End
    else Node(ms[0].part.name, ms[0].pad, ChildBody(ms[0], names, linux), ChildNodes(ms[1..], names, linux))
  }

  /** One "part-N" property per partition, holding its phandle. */
  function PartProps(ms: seq<Made>, rest: Body): Body {
    if ms == [] then rest else Word(ms[0].offPartN, ms[0].phandle, PartProps(ms[1..], rest))
  }

  function RootRest(ms: seq<Made>, root: u32, names: Names, linux: bool): Body {
    Word(names.phandle, root,
      if linux then Word(names.linux, root, ChildNodes(ms, names, linux)) else ChildNodes(ms, names, linux))
  }

  /** The contents of the partitions node. */
  function RootBody(ms: seq<Made>, root: u32, names: Names, linux: bool): Body
    requires |ms| < U32_LIMIT
  {
    Word(names.parts, |ms|, PartProps(ms, RootRest(ms, root, names, linux)))
  }

  predicate MadeOk(m: Made) {
    NameOk(m.part.name, m.pad) && WellPadded(|m.part.name| + 1, m.pnamePad) && |m.part.name| <= 15
  }

  predicate AllMadeOk(ms: seq<Made>) {
    forall i :: 0 <= i < |ms| ==> MadeOk(ms[i])
  }

  lemma WordWf(nameOff: u32, value: u32, rest: Body)
    ensures Wf(Word(nameOff, value, rest)) <==> Wf(rest)
  {
  }

  lemma ChildWf(m: Made, names: Names, linux: bool)
    requires MadeOk(m)
    ensures Wf(ChildBody(m, names, linux))
  {
    var last := if linux then Word(names.linux, m.phandle, End) else End;
    var phandle := Word(names.phandle, m.phandle, last);
    var mask := Word(names.mask, m.part.mask, phandle);
    assert Wf(last) && Wf(phandle) && Wf(mask);
    assert Wf(Prop(names.size, BE64(m.part.size), [], mask));
  }

  lemma {:induction false} NodesWf(ms: seq<Made>, names: Names, linux: bool)
    requires AllMadeOk(ms)
    ensures Wf(ChildNodes(ms, names, linux))
  {
    if ms != [] {
      ChildWf(ms[0], names, linux);
      NodesWf(ms[1..], names, linux);
    }
  }

  lemma {:induction false} PropsWf(ms: seq<Made>, rest: Body)
    requires Wf(rest)
    ensures Wf(PartProps(ms, rest))
  {
    if ms != [] {
      PropsWf(ms[1..], rest);
    }
  }

  lemma RootWf(ms: seq<Made>, root: u32, names: Names, linux: bool)
    requires AllMadeOk(ms) && |ms| < U32_LIMIT
    ensures Wf(RootBody(ms, root, names, linux))
  {
    NodesWf(ms, names, linux);
    var nodes := ChildNodes(ms, names, linux);
    WordWf(names.linux, root, nodes);
    WordWf(names.phandle, root, if linux then Word(names.linux, root, nodes) else nodes);
    PropsWf(ms, RootRest(ms, root, names, linux));
  }

  // ---- The node as text, in the order it is written ----

  function WordText(nameOff: u32, value: u32): Bytes {
    BE32(PROP) + BE32(4) + BE32(nameOff) + BE32(value)
  }

  function PnameText(m: Made, names: Names): Bytes
    requires MadeOk(m)
  {
    BE32(PROP) + BE32(|m.part.name| + 1) + BE32(names.pname) + NameBytes(m.part.name, m.pnamePad)
  }

  function SizeText(m: Made, names: Names): Bytes {
    BE32(PROP) + BE32(8) + BE32(names.size) + BE32(m.part.size / U32_LIMIT) + BE32(m.part.size % U32_LIMIT)
  }

  function LinuxText(value: u32, names: Names, linux: bool): Bytes {
    if linux then WordText(names.linux, value) else []
  }

  function ChildText(m: Made, names: Names, linux: bool): Bytes
    requires MadeOk(m)
  {
    BE32(BEGIN_NODE) + NameBytes(m.part.name, m.pad) + PnameText(m, names) + SizeText(m, names)
    + WordText(names.mask, m.part.mask) + WordText(names.phandle, m.phandle) + LinuxText(m.phandle, names, linux)
    + BE32(END_NODE)
  }

  function PartsText(ms: seq<Made>): Bytes {
    if ms == [] then []
    else
      var n := |ms| - 1;
      PartsText(ms[..n]) + WordText(ms[n].offPartN, ms[n].phandle)
  }

  function ChildrenText(ms: seq<Made>, names: Names, linux: bool): Bytes
    requires AllMadeOk(ms)
  {
    if ms == [] then []
    else
      var n := |ms| - 1;
      ChildrenText(ms[..n], names, linux) + ChildText(ms[n], names, linux)
  }

  /** Everything after the padded name. */
  function RootText(ms: seq<Made>, root: u32, names: Names, linux: bool): Bytes
    requires AllMadeOk(ms) && |ms| < U32_LIMIT
  {
    WordText(names.parts, |ms|) + PartsText(ms) + WordText(names.phandle, root) + LinuxText(root, names, linux)
    + ChildrenText(ms, names, linux)
  }

  lemma SerWord(nameOff: u32, value: u32, rest: Body)
    requires Wf(rest)
    ensures Wf(Word(nameOff, value, rest)) && Ser(Word(nameOff, value, rest)) == WordText(nameOff, value) + Ser(rest)
  {
    assert PropBytes(nameOff, BE32(value), []) == WordText(nameOff, value);
  }

  lemma SerLinux(value: u32, names: Names, linux: bool, rest: Body)
    requires Wf(rest)
    ensures var b := if linux then Word(names.linux, value, rest) else rest;
            Wf(b) && Ser(b) == LinuxText(value, names, linux) + Ser(rest)
  {
    SerWord(names.linux, value, rest);
    assert [] + Ser(rest) == Ser(rest);
  }

  lemma Assoc(a: Bytes, b: Bytes, c: Bytes)
    ensures a + b + c == a + (b + c)
  {
  }

  lemma Assoc6(a: Bytes, b: Bytes, c: Bytes, d: Bytes, e: Bytes, f: Bytes)
    ensures a + (b + (c + (d + (e + f)))) == a + b + c + d + e + f
  {
    Assoc(a, b, c + (d + (e + f)));
    Assoc(a + b, c, d + (e + f));
    Assoc(a + b + c, d, e + f);
    Assoc(a + b + c + d, e, f);
  }

  lemma Assoc8(a: Bytes, b: Bytes, c: Bytes, d: Bytes, e: Bytes, f: Bytes, g: Bytes, h: Bytes)
    ensures a + (b + (c + (d + (e + (f + (g + h)))))) == a + b + c + d + e + f + g + h
  {
    Assoc6(a, b, c, d, e, f + (g + h));
    Assoc(a + b + c + d + e, f, g + h);
    Assoc(a + b + c + d + e + f, g, h);
  }

  lemma SerChild(m: Made, names: Names, linux: bool)
    requires MadeOk(m)
    ensures Wf(ChildBody(m, names, linux))
    ensures BE32(BEGIN_NODE) + (NameBytes(m.part.name, m.pad) + Ser(ChildBody(m, names, linux)))
              == ChildText(m, names, linux)
  {
    hide Ser, BE32, WordText, NameBytes, PnameText, SizeText;
    ChildWf(m, names, linux);
    SerChildProps(m, names, linux);
    var b, n, x, y := BE32(BEGIN_NODE), NameBytes(m.part.name, m.pad), PnameText(m, names), SizeText(m, names);
    var u, v, w, e := WordText(names.mask, m.part.mask), WordText(names.phandle, m.phandle),
        LinuxText(m.phandle, names, linux), BE32(END_NODE);
    Assoc8(b, n, x, y, u, v, w, e);
  }

  lemma SerChildProps(m: Made, names: Names, linux: bool)
    requires MadeOk(m) && Wf(ChildBody(m, names, linux))
    ensures Ser(ChildBody(m, names, linux)) ==
            PnameText(m, names) + (SizeText(m, names) + (WordText(names.mask, m.part.mask)
            + (WordText(names.phandle, m.phandle) + (LinuxText(m.phandle, names, linux) + BE32(END_NODE)))))
  {
    SerLinux(m.phandle, names, linux, End);
    var last := if linux then Word(names.linux, m.phandle, End) else End;
    SerWord(names.phandle, m.phandle, last);
    var phandle := Word(names.phandle, m.phandle, last);
    SerWord(names.mask, m.part.mask, phandle);
    var mask := Word(names.mask, m.part.mask, phandle);
    var size := Prop(names.size, BE64(m.part.size), [], mask);
    assert PropBytes(names.size, BE64(m.part.size), []) == SizeText(m, names);
    assert Wf(size) && Ser(size) == SizeText(m, names) + Ser(mask);
    SerPname(m, names, size);
  }

  lemma SerPname(m: Made, names: Names, rest: Body)
    requires MadeOk(m) && Wf(rest)
    ensures var b := Prop(names.pname, m.part.name + [NUL], m.pnamePad, rest);
            Wf(b) && Ser(b) == PnameText(m, names) + Ser(rest)
  {
    assert PropBytes(names.pname, m.part.name + [NUL], m.pnamePad) == PnameText(m, names);
  }

  /** Writing the "part-N" properties one after another writes them all. */
  lemma {:induction false} SerParts(ms: seq<Made>, k: nat, rest: Body)
    requires k <= |ms| && Wf(rest)
    ensures Wf(PartProps(ms[k..], rest))
    ensures PartsText(ms[..k]) + Ser(PartProps(ms[k..], rest)) == PartsText(ms) + Ser(rest)
    decreases |ms| - k
  {
    PropsWf(ms[k..], rest);
    if k == |ms| {
      assert ms[..k] == ms && ms[k..] == [];
    } else {
      SerParts(ms, k + 1, rest);
      assert ms[k..][0] == ms[k] && ms[k..][1..] == ms[k + 1..];
      assert ms[..k + 1][..k] == ms[..k];
      SerWord(ms[k].offPartN, ms[k].phandle, PartProps(ms[k + 1..], rest));
      Assoc(PartsText(ms[..k]), WordText(ms[k].offPartN, ms[k].phandle), Ser(PartProps(ms[k + 1..], rest)));
    }
  }

  lemma {:induction false} SerNodes(ms: seq<Made>, k: nat, names: Names, linux: bool)
    requires k <= |ms| && AllMadeOk(ms)
    ensures Wf(ChildNodes(ms[k..], names, linux))
    ensures ChildrenText(ms[..k], names, linux) + Ser(ChildNodes(ms[k..], names, linux))
              == ChildrenText(ms, names, linux) + BE32(END_NODE)
    decreases |ms| - k
  {
    hide ChildText, Ser, ChildrenText, ChildNodes, AllMadeOk, MadeOk, Wf, BE32;
    SomeMadeOk(ms, k);
    NodesWf(ms[k..], names, linux);
    if k == |ms| {
      assert ms[..k] == ms && ms[k..] == [];
      NoMoreNodes(names, linux);
    } else {
      SerNodes(ms, k + 1, names, linux);
      SerNodeStep(ms, k, names, linux);
      Assoc(ChildrenText(ms[..k], names, linux), ChildText(ms[k], names, linux),
            Ser(ChildNodes(ms[k + 1..], names, linux)));
    }
  }

  lemma SomeMadeOk(ms: seq<Made>, k: nat)
    requires k <= |ms| && AllMadeOk(ms)
    ensures AllMadeOk(ms[..k]) && AllMadeOk(ms[k..])
  {
  }

  lemma NoMoreNodes(names: Names, linux: bool)
    ensures ChildNodes([], names, linux) == End && Ser(ChildNodes([], names, linux)) == BE32(END_NODE)
  {
  }

  lemma SerNodeStep(ms: seq<Made>, k: nat, names: Names, linux: bool)
    requires k < |ms| && AllMadeOk(ms)
    ensures MadeOk(ms[k]) && Wf(ChildNodes(ms[k..], names, linux)) && Wf(ChildNodes(ms[k + 1..], names, linux))
    ensures Ser(ChildNodes(ms[k..], names, linux)) == ChildText(ms[k], names, linux)
              + Ser(ChildNodes(ms[k + 1..], names, linux))
    ensures ChildrenText(ms[..k + 1], names, linux) == ChildrenText(ms[..k], names, linux)
              + ChildText(ms[k], names, linux)
  {
    hide BE32, ChildText, ChildBody, NameBytes;
    NodesWf(ms[k..], names, linux);
    NodesWf(ms[k + 1..], names, linux);
    assert ms[k..][0] == ms[k] && ms[k..][1..] == ms[k + 1..];
    assert ms[..k + 1][..k] == ms[..k];
    SerChild(ms[k], names, linux);
  }

  /** The text written is the serialised tree, but for the END_NODE that the caller adds. */
  lemma SerRoot(ms: seq<Made>, root: u32, names: Names, linux: bool)
    requires AllMadeOk(ms) && |ms| < U32_LIMIT
    ensures Wf(RootBody(ms, root, names, linux))
    ensures Ser(RootBody(ms, root, names, linux)) == RootText(ms, root, names, linux) + BE32(END_NODE)
  {
    hide BE32, WordText, ChildText, ChildBody, NameBytes, Ser, LinuxText;
    RootWf(ms, root, names, linux);
    assert ms[0..] == ms && ms[..0] == [];
    NodesWf(ms, names, linux);
    SerNodes(ms, 0, names, linux);
    var nodes := ChildNodes(ms, names, linux);
    assert Ser(nodes) == ChildrenText(ms, names, linux) + BE32(END_NODE) by {
      assert ChildrenText([], names, linux) + Ser(nodes) == Ser(nodes);
    }
    SerLinux(root, names, linux, nodes);
    var linuxed := if linux then Word(names.linux, root, nodes) else nodes;
    SerWord(names.phandle, root, linuxed);
    var rest := RootRest(ms, root, names, linux);
    SerParts(ms, 0, rest);
    assert Ser(PartProps(ms, rest)) == PartsText(ms) + Ser(rest) by {
      assert PartsText([]) + Ser(PartProps(ms, rest)) == Ser(PartProps(ms, rest));
    }
    SerWord(names.parts, |ms|, PartProps(ms, rest));
    var a, b, c, d, f, e := WordText(names.parts, |ms|), PartsText(ms), WordText(names.phandle, root),
        LinuxText(root, names, linux),
      ChildrenText(ms, names, linux), BE32(END_NODE);
    Assoc6(a, b, c, d, f, e);
  }

  // ---- Writing the node through a moving pointer ----

  method PutWord(buffer: array<char>, at: nat, value: u32) returns (next: nat)
    requires at + 4 <= buffer.Length
    modifies buffer
    ensures next == at + 4 && buffer[..next] == old(buffer[..at]) + BE32(value)
  {
    var word := BE32(value);
    buffer[at], buffer[at + 1], buffer[at + 2], buffer[at + 3] := word[0], word[1], word[2], word[3];
    next := at + 4;
  }

  /** strncpy of the name with its NUL; the pointer then moves to the next word, over bytes that keep what they held. */
  method PutName(buffer: array<char>, at: nat, name: Bytes) returns (next: nat, ghost pad: Bytes)
    requires at + 4 * Steps(|name| + 1) <= buffer.Length
    modifies buffer
    ensures next == at + 4 * Steps(|name| + 1) && WellPadded(|name| + 1, pad)
    ensures buffer[..next] == old(buffer[..at]) + NameBytes(name, pad)
  {
    PadToWord(|name| + 1);
    forall k | 0 <= k < |name| + 1 {
      buffer[at + k] := if k < |name| then name[k] else NUL;
    }
    next := AlignUp(|name| + 1, 4);
    next := at + next;
    pad := buffer[at + |name| + 1..next];
    assert buffer[at..at + |name| + 1] == name + [NUL];
  }

  /** dts_add_property_be32. */
  method AddProperty(buffer: array<char>, at: nat, nameOff: u32, value: u32) returns (next: nat)
    requires at + 16 <= buffer.Length
    modifies buffer
    ensures next == at + 16 && buffer[..next] == old(buffer[..at]) + WordText(nameOff, value)
  {
    hide BE32;
    ghost var text := buffer[..at];
    next := PutWord(buffer, at, PROP);
    next := PutWord(buffer, next, 4);
    next := PutWord(buffer, next, nameOff);
    next := PutWord(buffer, next, value);
    Assoc5(text, BE32(PROP), BE32(4), BE32(nameOff), BE32(value));
  }

  lemma Assoc5(t: Bytes, a: Bytes, b: Bytes, c: Bytes, d: Bytes)
    ensures t + a + b + c + d == t + (a + b + c + d)
  {
    Assoc(t, a, b);
    Assoc(t, a + b, c);
    Assoc(t, a + b + c, d);
  }

  function LinuxLen(linux: bool): nat {
    if linux then 16 else 0
  }

  /** The bytes of a partition's node, as the composer predicts them. */
  function ChildLen(part: DtsPart, linux: bool): nat {
    8 + 12 * 4 + 8 + 4 + 4 + LinuxLen(linux) + 2 * (4 * Steps(|part.name| + 1))
  }

  method PutPname(buffer: array<char>, at: nat, part: DtsPart, names: Names, ghost pad: Bytes, ghost offPartN: u32,
                  ghost phandle: u32)
    returns (next: nat, ghost m: Made)
    requires NameOk(part.name, pad) && |part.name| <= 15 && at + 12 + 4 * Steps(|part.name| + 1) <= buffer.Length
    modifies buffer
    ensures MadeOk(m) && m == Made(part, offPartN, phandle, pad, m.pnamePad)
    ensures next == at + 12 + 4 * Steps(|part.name| + 1) && buffer[..next] == old(buffer[..at]) + PnameText(m, names)
  {
    hide BE32, NameBytes;
    ghost var text := buffer[..at];
    ghost var pnamePad;
    next := PutWord(buffer, at, PROP);
    next := PutWord(buffer, next, |part.name| + 1);
    next := PutWord(buffer, next, names.pname);
    next, pnamePad := PutName(buffer, next, part.name);
    m := Made(part, offPartN, phandle, pad, pnamePad);
    Assoc5(text, BE32(PROP), BE32(|part.name| + 1), BE32(names.pname), NameBytes(part.name, pnamePad));
  }

  method PutSize(buffer: array<char>, at: nat, part: DtsPart, names: Names, ghost m: Made) returns (next: nat)
    requires at + 20 <= buffer.Length && m.part == part
    modifies buffer
    ensures next == at + 20 && buffer[..next] == old(buffer[..at]) + SizeText(m, names)
  {
    hide BE32;
    ghost var text := buffer[..at];
    next := PutWord(buffer, at, PROP);
    next := PutWord(buffer, next, 8);
    next := PutWord(buffer, next, names.size);
    next := PutWord(buffer, next, part.size / U32_LIMIT);
    next := PutWord(buffer, next, part.size % U32_LIMIT);
    Assoc5(text, BE32(PROP), BE32(8), BE32(names.size), BE32(part.size / U32_LIMIT));
    Assoc(text, BE32(PROP) + BE32(8) + BE32(names.size) + BE32(part.size / U32_LIMIT), BE32(part.size % U32_LIMIT));
  }

  method PutLinux(buffer: array<char>, at: nat, value: u32, names: Names, linux: bool) returns (next: nat)
    requires at + LinuxLen(linux) <= buffer.Length
    modifies buffer
    ensures next == at + LinuxLen(linux) && buffer[..next] == old(buffer[..at]) + LinuxText(value, names, linux)
  {
    next := at;
    if linux {
      next := AddProperty(buffer, at, names.linux, value);
    }
  }

  /** One turn of the loop of lines 1221-1249. */
  method PutChild(buffer: array<char>, at: nat, part: DtsPart, offPartN: u32, phandle: u32, names: Names, linux: bool)
    returns (next: nat, ghost m: Made)
    requires NUL !in part.name && |part.name| <= 15 && at + ChildLen(part, linux) <= buffer.Length
    modifies buffer
    ensures MadeOk(m) && m.part == part && m.offPartN == offPartN && m.phandle == phandle
    ensures next == at + ChildLen(part, linux) && buffer[..next] == old(buffer[..at]) + ChildText(m, names, linux)
  {
    hide BE32, NameBytes, PnameText, SizeText, WordText, LinuxText, Steps;
    ghost var text := buffer[..at];
    ghost var pad;
    next := PutWord(buffer, at, BEGIN_NODE);
    next, pad := PutName(buffer, next, part.name);
    next, m := PutPname(buffer, next, part, names, pad, offPartN, phandle);
    next := PutSize(buffer, next, part, names, m);
    next := AddProperty(buffer, next, names.mask, part.mask);
    next := AddProperty(buffer, next, names.phandle, phandle);
    next := PutLinux(buffer, next, phandle, names, linux);
    next := PutWord(buffer, next, END_NODE);
    Assoc9(text, BE32(BEGIN_NODE), NameBytes(part.name, pad), PnameText(m, names), SizeText(m, names),
           WordText(names.mask, part.mask), WordText(names.phandle, phandle), LinuxText(phandle, names, linux),
             BE32(END_NODE));
  }

  lemma Assoc9(t: Bytes, a: Bytes, b: Bytes, c: Bytes, d: Bytes, e: Bytes, f: Bytes, g: Bytes, h: Bytes)
    ensures t + a + b + c + d + e + f + g + h == t + (a + b + c + d + e + f + g + h)
  {
    Assoc5(t, a, b, c, d);
    Assoc5(t, a + b + c + d, e, f, g);
    Assoc(t, a + b + c + d + e + f + g, h);
  }

  function ChildrenLen(parts: seq<DtsPart>, linux: bool): nat {
    if parts == [] then 0
    else
      var n := |parts| - 1;
      ChildrenLen(parts[..n], linux) + ChildLen(parts[n], linux)
  }

  lemma {:induction false} ChildrenLenMono(parts: seq<DtsPart>, k: nat, linux: bool)
    requires k < |parts|
    ensures ChildrenLen(parts[..k], linux) + ChildLen(parts[k], linux) <= ChildrenLen(parts, linux)
    decreases |parts|
  {
    hide ChildLen;
    var n := |parts| - 1;
    if k == n {
      assert parts[..k] == parts[..n];
    } else {
      ChildrenLenMono(parts[..n], k, linux);
      assert parts[..n][..k] == parts[..k];
    }
  }

  /** The whole node, without BEGIN_NODE and END_NODE. */
  function NodeLen(parts: seq<DtsPart>, linux: bool): nat {
    12 + 16 * (1 + |parts| + 1) + LinuxLen(linux) + ChildrenLen(parts, linux)
  }

  /** What is decided about each partition before anything is written. */
  datatype Id = Id(offPartN: u32, phandle: u32)

  ghost predicate MadeFrom(ms: seq<Made>, parts: seq<DtsPart>, ids: seq<Id>) {
    && |ms| == |parts| == |ids|
    && forall i :: 0 <= i < |ms| ==>
         ms[i].part == parts[i] && ms[i].offPartN == ids[i].offPartN && ms[i].phandle == ids[i].phandle
  }

  function IdText(ids: seq<Id>): Bytes {
    if ids == [] then []
    else
      var n := |ids| - 1;
      IdText(ids[..n]) + WordText(ids[n].offPartN, ids[n].phandle)
  }

  lemma {:induction false} IdTextIsPartsText(ms: seq<Made>, parts: seq<DtsPart>, ids: seq<Id>)
    requires MadeFrom(ms, parts, ids)
    ensures IdText(ids) == PartsText(ms)
    decreases |ms|
  {
    if ms != [] {
      var n := |ms| - 1;
      IdTextIsPartsText(ms[..n], parts[..n], ids[..n]);
    }
  }

  /** The root properties, lines 1210-1220. */
  method PutRoot(buffer: array<char>, ids: seq<Id>, root: u32, names: Names, linux: bool) returns (next: nat)
    requires |ids| < U32_LIMIT && 12 + 16 * (1 + |ids| + 1) + LinuxLen(linux) <= buffer.Length
    modifies buffer
    ensures next == 12 + 16 * (1 + |ids| + 1) + LinuxLen(linux)
    ensures buffer[..next] == PARTITIONS + [NUL, NUL]
              + (WordText(names.parts, |ids|) + IdText(ids) + WordText(names.phandle, root)
                 + LinuxText(root, names, linux))
  {
    hide WordText, LinuxText;
    var start := PARTITIONS + [NUL, NUL];
    forall k | 0 <= k < 12 {
      buffer[k] := start[k];
    }
    assert buffer[..12] == start;
    next := AddProperty(buffer, 12, names.parts, |ids|);
    for i := 0 to |ids|
      invariant next == 12 + 16 * (1 + i)
      invariant buffer[..next] == start + WordText(names.parts, |ids|) + IdText(ids[..i])
    {
      next := AddProperty(buffer, next, ids[i].offPartN, ids[i].phandle);
      assert ids[..i + 1][..i] == ids[..i];
      Assoc(start + WordText(names.parts, |ids|), IdText(ids[..i]), WordText(ids[i].offPartN, ids[i].phandle));
    }
    assert ids[..|ids|] == ids;
    next := AddProperty(buffer, next, names.phandle, root);
    next := PutLinux(buffer, next, root, names, linux);
    Assoc5(start, WordText(names.parts, |ids|), IdText(ids), WordText(names.phandle, root),
           LinuxText(root, names, linux));
  }

  /** Lines 1221-1249. */
  method WriteChildren(buffer: array<char>, start: nat, parts: seq<DtsPart>, ids: seq<Id>, names: Names, linux: bool)
    returns (next: nat, ghost ms: seq<Made>)
    requires |ids| == |parts| && start + ChildrenLen(parts, linux) <= buffer.Length
    requires forall i :: 0 <= i < |parts| ==> NUL !in parts[i].name && |parts[i].name| <= 15
    modifies buffer
    ensures AllMadeOk(ms) && MadeFrom(ms, parts, ids)
    ensures next == start + ChildrenLen(parts, linux)
    ensures buffer[..next] == old(buffer[..start]) + ChildrenText(ms, names, linux)
  {
    hide ChildText, ChildLen, ChildrenText, MadeFrom, AllMadeOk, MadeOk;
    ghost var head := buffer[..start];
    next, ms := start, [];
    NoneMade(parts, ids, names, linux, head);
    for i := 0 to |parts|
      invariant next == start + ChildrenLen(parts[..i], linux) <= buffer.Length
      invariant AllMadeOk(ms) && MadeFrom(ms, parts[..i], ids[..i])
      invariant buffer[..next] == head + ChildrenText(ms, names, linux)
    {
      ChildrenLenMono(parts, i, linux);
      ghost var m;
      next, m := PutChild(buffer, next, parts[i], ids[i].offPartN, ids[i].phandle, names, linux);
      Assoc(head, ChildrenText(ms, names, linux), ChildText(m, names, linux));
      OneMade(ms, m, parts, ids, i, names, linux);
      assert parts[..i + 1][..i] == parts[..i];
      ms := ms + [m];
    }
    assert parts[..|parts|] == parts && ids[..|ids|] == ids;
  }

  lemma NoneMade(parts: seq<DtsPart>, ids: seq<Id>, names: Names, linux: bool, head: Bytes)
    ensures AllMadeOk([]) && MadeFrom([], parts[..0], ids[..0]) && head == head + ChildrenText([], names, linux)
  {
  }

  lemma OneMade(ms: seq<Made>, m: Made, parts: seq<DtsPart>, ids: seq<Id>, i: nat, names: Names, linux: bool)
    requires i < |parts| == |ids| && AllMadeOk(ms) && MadeFrom(ms, parts[..i], ids[..i])
    requires MadeOk(m) && m.part == parts[i] && m.offPartN == ids[i].offPartN && m.phandle == ids[i].phandle
    ensures AllMadeOk(ms + [m]) && MadeFrom(ms + [m], parts[..i + 1], ids[..i + 1])
    ensures ChildrenText(ms + [m], names, linux) == ChildrenText(ms, names, linux) + ChildText(m, names, linux)
  {
    hide ChildText, MadeOk;
    assert (ms + [m])[..i] == ms;
  }

  /** Lines 1206-1249: allocate the node and write it; every byte is written but for the padding after names. */
  method WriteNode(parts: seq<DtsPart>, ids: seq<Id>, root: u32, names: Names, linux: bool, length: nat)
    returns (buffer: array<char>, ghost ms: seq<Made>)
    requires |ids| == |parts| < U32_LIMIT && length == NodeLen(parts, linux)
    requires forall i :: 0 <= i < |parts| ==> NUL !in parts[i].name && |parts[i].name| <= 15
    ensures fresh(buffer) && buffer.Length == length
    ensures AllMadeOk(ms) && MadeFrom(ms, parts, ids)
    ensures buffer[..] == PARTITIONS + [NUL, NUL] + RootText(ms, root, names, linux)
  {
    hide WordText, LinuxText, ChildText, ChildLen;
    buffer := new char[length];
    var next := PutRoot(buffer, ids, root, names, linux);
    next, ms := WriteChildren(buffer, next, parts, ids, names, linux);
    IdTextIsPartsText(ms, parts, ids);
    Assoc(PARTITIONS + [NUL, NUL], WordText(names.parts, |ids|) + IdText(ids) + WordText(names.phandle, root)
          + LinuxText(root, names, linux),
          ChildrenText(ms, names, linux));
    assert buffer[..next] == buffer[..];
  }

  // ---- Choosing offsets and phandles, then writing ----

  const ESSENTIALS: seq<Bytes> := ["parts", "pname", "size", "mask"]

  /** "part-NN": snprintf into three bytes keeps two digits. */
  function PartName(i: nat): (r: Bytes)
    ensures NUL !in r && 0 < |r| <= 7
  {
    TwoDigits(i % 100);
    "part-" + Literal.Dec(i % 100)
  }

  lemma TwoDigits(n: nat)
    requires n < 100
    ensures |Literal.Dec(n)| <= 2 && NUL !in Literal.Dec(n)
  {
    if n >= 10 {
      assert Literal.Dec(n) == [Literal.Digit(n / 10)] + [Literal.Digit(n % 10)];
    }
  }

  function PartNames(n: nat): seq<Bytes> {
    seq(n, i requires 0 <= i => PartName(i))
  }

  /** The phandles handed out: free before, not 0, different from each other, and with no free one left below any of
      them. */
  ghost predicate FreshPhandles(e: seq<Slot>, phandles: seq<u32>) {
    && (forall i :: 0 <= i < |phandles| ==> phandles[i] != 0 && !Held(e, phandles[i]))
    && (forall i, j :: 0 <= i < j < |phandles| ==> phandles[i] != phandles[j])
    && (forall i, h :: 0 <= i < |phandles| && 1 <= h < phandles[i] && !Held(e, h) ==> HandedOut(phandles, h))
  }

  ghost predicate HandedOut(phandles: seq<u32>, h: nat) {
    exists i :: 0 <= i < |phandles| && phandles[i] == h
  }

  /** Everything the composer decides: the node it writes, as a tree. */
  datatype Composed = Composed(ms: seq<Made>, root: u32, names: Names, linux: bool)

  ghost predicate ComposedFrom(c: Composed, parts: seq<DtsPart>, strings: Bytes, strings': Bytes, e: seq<Slot>,
                               offPhandle: int, offLinux: int) {
    var (b, offsets) := InternAll(strings, ESSENTIALS + PartNames(|parts|));
    && strings' == b && |offsets| == 4 + |parts|
    && AllMadeOk(c.ms) && |c.ms| == |parts| < U32_LIMIT
    && c.names == Names(offsets[0] % U32_LIMIT, offsets[1] % U32_LIMIT, offsets[2] % U32_LIMIT, offsets[3] % U32_LIMIT,
                        offPhandle % U32_LIMIT, offLinux % U32_LIMIT)
    && (forall i :: 0 <= i < |parts| ==> c.ms[i].part == parts[i] && c.ms[i].offPartN == offsets[4 + i] % U32_LIMIT)
    && FreshPhandles(e, Phandles(c))
  }

  /** The phandles of the partitions, then the one of the node itself. */
  function Phandles(c: Composed): seq<u32> {
    seq(|c.ms|, i requires 0 <= i < |c.ms| => c.ms[i].phandle) + [c.root]
  }

  function NamesLen(parts: seq<DtsPart>): nat {
    if parts == [] then 0
    else
      var n := |parts| - 1;
      NamesLen(parts[..n]) + 2 * (4 * Steps(|parts[n].name| + 1))
  }

  /** The length the composer allocates is the length it writes. */
  lemma {:induction false} PredictedLength(parts: seq<DtsPart>, linux: bool)
    ensures var l := if linux then 1 else 0;
            ChildrenLen(parts, linux) == |parts| * (8 + 12 * (4 + l) + 8 + 4 + 4 + 4 * l) + NamesLen(parts)
    decreases |parts|
  {
    if parts != [] {
      PredictedLength(parts[..|parts| - 1], linux);
    }
  }

  /** The phandles chosen so far, while choosing. */
  ghost predicate Choosing(e: seq<Slot>, now: seq<Slot>, ids: seq<Id>, left: nat) {
    && 1 < |now| < U32_LIMIT && Enough(now, left)
    && (forall h :: Held(e, h) ==> Held(now, h))
    && (forall i :: 0 <= i < |ids| ==> ids[i].phandle != 0 && !Held(e, ids[i].phandle) && Held(now, ids[i].phandle))
    && (forall i, j :: 0 <= i < j < |ids| ==> ids[i].phandle != ids[j].phandle)
    && (forall h :: Held(now, h) ==> Held(e, h) || Chosen(ids, h))
    && (forall i, h :: 0 <= i < |ids| && 1 <= h < ids[i].phandle && !Held(e, h) ==> Chosen(ids, h))
  }

  ghost predicate Chosen(ids: seq<Id>, h: nat) {
    exists i :: 0 <= i < |ids| && ids[i].phandle == h
  }

  lemma ChosenMore(ids: seq<Id>, id: Id)
    ensures forall h :: Chosen(ids, h) ==> Chosen(ids + [id], h)
    ensures Chosen(ids + [id], id.phandle)
  {
    assert (ids + [id])[|ids|] == id;
    forall h | Chosen(ids, h)
      ensures Chosen(ids + [id], h)
    {
      var i :| 0 <= i < |ids| && ids[i].phandle == h;
      assert (ids + [id])[i] == ids[i];
    }
  }

  /** dts_assign_available_phandle for the next partition, or for the node itself. */
  method Choose(plist: PhandleList, offPartN: u32, ghost e: seq<Slot>, ghost ids: seq<Id>, ghost left: nat)
    returns (id: Id)
    requires left > 0 && Choosing(e, plist.entries, ids, left)
    modifies plist`entries
    ensures id.offPartN == offPartN && Choosing(e, plist.entries, ids + [id], left - 1)
  {
    ghost var was := plist.entries;
    var phandle := plist.Assign();
    assert phandle < |plist.entries|;
    id := Id(offPartN, phandle);
    ChosenOne(e, was, plist.entries, ids, id);
  }

  /** Handing out the least free phandle keeps what is known of those chosen. */
  lemma ChosenOne(e: seq<Slot>, was: seq<Slot>, now: seq<Slot>, ids: seq<Id>, id: Id)
    requires (forall h :: Held(now, h) <==> Held(was, h) || h == id.phandle)
    requires id.phandle != 0 && !Held(was, id.phandle) && forall h :: 1 <= h < id.phandle ==> Held(was, h)
    requires (forall h :: Held(e, h) ==> Held(was, h)) && (forall h :: Held(was, h) ==> Held(e, h) || Chosen(ids, h))
    requires forall i :: 0 <= i < |ids| ==>
               ids[i].phandle != 0 && !Held(e, ids[i].phandle) && Held(was, ids[i].phandle)
    requires (forall i, j :: 0 <= i < j < |ids| ==> ids[i].phandle != ids[j].phandle)
    requires (forall i, h :: 0 <= i < |ids| && 1 <= h < ids[i].phandle && !Held(e, h) ==> Chosen(ids, h))
    requires 1 < |now| < U32_LIMIT
    ensures forall left: nat :: Enough(now, left) ==> Choosing(e, now, ids + [id], left)
  {
    hide Held, Enough;
    ChosenMore(ids, id);
    hide Chosen;
  }

  lemma NothingChosen(e: seq<Slot>, left: nat)
    requires 1 < |e| < U32_LIMIT && Enough(e, left)
    ensures Choosing(e, e, [], left)
  {
  }

  /** Lines 1191-1203. */
  method ChooseIds(plist: PhandleList, shelper: Helper, parts: seq<DtsPart>, length0: nat, ghost strings: Bytes)
    returns (ids: seq<Id>, length: nat)
    requires |parts| <= MAX_PARTITIONS_COUNT && 8 <= shelper.capacity
    requires |shelper.block| <= shelper.capacity && |shelper.block| + 8 * |parts| < U32_LIMIT
    requires shelper.block == InternAll(strings, ESSENTIALS).0 && |InternAll(strings, ESSENTIALS).1| == 4
    requires 1 < |plist.entries| < U32_LIMIT && Enough(plist.entries, |parts| + 1)
    modifies plist`entries, shelper
    ensures length == length0 + NamesLen(parts) && |ids| == |parts|
    ensures Choosing(old(plist.entries), plist.entries, ids, 1)
    ensures |shelper.block| <= old(|shelper.block|) + 8 * |parts|
    ensures var (b, offsets) := InternAll(strings, ESSENTIALS + PartNames(|parts|));
            && shelper.block == b && |offsets| == 4 + |parts| && offsets[..4] == InternAll(strings, ESSENTIALS).1
            && forall i :: 0 <= i < |parts| ==> ids[i].offPartN == offsets[4 + i] % U32_LIMIT
  {
    hide InternAll, PartName, Choosing, AlignUp;
    ghost var e := plist.entries;
    ghost var offsets := InternAll(strings, ESSENTIALS).1;
    NothingChosen(e, |parts| + 1);
    assert ESSENTIALS + PartNames(0) == ESSENTIALS;
    ids, length := [], length0;
    for i := 0 to |parts|
      invariant length == length0 + NamesLen(parts[..i]) && |ids| == i
      invariant 8 <= shelper.capacity && |shelper.block| <= shelper.capacity
      invariant |shelper.block| <= old(|shelper.block|) + 8 * i
      invariant Choosing(e, plist.entries, ids, |parts| + 1 - i)
      invariant InternAll(strings, ESSENTIALS + PartNames(i)) == (shelper.block, offsets)
      invariant |offsets| == 4 + i && offsets[..4] == InternAll(strings, ESSENTIALS).1
      invariant forall k :: 0 <= k < i ==> ids[k].offPartN == offsets[4 + k] % U32_LIMIT
    {
      InternAllSnoc(strings, ESSENTIALS + PartNames(i), PartName(i));
      assert ESSENTIALS + PartNames(i) + [PartName(i)] == ESSENTIALS + PartNames(i + 1);
      assert parts[..i + 1][..i] == parts[..i];
      var offset := shelper.AppendSafely(PartName(i));
      offsets := offsets + [offset];
      var id := Choose(plist, offset % U32_LIMIT, e, ids, |parts| + 1 - i);
      ids := ids + [id];
      WordAligned(|parts[i].name| + 1);
      length := length + 2 * AlignUp(|parts[i].name| + 1, 4);
    }
    assert parts[..|parts|] == parts;
  }

  lemma WordAligned(n: nat)
    ensures AlignUp(n, 4) == 4 * Steps(n)
  {
  }

  /** Lines 1167-1174. */
  method InternEssentials(shelper: Helper) returns (offsets: seq<nat>)
    requires 8 <= shelper.capacity && |shelper.block| <= shelper.capacity
    modifies shelper
    ensures (shelper.block, offsets) == InternAll(old(shelper.block), ESSENTIALS) && |offsets| == 4
    ensures 8 <= shelper.capacity && |shelper.block| <= shelper.capacity
    ensures |shelper.block| <= old(|shelper.block|) + 8 * 4
  {
    hide Find;
    ghost var strings := shelper.block;
    offsets := [];
    assert ESSENTIALS[..0] == [];
    for i := 0 to 4
      invariant (shelper.block, offsets) == InternAll(strings, ESSENTIALS[..i]) && |offsets| == i
      invariant 8 <= shelper.capacity && |shelper.block| <= shelper.capacity && |shelper.block| <= |strings| + 8 * i
    {
      InternAllSnoc(strings, ESSENTIALS[..i], ESSENTIALS[i]);
      assert ESSENTIALS[..i] + [ESSENTIALS[i]] == ESSENTIALS[..i + 1];
      var offset := shelper.AppendSafely(ESSENTIALS[i]);
      offsets := offsets + [offset];
    }
    assert ESSENTIALS[..4] == ESSENTIALS;
  }

  /** dts_compose_partitions_node; a negative offset stands for a string that was not found. */
  method ComposePartitionsNode(plist: PhandleList, shelper: Helper, parts: seq<DtsPart>, offPhandle: int, offLinux: int)
    returns (r: int, node: array<char>, ghost c: Composed)
    requires |parts| <= MAX_PARTITIONS_COUNT
    requires forall i :: 0 <= i < |parts| ==> NUL !in parts[i].name && |parts[i].name| <= 15
    requires 8 <= shelper.capacity && |shelper.block| <= shelper.capacity
    requires |shelper.block| + 8 * (4 + |parts|) < U32_LIMIT
    requires 1 < |plist.entries| < U32_LIMIT && Enough(plist.entries, |parts| + 1)
    modifies plist`entries, shelper
    ensures fresh(node)
    ensures r == 0 <==> parts != [] && offPhandle >= 0 && (plist.hasLinux ==> offLinux >= 0)
    ensures r == 0 ==>
              && ComposedFrom(c, parts, old(shelper.block), shelper.block, old(plist.entries), offPhandle, offLinux)
              && c.linux == plist.hasLinux
              && node[..] == PARTITIONS + [NUL, NUL] + RootText(c.ms, c.root, c.names, c.linux)
              && node.Length == NodeLen(parts, c.linux) && |shelper.block| <= old(|shelper.block|) + 8 * (4 + |parts|)
    ensures r != 0 ==> shelper.block == old(shelper.block) && plist.entries == old(plist.entries)
  {
    hide InternAll, Choosing, RootText, ChildLen;
    c := Composed([], 0, Names(0, 0, 0, 0, 0, 0), false);
    if parts == [] || offPhandle < 0 || (plist.hasLinux && offLinux < 0) {
      node := new char[0];
      return -1, node, c;
    }
    ghost var e := plist.entries;
    ghost var strings := shelper.block;
    var linux := plist.hasLinux;
    var offsets := InternEssentials(shelper);
    var names := Names(offsets[0] % U32_LIMIT, offsets[1] % U32_LIMIT, offsets[2] % U32_LIMIT, offsets[3] % U32_LIMIT,
                       offPhandle % U32_LIMIT, offLinux % U32_LIMIT);
    var l := if linux then 1 else 0;
    var pcount := |parts|;
    var length := 12 + 16 * (1 + pcount + 1 + l) + pcount * (8 + 12 * (4 + l) + 8 + 4 + 4 + 4 * l);
    PredictedLength(parts, linux);
    var ids;
    ids, length := ChooseIds(plist, shelper, parts, length, strings);
    var root := Choose(plist, 0, e, ids, 1);
    ghost var ms;
    node, ms := WriteNode(parts, ids, root.phandle, names, linux, length);
    c := Composed(ms, root.phandle, names, linux);
    ChosenAreFresh(e, plist.entries, ids, root, c, parts);
    return 0, node, c;
  }

  lemma ChosenAreFresh(e: seq<Slot>, now: seq<Slot>, ids: seq<Id>, root: Id, c: Composed, parts: seq<DtsPart>)
    requires Choosing(e, now, ids + [root], 0) && MadeFrom(c.ms, parts, ids) && c.root == root.phandle
    ensures FreshPhandles(e, Phandles(c))
  {
    var all := ids + [root];
    forall i | 0 <= i < |all|
      ensures Phandles(c)[i] == all[i].phandle
    {
    }
    forall h: nat | Chosen(all, h)
      ensures HandedOut(Phandles(c), h)
    {
      var i :| 0 <= i < |all| && all[i].phandle == h;
      assert Phandles(c)[i] == h;
    }
  }
}
