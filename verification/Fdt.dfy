/** The structure block of a flattened device tree (Devicetree Specification, section 5.4): an abstract tree, its
    serialisation, and positions in it. Memory is a string of chars, one char per byte. */
module Fdt {
  import opened Util

  type Bytes = string

  const NUL: char := '\0'

  const BEGIN_NODE: u32 := 1
  const END_NODE: u32 := 2
  const PROP: u32 := 3
  const NOP: u32 := 4
  const END: u32 := 9

  // ---- Words and strings in memory ----

  /** A 32-bit big-endian word. */
  function BE32(v: u32): (r: Bytes)
    ensures |r| == 4
  {
    [(v / 0x100_0000) as char, (v / 0x1_0000 % 0x100) as char, (v / 0x100 % 0x100) as char, (v % 0x100) as char]
  }

  function Read32(s: Bytes, p: nat): nat
    requires p + 4 <= |s|
  {
    (s[p] as int) * 0x100_0000 + (s[p + 1] as int) * 0x1_0000 + (s[p + 2] as int) * 0x100 + (s[p + 3] as int)
  }

  /** The NUL-terminated string at p: strlen is its length and strcmp is equality. */
  function StringAt(s: Bytes, p: nat): Bytes
    decreases |s| - p
  {
    if p < |s| && s[p] != NUL then [s[p]] + StringAt(s, p + 1) else []
  }

  /** x is in memory at p. */
  ghost predicate At(s: Bytes, p: nat, x: Bytes) {
    p + |x| <= |s| && s[p..p + |x|] == x
  }

  lemma AtConcat(s: Bytes, p: nat, x: Bytes, y: Bytes)
    ensures At(s, p, x + y) <==> At(s, p, x) && At(s, p + |x|, y)
  {
    if At(s, p, x + y) {
      assert x == (x + y)[..|x|] == s[p..p + |x + y|][..|x|] == s[p..p + |x|];
      assert y == (x + y)[|x|..] == s[p..p + |x + y|][|x|..] == s[p + |x|..p + |x| + |y|];
    }
    if At(s, p, x) && At(s, p + |x|, y) {
      assert s[p..p + |x + y|] == s[p..p + |x|] + s[p + |x|..p + |x| + |y|];
    }
  }

  lemma AtBound(s: Bytes, p: nat, x: Bytes)
    requires At(s, p, x)
    ensures p + |x| <= |s|
  {
  }

  lemma AtByte(s: Bytes, p: nat, x: Bytes, k: nat)
    requires At(s, p, x) && k < |x|
    ensures s[p + k] == x[k]
  {
    assert s[p..p + |x|][k] == s[p + k];
  }

  lemma ReadBE32(s: Bytes, p: nat, v: u32)
    requires At(s, p, BE32(v))
    ensures p + 4 <= |s| && Read32(s, p) == v
  {
    forall k | 0 <= k < 4
      ensures s[p + k] == BE32(v)[k]
    {
      AtByte(s, p, BE32(v), k);
    }
    Digits(v);
  }

  lemma Digits(v: u32)
    ensures v == v / 0x100_0000 * 0x100_0000 + v / 0x1_0000 % 0x100 * 0x1_0000 + v / 0x100 % 0x100 * 0x100 + v % 0x100
  {
    UpperDigits(v);
    var a, b, c := v / 0x100, v / 0x1_0000, v / 0x100_0000;
    LastDigit(v, a);
    LastDigit(a, b);
    LastDigit(b, c);
  }

  lemma UpperDigits(v: nat)
    ensures v / 0x1_0000 == v / 0x100 / 0x100 && v / 0x100_0000 == v / 0x1_0000 / 0x100
  {
  }

  lemma LastDigit(v: nat, q: nat)
    requires q == v / 0x100
    ensures v == q * 0x100 + v % 0x100
  {
  }

  lemma ReadString(s: Bytes, p: nat, name: Bytes)
    requires At(s, p, name + [NUL]) && NUL !in name
    ensures StringAt(s, p) == name
    decreases |name|
  {
    AtByte(s, p, name + [NUL], 0);
    if name != [] {
      assert name + [NUL] == [name[0]] + (name[1..] + [NUL]);
      AtConcat(s, p, [name[0]], name[1..] + [NUL]);
      ReadString(s, p + 1, name[1..]);
    }
  }

  // ---- Trees ----

  /** The contents of a node up to and including its END_NODE. `pad` bytes follow a name or a value up to the next
      word. */
  datatype Body =
    | End
    | Nop(rest: Body)
    | Prop(nameOff: u32, value: Bytes, pad: Bytes, rest: Body)
    | Node(name: Bytes, pad: Bytes, child: Body, rest: Body)

  function PadLen(n: nat): nat {
    (4 - n % 4) % 4
  }

  predicate WellPadded(length: nat, pad: Bytes) {
    |pad| == PadLen(length)
  }

  predicate NameOk(name: Bytes, pad: Bytes) {
    NUL !in name && WellPadded(|name| + 1, pad)
  }

  predicate Wf(b: Body) {
    match b
    case End => true
    case Nop(rest) => Wf(rest)
    case Prop(_, value, pad, rest) => |value| < U32_LIMIT && WellPadded(|value|, pad) && Wf(rest)
    case Node(name, pad, child, rest) => NameOk(name, pad) && Wf(child) && Wf(rest)
  }

  function NameBytes(name: Bytes, pad: Bytes): Bytes {
    name + [NUL] + pad
  }

  function PropBytes(nameOff: u32, value: Bytes, pad: Bytes): Bytes
    requires |value| < U32_LIMIT
  {
    BE32(PROP) + BE32(|value|) + BE32(nameOff) + value + pad
  }

  function Ser(b: Body): Bytes
    requires Wf(b)
  {
    match b
    case End => BE32(END_NODE)
    case Nop(rest) => BE32(NOP) + Ser(rest)
    case Prop(nameOff, value, pad, rest) => PropBytes(nameOff, value, pad) + Ser(rest)
    case Node(name, pad, child, rest) => NodeBytes(name, pad, Ser(child)) + Ser(rest)
  }

  /** BEGIN_NODE, name, contents, END_NODE. */
  function NodeBytes(name: Bytes, pad: Bytes, contents: Bytes): Bytes {
    BE32(BEGIN_NODE) + (NameBytes(name, pad) + contents)
  }

  // ---- Sizes, in 4-byte steps as the walkers count ----

  /** len / 4 + (bool)(len % 4) */
  function Steps(length: nat): nat {
    length / 4 + (if length % 4 != 0 then 1 else 0)
  }

  function Words(b: Body): (r: nat)
    ensures r > 0
  {
    match b
    case End => 1
    case Nop(rest) => 1 + Words(rest)
    case Prop(_, value, _, rest) => 3 + Steps(|value|) + Words(rest)
    case Node(name, _, child, rest) => 1 + Steps(|name| + 1) + Words(child) + Words(rest)
  }

  /** The node without its BEGIN_NODE and END_NODE: what dts_skip_node promises to return. */
  function NodeSteps(name: Bytes, child: Body): nat {
    Steps(|name| + 1) + Words(child) - 1
  }

  lemma PadToWord(n: nat)
    ensures n + PadLen(n) == 4 * Steps(n)
  {
  }

  lemma NameLength(name: Bytes, pad: Bytes)
    requires NameOk(name, pad)
    ensures |NameBytes(name, pad)| == 4 * Steps(|name| + 1)
  {
    PadToWord(|name| + 1);
  }

  lemma PropLength(nameOff: u32, value: Bytes, pad: Bytes)
    requires |value| < U32_LIMIT && WellPadded(|value|, pad)
    ensures |PropBytes(nameOff, value, pad)| == 12 + 4 * Steps(|value|)
  {
    PadToWord(|value|);
  }

  lemma {:induction false} SerLength(b: Body)
    requires Wf(b)
    ensures |Ser(b)| == 4 * Words(b)
  {
    match b
    case End =>
    case Nop(rest) => SerLength(rest);
    case Prop(nameOff, value, pad, rest) => PropLength(nameOff, value, pad); SerLength(rest);
    case Node(name, pad, child, rest) => NameLength(name, pad); SerLength(child); SerLength(rest);
  }

  // ---- Where the parts of a serialised body are ----

  lemma AtNode(s: Bytes, p: nat, name: Bytes, pad: Bytes, contents: Bytes)
    requires At(s, p, NodeBytes(name, pad, contents))
    ensures p + 4 <= |s| && Read32(s, p) == BEGIN_NODE
    ensures At(s, p + 4, NameBytes(name, pad) + contents)
  {
    hide At;
    AtConcat(s, p, BE32(BEGIN_NODE), NameBytes(name, pad) + contents);
    ReadBE32(s, p, BEGIN_NODE);
  }

  lemma AtName(s: Bytes, p: nat, name: Bytes, pad: Bytes, contents: Bytes)
    requires NameOk(name, pad) && At(s, p, NameBytes(name, pad) + contents)
    ensures StringAt(s, p) == name
    ensures At(s, p + 4 * Steps(|name| + 1), contents)
  {
    hide At;
    NameLength(name, pad);
    AtConcat(s, p, NameBytes(name, pad), contents);
    AtConcat(s, p, name + [NUL], pad);
    ReadString(s, p, name);
  }

  lemma AtNop(s: Bytes, p: nat, rest: Bytes)
    requires At(s, p, BE32(NOP) + rest)
    ensures p + 4 <= |s| && Read32(s, p) == NOP
    ensures At(s, p + 4, rest)
  {
    hide At;
    AtConcat(s, p, BE32(NOP), rest);
    ReadBE32(s, p, NOP);
  }

  lemma AtPropHead(s: Bytes, p: nat, length: u32, nameOff: u32, tail: Bytes)
    requires At(s, p, BE32(PROP) + BE32(length) + BE32(nameOff) + tail)
    ensures p + 12 <= |s| && Read32(s, p) == PROP && Read32(s, p + 4) == length && Read32(s, p + 8) == nameOff
    ensures At(s, p + 12, tail)
  {
    hide At;
    AtConcat(s, p, BE32(PROP) + BE32(length) + BE32(nameOff), tail);
    AtConcat(s, p, BE32(PROP) + BE32(length), BE32(nameOff));
    AtConcat(s, p, BE32(PROP), BE32(length));
    ReadBE32(s, p, PROP);
    ReadBE32(s, p + 4, length);
    ReadBE32(s, p + 8, nameOff);
  }

  lemma AtProp(s: Bytes, p: nat, nameOff: u32, value: Bytes, pad: Bytes, rest: Bytes)
    requires |value| < U32_LIMIT && WellPadded(|value|, pad) && At(s, p, PropBytes(nameOff, value, pad) + rest)
    ensures p + 12 + |value| <= |s| && Read32(s, p) == PROP && Read32(s, p + 4) == |value|
    ensures Read32(s, p + 8) == nameOff
    ensures At(s, p + 12, value)
    ensures At(s, p + 12 + 4 * Steps(|value|), rest)
  {
    hide At;
    PropLength(nameOff, value, pad);
    AtConcat(s, p, PropBytes(nameOff, value, pad), rest);
    AtConcat(s, p, BE32(PROP) + BE32(|value|) + BE32(nameOff) + value, pad);
    AtPropHead(s, p, |value|, nameOff, value);
    AtBound(s, p + 12, value);
  }

  lemma AtEnd(s: Bytes, p: nat)
    requires At(s, p, BE32(END_NODE))
    ensures p + 4 <= |s| && Read32(s, p) == END_NODE
  {
    ReadBE32(s, p, END_NODE);
  }

  lemma AfterNode(s: Bytes, p: nat, name: Bytes, pad: Bytes, child: Body, rest: Body)
    requires Wf(Node(name, pad, child, rest)) && At(s, p, Ser(Node(name, pad, child, rest)))
    ensures p + 4 <= |s| && Read32(s, p) == BEGIN_NODE
    ensures At(s, p + 4, NameBytes(name, pad) + Ser(child))
    ensures At(s, p + 4 * (NodeSteps(name, child) + 2), Ser(rest))
  {
    hide At;
    AtConcat(s, p, NodeBytes(name, pad, Ser(child)), Ser(rest));
    AtNode(s, p, name, pad, Ser(child));
    NameLength(name, pad);
    SerLength(child);
  }

  function Token(b: Body): u32 {
    match b
    case End => END_NODE
    case Nop(_) => NOP
    case Prop(_, _, _, _) => PROP
    case Node(_, _, _, _) => BEGIN_NODE
  }

  /** Whatever comes next, its token is at p. */
  lemma AtToken(s: Bytes, p: nat, b: Body)
    requires Wf(b) && At(s, p, Ser(b))
    ensures p + 4 <= |s| && Read32(s, p) == Token(b)
  {
    hide At;
    match b
    case End => AtEnd(s, p);
    case Nop(rest) => AtNop(s, p, Ser(rest));
    case Prop(nameOff, value, pad, rest) => AtProp(s, p, nameOff, value, pad, Ser(rest));
    case Node(name, pad, child, rest) => AfterNode(s, p, name, pad, child, rest);
  }
}
