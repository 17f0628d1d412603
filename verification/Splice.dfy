/** Replacing, appending and removing a child of a node, on the tree and on its serialisation (src/dtb.c). */
module Splice {
  import opened Util
  import opened Fdt
  import opened Walk

  // ---- On the tree ----

  /** Some child of this node has this name. */
  predicate HasChild(b: Body, name: Bytes) {
    match b
    case End => false
    case Nop(rest) => HasChild(rest, name)
    case Prop(_, _, _, rest) => HasChild(rest, name)
    case Node(n, _, _, rest) => n == name || HasChild(rest, name)
  }

  /** The last child of this name. */
  function Child(b: Body, name: Bytes): Tree
    requires HasChild(b, name)
  {
    match b
    case Nop(rest) => Child(rest, name)
    case Prop(_, _, _, rest) => Child(rest, name)
    case Node(n, pad, child, rest) => if HasChild(rest, name) then Child(rest, name) else Tree(n, pad, child)
  }

  /** The tree with t in the place of the last child of this name. */
  function Replace(b: Body, name: Bytes, t: Tree): Body
    requires HasChild(b, name)
  {
    match b
    case Nop(rest) => Nop(Replace(rest, name, t))
    case Prop(nameOff, value, pad, rest) => Prop(nameOff, value, pad, Replace(rest, name, t))
    case Node(n, pad, child, rest) =>
      if HasChild(rest, name) then Node(n, pad, child, Replace(rest, name, t))
      else Node(t.name, t.pad, t.body, rest)
  }

  /** The tree without the last child of this name. */
  function Remove(b: Body, name: Bytes): Body
    requires HasChild(b, name)
  {
    match b
    case Nop(rest) => Nop(Remove(rest, name))
    case Prop(nameOff, value, pad, rest) => Prop(nameOff, value, pad, Remove(rest, name))
    case Node(n, pad, child, rest) =>
      if HasChild(rest, name) then Node(n, pad, child, Remove(rest, name)) else rest
  }

  /** The tree with t as its last child. */
  function Append(b: Body, t: Tree): Body {
    match b
    case End => Node(t.name, t.pad, t.body, End)
    case Nop(rest) => Nop(Append(rest, t))
    case Prop(nameOff, value, pad, rest) => Prop(nameOff, value, pad, Append(rest, t))
    case Node(n, pad, child, rest) => Node(n, pad, child, Append(rest, t))
  }

  /** What dtb_buffer_entry_implement_partitions does to the root. */
  function Implement(b: Body, t: Tree): Body {
    if HasChild(b, t.name) then Replace(b, t.name, t) else Append(b, t)
  }

  predicate TreeOk(t: Tree) {
    NameOk(t.name, t.pad) && Wf(t.body)
  }

  lemma {:induction false} ImplementWf(b: Body, t: Tree)
    requires Wf(b) && TreeOk(t)
    ensures Wf(Append(b, t))
    ensures HasChild(b, t.name) ==> Wf(Replace(b, t.name, t)) && Wf(Remove(b, t.name)) && TreeOk(Child(b, t.name))
  {
    if !b.End? {
      ImplementWf(b.rest, t);
    }
  }

  /** After implementing, the child is there, it is the new one, and taking it out again gives what was left of the old
      tree: the tree itself if it had no such child. */
  lemma {:induction false} ImplementThenRemove(b: Body, t: Tree)
    ensures HasChild(Implement(b, t), t.name) && Child(Implement(b, t), t.name) == t
    ensures Remove(Implement(b, t), t.name) == if HasChild(b, t.name) then Remove(b, t.name) else b
  {
    if !b.End? {
      ImplementThenRemove(b.rest, t);
    }
  }

  // ---- On the bytes ----

  /** The offset of the BEGIN_NODE of the last child of this name. */
  function Offset(b: Body, name: Bytes): nat
    requires HasChild(b, name)
  {
    match b
    case Nop(rest) => 4 + Offset(rest, name)
    case Prop(_, value, _, rest) => 12 + 4 * Steps(|value|) + Offset(rest, name)
    case Node(n, _, child, rest) =>
      if HasChild(rest, name) then 4 * (NodeSteps(n, child) + 2) + Offset(rest, name) else 0
  }

  /** The bytes of a node with its BEGIN_NODE and END_NODE. */
  function TreeBytes(t: Tree): Bytes
    requires TreeOk(t)
  {
    NodeBytes(t.name, t.pad, Ser(t.body))
  }

  lemma TreeLength(t: Tree)
    requires TreeOk(t)
    ensures |TreeBytes(t)| == 4 * (NodeSteps(t.name, t.body) + 2)
  {
    NameLength(t.name, t.pad);
    SerLength(t.body);
  }

  /** The path finder looks for the last child. */
  lemma {:induction false} FindIsOffset(b: Body, name: Bytes, p: nat, found: Option<nat>)
    ensures FindBody(b, [name], p, found) == if HasChild(b, name) then Some(p + Offset(b, name) + 4) else found
    ensures HasPath(b, [name]) <==> HasChild(b, name)
    ensures HasChild(b, name) ==> Lookup(b, [name]) == Child(b, name)
  {
    hide Steps;
    match b
    case End =>
    case Nop(rest) => FindIsOffset(rest, name, p + 4, found);
    case Prop(_, value, _, rest) => FindIsOffset(rest, name, p + 12 + 4 * Steps(|value|), found);
    case Node(n, _, child, rest) =>
      FindIsOffset(rest, name, p + 4 * (NodeSteps(n, child) + 2), FindNode(n, child, [name], p + 4, found));
  }

  /** How a serialised body begins: the bytes before what remains. */
  function Lead(b: Body): Bytes
    requires Wf(b) && !b.End?
  {
    match b
    case Nop(_) => BE32(NOP)
    case Prop(nameOff, value, pad, _) => PropBytes(nameOff, value, pad)
    case Node(name, pad, child, _) => NodeBytes(name, pad, Ser(child))
  }

  lemma LeadLength(b: Body)
    requires Wf(b) && !b.End?
    ensures Ser(b) == Lead(b) + Ser(b.rest)
    ensures |Lead(b)| == match b case Nop(_) => 4 case Prop(_, value, _, _) => 12 + 4 * Steps(|value|)
                                 case Node(n, _, child, _) => 4 * (NodeSteps(n, child) + 2)
  {
    hide Steps;
    match b
    case Nop(_) =>
    case Prop(nameOff, value, pad, _) => PropLength(nameOff, value, pad);
    case Node(n, pad, child, _) => NameLength(n, pad); SerLength(child);
  }

  /** The bytes before and after the last child of this name. */
  lemma {:induction false} ChildIsHere(b: Body, name: Bytes)
    requires Wf(b) && HasChild(b, name)
    ensures TreeOk(Child(b, name))
    ensures Offset(b, name) + |TreeBytes(Child(b, name))| <= |Ser(b)|
    ensures Ser(b)[Offset(b, name)..Offset(b, name) + |TreeBytes(Child(b, name))|] == TreeBytes(Child(b, name))
  {
    hide Steps, Lead, BE32, PropBytes, NodeBytes, NameBytes, Ser;
    LeadLength(b);
    if HasChild(b.rest, name) {
      ChildIsHere(b.rest, name);
      var k, n := Offset(b.rest, name), |TreeBytes(Child(b.rest, name))|;
      SliceOfTail(Lead(b), Ser(b.rest), k, n);
    } else {
      LeadIsChild(b, name);
      assert Ser(b)[0..|Lead(b)|] == Lead(b);
    }
  }

  lemma LeadIsChild(b: Body, name: Bytes)
    requires Wf(b) && HasChild(b, name) && !HasChild(b.rest, name)
    ensures TreeOk(Child(b, name)) && Lead(b) == TreeBytes(Child(b, name))
  {
  }

  lemma RestIsHere(b: Body, name: Bytes)
    requires Wf(b) && HasChild(b, name)
    ensures !b.End? && Wf(b.rest)
    ensures HasChild(b.rest, name) ==> Offset(b, name) == |Lead(b)| + Offset(b.rest, name)
    ensures !HasChild(b.rest, name) ==> Offset(b, name) == 0
  {
    hide Steps, Lead, BE32, PropBytes, NodeBytes, NameBytes, Ser;
    LeadLength(b);
  }

  lemma SliceOfTail(a: Bytes, b: Bytes, k: nat, n: nat)
    requires k + n <= |b|
    ensures (a + b)[|a| + k..|a| + k + n] == b[k..k + n]
    ensures (a + b)[..|a| + k] == a + b[..k]
    ensures (a + b)[|a| + k + n..] == b[k + n..]
  {
  }

  /** Cutting the bytes of the child out and putting others in serialises the changed tree. */
  lemma {:induction false} ReplaceSplices(b: Body, name: Bytes, t: Tree)
    requires Wf(b) && HasChild(b, name) && TreeOk(t)
    ensures Wf(Replace(b, name, t)) && Wf(Remove(b, name)) && TreeOk(Child(b, name))
    ensures var from, until := Offset(b, name), Offset(b, name) + |TreeBytes(Child(b, name))|;
            && until <= |Ser(b)|
            && Ser(Replace(b, name, t)) == Ser(b)[..from] + TreeBytes(t) + Ser(b)[until..]
            && Ser(Remove(b, name)) == Ser(b)[..from] + Ser(b)[until..]
  {
    hide Steps, Lead, BE32, PropBytes, NodeBytes, NameBytes, Ser, Wf, TreeBytes, Offset, Replace, Remove, Child,
         HasChild;
    RestIsHere(b, name);
    LeadLength(b);
    ChildIsHere(b, name);
    if HasChild(b.rest, name) {
      ReplaceSplices(b.rest, name, t);
      ChildIsHere(b.rest, name);
      SameLead(b, name, t);
      SpliceBehind(Lead(b), Ser(b.rest), Offset(b.rest, name), |TreeBytes(Child(b.rest, name))|, TreeBytes(t),
                   Ser(b), Ser(Replace(b.rest, name, t)), Ser(Remove(b.rest, name)));
    } else {
      LeadIsChild(b, name);
      LastReplaced(b, name, t);
      SpliceFront(Lead(b), Ser(b.rest), TreeBytes(t), Ser(b));
    }
  }

  lemma SpliceFront(lead: Bytes, tail: Bytes, x: Bytes, whole: Bytes)
    requires whole == lead + tail
    ensures x + tail == whole[..0] + x + whole[|lead|..]
    ensures tail == whole[..0] + whole[|lead|..]
  {
    assert whole[|lead|..] == tail && whole[..0] == [];
    assert [] + x == x && [] + tail == tail;
  }

  /** Changing the tail changes the whole in the same way. */
  lemma SpliceBehind(lead: Bytes, tail: Bytes, from: nat, n: nat, x: Bytes, whole: Bytes, replaced: Bytes,
                     removed: Bytes)
    requires from + n <= |tail| && whole == lead + tail
    requires replaced == tail[..from] + x + tail[from + n..] && removed == tail[..from] + tail[from + n..]
    ensures |lead| + from + n <= |whole|
    ensures lead + replaced == whole[..|lead| + from] + x + whole[|lead| + from + n..]
    ensures lead + removed == whole[..|lead| + from] + whole[|lead| + from + n..]
  {
    SliceOfTail(lead, tail, from, n);
    Assoc4(lead, tail[..from], x, tail[from + n..]);
  }

  lemma Assoc4(a: Bytes, b: Bytes, c: Bytes, d: Bytes)
    ensures a + (b + c + d) == a + b + c + d
    ensures a + (b + d) == a + b + d
  {
  }

  lemma SameLead(b: Body, name: Bytes, t: Tree)
    requires Wf(b) && !b.End? && HasChild(b.rest, name) && Wf(Replace(b.rest, name, t)) && Wf(Remove(b.rest, name))
    ensures HasChild(b, name) && Wf(Replace(b, name, t)) && Wf(Remove(b, name))
    ensures Ser(Replace(b, name, t)) == Lead(b) + Ser(Replace(b.rest, name, t))
    ensures Ser(Remove(b, name)) == Lead(b) + Ser(Remove(b.rest, name))
    ensures Child(b, name) == Child(b.rest, name)
  {
  }

  lemma LastReplaced(b: Body, name: Bytes, t: Tree)
    requires Wf(b) && HasChild(b, name) && !HasChild(b.rest, name) && TreeOk(t)
    ensures Wf(Replace(b, name, t)) && Ser(Replace(b, name, t)) == TreeBytes(t) + Ser(b.rest)
    ensures Remove(b, name) == b.rest
  {
  }

  /** Inserting bytes before the END_NODE of a node appends a child to it. */
  lemma {:induction false} AppendSplices(b: Body, t: Tree)
    requires Wf(b) && TreeOk(t)
    ensures Wf(Append(b, t)) && |Ser(b)| >= 4 && Ser(b)[|Ser(b)| - 4..] == BE32(END_NODE)
    ensures Ser(Append(b, t)) == Ser(b)[..|Ser(b)| - 4] + TreeBytes(t) + BE32(END_NODE)
  {
    hide Steps, BE32, Lead, Ser, TreeBytes, Append;
    if b.End? {
      AppendToEnd(b, t);
    } else {
      LeadLength(b);
      hide Wf;
      RestIsWf(b);
      AppendSplices(b.rest, t);
      AppendLead(b, t);
      var n := |Ser(b.rest)| - 4;
      SliceOfTail(Lead(b), Ser(b.rest), n, 4);
      TailSlice(Lead(b), Ser(b.rest), n);
      Assoc4(Lead(b), Ser(b.rest)[..n], TreeBytes(t), BE32(END_NODE));
    }
  }

  lemma RestIsWf(b: Body)
    requires Wf(b) && !b.End?
    ensures Wf(b.rest)
  {
  }

  lemma AppendToEnd(b: Body, t: Tree)
    requires b.End? && TreeOk(t)
    ensures Wf(Append(b, t)) && |Ser(b)| == 4 && Ser(b)[|Ser(b)| - 4..] == BE32(END_NODE)
    ensures Ser(Append(b, t)) == Ser(b)[..|Ser(b)| - 4] + TreeBytes(t) + BE32(END_NODE)
  {
    hide BE32;
    assert Ser(b)[..0] == [];
    assert [] + TreeBytes(t) == TreeBytes(t);
  }

  lemma TailSlice(a: Bytes, b: Bytes, n: nat)
    requires n <= |b|
    ensures (a + b)[|a| + n..] == b[n..]
  {
  }

  lemma AppendLead(b: Body, t: Tree)
    requires Wf(b) && !b.End? && Wf(Append(b.rest, t))
    ensures Wf(Append(b, t)) && Ser(Append(b, t)) == Lead(b) + Ser(Append(b.rest, t))
  {
  }
}
