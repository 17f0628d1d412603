/** The recursive token walkers of src/dts.c over a well-formed structure block. `node` points at a node's name, just
    after its BEGIN_NODE; the ghost parameters say which node that is. */
module Walk {
  import opened Util
  import opened Fdt

  /** What a walker returns: the steps of the node if its END_NODE is among the first maxOffset / 4 tokens, 0 as an
      error if it is not. */
  function WalkResult(name: Bytes, body: Body, maxOffset: nat): nat {
    if Words(body) <= maxOffset / 4 then NodeSteps(name, body) else 0
  }

  /** A node of the abstract tree. */
  datatype Tree = Tree(name: Bytes, pad: Bytes, body: Body)

  /** The serialised node t, without its BEGIN_NODE, is in memory at p. */
  ghost predicate IsNodeAt(s: Bytes, p: nat, t: Tree) {
    NameOk(t.name, t.pad) && Wf(t.body) && At(s, p, NameBytes(t.name, t.pad) + Ser(t.body))
  }

  /** The walk is i tokens into `body`, and `rest` is what remains. */
  ghost predicate Walking(s: Bytes, start: nat, i: nat, body: Body, rest: Body) {
    Wf(rest) && i + Words(rest) == Words(body) && At(s, start + 4 * i, Ser(rest))
  }

  /** dts_skip_prop_with_length. */
  function SkipProp(i: nat, length: nat): nat {
    i + 2 + Steps(length)
  }

  lemma Enter(s: Bytes, node: nat, t: Tree)
    requires IsNodeAt(s, node, t)
    ensures StringAt(s, node) == t.name
    ensures Walking(s, node + 4 * Steps(|t.name| + 1), 0, t.body, t.body)
  {
    hide At;
    AtName(s, node, t.name, t.pad, Ser(t.body));
  }

  lemma Look(s: Bytes, start: nat, i: nat, body: Body, rest: Body)
    requires Walking(s, start, i, body, rest)
    ensures start + 4 * i + 4 <= |s| && Read32(s, start + 4 * i) == Token(rest)
    ensures i + Words(rest) == Words(body)
  {
    hide At;
    AtToken(s, start + 4 * i, rest);
  }

  lemma StepNop(s: Bytes, start: nat, i: nat, body: Body, rest: Body)
    requires Walking(s, start, i, body, rest) && rest.Nop?
    ensures Walking(s, start, i + 1, body, rest.rest)
  {
    hide At;
    AtNop(s, start + 4 * i, Ser(rest.rest));
  }

  lemma StepProp(s: Bytes, start: nat, i: nat, body: Body, rest: Body)
    requires Walking(s, start, i, body, rest) && rest.Prop?
    ensures start + 4 * i + 12 + |rest.value| <= |s|
    ensures Read32(s, start + 4 * i + 4) == |rest.value| && Read32(s, start + 4 * i + 8) == rest.nameOff
    ensures At(s, start + 4 * i + 12, rest.value)
    ensures Walking(s, start, SkipProp(i, |rest.value|) + 1, body, rest.rest)
  {
    hide At;
    AtProp(s, start + 4 * i, rest.nameOff, rest.value, rest.pad, Ser(rest.rest));
  }

  lemma StepNode(s: Bytes, start: nat, i: nat, body: Body, rest: Body)
    requires Walking(s, start, i, body, rest) && rest.Node?
    ensures IsNodeAt(s, start + 4 * i + 4, Tree(rest.name, rest.pad, rest.child))
    ensures Walking(s, start, i + NodeSteps(rest.name, rest.child) + 2, body, rest.rest)
    ensures NodeSteps(rest.name, rest.child) > 0
  {
    hide At;
    AfterNode(s, start + 4 * i, rest.name, rest.pad, rest.child, rest.rest);
  }

  /** dts_skip_node. */
  method SkipNode(s: Bytes, node: nat, maxOffset: nat, ghost t: Tree) returns (r: nat)
    requires IsNodeAt(s, node, t)
    ensures r == WalkResult(t.name, t.body, maxOffset)
    decreases Words(t.body)
  {
    hide IsNodeAt, Walking, Read32, StringAt, Steps;
    var count := maxOffset / 4;
    if count == 0 {
      return 0;
    }
    Enter(s, node, t);
    var startSteps := Steps(|StringAt(s, node)| + 1);
    var start := node + 4 * startSteps;
    ghost var rest := t.body;
    var i := 0;
    Look(s, start, i, t.body, rest);
    while i < count
      invariant Walking(s, start, i, t.body, rest) && i + Words(rest) == Words(t.body)
    {
      var current := start + 4 * i;
      Look(s, start, i, t.body, rest);
      var token := Read32(s, current);
      if token == BEGIN_NODE {
        StepNode(s, start, i, t.body, rest);
        var offsetChild := SkipNode(s, current + 4, maxOffset - 4 * i, Tree(rest.name, rest.pad, rest.child));
        if offsetChild == 0 {
          return 0;
        }
        i := i + offsetChild + 1;
      } else if token == END_NODE {
        return i + startSteps;
      } else if token == PROP {
        StepProp(s, start, i, t.body, rest);
        i := SkipProp(i, Read32(s, current + 4));
      } else {
        assert token == NOP;
        StepNop(s, start, i, t.body, rest);
      }
      i, rest := i + 1, rest.rest;
    }
    return 0;
  }

  // ---- Finding a node by path ----

  /** The position of the last node with this path, in the order dts_get_node looks. */
  function FindNode(name: Bytes, body: Body, path: seq<Bytes>, p: nat, found: Option<nat>): Option<nat>
    requires path != []
    decreases Words(body), 1
  {
    if name != path[0] then found
    else if |path| == 1 then Some(p)
    else FindBody(body, path[1..], p + 4 * Steps(|name| + 1), found)
  }

  function FindBody(b: Body, path: seq<Bytes>, p: nat, found: Option<nat>): Option<nat>
    requires path != []
    decreases Words(b), 0
  {
    match b
    case End => found
    case Nop(rest) => FindBody(rest, path, p + 4, found)
    case Prop(_, value, _, rest) => FindBody(rest, path, p + 12 + 4 * Steps(|value|), found)
    case Node(name, _, child, rest) =>
      FindBody(rest, path, p + 4 * (NodeSteps(name, child) + 2), FindNode(name, child, path, p + 4, found))
  }

  /** One token of the search. */
  lemma FindStep(b: Body, path: seq<Bytes>, p: nat, found: Option<nat>)
    requires path != []
    ensures b.End? ==> FindBody(b, path, p, found) == found
    ensures b.Nop? ==> FindBody(b, path, p, found) == FindBody(b.rest, path, p + 4, found)
    ensures b.Prop? ==> FindBody(b, path, p, found) == FindBody(b.rest, path, p + 12 + 4 * Steps(|b.value|), found)
    ensures b.Node? ==> FindBody(b, path, p, found) ==
                        FindBody(b.rest, path, p + 4 * (NodeSteps(b.name, b.child) + 2),
                                 FindNode(b.name, b.child, path, p + 4, found))
  {
  }

  /** dts_get_node. The path is the sequence of names the C code keeps NUL-separated, `layers` its length minus one. */
  method GetNode(s: Bytes, node: nat, maxOffset: nat, path: seq<Bytes>, target0: Option<nat>, ghost t: Tree)
    returns (r: nat, target: Option<nat>)
    requires path != [] && IsNodeAt(s, node, t)
    ensures r == WalkResult(t.name, t.body, maxOffset)
    ensures r != 0 ==> target == FindNode(t.name, t.body, path, node, target0)
    decreases Words(t.body), 1
  {
    hide IsNodeAt, Walking, Read32, StringAt, Steps, FindBody;
    target := target0;
    var count := maxOffset / 4;
    if count == 0 {
      return 0, target;
    }
    Enter(s, node, t);
    if StringAt(s, node) != path[0] {
      r := SkipNode(s, node, maxOffset, t);
      return r, target;
    }
    if |path| == 1 {
      target := Some(node);
      r := SkipNode(s, node, maxOffset, t);
      return r, target;
    }
    r, target := GetNodeBelow(s, node, maxOffset, path, target, t);
  }

  /** The loop of dts_get_node over the children of a node that is on the path. */
  method GetNodeBelow(s: Bytes, node: nat, maxOffset: nat, path: seq<Bytes>, target0: Option<nat>, ghost t: Tree)
    returns (r: nat, target: Option<nat>)
    requires |path| > 1 && IsNodeAt(s, node, t)
    ensures r == WalkResult(t.name, t.body, maxOffset)
    ensures r != 0 ==> target == FindBody(t.body, path[1..], node + 4 * Steps(|t.name| + 1), target0)
    decreases Words(t.body), 0
  {
    hide IsNodeAt, Walking, Read32, StringAt, Steps, FindBody;
    target := target0;
    var count := maxOffset / 4;
    Enter(s, node, t);
    var startSteps := Steps(|StringAt(s, node)| + 1);
    var start := node + 4 * startSteps;
    ghost var rest := t.body;
    var i := 0;
    Look(s, start, i, t.body, rest);
    while i < count
      invariant Walking(s, start, i, t.body, rest) && i + Words(rest) == Words(t.body)
      invariant FindBody(rest, path[1..], start + 4 * i, target) == FindBody(t.body, path[1..], start, target0)
    {
      var current := start + 4 * i;
      Look(s, start, i, t.body, rest);
      FindStep(rest, path[1..], current, target);
      var token := Read32(s, current);
      if token == BEGIN_NODE {
        StepNode(s, start, i, t.body, rest);
        var offsetChild;
        offsetChild, target :=
          GetNode(s, current + 4, maxOffset - 4 * i, path[1..], target, Tree(rest.name, rest.pad, rest.child));
        if offsetChild == 0 {
          return 0, target;
        }
        i := i + offsetChild + 1;
      } else if token == END_NODE {
        return i + startSteps, target;
      } else if token == PROP {
        StepProp(s, start, i, t.body, rest);
        i := SkipProp(i, Read32(s, current + 4));
      } else {
        assert token == NOP;
        StepNop(s, start, i, t.body, rest);
      }
      i, rest := i + 1, rest.rest;
    }
    return 0, target;
  }

  ghost predicate HasPath(b: Body, path: seq<Bytes>)
    requires path != []
  {
    match b
    case End => false
    case Nop(rest) => HasPath(rest, path)
    case Prop(_, _, _, rest) => HasPath(rest, path)
    case Node(name, _, child, rest) =>
      (name == path[0] && (|path| == 1 || HasPath(child, path[1..]))) || HasPath(rest, path)
  }

  /** The node at this path below b; siblings later in the block hide earlier ones of the same name. */
  ghost function Lookup(b: Body, path: seq<Bytes>): Tree
    requires path != [] && HasPath(b, path)
  {
    match b
    case Nop(rest) => Lookup(rest, path)
    case Prop(_, _, _, rest) => Lookup(rest, path)
    case Node(name, pad, child, rest) =>
      if HasPath(rest, path) then Lookup(rest, path)
      else if |path| == 1 then Tree(name, pad, child)
      else Lookup(child, path[1..])
  }

  ghost predicate FoundAt(s: Bytes, p: Option<nat>, t: Tree) {
    p.Some? && IsNodeAt(s, p.value, t)
  }

  /** The search succeeds exactly on the paths of the abstract tree, and the position it returns holds that very
      node. */
  lemma {:induction false} FindIsLookup(s: Bytes, b: Body, path: seq<Bytes>, p: nat, found: Option<nat>)
    requires path != [] && Wf(b) && At(s, p, Ser(b))
    ensures !HasPath(b, path) ==> FindBody(b, path, p, found) == found
    ensures HasPath(b, path) ==> FoundAt(s, FindBody(b, path, p, found), Lookup(b, path))
    decreases Words(b)
  {
    hide At, Wf, Ser, IsNodeAt, Steps;
    EnterToken(s, p, b);
    match b
    case End =>
    case Nop(rest) =>
      FindIsLookup(s, rest, path, p + 4, found);
    case Prop(_, value, _, rest) =>
      FindIsLookup(s, rest, path, p + 12 + 4 * Steps(|value|), found);
    case Node(name, _, child, rest) =>
      var here := FindNode(name, child, path, p + 4, found);
      FindIsLookup(s, rest, path, p + 4 * (NodeSteps(name, child) + 2), here);
      if !HasPath(rest, path) && name == path[0] && |path| > 1 {
        FindIsLookup(s, child, path[1..], p + 4 + 4 * Steps(|name| + 1), found);
      }
  }

  lemma EnterToken(s: Bytes, p: nat, b: Body)
    requires Wf(b) && At(s, p, Ser(b))
    ensures b.Nop? ==> Wf(b.rest) && At(s, p + 4, Ser(b.rest))
    ensures b.Prop? ==> Wf(b.rest) && At(s, p + 12 + 4 * Steps(|b.value|), Ser(b.rest))
    ensures b.Node? ==>
              && IsNodeAt(s, p + 4, Tree(b.name, b.pad, b.child))
              && Wf(b.child) && At(s, p + 4 + 4 * Steps(|b.name| + 1), Ser(b.child))
              && Wf(b.rest) && At(s, p + 4 * (NodeSteps(b.name, b.child) + 2), Ser(b.rest))
  {
    hide At;
    match b
    case End =>
    case Nop(rest) => AtNop(s, p, Ser(rest));
    case Prop(nameOff, value, pad, rest) => AtProp(s, p, nameOff, value, pad, Ser(rest));
    case Node(_, _, _, _) => EnterNode(s, p, b);
  }

  lemma EnterNode(s: Bytes, p: nat, b: Body)
    requires b.Node? && Wf(b) && At(s, p, Ser(b))
    ensures IsNodeAt(s, p + 4, Tree(b.name, b.pad, b.child))
    ensures Wf(b.child) && At(s, p + 4 + 4 * Steps(|b.name| + 1), Ser(b.child))
    ensures Wf(b.rest) && At(s, p + 4 * (NodeSteps(b.name, b.child) + 2), Ser(b.rest))
  {
    hide At;
    AfterNode(s, p, b.name, b.pad, b.child, b.rest);
    AtName(s, p + 4, b.name, b.pad, Ser(b.child));
  }
}
