/** Which phandles the nodes of a tree claim, when no two nodes claim the same one, and what changing a child does to
    that. */
module PhandleSafety {
  import opened Util
  import opened Ept
  import opened Fdt
  import opened Walk
  import opened Phandle
  import opened Partitions
  import opened Compose
  import opened RoundTrip
  import opened Splice

  // ---- The phandles of a tree ----

  /** The value of a phandle property; `places` are the name offsets that mark one. */
  function PropValues(nameOff: u32, value: Bytes, places: set<nat>): set<nat> {
    if nameOff in places && |value| == 4 then {Read32(value, 0)} else {}
  }

  /** The phandles a node claims for itself. */
  function Own(b: Body, places: set<nat>): set<nat> {
    match b
    case End => {}
    case Nop(rest) => Own(rest, places)
    case Prop(nameOff, value, _, rest) => PropValues(nameOff, value, places) + Own(rest, places)
    case Node(_, _, _, rest) => Own(rest, places)
  }

  /** The phandles claimed by the nodes below it. */
  function Sub(b: Body, places: set<nat>): set<nat>
    decreases b, 0
  {
    match b
    case End => {}
    case Nop(rest) => Sub(rest, places)
    case Prop(_, _, _, rest) => Sub(rest, places)
    case Node(_, _, child, rest) => All(child, places) + Sub(rest, places)
  }

  function All(b: Body, places: set<nat>): set<nat>
    decreases b, 1
  {
    Own(b, places) + Sub(b, places)
  }

  /** No two nodes of this tree claim the same phandle. */
  ghost predicate Distinct(b: Body, places: set<nat>)
    decreases b, 1
  {
    Own(b, places) !! Sub(b, places) && SubDistinct(b, places)
  }

  ghost predicate SubDistinct(b: Body, places: set<nat>)
    decreases b, 0
  {
    match b
    case End => true
    case Nop(rest) => SubDistinct(rest, places)
    case Prop(_, _, _, rest) => SubDistinct(rest, places)
    case Node(_, _, child, rest) =>
      All(child, places) !! Sub(rest, places)
      && Distinct(child, places) && SubDistinct(rest, places)
  }

  /** The two name offsets that the walker of src/dts.c looks for. */
  function Pair(offPhandle: u32, offLinux: u32): set<nat> {
    {offPhandle as nat, offLinux as nat}
  }

  // ---- A collected tree is distinct ----

  lemma ClaimedInPart(a: seq<Claim>, b: seq<Claim>, h: nat, n: nat)
    ensures IsClaimed(a, h, n) || IsClaimed(b, h, n) ==> IsClaimed(a + b, h, n)
  {
    if IsClaimed(a, h, n) {
      var k :| 0 <= k < |a| && a[k].Claim? && a[k].value == h && a[k].owner == n;
      assert (a + b)[k] == a[k];
    }
    if IsClaimed(b, h, n) {
      var k :| 0 <= k < |b| && b[k].Claim? && b[k].value == h && b[k].owner == n;
      assert (a + b)[|a| + k] == b[k];
    }
  }

  lemma {:induction false} OwnIsClaimed(b: Body, owner: nat, p: nat, offPhandle: u32, offLinux: u32, v: nat)
    requires v in Own(b, Pair(offPhandle, offLinux))
    ensures IsClaimed(Claims(b, owner, p, offPhandle, offLinux), v, owner)
  {
    hide IsClaimed, Steps;
    match b
    case Nop(rest) => OwnIsClaimed(rest, owner, p + 4, offPhandle, offLinux, v);
    case Prop(nameOff, value, _, rest) =>
      var here := if IsPhandleProp(nameOff, offPhandle, offLinux) then [ClaimOf(nameOff, value, owner, offPhandle)]
        else [];
      var q := p + 12 + 4 * Steps(|value|);
      ClaimedInPart(here, Claims(rest, owner, q, offPhandle, offLinux), v, owner);
      if v in PropValues(nameOff, value, Pair(offPhandle, offLinux)) {
        OneClaim(ClaimOf(nameOff, value, owner, offPhandle), v, owner);
      } else {
        OwnIsClaimed(rest, owner, q, offPhandle, offLinux, v);
      }
    case Node(name, _, child, rest) =>
      var q := p + 4 * (NodeSteps(name, child) + 2);
      ClaimedInPart(Claims(child, p + 4, p + 4 + 4 * Steps(|name| + 1), offPhandle, offLinux),
                    Claims(rest, owner, q, offPhandle, offLinux), v, owner);
      OwnIsClaimed(rest, owner, q, offPhandle, offLinux, v);
  }

  lemma OneClaim(c: Claim, v: nat, n: nat)
    requires c.Claim? && c.value == v && c.owner == n
    ensures IsClaimed([c], v, n)
  {
    assert [c][0] == c;
  }

  lemma {:induction false} SubIsClaimed(b: Body, owner: nat, p: nat, offPhandle: u32, offLinux: u32, v: nat)
    returns (n: nat)
    requires v in Sub(b, Pair(offPhandle, offLinux))
    ensures p <= n < p + 4 * Words(b) && IsClaimed(Claims(b, owner, p, offPhandle, offLinux), v, n)
    decreases b, 0
  {
    hide IsClaimed, Steps;
    match b
    case Nop(rest) => n := SubIsClaimed(rest, owner, p + 4, offPhandle, offLinux, v);
    case Prop(nameOff, value, _, rest) =>
      var here := if IsPhandleProp(nameOff, offPhandle, offLinux) then [ClaimOf(nameOff, value, owner, offPhandle)]
        else [];
      var q := p + 12 + 4 * Steps(|value|);
      n := SubIsClaimed(rest, owner, q, offPhandle, offLinux, v);
      ClaimedInPart(here, Claims(rest, owner, q, offPhandle, offLinux), v, n);
    case Node(name, _, child, rest) =>
      var q, c := p + 4 * (NodeSteps(name, child) + 2), p + 4 + 4 * Steps(|name| + 1);
      if v in All(child, Pair(offPhandle, offLinux)) {
        n := AllIsClaimed(child, p + 4, c, offPhandle, offLinux, v);
      } else {
        n := SubIsClaimed(rest, owner, q, offPhandle, offLinux, v);
      }
      ClaimedInPart(Claims(child, p + 4, c, offPhandle, offLinux), Claims(rest, owner, q, offPhandle, offLinux), v, n);
  }

  lemma {:induction false} AllIsClaimed(b: Body, owner: nat, p: nat, offPhandle: u32, offLinux: u32, v: nat)
    returns (n: nat)
    requires v in All(b, Pair(offPhandle, offLinux))
    ensures (n == owner || p <= n < p + 4 * Words(b)) && IsClaimed(Claims(b, owner, p, offPhandle, offLinux), v, n)
    decreases b, 1
  {
    hide IsClaimed;
    if v in Own(b, Pair(offPhandle, offLinux)) {
      OwnIsClaimed(b, owner, p, offPhandle, offLinux, v);
      n := owner;
    } else {
      n := SubIsClaimed(b, owner, p, offPhandle, offLinux, v);
    }
  }

  lemma UniqueParts(a: seq<Claim>, b: seq<Claim>)
    requires UniqueOwners(a + b)
    ensures UniqueOwners(a) && UniqueOwners(b)
  {
    hide IsClaimed;
    forall h, n, m | IsClaimed(a, h, n) && IsClaimed(a, h, m)
      ensures n == m
    {
      ClaimedInPart(a, b, h, n);
      ClaimedInPart(a, b, h, m);
    }
    forall h, n, m | IsClaimed(b, h, n) && IsClaimed(b, h, m)
      ensures n == m
    {
      ClaimedInPart(a, b, h, n);
      ClaimedInPart(a, b, h, m);
    }
  }

  lemma {:induction false} UniqueIsSubDistinct(b: Body, owner: nat, p: nat, offPhandle: u32, offLinux: u32)
    requires UniqueOwners(Claims(b, owner, p, offPhandle, offLinux))
    ensures SubDistinct(b, Pair(offPhandle, offLinux))
    decreases b, 0
  {
    hide IsClaimed, UniqueOwners, Steps, All;
    match b
    case End =>
    case Nop(rest) => UniqueIsSubDistinct(rest, owner, p + 4, offPhandle, offLinux);
    case Prop(nameOff, value, _, rest) =>
      var here := if IsPhandleProp(nameOff, offPhandle, offLinux) then [ClaimOf(nameOff, value, owner, offPhandle)]
        else [];
      UniqueParts(here, Claims(rest, owner, p + 12 + 4 * Steps(|value|), offPhandle, offLinux));
      UniqueIsSubDistinct(rest, owner, p + 12 + 4 * Steps(|value|), offPhandle, offLinux);
    case Node(name, _, child, rest) =>
      var q, c := p + 4 * (NodeSteps(name, child) + 2), p + 4 + 4 * Steps(|name| + 1);
      var below, after := Claims(child, p + 4, c, offPhandle, offLinux), Claims(rest, owner, q, offPhandle, offLinux);
      UniqueParts(below, after);
      StepsPositive(|name| + 1);
      UniqueIsDistinct(child, p + 4, c, offPhandle, offLinux);
      UniqueIsSubDistinct(rest, owner, q, offPhandle, offLinux);
      forall v | v in All(child, Pair(offPhandle, offLinux)) && v in Sub(rest, Pair(offPhandle, offLinux))
        ensures false
      {
        var n := AllIsClaimed(child, p + 4, c, offPhandle, offLinux, v);
        var m := SubIsClaimed(rest, owner, q, offPhandle, offLinux, v);
        SharedClaim(below, after, v, n, m);
      }
  }

  lemma StepsPositive(n: nat)
    requires n > 0
    ensures Steps(n) > 0
  {
  }

  lemma SharedClaim(a: seq<Claim>, b: seq<Claim>, v: nat, n: nat, m: nat)
    requires UniqueOwners(a + b) && IsClaimed(a, v, n) && IsClaimed(b, v, m)
    ensures n == m
  {
    ClaimedInPart(a, b, v, n);
    ClaimedInPart(a, b, v, m);
  }

  /** If no phandle of a subtree has two owners, its nodes have distinct phandles. */
  lemma {:induction false} UniqueIsDistinct(b: Body, owner: nat, p: nat, offPhandle: u32, offLinux: u32)
    requires UniqueOwners(Claims(b, owner, p, offPhandle, offLinux)) && owner < p
    ensures Distinct(b, Pair(offPhandle, offLinux))
    decreases b, 1
  {
    UniqueIsSubDistinct(b, owner, p, offPhandle, offLinux);
    hide IsClaimed, SubDistinct;
    forall v | v in Own(b, Pair(offPhandle, offLinux)) && v in Sub(b, Pair(offPhandle, offLinux))
      ensures false
    {
      OwnIsClaimed(b, owner, p, offPhandle, offLinux, v);
      var n := SubIsClaimed(b, owner, p, offPhandle, offLinux, v);
    }
  }

  // ---- One child and the rest ----

  /** What is left of the tree when the child is taken out. */
  function Without(b: Body, name: Bytes): Body {
    if HasChild(b, name) then Remove(b, name) else b
  }

  lemma {:induction false} ChildAndRest(b: Body, name: Bytes, places: set<nat>)
    requires HasChild(b, name)
    ensures var child, rest := Child(b, name).body, Remove(b, name);
            && Own(b, places) == Own(rest, places)
            && Sub(b, places) == Sub(rest, places) + All(child, places)
            && (SubDistinct(b, places) <==>
                SubDistinct(rest, places) && Distinct(child, places) && All(child, places) !! Sub(rest, places))
  {
    hide All, Distinct;
    if HasChild(b.rest, name) {
      ChildAndRest(b.rest, name, places);
    }
  }

  /** Phandles are distinct exactly if they are in the child and in the rest, and none is in both. */
  lemma DistinctSplit(b: Body, name: Bytes, places: set<nat>)
    requires HasChild(b, name)
    ensures var child, rest := Child(b, name).body, Remove(b, name);
            && All(b, places) == All(rest, places) + All(child, places)
            && (Distinct(b, places) <==>
                Distinct(rest, places) && Distinct(child, places) && All(child, places) !! All(rest, places))
  {
    hide SubDistinct;
    ChildAndRest(b, name, places);
  }

  // ---- The phandles that are dropped belong to the old partitions node ----

  /** Every phandle parsed so far is 0 or in hs. */
  ghost predicate PhandlesIn(st: Parsed, hs: set<nat>) {
    && (st.phandleRoot == 0 || st.phandleRoot in hs)
    && forall i :: 0 <= i < |st.partitions| ==> st.partitions[i].phandle == 0 || st.partitions[i].phandle in hs
  }

  lemma PropPhandles(s: Bytes, p: nat, b: Body, inPartition: bool, strings: Bytes, offs: Offsets, st: Parsed,
                     offLinux: u32, hs: set<nat>)
    requires b.Prop? && p + |b.value| <= |s| && At(s, p, b.value) && StOk(st, inPartition) && PhandlesIn(st, hs)
    requires PropStep(s, p, b.nameOff, |b.value|, strings, offs, inPartition, st).Ok? && offs.phandle < U32_LIMIT
    requires PropValues(b.nameOff, b.value, Pair(offs.phandle, offLinux)) <= hs
    ensures PhandlesIn(PropStep(s, p, b.nameOff, |b.value|, strings, offs, inPartition, st).value, hs)
  {
    hide At, StringAt;
    if |b.value| == 4 {
      SameWord(s, p, b.value);
    }
  }

  /** What the parts of a body claim, the body claims. */
  lemma AllOfParts(b: Body, places: set<nat>, hs: set<nat>)
    requires All(b, places) <= hs
    ensures !b.End? ==> All(b.rest, places) <= hs
    ensures b.Prop? ==> PropValues(b.nameOff, b.value, places) <= hs
    ensures b.Node? ==> All(b.child, places) <= hs
  {
    hide PropValues;
  }

  lemma BeginPhandles(st: Parsed, name: Bytes, hs: set<nat>)
    requires PhandlesIn(st, hs) && StOk(st, false) && Begin(st, name).Ok?
    ensures PhandlesIn(Begin(st, name).value, hs) && StOk(Begin(st, name).value, true)
  {
  }

  lemma ParsedNode(s: Bytes, b: Body, p: nat, inPartition: bool, strings: Bytes, offs: Offsets, st: Parsed)
    requires b.Node? && Wf(b) && StOk(st, inPartition) && p + 4 * Words(b) <= |s|
    requires ParseBody(s, b, p, inPartition, strings, offs, st).Ok?
    ensures !inPartition && Begin(st, b.name).Ok? && StOk(Begin(st, b.name).value, true)
    ensures var st1, q := Begin(st, b.name).value, p + 4 + 4 * Steps(|b.name| + 1);
            && q + 4 * Words(b.child) + 4 * Words(b.rest) <= |s|
            && ParseBody(s, b.child, q, true, strings, offs, st1).Ok?
            && StOk(ParseBody(s, b.child, q, true, strings, offs, st1).value, false)
            && ParseBody(s, b, p, inPartition, strings, offs, st)
               == ParseBody(s, b.rest, q + 4 * Words(b.child), false, strings, offs,
                            ParseBody(s, b.child, q, true, strings, offs, st1).value)
  {
    hide Steps;
  }

  lemma ParsedProp(s: Bytes, b: Body, p: nat, inPartition: bool, strings: Bytes, offs: Offsets, st: Parsed)
    requires b.Prop? && Wf(b) && StOk(st, inPartition) && p + 4 * Words(b) <= |s|
    requires ParseBody(s, b, p, inPartition, strings, offs, st).Ok?
    ensures p + 12 + |b.value| <= |s| && PropStep(s, p + 12, b.nameOff, |b.value|, strings, offs, inPartition, st).Ok?
    ensures var st1, q := PropStep(s, p + 12, b.nameOff, |b.value|, strings, offs, inPartition, st).value, p + 12
              + 4 * Steps(|b.value|);
            && Wf(b.rest) && StOk(st1, inPartition) && q + 4 * Words(b.rest) <= |s|
            && ParseBody(s, b, p, inPartition, strings, offs, st)
                 == ParseBody(s, b.rest, q, inPartition, strings, offs, st1)
  {
    hide Steps, PropStep;
    StepsCover(|b.value|);
  }

  lemma ParsedPlain(s: Bytes, b: Body, p: nat, inPartition: bool, strings: Bytes, offs: Offsets, st: Parsed)
    requires (b.End? || b.Nop?) && Wf(b) && StOk(st, inPartition) && p + 4 * Words(b) <= |s|
    requires ParseBody(s, b, p, inPartition, strings, offs, st).Ok?
    ensures b.End? ==> ParseBody(s, b, p, inPartition, strings, offs, st) == Ok(st)
    ensures b.Nop? ==>
              && p + 4 + 4 * Words(b.rest) <= |s|
              && ParseBody(s, b, p, inPartition, strings, offs, st)
                   == ParseBody(s, b.rest, p + 4, inPartition, strings, offs, st)
  {
  }

  /** Parsing a node only ever records phandles that the node and its children claim. */
  lemma {:induction false} ParsedPhandles(s: Bytes, b: Body, p: nat, inPartition: bool, strings: Bytes, offs: Offsets,
                                          st: Parsed, offLinux: u32, hs: set<nat>)
    requires Wf(b) && StOk(st, inPartition) && p + 4 * Words(b) <= |s| && At(s, p, Ser(b)) && PhandlesIn(st, hs)
    requires ParseBody(s, b, p, inPartition, strings, offs, st).Ok? && offs.phandle < U32_LIMIT
    requires All(b, Pair(offs.phandle, offLinux)) <= hs
    ensures PhandlesIn(ParseBody(s, b, p, inPartition, strings, offs, st).value, hs)
    decreases b
  {
    hide At, Ser, PropStep, Steps, All, PhandlesIn, Begin, Read32, ParseBody, StOk, PropValues;
    AllOfParts(b, Pair(offs.phandle, offLinux), hs);
    match b
    case End => ParsedPlain(s, b, p, inPartition, strings, offs, st);
    case Nop(rest) =>
      ParsedPlain(s, b, p, inPartition, strings, offs, st);
      EnterToken(s, p, b);
      ParsedPhandles(s, rest, p + 4, inPartition, strings, offs, st, offLinux, hs);
    case Prop(nameOff, value, pad, rest) =>
      ParsedProp(s, b, p, inPartition, strings, offs, st);
      PropAt(s, p, b);
      PropPhandles(s, p + 12, b, inPartition, strings, offs, st, offLinux, hs);
      ParsedPhandles(s, rest, p + 12 + 4 * Steps(|value|), inPartition, strings, offs,
                     PropStep(s, p + 12, nameOff, |value|, strings, offs, inPartition, st).value, offLinux, hs);
    case Node(name, _, child, rest) =>
      EnterToken(s, p, b);
      ParsedNode(s, b, p, inPartition, strings, offs, st);
      BeginPhandles(st, name, hs);
      var st1 := Begin(st, name).value;
      var q := p + 4 + 4 * Steps(|name| + 1);
      ParsedPhandles(s, child, q, true, strings, offs, st1, offLinux, hs);
      ParsedPhandles(s, rest, q + 4 * Words(child), false, strings, offs,
                     ParseBody(s, child, q, true, strings, offs, st1).value, offLinux, hs);
  }

  lemma PropAt(s: Bytes, p: nat, b: Body)
    requires b.Prop? && Wf(b) && At(s, p, Ser(b))
    ensures p + 12 + |b.value| <= |s| && At(s, p + 12, b.value)
    ensures Wf(b.rest) && At(s, p + 12 + 4 * Steps(|b.value|), Ser(b.rest))
  {
    hide At;
    AtProp(s, p, b.nameOff, b.value, b.pad, Ser(b.rest));
  }
}
