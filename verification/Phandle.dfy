/** The phandle list of src/dts.c: who owns each phandle of a device tree, and which ones are free. */
module Phandle {
  import opened Util
  import opened Fdt
  import opened Walk

  /** The node pointer of an entry: NULL, a node of the tree, or the mark of a phandle handed out since. */
  datatype Owner = Nobody | NodeAt(p: nat) | Assigned

  /** struct dts_phandle_entry; the two status bits are kept apart. */
  datatype Slot = Slot(owner: Owner, phandle: bool, linux: bool)

  const EMPTY: Slot := Slot(Nobody, false, false)

  // ---- What the properties of a tree claim ----

  /** A phandle property met on the way: its value and the node it stands in, or a property of the wrong length. */
  datatype Claim = Claim(value: nat, owner: nat, linux: bool) | Malformed

  predicate IsPhandleProp(nameOff: u32, offPhandle: u32, offLinux: u32) {
    nameOff == offPhandle || nameOff == offLinux
  }

  function ClaimOf(nameOff: u32, value: Bytes, owner: nat, offPhandle: u32): Claim {
    if |value| == 4 then Claim(Read32(value, 0), owner, nameOff != offPhandle) else Malformed
  }

  /** The claims of a body at p that belongs to the node at `owner`, in the order they are met. */
  function Claims(b: Body, owner: nat, p: nat, offPhandle: u32, offLinux: u32): seq<Claim> {
    match b
    case End => []
    case Nop(rest) => Claims(rest, owner, p + 4, offPhandle, offLinux)
    case Prop(nameOff, value, _, rest) =>
      (if IsPhandleProp(nameOff, offPhandle, offLinux) then [ClaimOf(nameOff, value, owner, offPhandle)] else [])
      + Claims(rest, owner, p + 12 + 4 * Steps(|value|), offPhandle, offLinux)
    case Node(name, _, child, rest) =>
      Claims(child, p + 4, p + 4 + 4 * Steps(|name| + 1), offPhandle, offLinux)
      + Claims(rest, owner, p + 4 * (NodeSteps(name, child) + 2), offPhandle, offLinux)
  }

  /** Doubling until v is a valid index; None when the 32-bit count would wrap. */
  function Grow(e: seq<Slot>, v: nat): Option<seq<Slot>>
    requires e != []
    decreases v - |e|
  {
    if v < |e| then Some(e)
    else if 2 * |e| >= U32_LIMIT then None
    else Grow(e + seq(|e|, _ => EMPTY), v)
  }

  function Record(e: seq<Slot>, c: Claim): (r: Option<seq<Slot>>)
    requires e != []
    ensures r.Some? ==> r.value != []
  {
    if c.Malformed? then None
    else
      match Grow(e, c.value)
      case None => None
      case Some(g) =>
        if c.value >= |g| then None
        else
          var slot := g[c.value];
          if slot.owner != Nobody && slot.owner != NodeAt(c.owner) then None
          else Some(g[c.value := Slot(NodeAt(c.owner), slot.phandle || !c.linux, slot.linux || c.linux)])
  }

  function RecordAll(e: seq<Slot>, claims: seq<Claim>): (r: Option<seq<Slot>>)
    requires e != []
    ensures r.Some? ==> r.value != []
    decreases |claims|
  {
    if claims == [] then Some(e)
    else
      match Record(e, claims[0])
      case None => None
      case Some(e') => RecordAll(e', claims[1..])
  }

  lemma {:induction false} RecordAppend(e: seq<Slot>, a: seq<Claim>, b: seq<Claim>)
    requires e != []
    ensures RecordAll(e, a + b) == match RecordAll(e, a) case None => None case Some(e') => RecordAll(e', b)
    decreases |a|
  {
    if a == [] {
      assert a + b == b;
    } else {
      assert (a + b)[0] == a[0] && (a + b)[1..] == a[1..] + b;
      match Record(e, a[0])
      case None =>
      case Some(e') => RecordAppend(e', a[1..], b);
    }
  }

  lemma RecordOne(e: seq<Slot>, c: Claim, rest: seq<Claim>)
    requires e != []
    ensures RecordAll(e, [c] + rest) == match Record(e, c) case None => None case Some(e') => RecordAll(e', rest)
  {
    assert ([c] + rest)[1..] == rest;
  }

  // ---- What a recorded list means ----

  predicate Held(e: seq<Slot>, h: nat) {
    h < |e| && e[h].owner != Nobody
  }

  predicate HeldBy(e: seq<Slot>, h: nat, o: Owner) {
    h < |e| && e[h].owner == o
  }

  ghost predicate IsClaimed(claims: seq<Claim>, h: nat, n: nat) {
    exists k :: 0 <= k < |claims| && claims[k].Claim? && claims[k].value == h && claims[k].owner == n
  }

  lemma {:induction false} GrowKeeps(e: seq<Slot>, v: nat)
    requires e != []
    ensures var g := Grow(e, v); g.Some? ==>
              && v < |g.value| && |e| <= |g.value| && g.value[..|e|] == e
              && forall h :: |e| <= h < |g.value| ==> g.value[h] == EMPTY
    decreases v - |e|
  {
    if v >= |e| && 2 * |e| < U32_LIMIT {
      var e' := e + seq(|e|, _ => EMPTY);
      GrowKeeps(e', v);
      var g := Grow(e', v);
      if g.Some? {
        assert e'[..|e|] == g.value[..|e'|][..|e|] == g.value[..|e|];
        forall h | |e| <= h < |g.value|
          ensures g.value[h] == EMPTY
        {
          if h < |e'| {
            assert g.value[h] == g.value[..|e'|][h];
          }
        }
      }
    }
  }

  /** Recording one claim gives its phandle to its node and leaves every other phandle with its owner. */
  lemma RecordMeans(e: seq<Slot>, c: Claim)
    requires e != [] && Record(e, c).Some?
    ensures var e' := Record(e, c).value;
            && c.Claim? && HeldBy(e', c.value, NodeAt(c.owner))
            && (Held(e, c.value) ==> HeldBy(e, c.value, NodeAt(c.owner)))
            && forall h, o :: o != Nobody && h != c.value ==> (HeldBy(e', h, o) <==> HeldBy(e, h, o))
  {
    GrowKeeps(e, c.value);
    var g := Grow(e, c.value).value;
    forall h: nat | h < |e|
      ensures g[h] == e[h]
    {
      assert g[h] == g[..|e|][h];
    }
  }

  /** After a successful walk a node of the tree owns a phandle exactly when one of its properties claims it. */
  lemma {:induction false} RecordedExactly(e: seq<Slot>, claims: seq<Claim>, h: nat, n: nat)
    requires e != [] && RecordAll(e, claims).Some?
    ensures HeldBy(RecordAll(e, claims).value, h, NodeAt(n)) <==> HeldBy(e, h, NodeAt(n)) || IsClaimed(claims, h, n)
    decreases |claims|
  {
    hide HeldBy;
    if claims != [] {
      var e' := Record(e, claims[0]).value;
      RecordMeans(e, claims[0]);
      RecordedExactly(e', claims[1..], h, n);
      ClaimedSplit(claims, h, n);
      OneOwner(e', h, n, claims[0].owner);
      OneOwner(e, h, n, claims[0].owner);
    }
  }

  lemma OneOwner(e: seq<Slot>, h: nat, n: nat, m: nat)
    ensures HeldBy(e, h, NodeAt(n)) && HeldBy(e, h, NodeAt(m)) ==> n == m
    ensures HeldBy(e, h, NodeAt(n)) ==> Held(e, h)
  {
  }

  lemma ClaimedSplit(claims: seq<Claim>, h: nat, n: nat)
    requires claims != []
    ensures IsClaimed(claims, h, n) <==>
              (claims[0].Claim? && claims[0].value == h && claims[0].owner == n) || IsClaimed(claims[1..], h, n)
  {
    if IsClaimed(claims[1..], h, n) {
      var k :| 0 <= k < |claims[1..]| && claims[1..][k].Claim? && claims[1..][k].value == h
        && claims[1..][k].owner == n;
      assert claims[k + 1] == claims[1..][k];
    }
    if IsClaimed(claims, h, n) {
      var k :| 0 <= k < |claims| && claims[k].Claim? && claims[k].value == h && claims[k].owner == n;
      if k > 0 {
        assert claims[1..][k - 1] == claims[k];
      }
    }
  }

  /** No phandle belongs to two nodes. */
  ghost predicate UniqueOwners(claims: seq<Claim>) {
    forall h, n, m :: IsClaimed(claims, h, n) && IsClaimed(claims, h, m) ==> n == m
  }

  lemma RecordedIsUnique(e: seq<Slot>, claims: seq<Claim>)
    requires e != [] && RecordAll(e, claims).Some?
    ensures UniqueOwners(claims)
  {
    forall h, n, m | IsClaimed(claims, h, n) && IsClaimed(claims, h, m)
      ensures n == m
    {
      RecordedExactly(e, claims, h, n);
      RecordedExactly(e, claims, h, m);
    }
  }

  // ---- The list ----

  /** The free slots below h, not counting phandle 0. */
  function Spare(e: seq<Slot>, h: nat): nat
    requires h <= |e|
  {
    if h <= 1 then 0 else Spare(e, h - 1) + (if e[h - 1].owner == Nobody then 1 else 0)
  }

  /** n more phandles can be handed out, with at most one doubling. */
  predicate Enough(e: seq<Slot>, n: nat) {
    n <= Spare(e, |e|) || (2 * |e| < U32_LIMIT && n <= Spare(e, |e|) + |e|)
  }

  lemma {:induction false} SpareTake(e: seq<Slot>, r: nat, slot: Slot, h: nat)
    requires r < |e| && h <= |e| && 1 <= r && e[r].owner == Nobody && slot.owner != Nobody
    ensures Spare(e[r := slot], h) == Spare(e, h) - if r < h then 1 else 0
  {
    if h > 1 {
      SpareTake(e, r, slot, h - 1);
    }
  }

  lemma {:induction false} SpareGrow(e: seq<Slot>, m: nat, h: nat)
    requires 1 <= |e| && h <= |e| + m
    ensures Spare(e + seq(m, _ => EMPTY), h) == Spare(e, Min(h, |e|)) + Max(0, h - |e|)
  {
    if h > 1 {
      SpareGrow(e, m, h - 1);
    }
  }

  // ---- There is always room for the phandles of a new node ----

  lemma {:induction false} SpareSet(e: seq<Slot>, r: nat, slot: Slot, h: nat)
    requires r < |e| && h <= |e|
    ensures Spare(e[r := slot], h) + (if r < h then 1 else 0) >= Spare(e, h)
  {
    if h > 1 {
      SpareSet(e, r, slot, h - 1);
    }
  }

  lemma {:induction false} SpareGrown(e: seq<Slot>, v: nat)
    requires e != [] && Grow(e, v).Some?
    ensures var g := Grow(e, v).value;
            Spare(g, |g|) == Spare(e, |e|) + |g| - |e| && (|e| < U32_LIMIT ==> |g| < U32_LIMIT)
    decreases v - |e|
  {
    if v >= |e| {
      SpareGrow(e, |e|, 2 * |e|);
      SpareGrown(e + seq(|e|, _ => EMPTY), v);
    }
  }

  /** Every claim takes at most one free slot. */
  lemma {:induction false} SpareRecorded(e: seq<Slot>, claims: seq<Claim>)
    requires e != [] && RecordAll(e, claims).Some?
    ensures var e' := RecordAll(e, claims).value;
            |e| <= |e'| && Spare(e', |e'|) + |claims| >= Spare(e, |e|) + |e'| - |e|
            && (|e| < U32_LIMIT ==> |e'| < U32_LIMIT)
    decreases |claims|
  {
    if claims != [] {
      var c := claims[0];
      GrowKeeps(e, c.value);
      SpareGrown(e, c.value);
      var g := Grow(e, c.value).value;
      var e' := Record(e, c).value;
      SpareSet(g, c.value, e'[c.value], |g|);
      SpareRecorded(e', claims[1..]);
    }
  }

  lemma {:induction false} SpareDropped(e: seq<Slot>, freed: seq<nat>, h: nat)
    requires h <= |e|
    ensures Spare(Dropped(e, freed), h) >= Spare(e, h)
  {
    if h > 1 {
      SpareDropped(e, freed, h - 1);
    }
  }

  lemma {:induction false} SpareEmpty(n: nat, h: nat)
    requires h <= n
    ensures Spare(seq(n, _ => EMPTY), h) == if h <= 1 then 0 else h - 1
  {
    if h > 1 {
      SpareEmpty(n, h - 1);
    }
  }

  lemma {:induction false} ClaimsCount(b: Body, owner: nat, p: nat, offPhandle: u32, offLinux: u32)
    ensures |Claims(b, owner, p, offPhandle, offLinux)| < Words(b)
  {
    hide Steps, ClaimOf;
    match b
    case End =>
    case Nop(rest) => ClaimsCount(rest, owner, p + 4, offPhandle, offLinux);
    case Prop(_, value, _, rest) => ClaimsCount(rest, owner, p + 12 + 4 * Steps(|value|), offPhandle, offLinux);
    case Node(name, _, child, rest) =>
      ClaimsCount(child, p + 4, p + 4 + 4 * Steps(|name| + 1), offPhandle, offLinux);
      ClaimsCount(rest, owner, p + 4 * (NodeSteps(name, child) + 2), offPhandle, offLinux);
  }

  /** A tree that fits into memory never claims so many phandles that assigning new ones could fail. */
  lemma CollectedIsEnough(claims: seq<Claim>, freed: seq<nat>, n: nat)
    requires RecordAll(seq(128, _ => EMPTY), claims).Some? && |claims| < 0x4000_0000 && n <= 128
    ensures var e := RecordAll(seq(128, _ => EMPTY), claims).value; 1 < |e| < U32_LIMIT && Enough(Dropped(e, freed), n)
  {
    var e0 := seq(128, _ => EMPTY);
    SpareEmpty(128, 128);
    SpareRecorded(e0, claims);
    SpareDropped(RecordAll(e0, claims).value, freed, |RecordAll(e0, claims).value|);
  }

  class PhandleList {
    var entries: seq<Slot>
    var hasPhandle: bool
    var hasLinux: bool
    var min: nat
    var max: nat

    constructor ()
      ensures entries == seq(128, _ => EMPTY) && !hasPhandle && !hasLinux && min == max == 0
    {
      entries := seq(128, _ => EMPTY);
      hasPhandle, hasLinux, min, max := false, false, 0, 0;
    }

    /** dts_phandle_list_realloc: the count is 32 bits wide, so the last doubling fails. */
    method Realloc() returns (r: int)
      requires entries != []
      modifies this`entries
      ensures r == 0 <==> 2 * |old(entries)| < U32_LIMIT
      ensures entries == old(entries) + if r == 0 then seq(|old(entries)|, _ => EMPTY) else []
    {
      if 2 * |entries| >= U32_LIMIT {
        return 1;
      }
      entries := entries + seq(|entries|, _ => EMPTY);
      return 0;
    }

    method GrowTo(phandle: nat) returns (r: int)
      requires entries != []
      modifies this`entries
      ensures entries != []
      ensures (r == 0) == Grow(old(entries), phandle).Some?
      ensures r == 0 ==> Grow(old(entries), phandle) == Some(entries) && phandle < |entries|
    {
      while phandle >= |entries|
        invariant entries != [] && Grow(entries, phandle) == Grow(old(entries), phandle)
        decreases phandle - |entries|
      {
        var s := Realloc();
        if s != 0 {
          return 1;
        }
      }
      return 0;
    }

    /** dts_get_phandles_recursive_parse_prop, for the property at `current` of the node at `node`. */
    method ParseProp(s: Bytes, current: nat, node: nat, offPhandle: u32, offLinux: u32, ghost nameOff: u32,
                     ghost value: Bytes) returns (r: int)
      requires entries != []
      requires current + 12 + |value| <= |s| && Read32(s, current + 4) == |value| && Read32(s, current + 8) == nameOff
      requires At(s, current + 12, value)
      modifies this`entries
      ensures entries != []
      ensures !IsPhandleProp(nameOff, offPhandle, offLinux) ==> r == 0 && entries == old(entries)
      ensures IsPhandleProp(nameOff, offPhandle, offLinux) ==>
                var e := Record(old(entries), ClaimOf(nameOff, value, node, offPhandle));
                (r == 0 <==> e.Some?) && (r == 0 ==> e == Some(entries))
    {
      var lenProp := Read32(s, current + 4);
      var nameOff' := Read32(s, current + 8);
      if nameOff' == offPhandle || nameOff' == offLinux {
        if lenProp != 4 {
          return 1;
        }
        SameWord(s, current + 12, value);
        var phandle := Read32(s, current + 12);
        r := GrowTo(phandle);
        if r != 0 {
          return 1;
        }
        var slot := entries[phandle];
        if slot.owner != Nobody && slot.owner != NodeAt(node) {
          return 1;
        }
        var linux := nameOff' != offPhandle;
        entries := entries[phandle := Slot(NodeAt(node), slot.phandle || !linux, slot.linux || linux)];
      }
      return 0;
    }

    /** dts_get_phandles_recursive. */
    method GetPhandles(s: Bytes, node: nat, maxOffset: nat, offPhandle: u32, offLinux: u32, ghost t: Tree)
      returns (r: nat)
      requires entries != [] && IsNodeAt(s, node, t)
      modifies this`entries
      ensures entries != []
      ensures var e :=
                RecordAll(old(entries), Claims(t.body, node, node + 4 * Steps(|t.name| + 1), offPhandle, offLinux));
              && r == (if e.Some? then WalkResult(t.name, t.body, maxOffset) else 0)
              && (r != 0 ==> e == Some(entries))
      decreases Words(t.body)
    {
      hide IsNodeAt, Walking, Read32, StringAt, Steps, Claims, RecordAll, Record, At;
      var count := maxOffset / 4;
      if count == 0 {
        return 0;
      }
      Enter(s, node, t);
      var startSteps := Steps(|StringAt(s, node)| + 1);
      var start := node + 4 * startSteps;
      ghost var rest := t.body;
      ghost var goal := RecordAll(entries, Claims(t.body, node, start, offPhandle, offLinux));
      var i := 0;
      Look(s, start, i, t.body, rest);
      while i < count
        invariant Walking(s, start, i, t.body, rest) && i + Words(rest) == Words(t.body)
        invariant entries != [] && RecordAll(entries, Claims(rest, node, start + 4 * i, offPhandle, offLinux)) == goal
      {
        var current := start + 4 * i;
        Look(s, start, i, t.body, rest);
        CollectStep(entries, rest, node, current, offPhandle, offLinux);
        var token := Read32(s, current);
        if token == BEGIN_NODE {
          StepNode(s, start, i, t.body, rest);
          var offsetChild :=
            GetPhandles(s, current + 4, maxOffset - 4 * i, offPhandle, offLinux, Tree(rest.name, rest.pad, rest.child));
          if offsetChild == 0 {
            return 0;
          }
          i := i + offsetChild + 1;
        } else if token == END_NODE {
          return i + startSteps;
        } else if token == PROP {
          StepProp(s, start, i, t.body, rest);
          var bad := ParseProp(s, current, node, offPhandle, offLinux, rest.nameOff, rest.value);
          if bad != 0 {
            return 0;
          }
          i := SkipProp(i, Read32(s, current + 4));
        } else {
          assert token == NOP;
          StepNop(s, start, i, t.body, rest);
        }
        i, rest := i + 1, rest.rest;
      }
      return 0;
    }

    /** dts_phandle_list_finish. Its errors 3, 4, 6 and 7 are never reached. */
    method Finish() returns (r: int)
      requires entries != [] && Consistent(entries) && !hasPhandle && !hasLinux && min == max == 0
      modifies this`hasPhandle, this`hasLinux, this`min, this`max
      ensures r == 0 <==> !Held(entries, 0) && exists h :: 1 <= h < |entries| && Held(entries, h)
      ensures r == 0 ==> (hasPhandle <==> exists h :: 1 <= h < |entries| && entries[h].phandle)
      ensures r == 0 ==> (hasLinux <==> exists h :: 1 <= h < |entries| && entries[h].linux)
      ensures r == 0 ==> Held(entries, min) && Held(entries, max)
      ensures r == 0 ==> forall h: nat :: Held(entries, h) ==> 1 <= min <= h <= max
    {
      if entries[0].owner != Nobody {
        return 1;
      }
      if entries[0].phandle || entries[0].linux {
        assert false;
      }
      for i := 1 to |entries|
        invariant hasPhandle <==> exists h :: 1 <= h < i && entries[h].phandle
        invariant hasLinux <==> exists h :: 1 <= h < i && entries[h].linux
        invariant min != 0 <==> hasPhandle || hasLinux
        invariant min == 0 <==> max == 0
        invariant min != 0 ==> Held(entries, min) && Held(entries, max) && min <= max < i
        invariant forall h: nat :: 1 <= h < i && Held(entries, h) ==> 1 <= min <= h <= max
      {
        if entries[i].owner != Nobody {
          if !entries[i].phandle && !entries[i].linux {
            assert false;
          }
          hasPhandle, hasLinux := hasPhandle || entries[i].phandle, hasLinux || entries[i].linux;
          max := i;
          if min == 0 {
            min := i;
          }
        } else if entries[i].phandle || entries[i].linux {
          assert false;
        }
      }
      if !hasPhandle && !hasLinux {
        return 5;
      }
      return 0;
    }

    /** dts_drop_partitions_phandles: `partitions` and `root` are the phandles of the old partitions node. */
    method Drop(partitions: seq<nat>, root: nat) returns (r: int)
      requires root < |entries|
      modifies this`entries
      ensures r == 0 <==> forall i :: 0 <= i < |partitions| ==> partitions[i] < |old(entries)|
      ensures r == 0 ==> entries == Dropped(old(entries), partitions + [root])
    {
      ghost var was := entries;
      for i := 0 to |partitions|
        invariant entries == Dropped(was, partitions[..i])
        invariant forall j :: 0 <= j < i ==> partitions[j] < |was|
      {
        var phandle := partitions[i];
        assert partitions[..i + 1] == partitions[..i] + [phandle];
        if phandle == 0 {
          continue;
        }
        if phandle >= |entries| {
          return 1;
        }
        entries := entries[phandle := EMPTY];
      }
      assert partitions[..|partitions|] == partitions;
      if root != 0 {
        entries := entries[root := EMPTY];
      }
      return 0;
    }

    /** dts_assign_available_phandle: the least free phandle from 1 on. */
    method Assign() returns (r: nat)
      requires |entries| > 1
      modifies this`entries
      ensures r == 0 ==> entries == old(entries) && Spare(entries, |entries|) == 0 && 2 * |entries| >= U32_LIMIT
      ensures r != 0 ==> !Held(old(entries), r) && forall h :: 1 <= h < r ==> Held(old(entries), h)
      ensures r != 0 ==> var e := old(entries) + if r < |old(entries)| then [] else seq(|old(entries)|, _ => EMPTY);
                         r < |e| && entries == e[r := Slot(Assigned, hasPhandle, hasLinux)]
      ensures |old(entries)| < U32_LIMIT ==> |entries| < U32_LIMIT
      ensures forall n: nat :: n > 0 && Enough(old(entries), n) ==> r != 0 && Enough(entries, n - 1)
    {
      var i := 1;
      while true
        invariant entries == old(entries) && 1 <= i <= |entries|
        invariant Spare(entries, i) == 0 && forall h :: 1 <= h < i ==> Held(entries, h)
        decreases |entries| - i
      {
        if i >= |entries| {
          SpareGrow(entries, |entries|, 2 * |entries|);
          var s := Realloc();
          if s != 0 {
            return 0;
          }
        }
        if entries[i].owner == Nobody {
          SpareTake(entries, i, Slot(Assigned, hasPhandle, hasLinux), |entries|);
          entries := entries[i := Slot(Assigned, hasPhandle, hasLinux)];
          return i;
        }
        i := i + 1;
      }
    }
  }

  /** The list with these phandles free again; phandle 0 stands for a property that is not there. */
  function Dropped(e: seq<Slot>, freed: seq<nat>): seq<Slot> {
    seq(|e|, h requires 0 <= h < |e| => if h != 0 && h in freed then EMPTY else e[h])
  }

  /** Owner and status bits are only ever set together. */
  ghost predicate Consistent(e: seq<Slot>) {
    forall h :: 0 <= h < |e| ==> (e[h].owner != Nobody <==> e[h].phandle || e[h].linux)
  }

  lemma {:induction false} RecordAllConsistent(e: seq<Slot>, claims: seq<Claim>)
    requires e != [] && Consistent(e) && RecordAll(e, claims).Some?
    ensures Consistent(RecordAll(e, claims).value)
    decreases |claims|
  {
    if claims != [] {
      var c := claims[0];
      GrowKeeps(e, c.value);
      var g := Grow(e, c.value).value;
      assert forall h :: 0 <= h < |e| ==> g[h] == g[..|e|][h];
      RecordAllConsistent(Record(e, c).value, claims[1..]);
    }
  }

  lemma SameWord(s: Bytes, p: nat, value: Bytes)
    requires At(s, p, value) && |value| == 4
    ensures p + 4 <= |s| && Read32(s, p) == Read32(value, 0)
  {
    forall k | 0 <= k < 4
      ensures s[p + k] == value[k]
    {
      AtByte(s, p, value, k);
    }
  }

  lemma CollectStep(e: seq<Slot>, b: Body, owner: nat, p: nat, offPhandle: u32, offLinux: u32)
    requires e != []
    ensures var r := RecordAll(e, Claims(b, owner, p, offPhandle, offLinux));
            match b
            case End => r == Some(e)
            case Nop(rest) => r == RecordAll(e, Claims(rest, owner, p + 4, offPhandle, offLinux))
            case Prop(nameOff, value, _, rest) =>
              var claims := Claims(rest, owner, p + 12 + 4 * Steps(|value|), offPhandle, offLinux);
              if IsPhandleProp(nameOff, offPhandle, offLinux) then
                r == match Record(e,
                                  ClaimOf(nameOff, value, owner,
                                          offPhandle)) case None => None case Some(e') => RecordAll(e', claims)
              else r == RecordAll(e, claims)
            case Node(name, _, child, rest) =>
              r == match RecordAll(e, Claims(child, p + 4, p + 4 + 4 * Steps(|name| + 1), offPhandle, offLinux))
                   case None => None
                   case Some(e') => RecordAll(e',
                                              Claims(rest, owner, p + 4 * (NodeSteps(name, child) + 2), offPhandle,
                                                     offLinux))
  {
    hide Record, ClaimOf, Grow;
    if b.Prop? {
      CollectProp(e, b, owner, p, offPhandle, offLinux);
    } else if b.Node? {
      CollectNode(e, b, owner, p, offPhandle, offLinux);
    }
  }

  lemma CollectProp(e: seq<Slot>, b: Body, owner: nat, p: nat, offPhandle: u32, offLinux: u32)
    requires e != [] && b.Prop?
    ensures var r := RecordAll(e, Claims(b, owner, p, offPhandle, offLinux));
            var claims := Claims(b.rest, owner, p + 12 + 4 * Steps(|b.value|), offPhandle, offLinux);
            if IsPhandleProp(b.nameOff, offPhandle, offLinux) then
              r == match Record(e,
                                ClaimOf(b.nameOff, b.value, owner,
                                        offPhandle)) case None => None case Some(e') => RecordAll(e', claims)
            else r == RecordAll(e, claims)
  {
    hide Record, ClaimOf, RecordAll, Steps;
    var claims := Claims(b.rest, owner, p + 12 + 4 * Steps(|b.value|), offPhandle, offLinux);
    RecordOne(e, ClaimOf(b.nameOff, b.value, owner, offPhandle), claims);
    assert [] + claims == claims;
  }

  lemma CollectNode(e: seq<Slot>, b: Body, owner: nat, p: nat, offPhandle: u32, offLinux: u32)
    requires e != [] && b.Node?
    ensures RecordAll(e, Claims(b, owner, p, offPhandle, offLinux)) ==
            match RecordAll(e, Claims(b.child, p + 4, p + 4 + 4 * Steps(|b.name| + 1), offPhandle, offLinux))
            case None => None
            case Some(e') => RecordAll(e',
                                       Claims(b.rest, owner, p + 4 * (NodeSteps(b.name, b.child) + 2), offPhandle,
                                              offLinux))
  {
    hide Record, ClaimOf, RecordAll, Steps, NodeSteps;
    RecordAppend(e, Claims(b.child, p + 4, p + 4 + 4 * Steps(|b.name| + 1), offPhandle, offLinux),
                 Claims(b.rest, owner, p + 4 * (NodeSteps(b.name, b.child) + 2), offPhandle, offLinux));
  }
}
