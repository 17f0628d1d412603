/** Which phandles a new partitions node gets: the least that nothing outside the old one claims. */
module LeastPhandles {
  import opened Util
  import opened Fdt
  import opened Walk
  import opened StringBlock
  import opened Phandle
  import opened Partitions
  import opened NodeMeaning
  import opened Compose
  import opened RoundTrip
  import opened Splice
  import opened PhandleSafety
  import opened NewPhandles
  import opened Target
  import opened Dtb
  import opened Implement

  // ---- What is collected is what is claimed ----

  lemma {:induction false} HeldIsClaimed(e: seq<Slot>, claims: seq<Claim>, h: nat)
    requires e != [] && RecordAll(e, claims).Some? && Held(RecordAll(e, claims).value, h)
    ensures Held(e, h) || exists n :: IsClaimed(claims, h, n)
    decreases |claims|
  {
    if claims != [] {
      var c, e' := claims[0], Record(e, claims[0]).value;
      HeldIsClaimed(e', claims[1..], h);
      RecordMeans(e, c);
      if Held(e', h) {
        if h == c.value {
          ClaimedSplit(claims, h, c.owner);
        } else {
          assert HeldBy(e', h, e'[h].owner);
        }
      } else {
        var n :| IsClaimed(claims[1..], h, n);
        ClaimedSplit(claims, h, n);
      }
    }
  }

  lemma ClaimedIn(a: seq<Claim>, b: seq<Claim>, h: nat, n: nat)
    requires IsClaimed(a + b, h, n)
    ensures IsClaimed(a, h, n) || IsClaimed(b, h, n)
  {
    var k :| 0 <= k < |a + b| && (a + b)[k].Claim? && (a + b)[k].value == h && (a + b)[k].owner == n;
    if k < |a| {
      assert a[k] == (a + b)[k];
    } else {
      assert b[k - |a|] == (a + b)[k];
    }
  }

  lemma OneIsClaimed(c: Claim, h: nat, n: nat)
    requires IsClaimed([c], h, n)
    ensures c.Claim? && c.value == h
  {
  }

  /** Every claim is one of a node of the tree. */
  lemma {:induction false} ClaimedIsAll(b: Body, owner: nat, p: nat, offPhandle: u32, offLinux: u32, h: nat, n: nat)
    requires IsClaimed(Claims(b, owner, p, offPhandle, offLinux), h, n)
    ensures h in All(b, Pair(offPhandle, offLinux))
    decreases b
  {
    hide IsClaimed, Steps;
    match b
    case End => NothingClaimed(h, n);
    case Nop(rest) => ClaimedIsAll(rest, owner, p + 4, offPhandle, offLinux, h, n);
    case Prop(nameOff, value, _, rest) =>
      var here := if IsPhandleProp(nameOff, offPhandle, offLinux) then [ClaimOf(nameOff, value, owner, offPhandle)]
        else [];
      var q := p + 12 + 4 * Steps(|value|);
      ClaimedIn(here, Claims(rest, owner, q, offPhandle, offLinux), h, n);
      if IsClaimed(here, h, n) {
        if here == [] {
          NothingClaimed(h, n);
        } else {
          OneIsClaimed(here[0], h, n);
        }
      } else {
        ClaimedIsAll(rest, owner, q, offPhandle, offLinux, h, n);
      }
    case Node(name, _, child, rest) =>
      var q, c := p + 4 * (NodeSteps(name, child) + 2), p + 4 + 4 * Steps(|name| + 1);
      var below, after := Claims(child, p + 4, c, offPhandle, offLinux), Claims(rest, owner, q, offPhandle, offLinux);
      ClaimedIn(below, after, h, n);
      if IsClaimed(below, h, n) {
        ClaimedIsAll(child, p + 4, c, offPhandle, offLinux, h, n);
      } else {
        ClaimedIsAll(rest, owner, q, offPhandle, offLinux, h, n);
      }
  }

  lemma NothingClaimed(h: nat, n: nat)
    ensures !IsClaimed([], h, n)
  {
  }

  /** The collected list holds only what some node claims. */
  lemma CollectedIsClaimed(d: Bytes, t: Dts, offPhandle: u32, offLinux: u32, h: nat)
    requires HEADER_SIZE <= |d| && Collected(d, t, offPhandle, offLinux).Some?
    requires Held(Collected(d, t, offPhandle, offLinux).value, h)
    ensures h in All(t.body, Pair(offPhandle, offLinux))
  {
    hide RecordAll, Claims, IsClaimed, All;
    var e0, at := seq(128, _ => EMPTY), BodyAt(d, t);
    var claims := Claims(t.body, at - 4, at, offPhandle, offLinux);
    HeldIsClaimed(e0, claims, h);
    var n :| IsClaimed(claims, h, n);
    ClaimedIsAll(t.body, at - 4, at, offPhandle, offLinux, h, n);
  }

  // ---- The old node ----

  /** The node claims no other phandle than that of its last "phandle" property. */
  ghost predicate ClaimsOne(b: Body, offPhandle: u32, offLinux: u32) {
    forall v :: v in Own(b, Pair(offPhandle, offLinux)) ==> v == NumberOr(LastValue(Props(b), offPhandle), 0)
  }

  /** The same for the partitions node and each of its partitions. */
  ghost predicate PlainPhandles(c: Tree, offPhandle: u32, offLinux: u32) {
    ClaimsOne(c.body, offPhandle, offLinux) && forall k :: k in Nodes(c.body) ==>
      ClaimsOne(k.body, offPhandle, offLinux)
  }

  lemma {:induction false} SubIsOfNode(b: Body, places: set<nat>, v: nat) returns (k: Tree)
    requires v in Sub(b, places)
    ensures k in Nodes(b) && v in All(k.body, places)
  {
    match b
    case Nop(rest) => k := SubIsOfNode(rest, places, v);
    case Prop(_, _, _, rest) => k := SubIsOfNode(rest, places, v);
    case Node(name, pad, child, rest) =>
      if v in All(child, places) {
        k := Tree(name, pad, child);
      } else {
        k := SubIsOfNode(rest, places, v);
      }
  }

  lemma {:induction false} NoNodesNoSub(b: Body, places: set<nat>)
    requires Nodes(b) == []
    ensures Sub(b, places) == {}
  {
    if b.Nop? || b.Prop? {
      NoNodesNoSub(b.rest, places);
    }
  }

  /** Then every phandle of the old node is one that was parsed. */
  lemma OldNodeIsParsed(was: DtbEntry, t: Dts, offPhandle: u32, offLinux: u32, v: nat)
    requires EntryOk(was, t) && was.hasPartitions && Find(Strings(was.buffer), "phandle") == Some(offPhandle as nat)
    requires PlainPhandles(Child(t.body, PARTITIONS), offPhandle, offLinux)
    requires v in All(Child(t.body, PARTITIONS).body, Pair(offPhandle, offLinux))
    ensures v in OldPhandles(was)
  {
    hide Find, NameOf, IsNodeAt, NodeParses, Own, Sub, LastValue, Props, Number, InRecordOrder, Recorded, SerDts, At;
    var d, c := was.buffer, Child(t.body, PARTITIONS);
    var raw, offs := NodeParses(d, was.node.value, c).value, GetOffsets(Strings(d)).value;
    OldPhandlesHold(was);
    if v in Own(c.body, Pair(offPhandle, offLinux)) {
      assert v == raw.phandleRoot;
    } else {
      var k := SubIsOfNode(c.body, Pair(offPhandle, offLinux), v);
      assert PartitionNode(k, offs);
      NoNodesNoSub(k.body, Pair(offPhandle, offLinux));
      var i :| 0 <= i < |Nodes(c.body)| && Nodes(c.body)[i] == k;
      assert raw.partitions[i] == EntryOfNode(k, offs);
      assert raw.partitions[i] in multiset(was.parsed.partitions);
    }
  }

  lemma OldPhandlesHold(was: DtbEntry)
    requires was.hasPartitions
    ensures was.parsed.phandleRoot in OldPhandles(was)
    ensures forall e: Entry :: e in multiset(was.parsed.partitions) ==> e.phandle in OldPhandles(was)
  {
    var parts := was.parsed.partitions;
    assert OldPhandles(was)[|parts|] == was.parsed.phandleRoot;
    forall e: Entry | e in multiset(parts)
      ensures e.phandle in OldPhandles(was)
    {
      var i :| 0 <= i < |parts| && parts[i] == e;
      assert OldPhandles(was)[i] == parts[i].phandle;
    }
  }

  /** When new phandles are handed out, exactly those are taken that something outside the old partitions node
      claims. */
  lemma OccupiedIsOutside(was: DtbEntry, t: Dts, offPhandle: u32, offLinux: u32, v: nat)
    requires EntryOk(was, t) && Find(Strings(was.buffer), "phandle") == Some(offPhandle as nat)
    requires Collectable(was.buffer, t, offPhandle, offLinux)
    requires HasChild(t.body, PARTITIONS) ==>
               was.hasPartitions && PlainPhandles(Child(t.body, PARTITIONS), offPhandle, offLinux)
    ensures Held(Occupied(was, t, offPhandle, offLinux), v) <==>
              v in All(Without(t.body, PARTITIONS), Pair(offPhandle, offLinux))
  {
    hide NameOf, Find, Claims, RecordAll, ParsedOk, SerDts, At, OldPhandles, All, Distinct, PlainPhandles;
    var e := Collected(was.buffer, t, offPhandle, offLinux).value;
    if v in All(Without(t.body, PARTITIONS), Pair(offPhandle, offLinux)) {
      OldFromChild(was, t, offPhandle, offLinux);
      var at := BodyAt(was.buffer, t);
      CollectedStaysTaken(t.body, PARTITIONS, at - 4, at, offPhandle, offLinux, seq(128, _ => EMPTY), e,
                          OldPhandles(was), v);
    } else if Held(Occupied(was, t, offPhandle, offLinux), v) {
      StillHeld(e, OldPhandles(was), v);
      CollectedIsClaimed(was.buffer, t, offPhandle, offLinux, v);
      if HasChild(t.body, PARTITIONS) {
        DistinctSplit(t.body, PARTITIONS, Pair(offPhandle, offLinux));
        OldNodeIsParsed(was, t, offPhandle, offLinux, v);
      }
    }
  }

  lemma StillHeld(e: seq<Slot>, freed: seq<nat>, v: nat)
    requires Held(Dropped(e, freed), v)
    ensures Held(e, v) && (v == 0 || v !in freed)
  {
  }

  // ---- The new phandles ----

  function NotIn(taken: set<nat>, v: nat): set<nat> {
    set h | 1 <= h < v && h !in taken
  }

  /** v is one of the n least phandles that are not taken. */
  predicate LeastOutside(taken: set<nat>, n: nat, v: nat) {
    1 <= v && v !in taken && |NotIn(taken, v)| < n
  }

  lemma NextFreeIsLeast(e: seq<Slot>, taken: set<nat>, n: nat, v: nat)
    requires forall h: nat :: Held(e, h) <==> h in taken
    ensures NextFree(e, n, v) <==> LeastOutside(taken, n, v)
  {
    hide Held;
    assert FreeBelow(e, v) == NotIn(taken, v);
  }

  /** The phandles of the new node and its partitions are the least that nothing outside the old node claims:
      FreshPhandles is what ImplementPartitions promises of them. */
  lemma NewPhandlesAreLeast(was: DtbEntry, t: Dts, offPhandle: u32, offLinux: u32, phandles: seq<u32>, v: nat)
    requires EntryOk(was, t) && Find(Strings(was.buffer), "phandle") == Some(offPhandle as nat)
    requires Collectable(was.buffer, t, offPhandle, offLinux)
    requires HasChild(t.body, PARTITIONS) ==>
               was.hasPartitions && PlainPhandles(Child(t.body, PARTITIONS), offPhandle, offLinux)
    requires FreshPhandles(Occupied(was, t, offPhandle, offLinux), phandles)
    ensures v in PhandleSet(phandles) <==>
              LeastOutside(All(Without(t.body, PARTITIONS), Pair(offPhandle, offLinux)), |phandles|, v)
  {
    hide NameOf, Find, Claims, RecordAll, ParsedOk, SerDts, At, OldPhandles, All, Distinct, PlainPhandles,
         FreshPhandles, Held, Dropped, PhandleSet, NextFree, LeastOutside;
    var e := Occupied(was, t, offPhandle, offLinux);
    HandedOutIsNextFree(e, phandles, v);
    forall h: nat
      ensures Held(e, h) <==> h in All(Without(t.body, PARTITIONS), Pair(offPhandle, offLinux))
    {
      OccupiedIsOutside(was, t, offPhandle, offLinux, h);
    }
    NextFreeIsLeast(e, All(Without(t.body, PARTITIONS), Pair(offPhandle, offLinux)), |phandles|, v);
  }
}
