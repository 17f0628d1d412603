/** When migration loses data or is refused, said of the two tables. */
module Losses {
  import opened Util
  import opened Ept
  import opened Migrate
  import opened Plan
  import opened Safety
  import Table

  // ---- What can be kept at all ----

  /** Byte a of the new layout is to be what byte b of the old one was. */
  ghost predicate Wants(source: seq<Partition>, target: seq<Partition>, all: bool, a: nat, b: nat) {
    exists i: nat, j: nat :: Stands(source, target, all, i, j, a) && b + target[j].offset == a + source[i].offset
  }

  /** One byte is to be two old ones at once. */
  ghost predicate Clash(source: seq<Partition>, target: seq<Partition>, all: bool) {
    exists a: nat, b: nat, b': nat :: b != b' && Wants(source, target, all, a, b) && Wants(source, target, all, a, b')
  }

  ghost predicate Keepable(source: seq<Partition>, target: seq<Partition>, all: bool, before: seq<byte>) {
    exists after :: |after| == |before| && DataKept(source, target, all, before, after)
  }

  lemma WantedInside(source: seq<Partition>, target: seq<Partition>, all: bool, n: nat, a: nat, b: nat)
    requires NoWrap(source) && NoWrap(target) && Max(Capacity(source), Capacity(target)) <= n
    requires Wants(source, target, all, a, b)
    ensures a < n && b < n
  {
    var i: nat, j: nat :| Stands(source, target, all, i, j, a) && b + target[j].offset == a + source[i].offset;
    EndWithinCapacity(source, i);
    EndWithinCapacity(target, j);
  }

  /** Keeping the data is giving every byte what it wants. */
  lemma KeptByteIsWanted(source: seq<Partition>, target: seq<Partition>, all: bool, before: seq<byte>, after: seq<byte>,
                         a: nat, b: nat)
    requires DataKept(source, target, all, before, after) && Wants(source, target, all, a, b)
    ensures a < |after| && b < |before| && after[a] == before[b]
  {
    var i: nat, j: nat :| Stands(source, target, all, i, j, a) && b + target[j].offset == a + source[i].offset;
    assert SameBytes(source[i], target[j], before, after);
    hide DataKept, Kept;
    ByteOfKept(source[i], target[j], before, after, a, b);
  }

  lemma ByteOfKept(p: Partition, q: Partition, before: seq<byte>, after: seq<byte>, a: nat, b: nat)
    requires SameBytes(p, q, before, after)
    requires q.offset <= a < q.offset + Min(p.size, q.size) && b + q.offset == a + p.offset
    ensures a < |after| && b < |before| && after[a] == before[b]
  {
    SameSliceByte(after, q.offset, before, p.offset, Min(p.size, q.size), a - q.offset);
  }

  lemma SameSliceByte(d: seq<byte>, p: nat, d': seq<byte>, p': nat, size: nat, k: nat)
    requires p + size <= |d| && p' + size <= |d'| && d[p..p + size] == d'[p'..p' + size] && k < size
    ensures d[p + k] == d'[p' + k]
  {
    assert d[p..p + size][k] == d'[p'..p' + size][k];
  }

  lemma WantedIsKept(source: seq<Partition>, target: seq<Partition>, all: bool, before: seq<byte>, after: seq<byte>)
    requires NoWrap(source) && NoWrap(target) && Max(Capacity(source), Capacity(target)) <= |before| == |after|
    requires forall a: nat, b: nat :: a < |after| && b < |before| && Wants(source, target, all, a, b) ==>
               after[a] == before[b]
    ensures DataKept(source, target, all, before, after)
  {
    forall i: nat, j: nat | Kept(source, target, all, i, j)
      ensures SameBytes(source[i], target[j], before, after)
    {
      EndWithinCapacity(source, i);
      EndWithinCapacity(target, j);
      var p, q := source[i], target[j];
      forall x: nat | x < Min(p.size, q.size)
        ensures SameByte(before, p.offset, after, q.offset, x)
      {
        assert Stands(source, target, all, i, j, q.offset + x);
        assert Wants(source, target, all, q.offset + x, p.offset + x);
      }
      SameSlices(before, p.offset, after, q.offset, Min(p.size, q.size));
    }
  }

  lemma NoClashIsKeepable(source: seq<Partition>, target: seq<Partition>, all: bool, before: seq<byte>)
    requires NoWrap(source) && NoWrap(target) && Max(Capacity(source), Capacity(target)) <= |before|
    requires !Clash(source, target, all)
    ensures Keepable(source, target, all, before)
  {
    var n := |before|;
    var after: seq<byte> := seq(n, a requires 0 <= a < n =>
      if exists b :: 0 <= b < n && Wants(source, target, all, a, b) then
        var b :| 0 <= b < n && Wants(source, target, all, a, b); before[b]
      else before[a]);
    forall a: nat, b: nat | a < n && b < n && Wants(source, target, all, a, b)
      ensures after[a] == before[b]
    {
    }
    WantedIsKept(source, target, all, before, after);
  }

  /** Whoever moves the data, it can be kept on every disk if and only if no byte of the new layout is to be two old
      bytes at once. */
  lemma KeepableIffNoClash(source: seq<Partition>, target: seq<Partition>, all: bool, n: nat)
    requires NoWrap(source) && NoWrap(target) && Max(Capacity(source), Capacity(target)) <= n
    ensures (forall before :: |before| == n ==> Keepable(source, target, all, before)) <==> !Clash(source, target, all)
  {
    if Clash(source, target, all) {
      var a: nat, b: nat, b': nat :| b != b' && Wants(source, target, all, a, b) && Wants(source, target, all, a, b');
      WantedInside(source, target, all, n, a, b);
      WantedInside(source, target, all, n, a, b');
      var before: seq<byte> := seq(n, k => if k == b then 1 else 0);
      ClashingBytes(source, target, all, before, a, b, b');
    } else {
      forall before: seq<byte> | |before| == n
        ensures Keepable(source, target, all, before)
      {
        NoClashIsKeepable(source, target, all, before);
      }
    }
  }

  lemma ClashingBytes(source: seq<Partition>, target: seq<Partition>, all: bool, before: seq<byte>, a: nat, b: nat,
                      b': nat)
    requires Wants(source, target, all, a, b) && Wants(source, target, all, a, b')
    requires b < |before| && b' < |before| && before[b] != before[b']
    ensures !Keepable(source, target, all, before)
  {
    hide DataKept, Wants;
    forall after | |after| == |before| && DataKept(source, target, all, before, after)
      ensures false
    {
      KeptByteIsWanted(source, target, all, before, after, a, b);
      KeptByteIsWanted(source, target, all, before, after, a, b');
    }
  }

  /** In a sound old table, and with unique new names, a clash is two selected partitions with a common place for what
      they keep. */
  lemma ClashIsCollision(source: seq<Partition>, target: seq<Partition>, all: bool)
    requires WellLaidOut(source) && UniqueNames(target)
    ensures Clash(source, target, all) <==> Collide(source, target, all)
  {
    if Clash(source, target, all) {
      var a: nat, b: nat, b': nat :| b != b' && Wants(source, target, all, a, b) && Wants(source, target, all, a, b');
      var i: nat, j: nat :| Stands(source, target, all, i, j, a) && b + target[j].offset == a + source[i].offset;
      var i': nat, j': nat :| Stands(source, target, all, i', j', a) && b' + target[j'].offset == a + source[i'].offset;
      if i == i' {
        SameName(target, j, j');
      }
      assert StandTogether(source, target, all, i, i', a);
    }
    if Collide(source, target, all) {
      var i: nat, i': nat, a: nat :| StandTogether(source, target, all, i, i', a);
      CollisionClashes(source, target, all, i, i', a);
    }
  }

  lemma CollisionClashes(source: seq<Partition>, target: seq<Partition>, all: bool, i: nat, i': nat, a: nat)
    requires Disjoint(source) && StandTogether(source, target, all, i, i', a)
    ensures Clash(source, target, all)
  {
    var j: nat, j': nat :| Stands(source, target, all, i, j, a) && Stands(source, target, all, i', j', a);
    var b, b' := a - target[j].offset + source[i].offset, a - target[j'].offset + source[i'].offset;
    StandsInside(source[i], Min(source[i].size, target[j].size), b);
    StandsInside(source[i'], Min(source[i'].size, target[j'].size), b');
    if b == b' {
      OneOfDisjoint(source, i, i', b);
    }
    assert Wants(source, target, all, a, b) && Wants(source, target, all, a, b');
  }

  /** Whoever moves the data, it can be kept on every disk if and only if no two selected partitions, moved or not, have
      a common place for what they keep. Then planning and migrating does keep it; ampart never looks whether it is
      so. */
  lemma KeepsDataIffApart(source: seq<Partition>, target: seq<Partition>, all: bool, n: nat)
    requires WellLaidOut(source) && UniqueNames(target)
    requires NoWrap(source) && NoWrap(target) && Max(Capacity(source), Capacity(target)) <= n
    ensures (forall before :: |before| == n ==> Keepable(source, target, all, before)) <==>
              Migratable(source, target, all)
  {
    hide Clash, Keepable, Collide, NoWrap, Capacity, Disjoint, UniqueNames;
    KeepableIffNoClash(source, target, all, n);
    ClashIsCollision(source, target, all);
  }

  // ---- What a plan can carry out ----

  /** The pending blocks of the plan can all arrive on every disk if and only if no two partitions that move are to be
      put on top of each other. */
  lemma PlanArrivesIffApart(source: seq<Partition>, target: seq<Partition>, all: bool, block: nat, plan: seq<Entry>)
    requires WellLaidOut(source) && UniqueNames(target) && Planned(source, target, all, block, plan)
    ensures (forall before :: |before| == |plan| ==> Preservable(plan, before)) <==> !MovedCollide(source, target, all)
  {
    PlanInRange(source, target, all, block, plan);
    PlanCollides(source, target, all, block, plan);
    PreservableIffInjective(plan);
  }

  // ---- Tables of two partitions ----

  /** Two partitions with legal and different names, small enough for anything. */
  predicate IsPair(t: seq<Partition>, offset0: nat, size0: nat, offset1: nat, size1: nat) {
    && |t| == 2 && t[0].name == "a" && t[1].name == "boot"
    && t[0].offset == offset0 && t[0].size == size0 && t[1].offset == offset1 && t[1].size == size1
  }

  function MakePair(offset0: u32, size0: u32, offset1: u32, size1: u32): (t: seq<Partition>)
    ensures IsPair(t, offset0, size0, offset1, size1)
  {
    [Partition("a", offset0, size0, 0), Partition("boot", offset1, size1, 0)]
  }

  lemma PairNames(t: seq<Partition>, offset0: nat, size0: nat, offset1: nat, size1: nat)
    requires IsPair(t, offset0, size0, offset1, size1)
    ensures UniqueNames(t) && Table.LegalNames(t)
  {
    forall i | 0 <= i < |t|
      ensures Table.LegalName(t[i].name)
    {
      if i == 1 {
        assert forall k :: 0 <= k < 4 ==> "boot"[k] in {'b', 'o', 't'};
      }
    }
  }

  lemma PairExtents(t: seq<Partition>, offset0: u32, size0: u32, offset1: u32, size1: u32)
    requires IsPair(t, offset0, size0, offset1, size1)
    ensures NoWrap(t) && Capacity(t) == Max(offset0 + size0, offset1 + size1)
    ensures Disjoint(t) <==> !Overlap(t[0], t[1])
  {
    assert t[..1] == [t[0]] && [t[0]][..0] == [];
    assert Capacity([t[0]]) == offset0 + size0;
  }

  lemma QuotAtMost(x: nat, b: nat)
    requires b > 0
    ensures Quot(x, b) <= x
  {
  }

  lemma PairsArePlannable(s: seq<Partition>, t: seq<Partition>)
    requires |s| == |t| == 2 && NoWrap(s) && NoWrap(t) && Capacity(s) < U32_LIMIT && Capacity(t) < U32_LIMIT
    ensures Plannable(s, t)
  {
    hide Capacity, PlanBlock;
    QuotAtMost(Max(Capacity(s), Capacity(t)), PlanBlock(s, t));
  }

  // ---- Two partitions in one place ----

  function Apart(): seq<Partition> {
    MakePair(0, 4, 4, 4)
  }

  /** The same two in one place. */
  function OnTop(): seq<Partition> {
    MakePair(8, 4, 8, 4)
  }

  /** ept_valid_table accepts both tables, as names are all it looks at. */
  lemma OnTopIsAccepted()
    ensures Table.LegalNames(Apart()) && Table.LegalNames(OnTop())
    ensures WellLaidOut(Apart()) && UniqueNames(OnTop()) && Plannable(Apart(), OnTop())
    ensures Capacity(Apart()) == 8 && Capacity(OnTop()) == 12
  {
    var s, t := Apart(), OnTop();
    hide MakePair;
    PairNames(s, 0, 4, 4, 4);
    PairNames(t, 8, 4, 8, 4);
    PairExtents(s, 0, 4, 4, 4);
    PairExtents(t, 8, 4, 8, 4);
    PairsArePlannable(s, t);
  }

  lemma OnTopCollides()
    ensures MovedCollide(Apart(), OnTop(), true)
  {
    var s, t := Apart(), OnTop();
    hide MakePair;
    assert Lands(s, t, true, 0, 0, 8) && Lands(s, t, true, 1, 1, 8);
    assert LandTogether(s, t, true, 0, 1, 8);
  }

  lemma OnTopIsNotRefused()
    requires Capacity(Apart()) == 8 && Capacity(OnTop()) == 12
    ensures !Refused(Apart(), OnTop(), true)
  {
    hide MakePair, Capacity;
  }

  /** ampart makes a plan for them and would carry it out, though on some disk it loses a partition. */
  method PlanOnTop() returns (code: int, block: nat, entries: array<Entry>)
    ensures code == 0 && block > 0 && Planned(Apart(), OnTop(), true, block, entries[..])
    ensures exists before :: |before| == entries.Length && !Preservable(entries[..], before)
  {
    OnTopIsAccepted();
    OnTopIsNotRefused();
    OnTopCollides();
    hide Apart, OnTop, Planned, MovedCollide, Refused, Plannable, PlanBlock;
    code, block, entries := MigratePlan(Apart(), OnTop(), true);
    NotEmpty();
    MadePlan(Apart(), OnTop(), true, block, entries[..]);
    PlanArrivesIffApart(Apart(), OnTop(), true, block, entries[..]);
  }

  lemma NotEmpty()
    ensures Apart() != [] && OnTop() != []
  {
  }

  lemma MadePlan(source: seq<Partition>, target: seq<Partition>, all: bool, block: nat, plan: seq<Entry>)
    requires Aligned(source, target, block) && |plan| == Quot(Max(Capacity(source), Capacity(target)), block)
    requires Sound(source, target, all, block, plan) && Complete(source, target, all, block, plan)
    ensures Planned(source, target, all, block, plan)
  {
  }

  // ---- A partition put on one that stays ----

  /** "boot" moves onto "a", which stays where it is. */
  function OnStaying(): seq<Partition> {
    MakePair(0, 4, 0, 4)
  }

  lemma OnStayingIsAccepted()
    ensures Table.LegalNames(OnStaying()) && UniqueNames(OnStaying()) && Plannable(Apart(), OnStaying())
    ensures WellLaidOut(Apart()) && Apart() != [] && OnStaying() != []
    ensures Capacity(Apart()) == 8 && Capacity(OnStaying()) == 4
  {
    var s, t := Apart(), OnStaying();
    hide MakePair;
    PairNames(s, 0, 4, 4, 4);
    PairNames(t, 0, 4, 0, 4);
    PairExtents(s, 0, 4, 4, 4);
    PairExtents(t, 0, 4, 0, 4);
    PairsArePlannable(s, t);
  }

  /** Only one partition moves, so no two of them meet and the planner has nothing to refuse. */
  lemma OneMoves()
    requires Capacity(Apart()) == 8 && Capacity(OnStaying()) == 4
    ensures !MovedCollide(Apart(), OnStaying(), true) && !Refused(Apart(), OnStaying(), true)
  {
    hide MakePair, Capacity;
  }

  lemma OnStayingClashes(before: seq<byte>)
    requires |before| >= 8 && before[0] != before[4]
    ensures !Keepable(Apart(), OnStaying(), true, before)
  {
    var s, t := Apart(), OnStaying();
    hide MakePair;
    assert Stands(s, t, true, 0, 0, 0) && Stands(s, t, true, 1, 1, 0);
    assert Wants(s, t, true, 0, 0) && Wants(s, t, true, 0, 4);
    ClashingBytes(s, t, true, before, 0, 0, 4);
  }

  lemma OnStayingIsMigrated()
    ensures var s, t := Apart(), OnStaying();
            && Plannable(s, t) && WellLaidOut(s) && UniqueNames(t) && !MovedCollide(s, t, true) && !Refused(s, t, true)
            && Capacity(s) > 0 && Capacity(t) > 0 && Max(Capacity(s), Capacity(t)) <= 8
  {
    OnStayingIsAccepted();
    OneMoves();
  }

  lemma LostBytes(before: seq<byte>, after: seq<byte>)
    requires |before| >= 8 && |after| == |before| && before[0] != before[4]
    ensures !DataKept(Apart(), OnStaying(), true, before, after)
  {
    hide DataKept, Apart, OnStaying;
    OnStayingClashes(before);
  }

  /** ampart makes a plan for these two tables and carries it out without an error; unless the two partitions begin with
      the same byte, one of them is lost. */
  method MigrateOnStaying(disk: array<byte>) returns (r: int)
    requires disk.Length >= 8
    modifies disk
    ensures r == 0
    ensures old(disk[0]) != old(disk[4]) ==> !DataKept(Apart(), OnStaying(), true, old(disk[..]), disk[..])
  {
    OnStayingIsMigrated();
    var s, t := Apart(), OnStaying();
    hide *;
    ghost var before := disk[..];
    r := MigrateTables(s, t, true, disk);
    assert |before| == |disk[..]| && before[0] == old(disk[0]) && before[4] == old(disk[4]);
    if before[0] != before[4] {
      LostBytes(before, disk[..]);
    }
  }

  // ---- Refused tables ----

  /** Two sound tables that the planner refuses: "boot" is empty and stands where the old table ends. */
  lemma SoundTablesAreRefused(all: bool)
    ensures var s, t := MakePair(0, 8, 8, 0), MakePair(0, 4, 4, 4);
            && WellLaidOut(s) && WellLaidOut(t) && Plannable(s, t) && Capacity(s) == Capacity(t) == 8
            && Table.LegalNames(s) && Table.LegalNames(t) && Refused(s, t, all)
  {
    var s, t := MakePair(0, 8, 8, 0), MakePair(0, 4, 4, 4);
    hide MakePair;
    PairNames(s, 0, 8, 8, 0);
    PairNames(t, 0, 4, 4, 4);
    PairExtents(s, 0, 8, 8, 0);
    PairExtents(t, 0, 4, 4, 4);
    PairsArePlannable(s, t);
    BootMoves(s, t, all);
  }

  lemma BootMoves(s: seq<Partition>, t: seq<Partition>, all: bool)
    requires IsPair(s, 0, 8, 8, 0) && IsPair(t, 0, 4, 4, 4) && Capacity(s) == 8
    ensures Refused(s, t, all)
  {
    hide Capacity;
    assert ESSENTIAL_NAMES[5] == "boot";
    assert StartsAtEnd(s, t, all, 1, 1);
  }
}
