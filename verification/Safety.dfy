/** Planning and then migrating: what happens to the bytes of every partition. */
module Safety {
  import opened Util
  import opened Ept
  import opened Migrate
  import opened Plan

  /** What ampart assumes of the two tables: it never checks for overlaps, nor the old table for repeated names. */
  ghost predicate WellLaidOut(t: seq<Partition>) {
    Disjoint(t) && UniqueNames(t)
  }

  /** Partition i of the old table, selected for migration, is partition j of the new table. */
  ghost predicate Kept(source: seq<Partition>, target: seq<Partition>, all: bool, i: nat, j: nat) {
    i < |source| && j < |target| && ForMigration(source[i], all) && source[i].name == target[j].name
  }

  /** The part of p that fits in q has been carried over. */
  ghost predicate SameBytes(p: Partition, q: Partition, before: seq<byte>, after: seq<byte>) {
    var size := Min(p.size, q.size);
    && p.offset + size <= |before| && q.offset + size <= |after|
    && after[q.offset..q.offset + size] == before[p.offset..p.offset + size]
  }

  /** Every selected partition in both tables, moved or not, has at its new offset the bytes it had at its old one. */
  ghost predicate DataKept(source: seq<Partition>, target: seq<Partition>, all: bool, before: seq<byte>,
                           after: seq<byte>) {
    forall i: nat, j: nat | Kept(source, target, all, i, j) :: SameBytes(source[i], target[j], before, after)
  }

  /** Byte a receives a byte of a partition that moves. */
  ghost predicate Receives(source: seq<Partition>, target: seq<Partition>, all: bool, a: nat) {
    exists i: nat, j: nat ::
      Moves(source, target, all, i, j) && target[j].offset <= a < target[j].offset + Min(source[i].size, target[j].size)
  }

  ghost predicate OtherBytesKept(source: seq<Partition>, target: seq<Partition>, all: bool, before: seq<byte>,
                                 after: seq<byte>) {
    |after| == |before| && forall a: nat :: a < |before| && !Receives(source, target, all, a) ==> after[a] == before[a]
  }

  /** Byte a of the new layout is one of those that partition i keeps. */
  ghost predicate Stands(source: seq<Partition>, target: seq<Partition>, all: bool, i: nat, j: nat, a: nat) {
    && Kept(source, target, all, i, j)
    && target[j].offset <= a < target[j].offset + Min(source[i].size, target[j].size)
  }

  ghost predicate StandTogether(source: seq<Partition>, target: seq<Partition>, all: bool, i: nat, i': nat, a: nat) {
    i != i' && exists j: nat, j': nat :: Stands(source, target, all, i, j, a) && Stands(source, target, all, i', j', a)
  }

  /** What two selected partitions keep, moved or not, is to be in one place. */
  ghost predicate Collide(source: seq<Partition>, target: seq<Partition>, all: bool) {
    exists i: nat, i': nat, a: nat :: StandTogether(source, target, all, i, i', a)
  }

  /** Two tables between which data can be carried over. */
  ghost predicate Migratable(source: seq<Partition>, target: seq<Partition>, all: bool) {
    WellLaidOut(source) && UniqueNames(target) && !Collide(source, target, all)
  }

  /** A new table without overlaps is always fine. */
  lemma WellLaidOutIsMigratable(source: seq<Partition>, target: seq<Partition>, all: bool)
    requires WellLaidOut(source) && WellLaidOut(target)
    ensures Migratable(source, target, all)
  {
    forall i: nat, i': nat, a: nat
      ensures !StandTogether(source, target, all, i, i', a)
    {
      if StandTogether(source, target, all, i, i', a) {
        var j: nat, j': nat :| Stands(source, target, all, i, j, a) && Stands(source, target, all, i', j', a);
        StandsInside(target[j], Min(source[i].size, target[j].size), a);
        StandsInside(target[j'], Min(source[i'].size, target[j'].size), a);
        OneOfDisjoint(target, j, j', a);
        SameName(source, i, i');
      }
    }
  }

  lemma StandsInside(q: Partition, size: nat, a: nat)
    requires size <= q.size && q.offset <= a < q.offset + size
    ensures q.offset <= a < q.End()
  {
  }

  lemma OneOfDisjoint(t: seq<Partition>, i: nat, j: nat, a: nat)
    requires Disjoint(t) && i < |t| && j < |t| && t[i].offset <= a < t[i].End() && t[j].offset <= a < t[j].End()
    ensures i == j
  {
    if i != j {
      assert Overlap(t[Min(i, j)], t[Max(i, j)]);
    }
  }

  /** In migratable tables a byte of the new layout belongs to one partition. */
  lemma OneStands(source: seq<Partition>, target: seq<Partition>, all: bool, i: nat, j: nat, i': nat, j': nat, a: nat)
    requires Migratable(source, target, all)
    requires Stands(source, target, all, i, j, a) && Stands(source, target, all, i', j', a)
    ensures i == i' && j == j'
  {
    if i != i' {
      assert StandTogether(source, target, all, i, i', a);
    }
    SameName(target, j, j');
  }

  /** A byte of the run that partition i sends to its new place. */
  ghost predicate Lands(source: seq<Partition>, target: seq<Partition>, all: bool, i: nat, j: nat, a: nat) {
    && Moves(source, target, all, i, j)
    && target[j].offset <= a < target[j].offset + Min(source[i].size, target[j].size)
  }

  ghost predicate LandTogether(source: seq<Partition>, target: seq<Partition>, all: bool, i: nat, i': nat, a: nat) {
    i != i' && exists j: nat, j': nat :: Lands(source, target, all, i, j, a) && Lands(source, target, all, i', j', a)
  }

  /** Two partitions that move are to be put on top of each other. */
  ghost predicate MovedCollide(source: seq<Partition>, target: seq<Partition>, all: bool) {
    exists i: nat, i': nat, a: nat :: LandTogether(source, target, all, i, i', a)
  }

  /** Partitions that do not meet at all do not meet while they move. */
  lemma MigratableMovesApart(source: seq<Partition>, target: seq<Partition>, all: bool)
    requires Migratable(source, target, all)
    ensures !MovedCollide(source, target, all)
  {
    forall i: nat, i': nat, a: nat
      ensures !LandTogether(source, target, all, i, i', a)
    {
      if LandTogether(source, target, all, i, i', a) {
        var j: nat, j': nat :| Lands(source, target, all, i, j, a) && Lands(source, target, all, i', j', a);
        OneStands(source, target, all, i, j, i', j', a);
      }
    }
  }

  /** A plan made for these two tables. */
  ghost predicate Planned(source: seq<Partition>, target: seq<Partition>, all: bool, block: nat, plan: seq<Entry>) {
    && Aligned(source, target, block)
    && |plan| == Quot(Max(Capacity(source), Capacity(target)), block)
    && Sound(source, target, all, block, plan)
    && Complete(source, target, all, block, plan)
  }

  // ---- The plan is a permutation that io_migrate accepts ----

  /** Where the plan sends block b, as a block of a partition that moves. */
  lemma Origin(source: seq<Partition>, target: seq<Partition>, all: bool, block: nat, plan: seq<Entry>, b: nat)
    returns (i: nat, j: nat, k: nat)
    requires Planned(source, target, all, block, plan) && b < |plan| && plan[b].pending
    ensures Moves(source, target, all, i, j) && k < RunLength(source[i], target[j], block)
        && b == Quot(source[i].offset, block) + k && plan[b].target == Quot(target[j].offset, block) + k
    ensures plan[b].target < |plan| && plan[b].target != b
    ensures InBlocks(target[j], block, plan[b].target)
    ensures InBlocks(source[i], block, b)
  {
    i, j, k :| SendsFrom(source, target, all, block, plan[b], b, i, j, k);
    RunFits(source, target, all, block, i, j);
    assert Fits(source[i], block) && Fits(target[j], block);
    QuotMono(Capacity(target), Max(Capacity(source), Capacity(target)), block);
    QuotOrder(source[i].offset, target[j].offset, block);
    QuotOrder(target[j].offset, source[i].offset, block);
    QuotMono(Min(source[i].size, target[j].size), source[i].size, block);
    QuotMono(Min(source[i].size, target[j].size), target[j].size, block);
  }

  predicate InBlocks(p: Partition, block: nat, b: nat)
    requires block > 0
  {
    Quot(p.offset, block) <= b < Quot(p.offset, block) + Quot(p.size, block)
  }

  /** In a table without overlaps a block belongs to one partition. */
  lemma OnePartition(t: seq<Partition>, block: nat, b: nat, i: nat, j: nat)
    requires block > 0 && Disjoint(t) && DividesAll(t, block) && i < |t| && j < |t|
    requires InBlocks(t[i], block, b) && InBlocks(t[j], block, b)
    ensures i == j
  {
    if i != j {
      assert Fits(t[i], block) && Fits(t[j], block);
      SharedBlockOverlaps(t[Min(i, j)], t[Max(i, j)], block, b);
    }
  }

  lemma PlanInRange(source: seq<Partition>, target: seq<Partition>, all: bool, block: nat, plan: seq<Entry>)
    requires Planned(source, target, all, block, plan)
    ensures InRange(plan) && forall b: nat :: !SelfTarget(plan, b)
  {
    hide Planned;
    forall b: nat | b < |plan| && plan[b].pending
      ensures plan[b].target < |plan| && plan[b].target != b
    {
      var i, j, k := Origin(source, target, all, block, plan, b);
    }
  }

  /** The block that a byte lands in is one the plan sends there. */
  lemma LandingBlock(source: seq<Partition>, target: seq<Partition>, all: bool, block: nat, plan: seq<Entry>, i: nat,
                     j: nat, a: nat)
    returns (b: nat)
    requires Planned(source, target, all, block, plan) && Lands(source, target, all, i, j, a)
    ensures b < |plan| && plan[b] == Entry(Quot(a, block), true) && InBlocks(source[i], block, b)
  {
    var p, q := source[i], target[j];
    assert Fits(p, block) && Fits(q, block) && Covered(p, q, block, plan);
    var k := a - q.offset;
    var size := Min(p.size, q.size);
    QuotBelow(k, size, block);
    QuotAdd(q.offset, k, block);
    QuotMono(size, p.size, block);
    b := Quot(p.offset, block) + Quot(k, block);
  }

  /** The first byte of a block that the plan sends somewhere lands there. */
  lemma BlockLands(source: seq<Partition>, target: seq<Partition>, all: bool, block: nat, plan: seq<Entry>, b: nat)
    returns (i: nat, j: nat)
    requires Planned(source, target, all, block, plan) && b < |plan| && plan[b].pending
    ensures Lands(source, target, all, i, j, Times(plan[b].target, block))
    ensures b + Quot(target[j].offset, block) == plan[b].target + Quot(source[i].offset, block)
  {
    var k;
    i, j, k := Origin(source, target, all, block, plan, b);
    assert Fits(source[i], block) && Fits(target[j], block);
    RunCoversByte(target[j], Min(source[i].size, target[j].size), block, k, 0);
  }

  /** The plan sends two blocks to one place exactly if two partitions that move are to be put on top of each other. */
  lemma PlanCollides(source: seq<Partition>, target: seq<Partition>, all: bool, block: nat, plan: seq<Entry>)
    requires WellLaidOut(source) && UniqueNames(target) && Planned(source, target, all, block, plan)
    ensures Injective(plan) <==> !MovedCollide(source, target, all)
  {
    hide Planned;
    if MovedCollide(source, target, all) {
      var i: nat, i': nat, a: nat :| LandTogether(source, target, all, i, i', a);
      CollidingBlocks(source, target, all, block, plan, i, i', a);
    }
    if !Injective(plan) {
      var b: nat, b': nat :| b < |plan| && b' < |plan| && plan[b].pending && plan[b'].pending
                             && plan[b].target == plan[b'].target && b != b';
      var i, j := BlockLands(source, target, all, block, plan, b);
      var i', j' := BlockLands(source, target, all, block, plan, b');
      if i == i' {
        SameName(target, j, j');
        assert false;
      }
      assert LandTogether(source, target, all, i, i', Times(plan[b].target, block));
    }
  }

  lemma CollidingBlocks(source: seq<Partition>, target: seq<Partition>, all: bool, block: nat, plan: seq<Entry>, i: nat,
                        i': nat, a: nat)
    requires WellLaidOut(source) && Planned(source, target, all, block, plan)
    requires LandTogether(source, target, all, i, i', a)
    ensures !Injective(plan)
  {
    var j: nat, j': nat :| Lands(source, target, all, i, j, a) && Lands(source, target, all, i', j', a);
    var b := LandingBlock(source, target, all, block, plan, i, j, a);
    var b' := LandingBlock(source, target, all, block, plan, i', j', a);
    if b == b' {
      OnePartition(source, block, b, i, i');
    }
  }

  /** For tables whose moving partitions stay apart, io_migrate accepts the plan. */
  lemma PlanIsPermutation(source: seq<Partition>, target: seq<Partition>, all: bool, block: nat, plan: seq<Entry>)
    requires WellLaidOut(source) && UniqueNames(target) && !MovedCollide(source, target, all)
    requires Planned(source, target, all, block, plan)
    ensures InRange(plan) && Injective(plan) && forall b: nat :: !SelfTarget(plan, b)
  {
    PlanInRange(source, target, all, block, plan);
    PlanCollides(source, target, all, block, plan);
  }

  /** In migratable tables a block of the new layout belongs to one partition. */
  lemma OneRun(source: seq<Partition>, target: seq<Partition>, all: bool, block: nat, i: nat, j: nat, k: nat, i': nat,
               j': nat, k': nat)
    requires block > 0 && Migratable(source, target, all) && Aligned(source, target, block)
    requires Kept(source, target, all, i, j) && Kept(source, target, all, i', j')
    requires k < RunLength(source[i], target[j], block) && k' < RunLength(source[i'], target[j'], block)
    requires Quot(target[j].offset, block) + k == Quot(target[j'].offset, block) + k'
    ensures i == i' && j == j' && k == k'
  {
    hide Migratable, Quot, RunLength, Aligned, Stands, Times;
    RunStands(source, target, all, block, i, j, k);
    RunStands(source, target, all, block, i', j', k');
    OneStands(source, target, all, i, j, i', j', Times(Quot(target[j].offset, block) + k, block));
  }

  /** The first byte of a block of a selected partition stands at its new place. */
  lemma RunStands(source: seq<Partition>, target: seq<Partition>, all: bool, block: nat, i: nat, j: nat, k: nat)
    requires Aligned(source, target, block) && Kept(source, target, all, i, j)
    requires k < RunLength(source[i], target[j], block)
    ensures Stands(source, target, all, i, j, Times(Quot(target[j].offset, block) + k, block))
  {
    assert Fits(source[i], block) && Fits(target[j], block);
    RunCoversByte(target[j], Min(source[i].size, target[j].size), block, k, 0);
  }

  lemma SameName(t: seq<Partition>, i: nat, j: nat)
    requires UniqueNames(t) && i < |t| && j < |t| && t[i].name == t[j].name
    ensures i == j
  {
  }

  // ---- Blocks ----

  /** Block k of a selected partition arrives at block k of its new place. */
  lemma BlockArrives(source: seq<Partition>, target: seq<Partition>, all: bool, block: nat, plan: seq<Entry>,
                     before: seq<Block>, after: seq<Block>, i: nat, j: nat, k: nat)
    requires Migratable(source, target, all) && Planned(source, target, all, block, plan)
    requires Migrated(plan, before, after)
    requires Kept(source, target, all, i, j) && k < RunLength(source[i], target[j], block)
    ensures BlockCopied(source[i], target[j], block, before, after, k)
  {
    PlannedParts(source, target, all, block, plan);
    hide Planned, Migratable, Quot, RunLength, Aligned, Capacity, Migrated, BlockCopied, Moves;
    if Moves(source, target, all, i, j) {
      RunIsPlanned(source, target, all, block, plan, i, j, k);
      PendingArrives(source[i], target[j], block, plan, before, after, k);
    } else {
      BlockStays(source, target, all, block, plan, before, after, i, j, k);
    }
  }

  lemma BlockStays(source: seq<Partition>, target: seq<Partition>, all: bool, block: nat, plan: seq<Entry>,
                   before: seq<Block>, after: seq<Block>, i: nat, j: nat, k: nat)
    requires Migratable(source, target, all) && Planned(source, target, all, block, plan)
    requires Migrated(plan, before, after)
    requires Kept(source, target, all, i, j) && !Moves(source, target, all, i, j)
    requires k < RunLength(source[i], target[j], block)
    ensures BlockCopied(source[i], target[j], block, before, after, k)
  {
    var b := Quot(target[j].offset, block) + k;
    hide Migratable, Quot, RunLength, Capacity, IsTarget, Migrated, Sound, Complete;
    StaysInside(source, target, block, i, j, k);
    NotATarget(source, target, all, block, plan, i, j, k);
    OtherStays(plan, before, after, b);
  }

  lemma PendingArrives(p: Partition, q: Partition, block: nat, plan: seq<Entry>, before: seq<Block>, after: seq<Block>,
                       k: nat)
    requires block > 0 && Migrated(plan, before, after)
    requires var b := Quot(p.offset, block) + k; b < |plan| && plan[b] == Entry(Quot(q.offset, block) + k, true)
    ensures BlockCopied(p, q, block, before, after, k)
  {
    hide Quot;
  }

  lemma OtherStays(plan: seq<Entry>, before: seq<Block>, after: seq<Block>, b: nat)
    requires Migrated(plan, before, after) && b < |plan| && !IsTarget(plan, b)
    ensures b < |before| && b < |after| && after[b] == before[b]
  {
  }

  lemma PlannedParts(source: seq<Partition>, target: seq<Partition>, all: bool, block: nat, plan: seq<Entry>)
    requires Planned(source, target, all, block, plan)
    ensures Aligned(source, target, block) && |plan| == Quot(Max(Capacity(source), Capacity(target)), block)
  {
  }

  lemma RunIsPlanned(source: seq<Partition>, target: seq<Partition>, all: bool, block: nat, plan: seq<Entry>, i: nat,
                     j: nat, k: nat)
    requires Planned(source, target, all, block, plan)
    requires Moves(source, target, all, i, j) && k < RunLength(source[i], target[j], block)
    ensures var b := Quot(source[i].offset, block) + k;
            b < |plan| && plan[b] == Entry(Quot(target[j].offset, block) + k, true)
  {
    assert Covered(source[i], target[j], block, plan);
  }

  ghost predicate BlockCopied(p: Partition, q: Partition, block: nat, before: seq<Block>, after: seq<Block>, k: nat)
    requires block > 0
  {
    var b, b' := Quot(p.offset, block) + k, Quot(q.offset, block) + k;
    b < |before| && b' < |after| && after[b'] == before[b]
  }

  /** No block is sent into what a partition that does not move keeps. */
  lemma NotATarget(source: seq<Partition>, target: seq<Partition>, all: bool, block: nat, plan: seq<Entry>, i: nat,
                   j: nat, k: nat)
    requires Migratable(source, target, all) && Planned(source, target, all, block, plan)
    requires Kept(source, target, all, i, j) && !Moves(source, target, all, i, j)
    requires k < RunLength(source[i], target[j], block)
    ensures !IsTarget(plan, Quot(target[j].offset, block) + k)
  {
    PlannedParts(source, target, all, block, plan);
    hide Planned, Migratable, Quot, RunLength, Aligned, InBlocks, Capacity;
    var b := Quot(target[j].offset, block) + k;
    if IsTarget(plan, b) {
      var c: nat :| c < |plan| && plan[c].pending && plan[c].target == b;
      var i', j', k' := Origin(source, target, all, block, plan, c);
      OneRun(source, target, all, block, i, j, k, i', j', k');
    }
  }

  lemma StaysInside(source: seq<Partition>, target: seq<Partition>, block: nat, i: nat, j: nat, k: nat)
    requires Aligned(source, target, block) && i < |source| && j < |target| && source[i].offset == target[j].offset
    requires k < RunLength(source[i], target[j], block)
    ensures Quot(source[i].offset, block) + k < Quot(Max(Capacity(source), Capacity(target)), block)
  {
    OneRunFits(source, block, i, Min(source[i].size, target[j].size));
    QuotMono(Capacity(source), Max(Capacity(source), Capacity(target)), block);
  }

  // ---- Bytes ----

  lemma ByteInBlock(d: seq<byte>, b: nat, n: nat, i: nat, y: nat)
    requires Times(n, b) <= |d| && i < n && y < b
    ensures Times(i, b) + y < |d|
    ensures |Blocks(d, b, n)[i]| == b && d[Times(i, b) + y] == Blocks(d, b, n)[i][y]
  {
    BlockInside(d, b, n, i);
  }

  /** Byte x of an aligned partition is byte y of its block k. */
  lemma ByteOfPartition(p: Partition, block: nat, k: nat, y: nat)
    requires block > 0 && Fits(p, block)
    ensures p.offset + Times(k, block) + y == Times(Quot(p.offset, block) + k, block) + y
  {
    TimesQuot(p.offset, block);
    TimesAdd(Quot(p.offset, block), k, block);
  }

  /** Partitions whose blocks have been copied have had their bytes copied. */
  lemma BytesFollowBlocks(p: Partition, q: Partition, block: nat, n: nat, d: seq<byte>, d': seq<byte>)
    requires block > 0 && Fits(p, block) && Fits(q, block) && Times(n, block) <= |d| == |d'|
    requires forall k: nat :: k < RunLength(p, q, block) ==>
               BlockCopied(p, q, block, Blocks(d, block, n), Blocks(d', block, n), k)
    requires p.offset + Min(p.size, q.size) <= |d| && q.offset + Min(p.size, q.size) <= |d'|
    ensures SameBytes(p, q, d, d')
  {
    forall x: nat | x < Min(p.size, q.size)
      ensures SameByte(d, p.offset, d', q.offset, x)
    {
      hide *;
      ByteFollowsBlocks(p, q, block, n, d, d', x);
    }
    hide Fits, Blocks, BlockCopied, SameByte, Times, RunLength;
    SameSlices(d, p.offset, d', q.offset, Min(p.size, q.size));
  }

  lemma ByteFollowsBlocks(p: Partition, q: Partition, block: nat, n: nat, d: seq<byte>, d': seq<byte>, x: nat)
    requires block > 0 && Fits(p, block) && Fits(q, block) && Times(n, block) <= |d| == |d'| && x < Min(p.size, q.size)
    requires forall k: nat :: k < RunLength(p, q, block) ==>
               BlockCopied(p, q, block, Blocks(d, block, n), Blocks(d', block, n), k)
    ensures SameByte(d, p.offset, d', q.offset, x)
  {
    RunDivides(p, q, block);
    hide *;
    var k, y := ByteOfRun(p, q, block, x);
    ByteFollowsBlock(p, q, block, n, d, d', k, y);
  }

  lemma ByteOfRun(p: Partition, q: Partition, block: nat, x: nat) returns (k: nat, y: nat)
    requires block > 0 && Divides(block, Min(p.size, q.size)) && x < Min(p.size, q.size)
    ensures k < RunLength(p, q, block) && y < block && x == Times(k, block) + y
  {
    hide Divides, Quot, Times;
    k, y := BlockOfByte(x, Min(p.size, q.size), block);
  }

  ghost predicate SameByte(d: seq<byte>, a: nat, d': seq<byte>, a': nat, x: nat) {
    a + x < |d| && a' + x < |d'| && d'[a' + x] == d[a + x]
  }

  lemma SameSlices(d: seq<byte>, a: nat, d': seq<byte>, a': nat, size: nat)
    requires a + size <= |d| && a' + size <= |d'|
    requires forall x: nat :: x < size ==> SameByte(d, a, d', a', x)
    ensures d'[a'..a' + size] == d[a..a + size]
  {
    var s, s' := d[a..a + size], d'[a'..a' + size];
    forall x | 0 <= x < |s|
      ensures s'[x] == s[x]
    {
      assert SameByte(d, a, d', a', x);
    }
  }

  lemma BlockOfByte(x: nat, size: nat, block: nat) returns (k: nat, y: nat)
    requires block > 0 && Divides(block, size) && x < size
    ensures k < Quot(size, block) && y < block && x == Times(k, block) + y
  {
    QuotBelow(x, size, block);
    TimesQuot(x, block);
    k, y := Quot(x, block), x - Times(Quot(x, block), block);
  }

  lemma RunDivides(p: Partition, q: Partition, block: nat)
    requires block > 0 && Fits(p, block) && Fits(q, block)
    ensures Divides(block, Min(p.size, q.size))
  {
  }

  lemma ByteFollowsBlock(p: Partition, q: Partition, block: nat, n: nat, d: seq<byte>, d': seq<byte>, k: nat, y: nat)
    requires block > 0 && Fits(p, block) && Fits(q, block) && Times(n, block) <= |d| == |d'| && y < block
    requires BlockCopied(p, q, block, Blocks(d, block, n), Blocks(d', block, n), k)
    ensures SameByte(d, p.offset, d', q.offset, Times(k, block) + y)
  {
    hide Quot, Times, Blocks;
    var b, b' := Quot(p.offset, block) + k, Quot(q.offset, block) + k;
    SameBlockByte(d, d', block, n, b, b', y);
    ByteOfPartition(p, block, k, y);
    ByteOfPartition(q, block, k, y);
    hide Fits, BlockCopied, Divides;
    SameByteAt(d, p.offset, d', q.offset, Times(k, block) + y, Times(b, block) + y, Times(b', block) + y);
  }

  lemma SameByteAt(d: seq<byte>, a: nat, d': seq<byte>, a': nat, x: nat, i: nat, i': nat)
    requires i < |d| && i' < |d'| && d'[i'] == d[i] && i == a + x && i' == a' + x
    ensures SameByte(d, a, d', a', x)
  {
  }

  /** What holds for two blocks holds for their bytes. */
  lemma SameBlockByte(d: seq<byte>, d': seq<byte>, block: nat, n: nat, b: nat, b': nat, y: nat)
    requires Times(n, block) <= |d| == |d'| && y < block
    requires b < |Blocks(d, block, n)| && b' < |Blocks(d', block, n)|
    requires Blocks(d', block, n)[b'] == Blocks(d, block, n)[b]
    ensures Times(b, block) + y < |d| && Times(b', block) + y < |d'|
    ensures d'[Times(b', block) + y] == d[Times(b, block) + y]
  {
    ByteInBlock(d, block, n, b, y);
    ByteInBlock(d', block, n, b', y);
  }

  lemma QuotBelow(x: nat, size: nat, b: nat)
    requires b > 0 && Divides(b, size) && x < size
    ensures Quot(x, b) < Quot(size, b)
  {
    TimesQuot(x, b);
    TimesQuot(size, b);
    if Quot(x, b) >= Quot(size, b) {
      TimesMono(Quot(size, b), Quot(x, b), b);
    }
  }

  /** Every byte of a block that something is sent to is a byte that receives. */
  lemma ReceivingByte(source: seq<Partition>, target: seq<Partition>, all: bool, block: nat, plan: seq<Entry>, c: nat,
                      y: nat)
    requires Planned(source, target, all, block, plan) && c < |plan| && plan[c].pending && y < block
    ensures Receives(source, target, all, Times(plan[c].target, block) + y)
  {
    var i, j, k := Origin(source, target, all, block, plan, c);
    RunReceives(source, target, all, block, i, j, k, y, Times(plan[c].target, block) + y);
  }

  lemma RunReceives(source: seq<Partition>, target: seq<Partition>, all: bool, block: nat, i: nat, j: nat, k: nat,
                    y: nat, a: nat)
    requires Aligned(source, target, block) && y < block
    requires Moves(source, target, all, i, j) && k < RunLength(source[i], target[j], block)
    requires a == Times(Quot(target[j].offset, block) + k, block) + y
    ensures Receives(source, target, all, a)
  {
    assert Fits(source[i], block) && Fits(target[j], block);
    RunCoversByte(target[j], Min(source[i].size, target[j].size), block, k, y);
  }

  lemma RunCoversByte(q: Partition, size: nat, block: nat, k: nat, y: nat)
    requires block > 0 && Fits(q, block) && Divides(block, size) && k < Quot(size, block) && y < block
    ensures q.offset <= Times(Quot(q.offset, block) + k, block) + y < q.offset + size
  {
    ByteOfPartition(q, block, k, y);
    TimesMono(k, Quot(size, block), block);
    TimesQuot(size, block);
  }

  lemma ByteStays(source: seq<Partition>, target: seq<Partition>, all: bool, block: nat, plan: seq<Entry>, d: seq<byte>,
                  d': seq<byte>, a: nat)
    requires Planned(source, target, all, block, plan) && Carried(plan, block, d, d')
    requires a < |d| && !Receives(source, target, all, a)
    ensures d'[a] == d[a]
  {
    if a < Times(|plan|, block) {
      TimesQuot(a, block);
      var b := Quot(a, block);
      var y := a - Times(b, block);
      if |plan| <= b {
        TimesMono(|plan|, b, block);
      }
      if IsTarget(plan, b) {
        var c: nat :| c < |plan| && plan[c].pending && plan[c].target == b;
        ReceivingByte(source, target, all, block, plan, c, y);
      }
      ByteInBlock(d, block, |plan|, b, y);
      ByteInBlock(d', block, |plan|, b, y);
    }
  }

  /** What io_migrate does to the disk. */
  ghost predicate Carried(plan: seq<Entry>, block: nat, d: seq<byte>, d': seq<byte>) {
    && Times(|plan|, block) <= |d| == |d'|
    && Migrated(plan, Blocks(d, block, |plan|), Blocks(d', block, |plan|))
    && forall a :: Times(|plan|, block) <= a < |d| ==> d'[a] == d[a]
  }

  /** cli_write_ept, lines 500 and 536-541: plan, then migrate the disk in place. The partitions that move must stay
      apart for the run to be possible at all; what is selected is kept if none of it is to be in one place with
      another. */
  method MigrateTables(source: seq<Partition>, target: seq<Partition>, all: bool, disk: array<byte>) returns (r: int)
    requires Plannable(source, target) && WellLaidOut(source) && UniqueNames(target)
    requires !MovedCollide(source, target, all)
    requires Max(Capacity(source), Capacity(target)) <= disk.Length
    modifies disk
    ensures r == 0 <==> Capacity(source) > 0 && Capacity(target) > 0 && !Refused(source, target, all)
    ensures r == 0 && Migratable(source, target, all) ==> DataKept(source, target, all, old(disk[..]), disk[..])
    ensures r == 0 ==> OtherBytesKept(source, target, all, old(disk[..]), disk[..])
    ensures r != 0 ==> disk[..] == old(disk[..])
  {
    var code, block, entries := MigratePlan(source, target, all);
    if code != 0 {
      return code;
    }
    CountFits(source, target, block, entries.Length, disk.Length);
    var helper := new MigrateHelper(entries, block, disk);
    ghost var plan, d := entries[..], disk[..];
    PlanIsPermutation(source, target, all, block, plan);
    r := helper.Migrate();
    OthersStay(source, target, all, block, plan, d, disk[..]);
    if Migratable(source, target, all) {
      DataArrives(source, target, all, block, plan, d, disk[..]);
    }
  }

  lemma CountFits(source: seq<Partition>, target: seq<Partition>, block: nat, count: nat, length: nat)
    requires Aligned(source, target, block)
    requires count == Quot(Max(Capacity(source), Capacity(target)), block)
    requires Max(Capacity(source), Capacity(target)) <= length
    ensures Times(count, block) <= length
    ensures Capacity(source) > 0 ==> count > 0
  {
    TimesQuot(Max(Capacity(source), Capacity(target)), block);
    QuotOrder(Max(Capacity(source), Capacity(target)), 0, block);
  }

  lemma DataArrives(source: seq<Partition>, target: seq<Partition>, all: bool, block: nat, plan: seq<Entry>,
                    d: seq<byte>, d': seq<byte>)
    requires Migratable(source, target, all) && Planned(source, target, all, block, plan)
    requires Max(Capacity(source), Capacity(target)) <= |d| && Carried(plan, block, d, d')
    ensures DataKept(source, target, all, d, d')
  {
    forall i: nat, j: nat | Kept(source, target, all, i, j)
      ensures SameBytes(source[i], target[j], d, d')
    {
      PartitionArrives(source, target, all, block, plan, d, d', i, j);
    }
  }

  lemma OthersStay(source: seq<Partition>, target: seq<Partition>, all: bool, block: nat, plan: seq<Entry>,
                   d: seq<byte>, d': seq<byte>)
    requires Planned(source, target, all, block, plan) && Carried(plan, block, d, d')
    ensures OtherBytesKept(source, target, all, d, d')
  {
    forall a: nat | a < |d| && !Receives(source, target, all, a)
      ensures d'[a] == d[a]
    {
      ByteStays(source, target, all, block, plan, d, d', a);
    }
  }

  lemma PartitionArrives(source: seq<Partition>, target: seq<Partition>, all: bool, block: nat, plan: seq<Entry>,
                         d: seq<byte>, d': seq<byte>, i: nat, j: nat)
    requires Migratable(source, target, all) && Planned(source, target, all, block, plan)
    requires Max(Capacity(source), Capacity(target)) <= |d| && Carried(plan, block, d, d')
    requires Kept(source, target, all, i, j)
    ensures SameBytes(source[i], target[j], d, d')
  {
    forall k: nat | k < RunLength(source[i], target[j], block)
      ensures BlockCopied(source[i], target[j], block, Blocks(d, block, |plan|), Blocks(d', block, |plan|), k)
    {
      BlockArrives(source, target, all, block, plan, Blocks(d, block, |plan|), Blocks(d', block, |plan|), i, j, k);
    }
    EndWithinCapacity(source, i);
    EndWithinCapacity(target, j);
    assert Fits(source[i], block) && Fits(target[j], block);
    BytesFollowBlocks(source[i], target[j], block, |plan|, d, d');
  }
}
