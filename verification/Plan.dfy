/** The migration planner of src/ept.c: block size, block-to-block map, and what carrying it out preserves. */
module Plan {
  import opened Util
  import opened Ept
  import opened Migrate

  // ---- The block size ----

  function Pow2(k: nat): (r: nat)
    ensures r > 0
  {
    if k == 0 then 1 else 2 * Pow2(k - 1)
  }

  /** 4 MiB, the size the search starts from. */
  const BLOCK_LOG: nat := 22

  predicate Fits(p: Partition, b: nat)
    requires b > 0
  {
    Divides(b, p.offset) && Divides(b, p.size)
  }

  ghost predicate DividesAll(t: seq<Partition>, b: nat)
    requires b > 0
  {
    forall i :: 0 <= i < |t| ==> Fits(t[i], b)
  }

  lemma EverythingIsWhole(t: seq<Partition>)
    ensures DividesAll(t, Pow2(0))
  {
    forall i | 0 <= i < |t|
      ensures Fits(t[i], 1)
    {
      OneDivides(t[i].offset);
      OneDivides(t[i].size);
    }
  }

  lemma OneDivides(x: nat)
    ensures Divides(1, x)
  {
  }

  /** 2^r is the greatest power of two, at most 2^top, that divides every offset and size. */
  ghost predicate IsGreatestLog(t: seq<Partition>, top: nat, r: nat) {
    && r <= top && DividesAll(t, Pow2(r))
    && forall j: nat :: r < j <= top ==> !DividesAll(t, Pow2(j))
  }

  lemma GreatestLogExists(t: seq<Partition>, top: nat)
    ensures exists r :: IsGreatestLog(t, top, r)
  {
    if DividesAll(t, Pow2(top)) {
      assert IsGreatestLog(t, top, top);
    } else {
      EverythingIsWhole(t);
      GreatestLogExists(t, top - 1);
      var r :| IsGreatestLog(t, top - 1, r);
      assert IsGreatestLog(t, top, r);
    }
  }

  ghost function BlockLog(t: seq<Partition>): (r: nat)
    ensures IsGreatestLog(t, BLOCK_LOG, r)
  {
    GreatestLogExists(t, BLOCK_LOG);
    var r :| IsGreatestLog(t, BLOCK_LOG, r);
    r
  }

  ghost function MinimumBlock(t: seq<Partition>): (r: nat)
    ensures r > 0
  {
    Pow2(BlockLog(t))
  }

  lemma LeastIsLess(t: seq<Partition>, log: nat, i: nat)
    requires i < |t| && BlockLog(t) <= log
    requires !Fits(t[i], Pow2(log))
    ensures BlockLog(t) < log && Pow2(log) / 2 == Pow2(log - 1)
  {
    EverythingIsWhole(t);
  }

  /** Halves the block if it does not divide `value`, the offset or the size of partition i. */
  method ShiftOne(t: seq<Partition>, i: nat, value: u64, block0: nat, ghost log0: nat)
    returns (block: nat, ghost log: nat)
    requires i < |t| && (value == t[i].offset || value == t[i].size)
    requires block0 == Pow2(log0) && BlockLog(t) <= log0
    ensures block == Pow2(log) && BlockLog(t) <= log <= log0
    ensures log == log0 ==> Divides(block, value)
  {
    block, log := block0, log0;
    QuotIsDivision(value, block);
    if value % block != 0 {
      LeastIsLess(t, log, i);
      block, log := block / 2, log - 1;
    }
  }

  /** One pass of ept_get_minimum_block over the table: the block is halved at every offset and size it does not
      divide. */
  method ShiftDown(t: seq<Partition>, block0: nat, ghost log0: nat) returns (block: nat, change: bool, ghost log: nat)
    requires block0 == Pow2(log0) && BlockLog(t) <= log0
    ensures block == Pow2(log) && BlockLog(t) <= log <= log0
    ensures change <==> block != block0
    ensures change ==> log < log0
    ensures !change ==> DividesAll(t, block)
  {
    block, log := block0, log0;
    for i := 0 to |t|
      invariant block == Pow2(log) && BlockLog(t) <= log <= log0
      invariant log == log0 ==> forall j :: 0 <= j < i ==> Fits(t[j], block)
    {
      block, log := ShiftOne(t, i, t[i].offset, block, log);
      block, log := ShiftOne(t, i, t[i].size, block, log);
    }
    change := block != block0;
    if log < log0 {
      Pow2Less(log, log0);
    }
  }

  lemma Pow2Less(a: nat, b: nat)
    requires a < b
    ensures Pow2(a) < Pow2(b)
  {
  }

  /** ept_get_minimum_block: the passes are repeated until one changes nothing. */
  method GetMinimumBlock(t: seq<Partition>) returns (block: nat)
    requires |t| <= MAX_PARTITIONS_COUNT
    ensures block == MinimumBlock(t)
  {
    block := 0x400000;
    ghost var log: nat := BLOCK_LOG;
    FourMiB();
    while block != 0
      invariant block == Pow2(log) && BlockLog(t) <= log <= BLOCK_LOG
      decreases log
    {
      var change;
      block, change, log := ShiftDown(t, block, log);
      if !change {
        break;
      }
    }
  }

  lemma FourMiB()
    ensures Pow2(BLOCK_LOG) == 0x400000
  {
    assert Pow2(6) == 64;
    assert Pow2(12) == 4096;
    assert Pow2(18) == 0x40000;
  }

  // ---- The plan ----

  /** Both tables in blocks of this size. */
  ghost function PlanBlock(source: seq<Partition>, target: seq<Partition>): (r: nat)
    ensures r > 0
  {
    Min(MinimumBlock(source), MinimumBlock(target))
  }

  ghost predicate ForMigration(p: Partition, all: bool) {
    all || IsEssential(p)
  }

  /** Partition i of the old table is partition j of the new one, is to be migrated, and has moved. */
  ghost predicate Moves(source: seq<Partition>, target: seq<Partition>, all: bool, i: nat, j: nat) {
    && i < |source| && j < |target| && ForMigration(source[i], all)
    && source[i].name == target[j].name && source[i].offset != target[j].offset
  }

  function RunLength(p: Partition, q: Partition, block: nat): nat
    requires block > 0
  {
    Quot(Min(p.size, q.size), block)
  }

  /** Block k of a partition that moves. */
  ghost predicate Sends(source: seq<Partition>, target: seq<Partition>, all: bool, block: nat, i: nat, j: nat, k: nat) {
    block > 0 && Moves(source, target, all, i, j) && k < RunLength(source[i], target[j], block)
  }

  /** Every pending entry is a block of a partition that moves, sent to the same block of that partition. */
  ghost predicate Sound(source: seq<Partition>, target: seq<Partition>, all: bool, block: nat, plan: seq<Entry>)
    requires block > 0
  {
    forall b :: 0 <= b < |plan| && plan[b].pending ==>
      exists i, j, k :: SendsFrom(source, target, all, block, plan[b], b, i, j, k)
  }

  ghost predicate SendsFrom(source: seq<Partition>, target: seq<Partition>, all: bool, block: nat, e: Entry, b: nat,
                            i: nat, j: nat, k: nat)
    requires block > 0
  {
    && Sends(source, target, all, block, i, j, k)
    && b == Quot(source[i].offset, block) + k && e.target == Quot(target[j].offset, block) + k
  }

  /** Every block of partition i is sent to the same block of partition j. */
  ghost predicate Covered(p: Partition, q: Partition, block: nat, plan: seq<Entry>)
    requires block > 0
  {
    var start, length := Quot(p.offset, block), RunLength(p, q, block);
    start + length <= |plan| && forall b :: start <= b < start + length ==>
      plan[b] == Entry(b - start + Quot(q.offset, block), true)
  }

  ghost predicate Complete(source: seq<Partition>, target: seq<Partition>, all: bool, block: nat, plan: seq<Entry>)
    requires block > 0
  {
    forall i: nat, j: nat :: Moves(source, target, all, i, j) ==> Covered(source[i], target[j], block, plan)
  }

  /** A partition that moves starts where its table ends, so it is empty; the planner refuses this. */
  ghost predicate StartsAtEnd(source: seq<Partition>, target: seq<Partition>, all: bool, i: nat, j: nat) {
    Moves(source, target, all, i, j) && (source[i].offset == Capacity(source) || target[j].offset == Capacity(target))
  }

  ghost predicate Refused(source: seq<Partition>, target: seq<Partition>, all: bool) {
    exists i: nat, j: nat :: StartsAtEnd(source, target, all, i, j)
  }

  /** Only a partition that is empty and stands where its table ends makes the planner refuse, and then no byte of it is
      at stake. */
  lemma RefusedForEmpty(source: seq<Partition>, target: seq<Partition>, all: bool, i: nat, j: nat)
    requires NoWrap(source) && NoWrap(target) && StartsAtEnd(source, target, all, i, j)
    ensures source[i].size == 0 || target[j].size == 0
  {
    EndWithinCapacity(source, i);
    EndWithinCapacity(target, j);
  }

  /** What the tables from disk are assumed to be: no 64-bit wrap, and few enough blocks for a 32-bit count. */
  ghost predicate Plannable(source: seq<Partition>, target: seq<Partition>) {
    && NoWrap(source) && NoWrap(target)
    && |source| <= MAX_PARTITIONS_COUNT && |target| <= MAX_PARTITIONS_COUNT
    && Quot(Max(Capacity(source), Capacity(target)), PlanBlock(source, target)) < U32_LIMIT
  }

  lemma Pow2Divides(a: nat, b: nat)
    requires a <= b
    ensures Divides(Pow2(a), Pow2(b))
  {
    if a < b {
      Pow2Divides(a, b - 1);
      QuotAdd(Pow2(b - 1), Pow2(b - 1), Pow2(a));
    } else {
      assert Divides(Pow2(a), 0);
    }
  }

  lemma Pow2Mono(a: nat, b: nat)
    requires a <= b
    ensures Pow2(a) <= Pow2(b)
  {
  }

  /** Both tables are whole numbers of blocks, and so are their capacities. */
  ghost predicate Aligned(source: seq<Partition>, target: seq<Partition>, block: nat) {
    && block > 0 && NoWrap(source) && NoWrap(target)
    && DividesAll(source, block) && DividesAll(target, block)
    && Divides(block, Capacity(source)) && Divides(block, Capacity(target))
  }

  /** The smaller of the two blocks divides both tables and both capacities. */
  lemma PlanBlockDivides(source: seq<Partition>, target: seq<Partition>)
    requires NoWrap(source) && NoWrap(target)
    ensures Aligned(source, target, PlanBlock(source, target))
  {
    var ls, lt := BlockLog(source), BlockLog(target);
    Pow2Mono(Min(ls, lt), Max(ls, lt));
    Pow2DividesAll(source, Min(ls, lt), ls);
    Pow2DividesAll(target, Min(ls, lt), lt);
    CapacityDivides(source, PlanBlock(source, target));
    CapacityDivides(target, PlanBlock(source, target));
  }

  lemma Pow2DividesAll(t: seq<Partition>, a: nat, b: nat)
    requires a <= b && DividesAll(t, Pow2(b))
    ensures DividesAll(t, Pow2(a))
  {
    Pow2Divides(a, b);
    forall i | 0 <= i < |t|
      ensures Fits(t[i], Pow2(a))
    {
      DividesTrans(Pow2(a), Pow2(b), t[i].offset);
      DividesTrans(Pow2(a), Pow2(b), t[i].size);
    }
  }

  lemma CapacityDivides(t: seq<Partition>, b: nat)
    requires b > 0 && NoWrap(t) && DividesAll(t, b)
    ensures Divides(b, Capacity(t))
  {
    if t != [] {
      var n := |t| - 1;
      CapacityDivides(t[..n], b);
      EndDivides(t[n], b);
    }
  }

  lemma EndDivides(p: Partition, b: nat)
    requires b > 0 && Fits(p, b) && p.End() < U64_LIMIT
    ensures Add64(p.offset, p.size) == p.End() && Divides(b, p.End())
  {
    QuotAdd(p.offset, p.size, b);
  }

  /** Marks `count` blocks from `start` as going to `count` blocks from `targetStart`. */
  method PlanRun(entries: array<Entry>, start: nat, targetStart: nat, count: nat)
    requires start + count <= entries.Length
    modifies entries
    ensures forall b :: 0 <= b < entries.Length ==>
              entries[b] == if start <= b < start + count then Entry(b - start + targetStart, true) else old(entries[b])
  {
    for k := 0 to count
      invariant forall b :: 0 <= b < entries.Length ==>
                  entries[b] == if start <= b < start + k then Entry(b - start + targetStart, true) else old(entries[b])
    {
      entries[start + k] := Entry(targetStart + k, true);
    }
  }

  lemma RunFits(source: seq<Partition>, target: seq<Partition>, all: bool, block: nat, i: nat, j: nat)
    requires Aligned(source, target, block) && Moves(source, target, all, i, j)
    ensures Quot(source[i].offset, block) + RunLength(source[i], target[j], block) <= Quot(Capacity(source), block)
    ensures Quot(target[j].offset, block) + RunLength(source[i], target[j], block) <= Quot(Capacity(target), block)
    ensures Quot(source[i].offset, block) > Quot(Capacity(source), block) - 1 <==> source[i].offset == Capacity(source)
    ensures Quot(target[j].offset, block) > Quot(Capacity(target), block) - 1 <==> target[j].offset == Capacity(target)
  {
    OneRunFits(source, block, i, Min(source[i].size, target[j].size));
    OneRunFits(target, block, j, Min(source[i].size, target[j].size));
  }

  lemma OneRunFits(t: seq<Partition>, block: nat, i: nat, size: nat)
    requires NoWrap(t) && block > 0 && i < |t| && DividesAll(t, block) && Divides(block, Capacity(t))
    requires size <= t[i].size
    ensures Quot(t[i].offset, block) + Quot(size, block) <= Quot(Capacity(t), block)
    ensures Quot(t[i].offset, block) > Quot(Capacity(t), block) - 1 <==> t[i].offset == Capacity(t)
  {
    CapacityIsGreatestEnd(t);
    QuotMono(size, t[i].size, block);
    QuotAdd(t[i].offset, t[i].size, block);
    QuotMono(t[i].End(), Capacity(t), block);
    QuotOrder(Capacity(t), t[i].offset, block);
  }

  /** Lines 961-991, for partition p that moves to q. The clamps of lines 968-984 are never reached. */
  method PlanMove(p: Partition, q: Partition, capacitySource: nat, capacityTarget: nat, block: nat,
                  entries: array<Entry>) returns (ok: bool)
    requires block > 0 && Quot(capacitySource, block) > 0 && Quot(capacityTarget, block) > 0
    requires Quot(p.offset, block) + RunLength(p, q, block) <= Quot(capacitySource, block) <= entries.Length
    requires Quot(q.offset, block) + RunLength(p, q, block) <= Quot(capacityTarget, block)
    modifies entries
    ensures ok <==>
              Quot(p.offset, block) < Quot(capacitySource, block) && Quot(q.offset, block) < Quot(capacityTarget, block)
    ensures ok ==> RunWritten(p, q, block, old(entries[..]), entries[..])
  {
    var blockTotalSource, _ := DivMod(capacitySource, block);
    var blockTotalTarget, _ := DivMod(capacityTarget, block);
    var entryStart, _ := DivMod(p.offset, block);
    var targetStart, _ := DivMod(q.offset, block);
    if entryStart > blockTotalSource - 1 || targetStart > blockTotalTarget - 1 {
      return false;
    }
    var entryCount, _ := DivMod(if p.size > q.size then q.size else p.size, block);
    if entryStart + entryCount > blockTotalSource || targetStart + entryCount > blockTotalTarget {
      assert false;
    }
    PlanRun(entries, entryStart, targetStart, entryCount);
    return true;
  }

  /** The body of ept_migrate_plan's two loops. */
  method PlanPair(source: seq<Partition>, target: seq<Partition>, all: bool, block: nat, entries: array<Entry>, i: nat,
                  j: nat)
    returns (ok: bool)
    requires Aligned(source, target, block)
    requires Quot(Capacity(source), block) > 0 && Quot(Capacity(target), block) > 0
    requires i < |source| && j < |target| && ForMigration(source[i], all)
    requires entries.Length == Quot(Max(Capacity(source), Capacity(target)), block)
    requires PlannedUpTo(source, target, all, block, entries[..], i, j)
    modifies entries
    ensures ok ==> PlannedUpTo(source, target, all, block, entries[..], i, j + 1)
    ensures !ok ==> StartsAtEnd(source, target, all, i, j)
  {
    ok := true;
    ghost var was := entries[..];
    if source[i].name == target[j].name && source[i].offset != target[j].offset {
      RunFits(source, target, all, block, i, j);
      QuotMono(Capacity(source), Max(Capacity(source), Capacity(target)), block);
      ok := PlanMove(source[i], target[j], Capacity(source), Capacity(target), block, entries);
      if ok {
        AdvanceMove(source, target, all, block, was, entries[..], i, j);
      }
    } else {
      AdvanceSkip(source, target, all, block, was, i, j);
    }
  }

  /** Lines 942-995: allocate the entries and fill them in. */
  method PlanAll(source: seq<Partition>, target: seq<Partition>, all: bool, block: nat, count: nat)
    returns (ok: bool, entries: array<Entry>)
    requires Aligned(source, target, block)
    requires Quot(Capacity(source), block) > 0 && Quot(Capacity(target), block) > 0
    requires count == Quot(Max(Capacity(source), Capacity(target)), block)
    ensures fresh(entries) && entries.Length == count
    ensures ok <==> !Refused(source, target, all)
    ensures ok ==> Sound(source, target, all, block, entries[..])
    ensures ok && Disjoint(source) && UniqueNames(target) ==> Complete(source, target, all, block, entries[..])
  {
    entries := new Entry[count](_ => Entry(0, false));
    for i := 0 to |source|
      invariant PlannedUpTo(source, target, all, block, entries[..], i, 0)
    {
      var notEssential := IsNotEssential(source[i]);
      if all || notEssential == 0 {
        for j := 0 to |target|
          invariant PlannedUpTo(source, target, all, block, entries[..], i, j)
        {
          ok := PlanPair(source, target, all, block, entries, i, j);
          if !ok {
            return;
          }
        }
      }
      AdvanceRow(source, target, all, block, entries[..], i);
    }
    AllPlanned(source, target, all, block, entries[..]);
    ok := true;
  }

  /** ept_migrate_plan. The errors of lines 928-938 are never reached. */
  method MigratePlan(source: seq<Partition>, target: seq<Partition>, all: bool)
    returns (r: int, block: nat, entries: array<Entry>)
    requires Plannable(source, target)
    ensures fresh(entries)
    ensures r == 0 <==>
              source != [] && target != [] && Capacity(source) > 0 && Capacity(target) > 0
              && !Refused(source, target, all)
    ensures r == 0 ==> block == PlanBlock(source, target) && Aligned(source, target, block)
    ensures r == 0 ==> entries.Length == Quot(Max(Capacity(source), Capacity(target)), block)
    ensures r == 0 ==> Sound(source, target, all, block, entries[..])
    ensures r == 0 && Disjoint(source) && UniqueNames(target) ==> Complete(source, target, all, block, entries[..])
  {
    block, entries := 1, new Entry[0];
    if source == [] || target == [] {
      return -1, block, entries;
    }
    var blockSource := GetMinimumBlock(source);
    var blockTarget := GetMinimumBlock(target);
    block := if blockSource > blockTarget then blockTarget else blockSource;
    var capacitySource := GetCapacity(source);
    var capacityTarget := GetCapacity(target);
    if capacitySource == 0 || capacityTarget == 0 {
      return 2, block, entries;
    }
    PlanBlockDivides(source, target);
    var _, restSource := DivMod(capacitySource, block);
    var _, restTarget := DivMod(capacityTarget, block);
    if restSource != 0 || restTarget != 0 {
      assert false;
    }
    QuotOrder(capacitySource, 0, block);
    QuotOrder(capacityTarget, 0, block);
    var count, _ := DivMod(if capacitySource > capacityTarget then capacitySource else capacityTarget, block);
    var ok;
    ok, entries := PlanAll(source, target, all, block, count);
    r := if ok then 0 else 6;
  }

  lemma AllPlanned(source: seq<Partition>, target: seq<Partition>, all: bool, block: nat, plan: seq<Entry>)
    requires block > 0 && PlannedUpTo(source, target, all, block, plan, |source|, 0)
    ensures !Refused(source, target, all)
    ensures Disjoint(source) && UniqueNames(target) ==> Complete(source, target, all, block, plan)
  {
    forall i: nat, j: nat | Moves(source, target, all, i, j)
      ensures Precedes(i, j, |source|, 0)
    {
    }
  }

  ghost predicate Precedes(i': nat, j': nat, i: nat, j: nat) {
    i' < i || (i' == i && j' < j)
  }

  /** The plan after the pairs before (i, j) have been looked at. */
  ghost predicate PlannedUpTo(source: seq<Partition>, target: seq<Partition>, all: bool, block: nat, plan: seq<Entry>,
                              i: nat, j: nat)
    requires block > 0
  {
    && Sound(source, target, all, block, plan)
    && forall i': nat, j': nat | Precedes(i', j', i, j) && Moves(source, target, all, i', j') ::
         && !StartsAtEnd(source, target, all, i', j')
         && (Disjoint(source) && UniqueNames(target) ==> Covered(source[i'], target[j'], block, plan))
  }

  lemma AdvanceMove(source: seq<Partition>, target: seq<Partition>, all: bool, block: nat, was: seq<Entry>,
                    now: seq<Entry>, i: nat, j: nat)
    requires block > 0 && DividesAll(source, block) && DividesAll(target, block)
    requires PlannedUpTo(source, target, all, block, was, i, j)
    requires Moves(source, target, all, i, j) && !StartsAtEnd(source, target, all, i, j)
    requires RunWritten(source[i], target[j], block, was, now)
    ensures PlannedUpTo(source, target, all, block, now, i, j + 1)
  {
    RunKeepsSound(source, target, all, block, was, now, i, j);
    forall i': nat, j': nat | Precedes(i', j', i, j + 1) && Moves(source, target, all, i', j')
      ensures !StartsAtEnd(source, target, all, i', j')
      ensures Disjoint(source) && UniqueNames(target) ==> Covered(source[i'], target[j'], block, now)
    {
      assert Precedes(i', j', i, j) || (i' == i && j' == j);
      if Disjoint(source) && UniqueNames(target) && Precedes(i', j', i, j) {
        EarlierRunKept(source, target, all, block, was, now, i, j, i', j');
      }
    }
  }

  lemma AdvanceSkip(source: seq<Partition>, target: seq<Partition>, all: bool, block: nat, plan: seq<Entry>, i: nat,
                    j: nat)
    requires block > 0 && PlannedUpTo(source, target, all, block, plan, i, j) && !Moves(source, target, all, i, j)
    ensures PlannedUpTo(source, target, all, block, plan, i, j + 1)
  {
    forall i': nat, j': nat | Precedes(i', j', i, j + 1) && Moves(source, target, all, i', j')
      ensures Precedes(i', j', i, j)
    {
    }
  }

  lemma AdvanceRow(source: seq<Partition>, target: seq<Partition>, all: bool, block: nat, plan: seq<Entry>, i: nat)
    requires block > 0 && i < |source|
    requires PlannedUpTo(source, target, all, block, plan, i, if ForMigration(source[i], all) then |target| else 0)
    ensures PlannedUpTo(source, target, all, block, plan, i + 1, 0)
  {
    forall i': nat, j': nat | Precedes(i', j', i + 1, 0) && Moves(source, target, all, i', j')
      ensures Precedes(i', j', i, if ForMigration(source[i], all) then |target| else 0)
    {
    }
  }

  ghost predicate RunWritten(p: Partition, q: Partition, block: nat, was: seq<Entry>, now: seq<Entry>)
    requires block > 0
  {
    var start, length := Quot(p.offset, block), RunLength(p, q, block);
    && start + length <= |was| == |now|
    && forall b :: 0 <= b < |now| ==>
         now[b] == if start <= b < start + length then Entry(b - start + Quot(q.offset, block), true) else was[b]
  }

  lemma RunKeepsSound(source: seq<Partition>, target: seq<Partition>, all: bool, block: nat, was: seq<Entry>,
                      now: seq<Entry>, i: nat, j: nat)
    requires block > 0 && Sound(source, target, all, block, was) && Moves(source, target, all, i, j)
    requires RunWritten(source[i], target[j], block, was, now)
    ensures Sound(source, target, all, block, now)
  {
    forall b | 0 <= b < |now| && now[b].pending
      ensures exists i, j, k :: SendsFrom(source, target, all, block, now[b], b, i, j, k)
    {
      var start := Quot(source[i].offset, block);
      if start <= b < start + RunLength(source[i], target[j], block) {
        assert SendsFrom(source, target, all, block, now[b], b, i, j, b - start);
      } else {
        var i', j', k' :| SendsFrom(source, target, all, block, was[b], b, i', j', k');
        assert SendsFrom(source, target, all, block, now[b], b, i', j', k');
      }
    }
  }

  lemma EarlierRunKept(source: seq<Partition>, target: seq<Partition>, all: bool, block: nat, was: seq<Entry>,
                       now: seq<Entry>, i: nat, j: nat, i': nat, j': nat)
    requires block > 0 && DividesAll(source, block) && Disjoint(source) && UniqueNames(target)
    requires Moves(source, target, all, i, j) && RunWritten(source[i], target[j], block, was, now)
    requires Moves(source, target, all, i', j') && Precedes(i', j', i, j) && Covered(source[i'], target[j'], block, was)
    ensures Covered(source[i'], target[j'], block, now)
  {
    assert i' < i && !Overlap(source[i'], source[i]);
    OtherRunKept(source[i], target[j], source[i'], target[j'], block, was, now);
  }

  lemma OtherRunKept(p: Partition, q: Partition, p': Partition, q': Partition, block: nat, was: seq<Entry>,
                     now: seq<Entry>)
    requires block > 0 && Fits(p, block) && Fits(p', block)
    requires !Overlap(p, p') && RunWritten(p, q, block, was, now) && Covered(p', q', block, was)
    ensures Covered(p', q', block, now)
  {
    QuotMono(Min(p.size, q.size), p.size, block);
    QuotMono(Min(p'.size, q'.size), p'.size, block);
    var start := Quot(p'.offset, block);
    forall b | start <= b < start + RunLength(p', q', block)
      ensures now[b] == was[b]
    {
      if Quot(p.offset, block) <= b < Quot(p.offset, block) + RunLength(p, q, block) {
        SharedBlockOverlaps(p, p', block, b);
      }
    }
  }

  /** Aligned partitions with a block in common overlap. */
  lemma SharedBlockOverlaps(p: Partition, q: Partition, block: nat, b: nat)
    requires block > 0 && Fits(p, block) && Fits(q, block)
    requires Quot(p.offset, block) <= b < Quot(p.offset, block) + Quot(p.size, block)
    requires Quot(q.offset, block) <= b < Quot(q.offset, block) + Quot(q.size, block)
    ensures Overlap(p, q)
  {
    BlockInExtent(p, block, b);
    BlockInExtent(q, block, b);
  }

  lemma BlockInExtent(p: Partition, block: nat, b: nat)
    requires block > 0 && Fits(p, block)
    requires Quot(p.offset, block) <= b < Quot(p.offset, block) + Quot(p.size, block)
    ensures p.offset <= Times(b, block) < p.End()
  {
    TimesQuot(p.offset, block);
    TimesQuot(p.size, block);
    TimesMono(Quot(p.offset, block), b, block);
    TimesMono(b, Quot(p.offset, block) + Quot(p.size, block), block);
    TimesAdd(Quot(p.offset, block), Quot(p.size, block), block);
  }
}
