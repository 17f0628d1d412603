/** What migration assumes of its tables, discharged for the tables that ampart builds itself. */
module EndToEnd {
  import opened Util
  import opened Ept
  import opened Table
  import Layout
  import Safety
  import Packing
  import Create
  import Edit

  /** A table built from a device tree is fit to be migrated from or to. */
  lemma BuiltIsWellLaidOut(parts: seq<DtsPart>, t: seq<Partition>, gaps: Gaps, capacity: u64)
    requires Merge(DEFAULTS, parts).Some? && Layout.KeepsCritical(parts) && Layout.Tame(parts, gaps, capacity)
    requires LaidOut(Merge(DEFAULTS, parts).value, t, gaps, capacity)
    ensures Safety.WellLaidOut(t) && NoWrap(t) && Capacity(t) <= capacity
  {
    hide Merge, Disjoint, Layout.Stacked, IsPedantic, Layout.Tame, LaidOut;
    Layout.BuiltIsSound(parts, t, gaps, capacity);
    CapacityIsGreatestEnd(t);
  }

  /** So is a packed table. */
  lemma PackedIsWellLaidOut(t: seq<Partition>, t': seq<Partition>, k: nat, offsetReserved: u64)
    requires Packing.Packed(t, t', k, offsetReserved) && UniqueNames(t')
    ensures Safety.WellLaidOut(t')
    ensures var limit := offsetReserved + Packing.TotalSize(t);
            limit < U64_LIMIT ==> NoWrap(t') && Capacity(t') <= limit
  {
    Packing.PackedIsDisjoint(t, t', k, offsetReserved);
    Packing.PackedEndsWithin(t, t', k, offsetReserved);
    hide Packing.Packed;
    if offsetReserved + Packing.TotalSize(t) < U64_LIMIT {
      EndsInCapacity(t', offsetReserved + Packing.TotalSize(t));
    }
  }

  lemma EndsInCapacity(t: seq<Partition>, limit: nat)
    requires EndsWithin(t, limit) && limit < U64_LIMIT
    ensures NoWrap(t) && Capacity(t) <= limit
  {
    CapacityIsGreatestEnd(t);
  }

  // ---- Tables that ept_ecreate_parse makes ----

  /** A definer that puts its partition behind the last one, at its end or some way after it, with a size that does not
      wrap around. */
  predicate Stacks(d: Edit.Definer, capacity: u64) {
    && (d.offset.Some? ==> d.relative && d.offset.value + capacity < U64_LIMIT)
    && (d.size.Some? ==> d.size.value + capacity < U64_LIMIT)
  }

  lemma StackedPart(d: Edit.Definer, end: u64, capacity: u64)
    requires end <= capacity && Stacks(d, capacity)
    ensures var p := Edit.Defined(d, end, capacity); end <= p.offset && p.End() <= capacity
  {
  }

  lemma WithoutNameAscends(t: seq<Partition>, name: string, capacity: u64)
    requires Packing.Ascending(t) && EndsWithin(t, capacity) && |t| >= 2
    ensures var r := Create.WithoutName(t, name); r != [] && Packing.Ascending(r) && EndsWithin(r, capacity)
  {
    var r := Create.WithoutName(t, name);
    match IndexOf(t, name)
    case None =>
    case Some(k) =>
      forall i | 0 <= i < |r|
        ensures r[i] == t[if i < k then i else i + 1]
      {
      }
  }

  lemma AppendAscends(r: seq<Partition>, p: Partition, capacity: u64)
    requires r != [] && Packing.Ascending(r) && EndsWithin(r, capacity)
    requires r[|r| - 1].End() <= p.offset && p.End() <= capacity
    ensures Packing.Ascending(r + [p]) && EndsWithin(r + [p], capacity)
  {
    var t := r + [p];
    forall i, j | 0 <= i < j < |t|
      ensures t[i].End() <= t[j].offset
    {
      if j == |r| && i < |r| - 1 {
        assert r[i].End() <= r[|r| - 1].offset;
      }
    }
  }

  lemma DefineOneAscends(t: seq<Partition>, d: Edit.Definer, capacity: u64)
    requires Packing.Ascending(t) && EndsWithin(t, capacity) && |t| >= 2 && Stacks(d, capacity)
    ensures var r := Create.DefineOne(t, d, capacity); Packing.Ascending(r) && EndsWithin(r, capacity)
  {
    hide Create.WithoutName, Edit.Defined, Packing.Ascending, EndsWithin, Stacks;
    WithoutNameAscends(t, d.name, capacity);
    var rest := Create.WithoutName(t, d.name);
    var last := rest[|rest| - 1];
    LastEnd(rest, capacity);
    StackedPart(d, last.End(), capacity);
    AppendAscends(rest, Edit.Defined(d, last.End(), capacity), capacity);
  }

  lemma {:induction false} DefinedAscends(t: seq<Partition>, ds: seq<Edit.Definer>, capacity: u64)
    requires Packing.Ascending(t) && EndsWithin(t, capacity) && |t| >= 2
    requires forall d :: d in ds ==> Stacks(d, capacity)
    ensures var r := Create.DefineAll(t, ds, capacity); Packing.Ascending(r) && EndsWithin(r, capacity)
    decreases |ds|
  {
    hide Create.DefineOne, Packing.Ascending, EndsWithin, Stacks;
    if ds != [] {
      var n := |ds| - 1;
      assert forall d :: d in ds[..n] ==> d in ds;
      DefinedAscends(t, ds[..n], capacity);
      assert ds[n] in ds;
      DefineOneAscends(Create.DefineAll(t, ds[..n], capacity), ds[n], capacity);
    }
  }

  lemma LastEnd(t: seq<Partition>, capacity: u64)
    requires t != [] && EndsWithin(t, capacity)
    ensures var last := t[|t| - 1]; End64(last) == last.End() <= capacity
  {
  }

  /** A created table is fit to be migrated to if the essential partitions fit into the capacity and every definer puts
      its partition behind the last one. */
  lemma CreatedIsWellLaidOut(t: seq<Partition>, packed: seq<Partition>, k: nat, offsetReserved: u64,
                             ds: seq<Edit.Definer>, capacity: u64)
    requires Packing.Packed(t, packed, k, offsetReserved) && UniqueNames(packed) && |packed| >= 2
    requires offsetReserved + Packing.TotalSize(t) <= capacity
    requires forall d :: d in ds ==> Stacks(d, capacity)
    ensures var r := Create.DefineAll(packed, ds, capacity);
            Safety.WellLaidOut(r) && NoWrap(r) && Capacity(r) <= capacity
  {
    Packing.PackedAscends(t, packed, k, offsetReserved);
    Packing.PackedEndsWithin(t, packed, k, offsetReserved);
    Create.DefineAllKeepsUnique(packed, ds, capacity);
    hide Packing.Packed, Create.DefineAll, UniqueNames;
    DefinedAscends(packed, ds, capacity);
    Packing.AscendingIsDisjoint(Create.DefineAll(packed, ds, capacity));
    EndsInCapacity(Create.DefineAll(packed, ds, capacity), capacity);
  }
}
