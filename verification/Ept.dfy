/** The eMMC partition table of src/ept.c as a value: partitions, names, extents, capacity. */
module Ept {
  import opened Util

  const MAX_PARTITIONS_COUNT: nat := 32

  /** struct ept_partition. A name is the byte string before its NUL, so strncmp over 16 bytes is equality. */
  datatype Partition = Partition(name: string, offset: u64, size: u64, masks: u32) {
    /** Where the partition really ends, with no wrap-around. */
    function End(): nat {
      offset + size
    }
  }

  /** struct dts_partition_entry_simple: a partition as the partitions node of the device tree lists it. */
  datatype DtsPart = DtsPart(name: string, size: u64, mask: u32)

  const ESSENTIAL_NAMES: seq<string> := [
    "bootloader", "reserved", "env", "logo", "misc", "boot", "boot_a", "boot_b", "dtbo", "dtbo_a", "dtbo_b",
    "vbmeta", "vbmeta_a", "vbmeta_b", "vbmeta_system", "vbmeta_system_a", "vbmeta_system_b"
  ]

  /** ept_is_partition_not_essential, negated. */
  predicate IsEssential(p: Partition) {
    p.name in ESSENTIAL_NAMES
  }

  predicate IsBootName(name: string) {
    name == "boot" || name == "boot_a" || name == "boot_b" || name == "dtbo" || name == "dtbo_a" || name == "dtbo_b"
  }

  predicate IsVbmetaName(name: string) {
    || name == "vbmeta" || name == "vbmeta_a" || name == "vbmeta_b"
    || name == "vbmeta_system" || name == "vbmeta_system_a" || name == "vbmeta_system_b"
  }

  /** The essential partitions are these and no others. */
  lemma EssentialNames(p: Partition)
    ensures IsEssential(p) <==>
              || p.name == "bootloader" || p.name == "reserved" || p.name == "env" || p.name == "logo"
              || p.name == "misc"
              || IsBootName(p.name) || IsVbmetaName(p.name)
  {
    assert ESSENTIAL_NAMES[..5] == ["bootloader", "reserved", "env", "logo", "misc"];
    assert ESSENTIAL_NAMES[5..11] == ["boot", "boot_a", "boot_b", "dtbo", "dtbo_a", "dtbo_b"];
    assert ESSENTIAL_NAMES[11..] ==
           ["vbmeta", "vbmeta_a", "vbmeta_b", "vbmeta_system", "vbmeta_system_a", "vbmeta_system_b"];
    assert ESSENTIAL_NAMES == ESSENTIAL_NAMES[..5] + ESSENTIAL_NAMES[5..11] + ESSENTIAL_NAMES[11..];
  }

  /** ept_is_partition_not_essential. */
  method IsNotEssential(p: Partition) returns (r: int)
    ensures r == 0 || r == 1
    ensures r == 0 <==> IsEssential(p)
  {
    for i := 0 to |ESSENTIAL_NAMES|
      invariant p.name !in ESSENTIAL_NAMES[..i]
    {
      if p.name == ESSENTIAL_NAMES[i] {
        return 0;
      }
    }
    return 1;
  }

  ghost predicate UniqueNames(t: seq<Partition>) {
    forall i, j :: 0 <= i < j < |t| ==> t[i].name != t[j].name
  }

  /** Some byte belongs to both. */
  predicate Overlap(p: Partition, q: Partition) {
    Max(p.offset, q.offset) < Min(p.End(), q.End())
  }

  ghost predicate Disjoint(t: seq<Partition>) {
    forall i, j :: 0 <= i < j < |t| ==> !Overlap(t[i], t[j])
  }

  /** offset + size does not wrap in 64 bits. */
  ghost predicate NoWrap(t: seq<Partition>) {
    forall i :: 0 <= i < |t| ==> t[i].End() < U64_LIMIT
  }

  ghost predicate EndsWithin(t: seq<Partition>, capacity: int) {
    forall i :: 0 <= i < |t| ==> t[i].End() <= capacity
  }

  /** The greatest 64-bit end, as ept_get_capacity adds it up. */
  function Capacity(t: seq<Partition>): u64 {
    if t == [] then 0
    else
      var n := |t| - 1;
      Max(Capacity(t[..n]), Add64(t[n].offset, t[n].size))
  }

  lemma {:induction false} CapacityIsGreatestEnd(t: seq<Partition>)
    ensures forall i :: 0 <= i < |t| ==> Add64(t[i].offset, t[i].size) <= Capacity(t)
    ensures t == [] || exists i :: 0 <= i < |t| && Capacity(t) == Add64(t[i].offset, t[i].size)
  {
    if t != [] {
      var n := |t| - 1;
      CapacityIsGreatestEnd(t[..n]);
      assert forall i :: 0 <= i < n ==> t[..n][i] == t[i];
      if Capacity(t) == Capacity(t[..n]) && n > 0 {
        var i :| 0 <= i < n && Capacity(t[..n]) == Add64(t[..n][i].offset, t[..n][i].size);
        assert Capacity(t) == Add64(t[i].offset, t[i].size);
      } else {
        assert Capacity(t) == Add64(t[n].offset, t[n].size);
      }
    }
  }

  lemma EndWithinCapacity(t: seq<Partition>, i: nat)
    requires i < |t| && NoWrap(t)
    ensures t[i].End() <= Capacity(t)
  {
    CapacityIsGreatestEnd(t);
    assert Add64(t[i].offset, t[i].size) == t[i].End();
  }

  /** ept_get_capacity. */
  method GetCapacity(t: seq<Partition>) returns (capacity: u64)
    requires |t| <= MAX_PARTITIONS_COUNT
    ensures capacity == Capacity(t)
  {
    capacity := 0;
    for i := 0 to |t|
      invariant capacity == Capacity(t[..i])
    {
      assert t[..i + 1][..i] == t[..i];
      var end := Add64(t[i].offset, t[i].size);
      if end > capacity {
        capacity := end;
      }
    }
    assert t[..|t|] == t;
  }
}
