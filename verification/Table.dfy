/** Building an eMMC partition table from the partitions of a device tree, and back (src/ept.c). */
module Table {
  import opened Util
  import opened Ept

  /** The size -1 that asks for all space left. */
  const AUTOFILL: u64 := U64_LIMIT - 1

  const BOOTLOADER_SIZE: u64 := 0x400000
  const RESERVED_SIZE: u64 := 0x4000000
  const CACHE_SIZE: u64 := 0
  const ENV_SIZE: u64 := 0x800000

  /** The two gaps of cli_options. */
  datatype Gaps = Gaps(reserved: u64, partition: u64)

  /** ept_table_empty. */
  const DEFAULTS: seq<Partition> := [
    Partition("bootloader", 0, BOOTLOADER_SIZE, 0), Partition("reserved", 0, RESERVED_SIZE, 0),
    Partition("cache", 0, CACHE_SIZE, 0), Partition("env", 0, ENV_SIZE, 0)
  ]

  // ---- Offsets ----

  /** C's end of a partition, in 64 bits. */
  function End64(p: Partition): u64 {
    Add64(p.offset, p.size)
  }

  /** The size that a partition gets at this offset. */
  function Fit(size: u64, offset: u64, capacity: u64): u64
    requires offset <= capacity
  {
    if size == AUTOFILL || Add64(offset, size) > capacity then capacity - offset else size
  }

  predicate HasFirstFour(t: seq<Partition>) {
    |t| >= 4 && t[0].name == "bootloader" && t[1].name == "reserved" && t[2].name == "cache" && t[3].name == "env"
  }

  /** p' is p placed behind `last`. */
  predicate Placed(p: Partition, last: Partition, p': Partition, gaps: Gaps, capacity: u64) {
    && p'.offset == Add64(End64(last), gaps.partition) <= capacity
    && p' == p.(offset := p'.offset, size := Fit(p.size, p'.offset, capacity))
  }

  ghost predicate PlacedAt(t: seq<Partition>, t': seq<Partition>, i: nat, gaps: Gaps, capacity: u64)
    requires 2 <= i < |t| == |t'|
  {
    Placed(t[i], t'[i - 1], t'[i], gaps, capacity)
  }

  /** The first n partitions of t' are those of t where the original u-boot expects them. */
  ghost predicate PlacedUpTo(t: seq<Partition>, t': seq<Partition>, n: nat, gaps: Gaps, capacity: u64) {
    && 2 <= n <= |t| == |t'|
    && t'[0] == t[0].(offset := 0) && t'[1] == t[1].(offset := Add64(t[0].size, gaps.reserved))
    && forall i :: 2 <= i < n ==> PlacedAt(t, t', i, gaps, capacity)
  }

  /** t' is t laid out. */
  ghost predicate LaidOut(t: seq<Partition>, t': seq<Partition>, gaps: Gaps, capacity: u64) {
    HasFirstFour(t) && PlacedUpTo(t, t', |t|, gaps, capacity)
  }

  /** There is one layout at most. */
  lemma {:induction false} LayoutIsUnique(t: seq<Partition>, a: seq<Partition>, b: seq<Partition>, n: nat, gaps: Gaps,
                                          capacity: u64)
    requires PlacedUpTo(t, a, n, gaps, capacity) && LaidOut(t, b, gaps, capacity)
    ensures forall i :: 0 <= i < n ==> a[i] == b[i]
  {
    if n > 2 {
      LayoutIsUnique(t, a, b, n - 1, gaps, capacity);
      assert PlacedAt(t, a, n - 1, gaps, capacity) && PlacedAt(t, b, n - 1, gaps, capacity);
    }
  }

  lemma PlacedStays(t: seq<Partition>, a: seq<Partition>, b: seq<Partition>, n: nat, gaps: Gaps, capacity: u64)
    requires PlacedUpTo(t, a, n, gaps, capacity) && |a| == |b| && forall k :: 0 <= k < n ==> a[k] == b[k]
    ensures PlacedUpTo(t, b, n, gaps, capacity)
  {
    forall i | 2 <= i < n
      ensures PlacedAt(t, b, i, gaps, capacity)
    {
      assert PlacedAt(t, a, i, gaps, capacity);
    }
  }

  lemma NextFits(t: seq<Partition>, a: seq<Partition>, b: seq<Partition>, i: nat, gaps: Gaps, capacity: u64)
    requires PlacedUpTo(t, a, i, gaps, capacity) && LaidOut(t, b, gaps, capacity) && i < |t|
    ensures Add64(End64(a[i - 1]), gaps.partition) <= capacity
  {
    LayoutIsUnique(t, a, b, i, gaps, capacity);
    assert PlacedAt(t, b, i, gaps, capacity);
  }

  // ---- Merging the device tree's partitions into the default ones ----

  /** The first partition of this name. */
  function IndexOf(t: seq<Partition>, name: string): (r: Option<nat>)
    ensures r.Some? ==> r.value < |t| && t[r.value].name == name
    ensures r == None ==> forall i :: 0 <= i < |t| ==> t[i].name != name
  {
    if t == [] then None
    else if t[0].name == name then Some(0)
    else match IndexOf(t[1..], name) case None => None case Some(i) => Some(i + 1)
  }

  /** The index of the first partition of that name from j on. */
  function IndexFrom(t: seq<Partition>, j: nat, name: string): Option<nat>
    requires j <= |t|
  {
    match IndexOf(t[j..], name) case None => None case Some(i) => Some(i + j)
  }

  lemma IndexStep(t: seq<Partition>, j: nat, name: string)
    requires j < |t|
    ensures IndexFrom(t, j, name) == if t[j].name == name then Some(j) else IndexFrom(t, j + 1, name)
  {
    assert t[j..][0] == t[j] && t[j..][1..] == t[j + 1..];
  }

  lemma IndexEnds(t: seq<Partition>, name: string)
    ensures IndexFrom(t, 0, name) == IndexOf(t, name) && IndexFrom(t, |t|, name) == None
  {
    assert t[0..] == t;
  }

  function MergeOne(t: seq<Partition>, part: DtsPart): Option<seq<Partition>> {
    match IndexOf(t, part.name)
    case Some(j) => Some(t[j := t[j].(size := part.size, masks := part.mask)])
    case None =>
      if |t| >= MAX_PARTITIONS_COUNT then None
      else Some(t + [Partition(part.name, 0, part.size, part.mask)])
  }

  function Merge(t: seq<Partition>, parts: seq<DtsPart>): Option<seq<Partition>> {
    if parts == [] then Some(t)
    else
      var n := |parts| - 1;
      match Merge(t, parts[..n])
      case None => None
      case Some(t') => MergeOne(t', parts[n])
  }

  lemma {:induction false} MergeFails(t: seq<Partition>, parts: seq<DtsPart>, k: nat)
    requires k <= |parts| && Merge(t, parts[..k]) == None
    ensures Merge(t, parts) == None
    decreases |parts| - k
  {
    if k == |parts| {
      assert parts[..k] == parts;
    } else {
      assert parts[..k + 1][..k] == parts[..k];
      MergeFails(t, parts, k + 1);
    }
  }

  /** The default partitions stay first and keep their names. */
  lemma {:induction false} MergeKeepsNames(t: seq<Partition>, parts: seq<DtsPart>)
    requires Merge(t, parts).Some? && UniqueNames(t)
    ensures var t' := Merge(t, parts).value; |t| <= |t'| && UniqueNames(t') && forall i :: 0 <= i < |t| ==>
              t'[i].name == t[i].name
    decreases |parts|
  {
    if parts != [] {
      MergeKeepsNames(t, parts[..|parts| - 1]);
    }
  }

  // ---- The table in memory ----

  class EptTable {
    const slots: array<Partition>
    var count: nat

    ghost predicate Valid()
      reads this
    {
      slots.Length == MAX_PARTITIONS_COUNT && count <= MAX_PARTITIONS_COUNT
    }

    function Contents(): (t: seq<Partition>)
      requires Valid()
      reads this, slots
      ensures |t| == count
    {
      slots[..count]
    }

    /** A copy of ept_table_empty. */
    constructor ()
      ensures Valid() && fresh(slots) && Contents() == DEFAULTS
    {
      slots := new Partition[MAX_PARTITIONS_COUNT](i => if 0 <= i < 4 then DEFAULTS[i] else Partition("", 0, 0, 0));
      count := 4;
    }

    /** ept_pedantic_offsets. */
    method PedanticOffsets(gaps: Gaps, capacity: u64) returns (r: int)
      requires Valid()
      modifies slots
      ensures Valid()
      ensures r == 0 ==> LaidOut(old(Contents()), Contents(), gaps, capacity)
      ensures r != 0 ==>
                forall t' {:trigger LaidOut(old(Contents()), t', gaps, capacity)} ::
                  !LaidOut(old(Contents()), t', gaps, capacity)
    {
      ghost var t := Contents();
      if count < 4 {
        return 1;
      }
      if slots[0].name != "bootloader" || slots[1].name != "reserved"
         || slots[2].name != "cache" || slots[3].name != "env" {
        assert t[0] == slots[0] && t[1] == slots[1] && t[2] == slots[2] && t[3] == slots[3];
        return 2;
      }
      slots[0] := slots[0].(offset := 0);
      slots[1] := slots[1].(offset := Add64(slots[0].size, gaps.reserved));
      for i := 2 to count
        invariant PlacedUpTo(t, Contents(), i, gaps, capacity)
        invariant forall k :: i <= k < count ==> slots[k] == t[k]
      {
        var offset := Add64(Add64(slots[i - 1].offset, slots[i - 1].size), gaps.partition);
        ghost var was := Contents();
        slots[i] := slots[i].(offset := offset);
        if offset > capacity {
          forall t' | LaidOut(t, t', gaps, capacity)
            ensures false
          {
            NextFits(t, was, t', i, gaps, capacity);
          }
          return 3;
        }
        if slots[i].size == AUTOFILL || Add64(offset, slots[i].size) > capacity {
          slots[i] := slots[i].(size := capacity - offset);
        }
        assert forall k :: 0 <= k < count && k != i ==> Contents()[k] == was[k];
        assert Contents()[i] == slots[i];
        PlacedStays(t, was, Contents(), i, gaps, capacity);
        assert PlacedAt(t, Contents(), i, gaps, capacity);
      }
      return 0;
    }

    method Find(name: string) returns (r: Option<nat>)
      requires Valid()
      ensures r == IndexOf(Contents(), name)
    {
      hide IndexOf, IndexFrom;
      IndexEnds(Contents(), name);
      for j := 0 to count
        invariant IndexOf(Contents(), name) == IndexFrom(Contents(), j, name)
      {
        IndexStep(Contents(), j, name);
        if slots[j].name == name {
          return Some(j);
        }
      }
      return None;
    }

    /** One turn of the loop of the two ept_table_from_dts_partitions_helper functions. */
    method MergePart(part: DtsPart) returns (ok: bool)
      requires Valid()
      modifies this`count, slots
      ensures Valid()
      ensures ok == MergeOne(old(Contents()), part).Some?
      ensures ok ==> Contents() == MergeOne(old(Contents()), part).value
    {
      ghost var t := Contents();
      var found := Find(part.name);
      if found.Some? {
        var j := found.value;
        slots[j] := slots[j].(size := part.size, masks := part.mask);
        return true;
      }
      if count >= MAX_PARTITIONS_COUNT {
        return false;
      }
      slots[count] := Partition(part.name, 0, part.size, part.mask);
      count := count + 1;
      return true;
    }

    /** ept_table_from_dts_partitions_helper and its twin for the simple helper. */
    method FromDts(parts: seq<DtsPart>, gaps: Gaps, capacity: u64) returns (r: int)
      requires Valid() && Contents() == DEFAULTS && |parts| <= MAX_PARTITIONS_COUNT
      modifies this`count, slots
      ensures Valid()
      ensures r == 0 ==>
                Merge(DEFAULTS, parts).Some? && LaidOut(Merge(DEFAULTS, parts).value, Contents(), gaps, capacity)
      ensures r != 0 ==>
                || Merge(DEFAULTS, parts) == None
                || forall t' :: !LaidOut(Merge(DEFAULTS, parts).value, t', gaps, capacity)
    {
      for i := 0 to |parts|
        invariant Valid() && Merge(DEFAULTS, parts[..i]) == Some(Contents())
      {
        assert parts[..i + 1][..i] == parts[..i];
        var ok := MergePart(parts[i]);
        if !ok {
          MergeFails(DEFAULTS, parts, i + 1);
          return 2;
        }
      }
      assert parts[..|parts|] == parts;
      var bad := PedanticOffsets(gaps, capacity);
      return if bad != 0 then 2 else 0;
    }

    /** ept_create_pedantic. */
    static method CreatePedantic(gaps: Gaps, capacity: u64) returns (r: int, pedantic: EptTable)
      ensures pedantic.Valid() && fresh(pedantic) && fresh(pedantic.slots)
      ensures r == 0 <==> HasReference(gaps, capacity)
      ensures r == 0 ==> pedantic.Contents() == Reference(gaps, capacity)
    {
      pedantic := new EptTable();
      r := pedantic.PedanticOffsets(gaps, capacity);
      ReferenceIsLaidOut(gaps, capacity);
      if r == 0 {
        LayoutIsUnique(DEFAULTS, Reference(gaps, capacity), pedantic.Contents(), 4, gaps, capacity);
      }
    }

    /** ept_table_to_dts_partitions_helper. */
    method ToDts(gaps: Gaps, capacity: u64) returns (r: int, parts: seq<DtsPart>)
      requires Valid()
      ensures r == 0 <==> count > 0 && capacity > 0 && HasReference(gaps, capacity)
      ensures r == 0 ==> parts == DtsParts(Contents(), Reference(gaps, capacity), capacity)
    {
      parts := [];
      if count == 0 || capacity == 0 {
        return 1, parts;
      }
      var pedantic;
      r, pedantic := CreatePedantic(gaps, capacity);
      if r != 0 {
        return 2, parts;
      }
      for i := 0 to count
        invariant parts == DtsParts(Contents()[..i], Reference(gaps, capacity), capacity)
      {
        assert Contents()[..i + 1][..i] == Contents()[..i];
        var source := slots[i];
        var copy := true;
        if i < 4 {
          copy := source != pedantic.slots[i];
          assert pedantic.Contents()[i] == pedantic.slots[i];
        }
        if copy {
          var size := source.size;
          if Add64(source.offset, source.size) >= capacity {
            size := AUTOFILL;
          }
          parts := parts + [DtsPart(source.name, size, source.masks)];
        }
      }
      assert Contents()[..count] == Contents();
      return 0, parts;
    }

    /** ept_is_not_pedantic. */
    method IsNotPedantic(gaps: Gaps) returns (r: int)
      requires Valid()
      ensures r == 0 <==> IsPedantic(Contents(), gaps)
    {
      if count < 4 {
        return -1;
      }
      var capacity := GetCapacity(Contents());
      if capacity == 0 {
        return -2;
      }
      var bad, pedantic := CreatePedantic(gaps, capacity);
      if bad != 0 {
        return -3;
      }
      ghost var t := Contents();
      assert pedantic.Contents()[0] == pedantic.slots[0] && pedantic.Contents()[1] == pedantic.slots[1];
      assert t[0] == slots[0] && t[1] == slots[1] && t[2] == slots[2] && t[3] == slots[3];
      if slots[0] != pedantic.slots[0] {
        return 1;
      }
      if slots[1] != pedantic.slots[1] {
        return 2;
      }
      if slots[2].name != "cache" {
        return 3;
      }
      if slots[3].name != "env" {
        return 4;
      }
      for i := 2 to count
        invariant forall k :: 2 <= k < i ==> PedanticAt(t, k, gaps)
      {
        assert t[i] == slots[i] && t[i - 1] == slots[i - 1];
        if slots[i].offset != Add64(Add64(slots[i - 1].offset, slots[i - 1].size), gaps.partition) {
          assert !PedanticAt(t, i, gaps);
          return 10 + i;
        }
      }
      return 0;
    }
  }

  // ---- Valid tables ----

  predicate LegalChar(c: char) {
    c == '-' || c == '_' || '0' <= c <= '9' || 'A' <= c <= 'Z' || 'a' <= c <= 'z'
  }

  predicate LegalName(name: string) {
    forall k :: 0 <= k < |name| ==> LegalChar(name[k])
  }

  predicate LegalNames(t: seq<Partition>) {
    forall i :: 0 <= i < |t| ==> LegalName(t[i].name)
  }

  /** ept_valid_partition_name: how many of the up to 16 characters are illegal. */
  method CountIllegal(name: string) returns (ret: nat)
    ensures ret == 0 <==> LegalName(name)
  {
    ret := 0;
    for i := 0 to |name|
      invariant ret == 0 <==> forall k :: 0 <= k < i ==> LegalChar(name[k])
    {
      if !LegalChar(name[i]) {
        ret := ret + 1;
      }
    }
  }

  /** What ept_valid_table says about the partitions: how many names are illegal, and how many are repeated. */
  method CountInvalid(table: EptTable) returns (ret: nat)
    requires table.Valid()
    ensures ret == 0 <==> LegalNames(table.Contents()) && UniqueNames(table.Contents())
  {
    ghost var t := table.Contents();
    hide LegalNames, LegalName, UniqueNames;
    NoNames(t);
    var names: seq<string> := [];
    ret := 0;
    for i := 0 to table.count
      invariant forall x :: x in names <==> HasName(t, i, x)
      invariant ret == 0 <==> LegalNames(t[..i]) && UniqueNames(t[..i])
    {
      assert t[i] == table.slots[i];
      var name := table.slots[i].name;
      var illegal := CountIllegal(name);
      var dups := CountSame(names, name);
      ret := ret + (if illegal > 0 then 1 else 0) + dups;
      OneMoreName(t, i);
      if dups == 0 {
        names := names + [name];
      }
    }
    assert t[..table.count] == t;
  }

  /** The loop over the names so far. */
  method CountSame(names: seq<string>, name: string) returns (n: nat)
    ensures n == 0 <==> name !in names
  {
    n := 0;
    for j := 0 to |names|
      invariant n == 0 <==> name !in names[..j]
    {
      if name == names[j] {
        n := n + 1;
      }
    }
    assert names[..|names|] == names;
  }

  /** One of the first n names. */
  ghost predicate HasName(t: seq<Partition>, n: nat, name: string)
    requires n <= |t|
  {
    exists k :: 0 <= k < n && t[k].name == name
  }

  lemma NoNames(t: seq<Partition>)
    ensures LegalNames(t[..0]) && UniqueNames(t[..0]) && forall x :: !HasName(t, 0, x)
  {
  }

  lemma OneMoreName(t: seq<Partition>, i: nat)
    requires i < |t|
    ensures UniqueNames(t[..i + 1]) <==> UniqueNames(t[..i]) && !HasName(t, i, t[i].name)
    ensures forall x :: HasName(t, i + 1, x) <==> HasName(t, i, x) || x == t[i].name
    ensures LegalNames(t[..i + 1]) <==> LegalNames(t[..i]) && LegalName(t[i].name)
  {
    OneMoreUnique(t, i);
    OneMoreLegal(t, i);
    forall x
      ensures HasName(t, i + 1, x) <==> HasName(t, i, x) || x == t[i].name
    {
      OneMoreHas(t, i, x);
    }
    hide UniqueNames, LegalNames, LegalName, HasName;
  }

  lemma OneMoreHas(t: seq<Partition>, i: nat, x: string)
    requires i < |t|
    ensures HasName(t, i + 1, x) <==> HasName(t, i, x) || x == t[i].name
  {
    if HasName(t, i + 1, x) && x != t[i].name {
      var k :| 0 <= k < i + 1 && t[k].name == x;
      assert k < i;
    }
  }

  lemma OneMoreUnique(t: seq<Partition>, i: nat)
    requires i < |t|
    ensures UniqueNames(t[..i + 1]) <==> UniqueNames(t[..i]) && !HasName(t, i, t[i].name)
  {
    var a, b := t[..i], t[..i + 1];
    if UniqueNames(b) {
      forall k | 0 <= k < i
        ensures t[k].name != t[i].name
      {
        assert b[k].name != b[i].name;
      }
      forall j, k | 0 <= j < k < i
        ensures a[j].name != a[k].name
      {
        assert b[j].name != b[k].name;
      }
    }
    if UniqueNames(a) && !HasName(t, i, t[i].name) {
      forall j, k | 0 <= j < k <= i
        ensures b[j].name != b[k].name
      {
        if k < i {
          assert a[j].name != a[k].name;
        } else {
          assert t[j].name != t[i].name;
        }
      }
    }
  }

  lemma OneMoreLegal(t: seq<Partition>, i: nat)
    requires i < |t|
    ensures LegalNames(t[..i + 1]) <==> LegalNames(t[..i]) && LegalName(t[i].name)
  {
    hide LegalName;
    var a, b := t[..i], t[..i + 1];
    if LegalNames(b) {
      assert LegalName(b[i].name);
      forall k | 0 <= k < i
        ensures LegalName(a[k].name)
      {
        assert LegalName(b[k].name);
      }
    }
    if LegalNames(a) && LegalName(t[i].name) {
      forall k | 0 <= k <= i
        ensures LegalName(b[k].name)
      {
        if k < i {
          assert LegalName(a[k].name);
        }
      }
    }
  }

  // ---- The pedantic reference ----

  function CacheOffset(gaps: Gaps): u64 {
    Add64(Add64(Add64(BOOTLOADER_SIZE, gaps.reserved), RESERVED_SIZE), gaps.partition)
  }

  function EnvOffset(gaps: Gaps): u64 {
    Add64(Add64(CacheOffset(gaps), CACHE_SIZE), gaps.partition)
  }

  /** ept_create_pedantic succeeds. */
  predicate HasReference(gaps: Gaps, capacity: u64) {
    CacheOffset(gaps) <= capacity && EnvOffset(gaps) <= capacity
  }

  function Reference(gaps: Gaps, capacity: u64): seq<Partition>
    requires HasReference(gaps, capacity)
  {
    [
      Partition("bootloader", 0, BOOTLOADER_SIZE, 0),
      Partition("reserved", Add64(BOOTLOADER_SIZE, gaps.reserved), RESERVED_SIZE, 0),
      Partition("cache", CacheOffset(gaps), CACHE_SIZE, 0),
      Partition("env", EnvOffset(gaps), Fit(ENV_SIZE, EnvOffset(gaps), capacity), 0)
    ]
  }

  /** The reference is the layout of the default partitions. */
  lemma ReferenceIsLaidOut(gaps: Gaps, capacity: u64)
    ensures HasReference(gaps, capacity) ==> LaidOut(DEFAULTS, Reference(gaps, capacity), gaps, capacity)
    ensures !HasReference(gaps, capacity) ==> forall t' :: !LaidOut(DEFAULTS, t', gaps, capacity)
  {
    if HasReference(gaps, capacity) {
      var t' := Reference(gaps, capacity);
      assert PlacedAt(DEFAULTS, t', 2, gaps, capacity) && PlacedAt(DEFAULTS, t', 3, gaps, capacity);
    } else {
      forall t' | LaidOut(DEFAULTS, t', gaps, capacity)
        ensures false
      {
        FitsDefaults(t', gaps, capacity);
      }
    }
  }

  lemma FitsDefaults(t': seq<Partition>, gaps: Gaps, capacity: u64)
    requires LaidOut(DEFAULTS, t', gaps, capacity)
    ensures HasReference(gaps, capacity)
  {
    assert PlacedAt(DEFAULTS, t', 2, gaps, capacity) && PlacedAt(DEFAULTS, t', 3, gaps, capacity);
  }

  /** The offset of partition i is where the original u-boot expects it. */
  predicate PedanticAt(t: seq<Partition>, i: nat, gaps: Gaps)
    requires 1 <= i < |t|
  {
    t[i].offset == Add64(End64(t[i - 1]), gaps.partition)
  }

  ghost predicate IsPedantic(t: seq<Partition>, gaps: Gaps) {
    && HasFirstFour(t) && Capacity(t) != 0 && HasReference(gaps, Capacity(t))
    && t[0] == Partition("bootloader", 0, BOOTLOADER_SIZE, 0)
    && t[1] == Partition("reserved", Add64(BOOTLOADER_SIZE, gaps.reserved), RESERVED_SIZE, 0)
    && forall i :: 2 <= i < |t| ==> PedanticAt(t, i, gaps)
  }

  // ---- What goes into the device tree ----

  function DtsSize(p: Partition, capacity: u64): u64 {
    if End64(p) >= capacity then AUTOFILL else p.size
  }

  /** The partitions that differ from the reference, which is compared with the first four. */
  function DtsParts(t: seq<Partition>, reference: seq<Partition>, capacity: u64): seq<DtsPart>
    requires |reference| == 4
  {
    if t == [] then []
    else
      var n := |t| - 1;
      DtsParts(t[..n], reference, capacity)
      + if n < 4 && t[n] == reference[n] then [] else [DtsPart(t[n].name, DtsSize(t[n], capacity), t[n].masks)]
  }
}