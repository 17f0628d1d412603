/** Tables built from a device tree are sound, and the device tree made from a pedantic table gives the table back. */
module Layout {
  import opened Util
  import opened Ept
  import opened Table

  // ---- Merging, as a whole ----

  lemma {:induction false} IndexOfUnique(t: seq<Partition>, j: nat)
    requires j < |t| && UniqueNames(t)
    ensures IndexOf(t, t[j].name) == Some(j)
  {
    var r := IndexOf(t, t[j].name);
    assert t[r.value].name == t[j].name;
  }

  lemma MergeSnoc(t: seq<Partition>, parts: seq<DtsPart>, part: DtsPart)
    requires Merge(t, parts).Some?
    ensures Merge(t, parts + [part]) == MergeOne(Merge(t, parts).value, part)
  {
    assert (parts + [part])[..|parts|] == parts;
  }

  /** The last of the parts that has this name. */
  function LastOf(parts: seq<DtsPart>, name: string): Option<DtsPart> {
    if parts == [] then None
    else if parts[|parts| - 1].name == name then Some(parts[|parts| - 1])
    else LastOf(parts[..|parts| - 1], name)
  }

  /** Size and masks are those of the last part of the same name, and else what they were; every part is in the
      table. */
  lemma {:induction false} MergeTakesLast(t: seq<Partition>, parts: seq<DtsPart>)
    requires Merge(t, parts).Some? && UniqueNames(t)
    ensures var m := Merge(t, parts).value;
            && |t| <= |m| && UniqueNames(m)
            && (forall i :: 0 <= i < |m| ==>
                  match LastOf(parts, m[i].name)
                  case Some(p) => m[i].size == p.size && m[i].masks == p.mask && m[i].name == p.name
                  case None => i < |t| && m[i] == t[i])
            && (forall i :: 0 <= i < |t| ==> m[i].name == t[i].name && m[i].offset == t[i].offset)
            && (forall p :: p in parts ==> IndexOf(m, p.name).Some?)
    decreases |parts|
  {
    hide MergeOne, IndexOf;
    if parts != [] {
      var n := |parts| - 1;
      MergeTakesLast(t, parts[..n]);
      var m' := Merge(t, parts[..n]).value;
      NamesStay(m', parts[n]);
      hide UniqueNames;
      forall p | p in parts
        ensures IndexOf(Merge(t, parts).value, p.name).Some?
      {
        PartStays(m', Merge(t, parts).value, parts, p);
      }
    }
  }

  lemma PartStays(m': seq<Partition>, m: seq<Partition>, parts: seq<DtsPart>, p: DtsPart)
    requires p in parts && |m'| <= |m| && (forall i :: 0 <= i < |m'| ==> m[i].name == m'[i].name)
    requires IndexOf(m, parts[|parts| - 1].name).Some?
    requires forall q :: q in parts[..|parts| - 1] ==> IndexOf(m', q.name).Some?
    ensures IndexOf(m, p.name).Some?
  {
    if p != parts[|parts| - 1] {
      assert p in parts[..|parts| - 1];
      var i := IndexOf(m', p.name).value;
      assert m[i].name == p.name;
    }
  }

  lemma NamesStay(t: seq<Partition>, part: DtsPart)
    requires MergeOne(t, part).Some? && UniqueNames(t)
    ensures var m := MergeOne(t, part).value;
            && |t| <= |m| <= |t| + 1 && UniqueNames(m) && IndexOf(m, part.name).Some?
            && (forall i :: 0 <= i < |t| ==> m[i].name == t[i].name && m[i].offset == t[i].offset)
            && (forall i :: 0 <= i < |m| && m[i].name == part.name ==>
                  m[i].size == part.size && m[i].masks == part.mask)
            && (forall i :: 0 <= i < |m| ==> m[i].name != part.name ==> i < |t| && m[i] == t[i])
  {
    var m := MergeOne(t, part).value;
    match IndexOf(t, part.name)
    case Some(j) => assert m[j].name == part.name;
    case None => assert m[|t|].name == part.name;
  }

  // ---- Tables built from a device tree ----

  /** The parts leave the first two partitions alone. */
  predicate KeepsCritical(parts: seq<DtsPart>) {
    forall i :: 0 <= i < |parts| ==> parts[i].name != "bootloader" && parts[i].name != "reserved"
  }

  /** No sum of numbers like these leaves 64 bits. */
  predicate TameSize(size: u64, capacity: u64) {
    size == AUTOFILL || size + capacity < U64_LIMIT
  }

  predicate Tame(parts: seq<DtsPart>, gaps: Gaps, capacity: u64) {
    && capacity + gaps.partition < U64_LIMIT && capacity + ENV_SIZE < U64_LIMIT
    && BOOTLOADER_SIZE + gaps.reserved + RESERVED_SIZE + gaps.partition < U64_LIMIT
    && forall i :: 0 <= i < |parts| ==> TameSize(parts[i].size, capacity)
  }

  /** A partition ends within the capacity unless its offset and the size asked for wrap around. */
  lemma PlacedEnd(p: Partition, last: Partition, p': Partition, gaps: Gaps, capacity: u64)
    requires Placed(p, last, p', gaps, capacity)
    ensures p'.End() <= capacity <==> p.size == AUTOFILL || p'.offset + p.size < U64_LIMIT
  {
  }

  /** Exactly when a built table ends within the capacity. */
  lemma EndsWithinIffNoWrap(m: seq<Partition>, t: seq<Partition>, gaps: Gaps, capacity: u64, i: nat)
    requires LaidOut(m, t, gaps, capacity) && 2 <= i < |t|
    ensures t[i].End() <= capacity <==> m[i].size == AUTOFILL || t[i].offset + m[i].size < U64_LIMIT
  {
    assert PlacedAt(m, t, i, gaps, capacity);
    PlacedEnd(m[i], t[i - 1], t[i], gaps, capacity);
  }

  /** Where partition i starts and ends in 64-bit arithmetic, from the sizes and gaps alone. */
  function StartAt(m: seq<Partition>, gaps: Gaps, capacity: u64, i: nat): u64
    requires i < |m|
    decreases i, 0
  {
    if i == 0 then 0
    else if i == 1 then Add64(m[0].size, gaps.reserved)
    else Add64(EndAt(m, gaps, capacity, i - 1), gaps.partition)
  }

  function EndAt(m: seq<Partition>, gaps: Gaps, capacity: u64, i: nat): u64
    requires i < |m|
    decreases i, 1
  {
    var start, size := StartAt(m, gaps, capacity, i), m[i].size;
    if i >= 2 && (size == AUTOFILL || Add64(start, size) > capacity) then capacity else Add64(start, size)
  }

  /** No partition asks for more than there is, but for those that are cut or filled up. */
  predicate SizesFit(m: seq<Partition>, gaps: Gaps, capacity: u64) {
    forall i :: 0 <= i < |m| ==> SizeFits(m, gaps, capacity, i)
  }

  predicate SizeFits(m: seq<Partition>, gaps: Gaps, capacity: u64, i: nat)
    requires i < |m|
  {
    var end := StartAt(m, gaps, capacity, i) + m[i].size;
    if i < 2 then end <= capacity else m[i].size == AUTOFILL || end < U64_LIMIT
  }

  lemma {:induction false} StartsAndEnds(m: seq<Partition>, t: seq<Partition>, gaps: Gaps, capacity: u64, i: nat)
    requires LaidOut(m, t, gaps, capacity) && i < |t|
    ensures t[i].offset == StartAt(m, gaps, capacity, i) && End64(t[i]) == EndAt(m, gaps, capacity, i)
    decreases i
  {
    if i >= 2 {
      StartsAndEnds(m, t, gaps, capacity, i - 1);
      assert PlacedAt(m, t, i, gaps, capacity);
      FitEnds(m[i].size, t[i].offset, capacity);
    }
  }

  lemma FitEnds(size: u64, offset: u64, capacity: u64)
    requires offset <= capacity
    ensures Add64(offset, Fit(size, offset, capacity)) ==
            if size == AUTOFILL || Add64(offset, size) > capacity then capacity else Add64(offset, size)
  {
  }

  /** Whether the whole table ends within the capacity can be told from the sizes and gaps before it is laid out. */
  lemma TableEndsWithinIff(m: seq<Partition>, t: seq<Partition>, gaps: Gaps, capacity: u64)
    requires LaidOut(m, t, gaps, capacity)
    ensures EndsWithin(t, capacity) <==> SizesFit(m, gaps, capacity)
  {
    forall i | 0 <= i < |t|
      ensures t[i].End() <= capacity <==> SizeFits(m, gaps, capacity, i)
    {
      StartsAndEnds(m, t, gaps, capacity, i);
      if i >= 2 {
        EndsWithinIffNoWrap(m, t, gaps, capacity, i);
      }
    }
  }

  /** Every partition starts within the capacity. */
  predicate AllStart(m: seq<Partition>, gaps: Gaps, capacity: u64) {
    forall i :: 2 <= i < |m| ==> StartAt(m, gaps, capacity, i) <= capacity
  }

  /** So can whether it can be laid out at all. */
  lemma LayoutExistsIff(m: seq<Partition>, gaps: Gaps, capacity: u64)
    requires HasFirstFour(m)
    ensures (exists t :: LaidOut(m, t, gaps, capacity)) <==> AllStart(m, gaps, capacity)
  {
    if t :| LaidOut(m, t, gaps, capacity) {
      forall i | 2 <= i < |m|
        ensures StartAt(m, gaps, capacity, i) <= capacity
      {
        StartsAndEnds(m, t, gaps, capacity, i);
        assert PlacedAt(m, t, i, gaps, capacity);
      }
    }
    if AllStart(m, gaps, capacity) {
      var t := seq(|m|, i requires 0 <= i < |m| => LaidPart(m, gaps, capacity, i));
      forall i | 2 <= i < |m|
        ensures PlacedAt(m, t, i, gaps, capacity)
      {
        LaidEnds(m, gaps, capacity, i - 1);
      }
      assert LaidOut(m, t, gaps, capacity);
    }
  }

  function LaidPart(m: seq<Partition>, gaps: Gaps, capacity: u64, i: nat): Partition
    requires i < |m| && (i >= 2 ==> StartAt(m, gaps, capacity, i) <= capacity)
  {
    var start := StartAt(m, gaps, capacity, i);
    m[i].(offset := start, size := if i < 2 then m[i].size else Fit(m[i].size, start, capacity))
  }

  lemma LaidEnds(m: seq<Partition>, gaps: Gaps, capacity: u64, i: nat)
    requires i < |m| && (i >= 2 ==> StartAt(m, gaps, capacity, i) <= capacity)
    ensures End64(LaidPart(m, gaps, capacity, i)) == EndAt(m, gaps, capacity, i)
  {
    if i >= 2 {
      FitEnds(m[i].size, StartAt(m, gaps, capacity, i), capacity);
    }
  }

  /** A size of 2^64 - 2 is taken for one that fits. */
  lemma HugeSizeIsNotCut()
    ensures var gaps, capacity := Gaps(0x2000000, 0x800000), 0x1_0000_0000;
            var m := DEFAULTS + [Partition("data", 0, U64_LIMIT - 2, 4)];
            && Merge(DEFAULTS, [DtsPart("data", U64_LIMIT - 2, 4)]) == Some(m)
            && exists t: seq<Partition> ::
                 LaidOut(m, t, gaps, capacity) && t[4].size == U64_LIMIT - 2 && t[4].End() > capacity
  {
    var gaps, capacity := Gaps(0x2000000, 0x800000), 0x1_0000_0000;
    var part := DtsPart("data", U64_LIMIT - 2, 4);
    var m := DEFAULTS + [Partition("data", 0, U64_LIMIT - 2, 4)];
    assert [] + [part] == [part];
    MergeSnoc(DEFAULTS, [], part);
    var r := Reference(gaps, capacity);
    var t := r + [Partition("data", 0x8400000, U64_LIMIT - 2, 4)];
    assert PlacedAt(m, t, 2, gaps, capacity) && PlacedAt(m, t, 3, gaps, capacity) && PlacedAt(m, t, 4, gaps, capacity);
    assert LaidOut(m, t, gaps, capacity);
  }

  lemma MergedIsTame(parts: seq<DtsPart>, gaps: Gaps, capacity: u64)
    requires Merge(DEFAULTS, parts).Some? && KeepsCritical(parts) && Tame(parts, gaps, capacity)
    ensures var m := Merge(DEFAULTS, parts).value;
            && |m| >= 4 && m[0] == DEFAULTS[0] && m[1] == DEFAULTS[1] && HasFirstFour(m) && UniqueNames(m)
            && forall i :: 2 <= i < |m| ==> TameSize(m[i].size, capacity)
  {
    MergeTakesLast(DEFAULTS, parts);
    var m := Merge(DEFAULTS, parts).value;
    NeverLast(parts, "bootloader");
    NeverLast(parts, "reserved");
    forall i | 2 <= i < |m|
      ensures TameSize(m[i].size, capacity)
    {
      LastIsPart(parts, m[i].name);
    }
  }

  lemma {:induction false} NeverLast(parts: seq<DtsPart>, name: string)
    requires forall i :: 0 <= i < |parts| ==> parts[i].name != name
    ensures LastOf(parts, name) == None
    decreases |parts|
  {
    if parts != [] {
      NeverLast(parts[..|parts| - 1], name);
    }
  }

  lemma {:induction false} LastIsPart(parts: seq<DtsPart>, name: string)
    ensures var p := LastOf(parts, name); p.Some? ==>
              p.value.name == name && exists i :: 0 <= i < |parts| && parts[i] == p.value
    decreases |parts|
  {
    if parts != [] {
      var n := |parts| - 1;
      LastIsPart(parts[..n], name);
      var p := LastOf(parts, name);
      if p.Some? {
        if parts[n].name == name {
          assert parts[n] == p.value;
        } else {
          var i :| 0 <= i < n && parts[..n][i] == p.value;
          assert parts[i] == p.value;
        }
      }
    }
  }

  predicate StackedAt(t: seq<Partition>, i: nat, gaps: Gaps)
    requires 1 <= i < |t|
  {
    t[i].offset == t[i - 1].End() + gaps.partition
  }

  /** Each partition starts exactly one gap behind the one before it, with no wrap-around. */
  ghost predicate Stacked(t: seq<Partition>, gaps: Gaps) {
    && |t| >= 2 && t[0].offset == 0 && t[1].offset == t[0].End() + gaps.reserved
    && forall i :: 2 <= i < |t| ==> StackedAt(t, i, gaps)
  }

  lemma {:induction false} StackedOrder(t: seq<Partition>, gaps: Gaps, i: nat, j: nat)
    requires Stacked(t, gaps) && i < j < |t|
    ensures t[i].End() <= t[j].offset
    decreases j
  {
    if i < j - 1 {
      StackedOrder(t, gaps, i, j - 1);
    }
    if j >= 2 {
      assert StackedAt(t, j, gaps);
    }
  }

  lemma StackedIsDisjoint(t: seq<Partition>, gaps: Gaps)
    requires Stacked(t, gaps)
    ensures Disjoint(t)
  {
    forall i, j | 0 <= i < j < |t|
      ensures !Overlap(t[i], t[j])
    {
      StackedOrder(t, gaps, i, j);
    }
  }

  /** Only the last partition was filled up or cut short. */
  ghost predicate OnlyLastFilled(m: seq<Partition>, t: seq<Partition>) {
    |m| == |t| && forall i :: 0 <= i < |t| - 1 ==> t[i].size == m[i].size && (i >= 2 ==> m[i].size != AUTOFILL)
  }

  lemma BuiltStacks(parts: seq<DtsPart>, t: seq<Partition>, gaps: Gaps, capacity: u64)
    requires Merge(DEFAULTS, parts).Some? && KeepsCritical(parts) && Tame(parts, gaps, capacity)
    requires LaidOut(Merge(DEFAULTS, parts).value, t, gaps, capacity)
    ensures EndsWithin(t, capacity) && Stacked(t, gaps)
    ensures forall i :: 2 <= i < |t| ==> t[i].offset <= capacity
  {
    hide Merge;
    var m := Merge(DEFAULTS, parts).value;
    MergedIsTame(parts, gaps, capacity);
    assert PlacedAt(m, t, 2, gaps, capacity);
    forall i | 2 <= i < |t|
      ensures t[i].End() <= capacity && t[i].offset <= capacity
    {
      assert PlacedAt(m, t, i, gaps, capacity);
      PlacedEnd(m[i], t[i - 1], t[i], gaps, capacity);
    }
    forall i | 2 <= i < |t|
      ensures StackedAt(t, i, gaps)
    {
      assert PlacedAt(m, t, i, gaps, capacity);
    }
  }

  /** A table built from a device tree that leaves bootloader and reserved alone is what u-boot expects: pedantic, names
      unique even if the device tree repeats them, extents disjoint and increasing with the exact gaps, all ends within
      the capacity; with a positive gap only the last partition can have been filled up or cut. */
  lemma BuiltIsSound(parts: seq<DtsPart>, t: seq<Partition>, gaps: Gaps, capacity: u64)
    requires Merge(DEFAULTS, parts).Some? && KeepsCritical(parts) && Tame(parts, gaps, capacity)
    requires LaidOut(Merge(DEFAULTS, parts).value, t, gaps, capacity)
    ensures IsPedantic(t, gaps) && UniqueNames(t) && Stacked(t, gaps) && Disjoint(t) && EndsWithin(t, capacity)
    ensures gaps.partition > 0 ==> OnlyLastFilled(Merge(DEFAULTS, parts).value, t)
  {
    hide Merge;
    var m := Merge(DEFAULTS, parts).value;
    MergedIsTame(parts, gaps, capacity);
    BuiltStacks(parts, t, gaps, capacity);
    StackedIsDisjoint(t, gaps);
    SameNames(m, t, gaps, capacity);
    BuiltIsPedantic(m, t, gaps, capacity);
    if gaps.partition > 0 {
      forall i | 0 <= i < |t| - 1
        ensures t[i].size == m[i].size && (i >= 2 ==> m[i].size != AUTOFILL)
      {
        if i >= 2 {
          assert PlacedAt(m, t, i, gaps, capacity);
          assert StackedAt(t, i + 1, gaps);
        }
      }
    }
  }

  /** With legal names it also passes ept_valid_table. */
  lemma BuiltIsValid(parts: seq<DtsPart>, t: seq<Partition>, gaps: Gaps, capacity: u64)
    requires Merge(DEFAULTS, parts).Some? && LaidOut(Merge(DEFAULTS, parts).value, t, gaps, capacity)
    requires forall i :: 0 <= i < |parts| ==> LegalName(parts[i].name)
    ensures LegalNames(t) && UniqueNames(t)
  {
    hide Merge;
    var m := Merge(DEFAULTS, parts).value;
    MergeTakesLast(DEFAULTS, parts);
    SameNames(m, t, gaps, capacity);
    forall i | 0 <= i < |t|
      ensures LegalName(t[i].name)
    {
      LastIsPart(parts, m[i].name);
      DefaultNamesAreLegal();
    }
  }

  lemma DefaultNamesAreLegal()
    ensures LegalNames(DEFAULTS)
  {
  }

  lemma SameNames(m: seq<Partition>, t: seq<Partition>, gaps: Gaps, capacity: u64)
    requires LaidOut(m, t, gaps, capacity)
    ensures forall i :: 0 <= i < |t| ==> t[i].name == m[i].name && t[i].masks == m[i].masks
    ensures UniqueNames(m) ==> UniqueNames(t)
  {
    forall i | 2 <= i < |t|
      ensures t[i].name == m[i].name && t[i].masks == m[i].masks
    {
      assert PlacedAt(m, t, i, gaps, capacity);
    }
  }

  lemma BuiltIsPedantic(m: seq<Partition>, t: seq<Partition>, gaps: Gaps, capacity: u64)
    requires LaidOut(m, t, gaps, capacity) && m[0] == DEFAULTS[0] && m[1] == DEFAULTS[1]
    requires Stacked(t, gaps) && EndsWithin(t, capacity) && NoWrapLimits(gaps)
    ensures IsPedantic(t, gaps)
  {
    SameNames(m, t, gaps, capacity);
    EndWithinCapacity(t, 0);
    EndWithinCapacity(t, 2);
    EndWithinCapacity(t, 3);
    assert StackedAt(t, 2, gaps) && StackedAt(t, 3, gaps);
    assert t[2].offset == CacheOffset(gaps);
    assert EnvOffset(gaps) <= t[3].offset;
    forall i | 2 <= i < |t|
      ensures PedanticAt(t, i, gaps)
    {
      assert PlacedAt(m, t, i, gaps, capacity);
    }
  }

  predicate NoWrapLimits(gaps: Gaps) {
    BOOTLOADER_SIZE + gaps.reserved + RESERVED_SIZE + gaps.partition < U64_LIMIT
  }

  // ---- Back and forth ----

  /** What the device tree says about partition i, merged into the defaults. */
  function MergedAt(t: seq<Partition>, reference: seq<Partition>, capacity: u64, i: nat, n: nat): Partition
    requires |reference| == 4 && (i < n ==> i < |t|) && (i >= 4 ==> i < n)
  {
    if i < n && !(i < 4 && t[i] == reference[i]) then Partition(t[i].name, 0, DtsSize(t[i], capacity), t[i].masks)
    else DEFAULTS[i]
  }

  function Merged(t: seq<Partition>, reference: seq<Partition>, capacity: u64, n: nat): (m: seq<Partition>)
    requires |reference| == 4 && n <= |t|
    ensures |m| == Max(4, n)
  {
    seq(Max(4, n), i requires 0 <= i < Max(4, n) => MergedAt(t, reference, capacity, i, n))
  }

  lemma {:induction false} MergesBack(t: seq<Partition>, reference: seq<Partition>, capacity: u64, n: nat)
    requires |reference| == 4 && n <= |t| <= MAX_PARTITIONS_COUNT && HasFirstFour(t) && UniqueNames(t)
    ensures Merge(DEFAULTS, DtsParts(t[..n], reference, capacity)) == Some(Merged(t, reference, capacity, n))
  {
    if n == 0 {
      assert Merged(t, reference, capacity, 0) == DEFAULTS;
    } else {
      var k := n - 1;
      MergesBack(t, reference, capacity, k);
      assert t[..n][..k] == t[..k] && t[..n][k] == t[k];
      hide Merged, Merge;
      if k < 4 && t[k] == reference[k] {
        assert DtsParts(t[..n], reference, capacity) == DtsParts(t[..k], reference, capacity);
        MergedSame(t, reference, capacity, k);
      } else {
        var part := DtsPart(t[k].name, DtsSize(t[k], capacity), t[k].masks);
        MergeSnoc(DEFAULTS, DtsParts(t[..k], reference, capacity), part);
        MergeNext(t, reference, capacity, k);
      }
    }
  }

  lemma MergedSame(t: seq<Partition>, reference: seq<Partition>, capacity: u64, k: nat)
    requires |reference| == 4 && k < |t| && k < 4 && t[k] == reference[k]
    ensures Merged(t, reference, capacity, k + 1) == Merged(t, reference, capacity, k)
  {
  }

  lemma MergeNext(t: seq<Partition>, reference: seq<Partition>, capacity: u64, k: nat)
    requires |reference| == 4 && k < |t| <= MAX_PARTITIONS_COUNT && HasFirstFour(t) && UniqueNames(t)
    requires !(k < 4 && t[k] == reference[k])
    ensures MergeOne(Merged(t, reference, capacity, k), DtsPart(t[k].name, DtsSize(t[k], capacity), t[k].masks))
            == Some(Merged(t, reference, capacity, k + 1))
  {
    hide DtsSize;
    var m := Merged(t, reference, capacity, k);
    MergedNames(t, reference, capacity, k);
    if k < 4 {
      IndexOfUnique(m, k);
      hide IndexOf;
      assert m[k := MergedAt(t, reference, capacity, k, k + 1)] == Merged(t, reference, capacity, k + 1);
    } else {
      assert IndexOf(m, t[k].name) == None;
      hide IndexOf;
      assert m + [MergedAt(t, reference, capacity, k, k + 1)] == Merged(t, reference, capacity, k + 1);
    }
  }

  lemma MergedNames(t: seq<Partition>, reference: seq<Partition>, capacity: u64, k: nat)
    requires |reference| == 4 && k < |t| && HasFirstFour(t)
    ensures forall i :: 0 <= i < Max(4, k) ==> Merged(t, reference, capacity, k)[i].name == t[i].name
  {
    hide DtsSize;
  }

  lemma MergedLaysOut(t: seq<Partition>, gaps: Gaps, capacity: u64)
    requires IsPedantic(t, gaps) && EndsWithin(t, capacity) && HasReference(gaps, capacity)
    ensures LaidOut(Merged(t, Reference(gaps, capacity), capacity, |t|), t, gaps, capacity)
  {
    var r := Reference(gaps, capacity);
    var m := Merged(t, r, capacity, |t|);
    forall i | 2 <= i < |t|
      ensures PlacedAt(m, t, i, gaps, capacity)
    {
      assert PedanticAt(t, i, gaps) && t[i].End() <= capacity;
    }
    assert m[0] == DEFAULTS[0] && m[1] == DEFAULTS[1];
  }

  lemma ReferenceFits(t: seq<Partition>, gaps: Gaps, capacity: u64)
    requires IsPedantic(t, gaps) && EndsWithin(t, capacity)
    ensures HasReference(gaps, capacity) && capacity > 0
  {
    CapacityIsGreatestEnd(t);
    var i :| 0 <= i < |t| && Capacity(t) == Add64(t[i].offset, t[i].size);
    assert t[i].End() <= capacity;
  }

  /** From a table to the device tree and back is the identity: for every pedantic table with unique names that ends
      within the capacity, with cache and env at their defaults or not, and whatever sizes were written as "the
      rest". */
  lemma TableRoundTrip(t: seq<Partition>, gaps: Gaps, capacity: u64)
    requires IsPedantic(t, gaps) && UniqueNames(t) && EndsWithin(t, capacity) && |t| <= MAX_PARTITIONS_COUNT
    ensures HasReference(gaps, capacity) && capacity > 0
    ensures var m := Merge(DEFAULTS, DtsParts(t, Reference(gaps, capacity), capacity));
            m.Some? && forall t' :: LaidOut(m.value, t', gaps, capacity) <==> t' == t
  {
    ReferenceFits(t, gaps, capacity);
    var r := Reference(gaps, capacity);
    assert t[..|t|] == t;
    MergesBack(t, r, capacity, |t|);
    MergedLaysOut(t, gaps, capacity);
    var m := Merged(t, r, capacity, |t|);
    forall t' | LaidOut(m, t', gaps, capacity)
      ensures t' == t
    {
      LayoutIsUnique(m, t', t, |m|, gaps, capacity);
    }
  }

  /** How the device tree lists a partition: one that reaches the end has size -1. */
  predicate ListedAs(p: Partition, part: DtsPart, capacity: u64) {
    && part.name == p.name && part.mask == p.masks
    && part.size == if Add64(p.offset, p.size) < capacity then p.size else 0xFFFF_FFFF_FFFF_FFFF
  }

  /** The parts are these partitions, one by one. */
  predicate ListedAt(t: seq<Partition>, capacity: u64, parts: seq<DtsPart>, at: seq<nat>) {
    |at| == |parts| && forall k :: 0 <= k < |at| ==> at[k] < |t| && ListedAs(t[at[k]], parts[k], capacity)
  }

  predicate Rising(at: seq<nat>) {
    forall j, k :: 0 <= j < k < |at| ==> at[j] < at[k]
  }

  /** Of the first n partitions these are all that are not reference partitions in their places. */
  predicate Picks(t: seq<Partition>, reference: seq<Partition>, n: nat, at: seq<nat>)
    requires |reference| == 4 && n <= |t|
  {
    (forall i :: i in at ==> i < n) && forall i :: 0 <= i < n ==> (i !in at <==> i < 4 && t[i] == reference[i])
  }

  lemma PicksNext(t: seq<Partition>, reference: seq<Partition>, n: nat, at: seq<nat>)
    requires |reference| == 4 && n < |t| && Rising(at) && Picks(t, reference, n, at)
    ensures if n < 4 && t[n] == reference[n] then Picks(t, reference, n + 1, at)
            else Rising(at + [n]) && Picks(t, reference, n + 1, at + [n])
  {
    assert forall k :: 0 <= k < |at| ==> at[k] in at;
  }

  lemma ListedNext(t: seq<Partition>, n: nat, capacity: u64, parts: seq<DtsPart>, at: seq<nat>)
    requires n < |t| && ListedAt(t, capacity, parts, at)
    ensures ListedAt(t, capacity, parts + [DtsPart(t[n].name, DtsSize(t[n], capacity), t[n].masks)], at + [n])
  {
    SizeListed(t[n], capacity);
    hide ListedAs, DtsSize;
  }

  lemma {:induction false} ListedUpTo(t: seq<Partition>, reference: seq<Partition>, capacity: u64, n: nat)
    returns (at: seq<nat>)
    requires |reference| == 4 && n <= |t|
    ensures Rising(at) && Picks(t, reference, n, at)
    ensures ListedAt(t, capacity, DtsParts(t[..n], reference, capacity), at)
    decreases n
  {
    at := [];
    if n > 0 {
      at := ListedUpTo(t, reference, capacity, n - 1);
      assert t[..n][..n - 1] == t[..n - 1];
      PicksNext(t, reference, n - 1, at);
      hide Rising, Picks;
      if n > 4 || t[n - 1] != reference[n - 1] {
        ListedNext(t, n - 1, capacity, DtsParts(t[..n - 1], reference, capacity), at);
        hide ListedAt;
        at := at + [n - 1];
      }
    }
  }

  /** What the device tree lists, in the order of the table: every partition but a reference partition in its place. */
  lemma ListedInOrder(t: seq<Partition>, reference: seq<Partition>, capacity: u64) returns (at: seq<nat>)
    requires |reference| == 4
    ensures ListedAt(t, capacity, DtsParts(t, reference, capacity), at)
    ensures forall j, k :: 0 <= j < k < |at| ==> at[j] < at[k]
    ensures forall i :: 0 <= i < |t| ==> (i !in at <==> i < 4 && t[i] == reference[i])
  {
    at := ListedUpTo(t, reference, capacity, |t|);
    assert t[..|t|] == t;
  }

  lemma SizeListed(p: Partition, capacity: u64)
    ensures ListedAs(p, DtsPart(p.name, DtsSize(p, capacity), p.masks), capacity)
  {
  }

  lemma {:induction false} FewParts(t: seq<Partition>, reference: seq<Partition>, capacity: u64)
    requires |reference| == 4
    ensures |DtsParts(t, reference, capacity)| <= |t|
  {
    if t != [] {
      FewParts(t[..|t| - 1], reference, capacity);
    }
  }

  /** The same on the tables in memory. */
  method ThereAndBack(table: EptTable, gaps: Gaps, capacity: u64) returns (table': EptTable)
    requires table.Valid() && IsPedantic(table.Contents(), gaps) && UniqueNames(table.Contents())
    requires EndsWithin(table.Contents(), capacity)
    ensures table'.Valid() && table'.Contents() == table.Contents()
  {
    TableRoundTrip(table.Contents(), gaps, capacity);
    var r, parts := table.ToDts(gaps, capacity);
    FewParts(table.Contents(), Reference(gaps, capacity), capacity);
    table' := new EptTable();
    assert LaidOut(Merge(DEFAULTS, parts).value, table.Contents(), gaps, capacity);
    r := table'.FromDts(parts, gaps, capacity);
    assert r == 0;
  }

  // ---- The same device tree on a larger device ----

  /** The size of the last partition on a device of capacity', when the table for `capacity` came to it as a device
      tree: what reached the end still does, and everything else keeps its size. An `env` like that of the reference is
      not in the device tree, so it is laid out by default. */
  function GrownSize(t: seq<Partition>, reference: seq<Partition>, capacity: u64, capacity': u64): int
    requires |t| >= 4 && |reference| == 4
  {
    var last := t[|t| - 1];
    if |t| == 4 && last == reference[3] then Min(ENV_SIZE, capacity' - last.offset)
    else if last.End() == capacity then capacity' - last.offset
    else last.size
  }

  /** All partitions but the last end before the capacity, and the last one within it. */
  ghost predicate LastEndsLast(t: seq<Partition>, capacity: u64) {
    EndsWithin(t, capacity) && forall i :: 0 <= i < |t| - 1 ==> t[i].End() < capacity
  }

  /** With a gap between partitions that is always so. */
  lemma GapEndsLast(t: seq<Partition>, gaps: Gaps, capacity: u64)
    requires IsPedantic(t, gaps) && EndsWithin(t, capacity)
    requires gaps.partition > 0 && capacity + gaps.partition < U64_LIMIT && BOOTLOADER_SIZE + gaps.reserved < U64_LIMIT
    ensures LastEndsLast(t, capacity)
  {
    forall i | 0 <= i < |t| - 1
      ensures t[i].End() < capacity
    {
      assert t[i].End() <= capacity && t[i + 1].End() <= capacity;
      if i > 0 {
        assert PedanticAt(t, i + 1, gaps);
      }
    }
  }

  lemma MergedKeepsSize(t: seq<Partition>, gaps: Gaps, capacity: u64, i: nat)
    requires IsPedantic(t, gaps) && HasReference(gaps, capacity) && i < |t| && t[i].End() < capacity
    ensures var p := MergedAt(t, Reference(gaps, capacity), capacity, i, |t|);
            p.name == t[i].name && p.size == t[i].size && p.masks == t[i].masks
  {
    assert End64(t[i]) == t[i].End();
  }

  lemma FitsInLarger(size: u64, offset: u64, capacity: u64, capacity': u64)
    requires offset + size < capacity <= capacity'
    ensures Fit(size, offset, capacity') == size
  {
  }

  lemma LastEnds(t: seq<Partition>, gaps: Gaps, capacity: u64)
    requires IsPedantic(t, gaps) && LastEndsLast(t, capacity)
    ensures var last := t[|t| - 1]; last.End() <= capacity && End64(last) == last.End()
  {
  }

  lemma LastGrows(t: seq<Partition>, gaps: Gaps, capacity: u64, capacity': u64)
    requires IsPedantic(t, gaps) && HasReference(gaps, capacity) && LastEndsLast(t, capacity) && capacity <= capacity'
    ensures var n, r := |t| - 1, Reference(gaps, capacity);
            var p := MergedAt(t, r, capacity, n, |t|);
            && p.name == t[n].name && p.masks == t[n].masks
            && t[n].offset <= capacity && Fit(p.size, t[n].offset, capacity') == GrownSize(t, r, capacity, capacity')
  {
    LastEnds(t, gaps, capacity);
  }

  /** t is laid out like that, and nothing else is. */
  ghost predicate IsTheLayout(m: seq<Partition>, t: seq<Partition>, gaps: Gaps, capacity: u64) {
    forall t' :: LaidOut(m, t', gaps, capacity) <==> t' == t
  }

  /** The device tree of a table, laid out on a larger device, is the same table with its last partition grown. */
  lemma AtLargerCapacity(t: seq<Partition>, gaps: Gaps, capacity: u64, capacity': u64)
    requires IsPedantic(t, gaps) && UniqueNames(t) && |t| <= MAX_PARTITIONS_COUNT
    requires LastEndsLast(t, capacity) && capacity <= capacity'
    ensures HasReference(gaps, capacity) && capacity > 0
    ensures var r := Reference(gaps, capacity);
            var m, n, size := Merge(DEFAULTS, DtsParts(t, r, capacity)), |t| - 1, GrownSize(t, r, capacity, capacity');
            0 <= size < U64_LIMIT && m.Some? && IsTheLayout(m.value, t[n := t[n].(size := size)], gaps, capacity')
  {
    assert EndsWithin(t, capacity);
    hide *;
    ReferenceFits(t, gaps, capacity);
    FoursFit(t, gaps, capacity);
    MergedBack(t, gaps, capacity);
    GrownFits(t, gaps, capacity, capacity');
    GrownLaysOut(t, gaps, capacity, capacity');
    var r, n := Reference(gaps, capacity), |t| - 1;
    OnlyLayout(Merged(t, r, capacity, |t|), t[n := t[n].(size := GrownSize(t, r, capacity, capacity'))], gaps,
               capacity');
  }

  lemma FoursFit(t: seq<Partition>, gaps: Gaps, capacity: u64)
    requires IsPedantic(t, gaps) && HasReference(gaps, capacity)
    ensures |t| >= 4 && |Reference(gaps, capacity)| == 4
  {
  }

  lemma MergedBack(t: seq<Partition>, gaps: Gaps, capacity: u64)
    requires IsPedantic(t, gaps) && UniqueNames(t) && |t| <= MAX_PARTITIONS_COUNT && HasReference(gaps, capacity)
    ensures var r := Reference(gaps, capacity);
            Merge(DEFAULTS, DtsParts(t, r, capacity)) == Some(Merged(t, r, capacity, |t|))
  {
    assert t[..|t|] == t && HasFirstFour(t) && |Reference(gaps, capacity)| == 4;
    hide *;
    MergesBack(t, Reference(gaps, capacity), capacity, |t|);
  }

  lemma GrownFits(t: seq<Partition>, gaps: Gaps, capacity: u64, capacity': u64)
    requires IsPedantic(t, gaps) && HasReference(gaps, capacity) && LastEndsLast(t, capacity) && capacity <= capacity'
    ensures 0 <= GrownSize(t, Reference(gaps, capacity), capacity, capacity') < U64_LIMIT
  {
    LastGrows(t, gaps, capacity, capacity');
  }

  lemma OnlyLayout(m: seq<Partition>, t: seq<Partition>, gaps: Gaps, capacity: u64)
    requires LaidOut(m, t, gaps, capacity)
    ensures IsTheLayout(m, t, gaps, capacity)
  {
    forall t' | LaidOut(m, t', gaps, capacity)
      ensures t' == t
    {
      LayoutIsUnique(m, t', t, |m|, gaps, capacity);
    }
  }

  lemma GrownLaysOut(t: seq<Partition>, gaps: Gaps, capacity: u64, capacity': u64)
    requires IsPedantic(t, gaps) && HasReference(gaps, capacity) && LastEndsLast(t, capacity) && capacity <= capacity'
    requires 0 <= GrownSize(t, Reference(gaps, capacity), capacity, capacity') < U64_LIMIT
    ensures var r, n := Reference(gaps, capacity), |t| - 1;
            LaidOut(Merged(t, r, capacity, |t|), t[n := t[n].(size := GrownSize(t, r, capacity, capacity'))], gaps,
                    capacity')
  {
    var r, n := Reference(gaps, capacity), |t| - 1;
    var m, g := Merged(t, r, capacity, |t|), t[n := t[n].(size := GrownSize(t, r, capacity, capacity'))];
    LastGrows(t, gaps, capacity, capacity');
    assert m[0] == DEFAULTS[0] && m[1] == DEFAULTS[1];
    hide GrownSize, MergedAt, Fit;
    forall i | 2 <= i < |t|
      ensures PlacedAt(m, g, i, gaps, capacity')
    {
      assert PedanticAt(t, i, gaps) && g[i - 1] == t[i - 1];
      if i < n {
        MergedKeepsSize(t, gaps, capacity, i);
        FitsInLarger(t[i].size, t[i].offset, capacity, capacity');
      }
    }
    FourNames(t, gaps, capacity);
  }

  lemma FourNames(t: seq<Partition>, gaps: Gaps, capacity: u64)
    requires IsPedantic(t, gaps) && HasReference(gaps, capacity)
    ensures HasFirstFour(Merged(t, Reference(gaps, capacity), capacity, |t|))
  {
  }

  /** The same on the tables in memory. */
  method MoveToLarger(table: EptTable, gaps: Gaps, capacity: u64, capacity': u64) returns (table': EptTable)
    requires table.Valid() && IsPedantic(table.Contents(), gaps) && UniqueNames(table.Contents())
    requires LastEndsLast(table.Contents(), capacity) && capacity <= capacity'
    ensures table'.Valid() && HasReference(gaps, capacity)
    ensures var t, n := table.Contents(), |table.Contents()| - 1;
            table'.Contents()
              == t[n := t[n].(size := GrownSize(t, Reference(gaps, capacity), capacity, capacity'))]
  {
    ghost var t := table.Contents();
    ReferenceFits(t, gaps, capacity);
    var r, parts := table.ToDts(gaps, capacity);
    ghost var g := LargerTable(t, gaps, capacity, capacity', parts);
    hide IsPedantic, UniqueNames, LastEndsLast, Merge, DtsParts, LaidOut, GrownSize, Reference, HasReference;
    table' := new EptTable();
    r := table'.FromDts(parts, gaps, capacity');
    assert LaidOut(Merge(DEFAULTS, parts).value, g, gaps, capacity');
  }

  /** The one table that FromDts can make at the larger capacity. */
  lemma LargerTable(t: seq<Partition>, gaps: Gaps, capacity: u64, capacity': u64, parts: seq<DtsPart>)
    returns (g: seq<Partition>)
    requires IsPedantic(t, gaps) && UniqueNames(t) && |t| <= MAX_PARTITIONS_COUNT && HasReference(gaps, capacity)
    requires LastEndsLast(t, capacity) && capacity <= capacity'
    requires parts == DtsParts(t, Reference(gaps, capacity), capacity)
    ensures var n := |t| - 1; var size := GrownSize(t, Reference(gaps, capacity), capacity, capacity');
            0 <= size < U64_LIMIT && g == t[n := t[n].(size := size)]
    ensures |parts| <= MAX_PARTITIONS_COUNT && Merge(DEFAULTS, parts).Some?
    ensures IsTheLayout(Merge(DEFAULTS, parts).value, g, gaps, capacity')
  {
    hide *;
    FoursFit(t, gaps, capacity);
    AtLargerCapacity(t, gaps, capacity, capacity');
    FewParts(t, Reference(gaps, capacity), capacity);
    g := t[|t| - 1 := t[|t| - 1].(size := GrownSize(t, Reference(gaps, capacity), capacity, capacity'))];
  }
}
