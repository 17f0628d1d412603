/** ept_ungap (src/ept.c): closing the gaps of a table, filling the space before `reserved` as well as a greedy packer
    can. */
module Packing {
  import opened Util
  import opened Ept
  import opened Table
  import opened Greedy

  // ---- Parts of a table by index: the pointers of the source ----

  predicate Indexes(t: seq<Partition>, order: seq<nat>) {
    forall k :: 0 <= k < |order| ==> order[k] < |t|
  }

  function Pick(t: seq<Partition>, order: seq<nat>): (r: seq<Partition>)
    requires Indexes(t, order)
    ensures |r| == |order|
  {
    seq(|order|, k requires 0 <= k < |order| => t[order[k]])
  }

  function Sizes(ps: seq<Partition>): (r: seq<nat>)
    ensures |r| == |ps|
  {
    seq(|ps|, k requires 0 <= k < |ps| => ps[k].size)
  }

  lemma PickWithout(t: seq<Partition>, s: seq<nat>, k: nat)
    requires k < |s| && Indexes(t, s)
    ensures Indexes(t, s[..k] + s[k + 1..])
    ensures multiset(s) == multiset(s[..k] + s[k + 1..]) + multiset{s[k]}
    ensures multiset(Pick(t, s)) == multiset(Pick(t, s[..k] + s[k + 1..])) + multiset{t[s[k]]}
  {
    var a, b := s[..k], s[k + 1..];
    assert s == a + [s[k]] + b;
    assert Pick(t, s) == Pick(t, a) + [t[s[k]]] + Pick(t, b);
    assert Pick(t, a + b) == Pick(t, a) + Pick(t, b);
  }

  lemma {:induction false} PickRearranged(t: seq<Partition>, a: seq<nat>, b: seq<nat>)
    requires Indexes(t, a) && Indexes(t, b) && multiset(a) == multiset(b)
    ensures multiset(Pick(t, a)) == multiset(Pick(t, b))
    decreases |a|
  {
    hide Pick;
    if a == [] {
      assert |multiset(b)| == 0;
      assert b == [];
    } else {
      assert a[0] in multiset(b);
      var k :| 0 <= k < |b| && b[k] == a[0];
      PickWithout(t, a, 0);
      PickWithout(t, b, k);
      assert multiset(a[..0] + a[1..]) == multiset(a) - multiset{a[0]};
      assert multiset(b[..k] + b[k + 1..]) == multiset(b) - multiset{a[0]};
      PickRearranged(t, a[..0] + a[1..], b[..k] + b[k + 1..]);
    }
  }

  function AllIndexes(n: nat): seq<nat> {
    seq(n, i => i)
  }

  lemma PickAll(t: seq<Partition>)
    ensures Indexes(t, AllIndexes(|t|)) && Pick(t, AllIndexes(|t|)) == t
  {
  }

  // ---- What stays the same ----

  /** A partition apart from where it is. */
  function Bare(p: Partition): Partition {
    p.(offset := 0)
  }

  function AllBare(ps: seq<Partition>): (r: seq<Partition>)
    ensures |r| == |ps|
  {
    seq(|ps|, k requires 0 <= k < |ps| => Bare(ps[k]))
  }

  lemma BareConcat(a: seq<Partition>, b: seq<Partition>)
    ensures AllBare(a + b) == AllBare(a) + AllBare(b)
  {
  }

  // ---- Sorting ----

  /** The first i sizes are in order and none after them is larger. */
  ghost predicate SortedFrom(z: seq<nat>, i: nat) {
    forall a, b :: 0 <= a < i && a < b < |z| ==> z[a] >= z[b]
  }

  ghost predicate LargestUpTo(z: seq<nat>, i: nat, j: nat) {
    i < |z| && j <= |z| && forall b :: i < b < j ==> z[i] >= z[b]
  }

  /** One comparison of the sort. */
  function Exchange(t: seq<Partition>, s: seq<nat>, i: nat, j: nat): (r: seq<nat>)
    requires Indexes(t, s) && i < |s| && j < |s|
    ensures |r| == |s|
  {
    if t[s[i]].size < t[s[j]].size then s[i := s[j]][j := s[i]] else s
  }

  lemma ExchangeRearranges(t: seq<Partition>, s: seq<nat>, i: nat, j: nat)
    requires Indexes(t, s) && i < j < |s|
    ensures var r, z := Exchange(t, s, i, j), SizesOf(t, s);
            && multiset(r) == multiset(s) && Indexes(t, r)
            && SizesOf(t, r) == if z[i] < z[j] then z[i := z[j]][j := z[i]] else z
  {
  }

  function SizesOf(t: seq<Partition>, s: seq<nat>): (z: seq<nat>)
    requires Indexes(t, s)
    ensures |z| == |s|
  {
    Sizes(Pick(t, s))
  }

  lemma ExchangeSorts(z: seq<nat>, i: nat, j: nat)
    requires i < j < |z| && SortedFrom(z, i) && LargestUpTo(z, i, j)
    ensures var r := if z[i] < z[j] then z[i := z[j]][j := z[i]] else z; SortedFrom(r, i) && LargestUpTo(r, i, j + 1)
  {
  }

  method ExchangeInPlace(table: EptTable, nc: array<nat>, n: nat, i: nat, j: nat)
    requires table.Valid() && n <= nc.Length && Indexes(table.Contents(), nc[..n]) && i < j < n
    modifies nc
    ensures nc[..n] == Exchange(table.Contents(), old(nc[..n]), i, j)
  {
    ghost var s := nc[..n];
    assert s[i] == nc[i] && s[j] == nc[j];
    if table.slots[nc[i]].size < table.slots[nc[j]].size {
      nc[i], nc[j] := nc[j], nc[i];
    }
  }

  /** The exchange sort of lines 1280-1289, from large to small. */
  method SortDecreasing(table: EptTable, nc: array<nat>, n: nat)
    requires table.Valid() && n <= nc.Length && Indexes(table.Contents(), nc[..n])
    modifies nc
    ensures multiset(nc[..n]) == multiset(old(nc[..n])) && Indexes(table.Contents(), nc[..n])
    ensures Decreasing(SizesOf(table.Contents(), nc[..n]))
  {
    hide Indexes, SortedFrom, LargestUpTo, Exchange, SizesOf, Decreasing;
    ghost var t := table.Contents();
    Unsorted(SizesOf(t, nc[..n]));
    var i: nat := 0;
    while i + 1 < n
      invariant n > 0 ==> i < n
      invariant multiset(nc[..n]) == multiset(old(nc[..n])) && Indexes(t, nc[..n])
      invariant SortedFrom(SizesOf(t, nc[..n]), i)
    {
      NothingSmaller(SizesOf(t, nc[..n]), i);
      for j := i + 1 to n
        invariant multiset(nc[..n]) == multiset(old(nc[..n])) && Indexes(t, nc[..n])
        invariant SortedFrom(SizesOf(t, nc[..n]), i) && LargestUpTo(SizesOf(t, nc[..n]), i, j)
      {
        ExchangeRearranges(t, nc[..n], i, j);
        ExchangeSorts(SizesOf(t, nc[..n]), i, j);
        ExchangeInPlace(table, nc, n, i, j);
      }
      SortedMore(SizesOf(t, nc[..n]), i);
      i := i + 1;
    }
    SortedMeans(SizesOf(t, nc[..n]));
  }

  lemma Unsorted(z: seq<nat>)
    ensures SortedFrom(z, 0)
  {
  }

  lemma NothingSmaller(z: seq<nat>, i: nat)
    requires i < |z|
    ensures LargestUpTo(z, i, i + 1)
  {
  }

  lemma SortedMore(z: seq<nat>, i: nat)
    requires i < |z| && SortedFrom(z, i) && LargestUpTo(z, i, |z|)
    ensures SortedFrom(z, i + 1)
  {
  }

  lemma SortedMeans(z: seq<nat>)
    requires |z| > 0 ==> SortedFrom(z, |z| - 1)
    ensures Decreasing(z)
  {
  }

  // ---- Choosing what goes before `reserved` ----

  /** The mask says what is put in, but for empty partitions, which go in anyway. */
  ghost predicate MaskFor(sizes: seq<nat>, start: nat, gap: nat, mask: seq<bool>) {
    && start <= |sizes| == |mask|
    && forall k :: 0 <= k < |sizes| && sizes[k] > 0 ==>
         (mask[k] <==> k >= start && Taken(sizes[start..], gap)[k - start])
  }

  /** Filling the gap from `start` has come to j. */
  ghost predicate Filling(sizes: seq<nat>, start: nat, gap: nat, mask: seq<bool>, j: nat, room: nat) {
    && start <= j <= |sizes| == |mask|
    && (forall k :: j <= k < |sizes| ==> !mask[k])
    && (forall k :: 0 <= k < j ==> (mask[k] <==> k >= start && Taken(sizes[start..], gap)[k - start]))
    && Taken(sizes[start..], gap)[j - start..] == Taken(sizes[j..], room)
    && Leftover(sizes[start..], gap) == Leftover(sizes[j..], room)
  }

  lemma FillStart(sizes: seq<nat>, start: nat, gap: nat, mask: seq<bool>)
    requires start <= |sizes| == |mask| && forall k :: 0 <= k < |mask| ==> !mask[k]
    ensures Filling(sizes, start, gap, mask, start, gap)
  {
    assert Taken(sizes[start..], gap)[0..] == Taken(sizes[start..], gap);
  }

  lemma FillNext(sizes: seq<nat>, start: nat, gap: nat, mask: seq<bool>, j: nat, room: nat)
    requires Filling(sizes, start, gap, mask, j, room) && j < |sizes|
    ensures if sizes[j] <= room then Filling(sizes, start, gap, mask[j := true], j + 1, room - sizes[j])
            else Filling(sizes, start, gap, mask, j + 1, room)
  {
    assert sizes[j..][0] == sizes[j] && sizes[j..][1..] == sizes[j + 1..];
    var a := Taken(sizes[start..], gap);
    assert a[j - start] == a[j - start..][0] && a[j + 1 - start..] == a[j - start..][1..];
  }

  lemma {:induction false} NoRoom(sizes: seq<nat>, k: nat)
    requires k < |sizes|
    ensures sizes[k] > 0 ==> !Taken(sizes, 0)[k]
    decreases |sizes|
  {
    if k > 0 {
      NoRoom(sizes[1..], k - 1);
    }
  }

  lemma FillDone(sizes: seq<nat>, start: nat, gap: nat, mask: seq<bool>, j: nat, room: nat)
    requires Filling(sizes, start, gap, mask, j, room) && (j == |sizes| || room == 0)
    ensures MaskFor(sizes, start, gap, mask) && Leftover(sizes[start..], gap) == room
  {
    var a := Taken(sizes[start..], gap);
    forall k | j <= k < |sizes| && sizes[k] > 0
      ensures !a[k - start]
    {
      NoRoom(sizes[j..], k - j);
      assert a[k - start] == a[j - start..][k - j];
    }
  }

  /** Lines 1293-1303: fill the gap from one start on. */
  method FillFrom(table: EptTable, nc: array<nat>, n: nat, start: nat, gap: u64, ghost sizes: seq<nat>)
    returns (mask: seq<bool>, remaining: u64)
    requires table.Valid() && n <= nc.Length && start < n && Indexes(table.Contents(), nc[..n])
    requires sizes == SizesOf(table.Contents(), nc[..n])
    ensures MaskFor(sizes, start, gap, mask) && remaining == Leftover(sizes[start..], gap)
  {
    hide Filling, MaskFor, Taken, Leftover;
    ghost var t := table.Contents();
    mask := seq(n, _ => false);
    remaining := gap;
    FillStart(sizes, start, gap, mask);
    for j := start to n
      invariant Filling(sizes, start, gap, mask, j, remaining) && |mask| == n
    {
      FillNext(sizes, start, gap, mask, j, remaining);
      assert nc[..n][j] == nc[j];
      var size := table.slots[nc[j]].size;
      if size <= remaining {
        mask := mask[j := true];
        remaining := remaining - size;
        if remaining == 0 {
          FillDone(sizes, start, gap, mask, j + 1, remaining);
          return;
        }
      }
    }
    FillDone(sizes, start, gap, mask, n, remaining);
  }

  /** Lines 1290-1310: the start that leaves least; the first one if there are several. */
  method BestMask(table: EptTable, nc: array<nat>, n: nat, gap: u64, ghost sizes: seq<nat>)
    returns (mask: seq<bool>, minimum: u64, ghost start: nat)
    requires table.Valid() && n <= nc.Length && Indexes(table.Contents(), nc[..n])
    requires sizes == SizesOf(table.Contents(), nc[..n])
    ensures MaskFor(sizes, start, gap, mask) && Best(sizes, gap, start, minimum)
  {
    hide MaskFor, Taken, Leftover, SizesOf, Indexes;
    mask, minimum, start := seq(n, _ => false), gap, n;
    NothingIn(sizes, gap, mask);
    for i := 0 to n
      invariant start <= n && MaskFor(sizes, start, gap, mask) && minimum == Leftover(sizes[start..], gap) <= gap
      invariant forall k :: 0 <= k < i ==> minimum <= Leftover(sizes[k..], gap)
    {
      var current, remaining := FillFrom(table, nc, n, i, gap, sizes);
      if remaining < minimum {
        mask, minimum, start := current, remaining, i;
        if minimum == 0 {
          return;
        }
      }
    }
    assert Leftover(sizes[n..], gap) >= minimum;
  }

  lemma NothingIn(sizes: seq<nat>, gap: nat, mask: seq<bool>)
    requires |mask| == |sizes| && forall k :: 0 <= k < |mask| ==> !mask[k]
    ensures MaskFor(sizes, |sizes|, gap, mask) && Leftover(sizes[|sizes|..], gap) == gap
  {
  }

  // ---- Sums ----

  function TotalSize(ps: seq<Partition>): nat {
    if ps == [] then 0 else TotalSize(ps[..|ps| - 1]) + ps[|ps| - 1].size
  }

  lemma {:induction false} TotalConcat(a: seq<Partition>, b: seq<Partition>)
    ensures TotalSize(a + b) == TotalSize(a) + TotalSize(b)
    decreases |b|
  {
    if b == [] {
      assert a + b == a;
    } else {
      TotalConcat(a, b[..|b| - 1]);
      assert (a + b)[..|a + b| - 1] == a + b[..|b| - 1];
    }
  }

  lemma TotalOne(p: Partition)
    ensures TotalSize([p]) == p.size
  {
  }

  lemma TotalWithout(s: seq<Partition>, k: nat)
    requires k < |s|
    ensures TotalSize(s) == TotalSize(s[..k] + s[k + 1..]) + s[k].size
  {
    hide TotalSize;
    var a, b := s[..k], s[k + 1..];
    assert s == a + [s[k]] + b;
    TotalConcat(a, b);
    TotalConcat(a + [s[k]], b);
    TotalConcat(a, [s[k]]);
    TotalOne(s[k]);
  }

  lemma CountWithout(s: seq<Partition>, k: nat)
    requires k < |s|
    ensures multiset(s[..k] + s[k + 1..]) == multiset(s) - multiset{s[k]}
  {
    assert s == s[..k] + [s[k]] + s[k + 1..];
  }

  lemma {:induction false} TotalRearranged(a: seq<Partition>, b: seq<Partition>)
    requires multiset(a) == multiset(b)
    ensures TotalSize(a) == TotalSize(b)
    decreases |a|
  {
    hide TotalSize;
    if a == [] {
      assert |multiset(b)| == 0;
      assert a == b;
    } else {
      var p := a[|a| - 1];
      assert p in multiset(b);
      var k :| 0 <= k < |b| && b[k] == p;
      TotalWithout(a, |a| - 1);
      TotalWithout(b, k);
      CountWithout(a, |a| - 1);
      CountWithout(b, k);
      TotalRearranged(a[..|a| - 1] + a[|a|..], b[..k] + b[k + 1..]);
    }
  }

  // ---- Splitting into what goes before `reserved` and what goes after ----

  predicate GoesBefore(p: Partition, chosen: bool) {
    chosen || p.size == 0
  }

  function Before(ps: seq<Partition>, mask: seq<bool>, i: nat): seq<Partition>
    requires i <= |ps| == |mask|
  {
    if i == 0 then [] else Before(ps, mask, i - 1) + if GoesBefore(ps[i - 1], mask[i - 1]) then [ps[i - 1]] else []
  }

  function After(ps: seq<Partition>, mask: seq<bool>, i: nat): seq<Partition>
    requires i <= |ps| == |mask|
  {
    if i == 0 then [] else After(ps, mask, i - 1) + if GoesBefore(ps[i - 1], mask[i - 1]) then [] else [ps[i - 1]]
  }

  lemma SplitStep(ps: seq<Partition>, mask: seq<bool>, i: nat)
    requires 0 < i <= |ps| == |mask|
    ensures var p := ps[i - 1];
            if GoesBefore(p, mask[i - 1]) then
              Before(ps, mask, i) == Before(ps, mask, i - 1) + [p] && After(ps, mask, i) == After(ps, mask, i - 1)
            else
              Before(ps, mask, i) == Before(ps, mask, i - 1) && After(ps, mask, i) == After(ps, mask, i - 1) + [p]
  {
  }

  lemma {:induction false} SplitKeeps(ps: seq<Partition>, mask: seq<bool>, i: nat)
    requires i <= |ps| == |mask|
    ensures multiset(Before(ps, mask, i)) + multiset(After(ps, mask, i)) == multiset(ps[..i])
    ensures |Before(ps, mask, i)| + |After(ps, mask, i)| == i
  {
    if i == 0 {
      assert Before(ps, mask, 0) == [] && After(ps, mask, 0) == [] && ps[..0] == [];
    } else {
      hide Before, After;
      SplitKeeps(ps, mask, i - 1);
      SplitStep(ps, mask, i);
      assert ps[..i] == ps[..i - 1] + [ps[i - 1]];
      OneMore(Before(ps, mask, i - 1), After(ps, mask, i - 1), ps[..i - 1], ps[i - 1]);
    }
  }

  lemma OneMore(a: seq<Partition>, b: seq<Partition>, c: seq<Partition>, p: Partition)
    requires multiset(a) + multiset(b) == multiset(c)
    ensures multiset(a + [p]) + multiset(b) == multiset(a) + multiset(b + [p]) == multiset(c + [p])
  {
    var x, y, m := multiset(a), multiset(b), multiset{p};
    assert multiset(a + [p]) == x + m && multiset(b + [p]) == y + m && multiset(c + [p]) == multiset(c) + m;
    assert x + m + y == x + y + m;
  }

  /** Whatever goes after was not chosen and is not empty. */
  lemma {:induction false} AfterIsLeftOut(ps: seq<Partition>, mask: seq<bool>, i: nat, p: Partition)
    requires i <= |ps| == |mask| && p in After(ps, mask, i)
    ensures exists m :: 0 <= m < i && ps[m] == p && !mask[m] && p.size > 0
  {
    if p in After(ps, mask, i - 1) {
      AfterIsLeftOut(ps, mask, i - 1, p);
    } else {
      assert ps[i - 1] == p && !mask[i - 1];
    }
  }

  /** The mask picks, among the positive sizes, those taken from `start` on. */
  ghost predicate Agrees(ps: seq<Partition>, mask: seq<bool>, start: nat, taken: seq<bool>) {
    && start <= |ps| == |mask| && |taken| == |ps| - start
    && forall k :: 0 <= k < |ps| && ps[k].size > 0 ==> (mask[k] <==> k >= start && taken[k - start])
  }

  lemma BeforeGrows(ps: seq<Partition>, mask: seq<bool>, i: nat)
    requires 0 < i <= |ps| == |mask|
    ensures TotalSize(Before(ps, mask, i)) == TotalSize(Before(ps, mask, i - 1))
              + if mask[i - 1] then ps[i - 1].size else 0
  {
    var x := if GoesBefore(ps[i - 1], mask[i - 1]) then [ps[i - 1]] else [];
    TotalConcat(Before(ps, mask, i - 1), x);
    TotalOne(ps[i - 1]);
  }

  lemma {:induction false} NothingBefore(ps: seq<Partition>, mask: seq<bool>, start: nat, taken: seq<bool>, i: nat)
    requires Agrees(ps, mask, start, taken) && i <= start
    ensures TotalSize(Before(ps, mask, i)) == 0
  {
    if i > 0 {
      NothingBefore(ps, mask, start, taken, i - 1);
      BeforeGrows(ps, mask, i);
    }
  }

  /** What goes before takes up what the greedy walk took. */
  lemma {:induction false} BeforeFills(ps: seq<Partition>, mask: seq<bool>, start: nat, taken: seq<bool>, i: nat)
    requires Agrees(ps, mask, start, taken) && start <= i <= |ps|
    ensures TotalSize(Before(ps, mask, i)) + Picked(Sizes(ps)[i..], taken[i - start..])
              == Picked(Sizes(ps)[start..], taken)
  {
    hide Before, TotalSize;
    if i == start {
      NothingBefore(ps, mask, start, taken, start);
      assert taken[0..] == taken;
    } else {
      BeforeFills(ps, mask, start, taken, i - 1);
      PickNext(Sizes(ps), start, taken, i - 1);
      BeforeGrows(ps, mask, i);
    }
  }

  lemma PickNext(sizes: seq<nat>, start: nat, taken: seq<bool>, i: nat)
    requires start <= i < |sizes| && |taken| == |sizes| - start
    ensures Picked(sizes[i..], taken[i - start..]) == (if taken[i - start] then sizes[i] else 0)
              + Picked(sizes[i + 1..], taken[i + 1 - start..])
  {
    assert sizes[i..][0] == sizes[i] && sizes[i..][1..] == sizes[i + 1..];
    assert taken[i - start..][0] == taken[i - start] && taken[i - start..][1..] == taken[i + 1 - start..];
  }

  lemma MaskAgrees(ps: seq<Partition>, mask: seq<bool>, start: nat, gap: nat)
    requires MaskFor(Sizes(ps), start, gap, mask)
    ensures Agrees(ps, mask, start, Taken(Sizes(ps)[start..], gap))
  {
    hide Taken;
    forall k | 0 <= k < |ps| && ps[k].size > 0
      ensures mask[k] <==> k >= start && Taken(Sizes(ps)[start..], gap)[k - start]
    {
      assert Sizes(ps)[k] == ps[k].size;
    }
  }

  /** The chosen partitions fill the gap but for what is left, and nothing that was left out fits into that. */
  lemma Maximal(ps: seq<Partition>, mask: seq<bool>, gap: nat, start: nat, left: nat)
    requires |mask| == |ps| && Decreasing(Sizes(ps)) && Best(Sizes(ps), gap, start, left)
    requires MaskFor(Sizes(ps), start, gap, mask)
    ensures TotalSize(Before(ps, mask, |ps|)) + left == gap
    ensures forall p :: p in After(ps, mask, |ps|) ==> p.size > left
  {
    hide Leftover, Taken, Decreasing;
    var sizes := Sizes(ps);
    MaskAgrees(ps, mask, start, gap);
    BeforeFills(ps, mask, start, Taken(sizes[start..], gap), |ps|);
    assert sizes[|ps|..] == [];
    TakenFillsRoom(sizes[start..], gap);
    forall p | p in After(ps, mask, |ps|)
      ensures p.size > left
    {
      AfterIsLeftOut(ps, mask, |ps|, p);
      var m :| 0 <= m < |ps| && ps[m] == p && !mask[m] && p.size > 0;
      assert sizes[m] == p.size;
      NothingElseFits(sizes, gap, start, left, m);
    }
  }

  // ---- Telling the partitions apart ----

  predicate IsCritical(p: Partition) {
    p.name == "bootloader" || p.name == "reserved"
  }

  function NonCritical(t: seq<Partition>, i: nat): (r: seq<nat>)
    requires i <= |t|
    ensures |r| <= i && forall k :: 0 <= k < |r| ==> r[k] < i && !IsCritical(t[r[k]])
  {
    if i == 0 then [] else NonCritical(t, i - 1) + if IsCritical(t[i - 1]) then [] else [i - 1]
  }

  function LastNamed(t: seq<Partition>, i: nat, name: string): (r: Option<nat>)
    requires i <= |t|
    ensures r.Some? ==> r.value < i && t[r.value].name == name
    ensures r == None ==> forall k :: 0 <= k < i ==> t[k].name != name
  {
    if i == 0 then None else if t[i - 1].name == name then Some(i - 1) else LastNamed(t, i - 1, name)
  }

  lemma {:induction false} NonCriticalMono(t: seq<Partition>, i: nat, j: nat)
    requires i <= j <= |t|
    ensures |NonCritical(t, i)| <= |NonCritical(t, j)|
  {
    if i < j {
      NonCriticalMono(t, i, j - 1);
    }
  }

  /** With unique names every index is that of the bootloader, of `reserved`, or of another partition. */
  lemma {:induction false} AllTold(t: seq<Partition>, i: nat)
    requires i <= |t| && UniqueNames(t)
    ensures multiset(NonCritical(t, i)) + Just(LastNamed(t, i, "bootloader")) + Just(LastNamed(t, i, "reserved"))
              == multiset(AllIndexes(i))
  {
    hide NonCritical, LastNamed, Just;
    if i == 0 {
      NoneTold(t);
    } else {
      AllTold(t, i - 1);
      TellOne(t, i - 1);
      assert AllIndexes(i) == AllIndexes(i - 1) + [i - 1];
      AddOne(multiset(NonCritical(t, i - 1)), Just(LastNamed(t, i - 1, "bootloader")),
             Just(LastNamed(t, i - 1, "reserved")), multiset{i - 1});
    }
  }

  lemma NoneTold(t: seq<Partition>)
    ensures multiset(NonCritical(t, 0)) + Just(LastNamed(t, 0, "bootloader")) + Just(LastNamed(t, 0, "reserved"))
              == multiset(AllIndexes(0))
  {
    assert AllIndexes(0) == [];
  }

  lemma AddOne(a: multiset<nat>, b: multiset<nat>, c: multiset<nat>, m: multiset<nat>)
    ensures (a + m) + (b + multiset{}) + (c + multiset{}) == a + b + c + m
    ensures (a + multiset{}) + (b + m) + (c + multiset{}) == a + b + c + m
    ensures (a + multiset{}) + (b + multiset{}) + (c + m) == a + b + c + m
  {
  }

  lemma TellOne(t: seq<Partition>, i: nat)
    requires i < |t| && UniqueNames(t)
    ensures multiset(NonCritical(t, i + 1)) == multiset(NonCritical(t, i))
              + if IsCritical(t[i]) then multiset{} else multiset{i}
    ensures Just(LastNamed(t, i + 1, "bootloader")) == Just(LastNamed(t, i, "bootloader"))
              + if t[i].name == "bootloader" then multiset{i} else multiset{}
    ensures Just(LastNamed(t, i + 1, "reserved")) == Just(LastNamed(t, i, "reserved"))
              + if t[i].name == "reserved" then multiset{i} else multiset{}
  {
    if t[i].name == "bootloader" {
      assert LastNamed(t, i, "bootloader") == None;
    } else if t[i].name == "reserved" {
      assert LastNamed(t, i, "reserved") == None;
    }
  }

  function Just(x: Option<nat>): multiset<nat> {
    match x case None => multiset{} case Some(i) => multiset{i}
  }

  const NON_CRITICAL_MAX: nat := MAX_PARTITIONS_COUNT - 2

  lemma NoneYet(t: seq<Partition>)
    ensures NonCritical(t, 0) == [] && LastNamed(t, 0, "bootloader") == None && LastNamed(t, 0, "reserved") == None
  {
  }

  lemma OneMoreKind(t: seq<Partition>, i: nat)
    requires i < |t|
    ensures NonCritical(t, i + 1) == if IsCritical(t[i]) then NonCritical(t, i) else NonCritical(t, i) + [i]
    ensures LastNamed(t, i + 1, "bootloader") ==
              if t[i].name == "bootloader" then Some(i) else LastNamed(t, i, "bootloader")
    ensures LastNamed(t, i + 1, "reserved") == if t[i].name == "reserved" then Some(i) else LastNamed(t, i, "reserved")
  {
  }

  method Push(nc: array<nat>, n: nat, x: nat) returns (n': nat)
    requires n < nc.Length
    modifies nc
    ensures n' == n + 1 && nc[..n'] == old(nc[..n]) + [x]
  {
    nc[n] := x;
    n' := n + 1;
  }

  /** Lines 1256-1268: forget all offsets and sort the partitions into the three kinds. */
  method Gather(table: EptTable, nc: array<nat>) returns (n: nat, bootloader: Option<nat>, reserved: Option<nat>)
    requires table.Valid() && nc.Length == NON_CRITICAL_MAX
    requires |NonCritical(table.Contents(), table.count)| <= NON_CRITICAL_MAX
    modifies table.slots, nc
    ensures table.Valid() && table.Contents() == AllBare(old(table.Contents()))
    ensures n <= nc.Length && nc[..n] == NonCritical(old(table.Contents()), table.count)
    ensures bootloader == LastNamed(old(table.Contents()), table.count, "bootloader")
    ensures reserved == LastNamed(old(table.Contents()), table.count, "reserved")
  {
    hide NonCritical, LastNamed, Forgotten;
    ghost var t := table.Contents();
    assert Forgotten(t, t, 0) by {
      NoneForgotten(t);
    }
    n, bootloader, reserved := 0, None, None;
    NoneYet(t);
    for i := 0 to table.count
      invariant n <= nc.Length && nc[..n] == NonCritical(t, i)
      invariant bootloader == LastNamed(t, i, "bootloader") && reserved == LastNamed(t, i, "reserved")
      invariant Forgotten(t, table.Contents(), i)
    {
      NonCriticalMono(t, i + 1, table.count);
      ForgetOffset(table, i, t);
      n, bootloader, reserved := Classify(table.slots[i].name, i, nc, n, bootloader, reserved, t);
    }
    AllForgotten(t, table.Contents());
  }

  /** Lines 1259-1267, for the name of partition i. */
  method Classify(name: string, i: nat, nc: array<nat>, n: nat, bootloader: Option<nat>, reserved: Option<nat>,
                  ghost t: seq<Partition>)
    returns (n': nat, bootloader': Option<nat>, reserved': Option<nat>)
    requires i < |t| && name == t[i].name && n <= nc.Length && nc[..n] == NonCritical(t, i)
    requires |NonCritical(t, i + 1)| <= nc.Length
    requires bootloader == LastNamed(t, i, "bootloader") && reserved == LastNamed(t, i, "reserved")
    modifies nc
    ensures n' <= nc.Length && nc[..n'] == NonCritical(t, i + 1)
    ensures bootloader' == LastNamed(t, i + 1, "bootloader") && reserved' == LastNamed(t, i + 1, "reserved")
  {
    hide NonCritical, LastNamed;
    OneMoreKind(t, i);
    n', bootloader', reserved' := n, bootloader, reserved;
    if name != "bootloader" {
      if name != "reserved" {
        n' := Push(nc, n, i);
      } else {
        reserved' := Some(i);
      }
    } else {
      bootloader' := Some(i);
    }
  }

  /** The first i offsets are cleared. */
  ghost predicate Forgotten(t: seq<Partition>, now: seq<Partition>, i: nat) {
    |now| == |t| && forall k :: 0 <= k < |t| ==> now[k] == if k < i then Bare(t[k]) else t[k]
  }

  lemma NoneForgotten(t: seq<Partition>)
    ensures Forgotten(t, t, 0)
  {
  }

  lemma AllForgotten(t: seq<Partition>, now: seq<Partition>)
    requires Forgotten(t, now, |t|)
    ensures now == AllBare(t)
  {
  }

  method ForgetOffset(table: EptTable, i: nat, ghost t: seq<Partition>)
    requires table.Valid() && i < table.count && Forgotten(t, table.Contents(), i)
    modifies table.slots
    ensures Forgotten(t, table.Contents(), i + 1) && i < |t| && table.slots[i].name == t[i].name
  {
    ghost var was := table.Contents();
    assert was[i] == table.slots[i];
    table.slots[i] := table.slots[i].(offset := 0);
    assert forall k :: 0 <= k < |was| && k != i ==> table.Contents()[k] == was[k];
  }

  // ---- Writing the new order ----

  /** Lines 1311-1322: copies of the partitions that go before `reserved` and of those that go after. */
  method Divide(table: EptTable, nc: array<nat>, n: nat, mask: seq<bool>)
    returns (before: seq<Partition>, after: seq<Partition>)
    requires table.Valid() && n <= nc.Length && |mask| == n && Indexes(table.Contents(), nc[..n])
    ensures before == Before(Pick(table.Contents(), nc[..n]), mask, n)
    ensures after == After(Pick(table.Contents(), nc[..n]), mask, n)
  {
    ghost var ps := Pick(table.Contents(), nc[..n]);
    before, after := [], [];
    for i := 0 to n
      invariant before == Before(ps, mask, i) && after == After(ps, mask, i)
    {
      assert nc[..n][i] == nc[i];
      var part := table.slots[nc[i]];
      if mask[i] || part.size == 0 {
        before := before + [part];
      } else {
        after := after + [part];
      }
    }
  }

  /** Partition i starts where partition i - 1 ends. */
  predicate BehindAt(t: seq<Partition>, i: nat)
    requires 0 < i < |t|
  {
    t[i].offset == t[i - 1].End()
  }

  /** Partitions from + 1 to until - 1 are each right behind the one before. */
  ghost predicate Chained(t: seq<Partition>, from: nat, until: nat) {
    until <= |t| && forall i :: from < i < until ==> BehindAt(t, i)
  }

  /** Lines 1326-1331 and 1334-1339: write partitions one behind the other after the one at `at`. */
  method PlaceBehind(table: EptTable, at: nat, parts: seq<Partition>)
    requires table.Valid() && at + |parts| < table.count && table.slots[at].End() + TotalSize(parts) < U64_LIMIT
    modifies table.slots
    ensures table.Valid()
    ensures forall k :: 0 <= k < table.count && !(at < k <= at + |parts|) ==> table.slots[k] == old(table.slots[k])
    ensures forall k :: 0 <= k < |parts| ==> Bare(table.slots[at + 1 + k]) == Bare(parts[k])
    ensures Chained(table.Contents(), at, at + 1 + |parts|)
    ensures table.slots[at + |parts|].End() == old(table.slots[at].End()) + TotalSize(parts)
  {
    hide TotalSize, Chained;
    ghost var start := table.slots[at].End();
    NoParts(parts);
    ChainStarts(table.Contents(), at);
    for i := 0 to |parts|
      invariant forall k :: 0 <= k < table.count && !(at < k <= at + i) ==> table.slots[k] == old(table.slots[k])
      invariant forall k :: 0 <= k < i ==> Bare(table.slots[at + 1 + k]) == Bare(parts[k])
      invariant Chained(table.Contents(), at, at + 1 + i)
      invariant table.slots[at + i].End() == start + TotalSize(parts[..i])
    {
      PartialTotal(parts, i);
      ghost var was := table.Contents();
      var before := table.slots[at + i];
      table.slots[at + i + 1] := parts[i].(offset := Add64(before.offset, before.size));
      ChainGrows(was, table.Contents(), at, at + i + 1);
    }
    assert parts[..|parts|] == parts;
  }

  lemma NoParts(parts: seq<Partition>)
    ensures TotalSize(parts[..0]) == 0
  {
  }

  lemma ChainStarts(t: seq<Partition>, from: nat)
    requires from < |t|
    ensures Chained(t, from, from + 1)
  {
  }

  lemma PartialTotal(parts: seq<Partition>, i: nat)
    requires i < |parts|
    ensures TotalSize(parts[..i + 1]) == TotalSize(parts[..i]) + parts[i].size
    ensures TotalSize(parts[..i + 1]) <= TotalSize(parts)
  {
    hide TotalSize;
    assert parts[..i + 1] == parts[..i] + [parts[i]];
    assert parts == parts[..i + 1] + parts[i + 1..];
    TotalOne(parts[i]);
    TotalConcat(parts[..i], [parts[i]]);
    TotalConcat(parts[..i + 1], parts[i + 1..]);
  }

  lemma ChainGrows(a: seq<Partition>, b: seq<Partition>, from: nat, until: nat)
    requires Chained(a, from, until) && from < until < |a| == |b| && (forall k :: 0 <= k < until ==> a[k] == b[k])
    requires BehindAt(b, until)
    ensures Chained(b, from, until + 1)
  {
    forall i | from < i < until + 1
      ensures BehindAt(b, i)
    {
      if i < until {
        assert BehindAt(a, i);
      }
    }
  }

  // ---- The whole ----

  /** The table t, packed: the same partitions with `bootloader` first, k others right behind it that end at or before
      `reserved`, and all others right behind `reserved`; none of those would have fitted into what is still free before
      `reserved`. */
  ghost predicate Packed(t: seq<Partition>, t': seq<Partition>, k: nat, offsetReserved: u64) {
    && |t'| == |t| && k + 1 < |t'| && multiset(AllBare(t')) == multiset(AllBare(t))
    && t'[0].name == "bootloader" && t'[0].offset == 0 && t'[k + 1].name == "reserved"
    && t'[k + 1].offset == offsetReserved
    && Chained(t', 0, k + 1) && Chained(t', k + 1, |t'|) && t'[k].End() <= offsetReserved
    && forall i :: k + 1 < i < |t'| ==> t'[i].size > offsetReserved - t'[k].End()
  }

  lemma {:induction false} ChainOrder(t: seq<Partition>, from: nat, until: nat, i: nat, j: nat)
    requires Chained(t, from, until) && from <= i < j < until
    ensures t[i].End() <= t[j].offset
    decreases j
  {
    assert BehindAt(t, j);
    if i < j - 1 {
      ChainOrder(t, from, until, i, j - 1);
    }
  }

  /** Every partition ends before the next ones start. */
  ghost predicate Ascending(t: seq<Partition>) {
    forall i, j :: 0 <= i < j < |t| ==> t[i].End() <= t[j].offset
  }

  lemma PackedAscends(t: seq<Partition>, t': seq<Partition>, k: nat, offsetReserved: u64)
    requires Packed(t, t', k, offsetReserved)
    ensures Ascending(t')
  {
    forall i, j | 0 <= i < j < |t'|
      ensures t'[i].End() <= t'[j].offset
    {
      if j <= k {
        ChainOrder(t', 0, k + 1, i, j);
      } else if i >= k + 1 {
        ChainOrder(t', k + 1, |t'|, i, j);
      } else {
        if i < k {
          ChainOrder(t', 0, k + 1, i, k);
        }
        if j > k + 1 {
          ChainOrder(t', k + 1, |t'|, k + 1, j);
        }
      }
    }
  }

  lemma AscendingIsDisjoint(t: seq<Partition>)
    requires Ascending(t)
    ensures Disjoint(t)
  {
  }

  /** In a packed table no two partitions overlap. */
  lemma PackedIsDisjoint(t: seq<Partition>, t': seq<Partition>, k: nat, offsetReserved: u64)
    requires Packed(t, t', k, offsetReserved)
    ensures Disjoint(t')
  {
    PackedAscends(t, t', k, offsetReserved);
    AscendingIsDisjoint(t');
  }

  lemma {:induction false} ChainTotal(t: seq<Partition>, from: nat, until: nat, i: nat)
    requires Chained(t, from, until) && from <= i < until
    ensures t[i].End() == t[from].offset + TotalSize(t[from..i + 1])
    decreases i
  {
    hide TotalSize;
    TotalOne(t[i]);
    if i > from {
      assert BehindAt(t, i);
      ChainTotal(t, from, until, i - 1);
      assert t[from..i + 1] == t[from..i] + [t[i]];
      TotalConcat(t[from..i], [t[i]]);
    } else {
      assert t[from..i + 1] == [t[i]];
    }
  }

  /** A packed table ends where `reserved` and everything else behind each other would. */
  lemma PackedEndsWithin(t: seq<Partition>, t': seq<Partition>, k: nat, offsetReserved: u64)
    requires Packed(t, t', k, offsetReserved)
    ensures EndsWithin(t', offsetReserved + TotalSize(t))
  {
    PackedTotal(t, t', k, offsetReserved);
    PackedAscends(t, t', k, offsetReserved);
    forall i | 0 <= i < |t'|
      ensures t'[i].End() <= offsetReserved + TotalSize(t)
    {
      if i > k {
        ChainTotal(t', k + 1, |t'|, i);
        PartOfTotal(t', k + 1, i + 1);
      } else {
        assert t'[i].End() <= t'[k + 1].offset;
      }
    }
  }

  lemma PackedTotal(t: seq<Partition>, t': seq<Partition>, k: nat, offsetReserved: u64)
    requires Packed(t, t', k, offsetReserved)
    ensures TotalSize(t') == TotalSize(t)
  {
    hide TotalSize;
    TotalRearranged(AllBare(t'), AllBare(t));
    BareTotal(t);
    BareTotal(t');
  }

  lemma PartOfTotal(t: seq<Partition>, i: nat, j: nat)
    requires i <= j <= |t|
    ensures TotalSize(t[i..j]) <= TotalSize(t)
  {
    hide TotalSize;
    assert t == t[..i] + t[i..j] + t[j..];
    TotalConcat(t[..i] + t[i..j], t[j..]);
    TotalConcat(t[..i], t[i..j]);
  }

  /** Lines 1323-1339. */
  method Rebuild(table: EptTable, reserved: nat, before: seq<Partition>, after: seq<Partition>)
    requires table.Valid() && reserved < table.count == |before| + |after| + 2
    requires table.slots[0].End() + TotalSize(before) < U64_LIMIT
    requires table.slots[reserved].End() + TotalSize(after) < U64_LIMIT
    modifies table.slots
    ensures table.Valid()
    ensures var t, k := table.Contents(), |before|;
            && t[0] == old(table.slots[0]) && t[k + 1] == old(table.slots[reserved])
            && AllBare(t[1..k + 1]) == AllBare(before) && AllBare(t[k + 2..]) == AllBare(after)
            && Chained(t, 0, k + 1) && Chained(t, k + 1, |t|)
            && t[k].End() == t[0].End() + TotalSize(before)
  {
    hide TotalSize, Chained;
    var buffer := table.slots[reserved];
    PlaceBehind(table, 0, before);
    var k := |before|;
    ghost var first := table.Contents();
    table.slots[k + 1] := buffer;
    PlaceBehind(table, k + 1, after);
    ghost var t := table.Contents();
    ChainKept(first, t, 0, k + 1);
    forall i | 0 <= i < |before|
      ensures AllBare(t[1..k + 1])[i] == AllBare(before)[i]
    {
      assert t[1..k + 1][i] == table.slots[0 + 1 + i];
    }
    forall i | 0 <= i < |after|
      ensures AllBare(t[k + 2..])[i] == AllBare(after)[i]
    {
      assert t[k + 2..][i] == table.slots[k + 1 + 1 + i];
    }
  }

  lemma ChainKept(a: seq<Partition>, b: seq<Partition>, from: nat, until: nat)
    requires Chained(a, from, until) && |a| == |b| && forall k :: 0 <= k < until ==> a[k] == b[k]
    ensures Chained(b, from, until)
  {
    forall i | from < i < until
      ensures BehindAt(b, i)
    {
      assert BehindAt(a, i);
    }
  }

  /** All partitions of a table: the two critical ones and the others in any order. */
  lemma WholeTable(t: seq<Partition>, z: seq<Partition>, order: seq<nat>, r: nat)
    requires UniqueNames(t) && |z| == |t| && Indexes(z, order) && multiset(order) == multiset(NonCritical(t, |t|))
    requires LastNamed(t, |t|, "bootloader") == Some(0) && LastNamed(t, |t|, "reserved") == Some(r)
    ensures |order| + 2 == |t| && r < |t|
    ensures multiset(Pick(z, order)) + multiset{z[0], z[r]} == multiset(z)
    ensures TotalSize(Pick(z, order)) + z[0].size + z[r].size == TotalSize(z)
  {
    hide NonCritical, LastNamed, TotalSize, UniqueNames, Pick;
    AllIndexesTold(t, order, r);
    PickRearranged(z, order + [0, r], AllIndexes(|t|));
    PickAll(z);
    PickTwoMore(z, order, 0, r);
    assert multiset(Pick(z, order) + [z[0], z[r]]) == multiset(Pick(z, order)) + multiset{z[0], z[r]};
    TotalRearranged(Pick(z, order) + [z[0], z[r]], z);
    TotalConcat(Pick(z, order), [z[0], z[r]]);
    TotalTwo(z[0], z[r]);
  }

  lemma PickTwoMore(z: seq<Partition>, order: seq<nat>, a: nat, b: nat)
    requires Indexes(z, order) && a < |z| && b < |z|
    ensures Indexes(z, order + [a, b]) && Pick(z, order + [a, b]) == Pick(z, order) + [z[a], z[b]]
  {
  }

  lemma AllIndexesTold(t: seq<Partition>, order: seq<nat>, r: nat)
    requires UniqueNames(t) && multiset(order) == multiset(NonCritical(t, |t|))
    requires LastNamed(t, |t|, "bootloader") == Some(0) && LastNamed(t, |t|, "reserved") == Some(r)
    ensures |order| + 2 == |t| && 0 < |t| && r < |t|
    ensures multiset(order + [0, r]) == multiset(AllIndexes(|t|))
  {
    NamesOf(t, "bootloader", 0);
    NamesOf(t, "reserved", r);
    hide NonCritical, LastNamed, UniqueNames, AllIndexes;
    AllTold(t, |t|);
    TwoMore(order, 0, r, AllIndexes(|t|));
    CountIndexes(|t|);
  }

  lemma CountIndexes(n: nat)
    ensures |AllIndexes(n)| == n
  {
  }

  lemma TwoMore(order: seq<nat>, a: nat, b: nat, whole: seq<nat>)
    requires multiset(order) + multiset{a} + multiset{b} == multiset(whole)
    ensures multiset(order + [a, b]) == multiset(whole) && |order| + 2 == |whole|
  {
    assert order + [a, b] == order + [a] + [b];
    assert multiset(order + [a] + [b]) == multiset(order + [a]) + multiset{b};
    SameCount(order + [a, b], whole);
  }

  lemma SameCount(a: seq<nat>, b: seq<nat>)
    requires multiset(a) == multiset(b)
    ensures |a| == |b|
  {
    assert |multiset(a)| == |a| && |multiset(b)| == |b|;
  }

  lemma TotalTwo(p: Partition, q: Partition)
    ensures TotalSize([p, q]) == p.size + q.size
  {
    assert [p, q] == [p] + [q];
    TotalConcat([p], [q]);
    TotalOne(p);
    TotalOne(q);
  }

  lemma BareIsBare(t: seq<Partition>)
    ensures AllBare(AllBare(t)) == AllBare(t)
  {
  }

  lemma {:induction false} BareTotal(t: seq<Partition>)
    ensures TotalSize(AllBare(t)) == TotalSize(t)
    decreases |t|
  {
    if t != [] {
      var n := |t| - 1;
      BareTotal(t[..n]);
      assert AllBare(t)[..n] == AllBare(t[..n]);
    }
  }

  lemma CountParts(x: Partition, before: seq<Partition>, y: Partition, after: seq<Partition>)
    ensures multiset([x] + before + [y] + after) == multiset(before) + multiset(after) + multiset{x, y}
  {
    assert multiset([x] + before + [y] + after) == multiset([x]) + multiset(before) + multiset([y]) + multiset(after);
  }

  lemma BareParts(t': seq<Partition>, k: nat)
    requires k + 1 < |t'|
    ensures AllBare(t') == [Bare(t'[0])] + AllBare(t'[1..k + 1]) + [Bare(t'[k + 1])] + AllBare(t'[k + 2..])
  {
  }

  lemma InBare(z: seq<Partition>, ps: seq<Partition>)
    requires z == AllBare(z) && multiset(ps) == multiset(z)
    ensures AllBare(ps) == ps
  {
    forall p | p in ps
      ensures Bare(p) == p
    {
      assert p in multiset(z);
      var i :| 0 <= i < |z| && z[i] == p;
      assert AllBare(z)[i] == p;
    }
    AllAreBare(ps);
  }

  /** The rebuilt table holds the same partitions, up to their offsets. */
  lemma RebuiltIsSame(z: seq<Partition>, ps: seq<Partition>, before: seq<Partition>, after: seq<Partition>,
                      t': seq<Partition>, r: nat)
    requires z == AllBare(z) && r < |z| && z != [] && multiset(ps) + multiset{z[0], z[r]} == multiset(z)
    requires multiset(before) + multiset(after) == multiset(ps)
    requires |t'| == |before| + |after| + 2 && Bare(t'[0]) == z[0] && Bare(t'[|before| + 1]) == z[r]
    requires AllBare(t'[1..|before| + 1]) == AllBare(before) && AllBare(t'[|before| + 2..]) == AllBare(after)
    ensures multiset(AllBare(t')) == multiset(z)
  {
    var x, y := z[0], z[r];
    CountParts(x, before, y, after);
    BareParts(t', |before|);
    InBare(z, [x] + before + [y] + after);
    hide AllBare, Bare;
    BareConcat([x] + before + [y], after);
    BareConcat([x] + before, [y]);
    BareConcat([x], before);
    BareOne(x);
    BareOne(y);
    BareTwice(t'[0]);
    BareTwice(t'[|before| + 1]);
  }

  lemma BareOne(p: Partition)
    ensures AllBare([p]) == [Bare(p)]
  {
  }

  lemma BareTwice(p: Partition)
    ensures Bare(Bare(p)) == Bare(p)
  {
  }

  lemma AllAreBare(ps: seq<Partition>)
    requires forall p :: p in ps ==> Bare(p) == p
    ensures AllBare(ps) == ps
  {
    forall k | 0 <= k < |ps|
      ensures AllBare(ps)[k] == ps[k]
    {
      assert ps[k] in ps;
    }
  }

  /** The table with all offsets forgotten but that of `reserved`. */
  function Anchored(t: seq<Partition>, r: nat, offsetReserved: u64): (z: seq<Partition>)
    requires r < |t|
    ensures |z| == |t|
  {
    AllBare(t)[r := Bare(t[r]).(offset := offsetReserved)]
  }

  lemma NamesOf(t: seq<Partition>, name: string, i: nat)
    requires LastNamed(t, |t|, name) == Some(i)
    ensures i < |t| && t[i].name == name
  {
  }

  /** The others are not `reserved`, whose offset is the only one set. */
  lemma OthersAreBare(t: seq<Partition>, r: nat, offsetReserved: u64, order: seq<nat>)
    requires r < |t| && t[r].name == "reserved" && multiset(order) == multiset(NonCritical(t, |t|))
    ensures Indexes(t, order) && Indexes(Anchored(t, r, offsetReserved), order)
    ensures Pick(Anchored(t, r, offsetReserved), order) == Pick(AllBare(t), order)
  {
    forall k | 0 <= k < |order|
      ensures order[k] < |t| && order[k] != r
    {
      assert order[k] in multiset(order);
      assert order[k] in NonCritical(t, |t|);
      hide NonCritical;
    }
  }

  /** Lines 1280-1339: sort, choose, rewrite. */
  method Fill(table: EptTable, nc: array<nat>, n: nat, r: nat, gap: u64, ghost t: seq<Partition>,
              ghost offsetReserved: u64) returns (ghost k: nat)
    requires table.Valid() && UniqueNames(t) && r < |t| && table.Contents() == Anchored(t, r, offsetReserved)
    requires n <= nc.Length && nc[..n] == NonCritical(t, |t|)
    requires LastNamed(t, |t|, "bootloader") == Some(0) && LastNamed(t, |t|, "reserved") == Some(r)
    requires offsetReserved + TotalSize(t) < U64_LIMIT && t[0].size + gap == offsetReserved
    modifies table.slots, nc
    ensures table.Valid() && Packed(t, table.Contents(), k, offsetReserved)
  {
    hide NonCritical, LastNamed, TotalSize, UniqueNames, Packed, Before, After, MaskFor, Best, Decreasing, Chained,
         Pick;
    ghost var z, cur := AllBare(t), table.Contents();
    NamesOf(t, "bootloader", 0);
    NamesOf(t, "reserved", r);
    OthersAreBare(t, r, offsetReserved, nc[..n]);
    SortDecreasing(table, nc, n);
    OthersAreBare(t, r, offsetReserved, nc[..n]);
    ghost var ps := Pick(cur, nc[..n]);
    var mask, left, start := BestMask(table, nc, n, gap, SizesOf(cur, nc[..n]));
    MaskLength(SizesOf(cur, nc[..n]), start, gap, mask);
    var before, after := Divide(table, nc, n, mask);
    Maximal(ps, mask, gap, start, left);
    SplitKeeps(ps, mask, n);
    assert ps[..n] == ps;
    WholeTable(t, z, nc[..n], r);
    BareTotal(t);
    DividedTotal(before, after, ps);
    assert cur[0] == z[0] && table.slots[0] == cur[0] && table.slots[r] == cur[r];
    k := |before|;
    Rebuild(table, r, before, after);
    BareIsBare(t);
    RebuiltIsSame(z, ps, before, after, table.Contents(), r);
    IsPacked(t, table.Contents(), before, after, offsetReserved, left);
  }

  lemma MaskLength(sizes: seq<nat>, start: nat, gap: nat, mask: seq<bool>)
    requires MaskFor(sizes, start, gap, mask)
    ensures |mask| == |sizes|
  {
  }

  lemma DividedTotal(before: seq<Partition>, after: seq<Partition>, ps: seq<Partition>)
    requires multiset(before) + multiset(after) == multiset(ps)
    ensures TotalSize(before) + TotalSize(after) == TotalSize(ps)
  {
    assert multiset(before + after) == multiset(before) + multiset(after);
    TotalConcat(before, after);
    TotalRearranged(before + after, ps);
  }

  lemma IsPacked(t: seq<Partition>, t': seq<Partition>, before: seq<Partition>, after: seq<Partition>,
                 offsetReserved: u64, left: nat)
    requires |t'| == |t| == |before| + |after| + 2 && multiset(AllBare(t')) == multiset(AllBare(t))
    requires var k := |before|;
             && t'[0].name == "bootloader" && t'[0].offset == 0 && t'[k + 1].name == "reserved"
             && t'[k + 1].offset == offsetReserved
             && Chained(t', 0, k + 1) && Chained(t', k + 1, |t'|) && t'[k].End() + left == offsetReserved
    requires AllBare(t'[|before| + 2..]) == AllBare(after) && forall p :: p in after ==> p.size > left
    ensures Packed(t, t', |before|, offsetReserved)
  {
    var k := |before|;
    forall i | k + 1 < i < |t'|
      ensures t'[i].size > offsetReserved - t'[k].End()
    {
      var j := i - (k + 2);
      assert AllBare(t'[k + 2..])[j] == Bare(t'[i]) && AllBare(after)[j] == Bare(after[j]);
      assert after[j] in after;
    }
  }

  /** A table of bootloader and reserved alone. */
  lemma OnlyTwo(t: seq<Partition>, r: nat, offsetReserved: u64)
    requires UniqueNames(t) && NonCritical(t, |t|) == [] && r < |t| && t[0].size <= offsetReserved
    requires LastNamed(t, |t|, "bootloader") == Some(0) && LastNamed(t, |t|, "reserved") == Some(r)
    ensures Packed(t, Anchored(t, r, offsetReserved), 0, offsetReserved)
  {
    hide NonCritical, LastNamed, TotalSize, UniqueNames, Pick;
    WholeTable(t, t, [], r);
    NamesOf(t, "bootloader", 0);
    NamesOf(t, "reserved", r);
    assert r == 1;
    var t' := Anchored(t, 1, offsetReserved);
    assert AllBare(t')[0] == AllBare(t)[0] && AllBare(t')[1] == AllBare(t)[1];
    assert AllBare(t') == AllBare(t);
  }

  /** ept_ungap, for a table whose names are unique and whose sizes do not wrap when added up behind `reserved`. */
  method Ungap(table: EptTable, offsetReserved: u64) returns (r: int, ghost k: nat)
    requires table.Valid() && UniqueNames(table.Contents())
    requires |NonCritical(table.Contents(), table.count)| <= NON_CRITICAL_MAX
    requires offsetReserved + TotalSize(table.Contents()) < U64_LIMIT
    requires table.count > 0 && table.slots[0].name == "bootloader" ==> table.slots[0].size <= offsetReserved
    modifies table.slots
    ensures table.Valid()
    ensures var t := old(table.Contents());
            var bootloader, reserved := LastNamed(t, |t|, "bootloader"), LastNamed(t, |t|, "reserved");
            && (r == 1 <==> bootloader == None || reserved == None)
            && (r == 2 <==> bootloader.Some? && bootloader.value != 0 && reserved.Some?)
            && (r == 0 || r == 1 || r == 2)
            && (r != 0 ==> table.Contents() == AllBare(t))
            && (r == 0 && t[0].size < offsetReserved ==> Packed(t, table.Contents(), k, offsetReserved))
            && (r == 0 && t[0].size == offsetReserved ==>
                  table.Contents() == AllBare(t)[reserved.value := Bare(t[reserved.value]).(offset := offsetReserved)])
  {
    hide NonCritical, LastNamed, TotalSize, UniqueNames, Packed;
    k := 0;
    ghost var t := table.Contents();
    var nc := new nat[NON_CRITICAL_MAX];
    var n, bootloader, reserved := Gather(table, nc);
    if bootloader == None || reserved == None {
      return 1, k;
    }
    if bootloader.value != 0 {
      return 2, k;
    }
    NamesOf(t, "bootloader", 0);
    table.slots[reserved.value] := table.slots[reserved.value].(offset := offsetReserved);
    var gap := Sub64(table.slots[reserved.value].offset, table.slots[0].size);
    if n > 0 && gap > 0 {
      k := Fill(table, nc, n, reserved.value, gap, t, offsetReserved);
    } else if gap > 0 {
      OnlyTwo(t, reserved.value, offsetReserved);
    }
    return 0, k;
  }
}