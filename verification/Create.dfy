/** ept_ecreate_parse (src/ept.c): a new table of the essential partitions of the old one, packed, and of partitions
    defined by arguments. */
module Create {
  import opened Util
  import opened Ept
  import opened Table
  import opened Packing
  import opened Parg
  import Edit

  // ---- The essential partitions of the old table ----

  function TakeOne(t: seq<Partition>, p: Partition): Option<seq<Partition>> {
    if !IsEssential(p) then Some(t)
    else
      match IndexOf(t, p.name)
      case Some(j) => Some(t[j := p])
      case None => if |t| >= MAX_PARTITIONS_COUNT then None else Some(t + [p])
  }

  /** The default partitions, with each essential partition of the first n of the old table in the place of its namesake
      or behind them. */
  function Essentials(was: seq<Partition>, n: nat): Option<seq<Partition>>
    requires n <= |was|
  {
    if n == 0 then Some(DEFAULTS)
    else match Essentials(was, n - 1) case None => None case Some(t) => TakeOne(t, was[n - 1])
  }

  lemma {:induction false} EssentialsFail(was: seq<Partition>, i: nat, n: nat)
    requires i <= n <= |was| && Essentials(was, i) == None
    ensures Essentials(was, n) == None
  {
    if i < n {
      EssentialsFail(was, i, n - 1);
    }
  }

  /** Names are unique whatever the old table holds, and the critical partitions come first. */
  lemma {:induction false} EssentialsAreUnique(was: seq<Partition>, n: nat)
    requires n <= |was| && Essentials(was, n).Some?
    ensures var t := Essentials(was, n).value;
            && UniqueNames(t) && 4 <= |t| <= MAX_PARTITIONS_COUNT && t[0].name == "bootloader"
            && t[1].name == "reserved"
  {
    if n > 0 {
      EssentialsAreUnique(was, n - 1);
      TakeKeepsUnique(Essentials(was, n - 1).value, was[n - 1]);
    }
  }

  lemma TakeKeepsUnique(t: seq<Partition>, p: Partition)
    requires UniqueNames(t) && TakeOne(t, p).Some? && |t| <= MAX_PARTITIONS_COUNT
    ensures var t' := TakeOne(t, p).value;
            UniqueNames(t') && |t| <= |t'| <= MAX_PARTITIONS_COUNT && forall i :: 0 <= i < |t| ==>
              t'[i].name == t[i].name
  {
  }

  /** Of two essential partitions of the same name the later one is kept; none is lost. */
  lemma {:induction false} EssentialsAreKept(was: seq<Partition>, n: nat, i: nat)
    requires i < n <= |was| && Essentials(was, n).Some? && IsEssential(was[i])
    requires forall k :: i < k < n ==> was[k].name != was[i].name
    ensures was[i] in Essentials(was, n).value
  {
    var t := Essentials(was, n - 1).value;
    if i < n - 1 {
      EssentialsAreKept(was, n - 1, i);
      TakeKeeps(t, was[n - 1], was[i]);
    } else {
      TakeTakes(t, was[i]);
    }
  }

  /** And nothing else is in it but the default partitions. */
  lemma {:induction false} EssentialsComeFrom(was: seq<Partition>, n: nat, p: Partition)
    requires n <= |was| && Essentials(was, n).Some? && p in Essentials(was, n).value
    ensures p in DEFAULTS || (IsEssential(p) && p in was[..n])
  {
    hide IsEssential;
    if n > 0 && !(p in DEFAULTS) {
      var t := Essentials(was, n - 1).value;
      assert was[..n] == was[..n - 1] + [was[n - 1]];
      if p in t {
        EssentialsComeFrom(was, n - 1, p);
      } else {
        TakenIsNew(t, was[n - 1], p);
      }
    }
  }

  lemma TakenIsNew(t: seq<Partition>, x: Partition, p: Partition)
    requires TakeOne(t, x).Some? && p in TakeOne(t, x).value && p !in t
    ensures p == x && IsEssential(x)
  {
    hide IsEssential;
  }

  lemma TakeKeeps(t: seq<Partition>, p: Partition, x: Partition)
    requires TakeOne(t, p).Some? && x in t && x.name != p.name
    ensures x in TakeOne(t, p).value
  {
    hide IsEssential;
    var k :| 0 <= k < |t| && t[k] == x;
    assert TakeOne(t, p).value[k] == x;
  }

  lemma TakeTakes(t: seq<Partition>, p: Partition)
    requires TakeOne(t, p).Some? && IsEssential(p)
    ensures p in TakeOne(t, p).value
  {
    hide IsEssential;
    match IndexOf(t, p.name)
    case Some(j) => assert t[j := p][j] == p;
    case None => assert (t + [p])[|t|] == p;
  }

  method TakePart(table: EptTable, p: Partition) returns (ok: bool)
    requires table.Valid()
    modifies table`count, table.slots
    ensures table.Valid() && (ok <==> TakeOne(old(table.Contents()), p).Some?)
    ensures ok ==> table.Contents() == TakeOne(old(table.Contents()), p).value
  {
    var notEssential := IsNotEssential(p);
    if notEssential != 0 {
      return true;
    }
    var found := table.Find(p.name);
    if found.Some? {
      ghost var t := table.Contents();
      table.slots[found.value] := p;
      assert table.Contents() == t[found.value := p];
      return true;
    }
    ok := Edit.AppendPart(table, p);
  }

  /** Lines 1356-1383. */
  method TakeEssentials(table: EptTable, was: seq<Partition>) returns (ok: bool)
    requires table.Valid() && table.Contents() == DEFAULTS && |was| <= MAX_PARTITIONS_COUNT
    modifies table`count, table.slots
    ensures table.Valid() && (ok <==> Essentials(was, |was|).Some?)
    ensures ok ==> table.Contents() == Essentials(was, |was|).value
  {
    hide TakeOne;
    for i := 0 to |was|
      invariant table.Valid() && Essentials(was, i) == Some(table.Contents())
    {
      ok := TakePart(table, was[i]);
      if !ok {
        EssentialsFail(was, i + 1, |was|);
        return;
      }
    }
    ok := true;
  }

  // ---- Partitions defined by arguments ----

  /** The table without the partition of this name. */
  function WithoutName(t: seq<Partition>, name: string): seq<Partition> {
    match IndexOf(t, name) case None => t case Some(j) => Edit.Remove(t, j)
  }

  /** The partition that a definer adds behind `last`. */
  function DefinedBehind(d: Edit.Definer, last: Partition, capacity: u64): Partition {
    Edit.Defined(d, End64(last), capacity)
  }

  function DefineOne(t: seq<Partition>, d: Edit.Definer, capacity: u64): seq<Partition>
    requires |t| >= 2
  {
    var rest := WithoutName(t, d.name);
    rest + [DefinedBehind(d, rest[|rest| - 1], capacity)]
  }

  function DefineAll(t: seq<Partition>, ds: seq<Edit.Definer>, capacity: u64): (r: seq<Partition>)
    requires |t| >= 2
    ensures |t| <= |r| <= |t| + |ds|
    decreases |ds|
  {
    if ds == [] then t else DefineOne(DefineAll(t, ds[..|ds| - 1], capacity), ds[|ds| - 1], capacity)
  }

  /** Defining keeps names unique: a partition of the same name makes way. */
  lemma DefineKeepsUnique(t: seq<Partition>, d: Edit.Definer, capacity: u64)
    requires UniqueNames(t) && |t| >= 2
    ensures UniqueNames(DefineOne(t, d, capacity))
  {
    var rest := WithoutName(t, d.name);
    assert UniqueNames(rest) && forall i :: 0 <= i < |rest| ==> rest[i].name != d.name by {
      NameIsGone(t, d.name);
    }
    assert forall i :: 0 <= i < |rest| ==> DefineOne(t, d, capacity)[i] == rest[i];
  }

  lemma NameIsGone(t: seq<Partition>, name: string)
    requires UniqueNames(t)
    ensures UniqueNames(WithoutName(t, name))
    ensures forall i :: 0 <= i < |WithoutName(t, name)| ==> WithoutName(t, name)[i].name != name
  {
    var r := WithoutName(t, name);
    match IndexOf(t, name)
    case None =>
    case Some(j) =>
      forall i | 0 <= i < |r|
        ensures r[i] == t[if i < j then i else i + 1] && r[i].name != name
      {
        assert t[if i < j then i else i + 1].name != t[j].name;
      }
  }

  lemma {:induction false} DefineAllKeepsUnique(t: seq<Partition>, ds: seq<Edit.Definer>, capacity: u64)
    requires UniqueNames(t) && |t| >= 2
    ensures UniqueNames(DefineAll(t, ds, capacity))
    decreases |ds|
  {
    if ds != [] {
      DefineAllKeepsUnique(t, ds[..|ds| - 1], capacity);
      DefineKeepsUnique(DefineAll(t, ds[..|ds| - 1], capacity), ds[|ds| - 1], capacity);
    }
  }

  // ---- What the definers make of the table ----

  /** The partitions with none of these names, in their order. */
  function Unnamed(t: seq<Partition>, names: set<string>): seq<Partition> {
    if t == [] then []
    else
      var n := |t| - 1;
      Unnamed(t[..n], names) + if t[n].name in names then [] else [t[n]]
  }

  function Names(ds: seq<Edit.Definer>): set<string> {
    set i | 0 <= i < |ds| :: ds[i].name
  }

  /** The definers that no later one overrides, in their order. */
  function LastOnes(ds: seq<Edit.Definer>): (r: seq<nat>)
    ensures forall k :: 0 <= k < |r| ==> r[k] < |ds|
  {
    if ds == [] then []
    else
      var n := |ds| - 1;
      NotNamed(ds, LastOnes(ds[..n]), ds[n].name) + [n]
  }

  function NotNamed(ds: seq<Edit.Definer>, ks: seq<nat>, name: string): (r: seq<nat>)
    requires forall k :: 0 <= k < |ks| ==> ks[k] < |ds|
    ensures forall k :: 0 <= k < |r| ==> r[k] < |ds|
    ensures forall i :: i in r <==> i in ks && ds[i].name != name
  {
    if ks == [] then []
    else
      var n := |ks| - 1;
      NotNamed(ds, ks[..n], name) + if ds[ks[n]].name == name then [] else [ks[n]]
  }

  /** The partition that definer i makes when it is its turn, and the one before it then. */
  function MadeBy(packed: seq<Partition>, ds: seq<Edit.Definer>, i: nat, capacity: u64): Partition
    requires |packed| >= 2 && i < |ds|
  {
    var t := DefineAll(packed, ds[..i + 1], capacity);
    t[|t| - 1]
  }

  function MadeBehind(packed: seq<Partition>, ds: seq<Edit.Definer>, i: nat, capacity: u64): Partition
    requires |packed| >= 2 && i < |ds|
  {
    var t := WithoutName(DefineAll(packed, ds[..i], capacity), ds[i].name);
    t[|t| - 1]
  }

  function AllMade(packed: seq<Partition>, ds: seq<Edit.Definer>, ks: seq<nat>, capacity: u64): (r: seq<Partition>)
    requires |packed| >= 2 && forall k :: 0 <= k < |ks| ==> ks[k] < |ds|
    ensures |r| == |ks|
  {
    seq(|ks|, k requires 0 <= k < |ks| => MadeBy(packed, ds, ks[k], capacity))
  }

  ghost predicate Adjacent(t: seq<Partition>, p: Partition, q: Partition) {
    exists k :: 0 < k < |t| && t[k - 1] == p && t[k] == q
  }

  predicate NotOverridden(ds: seq<Edit.Definer>, i: nat)
    requires i < |ds|
  {
    forall j :: i < j < |ds| ==> ds[j].name != ds[i].name
  }

  /** The table r that the definers make of a packed one: the packed partitions that no definer names, unchanged and in
      their order; behind them a partition for each definer that no later one overrides, in their order, each as its
      definer says, behind the partition that was last when it was its turn. */
  ghost predicate Creates(packed: seq<Partition>, ds: seq<Edit.Definer>, capacity: u64, r: seq<Partition>)
    requires |packed| >= 2
  {
    && r == Unnamed(packed, Names(ds)) + AllMade(packed, ds, LastOnes(ds), capacity)
    && (forall i :: i in LastOnes(ds) <==> 0 <= i < |ds| && NotOverridden(ds, i))
    && (forall k, l :: 0 <= k < l < |LastOnes(ds)| ==> LastOnes(ds)[k] < LastOnes(ds)[l])
    && (forall i :: 0 <= i < |ds| ==>
          Edit.DefinedBy(MadeBy(packed, ds, i, capacity), ds[i], End64(MadeBehind(packed, ds, i, capacity)), capacity))
    && forall i :: 0 <= i < |ds| && NotOverridden(ds, i) ==> StaysBehind(packed, ds, i, capacity, r)
  }

  /** Unless a later definer takes it away, the partition before it is the same at the end. */
  ghost predicate StaysBehind(packed: seq<Partition>, ds: seq<Edit.Definer>, i: nat, capacity: u64, r: seq<Partition>)
    requires |packed| >= 2 && i < |ds|
  {
    MadeBehind(packed, ds, i, capacity).name !in Names(ds[i + 1..]) ==>
      Adjacent(r, MadeBehind(packed, ds, i, capacity), MadeBy(packed, ds, i, capacity))
  }

  lemma {:induction false} UnnamedConcat(a: seq<Partition>, b: seq<Partition>, names: set<string>)
    ensures Unnamed(a + b, names) == Unnamed(a, names) + Unnamed(b, names)
    decreases |b|
  {
    if b == [] {
      assert a + b == a && Unnamed(b, names) == [];
    } else {
      var n := |b| - 1;
      UnnamedConcat(a, b[..n], names);
      UnnamedLast(a, b, names);
    }
  }

  lemma UnnamedLast(a: seq<Partition>, b: seq<Partition>, names: set<string>)
    requires b != [] && Unnamed(a + b[..|b| - 1], names) == Unnamed(a, names) + Unnamed(b[..|b| - 1], names)
    ensures Unnamed(a + b, names) == Unnamed(a, names) + Unnamed(b, names)
  {
    var n := |b| - 1;
    hide Unnamed;
    UnnamedStep(a + b[..n], b[n], names);
    UnnamedStep(b[..n], b[n], names);
    assert a + b == a + b[..n] + [b[n]] && b == b[..n] + [b[n]];
    Reassociate(Unnamed(a, names), Unnamed(b[..n], names), if b[n].name in names then [] else [b[n]]);
  }

  lemma Reassociate(x: seq<Partition>, y: seq<Partition>, z: seq<Partition>)
    ensures x + y + z == x + (y + z)
  {
  }

  lemma UnnamedStep(t: seq<Partition>, p: Partition, names: set<string>)
    ensures Unnamed(t + [p], names) == Unnamed(t, names) + if p.name in names then [] else [p]
  {
    assert (t + [p])[..|t|] == t;
  }

  lemma {:induction false} UnnamedTwice(t: seq<Partition>, a: set<string>, b: set<string>)
    ensures Unnamed(Unnamed(t, a), b) == Unnamed(t, a + b)
    decreases |t|
  {
    if t != [] {
      var n := |t| - 1;
      UnnamedTwice(t[..n], a, b);
      UnnamedConcat(Unnamed(t[..n], a), if t[n].name in a then [] else [t[n]], b);
      assert [t[n]][..0] == [];
      assert Unnamed([t[n]], b) == if t[n].name in b then [] else [t[n]];
    }
  }

  lemma {:induction false} UnnamedAll(t: seq<Partition>, names: set<string>)
    requires forall p :: p in t ==> p.name !in names
    ensures Unnamed(t, names) == t
    decreases |t|
  {
    if t != [] {
      UnnamedAll(t[..|t| - 1], names);
    }
  }

  lemma UnnamedMiddle(a: seq<Partition>, x: Partition, b: seq<Partition>)
    ensures Unnamed(a + [x] + b, {x.name}) == Unnamed(a, {x.name}) + Unnamed(b, {x.name})
  {
    UnnamedConcat(a + [x], b, {x.name});
    UnnamedConcat(a, [x], {x.name});
    assert [x][..0] == [] && Unnamed([x], {x.name}) == [];
  }

  /** With unique names, removing the one of a name removes all of that name. */
  lemma WithoutIsUnnamed(t: seq<Partition>, name: string)
    requires UniqueNames(t)
    ensures WithoutName(t, name) == Unnamed(t, {name})
  {
    match IndexOf(t, name)
    case None => UnnamedAll(t, {name});
    case Some(j) =>
      var a, b := t[..j], t[j + 1..];
      assert t == a + [t[j]] + b;
      OthersDiffer(t, j);
      hide Unnamed, IndexOf, UniqueNames;
      UnnamedMiddle(a, t[j], b);
      UnnamedAll(a, {name});
      UnnamedAll(b, {name});
  }

  lemma OthersDiffer(t: seq<Partition>, j: nat)
    requires UniqueNames(t) && j < |t|
    ensures forall p :: p in t[..j] ==> p.name != t[j].name
    ensures forall p :: p in t[j + 1..] ==> p.name != t[j].name
  {
  }

  lemma DefineOneMeans(t: seq<Partition>, d: Edit.Definer, capacity: u64)
    requires UniqueNames(t) && |t| >= 2
    ensures var r, rest := DefineOne(t, d, capacity), WithoutName(t, d.name);
            && rest == Unnamed(t, {d.name}) && rest != [] && |r| == |rest| + 1 && r[..|rest|] == rest
            && Edit.DefinedBy(r[|rest|], d, End64(rest[|rest| - 1]), capacity)
  {
    hide Edit.Defined, Edit.DefinedBy, UniqueNames;
    WithoutIsUnnamed(t, d.name);
    var rest := WithoutName(t, d.name);
    Edit.DefinedMeans(d, End64(rest[|rest| - 1]), capacity);
  }

  lemma SameTurn(packed: seq<Partition>, ds: seq<Edit.Definer>, i: nat, capacity: u64)
    requires |packed| >= 2 && i < |ds| - 1
    ensures var n := |ds| - 1;
            && MadeBy(packed, ds[..n], i, capacity) == MadeBy(packed, ds, i, capacity)
            && MadeBehind(packed, ds[..n], i, capacity) == MadeBehind(packed, ds, i, capacity)
  {
    hide DefineAll, WithoutName;
    var n := |ds| - 1;
    assert ds[..n][..i + 1] == ds[..i + 1] && ds[..n][..i] == ds[..i] && ds[..n][i] == ds[i];
  }

  /** At its turn a definer makes a partition as it says. */
  lemma MadeAsDefined(packed: seq<Partition>, ds: seq<Edit.Definer>, i: nat, capacity: u64)
    requires |packed| >= 2 && UniqueNames(packed) && i < |ds|
    ensures var t := DefineAll(packed, ds[..i], capacity);
            && DefineAll(packed, ds[..i + 1], capacity) == Unnamed(t, {ds[i].name}) + [MadeBy(packed, ds, i, capacity)]
            && Unnamed(t, {ds[i].name}) != []
            && MadeBehind(packed, ds, i, capacity) == Unnamed(t, {ds[i].name})[|Unnamed(t, {ds[i].name})| - 1]
            && Edit.DefinedBy(MadeBy(packed, ds, i, capacity), ds[i], End64(MadeBehind(packed, ds, i, capacity)),
                              capacity)
  {
    hide Unnamed, UniqueNames, DefineOne, WithoutName, Edit.DefinedBy;
    assert ds[..i + 1][..i] == ds[..i];
    DefineAllKeepsUnique(packed, ds[..i], capacity);
    DefineOneMeans(DefineAll(packed, ds[..i], capacity), ds[i], capacity);
  }

  lemma {:induction false} AllMadeUnnamed(packed: seq<Partition>, ds: seq<Edit.Definer>, ks: seq<nat>, name: string,
                                          capacity: u64)
    requires |packed| >= 2 && UniqueNames(packed) && forall k :: 0 <= k < |ks| ==> ks[k] < |ds|
    ensures Unnamed(AllMade(packed, ds, ks, capacity), {name}) == AllMade(packed, ds, NotNamed(ds, ks, name), capacity)
    decreases |ks|
  {
    hide *;
    if ks == [] {
      NoneMade(packed, ds, name, capacity);
    } else {
      var n := |ks| - 1;
      AllMadeUnnamed(packed, ds, ks[..n], name, capacity);
      OneMadeUnnamed(packed, ds, ks[..n], NotNamed(ds, ks[..n], name), ks[n], name, capacity);
      NotNamedMore(ds, ks, name);
      assert ks == ks[..n] + [ks[n]];
    }
  }

  lemma NoneMade(packed: seq<Partition>, ds: seq<Edit.Definer>, name: string, capacity: u64)
    requires |packed| >= 2
    ensures NotNamed(ds, [], name) == [] && AllMade(packed, ds, [], capacity) == [] && Unnamed([], {name}) == []
  {
  }

  lemma OneMadeUnnamed(packed: seq<Partition>, ds: seq<Edit.Definer>, ks: seq<nat>, rest: seq<nat>, i: nat,
                       name: string, capacity: u64)
    requires |packed| >= 2 && UniqueNames(packed) && i < |ds|
    requires (forall k :: 0 <= k < |ks| ==> ks[k] < |ds|) && forall k :: 0 <= k < |rest| ==> rest[k] < |ds|
    requires Unnamed(AllMade(packed, ds, ks, capacity), {name}) == AllMade(packed, ds, rest, capacity)
    ensures Unnamed(AllMade(packed, ds, ks + [i], capacity), {name})
            == AllMade(packed, ds, if ds[i].name == name then rest else rest + [i], capacity)
  {
    hide UniqueNames, MadeBy, MadeBehind, Unnamed, AllMade;
    MadeName(packed, ds, i, capacity);
    AllMadeMore(packed, ds, ks, i, capacity);
    UnnamedStep(AllMade(packed, ds, ks, capacity), MadeBy(packed, ds, i, capacity), {name});
    AllMadeMore(packed, ds, rest, i, capacity);
  }

  lemma NotNamedMore(ds: seq<Edit.Definer>, ks: seq<nat>, name: string)
    requires ks != [] && forall k :: 0 <= k < |ks| ==> ks[k] < |ds|
    ensures var n, rest := |ks| - 1, NotNamed(ds, ks[..|ks| - 1], name);
            NotNamed(ds, ks, name) == if ds[ks[n]].name == name then rest else rest + [ks[n]]
  {
  }

  lemma MadeName(packed: seq<Partition>, ds: seq<Edit.Definer>, i: nat, capacity: u64)
    requires |packed| >= 2 && UniqueNames(packed) && i < |ds|
    ensures MadeBy(packed, ds, i, capacity).name == ds[i].name
  {
    hide UniqueNames, MadeBy, MadeBehind, Unnamed, DefineAll;
    MadeAsDefined(packed, ds, i, capacity);
  }

  lemma AllMadeMore(packed: seq<Partition>, ds: seq<Edit.Definer>, ks: seq<nat>, i: nat, capacity: u64)
    requires |packed| >= 2 && i < |ds| && forall k :: 0 <= k < |ks| ==> ks[k] < |ds|
    ensures AllMade(packed, ds, ks + [i], capacity) == AllMade(packed, ds, ks, capacity)
              + [MadeBy(packed, ds, i, capacity)]
    ensures ks + [] == ks
  {
    hide MadeBy;
  }

  lemma AllMadeSame(packed: seq<Partition>, ds: seq<Edit.Definer>, ks: seq<nat>, capacity: u64)
    requires |packed| >= 2 && ds != [] && forall k :: 0 <= k < |ks| ==> ks[k] < |ds| - 1
    ensures AllMade(packed, ds[..|ds| - 1], ks, capacity) == AllMade(packed, ds, ks, capacity)
  {
    hide MadeBy, MadeBehind;
    forall k | 0 <= k < |ks|
      ensures MadeBy(packed, ds[..|ds| - 1], ks[k], capacity) == MadeBy(packed, ds, ks[k], capacity)
    {
      SameTurn(packed, ds, ks[k], capacity);
    }
  }

  lemma {:induction false} NotNamedSame(ds: seq<Edit.Definer>, ks: seq<nat>, name: string)
    requires ds != [] && forall k :: 0 <= k < |ks| ==> ks[k] < |ds| - 1
    ensures NotNamed(ds[..|ds| - 1], ks, name) == NotNamed(ds, ks, name)
    decreases |ks|
  {
    if ks != [] {
      NotNamedSame(ds, ks[..|ks| - 1], name);
    }
  }

  lemma NamesMore(ds: seq<Edit.Definer>)
    requires ds != []
    ensures Names(ds) == Names(ds[..|ds| - 1]) + {ds[|ds| - 1].name}
  {
    var n := |ds| - 1;
    forall x | x in Names(ds)
      ensures x in Names(ds[..n]) + {ds[n].name}
    {
      var i :| 0 <= i < |ds| && ds[i].name == x;
      assert i < n ==> ds[..n][i].name == x;
    }
    forall x | x in Names(ds[..n])
      ensures x in Names(ds)
    {
      var i :| 0 <= i < n && ds[..n][i].name == x;
      assert ds[i].name == x;
    }
  }

  lemma {:induction false} CreatedList(packed: seq<Partition>, ds: seq<Edit.Definer>, capacity: u64)
    requires |packed| >= 2 && UniqueNames(packed)
    ensures DefineAll(packed, ds, capacity) == Unnamed(packed, Names(ds)) + AllMade(packed, ds, LastOnes(ds), capacity)
    decreases |ds|
  {
    hide UniqueNames, MadeBy, MadeBehind, Names, DefineOne, AllMade, NotNamed;
    if ds == [] {
      NothingMade(packed, capacity);
    } else {
      var n := |ds| - 1;
      var name, before := ds[n].name, ds[..n];
      CreatedList(packed, before, capacity);
      assert ds[..n + 1] == ds;
      MadeAsDefined(packed, ds, n, capacity);
      NamesMore(ds);
      var kept, made := Unnamed(packed, Names(before)), AllMade(packed, before, LastOnes(before), capacity);
      UnnamedConcat(kept, made, {name});
      UnnamedTwice(packed, Names(before), {name});
      AllMadeUnnamed(packed, before, LastOnes(before), name, capacity);
      NotNamedSame(ds, LastOnes(before), name);
      AllMadeSame(packed, ds, NotNamed(ds, LastOnes(before), name), capacity);
      AllMadeMore(packed, ds, NotNamed(ds, LastOnes(before), name), n, capacity);
    }
  }

  lemma NothingMade(packed: seq<Partition>, capacity: u64)
    requires |packed| >= 2
    ensures packed == Unnamed(packed, Names([])) + AllMade(packed, [], LastOnes([]), capacity)
  {
    assert Names([]) == {};
    UnnamedAll(packed, {});
  }

  lemma LastOnesAreLast(ds: seq<Edit.Definer>)
    ensures forall i :: i in LastOnes(ds) <==> 0 <= i < |ds| && NotOverridden(ds, i)
    ensures forall k, l :: 0 <= k < l < |LastOnes(ds)| ==> LastOnes(ds)[k] < LastOnes(ds)[l]
  {
    hide LastOnes, NotOverridden;
    LastOnesRise(ds);
    forall i: nat
      ensures i in LastOnes(ds) <==> i < |ds| && NotOverridden(ds, i)
    {
      IsLastOne(ds, i);
    }
  }

  lemma {:induction false} IsLastOne(ds: seq<Edit.Definer>, i: nat)
    ensures i in LastOnes(ds) <==> i < |ds| && NotOverridden(ds, i)
    decreases |ds|
  {
    hide NotOverridden, NotNamed;
    if ds != [] {
      var n := |ds| - 1;
      IsLastOne(ds[..n], i);
      LastIsNot(ds);
      if i < n {
        OverriddenMore(ds, i);
      }
    }
  }

  lemma {:induction false} LastOnesRise(ds: seq<Edit.Definer>)
    ensures forall k, l :: 0 <= k < l < |LastOnes(ds)| ==> LastOnes(ds)[k] < LastOnes(ds)[l]
    decreases |ds|
  {
    hide NotNamed;
    if ds != [] {
      var n := |ds| - 1;
      LastOnesRise(ds[..n]);
      NotNamedRises(ds, LastOnes(ds[..n]), ds[n].name);
      var r := NotNamed(ds, LastOnes(ds[..n]), ds[n].name);
      forall k | 0 <= k < |r|
        ensures r[k] < n
      {
        assert r[k] in LastOnes(ds[..n]);
      }
    }
  }

  lemma LastIsNot(ds: seq<Edit.Definer>)
    requires ds != []
    ensures NotOverridden(ds, |ds| - 1)
  {
  }

  lemma OverriddenMore(ds: seq<Edit.Definer>, i: nat)
    requires i < |ds| - 1
    ensures var n := |ds| - 1; NotOverridden(ds, i) <==> NotOverridden(ds[..n], i) && ds[i].name != ds[n].name
  {
    var n := |ds| - 1;
    if NotOverridden(ds[..n], i) && ds[i].name != ds[n].name {
      forall j | i < j < |ds|
        ensures ds[j].name != ds[i].name
      {
        assert j < n ==> ds[..n][j] == ds[j];
      }
    }
    if NotOverridden(ds, i) {
      forall j | i < j < n
        ensures ds[..n][j].name != ds[..n][i].name
      {
        assert ds[..n][j] == ds[j];
      }
    }
  }

  lemma {:induction false} NotNamedRises(ds: seq<Edit.Definer>, ks: seq<nat>, name: string)
    requires forall k :: 0 <= k < |ks| ==> ks[k] < |ds|
    requires forall k, l :: 0 <= k < l < |ks| ==> ks[k] < ks[l]
    ensures forall k, l :: 0 <= k < l < |NotNamed(ds, ks, name)| ==>
              NotNamed(ds, ks, name)[k] < NotNamed(ds, ks, name)[l]
    decreases |ks|
  {
    if ks != [] {
      var n := |ks| - 1;
      NotNamedRises(ds, ks[..n], name);
      var r := NotNamed(ds, ks[..n], name);
      forall k | 0 <= k < |r|
        ensures r[k] < ks[n]
      {
        assert r[k] in ks[..n];
      }
    }
  }

  /** Two neighbours that are not taken away stay neighbours. */
  lemma {:induction false} UnnamedAdjacent(t: seq<Partition>, name: string, k: nat)
    requires 0 < k < |t| && t[k - 1].name != name && t[k].name != name
    ensures Adjacent(Unnamed(t, {name}), t[k - 1], t[k])
    decreases |t|
  {
    var n := |t| - 1;
    if k < n {
      UnnamedAdjacent(t[..n], name, k);
      AdjacentMore(Unnamed(t[..n], {name}), if t[n].name == name then [] else [t[n]], t[k - 1], t[k]);
    } else {
      var u := Unnamed(t[..n], {name});
      assert t[..n][..n - 1] == t[..n - 1];
      assert u[|u| - 1] == t[n - 1];
      assert Unnamed(t, {name}) == u + [t[n]];
      assert (u + [t[n]])[|u| - 1] == t[k - 1] && (u + [t[n]])[|u|] == t[k];
    }
  }

  lemma AdjacentMore(t: seq<Partition>, more: seq<Partition>, p: Partition, q: Partition)
    requires Adjacent(t, p, q)
    ensures Adjacent(t + more, p, q)
  {
    var k :| 0 < k < |t| && t[k - 1] == p && t[k] == q;
    assert (t + more)[k - 1] == p && (t + more)[k] == q;
  }

  lemma {:induction false} BehindStays(packed: seq<Partition>, ds: seq<Edit.Definer>, i: nat, n: nat, capacity: u64)
    requires |packed| >= 2 && UniqueNames(packed) && i < n <= |ds|
    requires forall j :: i < j < n ==>
               ds[j].name != ds[i].name && ds[j].name != MadeBehind(packed, ds, i, capacity).name
    ensures Adjacent(DefineAll(packed, ds[..n], capacity), MadeBehind(packed, ds, i, capacity),
                     MadeBy(packed, ds, i, capacity))
    decreases n
  {
    hide UniqueNames, DefineAll, MadeBy, MadeBehind, Unnamed;
    var p, q := MadeBehind(packed, ds, i, capacity), MadeBy(packed, ds, i, capacity);
    MadeAsDefined(packed, ds, n - 1, capacity);
    var t := DefineAll(packed, ds[..n - 1], capacity);
    if i == n - 1 {
      var rest := Unnamed(t, {ds[i].name});
      assert (rest + [q])[|rest| - 1] == p && (rest + [q])[|rest|] == q;
    } else {
      BehindStays(packed, ds, i, n - 1, capacity);
      MadeAsDefined(packed, ds, i, capacity);
      var k :| 0 < k < |t| && t[k - 1] == p && t[k] == q;
      UnnamedAdjacent(t, ds[n - 1].name, k);
      AdjacentMore(Unnamed(t, {ds[n - 1].name}), [MadeBy(packed, ds, n - 1, capacity)], p, q);
    }
  }

  /** What ept_ecreate_parse makes of a packed table and definers. */
  lemma DefineAllCreates(packed: seq<Partition>, ds: seq<Edit.Definer>, capacity: u64)
    requires |packed| >= 2 && UniqueNames(packed)
    ensures Creates(packed, ds, capacity, DefineAll(packed, ds, capacity))
  {
    hide UniqueNames, MadeBy, MadeBehind, DefineAll, Unnamed, AllMade, LastOnes, Adjacent, Edit.DefinedBy;
    CreatedList(packed, ds, capacity);
    LastOnesAreLast(ds);
    forall i | 0 <= i < |ds|
      ensures Edit.DefinedBy(MadeBy(packed, ds, i, capacity), ds[i], End64(MadeBehind(packed, ds, i, capacity)),
                             capacity)
    {
      MadeAsDefined(packed, ds, i, capacity);
    }
    forall i | 0 <= i < |ds| && NotOverridden(ds, i)
      ensures StaysBehind(packed, ds, i, capacity, DefineAll(packed, ds, capacity))
    {
      if MadeBehind(packed, ds, i, capacity).name !in Names(ds[i + 1..]) {
        forall j | i < j < |ds|
          ensures ds[j].name != MadeBehind(packed, ds, i, capacity).name
        {
          assert ds[i + 1..][j - i - 1].name in Names(ds[i + 1..]);
        }
        assert ds[..|ds|] == ds;
        BehindStays(packed, ds, i, |ds|, capacity);
      }
    }
  }

  /** One turn of the loop of lines 1403-1445. */
  method DefinePart(table: EptTable, d: Edit.Definer, capacity: u64)
    requires table.Valid() && 2 <= table.count < MAX_PARTITIONS_COUNT
    modifies table`count, table.slots
    ensures table.Valid() && table.Contents() == DefineOne(old(table.Contents()), d, capacity)
  {
    hide Edit.Defined;
    var found := table.Find(d.name);
    if found.Some? {
      Edit.DeletePart(table, found.value);
    }
    ghost var rest := table.Contents();
    var last := table.slots[table.count - 1];
    assert rest[|rest| - 1] == last;
    var ok := Edit.AppendPart(table, Edit.Defined(d, End64(last), capacity));
  }

  /** PARG_PARSE_DEFINER_ECREATE_MODE. */
  function CreateDefiner(arg: string): Result<Edit.Definer> {
    DefinerOf(arg, REQUIRED, ABSOLUTE_OR_RELATIVE, ABSOLUTE, ANY)
  }

  ghost predicate AllDefine(argv: seq<string>, ds: seq<Edit.Definer>) {
    |ds| == |argv| && forall i :: 0 <= i < |argv| ==> CreateDefiner(argv[i]) == Ok(ds[i])
  }

  /** parg_parse_ecreate_mode. */
  method ParseCreateMode(argv: seq<string>) returns (ok: bool, ds: seq<Edit.Definer>)
    ensures ok ==> AllDefine(argv, ds)
    ensures !ok ==> forall ds' :: !AllDefine(argv, ds')
  {
    hide DefinerOf;
    ds := [];
    for i := 0 to |argv|
      invariant |ds| == i && forall k :: 0 <= k < i ==> CreateDefiner(argv[k]) == Ok(ds[k])
    {
      var r, d := ParseDefiner(argv[i], REQUIRED, ABSOLUTE_OR_RELATIVE, ABSOLUTE, ANY);
      if r != 0 {
        assert CreateDefiner(argv[i]).Err?;
        return false, ds;
      }
      ds := ds + [d];
    }
    return true, ds;
  }

  // ---- The whole ----

  /** With unique names there is room for all non-critical partitions in the array of 30, so ept_ungap can be called. */
  lemma EssentialsCanBePacked(t: seq<Partition>)
    requires UniqueNames(t) && 4 <= |t| <= MAX_PARTITIONS_COUNT && t[0].name == "bootloader" && t[1].name == "reserved"
    ensures |NonCritical(t, |t|)| <= NON_CRITICAL_MAX
    ensures LastNamed(t, |t|, "bootloader") == Some(0) && LastNamed(t, |t|, "reserved") == Some(1)
  {
    OnlyNamed(t, |t|, 0);
    OnlyNamed(t, |t|, 1);
    AllIndexesTold(t, NonCritical(t, |t|), 1);
  }

  lemma {:induction false} OnlyNamed(t: seq<Partition>, n: nat, i: nat)
    requires UniqueNames(t) && i < n <= |t|
    ensures LastNamed(t, n, t[i].name) == Some(i)
  {
    if i < n - 1 {
      OnlyNamed(t, n - 1, i);
    }
  }

  /** The sizes of the essential partitions are sane: behind `reserved` nothing wraps, and `bootloader` ends before
      it. */
  ghost predicate SaneEssentials(t: seq<Partition>, offsetReserved: u64) {
    t != [] && t[0].size < offsetReserved && offsetReserved + TotalSize(t) < U64_LIMIT
  }

  /** ept_ecreate_parse. Error 2 never comes up: a table built this way can always be packed. */
  method CreateTable(table: EptTable, was: seq<Partition>, argv: seq<string>, capacity: u64, offsetReserved: u64)
    returns (r: int, ghost packed: seq<Partition>, ghost k: nat, ghost ds: seq<Edit.Definer>)
    requires table.Valid() && table.Contents() == DEFAULTS && |was| <= MAX_PARTITIONS_COUNT
    requires Essentials(was, |was|).Some? ==> SaneEssentials(Essentials(was, |was|).value, offsetReserved)
    modifies table`count, table.slots
    ensures table.Valid() && r in {-1, 0, 1, 3}
    ensures r == 0 <==>
              && capacity > 0 && Essentials(was, |was|).Some?
              && |argv| + |Essentials(was, |was|).value| <= MAX_PARTITIONS_COUNT
              && (exists ds' :: AllDefine(argv, ds'))
    ensures r == 0 ==>
              && Packed(Essentials(was, |was|).value, packed, k, offsetReserved) && AllDefine(argv, ds) && |packed| >= 2
              && table.Contents() == DefineAll(packed, ds, capacity) && UniqueNames(table.Contents())
              && Creates(packed, ds, capacity, table.Contents())
  {
    hide Essentials, CreateDefiner, DefineOne, Packed, NonCritical, LastNamed, TotalSize, UniqueNames, Creates;
    packed, k, ds := [], 0, [];
    if capacity == 0 || |argv| > MAX_PARTITIONS_COUNT {
      return -1, packed, k, ds;
    }
    var ok := TakeEssentials(table, was);
    if !ok {
      return 1, packed, k, ds;
    }
    ghost var t := table.Contents();
    EssentialsAreUnique(was, |was|);
    EssentialsCanBePacked(t);
    assert t[0] == table.slots[0];
    var bad;
    bad, k := Packing.Ungap(table, offsetReserved);
    if bad != 0 {
      assert false;
    }
    packed := table.Contents();
    PackedIsUnique(t, packed, k, offsetReserved);
    if |argv| > MAX_PARTITIONS_COUNT - table.count {
      return 3, packed, k, ds;
    }
    var definers;
    ok, definers := ParseCreateMode(argv);
    if !ok {
      return 3, packed, k, ds;
    }
    ds := definers;
    for i := 0 to |definers|
      invariant table.Valid() && table.Contents() == DefineAll(packed, definers[..i], capacity)
    {
      assert definers[..i + 1][..i] == definers[..i];
      DefinePart(table, definers[i], capacity);
    }
    assert definers[..|definers|] == definers;
    DefineAllKeepsUnique(packed, ds, capacity);
    DefineAllCreates(packed, ds, capacity);
    return 0, packed, k, ds;
  }

  lemma CountedTwice(s: seq<Partition>, i: nat, j: nat)
    requires i < j < |s| && s[i] == s[j]
    ensures multiset(s)[s[i]] >= 2
  {
    assert s == s[..j] + [s[j]] + s[j + 1..];
    assert s[..j][i] == s[i];
    assert s[i] in multiset(s[..j]);
  }

  lemma FoundTwice(s: seq<Partition>, a: Partition) returns (p: nat, q: nat)
    requires multiset(s)[a] >= 2
    ensures p != q && p < |s| && q < |s| && s[p] == s[q] == a
  {
    assert a in multiset(s);
    p :| p < |s| && s[p] == a;
    CountWithout(s, p);
    var rest := s[..p] + s[p + 1..];
    assert a in multiset(rest);
    var r: nat :| r < |rest| && rest[r] == a;
    q := if r < p then r else r + 1;
  }

  /** Two entries of a rearranged sequence come from two entries of the sequence. */
  lemma CameFrom(s: seq<Partition>, s': seq<Partition>, i: nat, j: nat) returns (p: nat, q: nat)
    requires multiset(s) == multiset(s') && i < j < |s'|
    ensures p != q && p < |s| && q < |s| && s[p] == s'[i] && s[q] == s'[j]
  {
    if s'[i] == s'[j] {
      CountedTwice(s', i, j);
      p, q := FoundTwice(s, s'[i]);
    } else {
      assert s'[i] in multiset(s') && s'[j] in multiset(s');
      p :| p < |s| && s[p] == s'[i];
      q :| q < |s| && s[q] == s'[j];
    }
  }

  /** Packing keeps names unique. */
  lemma PackedIsUnique(t: seq<Partition>, t': seq<Partition>, k: nat, offsetReserved: u64)
    requires Packed(t, t', k, offsetReserved) && UniqueNames(t)
    ensures UniqueNames(t') && |t'| == |t| >= 2
  {
    hide Chained;
    forall i, j | 0 <= i < j < |t'|
      ensures t'[i].name != t'[j].name
    {
      var p, q := CameFrom(AllBare(t), AllBare(t'), i, j);
      assert t[p].name == t'[i].name && t[q].name == t'[j].name;
    }
  }
}