/** The phandles of a tree after its partitions node was put in: exactly when they are pairwise distinct. */
module NewPhandles {
  import opened Util
  import opened Ept
  import opened Fdt
  import opened Walk
  import opened StringBlock
  import opened Phandle
  import opened Compose
  import opened RoundTrip
  import opened Splice
  import opened PhandleSafety

  // ---- The composed node ----

  /** In this reading of name offsets, the phandle properties of the composed node are phandles, and its others are
      not. */
  ghost predicate NamesApart(c: Composed, places: set<nat>) {
    && c.names.phandle in places && (c.linux ==> c.names.linux in places)
    && c.names.parts !in places && c.names.pname !in places && c.names.size !in places && c.names.mask !in places
    && forall i :: 0 <= i < |c.ms| ==> c.ms[i].offPartN !in places
  }

  lemma WordOwns(nameOff: u32, value: u32, rest: Body, places: set<nat>)
    ensures var here: set<nat> := if nameOff in places then {value} else {};
            Own(Word(nameOff, value, rest), places) == here + Own(rest, places)
    ensures Sub(Word(nameOff, value, rest), places) == Sub(rest, places)
    ensures SubDistinct(Word(nameOff, value, rest), places) == SubDistinct(rest, places)
  {
    hide BE32;
    assert At(BE32(value), 0, BE32(value));
    ReadBE32(BE32(value), 0, value);
  }

  lemma ChildOwns(m: Made, c: Composed, places: set<nat>)
    requires NamesApart(c, places)
    ensures var b := ChildBody(m, c.names, c.linux);
            Own(b, places) == {m.phandle} && Sub(b, places) == {} && Distinct(b, places)
  {
    var f, l := c.names.phandle, c.names.linux;
    var last := if c.linux then Word(l, m.phandle, End) else End;
    var ph := Word(f, m.phandle, last);
    var mask := Word(c.names.mask, m.part.mask, ph);
    var size := Prop(c.names.size, BE64(m.part.size), [], mask);
    hide BE32, BE64;
    WordOwns(l, m.phandle, End, places);
    WordOwns(f, m.phandle, last, places);
    WordOwns(c.names.mask, m.part.mask, ph, places);
    assert Own(size, places) == Own(mask, places) && Sub(size, places) == Sub(mask, places);
    assert SubDistinct(size, places) == SubDistinct(mask, places);
  }

  function MadePhandles(ms: seq<Made>): set<nat> {
    set i | 0 <= i < |ms| :: ms[i].phandle as nat
  }

  function PhandleSet(phandles: seq<u32>): set<nat> {
    set i | 0 <= i < |phandles| :: phandles[i] as nat
  }

  lemma {:induction false} NodesOwn(ms: seq<Made>, c: Composed, places: set<nat>)
    requires NamesApart(c, places) && forall i, j :: 0 <= i < j < |ms| ==> ms[i].phandle != ms[j].phandle
    ensures var b := ChildNodes(ms, c.names, c.linux);
            Own(b, places) == {} && Sub(b, places) == MadePhandles(ms) && SubDistinct(b, places)
    decreases |ms|
  {
    if ms != [] {
      hide Distinct, ChildBody;
      ChildOwns(ms[0], c, places);
      NodesOwn(ms[1..], c, places);
      assert MadePhandles(ms) == {ms[0].phandle as nat} + MadePhandles(ms[1..]) by {
        forall i | 0 < i < |ms|
          ensures ms[i] == ms[1..][i - 1]
        {
        }
      }
    }
  }

  lemma {:induction false} PropsOwn(ms: seq<Made>, c: Composed, rest: Body, places: set<nat>)
    requires NamesApart(c, places) && forall m :: m in ms ==> m in c.ms
    ensures var b := PartProps(ms, rest);
            && Own(b, places) == Own(rest, places) && Sub(b, places) == Sub(rest, places)
            && SubDistinct(b, places) == SubDistinct(rest, places)
    decreases |ms|
  {
    if ms != [] {
      assert ms[0] in c.ms;
      PropsOwn(ms[1..], c, rest, places);
      WordOwns(ms[0].offPartN, ms[0].phandle, PartProps(ms[1..], rest), places);
    }
  }

  lemma PhandlesOf(c: Composed)
    ensures PhandleSet(Phandles(c)) == MadePhandles(c.ms) + {c.root}
    ensures (forall i, j :: 0 <= i < j < |Phandles(c)| ==> Phandles(c)[i] != Phandles(c)[j]) ==>
              c.root !in MadePhandles(c.ms) && forall i, j :: 0 <= i < j < |c.ms| ==> c.ms[i].phandle != c.ms[j].phandle
  {
    var n := |c.ms|;
    forall i | 0 <= i < n
      ensures Phandles(c)[i] == c.ms[i].phandle
    {
    }
    assert Phandles(c)[n] == c.root;
    forall v | v in MadePhandles(c.ms) + {c.root}
      ensures v in PhandleSet(Phandles(c))
    {
      if v != c.root {
        var i :| 0 <= i < n && c.ms[i].phandle == v;
        assert Phandles(c)[i] == v;
      }
    }
  }

  /** The composed node claims the phandles chosen for it, each in one place. */
  lemma ComposedOwns(c: Composed, e: seq<Slot>, places: set<nat>)
    requires NamesApart(c, places) && FreshPhandles(e, Phandles(c)) && |c.ms| < U32_LIMIT
    ensures var b := RootBody(c.ms, c.root, c.names, c.linux);
            Distinct(b, places) && All(b, places) == PhandleSet(Phandles(c))
  {
    hide PhandleSet, MadePhandles, Phandles, ChildNodes, PartProps;
    PhandlesOf(c);
    NodesOwn(c.ms, c, places);
    var nodes := ChildNodes(c.ms, c.names, c.linux);
    var linuxed := if c.linux then Word(c.names.linux, c.root, nodes) else nodes;
    WordOwns(c.names.linux, c.root, nodes, places);
    WordOwns(c.names.phandle, c.root, linuxed, places);
    PropsOwn(c.ms, c, RootRest(c.ms, c.root, c.names, c.linux), places);
    WordOwns(c.names.parts, |c.ms|, PartProps(c.ms, RootRest(c.ms, c.root, c.names, c.linux)), places);
  }

  // ---- Which phandles are handed out ----

  function FreeBelow(e: seq<Slot>, v: nat): set<nat> {
    set h | 1 <= h < v && !Held(e, h)
  }

  /** v is one of the n least phandles that nobody holds. */
  predicate NextFree(e: seq<Slot>, n: nat, v: nat) {
    1 <= v && !Held(e, v) && |FreeBelow(e, v)| < n
  }

  /** No phandle of the tree is one of these. */
  ghost predicate OutOfTheWay(b: Body, e: seq<Slot>, n: nat, places: set<nat>) {
    forall v :: v in All(b, places) ==> !NextFree(e, n, v)
  }

  lemma {:induction false} Fewer(a: set<nat>, b: set<nat>)
    requires a <= b
    ensures |a| <= |b|
    decreases |a|
  {
    if a != {} {
      var x :| x in a;
      Fewer(a - {x}, b - {x});
    }
  }

  lemma {:induction false} CountPhandles(phandles: seq<u32>)
    requires forall i, j :: 0 <= i < j < |phandles| ==> phandles[i] != phandles[j]
    ensures |PhandleSet(phandles)| == |phandles|
    decreases |phandles|
  {
    if phandles != [] {
      var n := |phandles| - 1;
      CountPhandles(phandles[..n]);
      OneMorePhandle(phandles);
    }
  }

  lemma OneMorePhandle(phandles: seq<u32>)
    requires phandles != []
    ensures var n := |phandles| - 1; PhandleSet(phandles) == PhandleSet(phandles[..n]) + {phandles[n] as nat}
  {
    var n := |phandles| - 1;
    forall v | v in PhandleSet(phandles[..n])
      ensures v in PhandleSet(phandles)
    {
      var i :| 0 <= i < n && phandles[..n][i] == v;
      assert phandles[i] == v;
    }
    forall v | v in PhandleSet(phandles) && v != phandles[n]
      ensures v in PhandleSet(phandles[..n])
    {
      var i :| 0 <= i < |phandles| && phandles[i] == v;
      assert phandles[..n][i] == v;
    }
  }

  lemma LowerIsHandedOut(e: seq<Slot>, phandles: seq<u32>, v: nat, h: nat)
    requires FreshPhandles(e, phandles) && h in PhandleSet(phandles) && 1 <= v < h && !Held(e, v)
    ensures v in PhandleSet(phandles)
  {
    assert HandedOut(phandles, v);
  }

  lemma FreeBelowIsHandedOut(e: seq<Slot>, phandles: seq<u32>, v: nat)
    requires FreshPhandles(e, phandles) && v in PhandleSet(phandles)
    ensures FreeBelow(e, v) <= PhandleSet(phandles)
  {
    forall h | h in FreeBelow(e, v)
      ensures h in PhandleSet(phandles)
    {
      LowerIsHandedOut(e, phandles, h, v);
    }
  }

  lemma HandedOutIsBelow(e: seq<Slot>, phandles: seq<u32>, v: nat)
    requires FreshPhandles(e, phandles) && v !in PhandleSet(phandles) && 1 <= v && !Held(e, v)
    ensures PhandleSet(phandles) <= FreeBelow(e, v)
  {
    forall h | h in PhandleSet(phandles)
      ensures h in FreeBelow(e, v)
    {
      IsFree(e, phandles, h);
      if h > v {
        LowerIsHandedOut(e, phandles, v, h);
      }
    }
  }

  lemma IsFree(e: seq<Slot>, phandles: seq<u32>, v: nat)
    requires FreshPhandles(e, phandles) && v in PhandleSet(phandles)
    ensures 1 <= v && !Held(e, v)
  {
  }

  /** The composer hands out exactly the least free phandles. */
  lemma HandedOutIsNextFree(e: seq<Slot>, phandles: seq<u32>, v: nat)
    requires FreshPhandles(e, phandles)
    ensures v in PhandleSet(phandles) <==> NextFree(e, |phandles|, v)
  {
    CountPhandles(phandles);
    hide FreshPhandles, PhandleSet, Held;
    if v in PhandleSet(phandles) {
      IsFree(e, phandles, v);
      FreeBelowIsHandedOut(e, phandles, v);
      Fewer(FreeBelow(e, v), PhandleSet(phandles) - {v});
    } else if 1 <= v && !Held(e, v) {
      HandedOutIsBelow(e, phandles, v);
      Fewer(PhandleSet(phandles), FreeBelow(e, v));
    }
  }

  // ---- Collect, drop, assign ----

  /** The new tree has distinct phandles exactly if the rest of the old one has, and none of these is one of the least
      phandles that are not collected. */
  lemma NewTreeDistinct(b: Body, e: seq<Slot>, c: Composed, t: Tree, places: set<nat>)
    requires NamesApart(c, places) && |c.ms| < U32_LIMIT && FreshPhandles(e, Phandles(c))
    requires t.body == RootBody(c.ms, c.root, c.names, c.linux)
    ensures Distinct(Implement(b, t), places) <==>
            && Distinct(Without(b, t.name), places)
            && OutOfTheWay(Without(b, t.name), e, |c.ms| + 1, places)
  {
    hide NamesApart, RootBody, Distinct, All, Implement, Remove, FreshPhandles, NextFree, PhandleSet;
    ImplementThenRemove(b, t);
    DistinctSplit(Implement(b, t), t.name, places);
    ComposedOwns(c, e, places);
    forall v
      ensures v in PhandleSet(Phandles(c)) <==> NextFree(e, |c.ms| + 1, v)
    {
      HandedOutIsNextFree(e, Phandles(c), v);
    }
  }

  /** The phandles collected outside the old partitions node are still taken after its own are freed. */
  lemma CollectedStaysTaken(b: Body, name: Bytes, owner: nat, p: nat, offPhandle: u32, offLinux: u32, e0: seq<Slot>,
                            e: seq<Slot>, freed: seq<nat>, v: nat)
    requires owner < p && e0 != [] && RecordAll(e0, Claims(b, owner, p, offPhandle, offLinux)) == Some(e)
    requires forall h :: h in freed && h != 0 ==>
               HasChild(b, name) && h in All(Child(b, name).body, Pair(offPhandle, offLinux))
    requires v in All(Without(b, name), Pair(offPhandle, offLinux))
    ensures Held(Dropped(e, freed), v)
  {
    var claims := Claims(b, owner, p, offPhandle, offLinux);
    RecordedIsUnique(e0, claims);
    UniqueIsDistinct(b, owner, p, offPhandle, offLinux);
    hide IsClaimed, HeldBy, Distinct, All;
    if HasChild(b, name) {
      DistinctSplit(b, name, Pair(offPhandle, offLinux));
    }
    var n := AllIsClaimed(b, owner, p, offPhandle, offLinux, v);
    RecordedExactly(e0, claims, v, n);
    OneOwner(e, v, n, n);
  }

  /** What the walker collected without error is distinct outside the old partitions node. */
  lemma CollectedIsDistinct(b: Body, name: Bytes, owner: nat, p: nat, offPhandle: u32, offLinux: u32, e0: seq<Slot>)
    requires owner < p && e0 != [] && RecordAll(e0, Claims(b, owner, p, offPhandle, offLinux)).Some?
    ensures Distinct(Without(b, name), Pair(offPhandle, offLinux))
  {
    RecordedIsUnique(e0, Claims(b, owner, p, offPhandle, offLinux));
    UniqueIsDistinct(b, owner, p, offPhandle, offLinux);
    hide Distinct;
    if HasChild(b, name) {
      DistinctSplit(b, name, Pair(offPhandle, offLinux));
    }
  }

  // ---- Phandle properties by name ----

  /** The name offsets that read as one of the two names of a phandle. */
  function PhandleNames(strings: Bytes): set<nat> {
    set o | 0 <= o < |strings| && StringAt(strings, o) in {"phandle", "linux,phandle"}
  }

  /** Every property of the tree that reads as a phandle has one of the two name offsets that are looked up. */
  predicate AllFound(b: Body, named: set<nat>, found: set<nat>) {
    match b
    case End => true
    case Nop(rest) => AllFound(rest, named, found)
    case Prop(nameOff, _, _, rest) => (nameOff in named ==> nameOff in found) && AllFound(rest, named, found)
    case Node(_, _, child, rest) => AllFound(child, named, found) && AllFound(rest, named, found)
  }

  /** Then no claim goes unseen, and what is distinct to the walker is distinct. */
  lemma {:induction false} FoundClaims(b: Body, named: set<nat>, found: set<nat>)
    requires AllFound(b, named, found)
    ensures Own(b, named) <= Own(b, found) && Sub(b, named) <= Sub(b, found)
    ensures SubDistinct(b, found) ==> SubDistinct(b, named)
    decreases b, 0
  {
    hide All, Distinct;
    match b
    case End =>
    case Nop(rest) => FoundClaims(rest, named, found);
    case Prop(_, _, _, rest) => FoundClaims(rest, named, found);
    case Node(_, _, child, rest) =>
      FoundIsDistinct(child, named, found);
      FoundClaims(rest, named, found);
  }

  lemma {:induction false} FoundIsDistinct(b: Body, named: set<nat>, found: set<nat>)
    requires AllFound(b, named, found)
    ensures All(b, named) <= All(b, found) && (Distinct(b, found) ==> Distinct(b, named))
    decreases b, 1
  {
    hide SubDistinct;
    FoundClaims(b, named, found);
  }

  // ---- Interning adds no phandle name ----

  lemma TailReads(b: Bytes, str: Bytes, o: nat)
    requires NUL !in str && |b| <= o < |b| + |str| + 1
    ensures StringAt(b + str + [NUL], o) == str[o - |b|..]
  {
    var b', tail := b + str + [NUL], str[o - |b|..];
    assert b'[o..o + |tail| + 1] == tail + [NUL];
    ReadString(b', o, tail);
  }

  /** A short name other than "phandle". */
  predicate Plain(str: Bytes) {
    str != [] && NUL !in str && |str| <= 7 && str != "phandle"
  }

  lemma PlainTail(str: Bytes, k: nat)
    requires Plain(str) && k <= |str|
    ensures str[k..] != "phandle" && str[k..] != "linux,phandle"
  {
    if k == 0 {
      assert str[k..] == str;
    } else {
      assert |str[k..]| < 7;
    }
  }

  lemma InternNames(b: Bytes, str: Bytes)
    requires Terminated(b) && Plain(str)
    ensures PhandleNames(Intern(b, str).0) == PhandleNames(b) && Terminated(Intern(b, str).0)
  {
    InternIsStable(b, str);
    var b' := Intern(b, str).0;
    hide StringAt, Intern;
    forall o: nat | o < |b'|
      ensures o in PhandleNames(b') <==> o in PhandleNames(b)
    {
      if o >= |b| {
        InternTail(b, str, o);
      }
    }
  }

  lemma InternTail(b: Bytes, str: Bytes, o: nat)
    requires Plain(str) && |b| <= o < |Intern(b, str).0|
    ensures StringAt(Intern(b, str).0, o) !in {"phandle", "linux,phandle"}
  {
    hide StringAt, Find;
    TailReads(b, str, o);
    PlainTail(str, o - |b|);
  }

  lemma {:induction false} InternAllNames(b: Bytes, strs: seq<Bytes>)
    requires Terminated(b) && forall k :: 0 <= k < |strs| ==> Plain(strs[k])
    ensures PhandleNames(InternAll(b, strs).0) == PhandleNames(b)
    decreases |strs|
  {
    if strs != [] {
      hide PhandleNames, Intern;
      assert Plain(strs[0]);
      InternNames(b, strs[0]);
      InternAllNames(Intern(b, strs[0]).0, strs[1..]);
    }
  }
}
