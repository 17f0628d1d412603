/** The target name of a DTB: the property amlogic-dt-id of its root, read (src/dts.c) and split in three
    (src/dtb.c). */
module Target {
  import opened Util
  import opened Fdt
  import opened Walk
  import opened StringBlock
  import opened Splice

  const TARGET_ID: Bytes := "amlogic-dt-id"

  // ---- A property of a node ----

  /** The value of the first property with this name offset, if it comes before the first child. */
  function FirstProp(b: Body, nameOff: nat): Option<Bytes> {
    match b
    case End => None
    case Nop(rest) => FirstProp(rest, nameOff)
    case Prop(n, value, _, rest) => if n == nameOff then Some(value) else FirstProp(rest, nameOff)
    case Node(_, _, _, _) => None
  }

  /** dts_get_property_actual: the value it leaves in dts_property, or its failure. */
  method GetProperty(s: Bytes, node: nat, nameOff: nat, ghost t: Tree) returns (value: Option<Bytes>)
    requires IsNodeAt(s, node, t)
    ensures value == FirstProp(t.body, nameOff)
  {
    hide IsNodeAt, Walking, Read32, StringAt, Steps, At, FirstProp;
    Enter(s, node, t);
    var start := node + 4 * Steps(|StringAt(s, node)| + 1);
    ghost var rest := t.body;
    var i: nat := 0;
    while true
      invariant Walking(s, start, i, t.body, rest) && FirstProp(rest, nameOff) == FirstProp(t.body, nameOff)
      decreases Words(rest)
    {
      var current := start + 4 * i;
      Look(s, start, i, t.body, rest);
      FirstPropStep(rest, nameOff);
      var token := Read32(s, current);
      if token == BEGIN_NODE || token == END_NODE {
        return None;
      } else if token == PROP {
        StepProp(s, start, i, t.body, rest);
        var lenProp := Read32(s, current + 4);
        if Read32(s, current + 8) == nameOff {
          SliceIs(s, current + 12, rest.value);
          return Some(s[current + 12..current + 12 + lenProp]);
        }
        i := SkipProp(i, lenProp);
      } else {
        assert token == NOP;
        StepNop(s, start, i, t.body, rest);
      }
      i, rest := i + 1, rest.rest;
    }
  }

  lemma FirstPropStep(b: Body, nameOff: nat)
    ensures b.End? || b.Node? ==> FirstProp(b, nameOff) == None
    ensures b.Nop? ==> FirstProp(b, nameOff) == FirstProp(b.rest, nameOff)
    ensures b.Prop? ==> FirstProp(b, nameOff) == if b.nameOff == nameOff then Some(b.value)
              else FirstProp(b.rest, nameOff)
  {
  }

  lemma SliceIs(s: Bytes, p: nat, x: Bytes)
    requires At(s, p, x)
    ensures p + |x| <= |s| && s[p..p + |x|] == x
  {
  }

  /** dts_get_property_string into a zeroed buffer: the text of the value, nothing if it is missing or too long. */
  method GetPropertyString(s: Bytes, node: nat, nameOff: nat, maxLen: nat, ghost t: Tree) returns (r: int, text: Bytes)
    requires IsNodeAt(s, node, t)
    ensures r == 1 <==> FirstProp(t.body, nameOff) == None
    ensures r == 2 <==> maxLen > 0 && FirstProp(t.body, nameOff).Some? && |FirstProp(t.body, nameOff).value| > maxLen
    ensures r == 0 || r == 1 || r == 2
    ensures text == if r == 0 then StringAt(FirstProp(t.body, nameOff).value, 0) else []
  {
    hide IsNodeAt, StringAt;
    var value := GetProperty(s, node, nameOff, t);
    if value == None {
      return 1, [];
    }
    if maxLen > 0 && |value.value| > maxLen {
      return 2, [];
    }
    return 0, StringAt(value.value, 0);
  }

  /** Putting a child in or taking one out leaves the properties before the children alone. */
  lemma {:induction false} ImplementKeepsProp(b: Body, t: Tree, nameOff: nat)
    ensures FirstProp(Append(b, t), nameOff) == FirstProp(b, nameOff)
    ensures HasChild(b, t.name) ==> FirstProp(Replace(b, t.name, t), nameOff) == FirstProp(b, nameOff)
  {
    if !b.End? && !b.Node? {
      ImplementKeepsProp(b.rest, t, nameOff);
    }
  }

  lemma {:induction false} RemoveKeepsProp(b: Body, name: Bytes, nameOff: nat)
    requires HasChild(b, name) && FirstProp(b, nameOff).Some?
    ensures FirstProp(Remove(b, name), nameOff) == FirstProp(b, nameOff)
  {
    if !b.Node? && !(b.Prop? && b.nameOff == nameOff) {
      RemoveKeepsProp(b.rest, name, nameOff);
    }
  }

  // ---- Splitting the name ----

  /** The name is these three with underscores between; only the last may have more of them. */
  predicate Underscored(name: Bytes, a: Bytes, b: Bytes, c: Bytes) {
    name == a + "_" + b + "_" + c && '_' !in a && '_' !in b
  }

  function Underscore(name: Bytes, from: nat): (r: Option<nat>)
    ensures r.Some? ==> from <= r.value < |name| && name[r.value] == '_' && forall k :: from <= k < r.value ==>
              name[k] != '_'
    ensures r == None ==> forall k :: from <= k < |name| ==> name[k] != '_'
    decreases |name| - from
  {
    if from >= |name| then None else if name[from] == '_' then Some(from) else Underscore(name, from + 1)
  }

  function FindUnderscores(name: Bytes): (r: Option<(nat, nat)>)
    ensures r.Some? ==> r.value.0 < r.value.1 < |name|
  {
    match Underscore(name, 0)
    case None => None
    case Some(i) => match Underscore(name, i + 1) case None => None case Some(j) => Some((i, j))
  }

  /** strncpy into a field of 16 bytes. */
  function Cut16(s: Bytes): Bytes {
    if |s| <= 16 then s else s[..16]
  }

  /** The name fields of struct dtb_buffer_entry. */
  datatype TargetName = TargetName(target: Bytes, soc: Bytes, platform: Bytes, variant: Bytes)

  function NoName(): TargetName {
    TargetName([], [], [], [])
  }

  function SplitName(name: Bytes): Option<TargetName> {
    match FindUnderscores(name)
    case None => None
    case Some(u) => Some(TargetName(name, Cut16(name[..u.0]), Cut16(name[u.0 + 1..u.1]), Cut16(name[u.1 + 1..])))
  }

  lemma FirstUnderscore(name: Bytes, from: nat, at: nat)
    requires from <= at < |name| && name[at] == '_' && forall k :: from <= k < at ==> name[k] != '_'
    ensures Underscore(name, from) == Some(at)
  {
    var r := Underscore(name, from);
    assert name[r.value] == '_';
  }

  lemma SplitAt(name: Bytes, a: Bytes, b: Bytes, c: Bytes)
    requires Underscored(name, a, b, c)
    ensures FindUnderscores(name) == Some((|a|, |a| + 1 + |b|))
    ensures name[..|a|] == a && name[|a| + 1..|a| + 1 + |b|] == b && name[|a| + 1 + |b| + 1..] == c
  {
    var i, j := |a|, |a| + 1 + |b|;
    var ab := a + "_" + b;
    assert ab[..i] == a && ab[i] == '_' && ab[i + 1..] == b;
    assert name[..j] == ab && name[j] == '_' && name[j + 1..] == c;
    assert name[..i] == name[..j][..i] && name[i + 1..j] == name[..j][i + 1..] && name[i] == name[..j][i];
    forall k | 0 <= k < i
      ensures name[k] != '_'
    {
      assert name[k] == a[k];
    }
    forall k | i + 1 <= k < j
      ensures name[k] != '_'
    {
      assert name[k] == name[i + 1..j][k - (i + 1)] == b[k - (i + 1)];
    }
    FirstUnderscore(name, 0, i);
    FirstUnderscore(name, i + 1, j);
  }

  lemma UnderscoresCut(name: Bytes)
    requires FindUnderscores(name).Some?
    ensures var u := FindUnderscores(name).value; Underscored(name, name[..u.0], name[u.0 + 1..u.1], name[u.1 + 1..])
  {
    var (i, j) := FindUnderscores(name).value;
    assert name[..j] == name[..i] + "_" + name[i + 1..j];
    assert name == name[..j] + "_" + name[j + 1..];
  }

  /** The name has two underscores. */
  ghost predicate Splits(name: Bytes) {
    exists a, b, c :: Underscored(name, a, b, c)
  }

  /** These are the name and what is before, between and behind its first two underscores, cut to 16 bytes each. */
  ghost predicate SplitsInto(name: Bytes, parts: TargetName) {
    forall a, b, c :: Underscored(name, a, b, c) ==> parts == TargetName(name, Cut16(a), Cut16(b), Cut16(c))
  }

  /** A name is split exactly if it has two underscores, and then at the first two of them. */
  lemma SplitMeans(name: Bytes)
    ensures SplitName(name).Some? <==> Splits(name)
    ensures SplitName(name).Some? ==> SplitsInto(name, SplitName(name).value)
  {
    hide Underscored, FindUnderscores, Cut16;
    if FindUnderscores(name).Some? {
      UnderscoresCut(name);
    }
    forall a, b, c | Underscored(name, a, b, c)
      ensures SplitName(name) == Some(TargetName(name, Cut16(a), Cut16(b), Cut16(c)))
    {
      SplitAt(name, a, b, c);
    }
  }

  /** dtb_entry_split_target_string, for a name that fits the buffer of 48 bytes. */
  method SplitTarget(name: Bytes) returns (r: int, parts: TargetName)
    requires |name| <= 48
    ensures r == 0 <==> Splits(name)
    ensures r == 0 ==> SplitName(name) == Some(parts) && SplitsInto(name, parts)
  {
    SplitMeans(name);
    AllUnderscores(name);
    hide Splits, SplitsInto, Underscore, FindUnderscores, UnderscoresFrom, Cut16;
    var keys: seq<nat> := [];
    for i := 0 to |name|
      invariant |keys| <= 1 && UnderscoresFrom(name, i, keys) == FindUnderscores(name)
    {
      NextUnderscore(name, i, keys);
      if name[i] == '_' {
        keys := keys + [i];
      }
      if |keys| == 2 {
        return 0, TargetName(name, Cut16(name[..keys[0]]), Cut16(name[keys[0] + 1..keys[1]]),
                             Cut16(name[keys[1] + 1..]));
      }
    }
    NoUnderscore(name, |name|, keys);
    return 1, NoName();
  }

  /** The first two underscores, with some of them found before c. */
  function UnderscoresFrom(name: Bytes, c: nat, found: seq<nat>): Option<(nat, nat)>
    requires |found| <= 2
    decreases 2 - |found|
  {
    if |found| == 2 then Some((found[0], found[1]))
    else match Underscore(name, c) case None => None case Some(k) => UnderscoresFrom(name, k + 1, found + [k])
  }

  lemma AllUnderscores(name: Bytes)
    ensures UnderscoresFrom(name, 0, []) == FindUnderscores(name)
  {
    hide Underscore;
    match Underscore(name, 0)
    case None =>
    case Some(i) =>
      assert [] + [i] == [i];
      match Underscore(name, i + 1)
      case None =>
      case Some(j) =>
        assert [i] + [j] == [i, j];
        assert UnderscoresFrom(name, j + 1, [i, j]) == Some((i, j));
  }

  lemma NextUnderscore(name: Bytes, c: nat, found: seq<nat>)
    requires c < |name| && |found| <= 1
    ensures name[c] == '_' ==> UnderscoresFrom(name, c, found) == UnderscoresFrom(name, c + 1, found + [c])
    ensures name[c] != '_' ==> UnderscoresFrom(name, c, found) == UnderscoresFrom(name, c + 1, found)
    ensures name[c] == '_' && |found| == 1 ==> UnderscoresFrom(name, c, found) == Some((found[0], c))
  {
  }

  lemma NoUnderscore(name: Bytes, c: nat, found: seq<nat>)
    requires c >= |name| && |found| <= 1
    ensures UnderscoresFrom(name, c, found) == None
  {
  }

  // ---- The name of a DTB ----

  /** What dtb_get_target leaves in a zeroed buffer; it fails if the strings block lacks the name of the property, but
      not if the root lacks the property, or if that is too long. */
  function TargetText(strings: Bytes, b: Body): Option<Bytes> {
    match Find(strings, TARGET_ID)
    case None => None
    case Some(off) =>
      match FirstProp(b, off)
      case None => Some([])
      case Some(value) => Some(if |value| > 36 then [] else StringAt(value, 0))
  }

  function NameOf(strings: Bytes, b: Body): Option<TargetName> {
    match TargetText(strings, b) case None => None case Some(text) => SplitName(text)
  }

  lemma NamedHasText(strings: Bytes, b: Body)
    requires NameOf(strings, b).Some?
    ensures TargetText(strings, b).Some?
  {
  }

  lemma NothingSplits()
    ensures SplitName([]) == None
  {
  }

  lemma {:induction false} TextLength(s: Bytes, p: nat)
    requires p <= |s|
    ensures |StringAt(s, p)| <= |s| - p
    decreases |s| - p
  {
    if p < |s| && s[p] != NUL {
      TextLength(s, p + 1);
    }
  }

  /** A tree that has a name keeps it when a child is put in, if the name of the property is found where it was. */
  lemma ImplementKeepsName(strings: Bytes, strings': Bytes, b: Body, t: Tree)
    requires NameOf(strings, b).Some? && Find(strings', TARGET_ID) == Find(strings, TARGET_ID)
    ensures NameOf(strings', Implement(b, t)) == NameOf(strings, b)
  {
    hide Find, SplitName, Append, Replace, FirstProp, HasChild;
    if Find(strings, TARGET_ID).Some? {
      ImplementKeepsProp(b, t, Find(strings, TARGET_ID).value);
    }
  }

  /** And when one is taken out. */
  lemma RemoveKeepsName(strings: Bytes, b: Body, name: Bytes)
    requires NameOf(strings, b).Some? && HasChild(b, name)
    ensures NameOf(strings, Remove(b, name)) == NameOf(strings, b)
  {
    NothingSplits();
    hide Find, SplitName, Remove, FirstProp, HasChild;
    var off := Find(strings, TARGET_ID).value;
    if FirstProp(b, off).Some? {
      RemoveKeepsProp(b, name, off);
    }
  }
}
