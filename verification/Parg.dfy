/** Partition arguments name:offset:size:masks and how a definer is parsed from one (src/parg.c). */
module Parg {
  import opened Util
  import opened Edit
  import Table
  import Literal

  /** PARG_DISALLOW, PARG_REQUIRED, PARG_ALLOW_ABSOLUTE and PARG_ALLOW_RELATIVE. */
  datatype Requirement = Requirement(disallowed: bool, required: bool, absolute: bool, relative: bool)

  const ANY := Requirement(false, false, false, false)
  const REQUIRED := Requirement(false, true, false, false)
  const DISALLOWED := Requirement(true, false, false, false)
  const ABSOLUTE := Requirement(false, false, true, false)
  const REQUIRED_ABSOLUTE := Requirement(false, true, true, false)
  const ABSOLUTE_OR_RELATIVE := Requirement(false, false, true, true)

  // ---- The three separators ----

  function Colon(arg: string, from: nat): (r: Option<nat>)
    ensures r.Some? ==> from <= r.value < |arg| && arg[r.value] == ':' && forall k :: from <= k < r.value ==>
              arg[k] != ':'
    ensures r == None ==> forall k :: from <= k < |arg| ==> arg[k] != ':'
    decreases |arg| - from
  {
    if from >= |arg| then None else if arg[from] == ':' then Some(from) else Colon(arg, from + 1)
  }

  datatype Separators = Separators(first: nat, second: nat, third: nat)

  /** The places of the first three colons. */
  function FindSeparators(arg: string): (r: Option<Separators>)
    ensures r.Some? ==> r.value.first < r.value.second < r.value.third < |arg|
  {
    match Colon(arg, 0)
    case None => None
    case Some(a) =>
      match Colon(arg, a + 1)
      case None => None
      case Some(b) =>
        match Colon(arg, b + 1)
        case None => None
        case Some(c) => Some(Separators(a, b, c))
  }

  /** parg_parse_get_seperators. */
  method GetSeparators(arg: string) returns (r: Option<Separators>)
    ensures r == FindSeparators(arg)
  {
    hide FindSeparators, Colon, SeparatorsFrom;
    AllSeparators(arg);
    var found: seq<nat> := [];
    var c := 0;
    while c < |arg|
      invariant 0 <= c <= |arg| && |found| <= 2 && FindSeparators(arg) == SeparatorsFrom(arg, c, found)
    {
      NextSeparator(arg, c, found);
      if arg[c] == ':' {
        found := found + [c];
      }
      if |found| == 3 {
        return Some(Separators(found[0], found[1], found[2]));
      }
      c := c + 1;
    }
    NoSeparator(arg, c, found);
    return None;
  }

  /** The three colons, with some of them found before c. */
  function SeparatorsFrom(arg: string, c: nat, found: seq<nat>): Option<Separators>
    requires |found| <= 3
    decreases 3 - |found|
  {
    if |found| == 3 then Some(Separators(found[0], found[1], found[2]))
    else match Colon(arg, c) case None => None case Some(k) => SeparatorsFrom(arg, k + 1, found + [k])
  }

  lemma AllSeparators(arg: string)
    ensures SeparatorsFrom(arg, 0, []) == FindSeparators(arg)
  {
    hide Colon;
    match Colon(arg, 0)
    case None =>
    case Some(a) =>
      assert [] + [a] == [a];
      match Colon(arg, a + 1)
      case None =>
      case Some(b) =>
        assert [a] + [b] == [a, b];
        match Colon(arg, b + 1)
        case None =>
        case Some(c) =>
          assert [a, b] + [c] == [a, b, c];
          assert SeparatorsFrom(arg, c + 1, [a, b, c]) == Some(Separators(a, b, c));
  }

  lemma NextSeparator(arg: string, c: nat, found: seq<nat>)
    requires c < |arg| && |found| <= 2
    ensures arg[c] == ':' ==> SeparatorsFrom(arg, c, found) == SeparatorsFrom(arg, c + 1, found + [c])
    ensures arg[c] != ':' ==> SeparatorsFrom(arg, c, found) == SeparatorsFrom(arg, c + 1, found)
    ensures arg[c] == ':' && |found| == 2 ==> SeparatorsFrom(arg, c, found) == Some(Separators(found[0], found[1], c))
  {
  }

  lemma NoSeparator(arg: string, c: nat, found: seq<nat>)
    requires c >= |arg| && |found| <= 2
    ensures SeparatorsFrom(arg, c, found) == None
  {
  }

  // ---- Fields ----

  /** PARG_PARSE_RAW_ALLOWANCE_CHECK. */
  predicate Allowed(have: bool, require: Requirement) {
    !(have && require.disallowed) && (have || !require.required)
  }

  /** parg_parse_u64_definer on the text of a field. */
  function ParseU64(text: string, require: Requirement): Result<(u64, bool)> {
    if text != [] && text[0] == '+' && !require.relative then Err(1)
    else if !(text != [] && text[0] == '+') && !require.absolute then Err(2)
    else
      var relative := text != [] && text[0] == '+';
      var number := if relative then text[1..] else text;
      if number != [] then Ok((Literal.HumanToSize(number), relative))
      else if require.required then Err(5)
      else Ok((0, relative))
  }

  function ParseMasks(text: string): u32 {
    Literal.Strtoul(text, 0).0 % U32_LIMIT
  }

  /** What parg_parse_definer makes of the texts between the colons. */
  function FromTexts(a: string, b: string, c: string, d: string, name: Requirement, offset: Requirement,
                     size: Requirement, masks: Requirement): Result<Definer> {
    if !Allowed(a != [], name) || !Allowed(b != [], offset) || !Allowed(c != [], size)
    || !Allowed(d != [], masks) then Err(-2)
    else if |a| > 15 then Err(2)
    else if !Table.LegalName(a) then Err(3)
    else if b != [] && ParseU64(b, offset).Err? then Err(4)
    else if c != [] && ParseU64(c, size).Err? then Err(5)
    else
      var (o, relative) := if b == [] then (None, false)
        else (Some(ParseU64(b, offset).value.0), ParseU64(b, offset).value.1);
      var z := if c == [] then None else Some(ParseU64(c, size).value.0);
      Ok(Definer(a, o, relative, z, if d == [] then None else Some(ParseMasks(d))))
  }

  /** What it makes of an argument. */
  function DefinerOf(arg: string, name: Requirement, offset: Requirement, size: Requirement,
                     masks: Requirement): Result<Definer> {
    if arg == [] then Err(-1)
    else
      match FindSeparators(arg)
      case None => Err(1)
      case Some(s) =>
        FromTexts(arg[..s.first], arg[s.first + 1..s.second], arg[s.second + 1..s.third], arg[s.third + 1..], name,
                  offset, size, masks)
  }

  /** Four texts with colons between them are cut out again at the colons. */
  lemma SlicesOf(arg: string, a: string, b: string, c: string, d: string)
    requires arg == a + ":" + b + ":" + c + ":" + d
    ensures var i, j, k := |a|, |a| + 1 + |b|, |a| + 1 + |b| + 1 + |c|;
            && i < j < k < |arg| && arg[i] == arg[j] == arg[k] == ':'
            && arg[..i] == a && arg[i + 1..j] == b && arg[j + 1..k] == c && arg[k + 1..] == d
  {
    var i, j, k := |a|, |a| + 1 + |b|, |a| + 1 + |b| + 1 + |c|;
    var ab, abc := a + ":" + b, a + ":" + b + ":" + c;
    assert ab[..i] == a && ab[i] == ':' && ab[i + 1..] == b;
    assert abc[..j] == ab && abc[j] == ':' && abc[j + 1..] == c;
    assert arg[..k] == abc && arg[k] == ':' && arg[k + 1..] == d;
    assert arg[..j] == arg[..k][..j] && arg[j + 1..k] == arg[..k][j + 1..];
    assert arg[..i] == arg[..j][..i] && arg[i + 1..j] == arg[..j][i + 1..];
    assert arg[j] == arg[..k][j] && arg[i] == arg[..j][i];
  }

  lemma NoColonIn(arg: string, from: nat, at: nat)
    requires from <= at <= |arg| && ':' !in arg[from..at]
    ensures forall k :: from <= k < at ==> arg[k] != ':'
  {
    forall k | from <= k < at
      ensures arg[k] != ':'
    {
      assert arg[from..at][k - from] == arg[k];
    }
  }

  /** An item with three colons between texts that have none is cut at those colons. */
  lemma SeparatorsOf(a: string, b: string, c: string, d: string)
    requires ':' !in a && ':' !in b && ':' !in c
    ensures var arg := a + ":" + b + ":" + c + ":" + d;
            var s := Separators(|a|, |a| + 1 + |b|, |a| + 1 + |b| + 1 + |c|);
            && FindSeparators(arg) == Some(s)
            && arg[..s.first] == a && arg[s.first + 1..s.second] == b && arg[s.second + 1..s.third] == c
            && arg[s.third + 1..] == d
  {
    var arg := a + ":" + b + ":" + c + ":" + d;
    SlicesOf(arg, a, b, c, d);
    SeparatorsAt(arg, |a|, |a| + 1 + |b|, |a| + 1 + |b| + 1 + |c|);
  }

  lemma SeparatorsAt(arg: string, i: nat, j: nat, k: nat)
    requires i < j < k < |arg| && arg[i] == arg[j] == arg[k] == ':'
    requires ':' !in arg[..i] && ':' !in arg[i + 1..j] && ':' !in arg[j + 1..k]
    ensures FindSeparators(arg) == Some(Separators(i, j, k))
  {
    assert arg[0..i] == arg[..i];
    NoColonIn(arg, 0, i);
    NoColonIn(arg, i + 1, j);
    NoColonIn(arg, j + 1, k);
    FirstColon(arg, 0, i);
    FirstColon(arg, i + 1, j);
    FirstColon(arg, j + 1, k);
  }

  lemma {:induction false} FirstColon(arg: string, from: nat, at: nat)
    requires from <= at < |arg| && arg[at] == ':' && forall k :: from <= k < at ==> arg[k] != ':'
    ensures Colon(arg, from) == Some(at)
  {
    var r := Colon(arg, from);
    assert arg[r.value] == ':';
  }

  // ---- What an argument means ----

  /** The argument is these four fields; only the last may have colons. */
  predicate Fields(arg: string, a: string, b: string, c: string, d: string) {
    arg == a + ":" + b + ":" + c + ":" + d && ':' !in a && ':' !in b && ':' !in c
  }

  /** A field is there if it must be, and is not if it must not. */
  predicate Meets(text: string, require: Requirement) {
    if text == "" then !require.required else !require.disallowed
  }

  /** A number after `+` is relative, any other absolute; a lone `+` is a relative 0, but no number where one is
      required. */
  predicate NumberMeets(text: string, require: Requirement) {
    text == "" || if text[0] == '+' then require.relative && (text == "+" ==> !require.required) else require.absolute
  }

  predicate Present(a: string, b: string, c: string, d: string, name: Requirement, offset: Requirement,
                    size: Requirement, masks: Requirement) {
    Meets(a, name) && Meets(b, offset) && Meets(c, size) && Meets(d, masks)
  }

  predicate NameMeets(text: string) {
    |text| <= 15 && Table.LegalName(text)
  }

  predicate Accepted(a: string, b: string, c: string, d: string, name: Requirement, offset: Requirement,
                     size: Requirement, masks: Requirement) {
    Present(a, b, c, d, name, offset, size, masks) && NameMeets(a) && NumberMeets(b, offset) && NumberMeets(c, size)
  }

  ghost predicate IsDefiner(arg: string, name: Requirement, offset: Requirement, size: Requirement,
                            masks: Requirement) {
    exists a, b, c, d :: Fields(arg, a, b, c, d) && Accepted(a, b, c, d, name, offset, size, masks)
  }

  predicate IsRelative(text: string) {
    text != "" && text[0] == '+'
  }

  /** The number that a field stands for, if it is there. */
  function NumberIn(text: string): Option<u64> {
    if text == "" then None
    else if text == "+" then Some(0)
    else Some(Literal.HumanToSize(if text[0] == '+' then text[1..] else text))
  }

  /** What an accepted argument defines. */
  predicate Defines(definer: Definer, a: string, b: string, c: string, d: string) {
    && definer.name == a
    && definer.offset == NumberIn(b) && definer.relative == IsRelative(b)
    && definer.size == NumberIn(c)
    && definer.masks == if d == "" then None else Some(Literal.Strtoul(d, 0).0 % U32_LIMIT)
  }

  /** The first thing that is wrong with the fields, in the order in which they are looked at. */
  predicate Complaint(code: int, a: string, b: string, c: string, d: string, name: Requirement, offset: Requirement,
                      size: Requirement, masks: Requirement) {
    if !Present(a, b, c, d, name, offset, size, masks) then code == -2
    else if |a| > 15 then code == 2
    else if !Table.LegalName(a) then code == 3
    else if !NumberMeets(b, offset) then code == 4
    else code == 5 && !NumberMeets(c, size)
  }

  /** The one way to cut the argument into fields decides what comes out of it. */
  ghost predicate Meaning(arg: string, name: Requirement, offset: Requirement, size: Requirement, masks: Requirement,
                          r: Result<Definer>) {
    && (r == Err(-1) <==> arg == "")
    && (r == Err(1) <==> arg != "" && !exists a, b, c, d :: Fields(arg, a, b, c, d))
    && forall a, b, c, d :: Fields(arg, a, b, c, d) ==>
         if Accepted(a, b, c, d, name, offset, size, masks) then r.Ok? && Defines(r.value, a, b, c, d)
         else r.Err? && Complaint(r.code, a, b, c, d, name, offset, size, masks)
  }

  /** Cutting at the first three colons gives fields. */
  lemma CutAtColons(arg: string)
    requires FindSeparators(arg).Some?
    ensures var s := FindSeparators(arg).value;
            Fields(arg, arg[..s.first], arg[s.first + 1..s.second], arg[s.second + 1..s.third], arg[s.third + 1..])
  {
    var s := FindSeparators(arg).value;
    NoColon(arg, 0, s.first);
    NoColon(arg, s.first + 1, s.second);
    NoColon(arg, s.second + 1, s.third);
    assert arg[0..s.first] == arg[..s.first];
    hide FindSeparators, Colon;
    Joined(arg, s.first, s.second, s.third);
  }

  lemma Joined(arg: string, i: nat, j: nat, k: nat)
    requires i < j < k < |arg| && arg[i] == arg[j] == arg[k] == ':'
    ensures arg == arg[..i] + ":" + arg[i + 1..j] + ":" + arg[j + 1..k] + ":" + arg[k + 1..]
  {
    assert arg[..j] == arg[..i] + ":" + arg[i + 1..j];
    assert arg[..k] == arg[..j] + ":" + arg[j + 1..k];
    assert arg == arg[..k] + ":" + arg[k + 1..];
  }

  lemma NoColon(arg: string, from: nat, at: nat)
    requires from <= at < |arg| && Colon(arg, from) == Some(at)
    ensures ':' !in arg[from..at] && arg[at] == ':'
  {
    forall k | 0 <= k < |arg[from..at]|
      ensures arg[from..at][k] != ':'
    {
      assert arg[from..at][k] == arg[from + k];
    }
  }

  lemma NumberParses(text: string, require: Requirement)
    requires text != ""
    ensures ParseU64(text, require).Ok? <==> NumberMeets(text, require)
    ensures ParseU64(text, require).Ok? ==> NumberIn(text) == Some(ParseU64(text, require).value.0)
    ensures ParseU64(text, require).Ok? ==> IsRelative(text) == ParseU64(text, require).value.1
  {
    hide Literal.HumanToSize;
  }

  lemma NumberAbsent(require: Requirement)
    ensures NumberIn("") == None && !IsRelative("") && NumberMeets("", require)
  {
  }

  lemma AllowedMeets(text: string, require: Requirement)
    ensures Allowed(text != [], require) <==> Meets(text, require)
  {
  }

  lemma TextsMean(a: string, b: string, c: string, d: string, name: Requirement, offset: Requirement, size: Requirement,
                  masks: Requirement)
    ensures var r := FromTexts(a, b, c, d, name, offset, size, masks);
            if Accepted(a, b, c, d, name, offset, size, masks) then r.Ok? && Defines(r.value, a, b, c, d)
            else r.Err? && Complaint(r.code, a, b, c, d, name, offset, size, masks)
  {
    NumberAbsent(offset);
    NumberAbsent(size);
    if b != "" {
      NumberParses(b, offset);
    }
    if c != "" {
      NumberParses(c, size);
    }
    hide ParseU64, NumberMeets, NumberIn, IsRelative, Table.LegalName, Literal.Strtoul, Literal.HumanToSize;
    AllowedMeets(a, name);
    AllowedMeets(b, offset);
    AllowedMeets(c, size);
    AllowedMeets(d, masks);
    hide Allowed, Meets;
  }

  lemma FieldsAreTexts(arg: string, a: string, b: string, c: string, d: string, name: Requirement, offset: Requirement,
                       size: Requirement, masks: Requirement)
    requires Fields(arg, a, b, c, d)
    ensures DefinerOf(arg, name, offset, size, masks) == FromTexts(a, b, c, d, name, offset, size, masks)
    ensures arg != "" && FindSeparators(arg).Some?
  {
    hide FromTexts, FindSeparators;
    SeparatorsOf(a, b, c, d);
  }

  /** Which arguments are accepted, and what comes out of them. */
  lemma DefinerMeans(arg: string, name: Requirement, offset: Requirement, size: Requirement, masks: Requirement)
    ensures Meaning(arg, name, offset, size, masks, DefinerOf(arg, name, offset, size, masks))
    ensures DefinerOf(arg, name, offset, size, masks).Ok? <==> IsDefiner(arg, name, offset, size, masks)
  {
    hide FromTexts, Fields, Accepted, Defines, Complaint, FindSeparators;
    if FindSeparators(arg).Some? {
      CutAtColons(arg);
    }
    forall a, b, c, d | Fields(arg, a, b, c, d)
      ensures DefinerOf(arg, name, offset, size, masks) == FromTexts(a, b, c, d, name, offset, size, masks)
      ensures var r := FromTexts(a, b, c, d, name, offset, size, masks);
              if Accepted(a, b, c, d, name, offset, size, masks) then r.Ok? && Defines(r.value, a, b, c, d)
              else r.Err? && Complaint(r.code, a, b, c, d, name, offset, size, masks)
      ensures arg != "" && FindSeparators(arg).Some?
    {
      TextsMean(a, b, c, d, name, offset, size, masks);
      FieldsAreTexts(arg, a, b, c, d, name, offset, size, masks);
    }
    ErrorCodes(arg, name, offset, size, masks);
  }

  lemma ErrorCodes(arg: string, name: Requirement, offset: Requirement, size: Requirement, masks: Requirement)
    ensures DefinerOf(arg, name, offset, size, masks) == Err(-1) <==> arg == ""
    ensures DefinerOf(arg, name, offset, size, masks) == Err(1) <==> arg != "" && FindSeparators(arg) == None
  {
    hide FindSeparators;
  }

  // ---- Parsing ----

  /** parg_parse_definer: fill the definer field by field. */
  method ParseDefiner(arg: string, requireName: Requirement, requireOffset: Requirement, requireSize: Requirement,
                      requireMasks: Requirement)
    returns (r: int, definer: Definer)
    ensures var result := if r == 0 then Ok(definer) else Err(r);
            && result == DefinerOf(arg, requireName, requireOffset, requireSize, requireMasks)
            && Meaning(arg, requireName, requireOffset, requireSize, requireMasks, result)
    ensures r == 0 <==> IsDefiner(arg, requireName, requireOffset, requireSize, requireMasks)
  {
    DefinerMeans(arg, requireName, requireOffset, requireSize, requireMasks);
    hide ParseU64, ParseMasks, FindSeparators, Meaning, IsDefiner, Allowed, Colon;
    definer := Definer("", None, false, None, None);
    if arg == [] {
      return -1, definer;
    }
    var separators := GetSeparators(arg);
    if separators == None {
      return 1, definer;
    }
    var s := separators.value;
    var haveName := s.first != 0;
    if !Allowed(haveName, requireName) {
      return -2, definer;
    }
    var haveOffset := s.second - s.first > 1;
    if !Allowed(haveOffset, requireOffset) {
      return -2, definer;
    }
    var haveSize := s.third - s.second > 1;
    if !Allowed(haveSize, requireSize) {
      return -2, definer;
    }
    var haveMasks := s.third + 1 < |arg|;
    if !Allowed(haveMasks, requireMasks) {
      return -2, definer;
    }
    if haveName {
      if s.first > 15 {
        return 2, definer;
      }
      var illegal := Table.CountIllegal(arg[..s.first]);
      if illegal > 0 {
        return 3, definer;
      }
      definer := definer.(name := arg[..s.first]);
    }
    if haveOffset {
      var value := ParseU64(arg[s.first + 1..s.second], requireOffset);
      if value.Err? {
        return 4, definer;
      }
      definer := definer.(offset := Some(value.value.0), relative := value.value.1);
    }
    if haveSize {
      var value := ParseU64(arg[s.second + 1..s.third], requireSize);
      if value.Err? {
        return 5, definer;
      }
      definer := definer.(size := Some(value.value.0));
    }
    if haveMasks {
      definer := definer.(masks := Some(ParseMasks(arg[s.third + 1..])));
    }
    return 0, definer;
  }
}
