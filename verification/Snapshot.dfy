/** Snapshots of a table and cloning a table from one (src/ept.c). */
module Snapshot {
  import opened Util
  import opened Ept
  import opened Table
  import opened Literal
  import opened Parg
  import Edit

  // ---- Printing ----

  function DecimalItem(p: Partition): string {
    p.name + ":" + Dec(p.offset) + ":" + Dec(p.size) + ":" + Dec(p.masks)
  }

  function HexItem(p: Partition): string {
    p.name + ":" + ("0x" + Hex(p.offset)) + ":" + ("0x" + Hex(p.size)) + ":" + Dec(p.masks)
  }

  /** Offset and size each in the largest unit that divides them, up to the rule for 1024. */
  ghost predicate IsHumanItem(p: Partition, item: string) {
    exists o: u64, os: char, oi: nat, z: u64, zs: char, zi: nat ::
      && IsHuman(p.offset, o, os, oi) && IsHuman(p.size, z, zs, zi)
      && item == p.name + ":" + (Dec(o) + [os]) + ":" + (Dec(z) + [zs]) + ":" + Dec(p.masks)
  }


  /** Items, each but the last of `count` followed by a space. */
  function Spaced(items: seq<string>, count: nat): string
    requires |items| <= count
  {
    if items == [] then []
    else
      var n := |items| - 1;
      Spaced(items[..n], count) + items[n] + if n + 1 != count then " " else []
  }

  lemma SpacedMore(items: seq<string>, item: string, count: nat)
    requires |items| < count
    ensures Spaced(items + [item], count)
            == Spaced(items, count) + item + if |items| + 1 != count then " " else []
  {
    assert (items + [item])[..|items|] == items;
  }

  /** The words between spaces. */
  function Words(s: string): (r: seq<string>)
    ensures r != []
  {
    if s == [] then [[]]
    else
      var words := Words(s[1..]);
      if s[0] == ' ' then [[]] + words else [[s[0]] + words[0]] + words[1..]
  }

  lemma WordsOf(s: string)
    requires s != []
    ensures Words(s) == if s[0] == ' ' then [[]] + Words(s[1..]) else [[s[0]] + Words(s[1..])[0]] + Words(s[1..])[1..]
  {
  }

  lemma {:induction false} FirstWord(item: string, rest: string)
    requires forall k :: 0 <= k < |item| ==> item[k] != ' '
    ensures Words(item + rest) == [item + Words(rest)[0]] + Words(rest)[1..]
    decreases |item|
  {
    hide Words;
    var w := Words(rest);
    if item == [] {
      assert item + rest == rest && item + w[0] == w[0];
    } else {
      FirstWord(item[1..], rest);
      WordsOf(item + rest);
      assert (item + rest)[0] == item[0] && (item + rest)[1..] == item[1..] + rest;
      assert [item[0]] + (item[1..] + w[0]) == item + w[0];
    }
  }

  lemma WordAndRest(item: string, rest: string)
    requires forall k :: 0 <= k < |item| ==> item[k] != ' '
    ensures Words(item + " " + rest) == [item] + Words(rest)
  {
    hide Words;
    var tail := " " + rest;
    assert item + " " + rest == item + tail;
    FirstWord(item, tail);
    WordsOf(tail);
    assert tail[1..] == rest && item + [] == item;
  }

  predicate OneWord(item: string) {
    forall k :: 0 <= k < |item| ==> item[k] != ' '
  }

  lemma {:induction false} SpacedThen(items: seq<string>, count: nat, rest: string)
    requires |items| < count && forall i :: 0 <= i < |items| ==> OneWord(items[i])
    ensures Words(Spaced(items, count) + rest) == items + Words(rest)
    decreases |items|
  {
    hide Words;
    if items == [] {
      assert Spaced(items, count) + rest == rest && items + Words(rest) == Words(rest);
    } else {
      var n := |items| - 1;
      SpacedThen(items[..n], count, items[n] + " " + rest);
      WordAndRest(items[n], rest);
      assert Spaced(items, count) + rest == Spaced(items[..n], count) + (items[n] + " " + rest);
      assert items == items[..n] + [items[n]];
    }
  }

  /** Splitting what a snapshot prints at its spaces gives the items back. */
  lemma SpacedSplits(items: seq<string>)
    requires items != [] && forall i :: 0 <= i < |items| ==> OneWord(items[i])
    ensures Words(Spaced(items, |items|)) == items
  {
    var init, last := items[..|items| - 1], items[|items| - 1];
    SpacedPrefix(items, |items|);
    LastWord(last);
    hide Words, Spaced, OneWord;
    SpacedThen(init, |items|, last);
    LastApart(items, init, last);
  }

  lemma LastApart(items: seq<string>, init: seq<string>, last: string)
    requires items != [] && init == items[..|items| - 1] && last == items[|items| - 1]
    ensures init + [last] == items
  {
  }

  lemma LastWord(item: string)
    requires OneWord(item)
    ensures Words(item) == [item]
  {
    FirstWord(item, []);
    assert item + [] == item && Words([]) == [[]];
  }

  lemma SpacedPrefix(items: seq<string>, count: nat)
    requires |items| == count > 0
    ensures Spaced(items, count) == Spaced(items[..count - 1], count) + items[count - 1]
  {
  }

  /** ept_snapshot_decimal. */
  method SnapshotDecimal(table: EptTable) returns (out: string, items: seq<string>)
    requires table.Valid()
    ensures |items| == table.count && out == Spaced(items, |items|) + "\n"
    ensures forall i :: 0 <= i < |items| ==> items[i] == DecimalItem(table.Contents()[i])
  {
    hide DecimalItem;
    out, items := [], [];
    for i := 0 to table.count
      invariant |items| == i && out == Spaced(items, table.count)
      invariant forall k :: 0 <= k < i ==> items[k] == DecimalItem(table.Contents()[k])
    {
      var item := DecimalItem(table.slots[i]);
      SpacedMore(items, item, table.count);
      out := out + item + if i + 1 != table.count then " " else [];
      items := items + [item];
    }
    out := out + "\n";
  }

  /** ept_snapshot_hex. */
  method SnapshotHex(table: EptTable) returns (out: string, items: seq<string>)
    requires table.Valid()
    ensures |items| == table.count && out == Spaced(items, |items|) + "\n"
    ensures forall i :: 0 <= i < |items| ==> items[i] == HexItem(table.Contents()[i])
  {
    hide HexItem;
    out, items := [], [];
    for i := 0 to table.count
      invariant |items| == i && out == Spaced(items, table.count)
      invariant forall k :: 0 <= k < i ==> items[k] == HexItem(table.Contents()[k])
    {
      var item := HexItem(table.slots[i]);
      SpacedMore(items, item, table.count);
      out := out + item + if i + 1 != table.count then " " else [];
      items := items + [item];
    }
    out := out + "\n";
  }

  method HumanItem(p: Partition) returns (item: string)
    ensures IsHumanItem(p, item)
  {
    hide IsHuman, Dec;
    var o, os, oi := SizeToHumanInt(p.offset);
    var z, zs, zi := SizeToHumanInt(p.size);
    item := p.name + ":" + (Dec(o) + [os]) + ":" + (Dec(z) + [zs]) + ":" + Dec(p.masks);
  }

  /** ept_snapshot_human. */
  method SnapshotHuman(table: EptTable) returns (out: string, items: seq<string>)
    requires table.Valid()
    ensures |items| == table.count && out == Spaced(items, |items|) + "\n"
    ensures forall i :: 0 <= i < |items| ==> IsHumanItem(table.Contents()[i], items[i])
  {
    hide IsHumanItem;
    out, items := [], [];
    for i := 0 to table.count
      invariant |items| == i && out == Spaced(items, table.count)
      invariant forall k :: 0 <= k < i ==> IsHumanItem(table.Contents()[k], items[k])
    {
      var item := HumanItem(table.slots[i]);
      SpacedMore(items, item, table.count);
      out := out + item + if i + 1 != table.count then " " else [];
      items := items + [item];
    }
    out := out + "\n";
  }

  // ---- Cloning ----

  /** PARG_PARSE_DEFINER_ECLONE_MODE. */
  function CloneDefiner(arg: string): Result<Edit.Definer> {
    DefinerOf(arg, REQUIRED, REQUIRED_ABSOLUTE, REQUIRED_ABSOLUTE, REQUIRED)
  }

  /** The partition made of a definer. */
  function ClonedPart(d: Edit.Definer, capacity: u64): Partition
    requires d.offset.Some? && d.size.Some? && d.masks.Some?
  {
    Partition(d.name, d.offset.value, Edit.SaneSize(d.offset.value, d.size.value, capacity), d.masks.value)
  }

  lemma CloneDefinerIsFull(arg: string)
    ensures var d := CloneDefiner(arg); d.Ok? ==> d.value.offset.Some? && d.value.size.Some? && d.value.masks.Some?
  {
    hide ParseU64, ParseMasks, FindSeparators;
  }

  ghost predicate AllParse(argv: seq<string>) {
    forall i :: 0 <= i < |argv| ==> CloneDefiner(argv[i]).Ok?
  }

  function ClonedAt(arg: string, capacity: u64): Partition
    requires CloneDefiner(arg).Ok?
  {
    CloneDefinerIsFull(arg);
    ClonedPart(CloneDefiner(arg).value, capacity)
  }

  function ClonedParts(argv: seq<string>, capacity: u64): seq<Partition>
    requires forall i :: 0 <= i < |argv| ==> CloneDefiner(argv[i]).Ok?
  {
    seq(|argv|, i requires 0 <= i < |argv| => ClonedAt(argv[i], capacity))
  }

  /** parg_parse_eclone_mode. */
  method ParseCloneMode(argv: seq<string>) returns (ok: bool, definers: seq<Edit.Definer>)
    ensures ok <==> AllParse(argv)
    ensures ok ==> |definers| == |argv| && forall i :: 0 <= i < |argv| ==> CloneDefiner(argv[i]) == Ok(definers[i])
  {
    hide DefinerOf;
    definers := [];
    for i := 0 to |argv|
      invariant |definers| == i && forall k :: 0 <= k < i ==> CloneDefiner(argv[k]) == Ok(definers[k])
    {
      var r, definer := ParseDefiner(argv[i], REQUIRED, REQUIRED_ABSOLUTE, REQUIRED_ABSOLUTE, REQUIRED);
      if r != 0 {
        assert CloneDefiner(argv[i]).Err?;
        return false, definers;
      }
      definers := definers + [definer];
    }
    return true, definers;
  }

  /** ept_eclone_parse. */
  method CloneTable(table: EptTable, argv: seq<string>, capacity: u64) returns (r: int)
    requires table.Valid()
    modifies table`count, table.slots
    ensures table.Valid()
    ensures r == 0 <==>
              0 < |argv| <= MAX_PARTITIONS_COUNT && capacity > 0 && AllParse(argv)
              && Capacity(ClonedParts(argv, capacity)) <= capacity
    ensures r == 0 ==> table.Contents() == ClonedParts(argv, capacity)
  {
    hide CloneDefiner, Edit.SaneSize;
    if |argv| == 0 || |argv| > MAX_PARTITIONS_COUNT || capacity == 0 {
      return -1;
    }
    var ok, definers := ParseCloneMode(argv);
    if !ok {
      return 1;
    }
    table.count := |definers|;
    for i := 0 to table.count
      invariant table.count == |argv| && forall k :: 0 <= k < i ==> table.slots[k] == ClonedAt(argv[k], capacity)
    {
      CloneDefinerIsFull(argv[i]);
      var d := definers[i];
      var size := d.size.value;
      var end := Add64(d.offset.value, size);
      if end > capacity {
        size := Sub64(size, Sub64(end, capacity));
      }
      assert size == Edit.SaneSize(d.offset.value, d.size.value, capacity) by {
        Shrunk(d.offset.value, d.size.value, capacity);
      }
      table.slots[i] := Partition(d.name, d.offset.value, size, d.masks.value);
    }
    assert table.Contents() == ClonedParts(argv, capacity);
    var capacity' := GetCapacity(table.Contents());
    return if capacity' > capacity then 2 else 0;
  }

  lemma Shrunk(offset: u64, size: u64, capacity: u64)
    ensures Edit.SaneSize(offset, size, capacity) ==
              if Add64(offset, size) > capacity then Sub64(size, Sub64(Add64(offset, size), capacity)) else size
  {
  }

  // ---- A snapshot clones the table ----

  /** A text that stands for n as a field of an argument. */
  predicate Prints(text: string, n: u64) {
    text != [] && text[0] != '+' && ':' !in text && HumanToSize(text) == n
  }

  predicate IsNumeral(s: string) {
    forall k :: 0 <= k < |s| ==> '0' <= s[k] <= '9' || 'a' <= s[k] <= 'f'
  }

  lemma {:induction false} DecIsNumeral(n: nat)
    ensures IsNumeral(Dec(n)) && '0' <= Dec(n)[0] <= '9'
  {
    if n >= 10 {
      DecIsNumeral(n / 10);
    }
  }

  lemma {:induction false} HexIsNumeral(n: nat)
    ensures IsNumeral(Hex(n))
  {
    if n >= 16 {
      HexIsNumeral(n / 16);
    }
  }

  lemma DecPrints(n: u64)
    ensures Prints(Dec(n), n)
  {
    hide HumanToSize, Dec;
    DecIsNumeral(n);
    DecIsSize(n);
  }

  lemma HexPrints(n: u64)
    ensures Prints("0x" + Hex(n), n)
  {
    hide HumanToSize, Hex;
    HexIsNumeral(n);
    HexIsSize(n);
  }

  lemma HumanPrints(size: u64, human: u64, suffix: char, i: nat)
    requires IsHuman(size, human, suffix, i)
    ensures Prints(Dec(human) + [suffix], size)
  {
    hide HumanToSize, Dec, Kilo;
    DecIsNumeral(human);
    HumanReadsBack(size, human, suffix, i);
  }

  /** A partition whose name survives the argument syntax. */
  predicate Printable(p: Partition) {
    0 < |p.name| <= 15 && LegalName(p.name)
  }

  lemma ItemParses(p: Partition, o: string, z: string)
    requires Printable(p) && Prints(o, p.offset) && Prints(z, p.size)
    ensures CloneDefiner(p.name + ":" + o + ":" + z + ":" + Dec(p.masks))
              == Ok(Edit.Definer(p.name, Some(p.offset), false, Some(p.size), Some(p.masks)))
  {
    hide HumanToSize, Dec, LegalName, FindSeparators, Strtoul;
    var arg := p.name + ":" + o + ":" + z + ":" + Dec(p.masks);
    NameHasNoColon(p.name);
    SeparatorsOf(p.name, o, z, Dec(p.masks));
    DecReadsBack(p.masks, [], 0);
    assert Dec(p.masks) + [] == Dec(p.masks);
    assert ParseMasks(Dec(p.masks)) == p.masks;
  }

  lemma NameHasNoColon(name: string)
    requires LegalName(name)
    ensures ':' !in name
  {
    forall k | 0 <= k < |name|
      ensures name[k] != ':'
    {
      assert LegalChar(name[k]);
    }
  }

  /** An item in one of the three forms. */
  ghost predicate IsItem(p: Partition, item: string) {
    item == DecimalItem(p) || item == HexItem(p) || IsHumanItem(p, item)
  }

  lemma AnyItemParses(p: Partition, item: string)
    requires Printable(p) && IsItem(p, item)
    ensures CloneDefiner(item) == Ok(Edit.Definer(p.name, Some(p.offset), false, Some(p.size), Some(p.masks)))
  {
    hide CloneDefiner, Prints, Dec, Hex, IsHuman, Printable;
    if item == DecimalItem(p) {
      DecPrints(p.offset);
      DecPrints(p.size);
      ItemParses(p, Dec(p.offset), Dec(p.size));
    } else if item == HexItem(p) {
      HexPrints(p.offset);
      HexPrints(p.size);
      ItemParses(p, "0x" + Hex(p.offset), "0x" + Hex(p.size));
    } else {
      var o: u64, os: char, oi: nat, z: u64, zs: char, zi: nat :|
        && IsHuman(p.offset, o, os, oi) && IsHuman(p.size, z, zs, zi)
        && item == p.name + ":" + (Dec(o) + [os]) + ":" + (Dec(z) + [zs]) + ":" + Dec(p.masks);
      HumanPrints(p.offset, o, os, oi);
      HumanPrints(p.size, z, zs, zi);
      ItemParses(p, Dec(o) + [os], Dec(z) + [zs]);
    }
  }

  /** Cloning a snapshot reproduces the table: names, offsets, sizes and masks, for all 64-bit values, whatever form
      each item is printed in. */
  lemma SnapshotClones(t: seq<Partition>, items: seq<string>, capacity: u64)
    requires |items| == |t| && EndsWithin(t, capacity)
    requires forall i :: 0 <= i < |t| ==> Printable(t[i]) && IsItem(t[i], items[i])
    ensures AllParse(items) && ClonedParts(items, capacity) == t && Capacity(ClonedParts(items, capacity)) <= capacity
  {
    hide CloneDefiner, Printable, IsItem;
    forall i | 0 <= i < |t|
      ensures CloneDefiner(items[i]).Ok? && ClonedAt(items[i], capacity) == t[i]
    {
      AnyItemParses(t[i], items[i]);
      assert t[i].End() <= capacity;
    }
    CapacityIsGreatestEnd(t);
    assert ClonedParts(items, capacity) == t;
  }

  lemma {:induction false} DecIsOneWord(n: nat)
    ensures OneWord(Dec(n))
  {
    if n >= 10 {
      DecIsOneWord(n / 10);
    }
  }

  lemma {:induction false} HexIsOneWord(n: nat)
    ensures OneWord(Hex(n))
  {
    if n >= 16 {
      HexIsOneWord(n / 16);
    }
  }

  lemma OneWordConcat(a: string, b: string)
    requires OneWord(a) && OneWord(b)
    ensures OneWord(a + b)
  {
  }

  lemma FieldsAreOneWord(name: string, o: string, z: string, masks: string)
    requires OneWord(name) && OneWord(o) && OneWord(z) && OneWord(masks)
    ensures OneWord(name + ":" + o + ":" + z + ":" + masks)
  {
    assert OneWord(":");
    hide OneWord;
    OneWordConcat(name, ":");
    OneWordConcat(name + ":", o);
    OneWordConcat(name + ":" + o, ":");
    OneWordConcat(name + ":" + o + ":", z);
    OneWordConcat(name + ":" + o + ":" + z, ":");
    OneWordConcat(name + ":" + o + ":" + z + ":", masks);
  }

  lemma HumanIsOneWord(size: u64, h: u64, suffix: char, i: nat)
    requires IsHuman(size, h, suffix, i)
    ensures OneWord(Dec(h) + [suffix])
  {
    hide Kilo;
    DecIsOneWord(h);
    assert forall k :: 0 <= k < |SUFFIXES| ==> SUFFIXES[k] in {'B', 'K', 'M', 'G', 'T', 'P', 'E', 'Z', 'Y'};
  }

  lemma ItemIsOneWord(p: Partition, item: string)
    requires Printable(p) && IsItem(p, item)
    ensures OneWord(item)
  {
    LegalIsOneWord(p.name);
    DecIsOneWord(p.offset);
    DecIsOneWord(p.size);
    DecIsOneWord(p.masks);
    HexIsOneWord(p.offset);
    HexIsOneWord(p.size);
    assert OneWord("0x");
    OneWordConcat("0x", Hex(p.offset));
    OneWordConcat("0x", Hex(p.size));
    hide OneWord, Dec, Hex, IsHuman;
    if item == DecimalItem(p) {
      FieldsAreOneWord(p.name, Dec(p.offset), Dec(p.size), Dec(p.masks));
    } else if item == HexItem(p) {
      FieldsAreOneWord(p.name, "0x" + Hex(p.offset), "0x" + Hex(p.size), Dec(p.masks));
    } else {
      var o: u64, os: char, oi: nat, z: u64, zs: char, zi: nat :|
        && IsHuman(p.offset, o, os, oi) && IsHuman(p.size, z, zs, zi)
        && item == p.name + ":" + (Dec(o) + [os]) + ":" + (Dec(z) + [zs]) + ":" + Dec(p.masks);
      HumanIsOneWord(p.offset, o, os, oi);
      HumanIsOneWord(p.size, z, zs, zi);
      FieldsAreOneWord(p.name, Dec(o) + [os], Dec(z) + [zs], Dec(p.masks));
    }
  }

  lemma LegalIsOneWord(name: string)
    requires LegalName(name)
    ensures OneWord(name)
  {
    forall k | 0 <= k < |name|
      ensures name[k] != ' '
    {
      assert LegalChar(name[k]);
    }
  }

  /** The line that a snapshot prints, cut at its spaces, is arguments that clone the table. */
  lemma PrintedLineClones(t: seq<Partition>, items: seq<string>, capacity: u64)
    requires |items| == |t| > 0 && EndsWithin(t, capacity)
    requires forall i :: 0 <= i < |t| ==> Printable(t[i]) && IsItem(t[i], items[i])
    ensures Words(Spaced(items, |items|)) == items && AllParse(items) && ClonedParts(items, capacity) == t
  {
    hide CloneDefiner, Printable, IsItem, OneWord, Words, Spaced, AllParse, ClonedParts;
    forall i | 0 <= i < |items|
      ensures OneWord(items[i])
    {
      ItemIsOneWord(t[i], items[i]);
    }
    SpacedSplits(items);
    SnapshotClones(t, items, capacity);
  }

  // ---- The same for the partitions of a device tree ----

  /** An item of dtb_snapshot: no offset, and -1 for the size that asks for the rest. */
  ghost predicate IsDtsItem(p: DtsPart, item: string) {
    exists z: string :: IsDtsSize(p.size, z) && item == p.name + ":" + "" + ":" + z + ":" + Dec(p.mask)
  }

  ghost predicate IsDtsSize(size: u64, z: string) {
    if size == AUTOFILL then z == "-1"
    else
      || z == Dec(size) || z == "0x" + Hex(size)
      || exists h: u64, suffix: char, i: nat :: IsHuman(size, h, suffix, i) && z == Dec(h) + [suffix]
  }

  datatype Form = Decimal | Hexadecimal | HumanReadable

  /** The size in an item of dtb_snapshot_decimal, dtb_snapshot_hex and dtb_snapshot_human. */
  method DtsSizeText(size: u64, form: Form) returns (z: string)
    ensures IsDtsSize(size, z)
  {
    hide IsHuman, Dec, Hex;
    if size == AUTOFILL {
      return "-1";
    }
    match form {
      case Decimal => z := Dec(size);
      case Hexadecimal => z := "0x" + Hex(size);
      case HumanReadable =>
        var h, suffix, i := SizeToHumanInt(size);
        z := Dec(h) + [suffix];
    }
  }

  /** dtb_snapshot_decimal, dtb_snapshot_hex and dtb_snapshot_human. */
  method SnapshotDts(parts: seq<DtsPart>, form: Form) returns (out: string, items: seq<string>)
    ensures |items| == |parts| && out == Spaced(items, |items|) + "\n"
    ensures forall i :: 0 <= i < |items| ==> IsDtsItem(parts[i], items[i])
  {
    hide IsDtsSize, Dec;
    out, items := [], [];
    for i := 0 to |parts|
      invariant |items| == i && out == Spaced(items, |parts|)
      invariant forall k :: 0 <= k < i ==> IsDtsItem(parts[k], items[k])
    {
      var z := DtsSizeText(parts[i].size, form);
      var item := parts[i].name + ":" + "" + ":" + z + ":" + Dec(parts[i].mask);
      SpacedMore(items, item, |parts|);
      out := out + item + if i + 1 != |parts| then " " else [];
      items := items + [item];
    }
    out := out + "\n";
  }

  /** PARG_PARSE_DEFINER_DCLONE_MODE. */
  function DtsDefiner(arg: string): Result<Edit.Definer> {
    DefinerOf(arg, REQUIRED, DISALLOWED, REQUIRED_ABSOLUTE, REQUIRED)
  }

  lemma DtsDefinerIsFull(arg: string)
    ensures var d := DtsDefiner(arg); d.Ok? ==> d.value.size.Some? && d.value.masks.Some?
  {
    hide ParseU64, ParseMasks, FindSeparators;
  }

  function DtsPartOf(arg: string): DtsPart
    requires DtsDefiner(arg).Ok?
  {
    DtsDefinerIsFull(arg);
    var d := DtsDefiner(arg).value;
    DtsPart(d.name, d.size.value, d.masks.value)
  }

  /** dts_dclone_parse. */
  method CloneDts(argv: seq<string>) returns (r: int, parts: seq<DtsPart>)
    ensures r == 0 <==> 0 < |argv| < MAX_PARTITIONS_COUNT && forall i :: 0 <= i < |argv| ==> DtsDefiner(argv[i]).Ok?
    ensures r == 0 ==> |parts| == |argv| && forall i :: 0 <= i < |argv| ==> parts[i] == DtsPartOf(argv[i])
  {
    hide DefinerOf;
    parts := [];
    if |argv| >= MAX_PARTITIONS_COUNT {
      return -1, parts;
    }
    for i := 0 to |argv|
      invariant |parts| == i && forall k :: 0 <= k < i ==> DtsDefiner(argv[k]).Ok? && parts[k] == DtsPartOf(argv[k])
    {
      var bad, d := ParseDefiner(argv[i], REQUIRED, DISALLOWED, REQUIRED_ABSOLUTE, REQUIRED);
      if bad != 0 {
        assert DtsDefiner(argv[i]).Err?;
        return 1, parts;
      }
      DtsDefinerIsFull(argv[i]);
      parts := parts + [DtsPart(d.name, d.size.value, d.masks.value)];
    }
    return if parts == [] then 1 else 0, parts;
  }

  lemma MinusOnePrints()
    ensures Prints("-1", AUTOFILL)
  {
    var t := "-1";
    assert t[1..] == "1" && "1"[1..] == "";
    assert Scan("", 10, 1) == (1, "");
    assert Scan("1", 10, 0) == (1, "");
    assert SkipSpaces(t) == t;
    assert Strtoul(t, 0) == (AUTOFILL, "");
  }

  lemma DtsSizePrints(size: u64, z: string)
    requires IsDtsSize(size, z)
    ensures Prints(z, size)
  {
    hide Prints, Dec, Hex, IsHuman;
    if size == AUTOFILL {
      MinusOnePrints();
    } else if z == Dec(size) {
      DecPrints(size);
    } else if z == "0x" + Hex(size) {
      HexPrints(size);
    } else {
      var h: u64, suffix: char, i: nat :| IsHuman(size, h, suffix, i) && z == Dec(h) + [suffix];
      HumanPrints(size, h, suffix, i);
    }
  }

  lemma DtsItemParses(p: DtsPart, item: string)
    requires 0 < |p.name| <= 15 && LegalName(p.name) && IsDtsItem(p, item)
    ensures DtsDefiner(item) == Ok(Edit.Definer(p.name, None, false, Some(p.size), Some(p.mask)))
    ensures DtsPartOf(item) == p
  {
    hide IsDtsSize, HumanToSize, Dec, LegalName, FindSeparators, Strtoul;
    var z :| IsDtsSize(p.size, z) && item == p.name + ":" + "" + ":" + z + ":" + Dec(p.mask);
    DtsSizePrints(p.size, z);
    NameHasNoColon(p.name);
    SeparatorsOf(p.name, "", z, Dec(p.mask));
    DecReadsBack(p.mask, [], 0);
    assert Dec(p.mask) + [] == Dec(p.mask);
    assert ParseMasks(Dec(p.mask)) == p.mask;
  }

  /** Cloning a snapshot of a device tree's partitions reproduces them, autofilled sizes included, if and only if there
      are fewer than 32: the most that a device tree may hold is refused. */
  lemma DtsSnapshotClones(parts: seq<DtsPart>, items: seq<string>)
    requires 0 < |parts| == |items| <= MAX_PARTITIONS_COUNT
    requires forall i :: 0 <= i < |parts| ==>
               0 < |parts[i].name| <= 15 && LegalName(parts[i].name) && IsDtsItem(parts[i], items[i])
    ensures forall i :: 0 <= i < |items| ==> DtsDefiner(items[i]).Ok? && DtsPartOf(items[i]) == parts[i]
    ensures (0 < |items| < MAX_PARTITIONS_COUNT && forall i :: 0 <= i < |items| ==> DtsDefiner(items[i]).Ok?) <==>
              |parts| < 32
  {
    hide DtsDefiner, IsDtsItem, LegalName, DtsPartOf;
    forall i | 0 <= i < |items|
      ensures DtsDefiner(items[i]).Ok? && DtsPartOf(items[i]) == parts[i]
    {
      DtsItemParses(parts[i], items[i]);
    }
  }
}
