/** Inputs for which the code does not keep what it promises: the DTBs and tables at which the exact conditions fail. */
module Failures {
  import opened Util
  import opened Ept
  import opened Fdt
  import opened Walk
  import opened StringBlock
  import opened Phandle
  import opened Partitions
  import opened RoundTrip
  import opened Splice
  import opened PhandleSafety
  import opened NewPhandles
  import opened Compose
  import opened Target
  import opened Dtb
  import opened Implement

  // ---- A DTB of given blocks ----

  function Zeros(n: nat): (r: Bytes)
    ensures |r| == n
  {
    seq(n, _ => NUL)
  }

  /** DTB_MAGIC_PLAIN, by which dtb_identify_type knows a plain DTB. */
  const MAGIC_PLAIN: u32 := 0xD00D_FEED

  /** In memory it is these four bytes: the DTB is big-endian. */
  lemma PlainMagic()
    ensures BE32(MAGIC_PLAIN) == [0xD0 as char, 0x0D as char, 0xFE as char, 0xED as char]
  {
  }

  function Head(): (r: Bytes)
    ensures |r| == HEADER_SIZE
  {
    BE32(MAGIC_PLAIN) + Zeros(4) + BE32(HEADER_SIZE) + Zeros(28)
  }

  /** Header, structure block, `gap` bytes of free space, strings block. */
  function BuildDtb(t: Dts, strings: Bytes, gap: nat): Bytes
    requires DtsOk(t) && HEADER_SIZE + |SerDts(t)| + gap + |strings| < U32_LIMIT
  {
    var offStrings := HEADER_SIZE + |SerDts(t)| + gap;
    NewHeader(Head() + (SerDts(t) + (Zeros(gap) + strings)), offStrings + |strings|, |SerDts(t)|, offStrings, |strings|)
  }

  lemma Middle(a: Bytes, b: Bytes, c: Bytes)
    ensures At(a + (b + c), |a|, b)
  {
    assert (a + (b + c))[|a|..|a| + |b|] == b;
  }

  lemma HeadAt(rest: Bytes)
    ensures At(Head() + rest, 0, BE32(MAGIC_PLAIN)) && At(Head() + rest, 8, BE32(HEADER_SIZE))
  {
    hide BE32, At;
    var magic, size := BE32(MAGIC_PLAIN), BE32(HEADER_SIZE);
    assert Head() + rest == [] + (magic + (Zeros(4) + size + Zeros(28) + rest));
    Middle([], magic, Zeros(4) + size + Zeros(28) + rest);
    assert Head() + rest == (magic + Zeros(4)) + (size + (Zeros(28) + rest));
    Middle(magic + Zeros(4), size, Zeros(28) + rest);
  }

  lemma HeaderWritten(raw: Bytes, sizeStruct: u32, offStrings: u32, sizeStrings: u32, text: Bytes, strings: Bytes)
    requires |raw| < U32_LIMIT && At(raw, 0, BE32(MAGIC_PLAIN)) && At(raw, 8, BE32(HEADER_SIZE))
    requires At(raw, HEADER_SIZE, text)
    requires HEADER_SIZE <= offStrings && At(raw, offStrings, strings)
    ensures HEADER_SIZE <= |raw|
    ensures var d := NewHeader(raw, |raw|, sizeStruct, offStrings, sizeStrings);
            && Field(d, 0) == MAGIC_PLAIN && Field(d, TOTALSIZE) == |raw| && Field(d, OFF_DT_STRUCT) == HEADER_SIZE
            && Field(d, SIZE_DT_STRUCT) == sizeStruct
            && Field(d, OFF_DT_STRINGS) == offStrings && Field(d, SIZE_DT_STRINGS) == sizeStrings
            && At(d, HEADER_SIZE, text) && At(d, offStrings, strings)
  {
    hide NewHeader, BE32, Read32, At;
    AtBound(raw, HEADER_SIZE, text);
    NewHeaderReads(raw, |raw|, sizeStruct, offStrings, sizeStrings);
    var d := NewHeader(raw, |raw|, sizeStruct, offStrings, sizeStrings);
    ReadBE32(raw, 0, MAGIC_PLAIN);
    ReadBE32(raw, 8, HEADER_SIZE);
    assert Field(raw, 0) == MAGIC_PLAIN;
    assert Field(raw, OFF_DT_STRUCT) == HEADER_SIZE;
    TailAt(raw, d, HEADER_SIZE, text);
    TailAt(raw, d, offStrings, strings);
  }

  /** The blocks are where the header says. */
  lemma BuiltDtb(t: Dts, strings: Bytes, gap: nat)
    requires DtsOk(t) && HEADER_SIZE + |SerDts(t)| + gap + |strings| < U32_LIMIT
    ensures var d := BuildDtb(t, strings, gap);
            DtbOk(d, t) && Field(d, 0) == MAGIC_PLAIN && Strings(d) == strings && Gap(d) == gap
  {
    hide SerDts, NewHeader, BE32, Read32, At;
    var head, text, tail := Head(), SerDts(t), Zeros(gap) + strings;
    var raw, d := head + (text + tail), BuildDtb(t, strings, gap);
    var offStrings := HEADER_SIZE + |text| + gap;
    HeadAt(text + tail);
    Middle(head, text, tail);
    assert raw == head + text + Zeros(gap) + (strings + []);
    Middle(head + text + Zeros(gap), strings, []);
    HeaderWritten(raw, |text|, offStrings, |strings|, text, strings);
    WholeAt(d, offStrings, strings);
  }

  lemma WholeAt(d: Bytes, p: nat, x: Bytes)
    requires At(d, p, x)
    ensures p + |x| <= |d| && d[p..p + |x|] == x
  {
  }

  // ---- A phandle that is not seen ----

  const LINUX: Bytes := "linux,phandle"

  function LinuxOnly(): Bytes {
    [] + LINUX + [NUL]
  }

  function BothPhandles(): Bytes {
    LinuxOnly() + "phandle" + [NUL]
  }

  /** "phandle" is at 14, but found first at 6, where "linux,phandle" ends. */
  function Tailed(): Bytes {
    BothPhandles() + TARGET_ID + [NUL]
  }

  function TailedAt(k: nat): Bytes
    requires k <= 22
  {
    if k <= 13 then LINUX[k..] else if k <= 21 then "phandle"[k - 14..] else TARGET_ID
  }

  lemma TailedReads(k: nat)
    requires k <= 22
    ensures StringAt(Tailed(), k) == TailedAt(k)
  {
    assert NUL !in LINUX && NUL !in "phandle" && NUL !in TARGET_ID;
    if k <= 13 {
      TailReads([], LINUX, k);
      Kept(LinuxOnly(), "phandle", k);
      Kept(BothPhandles(), TARGET_ID, k);
    } else if k <= 21 {
      TailReads(LinuxOnly(), "phandle", k);
      Kept(BothPhandles(), TARGET_ID, k);
    } else {
      TailReads(BothPhandles(), TARGET_ID, k);
      assert TARGET_ID[0..] == TARGET_ID;
    }
  }

  /** Appending a string to a terminated block leaves what reads before. */
  lemma Kept(b: Bytes, str: Bytes, k: nat)
    requires Terminated(b) && k < |b|
    ensures StringAt(b + str + [NUL], k) == StringAt(b, k)
  {
    assert b + str + [NUL] == b + (str + [NUL]);
    StringAtPrefix(b, str + [NUL], k);
  }

  /** A string is found at the first place where it reads. */
  lemma {:induction false} TailedFinds(str: Bytes, k: nat, at: nat)
    requires str != [] && k <= at <= 22 && TailedAt(at) == str && forall i :: k <= i < at ==> TailedAt(i) != str
    ensures FindFrom(Tailed(), str, k) == Some(at)
    decreases at - k
  {
    TailedIsLong();
    hide StringAt, TailedAt, Tailed;
    TailedReads(k);
    ReadsFrom(Tailed(), k);
    if k < at {
      TailedFinds(str, k + 1, at);
    }
  }

  lemma ReadsFrom(b: Bytes, k: nat)
    ensures StringAt(b, k) != [] ==> k < |b| && b[k] != NUL
  {
  }

  lemma TailedIsLong()
    ensures |Tailed()| > 22
  {
  }

  lemma TailedOffsets()
    ensures Find(Tailed(), "linux,phandle") == Some(0) && Find(Tailed(), "phandle") == Some(6)
    ensures Find(Tailed(), TARGET_ID) == Some(22)
  {
    assert "linux,phandle"[0..] == "linux,phandle" && "linux,phandle"[6..] == "phandle";
    TailedFinds("linux,phandle", 0, 0);
    forall i | 0 <= i < 6
      ensures TailedAt(i) != "phandle"
    {
      assert |TailedAt(i)| > 7;
    }
    TailedFinds("phandle", 0, 6);
    forall i | 0 <= i < 22
      ensures TailedAt(i) != TARGET_ID
    {
      assert i == 0 ==> TailedAt(i)[0] == 'l';
      assert i > 0 ==> |TailedAt(i)| < 13;
    }
    TailedFinds(TARGET_ID, 0, 22);
  }

  lemma TailedNames()
    ensures 14 in PhandleNames(Tailed()) && Terminated(Tailed())
  {
    TailedReads(14);
    assert "phandle"[0..] == "phandle";
  }

  function NodeA(): Body {
    Prop(14, BE32(1), [], End)
  }

  function NodeB(): Body {
    Prop(0, BE32(7), [], Prop(14, BE32(7), [], End))
  }

  function JustB(): Body {
    Node("b", [NUL, NUL], NodeB(), End)
  }

  const ABC: Bytes := "a" + "_" + "b" + "_" + "c"

  function Nodes(): Body {
    Node("a", [NUL, NUL], NodeA(), JustB())
  }

  /** The root has a name that can be split, node "a" has phandle 1, node "b" has 7 under both names. */
  function UnseenDts(): Dts {
    Dts(0, [NUL, NUL, NUL], Prop(22, ABC + [NUL], [NUL, NUL], Nodes()))
  }

  lemma UnseenIsSmall()
    ensures var t := UnseenDts();
            DtsOk(t) && HEADER_SIZE + |SerDts(t)| + |Tailed()| < 0x1000 && !HasChild(t.body, PARTITIONS)
  {
    hide BE32, SerDts;
    assert Wf(NodeA()) && Words(NodeA()) == 5;
    assert Wf(NodeB().rest) && Words(NodeB().rest) == 5;
    assert Wf(NodeB()) && Words(NodeB()) == 9;
    assert Wf(JustB()) && Words(JustB()) == 12 && !HasChild(JustB(), PARTITIONS);
    assert Wf(Nodes()) && Words(Nodes()) == 19 && !HasChild(Nodes(), PARTITIONS);
    HeadLength(UnseenDts());
  }

  lemma UnseenName()
    ensures NameOf(Tailed(), UnseenDts().body) == Some(TargetName(ABC, "a", "b", "c"))
  {
    TailedOffsets();
    hide Find, StringAt;
    TailReads([], ABC, 0);
    assert [] + ABC + [NUL] == ABC + [NUL] && ABC[0..] == ABC;
    hide Tailed, SplitName, Nodes;
    assert TargetText(Tailed(), UnseenDts().body) == Some(ABC);
    SplitAt(ABC, "a", "b", "c");
    SplitMeans(ABC);
  }

  /** That DTB, parsed. */
  ghost predicate IsUnseen(was: DtbEntry, gap: nat) {
    && EntryOk(was, UnseenDts()) && !was.hasPartitions
    && Field(was.buffer, 0) == MAGIC_PLAIN && Strings(was.buffer) == Tailed() && Gap(was.buffer) == gap
    && |was.buffer| < 0x1000 + gap
  }

  /** It is loaded without an error. */
  method LoadUnseen(gap: nat) returns (was: DtbEntry)
    requires gap <= 0x1000
    ensures IsUnseen(was, gap)
  {
    UnseenIsSmall();
    BuiltDtb(UnseenDts(), Tailed(), gap);
    UnseenName();
    hide BuildDtb, UnseenDts, SerDts, HasChild, NameOf, ParsedOk, CountsPartitions, NodeParses, IsNodeAt;
    NamedHasText(Tailed(), UnseenDts().body);
    hide TargetText;
    var r;
    r, was := ParseEntry(BuildDtb(UnseenDts(), Tailed(), gap), UnseenDts());
  }

  lemma WordReads(v: u32)
    ensures Read32(BE32(v), 0) == v
  {
    hide BE32, Read32;
    assert At(BE32(v), 0, BE32(v));
    ReadBE32(BE32(v), 0, v);
  }

  lemma ClaimsOfB(n: nat, p: nat)
    ensures Claims(NodeB(), n, p, 6, 0) == [Claim(7, n, true)]
  {
    hide BE32, Read32;
    WordReads(7);
    assert Claims(NodeB().rest, n, p + 16, 6, 0) == [];
    assert ClaimOf(0, BE32(7), n, 6) == Claim(7, n, true);
  }

  lemma ClaimsOfNodes(owner: nat, p: nat)
    ensures Claims(Nodes(), owner, p, 6, 0) == [Claim(7, p + 4 * (NodeSteps("a", NodeA()) + 2) + 4, true)]
  {
    hide BE32;
    assert Claims(NodeA(), p + 4, p + 8, 6, 0) == [];
    var n := p + 4 * (NodeSteps("a", NodeA()) + 2) + 4;
    ClaimsOfB(n, n + 4);
    hide NodeB, NodeA;
    assert Claims(JustB(), owner, n - 4, 6, 0) == [Claim(7, n, true)];
  }

  /** The walker collects the 7 of node "b" and nothing else. */
  lemma UnseenClaims(owner: nat, p: nat) returns (n: nat)
    ensures Claims(UnseenDts().body, owner, p, 6, 0) == [Claim(7, n, true)]
  {
    hide BE32;
    n := p + 20 + 4 * (NodeSteps("a", NodeA()) + 2) + 4;
    ClaimsOfNodes(owner, p + 20);
    hide Nodes;
  }

  lemma OneRecorded(n: nat)
    ensures var e := RecordAll(seq(128, _ => EMPTY), [Claim(7, n, true)]);
            e.Some? && |e.value| == 128 && (forall h :: Held(e.value, h) <==> h == 7) && e.value[7].linux
  {
    RecordOne(seq(128, _ => EMPTY), Claim(7, n, true), []);
    assert [Claim(7, n, true)] + [] == [Claim(7, n, true)];
  }

  lemma UnseenCollected(was: DtbEntry)
    requires HEADER_SIZE <= |was.buffer| && !was.hasPartitions
    ensures var t := UnseenDts();
            && Collectable(was.buffer, t, 6, 0) && UsesLinux(Collected(was.buffer, t, 6, 0).value)
            && forall h :: Held(Occupied(was, t, 6, 0), h) <==> h == 7
  {
    hide Claims, RecordAll, Read32, UnseenDts;
    var at := BodyAt(was.buffer, UnseenDts());
    var n := UnseenClaims(at - 4, at);
    OneRecorded(n);
    var e := Collected(was.buffer, UnseenDts(), 6, 0).value;
    assert Held(e, 7);
    DropNothing(e);
  }

  /** Node "a" owns 1 by name. */
  lemma UnseenOwns()
    ensures 1 in All(UnseenDts().body, PhandleNames(Tailed()))
  {
    TailedNames();
    hide BE32, PhandleNames, Find;
    WordReads(1);
    assert 1 in PropValues(14, BE32(1), PhandleNames(Tailed()));
    assert 1 in Own(NodeA(), PhandleNames(Tailed()));
    hide NodeA, JustB;
    assert 1 in Sub(Nodes(), PhandleNames(Tailed()));
    hide Nodes;
  }

  lemma UnseenIsNotDistinct(was: DtbEntry, n: nat)
    requires IsUnseen(was, 0) && Collected(was.buffer, UnseenDts(), 6, 0).Some?
    ensures !StaysDistinct(was, UnseenDts(), n, 6, 0)
  {
    UnseenCollected(was);
    UnseenIsSmall();
    UnseenOwns();
    var taken := Occupied(was, UnseenDts(), 6, 0);
    hide All, Occupied, Collected, PhandleNames, Distinct, SerDts, UnseenDts, EntryOk;
    assert FreeBelow(taken, 1) == {};
    assert NextFree(taken, n + 1, 1);
  }

  lemma OffsetsOf(strings: Bytes)
    requires Find(strings, "linux,phandle") == Some(0) && Find(strings, "phandle") == Some(6)
    ensures PhandleOffset(strings) == 6 && LinuxOffset(strings) == 0
  {
    hide Find;
  }

  /** Putting any list into this DTB succeeds, and gives the phandle of node "a" away once more. */
  method DuplicatePhandle(parts: seq<DtsPart>) returns (was: DtbEntry, r: int, new': DtbEntry, ghost c: Composed)
    requires PartsOk(parts) && parts != []
    ensures IsUnseen(was, 0) && r == 0 && |c.ms| == |parts| && EntryOk(new', NewDts(UnseenDts(), c))
    ensures !Distinct(NewDts(UnseenDts(), c).body, PhandleNames(Strings(new'.buffer)))
  {
    was := LoadUnseen(0);
    TailedOffsets();
    TailedNames();
    OffsetsOf(Strings(was.buffer));
    UnseenCollected(was);
    UnseenIsNotDistinct(was, |parts|);
    hide Find, Terminated, Distinct, PhandleNames, Collected, StaysDistinct, AllFound, InternAll, Implemented,
         UnseenDts, SameParts, PhandleOffset, LinuxOffset, Collectable, UsesLinux, PartsOk, NewDts;
    r, new', c := ImplementPartitions(was, parts, UnseenDts());
  }

  // ---- A DTB with free space before its strings block ----

  lemma ShortBlock(n: nat)
    requires n <= MAX_PARTITIONS_COUNT
    ensures |InternAll(Tailed(), ESSENTIALS + PartNames(n)).0| <= 0x200
  {
    hide InternAll, PartName;
    var strs := ESSENTIALS + PartNames(n);
    forall k | 0 <= k < |strs|
      ensures |strs[k]| < 8
    {
      if k >= 4 {
        assert strs[k] == PartName(k - 4);
      }
    }
    InternAllGrowth(Tailed(), strs, 8);
    TimesIsProduct(|strs|, 8);
  }

  /** With half a kilobyte of free space the self-check refuses every list: the header it wrote points behind the
      strings, so that not even the name is found. With none, as above, every list goes in. */
  method WideGapIsRefused(parts: seq<DtsPart>) returns (was: DtbEntry, r: int)
    requires PartsOk(parts) && parts != []
    ensures IsUnseen(was, 0x200) && r == 8
  {
    was := LoadUnseen(0x200);
    TailedOffsets();
    TailedNames();
    OffsetsOf(Strings(was.buffer));
    UnseenCollected(was);
    ShortBlock(|parts|);
    hide Find, Terminated, Distinct, PhandleNames, Collected, PhandlesApart, AllFound, InternAll, Implemented,
         UnseenDts, SameParts, PhandleOffset, LinuxOffset, Collectable, UsesLinux, PartsOk, NewDts;
    var new';
    ghost var c;
    r, new', c := ImplementPartitions(was, parts, UnseenDts());
  }
}
