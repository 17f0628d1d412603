/** Taking the partitions node out of a DTB (src/dtb.c), and what is left after putting one in and taking it out. */
module RemoveNode {
  import opened Util
  import opened Fdt
  import opened Walk
  import opened Partitions
  import opened Compose
  import opened Splice
  import opened Target
  import opened Dtb
  import opened Implement

  /** The structure block without its partitions node. */
  function WithoutNode(t: Dts): Dts
    requires HasChild(t.body, PARTITIONS)
  {
    t.(body := Splice.Remove(t.body, PARTITIONS))
  }

  /** Everything after the structure block. */
  function Behind(d: Bytes): Bytes
    requires HEADER_SIZE <= |d| && Field(d, OFF_DT_STRUCT) + Field(d, SIZE_DT_STRUCT) <= |d|
  {
    d[Field(d, OFF_DT_STRUCT) + Field(d, SIZE_DT_STRUCT)..]
  }

  /** d' is d with the partitions node cut out; everything behind the structure block moved up with it. */
  ghost predicate Removed(d: Bytes, t: Dts, d': Bytes) {
    && HasChild(t.body, PARTITIONS) && DtbOk(d, t) && DtbOk(d', WithoutNode(t))
    && (exists pad :: |pad| < 4 && AllNul(pad) && Rewritten(d, t, d', WithoutNode(t), Behind(d) + pad))
    && Strings(d') == Strings(d) && (StringsFollow(d') <==> StringsFollow(d))
  }

  /** Lines 944-960. */
  method CopyWithout(d: Bytes, cut: Cut) returns (buffer: array<char>, ghost pad: Bytes)
    requires CutOk(d, cut) && cut.sizeNew < U32_LIMIT && cut.offStrings < U32_LIMIT
    requires Field(d, SIZE_DT_STRINGS) < U32_LIMIT
    requires cut.sizeStruct + (cut.endStart - cut.nodeStart) == Field(d, SIZE_DT_STRUCT)
    requires |d| <= cut.sizeNew + (cut.endStart - cut.nodeStart) < |d| + 4
    ensures fresh(buffer) && buffer.Length == cut.sizeNew && AllNul(pad) && |pad| < 4
    ensures var raw := Spliced(d, cut, [], Behind(d) + pad);
            |raw| == cut.sizeNew
            && buffer[..] == NewHeader(raw, cut.sizeNew, cut.sizeStruct, cut.offStrings, Field(d, SIZE_DT_STRINGS))
  {
    hide NewHeader, Read32, Spliced, Behind;
    buffer := Zeroed(cut.sizeNew);
    var before, after := d[..cut.nodeStart], d[cut.endStart..];
    var hot := PutBytes(buffer, 0, before);
    assert buffer[..hot] == before;
    hot := PutBytes(buffer, hot, after);
    pad := buffer[hot..];
    assert buffer[..] == before + after + pad;
    CutOut(d, cut, pad);
    PutHeader(buffer, cut.sizeStruct, cut.offStrings, Field(d, SIZE_DT_STRINGS));
  }

  lemma CutOut(d: Bytes, cut: Cut, pad: Bytes)
    requires CutOk(d, cut)
    ensures d[..cut.nodeStart] + d[cut.endStart..] + pad == Spliced(d, cut, [], Behind(d) + pad)
  {
    hide Read32;
    var end := Field(d, OFF_DT_STRUCT) + Field(d, SIZE_DT_STRUCT);
    assert d[cut.endStart..] == d[cut.endStart..end] + Behind(d);
    Regroup5(d[..cut.nodeStart], d[cut.endStart..end], Behind(d), pad);
  }

  lemma Regroup5(a: Bytes, b: Bytes, c: Bytes, e: Bytes)
    ensures a + (b + c) + e == a + [] + b + (c + e)
  {
    Assoc(a, b, c);
    Assoc(a + b, c, e);
    assert a + [] == a;
  }

  function RemovalPlan(d: Bytes, nodeStart: nat, endStart: nat): (cut: Cut)
    requires HEADER_SIZE <= |d|
    requires HEADER_SIZE <= Field(d, OFF_DT_STRUCT) <= nodeStart <= endStart <= Field(d, OFF_DT_STRUCT)
               + Field(d, SIZE_DT_STRUCT)
    requires Field(d, OFF_DT_STRUCT) + Field(d, SIZE_DT_STRUCT) <= Field(d, OFF_DT_STRINGS) <= |d|
    ensures CutOk(d, cut) && cut.nodeStart == nodeStart && cut.endStart == endStart
    ensures cut.sizeStruct + (endStart - nodeStart) == Field(d, SIZE_DT_STRUCT)
    ensures cut.offStrings + (endStart - nodeStart) == Field(d, OFF_DT_STRINGS)
    ensures |d| <= cut.sizeNew + (endStart - nodeStart) < |d| + 4
  {
    var sizeBefore := nodeStart;
    var sizeAfter := Field(d, OFF_DT_STRUCT) + Field(d, SIZE_DT_STRUCT) - endStart;
    var sizeStruct := sizeBefore - Field(d, OFF_DT_STRUCT) + sizeAfter;
    var offStrings := Field(d, OFF_DT_STRINGS) + sizeStruct - Field(d, SIZE_DT_STRUCT);
    Cut(nodeStart, endStart, sizeStruct, offStrings, AlignUp(|d| - Field(d, SIZE_DT_STRUCT) + sizeStruct, 4))
  }

  lemma BuiltIsRemoved(d: Bytes, t: Dts, cut: Cut, pad: Bytes, d': Bytes)
    requires CutFor(d, t, cut) && CutOk(d, cut) && HasChild(t.body, PARTITIONS)
    requires cut.sizeStruct + (cut.endStart - cut.nodeStart) == Field(d, SIZE_DT_STRUCT)
    requires cut.offStrings + (cut.endStart - cut.nodeStart) == Field(d, OFF_DT_STRINGS)
    requires cut.sizeNew < U32_LIMIT && AllNul(pad) && |pad| < 4
    requires var raw := Spliced(d, cut, [], Behind(d) + pad);
             |raw| == cut.sizeNew
             && d' == NewHeader(raw, cut.sizeNew, cut.sizeStruct, cut.offStrings, Field(d, SIZE_DT_STRINGS))
    ensures Removed(d, t, d')
  {
    hide SerDts, Ser, NewHeader, Read32, BE32, Spliced, At, TreeBytes;
    var t' := WithoutNode(t);
    var node := Child(t.body, PARTITIONS);
    ChildIsHere(t.body, PARTITIONS);
    ReplaceSplices(t.body, PARTITIONS, node);
    assert Ser(t.body)[..From(t.body)] + [] == Ser(t.body)[..From(t.body)];
    SplicedIsRewritten(d, t, cut, [], Behind(d) + pad, t'.body, d', cut.offStrings, Field(d, SIZE_DT_STRINGS));
    var off := Field(d, OFF_DT_STRUCT);
    assert Rewritten(d, t, d', t', Behind(d) + pad);
    AtConcat(d', off, SerDts(t'), Behind(d) + pad);
    AtConcat(d', off + |SerDts(t')|, Behind(d), pad);
    SameStrings(d, d', off + |SerDts(t')|);
  }

  lemma SameStrings(d: Bytes, d': Bytes, p: nat)
    requires HEADER_SIZE <= |d| && Field(d, OFF_DT_STRUCT) + Field(d, SIZE_DT_STRUCT) <= Field(d, OFF_DT_STRINGS)
    requires Field(d, OFF_DT_STRINGS) + Field(d, SIZE_DT_STRINGS) <= |d| && HEADER_SIZE <= |d'|
    requires At(d', p, Behind(d)) && Field(d', SIZE_DT_STRINGS) == Field(d, SIZE_DT_STRINGS)
    requires Field(d', OFF_DT_STRINGS) - p
               == Field(d, OFF_DT_STRINGS) - (Field(d, OFF_DT_STRUCT) + Field(d, SIZE_DT_STRUCT))
    ensures Field(d', OFF_DT_STRINGS) + Field(d', SIZE_DT_STRINGS) <= |d'| && Strings(d') == Strings(d)
  {
    hide Read32;
    var end := Field(d, OFF_DT_STRUCT) + Field(d, SIZE_DT_STRUCT);
    SameSlice(d, end, Field(d, OFF_DT_STRINGS), Field(d, SIZE_DT_STRINGS), d', p);
  }

  lemma SameSlice(d: Bytes, end: nat, from: nat, n: nat, d': Bytes, p: nat)
    requires end <= from && from + n <= |d| && At(d', p, d[end..])
    ensures p + (from - end) + n <= |d'| && d'[p + (from - end)..p + (from - end) + n] == d[from..from + n]
  {
    var tail, k := d[end..], from - end;
    AtBound(d', p, tail);
    var a, b := d'[p + k..p + k + n], d[from..from + n];
    forall i | 0 <= i < n
      ensures a[i] == b[i]
    {
      AtByte(d', p, tail, k + i);
      assert a[i] == d'[p + (k + i)] && tail[k + i] == d[end + (k + i)] && b[i] == d[from + i];
    }
  }

  /** dtb_buffer_entry_remove_partitions. What it makes keeps its name, so error 4 is never reached. It refuses its own
      result, with 5, exactly if the root had a second node of that name and parsing that one gets to a partition or
      ends well. */
  method RemovePartitions(was: DtbEntry, ghost t: Dts) returns (r: int, new': DtbEntry)
    requires EntryOk(was, t) && |was.buffer| + 4 < U32_LIMIT
    ensures new'.name == was.name
    ensures was.node == None ==> r == 0 && new'.buffer == was.buffer && EntryOk(new', t)
    ensures was.node.Some? ==> Removed(was.buffer, t, new'.buffer) && EntryOk(new', WithoutNode(t))
    ensures r == 0 || r == 5
    ensures was.node.Some? ==> (r == 5 <==> CountsPartitions(new'.buffer, WithoutNode(t)))
    ensures r == 0 ==> !new'.hasPartitions && new'.parsed.partitions == []
  {
    hide ParsedOk, SerDts, Ser, At, Read32, NewHeader, Spliced, From, Until, Removed, IsNodeAt, NodeParses, TreeBytes,
         BE32, NameOf, CountsPartitions;
    new' := DtbEntry(was.buffer, None, NothingParsed(), false, was.name);
    if was.node == None {
      return 0, new';
    }
    var d := was.buffer;
    var nodeStart, endStart := Locate(was, t);
    if endStart == nodeStart {
      LocatedNode(t.body);
      assert false;
    }
    var cut := RemovalPlan(d, nodeStart, endStart);
    var buffer, pad := CopyWithout(d, cut);
    BuiltIsRemoved(d, t, cut, pad, buffer[..]);
    RemovedDtb(d, t, buffer[..]);
    var q;
    SameName(d, t, buffer[..]);
    q, new' := ParseEntry(buffer[..], WithoutNode(t));
    if q > 0 {
      assert false;
    }
    if new'.hasPartitions || new'.parsed.partitions != [] {
      return 5, new';
    }
    return 0, new';
  }

  lemma SameName(d: Bytes, t: Dts, d': Bytes)
    requires Removed(d, t, d') && NameOf(Strings(d), t.body).Some?
    ensures NameOf(Strings(d'), WithoutNode(t).body) == NameOf(Strings(d), t.body)
    ensures TargetText(Strings(d'), WithoutNode(t).body).Some?
  {
    hide NameOf, TargetText;
    RemoveKeepsName(Strings(d), t.body, PARTITIONS);
    NamedHasText(Strings(d'), WithoutNode(t).body);
  }

  lemma LocatedNode(b: Body)
    requires Wf(b) && HasChild(b, PARTITIONS)
    ensures From(b) < Until(b)
  {
    ChildIsHere(b, PARTITIONS);
    TreeLength(Child(b, PARTITIONS));
  }

  lemma RemovedDtb(d: Bytes, t: Dts, d': Bytes)
    requires Removed(d, t, d')
    ensures HasChild(t.body, PARTITIONS) && DtbOk(d', WithoutNode(t))
  {
  }

  /** Putting a partitions node into a tree without one and taking it out again restores the structure block byte for
      byte; the strings block keeps the strings that were added. */
  lemma ImplementRemoveRestores(d: Bytes, t: Dts, c: Composed, strings': Bytes, d1: Bytes, d2: Bytes)
    requires |c.ms| < U32_LIMIT && !HasChild(t.body, PARTITIONS)
    requires Implemented(d, t, d1, NewDts(t, c), strings') && Removed(d1, NewDts(t, c), d2)
    ensures Field(d2, OFF_DT_STRUCT) == Field(d, OFF_DT_STRUCT) && Field(d2, SIZE_DT_STRUCT) == Field(d, SIZE_DT_STRUCT)
    ensures var from, until := Field(d, OFF_DT_STRUCT), Field(d, OFF_DT_STRUCT) + Field(d, SIZE_DT_STRUCT);
            until <= |d| && until <= |d2| && d2[from..until] == d[from..until]
    ensures Strings(d2) == Strings(d1)
  {
    hide SerDts, Read32, RootBody;
    ImplementThenRemove(t.body, NodeOf(c));
    assert WithoutNode(NewDts(t, c)) == t;
  }

  /** In general what is left is the old tree without its partitions node. */
  lemma ImplementRemoveIsRemove(d: Bytes, t: Dts, c: Composed, strings': Bytes, d1: Bytes, d2: Bytes)
    requires |c.ms| < U32_LIMIT && HasChild(t.body, PARTITIONS)
    requires Implemented(d, t, d1, NewDts(t, c), strings') && Removed(d1, NewDts(t, c), d2)
    ensures DtbOk(d2, WithoutNode(t)) && Field(d2, OFF_DT_STRUCT) == Field(d, OFF_DT_STRUCT)
  {
    hide SerDts, Read32, RootBody, DtbOk;
    ImplementThenRemove(t.body, NodeOf(c));
    assert WithoutNode(NewDts(t, c)) == WithoutNode(t);
  }
}
