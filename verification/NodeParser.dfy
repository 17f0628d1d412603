/** dts_get_partitions_from_node (src/dts.c): the parser of a partitions node as one loop over tokens. */
module NodeParser {
  import opened Util
  import opened Fdt
  import opened Walk
  import opened StringBlock
  import opened Partitions
  import opened NodeMeaning
  import Ept

  /** What is left when Begin fails: a node with a long name is counted before it is refused. */
  function LeftByBegin(st: Parsed): Parsed {
    if |st.partitions| >= Ept.MAX_PARTITIONS_COUNT then st
      else st.(partitions := st.partitions + [Entry("", 0, 0, 0, 0)])
  }

  /** While nothing was counted, the parser is on its way to the first node, if it gets there at all. */
  ghost predicate NothingCounted(s: Bytes, p: nat, inPartition: bool, cur: Body, strings: Bytes, offs: Offsets,
                                 st: Parsed, reaches: bool)
    requires Wf(cur) && p + 4 * Words(cur) <= |s| && StOk(st, inPartition)
  {
    if st.partitions != [] then reaches
    else !inPartition && ReachesNode(s, cur, p, strings, offs, st) == reaches
  }

  /** The state of the loop. */
  ghost predicate Counting(s: Bytes, p: nat, inPartition: bool, cur: Body, outer: Body, strings: Bytes, offs: Offsets,
                           st: Parsed, goal: Result<Parsed>, reaches: bool) {
    && Parsing(s, p, inPartition, cur, outer, strings, offs, st, goal)
    && NothingCounted(s, p, inPartition, cur, strings, offs, st, reaches)
  }

  lemma CountStart(s: Bytes, p: nat, b: Body, strings: Bytes, offs: Offsets, st: Parsed)
    requires Wf(b) && At(s, p, Ser(b)) && StOk(st, false) && st.partitions == []
    ensures p + 4 * Words(b) <= |s|
    ensures Counting(s, p, false, b, End, strings, offs, st, ParseBody(s, b, p, false, strings, offs, st),
                     ReachesNode(s, b, p, strings, offs, st))
  {
    hide At, ParseBody, ReachesNode;
    ParseStart(s, p, b, strings, offs, st);
    AtBody(s, p, b);
  }

  lemma CountLook(s: Bytes, p: nat, inPartition: bool, cur: Body, outer: Body, strings: Bytes, offs: Offsets,
                  st: Parsed, goal: Result<Parsed>, reaches: bool)
    requires Counting(s, p, inPartition, cur, outer, strings, offs, st, goal, reaches)
    ensures p + 4 <= |s| && Read32(s, p) == Token(cur) && StOk(st, inPartition)
  {
    hide At, ParseBody, ReachesNode, Parsing;
    ParseLook(s, p, inPartition, cur, outer, strings, offs, st, goal);
  }

  lemma CountEnd(s: Bytes, p: nat, inPartition: bool, outer: Body, strings: Bytes, offs: Offsets, st: Parsed,
                 goal: Result<Parsed>, reaches: bool)
    requires Counting(s, p, inPartition, End, outer, strings, offs, st, goal, reaches) && StOk(st, inPartition)
    ensures st.partitions != [] <==> reaches
    ensures !inPartition ==> goal == Ok(st)
    ensures inPartition && !EndOk(st.partitions[|st.partitions| - 1]) ==> goal == Err(4)
    ensures inPartition && EndOk(st.partitions[|st.partitions| - 1]) ==>
              Counting(s, p + 4, false, outer, End, strings, offs, st, goal, reaches)
  {
    hide At, ParseBody;
    ParseEnd(s, p, inPartition, outer, strings, offs, st, goal);
  }

  lemma CountNop(s: Bytes, p: nat, inPartition: bool, cur: Body, outer: Body, strings: Bytes, offs: Offsets, st: Parsed,
                 goal: Result<Parsed>, reaches: bool)
    requires Counting(s, p, inPartition, cur, outer, strings, offs, st, goal, reaches) && cur.Nop?
    ensures Counting(s, p + 4, inPartition, cur.rest, outer, strings, offs, st, goal, reaches)
  {
    hide At, ParseBody;
    ParseNop(s, p, inPartition, cur, outer, strings, offs, st, goal);
  }

  lemma CountProp(s: Bytes, p: nat, inPartition: bool, cur: Body, outer: Body, strings: Bytes, offs: Offsets,
                  st: Parsed, goal: Result<Parsed>, reaches: bool)
    requires Counting(s, p, inPartition, cur, outer, strings, offs, st, goal, reaches) && cur.Prop?
    ensures p + 12 + |cur.value| <= |s| && Read32(s, p + 4) == |cur.value| && Read32(s, p + 8) == cur.nameOff
    ensures StOk(st, inPartition)
    ensures match PropStep(s, p + 12, cur.nameOff, |cur.value|, strings, offs, inPartition, st)
            case Err(code) => goal == Err(code) && (st.partitions != [] <==> reaches)
            case Ok(st') =>
              Counting(s, p + 12 + 4 * Steps(|cur.value|), inPartition, cur.rest, outer, strings, offs, st', goal,
                       reaches)
  {
    hide At, ParseBody, PropStep, Steps;
    ParseProp(s, p, inPartition, cur, outer, strings, offs, st, goal);
    PropCount(s, p + 12, cur.nameOff, |cur.value|, strings, offs, inPartition, st);
  }

  lemma CountNode(s: Bytes, p: nat, inPartition: bool, cur: Body, outer: Body, strings: Bytes, offs: Offsets,
                  st: Parsed, goal: Result<Parsed>, reaches: bool)
    requires Counting(s, p, inPartition, cur, outer, strings, offs, st, goal, reaches) && cur.Node?
    ensures StringAt(s, p + 4) == cur.name && reaches
    ensures inPartition ==> goal == Err(3) && st.partitions != []
    ensures !inPartition ==>
              match Begin(st, cur.name)
              case Err(code) => goal == Err(code)
              case Ok(st') =>
                Counting(s, p + 4 + 4 * Steps(|cur.name| + 1), true, cur.child, cur.rest, strings, offs, st', goal,
                         reaches)
  {
    hide At, ParseBody, Steps, StringAt;
    ParseNode(s, p, inPartition, cur, outer, strings, offs, st, goal);
    CountedOne(st, cur.name);
  }

  lemma CountedOne(st: Parsed, name: Bytes)
    ensures LeftByBegin(st).partitions != []
    ensures match Begin(st, name) case Err(code) => code == 3 case Ok(st') => st'.partitions != []
  {
  }

  /** dts_get_partitions_from_node: errors 1 and 2 come before the loop, the others out of it. The count of partitions
      it leaves, on failure too, is not 0 exactly if it gets to a node. */
  method GetPartitionsFromNode(s: Bytes, node: nat, strings: Bytes, ghost t: Tree) returns (r: int, st: Parsed)
    requires IsNodeAt(s, node, t) && node + 12 <= |s|
    ensures r == 1 <==> s[node..node + 12] != PARTITIONS + [NUL, NUL]
    ensures r == 2 <==> s[node..node + 12] == PARTITIONS + [NUL, NUL] && GetOffsets(strings) == None
    ensures r != 1 && r != 2 ==>
              && t.name == PARTITIONS && Wf(t.body) && node + 12 + 4 * Words(t.body) <= |s|
              && (if r == 0 then Ok(st) else Err(r))
                   == ParseBody(s, t.body, node + 12, false, strings, GetOffsets(strings).value, NothingParsed())
    ensures r == 0 <==>
              && s[node..node + 12] == PARTITIONS + [NUL, NUL] && GetOffsets(strings).Some?
              && NodeOk(t.body, strings, GetOffsets(strings).value)
    ensures r == 0 ==> NodeMeans(t.body, strings, GetOffsets(strings).value, st)
    ensures 0 <= r <= 5
    ensures r >= 3 ==>
              ComplainsOf(r, Props(t.body), Nodes(t.body), Ept.MAX_PARTITIONS_COUNT, strings, GetOffsets(strings).value)
    ensures r == 1 || r == 2 ==> st == NothingParsed()
    ensures r != 1 && r != 2 ==>
              (st.partitions != [] <==>
               ReachesNode(s, t.body, node + 12, strings, GetOffsets(strings).value, NothingParsed()))
  {
    hide IsNodeAt, At, Parsing, ParseBody, Steps, Read32, StringAt, GetOffsets, PropStep, ReachesNode, Counting, Begin,
         NodeOk, NodeMeans, ComplainsOf;
    st := NothingParsed();
    if s[node..node + 12] != PARTITIONS + [NUL, NUL] {
      return 1, st;
    }
    var offsets := GetOffsets(strings);
    if offsets == None {
      return 2, st;
    }
    var offs := offsets.value;
    PartitionsStart(s, node, t);
    var start := node + 12;
    var inPartition := false;
    ghost var cur, outer := t.body, End;
    CountStart(s, start, t.body, strings, offs, st);
    ghost var goal := ParseBody(s, t.body, start, false, strings, offs, st);
    ghost var reaches := ReachesNode(s, t.body, start, strings, offs, st);
    ParseMeans(s, t.body, start, strings, offs);
    ParseComplains(s, t.body, start, strings, offs);
    var i: nat := 0;
    while true
      invariant Counting(s, start + 4 * i, inPartition, cur, outer, strings, offs, st, goal, reaches)
      decreases Words(cur) + if inPartition then Words(outer) else 0
    {
      var current := start + 4 * i;
      CountLook(s, current, inPartition, cur, outer, strings, offs, st, goal, reaches);
      var token := Read32(s, current);
      if token == BEGIN_NODE {
        CountNode(s, current, inPartition, cur, outer, strings, offs, st, goal, reaches);
        if inPartition {
          return 3, st;
        }
        var name := StringAt(s, current + 4);
        CountedOne(st, name);
        var begun := Begin(st, name);
        if begun.Err? {
          return begun.code, LeftByBegin(st);
        }
        st := begun.value;
        i := i + Steps(|name| + 1);
        cur, outer := cur.child, cur.rest;
        inPartition := true;
      } else if token == END_NODE {
        CountEnd(s, current, inPartition, outer, strings, offs, st, goal, reaches);
        if !inPartition {
          return 0, st;
        }
        if !EndOk(st.partitions[|st.partitions| - 1]) {
          return 4, st;
        }
        inPartition := false;
        cur, outer := outer, End;
      } else if token == PROP {
        CountProp(s, current, inPartition, cur, outer, strings, offs, st, goal, reaches);
        var lenProp, nameOff := Read32(s, current + 4), Read32(s, current + 8);
        i := SkipProp(i, lenProp);
        var step := PropStep(s, current + 12, nameOff, lenProp, strings, offs, inPartition, st);
        if step.Err? {
          PropErrors(s, current + 12, nameOff, lenProp, strings, offs, inPartition, st);
          return 5, st;
        }
        st := step.value;
        cur := cur.rest;
      } else {
        assert token == NOP;
        CountNop(s, current, inPartition, cur, outer, strings, offs, st, goal, reaches);
        cur := cur.rest;
      }
      i := i + 1;
    }
  }

  lemma PropErrors(s: Bytes, p: nat, nameOff: nat, length: nat, strings: Bytes, offs: Offsets, inPartition: bool,
                   st: Parsed)
    requires p + length <= |s| && StOk(st, inPartition)
    requires PropStep(s, p, nameOff, length, strings, offs, inPartition, st).Err?
    ensures PropStep(s, p, nameOff, length, strings, offs, inPartition, st) == Err(5)
  {
  }
}
