/** The arithmetic behind ept_ungap (src/ept.c): filling a gap greedily, largest size first, from every start. */
module Greedy {
  import opened Util

  function Sum(sizes: seq<nat>): nat {
    if sizes == [] then 0 else sizes[0] + Sum(sizes[1..])
  }

  /** What is left of `room` after each size that still fits was put in. */
  function Leftover(sizes: seq<nat>, room: nat): (r: nat)
    ensures r <= room
    decreases |sizes|
  {
    if sizes == [] then room
    else if sizes[0] <= room then Leftover(sizes[1..], room - sizes[0])
    else Leftover(sizes[1..], room)
  }

  /** Which sizes were put in. */
  function Taken(sizes: seq<nat>, room: nat): (r: seq<bool>)
    ensures |r| == |sizes|
    decreases |sizes|
  {
    if sizes == [] then []
    else if sizes[0] <= room then [true] + Taken(sizes[1..], room - sizes[0])
    else [false] + Taken(sizes[1..], room)
  }

  /** The sum of the sizes picked by a mask. */
  function Picked(sizes: seq<nat>, mask: seq<bool>): nat
    requires |mask| == |sizes|
    decreases |sizes|
  {
    if sizes == [] then 0 else (if mask[0] then sizes[0] else 0) + Picked(sizes[1..], mask[1..])
  }

  lemma {:induction false} TakenFillsRoom(sizes: seq<nat>, room: nat)
    ensures Picked(sizes, Taken(sizes, room)) + Leftover(sizes, room) == room
    ensures Sum(sizes) + Leftover(sizes, room) >= room
    decreases |sizes|
  {
    if sizes != [] {
      TakenFillsRoom(sizes[1..], if sizes[0] <= room then room - sizes[0] else room);
    }
  }

  /** A size that was passed over was larger than what is left. */
  lemma {:induction false} PassedOver(sizes: seq<nat>, room: nat, k: nat)
    requires k < |sizes| && !Taken(sizes, room)[k]
    ensures sizes[k] > Leftover(sizes, room)
    decreases |sizes|
  {
    if k > 0 {
      PassedOver(sizes[1..], if sizes[0] <= room then room - sizes[0] else room, k - 1);
    }
  }

  /** If all sizes would still fit at the end, all were put in. */
  lemma {:induction false} SmallOnesAllFit(sizes: seq<nat>, room: nat)
    requires forall k :: 0 <= k < |sizes| ==> sizes[k] <= Leftover(sizes, room)
    ensures Sum(sizes) + Leftover(sizes, room) == room
    decreases |sizes|
  {
    if sizes != [] {
      assert sizes[0] <= room;
      SmallOnesAllFit(sizes[1..], room - sizes[0]);
    }
  }

  lemma {:induction false} SumOfTail(sizes: seq<nat>, i: nat)
    requires i <= |sizes|
    ensures Sum(sizes[i..]) <= Sum(sizes)
    decreases i
  {
    if i > 0 {
      SumOfTail(sizes[1..], i - 1);
      assert sizes[1..][i - 1..] == sizes[i..];
    } else {
      assert sizes[0..] == sizes;
    }
  }

  ghost predicate Decreasing(sizes: seq<nat>) {
    forall i, j :: 0 <= i <= j < |sizes| ==> sizes[i] >= sizes[j]
  }

  /** The result of trying every start: nothing was put in and nothing could be, or some start was taken. In both cases
      no start leaves less. */
  ghost predicate Best(sizes: seq<nat>, gap: nat, start: nat, left: nat) {
    && start <= |sizes| && left == Leftover(sizes[start..], gap)
    && forall k :: 0 <= k <= |sizes| ==> left <= Leftover(sizes[k..], gap)
  }

  /** No positive size that was left out would fit into what is left. */
  lemma NothingElseFits(sizes: seq<nat>, gap: nat, start: nat, left: nat, m: nat)
    requires Decreasing(sizes) && Best(sizes, gap, start, left)
    requires m < |sizes| && sizes[m] > 0 && (m >= start ==> !Taken(sizes[start..], gap)[m - start])
    ensures sizes[m] > left
  {
    if m >= start {
      PassedOver(sizes[start..], gap, m - start);
    } else if sizes[m] <= left {
      var tail := sizes[m..];
      var other := Leftover(tail, gap);
      assert left <= other;
      forall k | 0 <= k < |tail|
        ensures tail[k] <= other
      {
        assert sizes[m] >= sizes[m + k];
      }
      SmallOnesAllFit(tail, gap);
      assert tail[1..] == sizes[m + 1..];
      SumOfTail(sizes[m + 1..], start - m - 1);
      assert sizes[m + 1..][start - m - 1..] == sizes[start..];
      TakenFillsRoom(sizes[start..], gap);
    }
  }
}
