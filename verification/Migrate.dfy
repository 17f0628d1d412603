/** The block migrator of src/io.c: an in-place partial permutation of disk blocks with two swapped buffers. */
module Migrate {
  import opened Util

  type Block = seq<byte>

  /** struct io_migrate_entry: where a block must go, and whether it still has to. */
  datatype Entry = Entry(target: nat, pending: bool)

  // ---- The disk as blocks ----

  /** Block i of the disk; its byte offset is (off_t)block * (off_t)i. */
  function BlockAt(d: seq<byte>, b: nat, i: nat): Block {
    if Times(i + 1, b) <= |d| then d[Times(i, b)..Times(i + 1, b)] else []
  }

  /** The first n blocks of size b of the disk image d. */
  function Blocks(d: seq<byte>, b: nat, n: nat): seq<Block> {
    seq(n, i requires 0 <= i => BlockAt(d, b, i))
  }

  lemma BlockInside(d: seq<byte>, b: nat, n: nat, i: nat)
    requires Times(n, b) <= |d| && i < n
    ensures Times(i, b) + b == Times(i + 1, b) <= |d|
    ensures |Blocks(d, b, n)[i]| == b
    ensures Blocks(d, b, n)[i] == d[Times(i, b)..Times(i, b) + b]
  {
    TimesMono(i + 1, n, b);
  }

  /** d' is d with v written over it from p. */
  ghost predicate Written(d: seq<byte>, d': seq<byte>, p: nat, v: Block) {
    && |d'| == |d| && p + |v| <= |d|
    && forall a :: 0 <= a < |d| ==> d'[a] == if p <= a < p + |v| then v[a - p] else d[a]
  }

  lemma SliceAfterWrite(d: seq<byte>, d': seq<byte>, p: nat, v: Block, q: nat)
    requires Written(d, d', p, v) && q + |v| <= |d|
    requires q + |v| <= p || q == p || p + |v| <= q
    ensures d'[q..q + |v|] == if q == p then v else d[q..q + |v|]
  {
  }

  /** Overwriting one block of the image overwrites exactly that block of the block view. */
  lemma BlocksAfterWrite(d: seq<byte>, d': seq<byte>, b: nat, n: nat, i: nat, v: Block)
    requires Times(n, b) <= |d| && i < n && |v| == b && Written(d, d', Times(i, b), v)
    ensures Blocks(d', b, n) == Blocks(d, b, n)[i := v]
  {
    forall j: nat | j < n
      ensures BlockAt(d', b, j) == if j == i then v else BlockAt(d, b, j)
    {
      BlockAfterWrite(d, d', b, n, i, v, j);
    }
  }

  lemma BlockAfterWrite(d: seq<byte>, d': seq<byte>, b: nat, n: nat, i: nat, v: Block, j: nat)
    requires Times(n, b) <= |d| && i < n && j < n && |v| == b && Written(d, d', Times(i, b), v)
    ensures BlockAt(d', b, j) == if j == i then v else BlockAt(d, b, j)
  {
    BlockInside(d, b, n, j);
    BlocksApart(b, i, j);
    SliceAfterWrite(d, d', Times(i, b), v, Times(j, b));
  }

  lemma BlocksApart(b: nat, i: nat, j: nat)
    ensures i < j ==> Times(i, b) + b <= Times(j, b)
    ensures j < i ==> Times(j, b) + b <= Times(i, b)
  {
    TimesMono(Min(i, j), Max(i, j), b);
  }

  // ---- Plans ----

  ghost predicate InRange(plan: seq<Entry>) {
    forall i :: 0 <= i < |plan| && plan[i].pending ==> plan[i].target < |plan|
  }

  ghost predicate Injective(plan: seq<Entry>) {
    forall i, j | 0 <= i < |plan| && 0 <= j < |plan| && plan[i].pending && plan[j].pending && i != j ::
      plan[i].target != plan[j].target
  }

  ghost predicate SelfTarget(plan: seq<Entry>, i: nat) {
    i < |plan| && plan[i].pending && plan[i].target == i
  }

  ghost predicate IsTarget(plan: seq<Entry>, j: nat) {
    exists i :: 0 <= i < |plan| && plan[i].pending && plan[i].target == j
  }

  /** What a migration promises: every pending block has arrived, every block nothing was sent to is as before. */
  ghost predicate Migrated(plan: seq<Entry>, before: seq<Block>, after: seq<Block>) {
    && |plan| == |before| == |after|
    && (forall i {:trigger plan[i]} :: 0 <= i < |plan| && plan[i].pending ==>
         plan[i].target < |plan| && after[plan[i].target] == before[i])
    && (forall j {:trigger IsTarget(plan, j)} :: 0 <= j < |plan| && !IsTarget(plan, j) ==> after[j] == before[j])
  }

  function PendingSet(entries: seq<Entry>): set<nat> {
    set i: nat | i < |entries| && entries[i].pending
  }

  /** The run so far has moved the blocks that are pending in `plan` but no longer in `now`. */
  ghost predicate Done(plan: seq<Entry>, now: seq<Entry>, i: nat) {
    i < |plan| == |now| && plan[i].pending && !now[i].pending
  }

  ghost predicate Reached(plan: seq<Entry>, now: seq<Entry>, j: nat) {
    exists i: nat :: Done(plan, now, i) && plan[i].target == j
  }

  /** Targets never change and pending flags are only ever cleared. */
  ghost predicate Shrinks(plan: seq<Entry>, now: seq<Entry>) {
    && |plan| == |now|
    && (forall i :: 0 <= i < |plan| ==> now[i].target == plan[i].target)
    && (forall i :: 0 <= i < |plan| && now[i].pending ==> plan[i].pending)
  }

  /** The state of a run: moved blocks have arrived and stay there, blocks nothing was sent to yet are untouched,
      and every block that is still pending and not in a buffer holds its original content. */
  ghost predicate Progress(plan: seq<Entry>, now: seq<Entry>, before: seq<Block>, disk: seq<Block>, held: set<nat>) {
    && |before| == |disk| == |plan|
    && Shrinks(plan, now)
    && (forall i {:trigger Done(plan, now, i)} :: 0 <= i < |plan| && Done(plan, now, i) ==>
         plan[i].target < |plan| && plan[i].target != i && disk[plan[i].target] == before[i])
    && (forall j {:trigger Reached(plan, now, j)} :: 0 <= j < |plan| && !Reached(plan, now, j) ==> disk[j] == before[j])
    && (forall i :: 0 <= i < |plan| && now[i].pending && i !in held ==> disk[i] == before[i])
  }

  /** Block `source` has been written to its target; if that block is itself pending, `held` saved its content. */
  ghost predicate AfterHop(plan: seq<Entry>, was: seq<Entry>, now: seq<Entry>, before: seq<Block>, disk: seq<Block>,
                           source: nat, held: Block) {
    && source < |was| == |before|
    && var t := was[source].target;
    && t < |was| && now == was[source := Entry(t, false)]
    && Progress(plan, now, before, disk, if now[t].pending then {t} else {})
    && (now[t].pending ==> held == before[t])
  }

  /** struct io_migrate_helper, with the disk in place of its file descriptor. */
  class MigrateHelper {
    const entries: array<Entry>
    const block: nat
    const disk: array<byte>
    var bufferMain: array<byte>
    var bufferSub: array<byte>

    constructor (entries: array<Entry>, block: nat, disk: array<byte>)
      requires Times(entries.Length, block) <= disk.Length
      ensures this.entries == entries && this.block == block && this.disk == disk
      ensures Fits() && fresh(bufferMain) && fresh(bufferSub)
    {
      this.entries, this.block, this.disk := entries, block, disk;
      bufferMain, bufferSub := new byte[0], new byte[0];
    }

    ghost predicate Fits()
      reads this
    {
      && Times(entries.Length, block) <= disk.Length
      && disk != bufferMain && disk != bufferSub
    }

    ghost predicate Valid()
      reads this
    {
      && Fits()
      && bufferMain != bufferSub
      && bufferMain.Length == bufferSub.Length == block
    }

    /** The blocks of the disk that the plan is about. */
    ghost function Contents(): seq<Block>
      reads disk
    {
      Blocks(disk[..], block, entries.Length)
    }

    method ReadBlock(i: nat, buffer: array<byte>)
      requires Fits() && i < entries.Length && buffer.Length == block && buffer != disk
      modifies buffer
      ensures buffer[..] == Contents()[i]
    {
      BlockInside(disk[..], block, entries.Length, i);
      forall k | 0 <= k < block {
        buffer[k] := disk[Times(i, block) + k];
      }
      assert buffer[..] == disk[..][Times(i, block)..Times(i, block) + block];
    }

    method WriteBlock(i: nat, buffer: array<byte>)
      requires Fits() && i < entries.Length && buffer.Length == block && buffer != disk
      modifies disk
      ensures Contents() == old(Contents())[i := buffer[..]]
      ensures forall a :: Times(entries.Length, block) <= a < disk.Length ==> disk[a] == old(disk[a])
    {
      ghost var d := disk[..];
      BlockInside(d, block, entries.Length, i);
      TimesMono(i + 1, entries.Length, block);
      forall k | 0 <= k < block {
        disk[Times(i, block) + k] := buffer[k];
      }
      BlocksAfterWrite(d, disk[..], block, entries.Length, i, buffer[..]);
    }

    /** io_migrate_recursive. Block `source` is in the main buffer; follow its chain until a block that is not
        pending. */
    method MigrateRecursive(source: nat, ghost plan: seq<Entry>, ghost before: seq<Block>) returns (r: int)
      requires Valid() && source < entries.Length && entries[source].pending
      requires InRange(plan) && Injective(plan)
      requires Progress(plan, entries[..], before, Contents(), {source})
      requires bufferMain[..] == before[source]
      modifies this`bufferMain, this`bufferSub, bufferMain, bufferSub, entries, disk
      ensures Valid() && {bufferMain, bufferSub} == old({bufferMain, bufferSub})
      ensures Shrinks(old(entries[..]), entries[..])
      ensures forall a :: Times(entries.Length, block) <= a < disk.Length ==> disk[a] == old(disk[a])
      ensures r == 0 ==> Progress(plan, entries[..], before, Contents(), {}) && !entries[source].pending
      ensures r != 0 ==> exists i :: SelfTarget(plan, i)
      decreases PendingSet(entries[..])
    {
      var target := entries[source].target;
      if target == source {
        assert SelfTarget(plan, source);
        return -1;
      }
      ghost var now := entries[..];
      Hop(source, plan, before);
      FewerPending(now, source);
      if entries[target].pending {
        bufferMain, bufferSub := bufferSub, bufferMain;
        var s := MigrateRecursive(target, plan, before);
        if s != 0 {
          return 4;
        }
      }
      return 0;
    }

    /** Clear the flag of `source`, save its target into the sub buffer if that one is pending too, and write the main
        buffer there. */
    method Hop(source: nat, ghost plan: seq<Entry>, ghost before: seq<Block>)
      requires Valid() && source < entries.Length && entries[source].pending && entries[source].target != source
      requires InRange(plan) && Injective(plan)
      requires Progress(plan, entries[..], before, Contents(), {source})
      requires bufferMain[..] == before[source]
      modifies bufferSub, entries, disk
      ensures AfterHop(plan, old(entries[..]), entries[..], before, Contents(), source, bufferSub[..])
      ensures forall a :: Times(entries.Length, block) <= a < disk.Length ==> disk[a] == old(disk[a])
    {
      ghost var now, blocks := entries[..], Contents();
      Step(plan, now, before, blocks, source);
      var target := entries[source].target;
      entries[source] := entries[source].(pending := false);
      assert entries[..] == now[source := now[source].(pending := false)];
      if entries[target].pending {
        ReadBlock(target, bufferSub);
      }
      WriteBlock(target, bufferMain);
    }

    /** io_migrate. */
    method Migrate() returns (r: int)
      requires Fits()
      requires InRange(entries[..]) && Injective(entries[..])
      modifies this`bufferMain, this`bufferSub, entries, disk
      ensures r == 0 <==> entries.Length > 0 && forall i :: 0 <= i < entries.Length ==> !SelfTarget(old(entries[..]), i)
      ensures r == 0 ==> Migrated(old(entries[..]), old(Contents()), Contents())
      ensures r == 0 ==> forall i :: 0 <= i < entries.Length ==> entries[i] == old(entries[i]).(pending := false)
      ensures forall a :: Times(entries.Length, block) <= a < disk.Length ==> disk[a] == old(disk[a])
    {
      if entries.Length == 0 {
        return -1;
      }
      bufferMain := new byte[block];
      bufferSub := new byte[block];
      ghost var plan := entries[..];
      ghost var before := Contents();
      Start(plan, before);
      for i := 0 to entries.Length
        invariant Valid() && fresh(bufferMain) && fresh(bufferSub)
        invariant Progress(plan, entries[..], before, Contents(), {})
        invariant forall j :: 0 <= j < i ==> !entries[j].pending
        invariant forall a :: Times(entries.Length, block) <= a < disk.Length ==> disk[a] == old(disk[a])
      {
        if entries[i].pending {
          ReadBlock(i, bufferMain);
          var s := MigrateRecursive(i, plan, before);
          if s != 0 {
            return 4;
          }
        }
      }
      Finish(plan, entries[..], before, Contents());
      return 0;
    }
  }

  /** One hop: the held block `source` is written to its target, whose old content becomes the held one if it is
      pending. */
  lemma Step(plan: seq<Entry>, now: seq<Entry>, before: seq<Block>, disk: seq<Block>, source: nat)
    requires InRange(plan) && Injective(plan)
    requires Progress(plan, now, before, disk, {source})
    requires source < |now| && now[source].pending && now[source].target != source
    ensures var t := now[source].target;
            t < |disk| && Progress(plan, now[source := now[source].(pending := false)], before,
                                   disk[t := before[source]],
                                   if now[t].pending then {t} else {})
  {
    var t := now[source].target;
    var now' := now[source := now[source].(pending := false)];
    var disk' := disk[t := before[source]];
    assert Done(plan, now', source);
    forall i | 0 <= i < |plan| && Done(plan, now', i)
      ensures plan[i].target < |plan| && plan[i].target != i && disk'[plan[i].target] == before[i]
    {
      if i != source {
        assert Done(plan, now, i);
      }
    }
    forall j | 0 <= j < |plan| && !Reached(plan, now', j)
      ensures disk'[j] == before[j]
    {
      assert !Reached(plan, now, j) by {
        assert forall i: nat | Done(plan, now, i) :: Done(plan, now', i);
      }
    }
  }

  lemma Start(plan: seq<Entry>, before: seq<Block>)
    requires |before| == |plan|
    ensures Progress(plan, plan, before, before, {})
  {
  }

  lemma FewerPending(now: seq<Entry>, source: nat)
    requires source < |now| && now[source].pending
    ensures PendingSet(now[source := Entry(now[source].target, false)]) < PendingSet(now)
  {
    assert source in PendingSet(now);
  }

  lemma Finish(plan: seq<Entry>, now: seq<Entry>, before: seq<Block>, disk: seq<Block>)
    requires Progress(plan, now, before, disk, {})
    requires forall j :: 0 <= j < |now| ==> !now[j].pending
    ensures Migrated(plan, before, disk)
    ensures forall i :: 0 <= i < |plan| ==> !SelfTarget(plan, i)
  {
    forall i | 0 <= i < |plan| && plan[i].pending
      ensures Done(plan, now, i)
    {
    }
    forall j | 0 <= j < |plan| && !IsTarget(plan, j)
      ensures disk[j] == before[j]
    {
      assert !Reached(plan, now, j);
    }
  }

  ghost predicate Preservable(plan: seq<Entry>, before: seq<Block>) {
    exists after :: Migrated(plan, before, after)
  }

  /** Data can survive on every disk exactly when no two pending blocks share a target. */
  lemma PreservableIffInjective(plan: seq<Entry>)
    requires InRange(plan)
    ensures (forall before :: |before| == |plan| ==> Preservable(plan, before)) <==> Injective(plan)
  {
    if Injective(plan) {
      forall before: seq<Block> | |before| == |plan|
        ensures Preservable(plan, before)
      {
        InjectiveIsPreservable(plan, before);
      }
    } else {
      var i, j :| 0 <= i < |plan| && 0 <= j < |plan| && plan[i].pending && plan[j].pending
                  && plan[i].target == plan[j].target && i != j;
      var before: seq<Block> := seq(|plan|, k => if k == i then [1] else [2]);
      Contended(plan, before, i, j);
    }
  }

  lemma Contended(plan: seq<Entry>, before: seq<Block>, i: nat, j: nat)
    requires i < |plan| && j < |plan| && plan[i].pending && plan[j].pending && plan[i].target == plan[j].target
    requires |before| == |plan| && before[i] != before[j]
    ensures !Preservable(plan, before)
  {
  }

  lemma InjectiveIsPreservable(plan: seq<Entry>, before: seq<Block>)
    requires InRange(plan) && Injective(plan) && |before| == |plan|
    ensures Preservable(plan, before)
  {
    var after := seq(|plan|, j requires 0 <= j < |plan| =>
      if IsTarget(plan, j) then
        var i :| 0 <= i < |plan| && plan[i].pending && plan[i].target == j; before[i]
      else before[j]);
    forall i | 0 <= i < |plan| && plan[i].pending
      ensures after[plan[i].target] == before[i]
    {
      assert IsTarget(plan, plan[i].target);
    }
    assert Migrated(plan, before, after);
  }
}
