/** The strings block of a device tree and its interner (src/stringblock.c). */
module StringBlock {
  import opened Util
  import opened Fdt

  /** The string starts here: an empty string at a NUL, another one where strcmp says so. A name may match the tail of a
      longer one. */
  predicate Matches(b: Bytes, i: nat, str: Bytes)
    requires i < |b|
  {
    if str == [] then b[i] == NUL else b[i] != NUL && StringAt(b, i) == str
  }

  /** The first match from i on. */
  function FindFrom(b: Bytes, str: Bytes, i: nat): (r: Option<nat>)
    ensures r.Some? ==> i <= r.value < |b| && Matches(b, r.value, str)
    decreases |b| - i
  {
    if i >= |b| then None
    else if Matches(b, i, str) then Some(i)
    else FindFrom(b, str, i + 1)
  }

  function Find(b: Bytes, str: Bytes): (r: Option<nat>)
    ensures r.Some? ==> r.value < |b| && Matches(b, r.value, str)
  {
    FindFrom(b, str, 0)
  }

  /** The block and the offset after making sure that `str` is in it. */
  function Intern(b: Bytes, str: Bytes): (Bytes, nat) {
    match Find(b, str)
    case Some(offset) => (b, offset)
    case None => (b + str + [NUL], |b|)
  }

  function InternAll(b: Bytes, strs: seq<Bytes>): (Bytes, seq<nat>)
    decreases |strs|
  {
    if strs == [] then (b, [])
    else
      var (b1, offset) := Intern(b, strs[0]);
      var (b2, offsets) := InternAll(b1, strs[1..]);
      (b2, [offset] + offsets)
  }

  /** Every string in the block is NUL-terminated. */
  predicate Terminated(b: Bytes) {
    b == [] || b[|b| - 1] == NUL
  }

  /** stringblock_find_string_raw; -1 is None. */
  method FindString(b: Bytes, str: Bytes) returns (r: Option<nat>)
    ensures r == Find(b, str)
  {
    for i := 0 to |b|
      invariant Find(b, str) == FindFrom(b, str, i)
    {
      if str != [] {
        if b[i] != NUL && StringAt(b, i) == str {
          return Some(i);
        }
      } else if b[i] == NUL {
        return Some(i);
      }
    }
    return None;
  }

  /** struct stringblock_helper. */
  class Helper {
    var block: Bytes
    var capacity: nat

    constructor (block: Bytes, capacity: nat)
      requires |block| <= capacity
      ensures this.block == block && this.capacity == capacity
    {
      this.block, this.capacity := block, capacity;
    }

    /** stringblock_append_string_force. The buffer is doubled at most once, so it must have room for the string
        then. */
    method AppendForce(str: Bytes) returns (offset: int)
      requires |block| <= capacity && |block| + |str| + 1 <= 2 * capacity && NUL !in str
      modifies this
      ensures |block| <= capacity && old(capacity) <= capacity
      ensures str != [] ==> block == old(block) + str + [NUL] && offset == |old(block)|
      ensures str == [] ==>
                block == old(block) && offset == match Find(block, str) case Some(i) => i case None => |block| - 1
    {
      if str == [] {
        for i := 0 to |block|
          invariant Find(block, str) == FindFrom(block, str, i)
        {
          if block[i] == NUL {
            return i;
          }
        }
        return |block| - 1;
      }
      if |block| + |str| + 1 > capacity {
        capacity := capacity * 2;
      }
      offset := |block|;
      block := block + str + [NUL];
    }

    /** stringblock_append_string_safely. */
    method AppendSafely(str: Bytes) returns (offset: int)
      requires |block| <= capacity && |block| + |str| + 1 <= 2 * capacity && NUL !in str
      modifies this
      ensures |block| <= capacity && old(capacity) <= capacity
      ensures str != [] ==> (block, offset) == Intern(old(block), str)
      ensures str == [] ==>
                block == old(block) && offset == match Find(block, str) case Some(i) => i case None => |block| - 1
    {
      var found := FindString(block, str);
      if found.Some? {
        return found.value;
      }
      offset := AppendForce(str);
    }
  }

  // ---- Interning is stable ----

  lemma {:induction false} StringAtPrefix(b: Bytes, x: Bytes, i: nat)
    requires Terminated(b) && i < |b|
    ensures StringAt(b + x, i) == StringAt(b, i)
    decreases |b| - i
  {
    assert (b + x)[i] == b[i];
    if b[i] != NUL {
      StringAtPrefix(b, x, i + 1);
    }
  }

  lemma {:induction false} FindFromStable(b: Bytes, x: Bytes, str: Bytes, i: nat)
    requires Terminated(b) && i <= |b|
    ensures FindFrom(b + x, str, i) ==
              if FindFrom(b, str, i).Some? then FindFrom(b, str, i) else FindFrom(b + x, str, |b|)
    decreases |b| - i
  {
    if i < |b| {
      StringAtPrefix(b, x, i);
      assert (b + x)[i] == b[i];
      FindFromStable(b, x, str, i + 1);
    }
  }

  /** A string appended to a terminated block reads back, and does not make the block unterminated. */
  lemma AppendReads(b: Bytes, str: Bytes)
    requires NUL !in str
    ensures Terminated(b + str + [NUL]) && StringAt(b + str + [NUL], |b|) == str
  {
    var b' := b + str + [NUL];
    assert b'[|b|..] == str + [NUL];
    assert At(b', |b|, str + [NUL]);
    ReadString(b', |b|, str);
  }

  /** After interning a string: the old block is a prefix, the string is found where the interner says and reads back
      from there, and whatever could be found before is still found at the same place. */
  lemma InternIsStable(b: Bytes, str: Bytes)
    requires Terminated(b) && NUL !in str && str != []
    ensures var (b', offset) := Intern(b, str);
            && b <= b' && Terminated(b')
            && StringAt(b', offset) == str && Find(b', str) == Some(offset)
    ensures forall other :: Find(b, other).Some? ==> Find(Intern(b, str).0, other) == Find(b, other)
    ensures forall i :: 0 <= i < |b| ==> StringAt(Intern(b, str).0, i) == StringAt(b, i)
  {
    var x := str + [NUL];
    assert b + str + [NUL] == b + x;
    forall other | Find(b, other).Some?
      ensures Find(b + x, other) == Find(b, other)
    {
      FindFromStable(b, x, other, 0);
    }
    forall i | 0 <= i < |b|
      ensures StringAt(b + x, i) == StringAt(b, i)
    {
      StringAtPrefix(b, x, i);
    }
    AppendReads(b, str);
    FindFromStable(b, x, str, 0);
    assert (b + x)[|b|] == str[0];
  }

  ghost predicate AllInternable(strs: seq<Bytes>) {
    forall k :: 0 <= k < |strs| ==> strs[k] != [] && NUL !in strs[k]
  }

  /** The same after any sequence of strings, for all of them at once. */
  lemma {:induction false} InternAllIsStable(b: Bytes, strs: seq<Bytes>)
    requires Terminated(b) && AllInternable(strs)
    ensures var (b', offsets) := InternAll(b, strs);
            && b <= b' && Terminated(b') && |offsets| == |strs|
            && (forall k :: 0 <= k < |strs| ==>
                  StringAt(b', offsets[k]) == strs[k] && Find(b', strs[k]) == Some(offsets[k]))
            && (forall other :: Find(b, other).Some? ==> Find(b', other) == Find(b, other))
            && (forall i :: 0 <= i < |b| ==> StringAt(b', i) == StringAt(b, i))
    decreases |strs|
  {
    hide Find, StringAt;
    if strs != [] {
      InternIsStable(b, strs[0]);
      var (b1, offset) := Intern(b, strs[0]);
      InternAllIsStable(b1, strs[1..]);
      FoundInside(b1, strs[0]);
    }
  }

  lemma {:induction false} InternAllSnoc(b: Bytes, strs: seq<Bytes>, str: Bytes)
    ensures var (b1, offsets) := InternAll(b, strs);
            var (b2, offset) := Intern(b1, str);
            InternAll(b, strs + [str]) == (b2, offsets + [offset])
    decreases |strs|
  {
    hide Intern;
    if strs == [] {
      assert strs + [str] == [str] && [str][1..] == [];
      var (b1, offset) := Intern(b, str);
      assert InternAll(b1, []) == (b1, []);
      assert [offset] + [] == [] + [offset];
    } else {
      var (b1, offset) := Intern(b, strs[0]);
      InternAllSnoc(b1, strs[1..], str);
      var (b2, offsets) := InternAll(b1, strs[1..]);
      assert [offset] + (offsets + [Intern(b2, str).1]) == [offset] + offsets + [Intern(b2, str).1];
      assert (strs + [str])[0] == strs[0] && (strs + [str])[1..] == strs[1..] + [str];
    }
  }

  lemma {:induction false} InternAllGrowth(b: Bytes, strs: seq<Bytes>, limit: nat)
    requires forall k :: 0 <= k < |strs| ==> |strs[k]| < limit
    ensures |InternAll(b, strs).0| <= |b| + Times(|strs|, limit)
    ensures |InternAll(b, strs).1| == |strs|
    decreases |strs|
  {
    if strs != [] {
      var (b1, offset) := Intern(b, strs[0]);
      InternAllGrowth(b1, strs[1..], limit);
    }
  }

  lemma FoundInside(b: Bytes, str: Bytes)
    requires Find(b, str).Some?
    ensures Find(b, str).value < |b|
  {
  }

  lemma FoundReads(b: Bytes, str: Bytes)
    requires Find(b, str).Some? && str != []
    ensures StringAt(b, Find(b, str).value) == str
  {
  }
}
