/** The edit commands of eedit mode (src/ept.c, src/parg.c) as operations on the list of partitions. */
module Edit {
  import opened Util
  import opened Ept
  import opened Table

  // ---- Commands, as struct parg_editor holds them ----

  datatype Selector = ByName(name: string) | ByPosition(position: int)

  datatype Change = Preserve | Set(value: u64) | Add(value: u64) | Subtract(value: u64)

  datatype Placement = Unplaced | Absolute(place: int) | Relative(place: int)

  datatype Action =
    | Adjust(newName: Option<string>, offset: Change, size: Change, masks: Option<u32>)
    | Delete
    | Clone(cloneName: string)
    | Place(placement: Placement)

  /** struct parg_definer; a field that is not set is None. */
  datatype Definer = Definer(name: string, offset: Option<u64>, relative: bool, size: Option<u64>, masks: Option<u32>)

  datatype Editor = Modify(selector: Selector, action: Action) | Define(definer: Definer)

  // ---- What they mean ----

  /** ept_eedit_part_select. */
  function Selected(t: seq<Partition>, selector: Selector): (r: Option<nat>)
    ensures r.Some? ==> r.value < |t|
  {
    match selector
    case ByName(name) => IndexOf(t, name)
    case ByPosition(n) => if 0 <= n < |t| then Some(n) else if -|t| <= n < 0 then Some(|t| + n) else None
  }

  /** parg_adjustor_adjust_u64; adding wraps around, subtracting too much fails. */
  function Adjusted(target: u64, change: Change): Option<u64> {
    match change
    case Preserve => Some(target)
    case Set(value) => Some(value)
    case Add(value) => Some(Add64(target, value))
    case Subtract(value) => if target < value then None else Some(target - value)
  }

  /** ept_sanitize_offset. */
  function SaneOffset(offset: u64, capacity: u64): u64 {
    if offset > capacity then capacity else offset
  }

  /** ept_sanitize_size. */
  function SaneSize(offset: u64, size: u64, capacity: u64): u64 {
    if Add64(offset, size) > capacity then Sub64(size, Sub64(Add64(offset, size), capacity)) else size
  }

  /** ept_eedit_adjust. */
  function AdjustPart(p: Partition, a: Action, capacity: u64): Option<Partition>
    requires a.Adjust?
  {
    match Adjusted(p.offset, a.offset)
    case None => None
    case Some(raw) =>
      match Adjusted(p.size, a.size)
      case None => None
      case Some(size) =>
        var offset := SaneOffset(raw, capacity);
        Some(Partition(if a.newName.Some? then a.newName.value else p.name, offset, SaneSize(offset, size, capacity),
                       if a.masks.Some? then a.masks.value else p.masks))
  }

  function Remove<T>(t: seq<T>, i: nat): seq<T>
    requires i < |t|
  {
    t[..i] + t[i + 1..]
  }

  function Insert<T>(t: seq<T>, i: nat, x: T): seq<T>
    requires i <= |t|
  {
    t[..i] + [x] + t[i..]
  }

  /** Taking an element out and putting it back at j. */
  function Move<T>(t: seq<T>, i: nat, j: nat): seq<T>
    requires i < |t| && j < |t|
  {
    Insert(Remove(t, i), j, t[i])
  }

  /** The place that ept_eedit_place aims for. */
  function PlaceTarget(placement: Placement, i: nat, count: nat): (r: Option<nat>)
    ensures r.Some? ==> r.value < count
  {
    var target := match placement
                  case Unplaced => -1
                  case Absolute(place) => if place >= 0 then place else count + place
                  case Relative(place) => i + place;
    if 0 <= target < count then Some(target) else None
  }

  function DefinedOffset(d: Definer, end: u64, capacity: u64): u64 {
    SaneOffset(match d.offset case None => end case Some(v) => if d.relative then Add64(end, v) else v, capacity)
  }

  /** The partition that a definer adds behind the greatest end. */
  function Defined(d: Definer, end: u64, capacity: u64): Partition {
    var offset := DefinedOffset(d, end, capacity);
    var size := match d.size case None => Sub64(capacity, offset) case Some(v) => v;
    Partition(d.name, offset, SaneSize(offset, size, capacity), if d.masks.Some? then d.masks.value else 4)
  }

  function ApplyAction(t: seq<Partition>, i: nat, a: Action, capacity: u64): Option<seq<Partition>>
    requires i < |t|
  {
    match a
    case Adjust(_, _, _, _) =>
      (match AdjustPart(t[i], a, capacity) case None => None case Some(p) => Some(t[i := p]))
    case Delete => Some(Remove(t, i))
    case Clone(name) => if |t| >= MAX_PARTITIONS_COUNT then None else Some(t + [t[i].(name := name)])
    case Place(placement) =>
      match PlaceTarget(placement, i, |t|) case None => None case Some(j) => Some(Move(t, i, j))
  }

  /** One command. */
  function Apply(t: seq<Partition>, e: Editor, capacity: u64): Option<seq<Partition>> {
    match e
    case Modify(selector, action) =>
      (match Selected(t, selector) case None => None case Some(i) => ApplyAction(t, i, action, capacity))
    case Define(d) =>
      if |t| >= MAX_PARTITIONS_COUNT then None else Some(t + [Defined(d, Capacity(t), capacity)])
  }

  /** A run of commands. */
  function ApplyAll(t: seq<Partition>, editors: seq<Editor>, capacity: u64): Option<seq<Partition>>
    decreases |editors|
  {
    if editors == [] then Some(t)
    else
      match Apply(t, editors[0], capacity)
      case None => None
      case Some(t') => ApplyAll(t', editors[1..], capacity)
  }

  // ---- What a command does to the table, and when it fails ----

  /** What is left of a sum of two 64-bit numbers in 64 bits. */
  function Wrapped(sum: nat): nat {
    if sum < U64_LIMIT then sum else sum - U64_LIMIT
  }

  /** The first partition of that name, or the one at that position; position -1 is the last. */
  predicate Selects(t: seq<Partition>, selector: Selector, i: nat) {
    && i < |t|
    && match selector
       case ByName(name) => t[i].name == name && forall k :: 0 <= k < i ==> t[k].name != name
       case ByPosition(n) => n == i || n == i - |t|
  }

  /** Only subtracting more than there is is impossible. */
  predicate Impossible(number: u64, change: Change) {
    change.Subtract? && change.value > number
  }

  predicate Changes(number: u64, change: Change, number': int) {
    match change
    case Preserve => number' == number
    case Set(v) => number' == v
    case Add(v) => number' == Wrapped(number + v)
    case Subtract(v) => number' == number - v
  }

  /** A size is cut to what there is behind the offset, unless it wraps around. */
  predicate CutTo(offset: u64, size: int, size': u64, capacity: u64) {
    size' == if offset + size <= capacity then size else if offset + size < U64_LIMIT then capacity - offset else size
  }

  /** p adjusted is p': first the numbers, then the limits. */
  ghost predicate AdjustedTo(p: Partition, newName: Option<string>, offset: Change, size: Change, masks: Option<u32>,
                             p': Partition, capacity: u64) {
    && p'.name == (if newName.Some? then newName.value else p.name)
    && p'.masks == (if masks.Some? then masks.value else p.masks)
    && exists o: u64, z: u64 ::
         Changes(p.offset, offset, o) && Changes(p.size, size, z) && p'.offset == Min(o, capacity)
         && CutTo(p'.offset, z, p'.size, capacity)
  }

  /** Place j of n, for a partition at place i. */
  predicate PlacesAt(placement: Placement, i: nat, n: nat, j: nat) {
    && j < n
    && match placement
       case Unplaced => false
       case Absolute(k) => k == j || k == j - n
       case Relative(k) => j == i + k
  }

  /** The partition that a definer makes behind `end`. */
  predicate DefinedBy(p: Partition, d: Definer, end: u64, capacity: u64) {
    var offset := match d.offset case None => end case Some(v) => if d.relative then Wrapped(end + v) else v;
    && p.name == d.name && p.masks == (if d.masks.Some? then d.masks.value else 4)
    && p.offset == Min(offset, capacity)
    && match d.size
       case None => p.offset + p.size == capacity
       case Some(v) => CutTo(p.offset, v, p.size, capacity)
  }

  /** `end` is the greatest end of a partition. */
  ghost predicate GreatestEnd(t: seq<Partition>, end: u64) {
    && (forall i :: 0 <= i < |t| ==> Wrapped(t[i].offset + t[i].size) <= end)
    && if t == [] then end == 0 else exists i :: 0 <= i < |t| && end == Wrapped(t[i].offset + t[i].size)
  }

  ghost predicate ActionFails(t: seq<Partition>, i: nat, a: Action)
    requires i < |t|
  {
    match a
    case Adjust(_, offset, size, _) => Impossible(t[i].offset, offset) || Impossible(t[i].size, size)
    case Delete => false
    case Clone(_) => |t| >= MAX_PARTITIONS_COUNT
    case Place(placement) => forall j: nat :: !PlacesAt(placement, i, |t|, j)
  }

  /** What t becomes when the action is taken on its partition i. */
  ghost predicate ActionDoes(t: seq<Partition>, i: nat, a: Action, capacity: u64, t': seq<Partition>)
    requires i < |t|
  {
    match a
    case Adjust(newName, offset, size, masks) =>
      && |t'| == |t| && (forall k :: 0 <= k < |t| && k != i ==> t'[k] == t[k])
      && AdjustedTo(t[i], newName, offset, size, masks, t'[i], capacity)
    case Delete => |t'| == |t| - 1 && forall k :: 0 <= k < |t'| ==> t'[k] == t[if k < i then k else k + 1]
    case Clone(name) =>
      |t'| == |t| + 1 && t'[..|t|] == t && t'[|t|] == Partition(name, t[i].offset, t[i].size, t[i].masks)
    case Place(placement) =>
      exists j: nat :: PlacesAt(placement, i, |t|, j) && |t'| == |t| && t'[j] == t[i]
        && t'[..j] + t'[j + 1..] == t[..i] + t[i + 1..]
  }

  /** When a command fails. */
  ghost predicate EditFails(t: seq<Partition>, e: Editor) {
    match e
    case Modify(selector, action) => forall i: nat :: Selects(t, selector, i) ==> ActionFails(t, i, action)
    case Define(_) => |t| >= MAX_PARTITIONS_COUNT
  }

  /** What a command makes of the table. */
  ghost predicate EditDoes(t: seq<Partition>, e: Editor, capacity: u64, t': seq<Partition>) {
    match e
    case Modify(selector, action) =>
      exists i: nat :: Selects(t, selector, i) && ActionDoes(t, i, action, capacity, t')
    case Define(d) =>
      && |t'| == |t| + 1 && t'[..|t|] == t
      && exists end: u64 :: GreatestEnd(t, end) && DefinedBy(t'[|t|], d, end, capacity)
  }

  lemma {:induction false} FirstOfName(t: seq<Partition>, name: string)
    ensures IndexOf(t, name).Some? ==> forall k :: 0 <= k < IndexOf(t, name).value ==> t[k].name != name
    decreases |t|
  {
    if t != [] && t[0].name != name {
      FirstOfName(t[1..], name);
      if IndexOf(t, name).Some? {
        forall k | 0 <= k < IndexOf(t, name).value
          ensures t[k].name != name
        {
          assert k > 0 ==> t[k] == t[1..][k - 1];
        }
      }
    }
  }

  lemma SelectedSelects(t: seq<Partition>, selector: Selector)
    ensures forall i: nat :: Selects(t, selector, i) <==> Selected(t, selector) == Some(i)
  {
    hide IndexOf;
    if selector.ByName? {
      FirstOfName(t, selector.name);
    }
  }

  lemma AdjustedChanges(number: u64, change: Change)
    ensures Adjusted(number, change) == None <==> Impossible(number, change)
    ensures Adjusted(number, change).Some? ==> Changes(number, change, Adjusted(number, change).value)
  {
  }

  lemma SaneIsCut(offset: u64, size: u64, capacity: u64)
    requires offset <= capacity
    ensures CutTo(offset, size, SaneSize(offset, size, capacity), capacity)
  {
  }

  lemma AdjustMeans(p: Partition, a: Action, capacity: u64)
    requires a.Adjust?
    ensures AdjustPart(p, a, capacity) == None <==> Impossible(p.offset, a.offset) || Impossible(p.size, a.size)
    ensures var p' := AdjustPart(p, a, capacity);
            p'.Some? ==> AdjustedTo(p, a.newName, a.offset, a.size, a.masks, p'.value, capacity)
  {
    hide Adjusted, Changes, Impossible, SaneSize, CutTo;
    AdjustedChanges(p.offset, a.offset);
    AdjustedChanges(p.size, a.size);
    if Adjusted(p.offset, a.offset).Some? && Adjusted(p.size, a.size).Some? {
      SaneIsCut(SaneOffset(Adjusted(p.offset, a.offset).value, capacity), Adjusted(p.size, a.size).value, capacity);
    }
  }

  lemma TargetPlaces(placement: Placement, i: nat, n: nat)
    ensures forall j: nat :: PlacesAt(placement, i, n, j) <==> PlaceTarget(placement, i, n) == Some(j)
  {
  }

  lemma DefinedMeans(d: Definer, end: u64, capacity: u64)
    ensures DefinedBy(Defined(d, end, capacity), d, end, capacity)
  {
    hide SaneSize, CutTo;
    var offset := DefinedOffset(d, end, capacity);
    var size := match d.size case None => capacity - offset case Some(v) => v;
    SaneIsCut(offset, size, capacity);
    CutFits(offset, size, SaneSize(offset, size, capacity), capacity);
  }

  lemma CutFits(offset: u64, size: u64, size': u64, capacity: u64)
    requires CutTo(offset, size, size', capacity)
    ensures offset + size <= capacity ==> size' == size
  {
  }

  lemma CapacityIsGreatest(t: seq<Partition>)
    ensures GreatestEnd(t, Capacity(t))
  {
    CapacityIsGreatestEnd(t);
    hide Capacity;
    forall i | 0 <= i < |t|
      ensures Wrapped(t[i].offset + t[i].size) == Add64(t[i].offset, t[i].size)
    {
    }
    EmptyCapacity();
  }

  lemma EmptyCapacity()
    ensures Capacity([]) == 0
  {
  }

  lemma ActionMeans(t: seq<Partition>, i: nat, a: Action, capacity: u64)
    requires i < |t|
    ensures ApplyAction(t, i, a, capacity) == None <==> ActionFails(t, i, a)
    ensures ApplyAction(t, i, a, capacity).Some? ==> ActionDoes(t, i, a, capacity, ApplyAction(t, i, a, capacity).value)
  {
    hide AdjustPart, Impossible, AdjustedTo, PlaceTarget, PlacesAt, Move, Insert;
    match a
    case Adjust(_, _, _, _) => AdjustMeans(t[i], a, capacity);
    case Delete =>
    case Clone(_) =>
    case Place(placement) =>
      TargetPlaces(placement, i, |t|);
      var j := PlaceTarget(placement, i, |t|);
      if j.Some? {
        MoveIsPermutation(t, i, j.value);
      }
  }

  /** Every command does what it says, and fails exactly when it cannot be done. */
  lemma EditMeans(t: seq<Partition>, e: Editor, capacity: u64)
    ensures Apply(t, e, capacity) == None <==> EditFails(t, e)
    ensures Apply(t, e, capacity).Some? ==> EditDoes(t, e, capacity, Apply(t, e, capacity).value)
  {
    hide ApplyAction, ActionFails, ActionDoes, Selects, Selected, Defined, DefinedBy, Capacity, GreatestEnd;
    match e
    case Modify(selector, action) =>
      SelectedSelects(t, selector);
      var i := Selected(t, selector);
      if i.Some? {
        ActionMeans(t, i.value, action, capacity);
      }
    case Define(d) =>
      CapacityIsGreatest(t);
      DefinedMeans(d, Capacity(t), capacity);
  }

  function Grow(selector: Selector, value: u64): Editor {
    Modify(selector, Adjust(None, Preserve, Add(value), None))
  }

  function Shrink(selector: Selector, value: u64): Editor {
    Modify(selector, Adjust(None, Preserve, Subtract(value), None))
  }

  function Shift(selector: Selector, value: u64): Editor {
    Modify(selector, Adjust(None, Add(value), Preserve, None))
  }

  /** With room for it, growing raises the size by exactly that, and shifting the offset; nothing else changes. */
  lemma GrowAndShift(t: seq<Partition>, selector: Selector, i: nat, value: u64, capacity: u64)
    requires Selects(t, selector, i) && t[i].End() + value <= capacity
    ensures Apply(t, Grow(selector, value), capacity) == Some(t[i := t[i].(size := t[i].size + value)])
    ensures Apply(t, Shift(selector, value), capacity) == Some(t[i := t[i].(offset := t[i].offset + value)])
  {
    hide Selects, Selected;
    SelectedSelects(t, selector);
  }

  function Enlarged(t: seq<Partition>, i: nat, value: u64): seq<Partition>
    requires i < |t| && t[i].size + value < U64_LIMIT
  {
    t[i := t[i].(size := t[i].size + value)]
  }

  lemma EnlargedTwice(t: seq<Partition>, i: nat, v: u64, w: u64)
    requires i < |t| && t[i].size + v + w < U64_LIMIT
    ensures var t' := Enlarged(t, i, v);
            && |t'| == |t| && (forall k :: 0 <= k < |t| ==> t'[k].name == t[k].name)
            && t'[i].End() == t[i].End() + v && t'[i].size == t[i].size + v
            && Enlarged(t', i, w) == Enlarged(t, i, v + w)
  {
  }

  lemma GrowEnlarges(t: seq<Partition>, selector: Selector, i: nat, value: u64, capacity: u64)
    requires Selects(t, selector, i) && t[i].End() + value <= capacity
    ensures Apply(t, Grow(selector, value), capacity) == Some(Enlarged(t, i, value))
  {
    hide Apply, Grow;
    GrowAndShift(t, selector, i, value, capacity);
  }

  /** Growing twice is growing by the sum. */
  lemma GrowTwice(t: seq<Partition>, selector: Selector, i: nat, v: u64, w: u64, capacity: u64)
    requires Selects(t, selector, i) && t[i].End() + v + w <= capacity
    ensures ApplyAll(t, [Grow(selector, v), Grow(selector, w)], capacity) == Apply(t, Grow(selector, v + w), capacity)
  {
    EnlargedTwice(t, i, v, w);
    StillSelects(t, Enlarged(t, i, v), selector, i);
    hide Selects, Apply, Grow, ApplyAll, Enlarged;
    GrowEnlarges(t, selector, i, v, capacity);
    GrowEnlarges(Enlarged(t, i, v), selector, i, w, capacity);
    GrowEnlarges(t, selector, i, v + w, capacity);
    OneByOne(t, Enlarged(t, i, v), Grow(selector, v), Grow(selector, w), capacity);
  }

  lemma StillSelects(t: seq<Partition>, t': seq<Partition>, selector: Selector, i: nat)
    requires Selects(t, selector, i) && |t'| == |t| && forall k :: 0 <= k < |t| ==> t'[k].name == t[k].name
    ensures Selects(t', selector, i)
  {
  }

  lemma OneByOne(t: seq<Partition>, t': seq<Partition>, e: Editor, e': Editor, capacity: u64)
    requires Apply(t, e, capacity) == Some(t')
    ensures ApplyAll(t, [e, e'], capacity) == Apply(t', e', capacity)
  {
    hide Apply;
    assert [e, e'][1..] == [e'] && [e'][1..] == [];
    match Apply(t', e', capacity)
    case None =>
    case Some(t'') => assert ApplyAll(t'', [], capacity) == Some(t'');
  }

  /** Shrinking fails exactly if there is less, and else lowers the size by exactly that; growing back undoes it. */
  lemma ShrinkLowers(t: seq<Partition>, selector: Selector, i: nat, value: u64, capacity: u64)
    requires Selects(t, selector, i) && t[i].End() <= capacity
    ensures value > t[i].size ==> Apply(t, Shrink(selector, value), capacity) == None
    ensures value <= t[i].size ==>
              && Apply(t, Shrink(selector, value), capacity) == Some(t[i := t[i].(size := t[i].size - value)])
              && ApplyAll(t, [Shrink(selector, value), Grow(selector, value)], capacity) == Some(t)
  {
    hide Selects, Selected;
    SelectedSelects(t, selector);
    if value <= t[i].size {
      var t' := t[i := t[i].(size := t[i].size - value)];
      StillSelects(t, t', selector, i);
      GrowAndShift(t', selector, i, value, capacity);
      OneByOne(t, t', Shrink(selector, value), Grow(selector, value), capacity);
      assert t'[i := t'[i].(size := t'[i].size + value)] == t;
    }
  }

  // ---- The commands on the table in memory ----

  /** ept_eedit_part_select. */
  method SelectPart(table: EptTable, selector: Selector) returns (r: Option<nat>)
    requires table.Valid()
    ensures r == Selected(table.Contents(), selector)
  {
    match selector {
      case ByName(name) =>
        r := table.Find(name);
      case ByPosition(n) =>
        if n >= 0 {
          if n + 1 > table.count {
            return None;
          }
          return Some(n);
        }
        if -n > table.count {
          return None;
        }
        return Some(table.count + n);
    }
  }

  /** Lines 1153-1156: shift the following partitions down. */
  method DeletePart(table: EptTable, i: nat)
    requires table.Valid() && i < table.count
    modifies table`count, table.slots
    ensures table.Valid() && table.Contents() == Remove(old(table.Contents()), i)
  {
    ghost var t := table.Contents();
    ShiftDown(table, i, table.count - 1);
    table.count := table.count - 1;
    forall k | 0 <= k < table.count
      ensures table.Contents()[k] == Remove(t, i)[k]
    {
      assert table.Contents()[k] == table.slots[k];
    }
  }

  /** Lines 1113-1115. */
  method ShiftDown(table: EptTable, i: nat, j: nat)
    requires table.Valid() && i <= j < table.count
    modifies table.slots
    ensures forall k :: i <= k < j ==> table.slots[k] == old(table.slots[k + 1])
    ensures forall k :: (0 <= k < i || j <= k < table.count) ==> table.slots[k] == old(table.slots[k])
  {
    var hot := i;
    while hot < j
      invariant i <= hot <= j
      invariant forall k :: i <= k < hot ==> table.slots[k] == old(table.slots[k + 1])
      invariant forall k :: (0 <= k < i || hot <= k < table.count) ==> table.slots[k] == old(table.slots[k])
    {
      table.slots[hot] := table.slots[hot + 1];
      hot := hot + 1;
    }
  }

  /** Lines 1119-1121. */
  method ShiftUp(table: EptTable, i: nat, j: nat)
    requires table.Valid() && j <= i < table.count
    modifies table.slots
    ensures forall k :: j < k <= i ==> table.slots[k] == old(table.slots[k - 1])
    ensures forall k :: (0 <= k <= j || i < k < table.count) ==> table.slots[k] == old(table.slots[k])
  {
    var hot := i;
    while hot > j
      invariant j <= hot <= i
      invariant forall k :: hot < k <= i ==> table.slots[k] == old(table.slots[k - 1])
      invariant forall k :: (0 <= k <= hot || i < k < table.count) ==> table.slots[k] == old(table.slots[k])
    {
      table.slots[hot] := table.slots[hot - 1];
      hot := hot - 1;
    }
  }

  /** Lines 1110-1123: shift what is between down or up by one, and put the partition in the hole. */
  method MovePart(table: EptTable, i: nat, j: nat)
    requires table.Valid() && i < table.count && j < table.count
    modifies table.slots
    ensures table.Valid() && table.Contents() == Move(old(table.Contents()), i, j)
  {
    hide Move;
    ghost var t := table.Contents();
    var buffer := table.slots[i];
    if j > i {
      ShiftDown(table, i, j);
      table.slots[j] := buffer;
    } else if j < i {
      ShiftUp(table, i, j);
      table.slots[j] := buffer;
    }
    MoveAt(t, i, j, 0);
    forall k | 0 <= k < table.count
      ensures table.Contents()[k] == Move(t, i, j)[k]
    {
      assert table.Contents()[k] == table.slots[k];
      MoveAt(t, i, j, k);
    }
  }

  lemma MoveAt<T>(t: seq<T>, i: nat, j: nat, k: nat)
    requires i < |t| && j < |t| && k < |t|
    ensures |Move(t, i, j)| == |t|
    ensures Move(t, i, j)[k] ==
              if k == j then t[i] else if i <= k < j then t[k + 1] else if j < k <= i then t[k - 1] else t[k]
  {
  }

  /** ept_eedit_adjust; when it fails the name may be changed already. */
  method AdjustInPlace(table: EptTable, i: nat, a: Action, capacity: u64) returns (r: int)
    requires table.Valid() && i < table.count && a.Adjust?
    modifies table.slots
    ensures table.Valid()
    ensures var p := AdjustPart(old(table.Contents())[i], a, capacity);
            && (r == 0 <==> p.Some?) && (r == 0 ==> table.Contents() == old(table.Contents())[i := p.value])
  {
    var part := table.slots[i];
    if a.newName.Some? {
      part := part.(name := a.newName.value);
      table.slots[i] := part;
    }
    var offset := Adjusted(part.offset, a.offset);
    if offset == None {
      return 1;
    }
    part := part.(offset := SaneOffset(offset.value, capacity));
    table.slots[i] := part;
    var size := Adjusted(part.size, a.size);
    if size == None {
      return 2;
    }
    part := part.(size := SaneSize(part.offset, size.value, capacity));
    if a.masks.Some? {
      part := part.(masks := a.masks.value);
    }
    table.slots[i] := part;
    return 0;
  }

  method AppendPart(table: EptTable, part: Partition) returns (ok: bool)
    requires table.Valid()
    modifies table`count, table.slots
    ensures table.Valid() && (ok <==> old(table.count) < MAX_PARTITIONS_COUNT)
    ensures table.Contents() == if ok then old(table.Contents()) + [part] else old(table.Contents())
  {
    ok := table.count < MAX_PARTITIONS_COUNT;
    if ok {
      table.slots[table.count] := part;
      table.count := table.count + 1;
    }
  }

  /** ept_eedit_each. */
  method EditEach(table: EptTable, e: Editor, capacity: u64) returns (r: int)
    requires table.Valid()
    modifies table`count, table.slots
    ensures table.Valid()
    ensures r == 0 <==> Apply(old(table.Contents()), e, capacity).Some?
    ensures r == 0 ==> table.Contents() == Apply(old(table.Contents()), e, capacity).value
    ensures r != 0 <==> EditFails(old(table.Contents()), e)
    ensures r == 0 ==> EditDoes(old(table.Contents()), e, capacity, table.Contents())
  {
    EditMeans(table.Contents(), e, capacity);
    hide AdjustPart, Move, Remove, Defined, PlaceTarget, Selected, EditFails, EditDoes;
    match e {
      case Modify(selector, action) =>
        var found := SelectPart(table, selector);
        if found == None {
          return 1;
        }
        var i := found.value;
        match action {
          case Adjust(_, _, _, _) =>
            var bad := AdjustInPlace(table, i, action, capacity);
            if bad != 0 {
              return 2;
            }
          case Delete =>
            DeletePart(table, i);
          case Clone(name) =>
            assert table.Contents()[i] == table.slots[i];
            var ok := AppendPart(table, table.slots[i].(name := name));
            if !ok {
              return 4;
            }
          case Place(placement) =>
            var target := PlaceTarget(placement, i, table.count);
            if target == None {
              return 5;
            }
            MovePart(table, i, target.value);
        }
      case Define(d) =>
        var end := GetCapacity(table.Contents());
        var ok := AppendPart(table, Defined(d, end, capacity));
        if !ok {
          return 1;
        }
    }
    return 0;
  }

  /** The loop of ept_eedit_parse. The table never holds more than 32 partitions on the way. */
  method EditAll(table: EptTable, editors: seq<Editor>, capacity: u64) returns (r: int)
    requires table.Valid()
    modifies table`count, table.slots
    ensures table.Valid()
    ensures r == 2 <==> editors == []
    ensures r == 0 <==> editors != [] && ApplyAll(old(table.Contents()), editors, capacity).Some?
    ensures r == 0 ==> table.Contents() == ApplyAll(old(table.Contents()), editors, capacity).value
  {
    hide Apply;
    if editors == [] {
      return 2;
    }
    ghost var goal := ApplyAll(table.Contents(), editors, capacity);
    assert editors[0..] == editors;
    for i := 0 to |editors|
      invariant table.Valid() && ApplyAll(table.Contents(), editors[i..], capacity) == goal
    {
      assert editors[i..][0] == editors[i] && editors[i..][1..] == editors[i + 1..];
      var bad := EditEach(table, editors[i], capacity);
      if bad != 0 {
        return 3;
      }
    }
    assert editors[|editors|..] == [];
    return 0;
  }

  // ---- What the commands keep ----

  /** Moving is a permutation in which the others keep their order. */
  lemma MoveIsPermutation<T>(t: seq<T>, i: nat, j: nat)
    requires i < |t| && j < |t|
    ensures |Move(t, i, j)| == |t| && multiset(Move(t, i, j)) == multiset(t)
    ensures Move(t, i, j)[j] == t[i] && Remove(Move(t, i, j), j) == Remove(t, i)
  {
    InsertRemove(Remove(t, i), j, t[i]);
    RemoveCounts(t, i);
  }

  lemma InsertRemove<T>(rest: seq<T>, j: nat, x: T)
    requires j <= |rest|
    ensures var m := Insert(rest, j, x);
            |m| == |rest| + 1 && m[j] == x && Remove(m, j) == rest && multiset(m) == multiset(rest) + multiset{x}
  {
    var m := Insert(rest, j, x);
    assert m[..j] == rest[..j] && m[j + 1..] == rest[j..];
    assert rest[..j] + rest[j..] == rest;
  }

  lemma RemoveCounts<T>(t: seq<T>, i: nat)
    requires i < |t|
    ensures multiset(Remove(t, i)) + multiset{t[i]} == multiset(t)
  {
    assert t == t[..i] + [t[i]] + t[i + 1..];
  }

  /** Moving back undoes it. */
  lemma MoveBack<T>(t: seq<T>, i: nat, j: nat)
    requires i < |t| && j < |t|
    ensures |Move(t, i, j)| == |t| && Move(Move(t, i, j), j, i) == t
  {
    hide Move;
    MoveAt(t, i, j, 0);
    var m := Move(t, i, j);
    MoveAt(m, j, i, 0);
    forall k | 0 <= k < |t|
      ensures Move(m, j, i)[k] == t[k]
    {
      MoveAt(m, j, i, k);
      MoveAt(t, i, j, k);
      MoveAt(t, i, j, j);
      if k < |t| - 1 {
        MoveAt(t, i, j, k + 1);
      }
      if k > 0 {
        MoveAt(t, i, j, k - 1);
      }
    }
  }

  lemma {:induction false} RunsKeepCount(t: seq<Partition>, editors: seq<Editor>, capacity: u64)
    requires |t| <= MAX_PARTITIONS_COUNT && ApplyAll(t, editors, capacity).Some?
    ensures |ApplyAll(t, editors, capacity).value| <= MAX_PARTITIONS_COUNT
    decreases |editors|
  {
    if editors != [] {
      RunsKeepCount(Apply(t, editors[0], capacity).value, editors[1..], capacity);
    }
  }

  /** offset + size leaves 64 bits and comes back below the capacity. */
  predicate WrapsInside(offset: u64, size: u64, capacity: u64) {
    U64_LIMIT <= offset + size <= U64_LIMIT + capacity
  }

  /** Exactly when a sanitized partition ends within the capacity. */
  lemma SaneEnd(offset: u64, size: u64, capacity: u64)
    requires offset <= capacity
    ensures offset + SaneSize(offset, size, capacity) <= capacity <==> !WrapsInside(offset, size, capacity)
  {
  }

  /** A command sets an offset and a size whose sum wraps around into the table. */
  predicate Wraps(t: seq<Partition>, e: Editor, capacity: u64) {
    match e
    case Modify(selector, action) =>
      var i := Selected(t, selector);
      && i.Some? && action.Adjust?
      && var offset, size := Adjusted(t[i.value].offset, action.offset), Adjusted(t[i.value].size, action.size);
         offset.Some? && size.Some? && WrapsInside(SaneOffset(offset.value, capacity), size.value, capacity)
    case Define(d) =>
      var offset := DefinedOffset(d, Capacity(t), capacity);
      d.size.Some? && WrapsInside(offset, d.size.value, capacity)
  }

  /** A table that ends within the capacity still does after a command if and only if the command does not wrap
      around. */
  lemma EditKeepsWithin(t: seq<Partition>, e: Editor, capacity: u64)
    requires EndsWithin(t, capacity) && Apply(t, e, capacity).Some?
    ensures EndsWithin(Apply(t, e, capacity).value, capacity) <==> !Wraps(t, e, capacity)
  {
    hide SaneSize, WrapsInside, Move, Remove, Capacity;
    var t' := Apply(t, e, capacity).value;
    match e
    case Define(d) => DefineWithin(t, d, capacity);
    case Modify(selector, action) =>
      var i := Selected(t, selector).value;
      match action
      case Adjust(_, _, _, _) => AdjustWithin(t, i, action, capacity);
      case Delete => RemoveWithin(t, i, capacity);
      case Clone(name) => CloneWithin(t, i, name, capacity);
      case Place(placement) => MoveWithin(t, i, PlaceTarget(placement, i, |t|).value, capacity);
  }

  lemma DefineWithin(t: seq<Partition>, d: Definer, capacity: u64)
    requires EndsWithin(t, capacity)
    ensures EndsWithin(t + [Defined(d, Capacity(t), capacity)], capacity) <==> !Wraps(t, Define(d), capacity)
  {
    hide Capacity;
    var p := Defined(d, Capacity(t), capacity);
    var offset := DefinedOffset(d, Capacity(t), capacity);
    SaneEnd(offset, match d.size case None => Sub64(capacity, offset) case Some(v) => v, capacity);
    assert (t + [p])[|t|] == p;
    assert forall k :: 0 <= k < |t| ==> (t + [p])[k] == t[k];
  }

  lemma AdjustWithin(t: seq<Partition>, i: nat, a: Action, capacity: u64)
    requires EndsWithin(t, capacity) && i < |t| && a.Adjust? && AdjustPart(t[i], a, capacity).Some?
    ensures var p, offset, size := AdjustPart(t[i], a, capacity).value, Adjusted(t[i].offset, a.offset).value,
              Adjusted(t[i].size, a.size).value;
            EndsWithin(t[i := p], capacity) <==> !WrapsInside(SaneOffset(offset, capacity), size, capacity)
  {
    var p, offset, size := AdjustPart(t[i], a, capacity).value, Adjusted(t[i].offset, a.offset).value,
        Adjusted(t[i].size, a.size).value;
    SaneEnd(SaneOffset(offset, capacity), size, capacity);
    assert t[i := p][i] == p;
  }

  lemma RemoveWithin(t: seq<Partition>, i: nat, capacity: u64)
    requires EndsWithin(t, capacity) && i < |t|
    ensures EndsWithin(Remove(t, i), capacity)
  {
  }

  lemma CloneWithin(t: seq<Partition>, i: nat, name: string, capacity: u64)
    requires EndsWithin(t, capacity) && i < |t|
    ensures EndsWithin(t + [t[i].(name := name)], capacity)
  {
    assert t[i].(name := name).End() == t[i].End();
  }

  lemma MoveWithin(t: seq<Partition>, i: nat, j: nat, capacity: u64)
    requires EndsWithin(t, capacity) && i < |t| && j < |t|
    ensures EndsWithin(Move(t, i, j), capacity)
  {
    hide Move;
    forall k | 0 <= k < |Move(t, i, j)|
      ensures Move(t, i, j)[k].End() <= capacity
    {
      MoveAt(t, i, j, 0);
      MoveAt(t, i, j, k);
    }
  }

  /** Setting a size of 2^64 - 1 wraps around the offset, so the size is not cut and the partition leaves the table. */
  lemma SetSizeCanEscape()
    ensures var t, capacity := [Partition("data", 0x100, 0x100, 4)], 0x200;
            var e := Modify(ByName("data"), Adjust(None, Preserve, Set(U64_LIMIT - 1), None));
            EndsWithin(t, capacity) && Apply(t, e, capacity).Some? && !EndsWithin(Apply(t, e, capacity).value, capacity)
  {
    var t, capacity := [Partition("data", 0x100, 0x100, 4)], 0x200;
    var e := Modify(ByName("data"), Adjust(None, Preserve, Set(U64_LIMIT - 1), None));
    IndexOfOne(t[0]);
    EditKeepsWithin(t, e, capacity);
  }

  lemma IndexOfOne(p: Partition)
    ensures IndexOf([p], p.name) == Some(0)
  {
  }

  /** Numbers that cannot wrap around, whatever the table. */
  predicate TameChange(c: Change, capacity: u64) {
    !c.Preserve? ==> c.value + 2 * capacity < U64_LIMIT
  }

  predicate TameEditor(e: Editor, capacity: u64) {
    match e
    case Modify(_, action) => action.Adjust? ==>
      TameChange(action.offset, capacity) && TameChange(action.size, capacity)
    case Define(d) => d.size.Some? ==> d.size.value + 2 * capacity < U64_LIMIT
  }

  lemma TameDoesNotWrap(t: seq<Partition>, e: Editor, capacity: u64)
    requires EndsWithin(t, capacity) && TameEditor(e, capacity)
    ensures !Wraps(t, e, capacity)
  {
    hide Capacity, IndexOf;
    if e.Modify? && e.action.Adjust? && Selected(t, e.selector).Some? {
      var p := t[Selected(t, e.selector).value];
      assert p.End() <= capacity;
    }
  }

  /** The table and all that a run makes of it end within the capacity. */
  ghost predicate StaysWithin(t: seq<Partition>, editors: seq<Editor>, capacity: u64)
    decreases |editors|
  {
    && EndsWithin(t, capacity)
    && (editors != [] && Apply(t, editors[0], capacity).Some? ==>
          StaysWithin(Apply(t, editors[0], capacity).value, editors[1..], capacity))
  }

  /** No command wraps around when it is its turn. */
  predicate NeverWraps(t: seq<Partition>, editors: seq<Editor>, capacity: u64)
    decreases |editors|
  {
    editors != [] && Apply(t, editors[0], capacity).Some? ==>
      !Wraps(t, editors[0], capacity) && NeverWraps(Apply(t, editors[0], capacity).value, editors[1..], capacity)
  }

  /** A run keeps every partition within the capacity all along if and only if no command wraps around at its turn. */
  lemma {:induction false} RunsKeepWithinIff(t: seq<Partition>, editors: seq<Editor>, capacity: u64)
    requires EndsWithin(t, capacity)
    ensures StaysWithin(t, editors, capacity) <==> NeverWraps(t, editors, capacity)
    decreases |editors|
  {
    hide Apply, Wraps;
    if editors != [] && Apply(t, editors[0], capacity).Some? {
      EditKeepsWithin(t, editors[0], capacity);
      var t' := Apply(t, editors[0], capacity).value;
      if EndsWithin(t', capacity) {
        RunsKeepWithinIff(t', editors[1..], capacity);
      }
    }
  }

  /** A run of commands with sane numbers keeps every partition within the capacity. */
  lemma {:induction false} RunsKeepWithin(t: seq<Partition>, editors: seq<Editor>, capacity: u64)
    requires EndsWithin(t, capacity) && ApplyAll(t, editors, capacity).Some?
    requires forall i :: 0 <= i < |editors| ==> TameEditor(editors[i], capacity)
    ensures EndsWithin(ApplyAll(t, editors, capacity).value, capacity)
    decreases |editors|
  {
    hide Apply, Wraps, TameEditor;
    if editors != [] {
      TameDoesNotWrap(t, editors[0], capacity);
      EditKeepsWithin(t, editors[0], capacity);
      RunsKeepWithin(Apply(t, editors[0], capacity).value, editors[1..], capacity);
    }
  }
}