/**
  Three places where VLVector.hpp does something other than what its own doc
  comments promise, each modelled as written and set against the intended
  member of `VLVector`:

  - `insert` without reallocation (single value and range) opens the gap with
    `std::copy` into a destination to the right of the source. C++ leaves a
    `std::copy` whose destination starts inside its source range undefined;
    the model reads it element by element, front to back, as the library's
    loop is specified, so it copies elements it has already overwritten. A
    library that implements the copy with memmove for trivially copyable
    `T` may happen to produce the intended result;
  - `insert` moving from the inline array to the heap (single value and
    range) sets the state to Dynamic before it evaluates `end()`, so the tail
    range starts in the inline array and ends in the heap array;
  - `erase(first, last)` without a state change returns `posLast`, which is
    not the position of the first element after the erased ones.
*/
module Findings {
  import opened Wrappers
  import opened Buffers
  import opened VLVector

  /** The C++ array a pointer points into. */
  datatype Array = StaticArray | DynamicArray

  /** A raw pointer `T*`: an array and an offset into it. */
  datatype Ptr = Ptr(base: Array, offset: int)

  /** `end()`, that is `data() + _size`, for the given state and size. */
  function End(state: ArrayState, size: nat): (p: Ptr)
    ensures p.offset == size
    ensures p.base == StaticArray <==> state == Static
  {
    Ptr(if state == Static then StaticArray else DynamicArray, size)
  }

  /** `std::distance(first, last)`: defined only for two pointers into the same array, `first` not after `last`. */
  function RangeLength(first: Ptr, last: Ptr): (r: Option<nat>)
    ensures r.Some? <==> first.base == last.base && first.offset <= last.offset
    ensures r.Some? ==> first.offset + r.value == last.offset
  {
    if first.base == last.base && first.offset <= last.offset then Some(last.offset - first.offset) else None
  }

  /**
    `std::copy(first, last, dFirst)` from the array `srcArray`, whose contents
    are `src`, into another array `dst` at offset `at`. Undefined (None)
    unless [first, last) is a range of `srcArray` within its bounds and the
    destination has room.
  */
  function CopyAcross<T>(src: seq<T>, srcArray: Array, first: Ptr, last: Ptr, dst: seq<T>, at: nat): (r: Option<seq<T>>)
    ensures first.base != last.base ==> r == None
    ensures r.Some? ==> |r.value| == |dst|
  {
    match RangeLength(first, last)
    case None => None
    case Some(n) =>
      if first.base == srcArray && 0 <= first.offset && first.offset + n <= |src| && at + n <= |dst|
      then Some(Place(dst, at, src[first.offset..first.offset + n]))
      else None
  }

  /**
    `insert(position, x)` as written. Without reallocation the tail is moved
    by a forward copy into the overlapping slots to its right. Growing a
    Dynamic vector is as intended. Leaving the inline array, the tail copy
    runs from the inline array to `end() - 1` evaluated after the state has
    become Dynamic: a range across two arrays, whose behaviour C++ leaves
    undefined (None).
  */
  function InsertAsWritten<T>(v: Vector<T>, k: nat, x: T): (r: Option<Located<T>>)
    requires Valid(v) && k <= v.size
    ensures v.arrayState == Static && v.size + 1 > v.capacity ==> r == None
    ensures v.size + 1 <= v.capacity ==> r.Some? && r.value.pos == k && Valid(r.value.vec)
  {
    var size := v.size + 1;
    var d := Data(v);
    if size <= v.capacity then
      var buf := ForwardCopy(d, k, v.size, k + 1)[k := x];
      Some(Located(WithData(v, buf).(size := size), k))
    else if v.arrayState == Dynamic then
      Some(Insert(v, k, x))
    else
      var capacity := Growth(StaticCapacity(v), size);
      var temp := Place(Fresh(capacity, v.blank), 0, v.staticArray[..k])[k := x];
      var tailEnd := End(Dynamic, size);
      match CopyAcross(v.staticArray, StaticArray, Ptr(StaticArray, k), Ptr(tailEnd.base, tailEnd.offset - 1), temp, k + 1)
      case None => None
      case Some(t) => Some(Located(v.(dynamicArray := t, size := size, capacity := capacity, arrayState := Dynamic), k))
  }

  /**
    `insert(position, first, last)` as written, with the same two departures
    as the single-value insert: a forward copy for the in-place shift, and a
    tail range ending at `end() - numOfVals` after the state has become
    Dynamic.
  */
  function InsertRangeAsWritten<T>(v: Vector<T>, k: nat, items: seq<T>): (r: Option<Located<T>>)
    requires Valid(v) && k <= v.size
    ensures items != [] && v.arrayState == Static && v.size + |items| > v.capacity ==> r == None
    ensures items == [] || v.size + |items| <= v.capacity ==> r.Some? && r.value.pos == k && Valid(r.value.vec)
  {
    if items == [] then Some(Located(v, k))
    else
      var m := |items|;
      var size := v.size + m;
      var d := Data(v);
      if size <= v.capacity then
        var buf := Place(ForwardCopy(d, k, v.size, k + m), k, items);
        Some(Located(WithData(v, buf).(size := size), k))
      else if v.arrayState == Dynamic then
        Some(InsertRange(v, k, items))
      else
        var capacity := Growth(StaticCapacity(v), size);
        var temp := Place(Place(Fresh(capacity, v.blank), 0, v.staticArray[..k]), k, items);
        var tailEnd := End(Dynamic, size);
        match CopyAcross(v.staticArray, StaticArray, Ptr(StaticArray, k), Ptr(tailEnd.base, tailEnd.offset - m), temp, k + m)
        case None => None
        case Some(t) => Some(Located(v.(dynamicArray := t, size := size, capacity := capacity, arrayState := Dynamic), k))
  }

  /**
    `erase(first, last)` as written: the same vector as intended, but the
    path that keeps the state returns `posLast`, the offset just past the
    erased range in the old numbering.
  */
  function EraseRangeAsWritten<T>(v: Vector<T>, k: nat, m: nat): (r: Located<T>)
    requires Valid(v) && k + m <= v.size
    ensures Valid(r.vec)
    ensures m > 0 && (v.arrayState == Static || v.size - m > StaticCapacity(v)) ==> r.pos == k + m
  {
    var intended := EraseRange(v, k, m);
    if m > 0 && (v.arrayState == Static || v.size - m > StaticCapacity(v)) then Located(intended.vec, k + m)
    else intended
  }

  /**
    The in-place single insert as written puts the element that stood at `k`
    two slots on, where the element from `k + 1` belongs, whenever the tail
    holds at least two elements and the first two differ.
  */
  lemma InsertAsWrittenSmears<T>(v: Vector<T>, k: nat, x: T)
    requires Valid(v) && k + 2 <= v.size && v.size + 1 <= v.capacity
    requires Elems(v)[k] != Elems(v)[k + 1]
    ensures InsertAsWritten(v, k, x).Some?
    ensures Elems(InsertAsWritten(v, k, x).value.vec)[k + 2] == Elems(v)[k]
    ensures Elems(Insert(v, k, x).vec)[k + 2] == Elems(v)[k + 1]
    ensures Elems(InsertAsWritten(v, k, x).value.vec) != Elems(Insert(v, k, x).vec)
  {
    ForwardCopyRightSmears(Data(v), k, v.size, k + 1);
    var intended := Elems(v)[..k] + [x] + Elems(v)[k..];
    assert intended[k + 2] == Elems(v)[k + 1];
  }

  /** Every single insert that moves a vector from the inline array to the heap is undefined as written. */
  lemma InsertAsWrittenUndefinedOnTransition<T>(v: Vector<T>, k: nat, x: T)
    requires Valid(v) && k <= v.size
    requires v.arrayState == Static && v.size == StaticCapacity(v)
    ensures InsertAsWritten(v, k, x) == None
    ensures Elems(Insert(v, k, x).vec) == Elems(v)[..k] + [x] + Elems(v)[k..]
  {
  }

  /** The slot the in-place range insert as written fills at `k + 2m`: the element that stood at `k`. */
  lemma InsertRangeAsWrittenSlot<T>(v: Vector<T>, k: nat, items: seq<T>)
    requires Valid(v) && items != [] && k + |items| < v.size && v.size + |items| <= v.capacity
    ensures InsertRangeAsWritten(v, k, items).Some?
    ensures Elems(InsertRangeAsWritten(v, k, items).value.vec)[k + 2 * |items|] == Elems(v)[k]
  {
    var m := |items|;
    var d := Data(v);
    var copied := ForwardCopy(d, k, v.size, k + m);
    var buf := Place(copied, k, items);
    assert InsertRangeAsWritten(v, k, items) == Some(Located(WithData(v, buf).(size := v.size + m), k));
    ForwardCopyRightSmears(d, k, v.size, k + m);
    assert buf[k + 2 * m] == copied[k + 2 * m] == d[k];
    WithDataElems(v, buf, v.size + m);
  }

  /**
    The in-place range insert as written puts the element that stood at `k`
    at `k + 2m`, where the element from `k + m` belongs, whenever more than
    `m` elements follow `k` and those two differ.
  */
  lemma InsertRangeAsWrittenSmears<T>(v: Vector<T>, k: nat, items: seq<T>)
    requires Valid(v) && items != [] && k + |items| < v.size && v.size + |items| <= v.capacity
    requires Elems(v)[k] != Elems(v)[k + |items|]
    ensures InsertRangeAsWritten(v, k, items).Some?
    ensures Elems(InsertRangeAsWritten(v, k, items).value.vec)[k + 2 * |items|] == Elems(v)[k]
    ensures Elems(InsertRange(v, k, items).vec)[k + 2 * |items|] == Elems(v)[k + |items|]
    ensures Elems(InsertRangeAsWritten(v, k, items).value.vec) != Elems(InsertRange(v, k, items).vec)
  {
    InsertRangeAsWrittenSlot(v, k, items);
    var intended := Elems(v)[..k] + items + Elems(v)[k..];
    assert intended[k + 2 * |items|] == Elems(v)[k + |items|];
  }

  /** Every non-empty range insert that moves a vector from the inline array to the heap is undefined as written. */
  lemma InsertRangeAsWrittenUndefinedOnTransition<T>(v: Vector<T>, k: nat, items: seq<T>)
    requires Valid(v) && k <= v.size && items != []
    requires v.arrayState == Static && v.size + |items| > StaticCapacity(v)
    ensures InsertRangeAsWritten(v, k, items) == None
    ensures Elems(InsertRange(v, k, items).vec) == Elems(v)[..k] + items + Elems(v)[k..]
  {
  }

  /**
    Whenever a non-empty range erase keeps the state, the position returned
    as written lies `m` elements past the first element after the gap, and
    past the end altogether when fewer than `m` elements follow the gap.
  */
  lemma EraseRangeAsWrittenReturnsPastGap<T>(v: Vector<T>, k: nat, m: nat)
    requires Valid(v) && k + m <= v.size && m > 0
    requires v.arrayState == Static || v.size - m > StaticCapacity(v)
    ensures EraseRangeAsWritten(v, k, m).vec == EraseRange(v, k, m).vec
    ensures EraseRangeAsWritten(v, k, m).pos == EraseRange(v, k, m).pos + m
    ensures EraseRangeAsWritten(v, k, m).pos > |Elems(EraseRange(v, k, m).vec)| <==> k + 2 * m > v.size
  {
  }

  /** The vector [1, 2, 3] with room for four elements inline. */
  function OneTwoThree(): (v: Vector<int>)
    ensures Valid(v) && Elems(v) == [1, 2, 3] && v.capacity == 4
  {
    Vector(0, [1, 2, 3, 0], [], 3, 4, Static)
  }

  /** Inserting 99 at the front of [1, 2, 3] gives [99, 1, 2, 3] as intended, but not as written. */
  lemma InsertAtFrontExample()
    ensures Elems(Insert(OneTwoThree(), 0, 99).vec) == [99, 1, 2, 3]
    ensures InsertAsWritten(OneTwoThree(), 0, 99).Some?
    ensures Elems(InsertAsWritten(OneTwoThree(), 0, 99).value.vec) != [99, 1, 2, 3]
  {
    InsertAsWrittenSmears(OneTwoThree(), 0, 99);
  }

  /** Erasing the first two elements of [1, 2, 3] leaves [3]; as written the returned position is 2, past the end. */
  lemma EraseRangeExample()
    ensures Elems(EraseRange(OneTwoThree(), 0, 2).vec) == [3]
    ensures EraseRange(OneTwoThree(), 0, 2).pos == 0
    ensures EraseRangeAsWritten(OneTwoThree(), 0, 2).pos == 2
  {
    EraseRangeAsWrittenReturnsPastGap(OneTwoThree(), 0, 2);
  }
}
