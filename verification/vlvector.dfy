/**
  VLVector<T, StaticCapacity>: a vector that keeps its elements in an inline
  array while they fit and moves them to a heap array once they do not.

  The C++ object is modelled as an immutable value; every mutating member
  becomes a function from the old value to the new one. Iterators are offsets
  from the start of the active buffer, and an InputIterator range is the
  sequence of values it produces. The abstract contents of a vector are
  `Elems(v)`, the first `size` slots of the active buffer; every contract
  below is stated in terms of them.
*/
module VLVector {
  import opened Wrappers
  import opened Buffers

  /** Which of the two buffers holds the elements. */
  datatype ArrayState = Static | Dynamic

  /** The error `at` raises for an index outside [0, size). */
  datatype Error = OutOfRange

  /**
    The fields of the C++ class. `staticArray` is the inline array, so its
    length is the template parameter StaticCapacity; `dynamicArray` is the
    heap array and means something only while `arrayState` is Dynamic.
    `blank` stands for the value-initialised `T()` with which the inline array
    and every fresh heap array are filled before elements are copied in.
  */
  datatype Vector<T> = Vector(
    blank: T,
    staticArray: seq<T>,
    dynamicArray: seq<T>,
    size: nat,
    capacity: nat,
    arrayState: ArrayState)

  /** An iterator returned by insert or erase, as an offset, together with the vector it points into. */
  datatype Located<T> = Located(vec: Vector<T>, pos: nat)

  /** The template parameter StaticCapacity. */
  function StaticCapacity<T>(v: Vector<T>): nat
  {
    |v.staticArray|
  }

  /** The representation invariant every public member keeps. */
  predicate Valid<T>(v: Vector<T>)
  {
    && v.size <= v.capacity
    && (v.arrayState == Static ==> v.capacity == StaticCapacity(v))
    && (v.arrayState == Dynamic <==> v.size > StaticCapacity(v))
    && (v.arrayState == Dynamic ==> |v.dynamicArray| == v.capacity)
  }

  /** `_updateCapacity`: the capacity chosen for a given size. */
  function Growth(staticCapacity: nat, size: nat): (c: nat)
    ensures c >= size && c >= staticCapacity
    ensures c == staticCapacity <==> size <= staticCapacity
  {
    if size <= staticCapacity then staticCapacity else (3 * size) / 2
  }

  /** `data()`: the active buffer. */
  function Data<T>(v: Vector<T>): (r: seq<T>)
    requires Valid(v)
    ensures |r| == v.capacity
  {
    if v.arrayState == Static then v.staticArray else v.dynamicArray
  }

  /** The abstract contents: the live prefix of the active buffer. */
  function Elems<T>(v: Vector<T>): (s: seq<T>)
    requires Valid(v)
    ensures |s| == v.size
  {
    Data(v)[..v.size]
  }

  /** The contents before and after offset `k`, read straight from the active buffer. */
  lemma ElemsSplit<T>(v: Vector<T>, k: nat)
    requires Valid(v) && k <= v.size
    ensures Elems(v)[..k] == Data(v)[..k]
    ensures Elems(v)[k..] == Data(v)[k..v.size]
  {
  }

  /** Replaces the active buffer by one of the same length. */
  function WithData<T>(v: Vector<T>, buf: seq<T>): Vector<T>
  {
    if v.arrayState == Static then v.(staticArray := buf) else v.(dynamicArray := buf)
  }

  /** A new active buffer and a new size that keep the state consistent give a valid vector whose contents are that buffer's prefix. */
  lemma WithDataElems<T>(v: Vector<T>, buf: seq<T>, size: nat)
    requires Valid(v) && |buf| == v.capacity && size <= v.capacity
    requires v.arrayState == Dynamic <==> size > StaticCapacity(v)
    ensures Valid(WithData(v, buf).(size := size))
    ensures StaticCapacity(WithData(v, buf).(size := size)) == StaticCapacity(v)
    ensures Elems(WithData(v, buf).(size := size)) == buf[..size]
  {
  }

  /**
    The reallocation rule of push_back and insert, for a vector `v` that grows
    to `newSize` elements and becomes `r`: a new heap buffer is allocated
    exactly when `newSize` exceeds the old capacity, and its capacity is then
    recomputed from `newSize`; otherwise state and capacity stay as they were.
  */
  predicate GrowthRule<T>(v: Vector<T>, r: Vector<T>, newSize: nat)
  {
    && (newSize > v.capacity ==> r.arrayState == Dynamic && r.capacity == Growth(StaticCapacity(v), newSize))
    && (newSize <= v.capacity ==> r.arrayState == v.arrayState && r.capacity == v.capacity)
  }

  /**
    The shrink rule of pop_back and erase, for a vector `v` that shrinks to
    `newSize` elements and becomes `r`: a Dynamic vector whose new size fits
    the inline array returns to it with capacity StaticCapacity; otherwise
    state and capacity stay as they were.
  */
  predicate ShrinkRule<T>(v: Vector<T>, r: Vector<T>, newSize: nat)
  {
    && (v.arrayState == Dynamic && newSize <= StaticCapacity(v) ==>
          r.arrayState == Static && r.capacity == StaticCapacity(v))
    && (!(v.arrayState == Dynamic && newSize <= StaticCapacity(v)) ==>
          r.arrayState == v.arrayState && r.capacity == v.capacity)
  }

  /** The default constructor: empty, Static, capacity StaticCapacity. */
  function New<T>(staticCapacity: nat, blank: T): (v: Vector<T>)
    ensures Valid(v) && StaticCapacity(v) == staticCapacity
    ensures Elems(v) == []
    ensures v.arrayState == Static && v.capacity == staticCapacity
  {
    Vector(blank, Fresh(staticCapacity, blank), [], 0, staticCapacity, Static)
  }

  /** `size()`. */
  function Size<T>(v: Vector<T>): (n: nat)
    requires Valid(v)
    ensures n == |Elems(v)|
  {
    v.size
  }

  /** `capacity()`: never below the number of elements, and StaticCapacity while Static. */
  function Capacity<T>(v: Vector<T>): (c: nat)
    requires Valid(v)
    ensures c >= |Elems(v)|
    ensures v.arrayState == Static ==> c == StaticCapacity(v)
  {
    v.capacity
  }

  /** `empty()`. */
  function IsEmpty<T>(v: Vector<T>): (b: bool)
    requires Valid(v)
    ensures b <==> Elems(v) == []
  {
    v.size == 0
  }

  /** `at(i)`: the i-th element, or OutOfRange when `i >= size`. */
  function At<T>(v: Vector<T>, i: nat): (r: Result<T, Error>)
    requires Valid(v)
    ensures r.Failure? <==> i >= |Elems(v)|
    ensures r.Success? ==> r.value == Elems(v)[i]
    ensures r.Failure? ==> r.error == OutOfRange
  {
    if i >= v.size then Failure(OutOfRange) else Success(Data(v)[i])
  }

  /** `operator[](i)`: unchecked access; the caller guarantees `i < size`. */
  function Subscript<T>(v: Vector<T>, i: nat): (x: T)
    requires Valid(v) && i < v.size
    ensures x == Elems(v)[i]
    ensures At(v, i) == Success(x)
  {
    Data(v)[i]
  }

  /**
    `at(i) = x`: a write through the reference the non-const `at` returns.
    OutOfRange when `i >= size`; otherwise element `i` becomes `x` and
    nothing else changes.
  */
  function SetAt<T>(v: Vector<T>, i: nat, x: T): (r: Result<Vector<T>, Error>)
    requires Valid(v)
    ensures r.Failure? <==> i >= |Elems(v)|
    ensures r.Failure? ==> r.error == OutOfRange
    ensures r.Success? ==> Valid(r.value) && StaticCapacity(r.value) == StaticCapacity(v)
    ensures r.Success? ==> Elems(r.value) == Elems(v)[i := x]
    ensures r.Success? ==> r.value.arrayState == v.arrayState && r.value.capacity == v.capacity
  {
    if i >= v.size then Failure(OutOfRange) else Success(SetSubscript(v, i, x))
  }

  /**
    `v[i] = x`, or `data()[i] = x` and `begin()[i] = x`: a write through the
    reference or pointer the non-const `operator[]`, `data()` and `begin()`
    return; the caller guarantees `i < size`.
  */
  function SetSubscript<T>(v: Vector<T>, i: nat, x: T): (r: Vector<T>)
    requires Valid(v) && i < v.size
    ensures Valid(r) && StaticCapacity(r) == StaticCapacity(v)
    ensures Elems(r) == Elems(v)[i := x]
    ensures r.arrayState == v.arrayState && r.capacity == v.capacity
  {
    var buf := Data(v)[i := x];
    WithDataElems(v, buf, v.size);
    assert buf[..v.size] == Elems(v)[i := x];
    WithData(v, buf)
  }

  /** `push_back(x)`. */
  function PushBack<T>(v: Vector<T>, x: T): (r: Vector<T>)
    requires Valid(v)
    ensures Valid(r) && StaticCapacity(r) == StaticCapacity(v)
    ensures Elems(r) == Elems(v) + [x]
    ensures GrowthRule(v, r, v.size + 1)
  {
    var size := v.size + 1;
    if size <= v.capacity then
      WithData(v, Data(v)[size - 1 := x]).(size := size)
    else
      // a fresh heap buffer, whether the vector was Static or already Dynamic
      var capacity := Growth(StaticCapacity(v), size);
      var temp := Place(Fresh(capacity, v.blank), 0, Data(v)[..size - 1])[size - 1 := x];
      assert temp[..size] == Elems(v) + [x];
      v.(dynamicArray := temp, size := size, capacity := capacity, arrayState := Dynamic)
  }

  /** The no-reallocation path of insert: the tail is shifted one slot right in place, back to front, and the value fills the gap. */
  function InsertInPlace<T>(v: Vector<T>, k: nat, x: T): (r: Vector<T>)
    requires Valid(v) && k <= v.size && v.size + 1 <= v.capacity
    ensures Valid(r) && StaticCapacity(r) == StaticCapacity(v)
    ensures Elems(r) == Elems(v)[..k] + [x] + Elems(v)[k..]
    ensures r.arrayState == v.arrayState && r.capacity == v.capacity
  {
    var size := v.size + 1;
    var d := Data(v);
    var shifted := BackwardCopy(d, k, v.size, size);
    var buf := shifted[k := x];
    assert buf[..size] == d[..k] + [x] + d[k..v.size] by {
      PlaceOne(shifted, k, x);
      ShiftRightAndFill(d, k, v.size, [x]);
    }
    ElemsSplit(v, k);
    WithDataElems(v, buf, size);
    WithData(v, buf).(size := size)
  }

  /** The reallocating path of insert: prefix, value and tail are copied side by side into a fresh heap buffer. */
  function InsertReallocating<T>(v: Vector<T>, k: nat, x: T): (r: Vector<T>)
    requires Valid(v) && k <= v.size && v.size + 1 > v.capacity
    ensures Valid(r) && StaticCapacity(r) == StaticCapacity(v)
    ensures Elems(r) == Elems(v)[..k] + [x] + Elems(v)[k..]
    ensures r.arrayState == Dynamic && r.capacity == Growth(StaticCapacity(v), v.size + 1)
  {
    var size := v.size + 1;
    var d := Data(v);
    var capacity := Growth(StaticCapacity(v), size);
    var blanks := Fresh(capacity, v.blank);
    var temp := Place(Place(blanks, 0, d[..k])[k := x], k + 1, d[k..v.size]);
    assert temp[..size] == d[..k] + [x] + d[k..v.size] by {
      PlaceOne(Place(blanks, 0, d[..k]), k, x);
      PlaceSideBySide(blanks, d[..k], [x], d[k..v.size]);
    }
    ElemsSplit(v, k);
    v.(dynamicArray := temp, size := size, capacity := capacity, arrayState := Dynamic)
  }

  /**
    `insert(position, x)`, position at offset `k`. When the element fits,
    the tail [k, size) is shifted one slot right in place, copying from the
    back; otherwise prefix, new element and tail are copied into a fresh heap
    buffer. Returns the position of the new element.
  */
  function Insert<T>(v: Vector<T>, k: nat, x: T): (r: Located<T>)
    requires Valid(v) && k <= v.size
    ensures Valid(r.vec) && StaticCapacity(r.vec) == StaticCapacity(v)
    ensures Elems(r.vec) == Elems(v)[..k] + [x] + Elems(v)[k..]
    ensures r.pos == k && Elems(r.vec)[r.pos] == x
    ensures GrowthRule(v, r.vec, v.size + 1)
  {
    if v.size + 1 <= v.capacity then Located(InsertInPlace(v, k, x), k)
    else Located(InsertReallocating(v, k, x), k)
  }

  /** The no-reallocation path of range insert: the tail is shifted right in place, back to front, and the values fill the gap. */
  function InsertRangeInPlace<T>(v: Vector<T>, k: nat, items: seq<T>): (r: Vector<T>)
    requires Valid(v) && k <= v.size && v.size + |items| <= v.capacity
    ensures Valid(r) && StaticCapacity(r) == StaticCapacity(v)
    ensures Elems(r) == Elems(v)[..k] + items + Elems(v)[k..]
    ensures r.arrayState == v.arrayState && r.capacity == v.capacity
  {
    var size := v.size + |items|;
    var d := Data(v);
    var buf := Place(BackwardCopy(d, k, v.size, size), k, items);
    assert buf[..size] == d[..k] + items + d[k..v.size] by {
      ShiftRightAndFill(d, k, v.size, items);
    }
    ElemsSplit(v, k);
    WithDataElems(v, buf, size);
    WithData(v, buf).(size := size)
  }

  /** The reallocating path of range insert: prefix, values and tail are copied side by side into a fresh heap buffer. */
  function InsertRangeReallocating<T>(v: Vector<T>, k: nat, items: seq<T>): (r: Vector<T>)
    requires Valid(v) && k <= v.size && v.size + |items| > v.capacity
    ensures Valid(r) && StaticCapacity(r) == StaticCapacity(v)
    ensures Elems(r) == Elems(v)[..k] + items + Elems(v)[k..]
    ensures r.arrayState == Dynamic && r.capacity == Growth(StaticCapacity(v), v.size + |items|)
  {
    var size := v.size + |items|;
    var d := Data(v);
    var capacity := Growth(StaticCapacity(v), size);
    var temp := Place(Place(Place(Fresh(capacity, v.blank), 0, d[..k]), k, items), k + |items|, d[k..v.size]);
    assert temp[..size] == d[..k] + items + d[k..v.size] by {
      PlaceSideBySide(Fresh(capacity, v.blank), d[..k], items, d[k..v.size]);
    }
    ElemsSplit(v, k);
    v.(dynamicArray := temp, size := size, capacity := capacity, arrayState := Dynamic)
  }

  /**
    `insert(position, first, last)`, position at offset `k`, the range given
    as the values it produces. An empty range changes nothing. Returns the
    position of the first inserted value.
  */
  function InsertRange<T>(v: Vector<T>, k: nat, items: seq<T>): (r: Located<T>)
    requires Valid(v) && k <= v.size
    ensures Valid(r.vec) && StaticCapacity(r.vec) == StaticCapacity(v)
    ensures Elems(r.vec) == Elems(v)[..k] + items + Elems(v)[k..]
    ensures r.pos == k && Elems(r.vec)[k..k + |items|] == items
    ensures items == [] ==> r.vec == v
    ensures items != [] ==> GrowthRule(v, r.vec, v.size + |items|)
  {
    if items == [] then
      assert Elems(v)[..k] + Elems(v)[k..] == Elems(v);
      Located(v, k)
    else if v.size + |items| <= v.capacity then
      Located(InsertRangeInPlace(v, k, items), k)
    else
      Located(InsertRangeReallocating(v, k, items), k)
  }

  /**
    `pop_back()`: nothing on an empty vector; otherwise drops the last
    element, and a Dynamic vector left with exactly StaticCapacity elements
    copies them back into the inline array.
  */
  function PopBack<T>(v: Vector<T>): (r: Vector<T>)
    requires Valid(v)
    ensures Valid(r) && StaticCapacity(r) == StaticCapacity(v)
    ensures v.size == 0 ==> r == v
    ensures v.size > 0 ==> Elems(r) == Elems(v)[..v.size - 1] && ShrinkRule(v, r, v.size - 1)
  {
    if v.size == 0 then v
    else
      var size := v.size - 1;
      if v.arrayState == Static then v.(size := size)
      else if size == StaticCapacity(v) then
        var st := Place(v.staticArray, 0, v.dynamicArray[..size]);
        assert st[..size] == Elems(v)[..size];
        v.(arrayState := Static, staticArray := st, dynamicArray := [], size := size,
           capacity := Growth(StaticCapacity(v), size))
      else v.(size := size)
  }

  /**
    The erase path that keeps the state (a Static vector, or a Dynamic one
    left with more than StaticCapacity elements): the `m` elements after the
    gap onwards are shifted left in place, front to back.
  */
  function EraseInPlace<T>(v: Vector<T>, k: nat, m: nat): (r: Vector<T>)
    requires Valid(v) && k + m <= v.size
    requires v.arrayState == Static || v.size - m > StaticCapacity(v)
    ensures Valid(r) && StaticCapacity(r) == StaticCapacity(v)
    ensures Elems(r) == Elems(v)[..k] + Elems(v)[k + m..]
    ensures r.arrayState == v.arrayState && r.capacity == v.capacity
  {
    var size := v.size - m;
    var d := Data(v);
    var buf := ForwardCopy(d, k + m, v.size, k);
    assert buf[..size] == d[..k] + d[k + m..v.size] by {
      ShiftLeftAndClose(d, k, m, v.size);
    }
    ElemsSplit(v, k);
    ElemsSplit(v, k + m);
    WithDataElems(v, buf, size);
    WithData(v, buf).(size := size)
  }

  /**
    The erase path that returns a Dynamic vector to the inline array: the
    elements before the gap and those after it are copied side by side into
    the inline array, and the capacity is recomputed.
  */
  function EraseToStatic<T>(v: Vector<T>, k: nat, m: nat): (r: Vector<T>)
    requires Valid(v) && k + m <= v.size
    requires v.arrayState == Dynamic && v.size - m <= StaticCapacity(v)
    ensures Valid(r) && StaticCapacity(r) == StaticCapacity(v)
    ensures Elems(r) == Elems(v)[..k] + Elems(v)[k + m..]
    ensures r.arrayState == Static && r.capacity == StaticCapacity(v)
  {
    var size := v.size - m;
    var d := Data(v);
    var st := Place(Place(v.staticArray, 0, d[..k]), k, d[k + m..v.size]);
    assert st[..size] == Elems(v)[..k] + Elems(v)[k + m..] by {
      ElemsSplit(v, k);
      assert Elems(v)[k + m..] == d[k + m..v.size];
    }
    v.(arrayState := Static, staticArray := st, size := size, capacity := Growth(StaticCapacity(v), size))
  }

  /**
    `erase(position)`, position at offset `k` of a live element. Erasing the
    last element is pop_back and returns the new end. Otherwise the tail is
    shifted one slot left, in place while the state stays, or copied around
    the gap into the inline array when a Dynamic vector comes down to
    StaticCapacity. Returns the position of the element after the erased one.
  */
  function Erase<T>(v: Vector<T>, k: nat): (r: Located<T>)
    requires Valid(v) && k < v.size
    ensures Valid(r.vec) && StaticCapacity(r.vec) == StaticCapacity(v)
    ensures Elems(r.vec) == Elems(v)[..k] + Elems(v)[k + 1..]
    ensures r.pos == k
    ensures k == v.size - 1 ==> r.vec == PopBack(v) && r.pos == r.vec.size
    ensures ShrinkRule(v, r.vec, v.size - 1)
  {
    if k == v.size - 1 then
      var popped := PopBack(v);
      Located(popped, popped.size)
    else if v.arrayState == Static || v.size - 1 > StaticCapacity(v) then
      Located(EraseInPlace(v, k, 1), k)
    else
      Located(EraseToStatic(v, k, 1), k)
  }

  /**
    `erase(first, last)`, the range given as offset `k` and length `m`. An
    empty range changes nothing. Returns the position of the first element
    after the erased ones, which is offset `k` of the result.
  */
  function EraseRange<T>(v: Vector<T>, k: nat, m: nat): (r: Located<T>)
    requires Valid(v) && k + m <= v.size
    ensures Valid(r.vec) && StaticCapacity(r.vec) == StaticCapacity(v)
    ensures Elems(r.vec) == Elems(v)[..k] + Elems(v)[k + m..]
    ensures r.pos == k
    ensures m == 0 ==> r.vec == v
    ensures m > 0 ==> ShrinkRule(v, r.vec, v.size - m)
  {
    if m == 0 then
      assert Elems(v)[..k] + Elems(v)[k..] == Elems(v);
      Located(v, k)
    else if v.arrayState == Static || v.size - m > StaticCapacity(v) then
      Located(EraseInPlace(v, k, m), k)
    else
      Located(EraseToStatic(v, k, m), k)
  }

  /** `clear()`: no elements, Static, capacity StaticCapacity. */
  function Clear<T>(v: Vector<T>): (r: Vector<T>)
    requires Valid(v)
    ensures Valid(r) && StaticCapacity(r) == StaticCapacity(v)
    ensures Elems(r) == []
    ensures r.arrayState == Static && r.capacity == StaticCapacity(v)
  {
    v.(size := 0, capacity := Growth(StaticCapacity(v), 0), arrayState := Static)
  }

  /**
    The copy constructor: a new vector, with a value-initialised inline
    array, holding the same elements in the same state with the same
    capacity; a Dynamic source gets a fresh heap buffer of that capacity.
  */
  function Copy<T>(vec: Vector<T>): (r: Vector<T>)
    requires Valid(vec)
    ensures Valid(r) && StaticCapacity(r) == StaticCapacity(vec)
    ensures Elems(r) == Elems(vec)
    ensures r.size == vec.size && r.capacity == vec.capacity && r.arrayState == vec.arrayState
  {
    var inline := Fresh(StaticCapacity(vec), vec.blank);
    if vec.arrayState == Dynamic then
      var heap := Place(Fresh(vec.capacity, vec.blank), 0, vec.dynamicArray[..vec.size]);
      Vector(vec.blank, inline, heap, vec.size, vec.capacity, Dynamic)
    else
      Vector(vec.blank, Place(inline, 0, vec.staticArray[..vec.size]), [], vec.size, vec.capacity, Static)
  }

  /**
    `operator=(vec)`. `aliased` says whether `vec` is this very object
    (`&vec == this`), which a value cannot observe; it is then returned
    unchanged. Otherwise this vector takes the size, capacity, state and
    elements of `vec`, the elements going into a fresh heap buffer or into
    its own inline array.
  */
  function Assign<T>(self: Vector<T>, vec: Vector<T>, aliased: bool): (r: Vector<T>)
    requires Valid(self) && Valid(vec) && StaticCapacity(self) == StaticCapacity(vec)
    requires aliased ==> vec == self
    ensures Valid(r) && StaticCapacity(r) == StaticCapacity(self)
    ensures aliased ==> r == self
    ensures Elems(r) == Elems(vec)
    ensures r.size == vec.size && r.capacity == vec.capacity && r.arrayState == vec.arrayState
  {
    if aliased then self
    else if vec.arrayState == Dynamic then
      var heap := Place(Fresh(vec.capacity, self.blank), 0, vec.dynamicArray[..vec.size]);
      self.(size := vec.size, capacity := vec.capacity, arrayState := Dynamic, dynamicArray := heap)
    else
      var inline := Place(self.staticArray, 0, vec.staticArray[..vec.size]);
      self.(size := vec.size, capacity := vec.capacity, arrayState := Static, staticArray := inline)
  }

  /**
    `operator==`: equal sizes and equal elements index by index, read from
    whichever buffer is active on each side.
  */
  function Equal<T(==)>(a: Vector<T>, b: Vector<T>): (r: bool)
    requires Valid(a) && Valid(b)
    ensures r <==> Elems(a) == Elems(b)
    ensures r <==> a.size == b.size && forall i | 0 <= i < a.size :: Elems(a)[i] == Elems(b)[i]
  {
    a.size == b.size && RangesEqual(Data(a), Data(b), a.size)
  }

  /** `operator!=`. */
  function NotEqual<T(==)>(a: Vector<T>, b: Vector<T>): (r: bool)
    requires Valid(a) && Valid(b)
    ensures r <==> Elems(a) != Elems(b)
  {
    !Equal(a, b)
  }

  /**
    The iterator-range constructor: starts from the default vector and
    push_backs each produced value in turn.
  */
  method FromRange<T>(staticCapacity: nat, blank: T, items: seq<T>) returns (v: Vector<T>)
    ensures Valid(v) && StaticCapacity(v) == staticCapacity
    ensures Elems(v) == items
    ensures v.arrayState == Dynamic <==> |items| > staticCapacity
  {
    v := New(staticCapacity, blank);
    var i := 0;
    while i < |items|
      invariant i <= |items|
      invariant Valid(v) && StaticCapacity(v) == staticCapacity
      invariant Elems(v) == items[..i]
    {
      v := PushBack(v, items[i]);
      i := i + 1;
    }
    assert items[..i] == items;
  }
}
