/**
  Properties that relate several VLVector members: inverses, idempotence,
  the copy round trip, and agreement between the single-element and the
  range forms of insert and erase.
*/
module Properties {
  import opened Wrappers
  import opened VLVector

  /** After push_back the new value is readable with `at` at index size - 1. */
  lemma PushBackThenAt<T>(v: Vector<T>, x: T)
    requires Valid(v)
    ensures Size(PushBack(v, x)) == Size(v) + 1
    ensures At(PushBack(v, x), v.size) == Success(x)
  {
  }

  /** After `at(i) = x` on a live index, `at(i)` reads `x` and every other index reads what it read before. */
  lemma SetAtThenAt<T>(v: Vector<T>, i: nat, x: T, j: nat)
    requires Valid(v) && i < v.size
    ensures SetAt(v, i, x).Success?
    ensures Size(SetAt(v, i, x).value) == Size(v)
    ensures At(SetAt(v, i, x).value, j) == if j == i then Success(x) else At(v, j)
  {
  }

  /** pop_back undoes push_back on the contents and on the state, across either transition. */
  lemma PopBackUndoesPushBack<T>(v: Vector<T>, x: T)
    requires Valid(v)
    ensures Elems(PopBack(PushBack(v, x))) == Elems(v)
    ensures PopBack(PushBack(v, x)).arrayState == v.arrayState
  {
  }

  /** Erasing at the offset just inserted at gives back the original contents. */
  lemma EraseUndoesInsert<T>(v: Vector<T>, k: nat, x: T)
    requires Valid(v) && k <= v.size
    ensures Elems(Erase(Insert(v, k, x).vec, k).vec) == Elems(v)
  {
    var s := Elems(v);
    var t := s[..k] + [x] + s[k..];
    assert t[..k] == s[..k] && t[k + 1..] == s[k..];
    assert s[..k] + s[k..] == s;
  }

  /** Erasing the range just inserted gives back the original contents. */
  lemma EraseRangeUndoesInsertRange<T>(v: Vector<T>, k: nat, items: seq<T>)
    requires Valid(v) && k <= v.size
    ensures Elems(EraseRange(InsertRange(v, k, items).vec, k, |items|).vec) == Elems(v)
  {
    var s := Elems(v);
    var t := s[..k] + items + s[k..];
    assert t[..k] == s[..k] && t[k + |items|..] == s[k..];
    assert s[..k] + s[k..] == s;
  }

  /** Inserting one value is inserting the one-element range: same contents, position, state and capacity. */
  lemma InsertIsRangeOfOne<T>(v: Vector<T>, k: nat, x: T)
    requires Valid(v) && k <= v.size
    ensures Elems(InsertRange(v, k, [x]).vec) == Elems(Insert(v, k, x).vec)
    ensures InsertRange(v, k, [x]).pos == Insert(v, k, x).pos
    ensures InsertRange(v, k, [x]).vec.arrayState == Insert(v, k, x).vec.arrayState
    ensures InsertRange(v, k, [x]).vec.capacity == Insert(v, k, x).vec.capacity
  {
  }

  /** Erasing one position is erasing the one-element range: same contents, position, state and capacity. */
  lemma EraseIsRangeOfOne<T>(v: Vector<T>, k: nat)
    requires Valid(v) && k < v.size
    ensures Elems(EraseRange(v, k, 1).vec) == Elems(Erase(v, k).vec)
    ensures EraseRange(v, k, 1).pos == Erase(v, k).pos
    ensures EraseRange(v, k, 1).vec.arrayState == Erase(v, k).vec.arrayState
    ensures EraseRange(v, k, 1).vec.capacity == Erase(v, k).vec.capacity
  {
  }

  /** Calling clear twice is calling it once. */
  lemma ClearIsIdempotent<T>(v: Vector<T>)
    requires Valid(v)
    ensures Clear(Clear(v)) == Clear(v)
  {
  }

  /** A copy compares equal to its source and has its size, capacity and state. */
  lemma CopyIsEqual<T>(v: Vector<T>)
    requires Valid(v)
    ensures Equal(Copy(v), v) && !NotEqual(Copy(v), v)
    ensures Size(Copy(v)) == Size(v) && Capacity(Copy(v)) == Capacity(v)
    ensures Copy(v).arrayState == v.arrayState
  {
  }

  /** After assignment from another object the target compares equal to the source; self-assignment changes nothing. */
  lemma AssignIsEqual<T>(self: Vector<T>, vec: Vector<T>)
    requires Valid(self) && Valid(vec) && StaticCapacity(self) == StaticCapacity(vec)
    ensures Equal(Assign(self, vec, false), vec)
    ensures Size(Assign(self, vec, false)) == Size(vec) && Capacity(Assign(self, vec, false)) == Capacity(vec)
    ensures Assign(self, self, true) == self
  {
  }

  /**
    Two vectors of the same StaticCapacity and the same size are in the same
    state. `operator==` returns early when the sizes differ, so for two
    vectors of one type its mixed-state comparisons are never reached.
  */
  lemma SameSizeSameState<T>(a: Vector<T>, b: Vector<T>)
    requires Valid(a) && Valid(b) && StaticCapacity(a) == StaticCapacity(b)
    requires a.size == b.size
    ensures a.arrayState == b.arrayState
  {
  }
}
