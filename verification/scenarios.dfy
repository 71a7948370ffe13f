/**
  Worked examples of VLVector<int, N> for small N, and the reachable state
  that shows a Dynamic vector's capacity need not equal the growth formula
  for its current size.
*/
module Scenarios {
  import opened VLVector

  /** The vector [0, 1, 2, 3, 4] built by push_back with StaticCapacity 4. */
  function PushedFive(): (v: Vector<int>)
    ensures Valid(v)
  {
    PushBack(PushBack(PushBack(PushBack(PushBack(New(4, 0), 0), 1), 2), 3), 4)
  }

  /** With StaticCapacity 4, the fifth push_back moves the elements to the heap with capacity 7. */
  lemma PushFiveMovesToHeap()
    ensures Elems(PushedFive()) == [0, 1, 2, 3, 4]
    ensures PushedFive().arrayState == Dynamic && PushedFive().capacity == 7
  {
    var v4 := PushBack(PushBack(PushBack(PushBack(New(4, 0), 0), 1), 2), 3);
    assert Elems(v4) == [0, 1, 2, 3] && v4.capacity == 4;
    assert Growth(4, 5) == 7;
  }

  /** Popping twice from [0, 1, 2, 3, 4] with StaticCapacity 4 brings the vector back inline. */
  lemma PushFiveThenPopTwo()
    ensures var w := PopBack(PopBack(PushedFive()));
      && Elems(w) == [0, 1, 2] && w.arrayState == Static && w.capacity == 4
  {
    PushFiveMovesToHeap();
    var w1 := PopBack(PushedFive());
    assert Elems(w1) == [0, 1, 2, 3] && w1.arrayState == Static && w1.capacity == 4;
  }

  /** Inserting 99 at offset 2 of [1, 2, 3] gives [1, 2, 99, 3], and the returned position holds 99. */
  lemma InsertInTheMiddle()
    ensures var r := Insert(PushBack(PushBack(PushBack(New(4, 0), 1), 2), 3), 2, 99);
      && Elems(r.vec) == [1, 2, 99, 3] && r.pos == 2 && Elems(r.vec)[r.pos] == 99
  {
  }

  /** Erasing offset 1 of [1, 2, 3, 4] gives [1, 3, 4], and the returned position holds 3. */
  lemma EraseInTheMiddle()
    ensures var r := Erase(PushBack(PushBack(PushBack(PushBack(New(4, 0), 1), 2), 3), 4), 1);
      && Elems(r.vec) == [1, 3, 4] && r.pos == 1 && Elems(r.vec)[r.pos] == 3
  {
  }

  /**
    With StaticCapacity 1, the third push_back fits the capacity 3 chosen
    by the second, so the vector stays at capacity 3 although the growth
    formula gives 4 for size 3.
  */
  lemma DynamicCapacityLagsGrowth()
    ensures var v := PushBack(PushBack(PushBack(New(1, 0), 1), 2), 3);
      && v.arrayState == Dynamic && v.size == 3 && v.capacity == 3 && Growth(1, 3) == 4
  {
  }
}
