/**
  Element-copy routines of VLVector, over buffers modelled as sequences.

  A buffer is a whole C++ array: its length is the number of slots the array
  was allocated with, and an offset into it plays the role of a pointer. A
  copy between two distinct arrays cannot overlap, so its outcome is a block
  write (`Place`). A copy whose source and destination lie in the same array
  (the shifts of insert and erase) is modelled element by element, in the
  order the library routine visits the elements, because with overlapping
  ranges the visiting order decides the outcome.
*/
module Buffers {

  /** `new T[count]`: a fresh buffer whose every slot holds the value-initialised `blank`. */
  function Fresh<T>(count: nat, blank: T): (r: seq<T>)
    ensures |r| == count
  {
    seq(count, _ => blank)
  }

  /** The outcome of a correct block copy: `dst` with the slots [at, at + |block|) replaced by `block`. */
  function Place<T>(dst: seq<T>, at: nat, block: seq<T>): (r: seq<T>)
    requires at + |block| <= |dst|
    ensures |r| == |dst|
    ensures forall i | 0 <= i < |r| :: r[i] == if at <= i < at + |block| then block[i - at] else dst[i]
  {
    dst[..at] + block + dst[at + |block|..]
  }

  /**
    `_copyArray2Array(copyFrom, copyTo, numVals)`: a front-to-back loop that
    writes the first `numVals` slots of `copyTo` with the first `numVals`
    elements of `copyFrom`. Its callers always pass two distinct arrays.
  */
  method CopyArray2Array<T>(copyFrom: seq<T>, copyTo: seq<T>, numVals: nat) returns (r: seq<T>)
    requires numVals <= |copyFrom| && numVals <= |copyTo|
    ensures r == Place(copyTo, 0, copyFrom[..numVals])
  {
    r := copyTo;
    var i := 0;
    while i < numVals
      invariant i <= numVals
      invariant |r| == |copyTo|
      invariant r[..i] == copyFrom[..i]
      invariant r[i..] == copyTo[i..]
    {
      r := r[i := copyFrom[i]];
      i := i + 1;
    }
    assert r == Place(copyTo, 0, copyFrom[..numVals]);
  }

  /**
    `std::copy(first, last, dFirst)` with source and destination in the same
    buffer: the element at `first` goes to `dFirst`, then the next, front to
    back. Each step reads the buffer as the earlier steps left it.
  */
  function ForwardCopy<T>(buf: seq<T>, first: nat, last: nat, dFirst: nat): (r: seq<T>)
    requires first <= last <= |buf|
    requires dFirst + (last - first) <= |buf|
    ensures |r| == |buf|
    decreases last - first
  {
    if first == last then buf
    else ForwardCopy(buf[dFirst := buf[first]], first + 1, last, dFirst + 1)
  }

  /**
    `std::copy_backward(first, last, dLast)` with source and destination in
    the same buffer: the element before `last` goes to the slot before
    `dLast`, then the one before it, back to front.
  */
  function BackwardCopy<T>(buf: seq<T>, first: nat, last: nat, dLast: nat): (r: seq<T>)
    requires first <= last <= |buf|
    requires last - first <= dLast <= |buf|
    ensures |r| == |buf|
    decreases last - first
  {
    if first == last then buf
    else BackwardCopy(buf[dLast - 1 := buf[last - 1]], first, last - 1, dLast - 1)
  }

  /** A forward copy to a destination at or before its source (a left shift) moves the block intact. */
  lemma ForwardCopyShiftsLeft<T>(buf: seq<T>, first: nat, last: nat, dFirst: nat)
    requires first <= last <= |buf|
    requires dFirst <= first
    ensures ForwardCopy(buf, first, last, dFirst) == Place(buf, dFirst, buf[first..last])
  {
    var copied := ForwardCopy(buf, first, last, dFirst);
    var moved := Place(buf, dFirst, buf[first..last]);
    forall i | 0 <= i < |buf|
      ensures copied[i] == moved[i]
    {
      ForwardCopyLeftAt(buf, first, last, dFirst, i);
      if dFirst <= i < dFirst + (last - first) {
        assert moved[i] == buf[first..last][i - dFirst];
      }
    }
    assert copied == moved;
  }

  /**
    Slot `i` after a left shift by forward copy: inside the destination it
    holds the source element at the same distance from the start of the
    block, elsewhere what it held before. Each step writes a slot before the
    ones still to be read, so every element is read before it is overwritten.
  */
  lemma {:induction false} ForwardCopyLeftAt<T>(buf: seq<T>, first: nat, last: nat, dFirst: nat, i: nat)
    requires first <= last <= |buf| && dFirst <= first && i < |buf|
    ensures ForwardCopy(buf, first, last, dFirst)[i]
         == if dFirst <= i < dFirst + (last - first) then buf[first + (i - dFirst)] else buf[i]
    decreases last - first
  {
    if first < last {
      ForwardCopyLeftAt(buf[dFirst := buf[first]], first + 1, last, dFirst + 1, i);
    }
  }

  /** A backward copy to a destination at or after its source (a right shift) moves the block intact. */
  lemma BackwardCopyShiftsRight<T>(buf: seq<T>, first: nat, last: nat, dLast: nat)
    requires first <= last <= dLast <= |buf|
    ensures BackwardCopy(buf, first, last, dLast) == Place(buf, dLast - (last - first), buf[first..last])
  {
    var at := dLast - (last - first);
    var copied := BackwardCopy(buf, first, last, dLast);
    var moved := Place(buf, at, buf[first..last]);
    forall i | 0 <= i < |buf|
      ensures copied[i] == moved[i]
    {
      BackwardCopyAt(buf, first, last, dLast, i);
      if at <= i < dLast {
        assert moved[i] == buf[first..last][i - at];
      }
    }
    assert copied == moved;
  }

  /**
    Slot `i` after a right shift by backward copy: inside the destination it
    holds the source element at the same distance from the start of the block,
    elsewhere what it held before.
  */
  lemma {:induction false} BackwardCopyAt<T>(buf: seq<T>, first: nat, last: nat, dLast: nat, i: nat)
    requires first <= last <= dLast <= |buf| && i < |buf|
    ensures BackwardCopy(buf, first, last, dLast)[i]
         == if dLast - (last - first) <= i < dLast then buf[first + (i - (dLast - (last - first)))] else buf[i]
    decreases last - first
  {
    if first < last {
      BackwardCopyAt(buf[dLast - 1 := buf[last - 1]], first, last - 1, dLast - 1, i);
    }
  }

  /** A forward copy never touches the slots before its destination. */
  lemma {:induction false} ForwardCopyKeepsPrefix<T>(buf: seq<T>, first: nat, last: nat, dFirst: nat, i: nat)
    requires first <= last <= |buf|
    requires dFirst + (last - first) <= |buf|
    requires i < dFirst
    ensures ForwardCopy(buf, first, last, dFirst)[i] == buf[i]
    decreases last - first
  {
    if first < last {
      ForwardCopyKeepsPrefix(buf[dFirst := buf[first]], first + 1, last, dFirst + 1, i);
    }
  }

  /** A forward copy of `j` elements followed by the rest is the whole forward copy. */
  lemma {:induction false} ForwardCopySplit<T>(buf: seq<T>, first: nat, mid: nat, last: nat, dFirst: nat)
    requires first <= mid <= last <= |buf|
    requires dFirst + (last - first) <= |buf|
    ensures ForwardCopy(buf, first, last, dFirst)
         == ForwardCopy(ForwardCopy(buf, first, mid, dFirst), mid, last, dFirst + (mid - first))
    decreases mid - first
  {
    if first < mid {
      ForwardCopySplit(buf[dFirst := buf[first]], first + 1, mid, last, dFirst + 1);
    }
  }

  /**
    Why a right shift in place must copy from the back: when the destination
    starts inside the source range, a forward copy has overwritten slot
    `dFirst` before it reads it, so the slot `dFirst - first` places further
    on receives the first element a second time instead of the element that
    stood at `dFirst`.
  */
  lemma ForwardCopyRightSmears<T>(buf: seq<T>, first: nat, last: nat, dFirst: nat)
    requires first < dFirst < last
    requires dFirst + (last - first) <= |buf|
    ensures ForwardCopy(buf, first, last, dFirst)[dFirst + (dFirst - first)] == buf[first]
  {
    var d := dFirst - first;
    var done := ForwardCopy(buf, first, dFirst, dFirst);
    ForwardCopySplit(buf, first, dFirst, last, dFirst);
    // the first step wrote buf[first] at dFirst, and the later steps of the first part write beyond it
    ForwardCopyKeepsPrefix(buf[dFirst := buf[first]], first + 1, dFirst, dFirst + 1, dFirst);
    assert done[dFirst] == buf[first];
    // the second part reads slot dFirst first and writes it at dFirst + d, then writes beyond it
    var next := done[dFirst + d := done[dFirst]];
    ForwardCopyKeepsPrefix(next, dFirst + 1, last, dFirst + d + 1, dFirst + d);
  }

  /** Consequently a forward right shift over overlapping ranges is a correct move only if it happens to copy equal elements. */
  lemma ForwardCopyRightIsNotAMove<T>(buf: seq<T>, first: nat, last: nat, dFirst: nat)
    requires first < dFirst < last
    requires dFirst + (last - first) <= |buf|
    requires buf[first] != buf[dFirst]
    ensures ForwardCopy(buf, first, last, dFirst) != Place(buf, dFirst, buf[first..last])
  {
    ForwardCopyRightSmears(buf, first, last, dFirst);
    var moved := Place(buf, dFirst, buf[first..last]);
    assert moved[dFirst + (dFirst - first)] == buf[dFirst];
  }

  /** A right shift of the tail [k, n) by `|block|` slots, then `block` written into the gap, lays out prefix, block and tail. */
  lemma ShiftRightAndFill<T>(d: seq<T>, k: nat, n: nat, block: seq<T>)
    requires k <= n && n + |block| <= |d|
    ensures Place(BackwardCopy(d, k, n, n + |block|), k, block)[..n + |block|] == d[..k] + block + d[k..n]
  {
    BackwardCopyShiftsRight(d, k, n, n + |block|);
    assert (n + |block|) - (n - k) == k + |block|;
    PlaceIntoGap(d, k, n, block);
  }

  /** A left shift of the tail [k + m, n) onto slot `k` closes the gap: the first n - m slots hold prefix and tail. */
  lemma ShiftLeftAndClose<T>(d: seq<T>, k: nat, m: nat, n: nat)
    requires k + m <= n <= |d|
    ensures ForwardCopy(d, k + m, n, k)[..n - m] == d[..k] + d[k + m..n]
  {
    ForwardCopyShiftsLeft(d, k + m, n, k);
    assert Place(d, k, d[k + m..n])[..n - m] == d[..k] + d[k + m..n];
  }

  /** Writing one value into a slot is placing the one-element block there. */
  lemma PlaceOne<T>(dst: seq<T>, at: nat, x: T)
    requires at < |dst|
    ensures Place(dst, at, [x]) == dst[at := x]
  {
  }

  /** Writing a block into the gap a right shift opened yields prefix, block and shifted tail, in order. */
  lemma PlaceIntoGap<T>(d: seq<T>, k: nat, n: nat, block: seq<T>)
    requires k <= n && n + |block| <= |d|
    ensures Place(Place(d, k + |block|, d[k..n]), k, block)[..n + |block|] == d[..k] + block + d[k..n]
  {
  }

  /** Copying a prefix, a block and a tail side by side into a buffer yields their concatenation. */
  lemma PlaceSideBySide<T>(dst: seq<T>, prefix: seq<T>, block: seq<T>, tail: seq<T>)
    requires |prefix| + |block| + |tail| <= |dst|
    ensures Place(Place(Place(dst, 0, prefix), |prefix|, block), |prefix| + |block|, tail)[..|prefix| + |block| + |tail|]
         == prefix + block + tail
  {
  }

  /** `std::equal(p, p + count, q)`: compares the first `count` elements pairwise, front to back. */
  function RangesEqual<T(==)>(p: seq<T>, q: seq<T>, count: nat): (r: bool)
    requires count <= |p| && count <= |q|
    ensures r <==> p[..count] == q[..count]
  {
    if count == 0 then true
    else
      assert p[..count] == [p[0]] + p[1..][..count - 1];
      assert q[..count] == [q[0]] + q[1..][..count - 1];
      p[0] == q[0] && RangesEqual(p[1..], q[1..], count - 1)
  }
}
