/**
 * The static helpers of PriorityDeque that work in place on the backing
 * array: getLevel, the child and grandchild scans, bubbleUp (with its
 * grandparent climbs bubbleUpMin/bubbleUpMax) and trickleDown (with
 * trickleDownMin/trickleDownMax).  The Min and Max variants of the source
 * differ only in the direction of their comparisons, so each pair is one
 * method taking the Level; the natural-order and Comparator variants are
 * one method taking `rank`.
 */
module HeapArray {
  import opened MinMaxHeap
  import opened HeapBubble
  import opened HeapTrickle
  import opened Lang

  function Pow2(n: nat): nat
  {
    if n == 0 then 1 else 2 * Pow2(n - 1)
  }

  lemma {:induction false} Pow2Grows(m: nat, n: nat)
    requires m <= n
    ensures Pow2(m) <= Pow2(n)
    decreases n
  {
    if m < n {
      Pow2Grows(m, n - 1);
    }
  }

  lemma Pow2Limits()
    ensures Pow2(30) == 0x4000_0000 && Pow2(31) == 0x8000_0000
  {
    assert Pow2(5) == 32;
    Pow2Add(5, 5);
    Pow2Add(10, 10);
    Pow2Add(20, 10);
    Pow2Add(30, 1);
  }

  lemma {:induction false} Pow2Add(m: nat, n: nat)
    ensures Pow2(m + n) == Pow2(m) * Pow2(n)
    decreases n
  {
    if n > 0 {
      Pow2Add(m, n - 1);
    }
  }

  /** Depth(i) is the row of the implicit tree: rows 0..d-1 hold 2^d - 1 slots. */
  lemma {:induction false} DepthBounds(i: nat)
    ensures Pow2(Depth(i)) - 1 <= i < Pow2(Depth(i) + 1) - 1
    ensures Depth(i) <= i
    decreases i
  {
    if i > 0 {
      DepthBounds(Parent(i));
    }
  }

  /**
   * getLevel: adds up the row sizes 2^depth until they pass index.  The
   * running count never exceeds Integer.MAX_VALUE, so the source's int
   * accumulator does not overflow.
   */
  method GetLevel(size: int, index: int) returns (lv: Level)
    requires 0 <= index < size <= MAX_VALUE
    ensures lv == LevelOf(index)
  {
    DepthBounds(index);
    var noOfElements := 0;
    var depth := 0;
    while depth < size
      invariant 0 <= depth <= Depth(index)
      invariant noOfElements == Pow2(depth) - 1 <= index
      decreases size - depth
    {
      RowFits(index, depth);
      noOfElements := noOfElements + Pow2(depth);
      if index - noOfElements < 0 {
        break;
      }
      depth := depth + 1;
    }
    if depth < Depth(index) {
      Pow2Grows(depth + 1, Depth(index));
    }
    lv := if depth % 2 == 0 then Min else Max;
  }

  /** Adding row depth of index's path keeps the count within int, and the row of index passes it. */
  lemma RowFits(index: nat, depth: nat)
    requires index < MAX_VALUE && depth <= Depth(index)
    ensures Pow2(depth) - 1 + Pow2(depth) <= MAX_VALUE
    ensures depth == Depth(index) ==> index < Pow2(depth) - 1 + Pow2(depth)
  {
    DepthBounds(index);
    Pow2Limits();
    Pow2Order(31, Depth(index));
    Pow2Grows(depth, 30);
  }

  /** Powers of two are ordered as their exponents. */
  lemma Pow2Order(m: nat, n: nat)
    ensures m <= n <==> Pow2(m) <= Pow2(n)
  {
    if m <= n {
      Pow2Grows(m, n);
    } else {
      Pow2Grows(n + 1, m);
    }
  }

  /** The grandchildren of i are the four slots 4i+3 .. 4i+6. */
  lemma GrandChildren(i: int, h: int)
    requires i >= 0
    ensures Grand(h) == i <==> 4 * i + 3 <= h <= 4 * i + 6
  {
    if 4 * i + 3 <= h <= 4 * i + 6 {
      assert Parent(h) == 2 * i + 1 || Parent(h) == 2 * i + 2;
    }
    if Grand(h) == i {
      ParentFacts(h);
      ParentFacts(Parent(h));
    }
  }

  /**
   * indexOfSmallerChild / indexOfLargerChild: -1 without children, the
   * only child, or the child whose element comes first on lv.  Ties go to
   * the left child on a MIN level and to the right child on a MAX level.
   */
  function PreferredChild<E>(rank: E -> int, s: seq<E>, i: int, lv: Level): (ch: int)
    requires 0 <= i
    ensures BestChild(rank, s, i, lv, ch)
    ensures ch == LeftChild(i) && RightChild(i) < |s| ==> Above(lv, rank(s[LeftChild(i)]), rank(s[RightChild(i)]))
    ensures ch == RightChild(i) ==> !Above(lv, rank(s[LeftChild(i)]), rank(s[RightChild(i)]))
  {
    ChildFacts(i);
    DomFacts(lv);
    if LeftChild(i) >= |s| then -1
    else if RightChild(i) >= |s| then LeftChild(i)
    else if Above(lv, rank(s[LeftChild(i)]), rank(s[RightChild(i)])) then LeftChild(i)
    else RightChild(i)
  }

  /**
   * indexOfSmallestGrandChild / indexOfLargestGrandChild: scans the four
   * grandchild slots in order, replacing the candidate only by a strictly
   * better element, so the first of several equal best elements wins.
   */
  method IndexOfBestGrandChild<E>(rank: E -> int, a: array<E>, size: int, i: int, lv: Level) returns (gc: int)
    requires 0 <= i && 0 <= size <= a.Length
    ensures BestGrandChild(rank, a[..size], i, lv, gc)
    ensures gc != -1 ==> forall h :: 4 * i + 3 <= h < gc ==> Better(lv, rank(a[gc]), rank(a[h]))
  {
    var first := 4 * i + 3;
    gc := -1;
    var count := 0;
    while count < 4
      invariant 0 <= count <= 4
      invariant gc == -1 <==> (count == 0 || first >= size)
      invariant gc != -1 ==> first <= gc < first + count && gc < size
      invariant gc != -1 ==> forall h :: first <= h < first + count && h < size ==> Dom(lv, rank(a[gc]), rank(a[h]))
      invariant gc != -1 ==> forall h :: first <= h < gc ==> Better(lv, rank(a[gc]), rank(a[h]))
    {
      var slot := first + count;
      if slot < size {
        if gc == -1 || Better(lv, rank(a[slot]), rank(a[gc])) {
          gc := slot;
        }
      }
      count := count + 1;
    }
    forall h | 0 <= h < size && Grand(h) == i
      ensures first <= h < first + 4
    {
      GrandChildren(i, h);
    }
    if gc != -1 {
      GrandChildren(i, gc);
    }
  }

  /** swap: exchanges two occupied slots. */
  method SwapSlots<E>(a: array<E>, size: int, i: int, j: int)
    requires 0 <= i < size && 0 <= j < size && size <= a.Length
    modifies a
    ensures a[..size] == Swap(old(a[..size]), i, j) && a[size..] == old(a[size..])
  {
    a[i], a[j] := a[j], a[i];
  }

  // ------------------------------------------------------------ bubbleUp

  /**
   * bubbleUpMin / bubbleUpMax: while the element at i belongs above its
   * grandparent on i's level, swap the two and continue at the grandparent.
   */
  method Climb<E>(rank: E -> int, a: array<E>, size: int, i0: int)
    requires 0 <= i0 < size <= a.Length
    modifies a
    ensures a[..size] == ClimbFrom(rank, old(a[..size]), i0) && a[size..] == old(a[size..])
  {
    var i := i0;
    var lv := LevelOf(i0);
    ghost var cur := a[..size];
    ParentFacts(i);
    while Grand(i) >= 0 && Above(lv, rank(a[i]), rank(a[Grand(i)]))
      invariant 0 <= i < size && lv == LevelOf(i)
      invariant a[..size] == cur && a[size..] == old(a[size..])
      invariant ClimbFrom(rank, cur, i) == ClimbFrom(rank, old(a[..size]), i0)
      decreases i
    {
      ParentFacts(i);
      var g := Grand(i);
      SwapSlots(a, size, i, g);
      cur := Swap(cur, i, g);
      i := g;
    }
  }

  /**
   * bubbleUp: the element at index was put there without regard to its
   * ancestors.  If it belongs on its parent's level it swaps with the
   * parent and climbs from there, otherwise it climbs from index.
   * Afterwards only index's order with the slots below it can be open.
   */
  method BubbleUp<E>(rank: E -> int, a: array<E>, size: int, index: int)
    requires 0 <= index < size <= a.Length <= MAX_VALUE && Displaced(rank, a[..size], index)
    modifies a
    ensures multiset(a[..size]) == multiset(old(a[..size])) && a[size..] == old(a[size..])
    ensures TrickleReady(rank, a[..size], index)
  {
    var lv := GetLevel(size, index);
    var parentIndex := Parent(index);
    ghost var x: int;
    ParentFacts(index);
    if index > 0 && Above(Opposite(lv), rank(a[index]), rank(a[parentIndex])) {
      ClimbFromParent(rank, a[..size], index);
      SwapSlots(a, size, index, parentIndex);
      x := ClimbSound(rank, a[..size], parentIndex, index);
      Climb(rank, a, size, parentIndex);
    } else {
      ClimbFromSelf(rank, a[..size], index);
      x := ClimbSound(rank, a[..size], index, index);
      Climb(rank, a, size, index);
    }
    if x < 0 {
      HeapIsTrickleReady(rank, a[..size], index);
    }
  }

  // ------------------------------------------------------------ trickleDown

  /** One pass of the trickleDownMin / trickleDownMax loop body at slot i. */
  method TrickleStep<E>(rank: E -> int, a: array<E>, size: int, i: int, lv: Level) returns (gc: int, ch: int)
    requires 0 <= i < size <= a.Length
    modifies a
    ensures BestGrandChild(rank, old(a[..size]), i, lv, gc) && ch == PreferredChild(rank, old(a[..size]), i, lv)
    ensures a[..size] == Round(rank, old(a[..size]), i, lv, gc, ch) && a[size..] == old(a[size..])
  {
    gc := IndexOfBestGrandChild(rank, a, size, i, lv);
    ch := PreferredChild(rank, a[..size], i, lv);
    GrandChildSwap(rank, a, size, i, lv, gc);
    ChildSwap(rank, a, size, i, lv, ch);
  }

  /** The grandchild half of a round: swap with gc, then check gc against its parent. */
  method GrandChildSwap<E>(rank: E -> int, a: array<E>, size: int, i: int, lv: Level, gc: int)
    requires 0 <= i < size <= a.Length && -1 <= gc < size
    modifies a
    ensures a[..size] == (if gc > 0 && Above(lv, rank(old(a[..size])[gc]), rank(old(a[..size])[i]))
                          then AfterGrandChild(rank, old(a[..size]), i, lv, gc) else old(a[..size]))
    ensures a[size..] == old(a[size..])
  {
    ParentFacts(gc);
    if gc > 0 && Above(lv, rank(a[gc]), rank(a[i])) {
      SwapSlots(a, size, i, gc);
      var parent := Parent(gc);
      if !Above(lv, rank(a[gc]), rank(a[parent])) {
        SwapSlots(a, size, gc, parent);
      }
    }
  }

  /** The child half of a round. */
  method ChildSwap<E>(rank: E -> int, a: array<E>, size: int, i: int, lv: Level, ch: int)
    requires 0 <= i < size <= a.Length && -1 <= ch < size
    modifies a
    ensures a[..size] == AfterChild(rank, old(a[..size]), i, lv, ch) && a[size..] == old(a[size..])
  {
    if ch > 0 && Above(lv, rank(a[ch]), rank(a[i])) {
      SwapSlots(a, size, i, ch);
    }
  }

  /** What one pass of the trickleDown loop keeps. */
  lemma LoopRound<E>(rank: E -> int, s: seq<E>, r: seq<E>, index: int, i: int, lv: Level, gc: int, ch: int, good: bool)
    requires 0 <= index <= i < |s| && LeftChild(i) < |s| && LevelOf(i) == lv
    requires BestGrandChild(rank, s, i, lv, gc) && ch == PreferredChild(rank, s, i, lv)
    requires r == Round(rank, s, i, lv, gc, ch)
    requires good ==> TrickleReady(rank, s, i)
    ensures |r| == |s| && multiset(r) == multiset(s) && forall m :: 0 <= m < index ==> r[m] == s[m]
    ensures gc >= 0 ==> i < gc < |s| && LevelOf(gc) == lv
    ensures good && gc >= 0 ==> TrickleReady(rank, r, gc)
    ensures good && gc < 0 ==> IsHeap(rank, r)
  {
    ParentFacts(gc);
    ParentFacts(Parent(gc));
    ParentFacts(ch);
    RoundFrame(rank, s, i, lv, gc, ch);
    if good {
      TrickleRound(rank, s, i, lv, gc, ch);
      if gc > 0 && !Above(lv, rank(s[gc]), rank(s[i])) {
        HeapIsTrickleReady(rank, r, gc);
      }
    }
  }

  /**
   * trickleDown: rounds of grandchild swap, parent check and child check,
   * moving from index to the best grandchild until a slot without children
   * is reached (or there is no grandchild).  From a slot where only the
   * order with the slots below is open, the result is a heap.  Elements
   * move only within index and the slots after it.
   */
  method TrickleDown<E>(rank: E -> int, a: array<E>, size: int, index: int)
    requires 0 <= index <= size <= a.Length <= MAX_VALUE
    modifies a
    ensures multiset(a[..size]) == multiset(old(a[..size])) && a[size..] == old(a[size..])
    ensures a[..index] == old(a[..index])
    ensures LeftChild(index) >= size ==> a[..] == old(a[..])
    ensures TrickleReady(rank, old(a[..size]), index) ==> IsHeap(rank, a[..size])
  {
    if LeftChild(index) >= size {
      return;
    }
    var lv := GetLevel(size, index);
    ghost var good := TrickleReady(rank, a[..size], index);
    var i := index;
    while i >= 0 && LeftChild(i) < size
      invariant -1 <= i < size && (i >= 0 ==> index <= i && LevelOf(i) == lv)
      invariant multiset(a[..size]) == multiset(old(a[..size])) && a[size..] == old(a[size..])
      invariant forall m :: 0 <= m < index ==> a[m] == old(a[m])
      invariant good && i >= 0 ==> TrickleReady(rank, a[..size], i)
      invariant good && i < 0 ==> IsHeap(rank, a[..size])
      decreases if i < 0 then 0 else size + 1 - i
    {
      ghost var s := a[..size];
      assert forall m :: 0 <= m < index ==> s[m] == old(a[m]);
      var gc, ch := TrickleStep(rank, a, size, i, lv);
      LoopRound(rank, s, a[..size], index, i, lv, gc, ch, good);
      forall m | 0 <= m < index
        ensures a[m] == old(a[m])
      {
        assert a[..size][m] == s[m];
      }
      i := gc;
    }
    if good && i >= 0 {
      LeafReady(rank, a[..size], i);
    }
  }
}
