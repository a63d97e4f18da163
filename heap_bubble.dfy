/**
 * Why bubbleUp restores the heap.  The element at slot x was placed there
 * without regard to its ancestors (offer appends it as a leaf; a removal
 * moves the last element into the vacated slot).  bubbleUp first compares
 * it with its parent and, if it belongs on the parent's level, swaps the
 * two; then it climbs the grandparent chain of the level it is on.
 */
module HeapBubble {
  import opened MinMaxHeap

  /** The grandparent of i orders i's children and grandchildren. */
  ghost predicate GrandBridge<E>(rank: E -> int, s: seq<E>, i: int)
  {
    forall c :: 0 <= c < |s| && 3 <= i && Below2(i, c) ==>
      (ParentFacts(c); ParentFacts(i);
       Dom(LevelOf(Grand(i)), rank(s[Grand(i)]), rank(s[c])))
  }

  /** x's element orders its children and grandchildren the way x's parent level would. */
  ghost predicate ReverseBridge<E>(rank: E -> int, s: seq<E>, x: int)
  {
    forall c :: 0 <= c < |s| && 0 <= x && Below2(x, c) ==>
      (ParentFacts(c);
       Dom(Opposite(LevelOf(x)), rank(s[x]), rank(s[c])))
  }

  /**
   * Slot x holds an element put there without regard to its neighbours:
   * every constraint that does not involve x holds, and x's parent and
   * grandparent order the slots below x.
   */
  ghost predicate Displaced<E>(rank: E -> int, s: seq<E>, x: int)
  {
    0 <= x < |s| && Bridges(rank, s, x) &&
    forall j :: 0 <= j < |s| && j != x ==>
      (Parent(j) != x ==> ParentOk(rank, s, j)) && (Grand(j) != x ==> GrandOk(rank, s, j))
  }

  /**
   * The invariant of the grandparent climb at slot i.  Slot x (or -1) is the
   * displaced slot whose order with the slots below it is still open; it is
   * i itself before the first step, or a child of the climb's start.
   */
  ghost predicate Climbing<E>(rank: E -> int, s: seq<E>, i: int, x: int)
  {
    0 <= i < |s| && -1 <= x < |s| &&
    HeapExcept(rank, s, x, i) && GrandBridge(rank, s, i) &&
    (x >= 0 ==> Bridges(rank, s, x)) &&
    (x == -1 || x == i || (x > 0 && i <= Parent(x) && LevelOf(i) == LevelOf(Parent(x)))) &&
    (x > 0 && i == Parent(x) ==> ReverseBridge(rank, s, x))
  }

  lemma AboveDom(lv: Level, u: int, v: int)
    ensures Above(lv, u, v) ==> Dom(lv, u, v)
    ensures !Above(lv, u, v) ==> Dom(lv, v, u)
  {
  }

  /** The parent test fails: the climb starts at x on x's own level. */
  lemma ClimbFromSelf<E>(rank: E -> int, s: seq<E>, x: int)
    requires Displaced(rank, s, x)
    requires x == 0 || !Above(Opposite(LevelOf(x)), rank(s[x]), rank(s[Parent(x)]))
    ensures Climbing(rank, s, x, x)
  {
    ParentFacts(x);
    if x > 0 {
      AboveDom(Opposite(LevelOf(x)), rank(s[x]), rank(s[Parent(x)]));
    }
    forall c | 0 <= c < |s| && 3 <= x && Below2(x, c)
      ensures Dom(LevelOf(Grand(x)), rank(s[Grand(x)]), rank(s[c]))
    {
      ParentFacts(c);
    }
  }

  /** The parent test holds: x and its parent swap, the climb starts at the parent. */
  lemma ClimbFromParent<E>(rank: E -> int, s: seq<E>, x: int)
    requires Displaced(rank, s, x) && x > 0
    requires Above(Opposite(LevelOf(x)), rank(s[x]), rank(s[Parent(x)]))
    ensures Climbing(rank, Swap(s, x, Parent(x)), Parent(x), x)
  {
    ParentFacts(x);
    var p := Parent(x);
    var t := Swap(s, x, p);
    FromParentOrder(rank, s, x);
    FromParentBridges(rank, s, x);
    assert HeapExcept(rank, t, x, p);
  }

  lemma FromParentParentAt<E>(rank: E -> int, s: seq<E>, x: int, j: int)
    requires Displaced(rank, s, x) && x > 0
    requires Above(Opposite(LevelOf(x)), rank(s[x]), rank(s[Parent(x)]))
    requires 0 <= j < |s| && Parent(j) != x
    ensures ParentOk(rank, Swap(s, x, Parent(x)), j)
  {
    ParentFacts(x);
    var p := Parent(x);
    ParentFacts(p);
    ParentFacts(j);
    AboveDom(Opposite(LevelOf(x)), rank(s[x]), rank(s[p]));
    if j == x {
    } else if j == p {
      if p > 0 {
        assert ParentOk(rank, s, p);
      }
    } else {
      assert ParentOk(rank, s, j);
    }
  }

  lemma FromParentGrandAt<E>(rank: E -> int, s: seq<E>, x: int, j: int)
    requires Displaced(rank, s, x) && x > 0
    requires Above(Opposite(LevelOf(x)), rank(s[x]), rank(s[Parent(x)]))
    requires 0 <= j < |s| && Grand(j) != x && j != Parent(x)
    ensures GrandOk(rank, Swap(s, x, Parent(x)), j)
  {
    ParentFacts(x);
    var p := Parent(x);
    ParentFacts(p);
    ParentFacts(j);
    AboveDom(Opposite(LevelOf(x)), rank(s[x]), rank(s[p]));
    if j < 3 {
    } else if j == x {
      assert ParentOk(rank, s, p);
    } else if Grand(j) == p && Parent(j) == x {
      assert Below2(x, j);
    } else {
      assert GrandOk(rank, s, j);
    }
  }

  lemma FromParentOrder<E>(rank: E -> int, s: seq<E>, x: int)
    requires Displaced(rank, s, x) && x > 0
    requires Above(Opposite(LevelOf(x)), rank(s[x]), rank(s[Parent(x)]))
    ensures HeapExcept(rank, Swap(s, x, Parent(x)), x, Parent(x))
  {
    var t := Swap(s, x, Parent(x));
    forall j | 0 <= j < |t| && Parent(j) != x
      ensures ParentOk(rank, t, j)
    {
      FromParentParentAt(rank, s, x, j);
    }
    forall j | 0 <= j < |t| && Grand(j) != x && j != Parent(x)
      ensures GrandOk(rank, t, j)
    {
      FromParentGrandAt(rank, s, x, j);
    }
  }

  lemma FromParentGrandBridgeAt<E>(rank: E -> int, s: seq<E>, x: int, c: int)
    requires Displaced(rank, s, x) && x > 0
    requires Above(Opposite(LevelOf(x)), rank(s[x]), rank(s[Parent(x)]))
    requires 0 <= c < |s| && 3 <= Parent(x) && Below2(Parent(x), c)
    ensures Dom(LevelOf(Grand(Parent(x))), rank(Swap(s, x, Parent(x))[Grand(Parent(x))]),
                rank(Swap(s, x, Parent(x))[c]))
  {
    ParentFacts(x);
    var p := Parent(x);
    ParentFacts(p);
    ParentFacts(c);
    AboveDom(Opposite(LevelOf(x)), rank(s[x]), rank(s[p]));
    assert GrandOk(rank, s, p);
    if c == x {
    } else if Parent(c) == p {
      assert ParentOk(rank, s, c);
    } else if Parent(c) == x {
      assert Below2(x, c);
    } else {
      assert GrandOk(rank, s, c);
    }
  }

  lemma FromParentBridges<E>(rank: E -> int, s: seq<E>, x: int)
    requires Displaced(rank, s, x) && x > 0
    requires Above(Opposite(LevelOf(x)), rank(s[x]), rank(s[Parent(x)]))
    ensures GrandBridge(rank, Swap(s, x, Parent(x)), Parent(x))
    ensures Bridges(rank, Swap(s, x, Parent(x)), x)
    ensures ReverseBridge(rank, Swap(s, x, Parent(x)), x)
  {
    ParentFacts(x);
    var p := Parent(x);
    ParentFacts(p);
    var t := Swap(s, x, p);
    var L := LevelOf(x);
    AboveDom(Opposite(L), rank(s[x]), rank(s[p]));
    forall c | 0 <= c < |t| && 3 <= p && Below2(p, c)
      ensures Dom(LevelOf(Grand(p)), rank(t[Grand(p)]), rank(t[c]))
    {
      FromParentGrandBridgeAt(rank, s, x, c);
    }
    forall c | 0 <= c < |t| && Below2(x, c)
      ensures Dom(LevelOf(p), rank(t[p]), rank(t[c]))
      ensures x >= 3 ==> Dom(LevelOf(Grand(x)), rank(t[Grand(x)]), rank(t[c]))
      ensures Dom(Opposite(LevelOf(x)), rank(t[x]), rank(t[c]))
    {
      ParentFacts(c);
    }
  }

  /** One step of the climb: i and its grandparent swap. */
  lemma ClimbStep<E>(rank: E -> int, s: seq<E>, i: int, x: int)
    requires Climbing(rank, s, i, x) && i >= 3
    requires Above(LevelOf(i), rank(s[i]), rank(s[Grand(i)]))
    ensures Climbing(rank, Swap(s, i, Grand(i)), Grand(i), if x == i then -1 else x)
  {
    ParentFacts(i);
    ParentFacts(Parent(i));
    StepOrder(rank, s, i, x);
    StepBridge(rank, s, i, x);
    if x >= 0 && x != i {
      StepDisplaced(rank, s, i, x);
    }
  }

  lemma StepOrder<E>(rank: E -> int, s: seq<E>, i: int, x: int)
    requires Climbing(rank, s, i, x) && i >= 3
    requires Above(LevelOf(i), rank(s[i]), rank(s[Grand(i)]))
    ensures HeapExcept(rank, Swap(s, i, Grand(i)), if x == i then -1 else x, Grand(i))
  {
    StepParents(rank, s, i, x);
    StepGrands(rank, s, i, x);
  }

  /** The swap with the grandparent keeps every parent constraint not at x's children. */
  lemma StepParents<E>(rank: E -> int, s: seq<E>, i: int, x: int)
    requires Climbing(rank, s, i, x) && i >= 3
    requires Above(LevelOf(i), rank(s[i]), rank(s[Grand(i)]))
    ensures forall j :: 0 <= j < |s| && Parent(j) != (if x == i then -1 else x) ==> ParentOk(rank, Swap(s, i, Grand(i)), j)
  {
    ParentFacts(i);
    var pi := Parent(i);
    ParentFacts(pi);
    var g := Grand(i);
    var t := Swap(s, i, g);
    var x' := if x == i then -1 else x;
    AboveDom(LevelOf(i), rank(s[i]), rank(s[g]));
    if x >= 0 && x != i {
      ParentFacts(x);
    }
    forall j | 0 <= j < |t| && Parent(j) != x'
      ensures ParentOk(rank, t, j)
    {
      ParentFacts(j);
      if j == i {
        assert ParentOk(rank, s, pi);
      } else if j == g {
        assert ParentOk(rank, s, g);
      } else if Parent(j) == i {
        assert Below2(i, j);
      } else {
        assert ParentOk(rank, s, j);
      }
    }
  }

  /** The swap with the grandparent keeps every grandparent constraint not at x's grandchildren or at g. */
  lemma StepGrands<E>(rank: E -> int, s: seq<E>, i: int, x: int)
    requires Climbing(rank, s, i, x) && i >= 3
    requires Above(LevelOf(i), rank(s[i]), rank(s[Grand(i)]))
    ensures forall j :: 0 <= j < |s| && Grand(j) != (if x == i then -1 else x) && j != Grand(i) ==>
      GrandOk(rank, Swap(s, i, Grand(i)), j)
  {
    ParentFacts(i);
    var pi := Parent(i);
    ParentFacts(pi);
    var g := Grand(i);
    var t := Swap(s, i, g);
    var x' := if x == i then -1 else x;
    AboveDom(LevelOf(i), rank(s[i]), rank(s[g]));
    if x >= 0 && x != i {
      ParentFacts(x);
    }
    forall j | 0 <= j < |t| && Grand(j) != x' && j != g
      ensures GrandOk(rank, t, j)
    {
      ParentFacts(j);
      if j < 3 || j == i {
      } else if Grand(j) == i {
        assert Below2(i, j);
        assert t[i] == s[g] && t[j] == s[j];
      } else if Grand(j) == g {
        assert GrandOk(rank, s, j);
        assert t[g] == s[i] && t[j] == s[j];
      } else {
        assert GrandOk(rank, s, j);
      }
      assert GrandOk(rank, t, j);
    }
  }

  lemma StepBridge<E>(rank: E -> int, s: seq<E>, i: int, x: int)
    requires Climbing(rank, s, i, x) && i >= 3
    requires Above(LevelOf(i), rank(s[i]), rank(s[Grand(i)]))
    ensures GrandBridge(rank, Swap(s, i, Grand(i)), Grand(i))
  {
    ParentFacts(i);
    var pi := Parent(i);
    ParentFacts(pi);
    var g := Grand(i);
    ParentFacts(g);
    var t := Swap(s, i, g);
    AboveDom(LevelOf(i), rank(s[i]), rank(s[g]));
    if x >= 0 && x != i {
      ParentFacts(x);
    }
    forall c | 0 <= c < |t| && 3 <= g && Below2(g, c)
      ensures Dom(LevelOf(Grand(g)), rank(t[Grand(g)]), rank(t[c]))
    {
      ParentFacts(c);
      assert GrandOk(rank, s, g);
      if c == i {
      } else if Parent(c) == g {
        assert ParentOk(rank, s, c);
      } else {
        assert GrandOk(rank, s, c);
      }
    }
  }

  lemma StepDisplaced<E>(rank: E -> int, s: seq<E>, i: int, x: int)
    requires Climbing(rank, s, i, x) && i >= 3 && x >= 0 && x != i
    requires Above(LevelOf(i), rank(s[i]), rank(s[Grand(i)]))
    ensures Bridges(rank, Swap(s, i, Grand(i)), x)
  {
    ParentFacts(i);
    ParentFacts(Parent(i));
    var g := Grand(i);
    var t := Swap(s, i, g);
    ParentFacts(x);
    ParentFacts(Parent(x));
    forall c | 0 <= c < |t| && Below2(x, c)
      ensures Dom(LevelOf(Parent(x)), rank(t[Parent(x)]), rank(t[c]))
      ensures x >= 3 ==> Dom(LevelOf(Grand(x)), rank(t[Grand(x)]), rank(t[c]))
    {
      StepDisplacedAt(rank, s, i, x, c);
    }
  }

  lemma StepDisplacedAt<E>(rank: E -> int, s: seq<E>, i: int, x: int, c: int)
    requires Climbing(rank, s, i, x) && i >= 3 && x >= 0 && x != i
    requires Above(LevelOf(i), rank(s[i]), rank(s[Grand(i)]))
    requires 0 <= c < |s| && Below2(x, c)
    ensures Dom(LevelOf(Parent(x)), rank(Swap(s, i, Grand(i))[Parent(x)]), rank(Swap(s, i, Grand(i))[c]))
    ensures x >= 3 ==> Dom(LevelOf(Grand(x)), rank(Swap(s, i, Grand(i))[Grand(x)]), rank(Swap(s, i, Grand(i))[c]))
  {
    ParentFacts(i);
    ParentFacts(Parent(i));
    ParentFacts(x);
    ParentFacts(Parent(x));
    ParentFacts(c);
    if Parent(x) == i {
      assert Below2(i, x);
    }
  }

  /**
   * What bubbleUpMin / bubbleUpMax leave behind: from slot i, swap with the
   * grandparent while the element belongs above it on i's level.
   */
  function ClimbFrom<E>(rank: E -> int, s: seq<E>, i: int): (t: seq<E>)
    requires 0 <= i < |s|
    ensures |t| == |s|
    decreases i
  {
    ParentFacts(i);
    if Grand(i) >= 0 && Above(LevelOf(i), rank(s[i]), rank(s[Grand(i)])) then
      ClimbFrom(rank, Swap(s, i, Grand(i)), Grand(i))
    else s
  }

  /**
   * A climb started in the Climbing state permutes the elements and ends
   * with a heap, or with x (the displaced slot) ready for trickling down.
   */
  lemma {:induction false} ClimbSound<E>(rank: E -> int, s: seq<E>, i: int, x: int) returns (x': int)
    requires Climbing(rank, s, i, x)
    ensures x' == -1 || x' == x
    ensures multiset(ClimbFrom(rank, s, i)) == multiset(s)
    ensures x' >= 0 ==> TrickleReady(rank, ClimbFrom(rank, s, i), x')
    ensures x' < 0 ==> IsHeap(rank, ClimbFrom(rank, s, i))
    decreases i
  {
    ParentFacts(i);
    if Grand(i) >= 0 && Above(LevelOf(i), rank(s[i]), rank(s[Grand(i)])) {
      ClimbStep(rank, s, i, x);
      x' := ClimbSound(rank, Swap(s, i, Grand(i)), Grand(i), if x == i then -1 else x);
    } else {
      ClimbEnd(rank, s, i, x);
      x' := x;
    }
  }

  /** The climb stops: only x's order with the slots below it remains open. */
  lemma ClimbEnd<E>(rank: E -> int, s: seq<E>, i: int, x: int)
    requires Climbing(rank, s, i, x)
    requires i < 3 || !Above(LevelOf(i), rank(s[i]), rank(s[Grand(i)]))
    ensures x >= 0 ==> TrickleReady(rank, s, x)
    ensures x < 0 ==> IsHeap(rank, s)
  {
    ParentFacts(i);
    if i >= 3 {
      AboveDom(LevelOf(i), rank(s[i]), rank(s[Grand(i)]));
    }
    assert GrandOk(rank, s, i);
  }
}
