/**
 * Why trickleDown restores the heap.  One round at slot i (on level lv):
 * pick the grandchild gc and the child ch whose elements come first on lv;
 * if gc's element belongs above i's, swap them and then put the larger (on
 * a MIN level) of gc and its parent on the parent; then, if ch's element
 * belongs above the element now at i, swap those; continue at gc.
 */
module HeapTrickle {
  import opened MinMaxHeap

  /** gc is a grandchild of i whose element comes first on lv, or -1 if i has none. */
  ghost predicate BestGrandChild<E>(rank: E -> int, s: seq<E>, i: int, lv: Level, gc: int)
  {
    0 <= i &&
    (gc == -1 <==> LeftChild(LeftChild(i)) >= |s|) &&
    (gc != -1 ==> 0 <= gc < |s| && Grand(gc) == i &&
                  forall h :: 0 <= h < |s| && Grand(h) == i ==> Dom(lv, rank(s[gc]), rank(s[h])))
  }

  /** ch is a child of i whose element comes first on lv, or -1 if i has none. */
  ghost predicate BestChild<E>(rank: E -> int, s: seq<E>, i: int, lv: Level, ch: int)
  {
    0 <= i &&
    (ch == -1 <==> LeftChild(i) >= |s|) &&
    (ch != -1 ==> 0 <= ch < |s| && Parent(ch) == i &&
                  forall h :: 0 <= h < |s| && Parent(h) == i ==> Dom(lv, rank(s[ch]), rank(s[h])))
  }

  ghost predicate RoundPre<E>(rank: E -> int, s: seq<E>, i: int, lv: Level, gc: int, ch: int)
  {
    TrickleReady(rank, s, i) && lv == LevelOf(i) && LeftChild(i) < |s| &&
    BestGrandChild(rank, s, i, lv, gc) && BestChild(rank, s, i, lv, ch)
  }

  /** The grandchild swap followed by the parent check at gc's parent. */
  function AfterGrandChild<E>(rank: E -> int, s: seq<E>, i: int, lv: Level, gc: int): seq<E>
    requires 0 <= i < |s| && 0 < gc < |s|
  {
    var s1 := Swap(s, i, gc);
    if !Above(lv, rank(s1[gc]), rank(s1[Parent(gc)])) then Swap(s1, gc, Parent(gc)) else s1
  }

  /** The child check. */
  function AfterChild<E>(rank: E -> int, s: seq<E>, i: int, lv: Level, ch: int): seq<E>
    requires 0 <= i < |s| && -1 <= ch < |s|
  {
    if ch > 0 && Above(lv, rank(s[ch]), rank(s[i])) then Swap(s, i, ch) else s
  }

  /** One round of the trickleDown loop body. */
  function Round<E>(rank: E -> int, s: seq<E>, i: int, lv: Level, gc: int, ch: int): seq<E>
    requires 0 <= i < |s| && -1 <= gc < |s| && -1 <= ch < |s|
  {
    if gc > 0 && Above(lv, rank(s[gc]), rank(s[i])) then
      AfterChild(rank, AfterGrandChild(rank, s, i, lv, gc), i, lv, ch)
    else
      AfterChild(rank, s, i, lv, ch)
  }

  lemma DomFacts(lv: Level)
    ensures forall u, v :: Dom(lv, u, v) <==> Dom(Opposite(lv), v, u)
    ensures forall u, v :: Above(lv, u, v) ==> Dom(lv, u, v)
    ensures forall u, v :: !Above(lv, u, v) ==> Dom(lv, v, u)
    ensures forall u, v :: Dom(lv, u, v) && Dom(lv, v, u) ==> u == v
  {
  }

  // ------------------------------------------------ the grandchild swap happens

  ghost predicate GcSwapPre<E>(rank: E -> int, s: seq<E>, i: int, lv: Level, gc: int, ch: int)
  {
    RoundPre(rank, s, i, lv, gc, ch) && gc > 0 && Above(lv, rank(s[gc]), rank(s[i]))
  }

  /** Facts about the state after the grandchild swap and its parent check. */
  lemma GcSwapShape<E>(rank: E -> int, s: seq<E>, i: int, lv: Level, gc: int, ch: int)
    requires GcSwapPre(rank, s, i, lv, gc, ch)
    ensures var s2 := AfterGrandChild(rank, s, i, lv, gc); var p := Parent(gc);
      0 < p < gc && Parent(p) == i && LevelOf(p) == Opposite(lv) && LevelOf(gc) == lv &&
      |s2| == |s| && s2[i] == s[gc] &&
      (forall m :: 0 <= m < |s| && m != i && m != gc && m != p ==> s2[m] == s[m]) &&
      Dom(lv, rank(s[gc]), rank(s2[p])) && Dom(lv, rank(s[gc]), rank(s2[gc])) &&
      Dom(Opposite(lv), rank(s2[p]), rank(s2[gc])) &&
      Dom(Opposite(lv), rank(s2[p]), rank(s[p])) &&
      (rank(s2[p]) == rank(s[i]) || rank(s2[p]) == rank(s[p])) &&
      (rank(s2[gc]) == rank(s[i]) || rank(s2[gc]) == rank(s[p]))
  {
    DomFacts(lv);
    ParentFacts(gc);
    ParentFacts(Parent(gc));
    assert ParentOk(rank, s, gc);
  }

  /** The child check does nothing that changes an order constraint. */
  ghost predicate ChildCheckIdle<E>(rank: E -> int, s2: seq<E>, i: int, lv: Level, ch: int)
    requires 0 <= i < |s2| && -1 <= ch < |s2|
  {
    !(ch > 0 && Above(lv, rank(s2[ch]), rank(s2[i]))) || rank(s2[ch]) == rank(s2[i])
  }

  lemma GcIdleOrder<E>(rank: E -> int, s: seq<E>, i: int, lv: Level, gc: int, ch: int)
    requires GcSwapPre(rank, s, i, lv, gc, ch)
    requires ChildCheckIdle(rank, AfterGrandChild(rank, s, i, lv, gc), i, lv, ch)
    ensures HeapExcept(rank, AfterGrandChild(rank, s, i, lv, gc), gc, -1)
  {
    GcIdleParents(rank, s, i, lv, gc, ch);
    GcIdleGrands(rank, s, i, lv, gc, ch);
  }

  lemma GcIdleParents<E>(rank: E -> int, s: seq<E>, i: int, lv: Level, gc: int, ch: int)
    requires GcSwapPre(rank, s, i, lv, gc, ch)
    requires ChildCheckIdle(rank, AfterGrandChild(rank, s, i, lv, gc), i, lv, ch)
    ensures forall j :: 0 <= j < |s| && Parent(j) != gc ==> ParentOk(rank, AfterGrandChild(rank, s, i, lv, gc), j)
  {
    forall j | 0 <= j < |s| && Parent(j) != gc
      ensures ParentOk(rank, AfterGrandChild(rank, s, i, lv, gc), j)
    {
      GcIdleParentAt(rank, s, i, lv, gc, ch, j);
    }
  }

  lemma GcIdleParentAt<E>(rank: E -> int, s: seq<E>, i: int, lv: Level, gc: int, ch: int, j: int)
    requires GcSwapPre(rank, s, i, lv, gc, ch)
    requires ChildCheckIdle(rank, AfterGrandChild(rank, s, i, lv, gc), i, lv, ch)
    requires 0 <= j < |s| && Parent(j) != gc
    ensures ParentOk(rank, AfterGrandChild(rank, s, i, lv, gc), j)
  {
    var s2 := AfterGrandChild(rank, s, i, lv, gc);
    var p := Parent(gc);
    GcSwapShape(rank, s, i, lv, gc, ch);
    DomFacts(lv);
    ParentFacts(i);
    ParentFacts(j);
    if ch != p {
      assert ch > 0 ==> s2[ch] == s[ch];
    }
    if j == i {
      assert Below2(i, gc);
    } else if j == p || j == gc {
    } else if Parent(j) == i {
      if LeftChild(j) < |s| {
        ParentFacts(LeftChild(j));
        assert ParentOk(rank, s, LeftChild(j));
      }
    } else {
      assert ParentOk(rank, s, j);
    }
    assert ParentOk(rank, s2, j);
  }

  lemma GcIdleGrands<E>(rank: E -> int, s: seq<E>, i: int, lv: Level, gc: int, ch: int)
    requires GcSwapPre(rank, s, i, lv, gc, ch)
    requires ChildCheckIdle(rank, AfterGrandChild(rank, s, i, lv, gc), i, lv, ch)
    ensures forall j :: 0 <= j < |s| && Grand(j) != gc ==> GrandOk(rank, AfterGrandChild(rank, s, i, lv, gc), j)
  {
    forall j | 0 <= j < |s| && Grand(j) != gc
      ensures GrandOk(rank, AfterGrandChild(rank, s, i, lv, gc), j)
    {
      GcIdleGrandAt(rank, s, i, lv, gc, ch, j);
    }
  }

  lemma GcIdleGrandAt<E>(rank: E -> int, s: seq<E>, i: int, lv: Level, gc: int, ch: int, j: int)
    requires GcSwapPre(rank, s, i, lv, gc, ch)
    requires ChildCheckIdle(rank, AfterGrandChild(rank, s, i, lv, gc), i, lv, ch)
    requires 0 <= j < |s| && Grand(j) != gc
    ensures GrandOk(rank, AfterGrandChild(rank, s, i, lv, gc), j)
  {
    var s2 := AfterGrandChild(rank, s, i, lv, gc);
    var p := Parent(gc);
    GcSwapShape(rank, s, i, lv, gc, ch);
    DomFacts(lv);
    ParentFacts(i);
    ParentFacts(j);
    if j < 3 {
    } else if j == i {
      assert Below2(i, gc);
    } else if j == p {
      ParentFacts(p);
      assert Grand(p) == Parent(i) && s2[Parent(i)] == s[Parent(i)];
      assert ParentOk(rank, s, i) && GrandOk(rank, s, p);
    } else if j == gc {
      assert Grand(gc) == i && s2[i] == s[gc];
    } else if Grand(j) == i {
      assert s2[i] == s[gc] && s2[j] == s[j];
      assert Dom(lv, rank(s[gc]), rank(s[j]));
    } else if Grand(j) == ch && ch != p {
      assert ch > 0 ==> s2[ch] == s[ch];
      assert GrandOk(rank, s, j);
    } else {
      assert GrandOk(rank, s, j);
    }
    assert GrandOk(rank, s2, j);
  }

  lemma GcIdleBridges<E>(rank: E -> int, s: seq<E>, i: int, lv: Level, gc: int, ch: int)
    requires GcSwapPre(rank, s, i, lv, gc, ch)
    ensures Bridges(rank, AfterGrandChild(rank, s, i, lv, gc), gc)
  {
    var s2 := AfterGrandChild(rank, s, i, lv, gc);
    var p := Parent(gc);
    GcSwapShape(rank, s, i, lv, gc, ch);
    DomFacts(lv);
    DomFacts(Opposite(lv));
    forall c | 0 <= c < |s2| && Below2(gc, c)
      ensures Dom(LevelOf(p), rank(s2[p]), rank(s2[c]))
      ensures Dom(LevelOf(i), rank(s2[i]), rank(s2[c]))
    {
      ParentFacts(c);
      if Parent(c) == gc {
        assert GrandOk(rank, s, c) && ParentOk(rank, s, c);
      } else {
        ParentFacts(Parent(c));
        assert GrandOk(rank, s, Parent(c)) && ParentOk(rank, s, c) && GrandOk(rank, s, c);
      }
    }
  }

  /** The child check swaps a leaf child whose element comes strictly first. */
  lemma GcFixOrder<E>(rank: E -> int, s: seq<E>, i: int, lv: Level, gc: int, ch: int)
    requires GcSwapPre(rank, s, i, lv, gc, ch)
    requires !ChildCheckIdle(rank, AfterGrandChild(rank, s, i, lv, gc), i, lv, ch)
    ensures HeapExcept(rank, AfterChild(rank, AfterGrandChild(rank, s, i, lv, gc), i, lv, ch), gc, -1)
  {
    GcFixParents(rank, s, i, lv, gc, ch);
    GcFixGrands(rank, s, i, lv, gc, ch);
  }

  /** Facts about the state after a child check that swaps. */
  lemma GcFixShape<E>(rank: E -> int, s: seq<E>, i: int, lv: Level, gc: int, ch: int)
    requires GcSwapPre(rank, s, i, lv, gc, ch)
    requires !ChildCheckIdle(rank, AfterGrandChild(rank, s, i, lv, gc), i, lv, ch)
    ensures var s2 := AfterGrandChild(rank, s, i, lv, gc); var r := AfterChild(rank, AfterGrandChild(rank, s, i, lv, gc), i, lv, ch); var p := Parent(gc);
      0 < ch && Parent(ch) == i && ch != p && ch != gc &&
      |r| == |s| && r[i] == s[ch] && r[ch] == s[gc] && r[p] == s2[p] && r[gc] == s2[gc] &&
      (forall m :: 0 <= m < |s| && m != i && m != gc && m != p && m != ch ==> r[m] == s[m]) &&
      Dom(lv, rank(s[ch]), rank(s[gc]))
  {
    var s2 := AfterGrandChild(rank, s, i, lv, gc);
    var p := Parent(gc);
    GcSwapShape(rank, s, i, lv, gc, ch);
    DomFacts(lv);
    ParentFacts(ch);
    assert ch != p;
    assert s2[ch] == s[ch];
  }

  lemma GcFixParents<E>(rank: E -> int, s: seq<E>, i: int, lv: Level, gc: int, ch: int)
    requires GcSwapPre(rank, s, i, lv, gc, ch)
    requires !ChildCheckIdle(rank, AfterGrandChild(rank, s, i, lv, gc), i, lv, ch)
    ensures forall j :: 0 <= j < |s| && Parent(j) != gc ==> ParentOk(rank, AfterChild(rank, AfterGrandChild(rank, s, i, lv, gc), i, lv, ch), j)
  {
    forall j | 0 <= j < |s| && Parent(j) != gc
      ensures ParentOk(rank, AfterChild(rank, AfterGrandChild(rank, s, i, lv, gc), i, lv, ch), j)
    {
      if j == i || j == ch || j == Parent(gc) || j == gc || Parent(j) == i {
        GcFixParentNear(rank, s, i, lv, gc, ch, j);
      } else {
        GcFixParentFar(rank, s, i, lv, gc, ch, j);
      }
    }
  }

  /** Parent constraints at the moved slots and at i's children. */
  lemma GcFixParentNear<E>(rank: E -> int, s: seq<E>, i: int, lv: Level, gc: int, ch: int, j: int)
    requires GcSwapPre(rank, s, i, lv, gc, ch)
    requires !ChildCheckIdle(rank, AfterGrandChild(rank, s, i, lv, gc), i, lv, ch)
    requires 0 <= j < |s| && (j == i || j == ch || j == Parent(gc) || j == gc || Parent(j) == i)
    ensures ParentOk(rank, AfterChild(rank, AfterGrandChild(rank, s, i, lv, gc), i, lv, ch), j)
  {
    var r := AfterChild(rank, AfterGrandChild(rank, s, i, lv, gc), i, lv, ch);
    var p := Parent(gc);
    GcSwapShape(rank, s, i, lv, gc, ch);
    GcFixShape(rank, s, i, lv, gc, ch);
    DomFacts(lv);
    ParentFacts(i);
    ParentFacts(j);
    if j == i {
      assert Below2(i, ch);
    } else if j == ch {
      assert r[i] == s[ch] && r[ch] == s[gc];
    } else if j == p {
      assert r[i] == s[ch] && Dom(lv, rank(s[gc]), rank(r[p]));
    } else if j == gc {
      assert r[p] == AfterGrandChild(rank, s, i, lv, gc)[p];
    } else {
      assert r[i] == s[ch] && r[j] == s[j];
    }
    assert ParentOk(rank, r, j);
  }

  /** Every other parent constraint: below p and ch, or away from the round. */
  lemma GcFixParentFar<E>(rank: E -> int, s: seq<E>, i: int, lv: Level, gc: int, ch: int, j: int)
    requires GcSwapPre(rank, s, i, lv, gc, ch)
    requires !ChildCheckIdle(rank, AfterGrandChild(rank, s, i, lv, gc), i, lv, ch)
    requires 0 <= j < |s| && Parent(j) != gc
    requires j != i && j != ch && j != Parent(gc) && j != gc && Parent(j) != i
    ensures ParentOk(rank, AfterChild(rank, AfterGrandChild(rank, s, i, lv, gc), i, lv, ch), j)
  {
    var r := AfterChild(rank, AfterGrandChild(rank, s, i, lv, gc), i, lv, ch);
    GcSwapShape(rank, s, i, lv, gc, ch);
    GcFixShape(rank, s, i, lv, gc, ch);
    DomFacts(lv);
    ParentFacts(i);
    ParentFacts(j);
    assert ParentOk(rank, s, j);
    if Grand(j) == i {
      assert Dom(lv, rank(s[gc]), rank(s[j]));
      if Parent(j) == Parent(gc) {
        assert r[j] == s[j] && r[Parent(j)] == AfterGrandChild(rank, s, i, lv, gc)[Parent(gc)];
      }
    } else if j > 0 {
      assert r[j] == s[j] && r[Parent(j)] == s[Parent(j)];
    }
    assert ParentOk(rank, r, j);
  }

  lemma GcFixGrands<E>(rank: E -> int, s: seq<E>, i: int, lv: Level, gc: int, ch: int)
    requires GcSwapPre(rank, s, i, lv, gc, ch)
    requires !ChildCheckIdle(rank, AfterGrandChild(rank, s, i, lv, gc), i, lv, ch)
    ensures forall j :: 0 <= j < |s| && Grand(j) != gc ==> GrandOk(rank, AfterChild(rank, AfterGrandChild(rank, s, i, lv, gc), i, lv, ch), j)
  {
    GcFixGrandsNear(rank, s, i, lv, gc, ch);
    GcFixGrandsFar(rank, s, i, lv, gc, ch);
  }

  lemma GcFixGrandsNear<E>(rank: E -> int, s: seq<E>, i: int, lv: Level, gc: int, ch: int)
    requires GcSwapPre(rank, s, i, lv, gc, ch)
    requires !ChildCheckIdle(rank, AfterGrandChild(rank, s, i, lv, gc), i, lv, ch)
    ensures forall j :: 3 <= j < |s| && (j == i || j == ch || j == Parent(gc) || j == gc || Grand(j) == i) ==>
      GrandOk(rank, AfterChild(rank, AfterGrandChild(rank, s, i, lv, gc), i, lv, ch), j)
  {
    forall j | 3 <= j < |s| && (j == i || j == ch || j == Parent(gc) || j == gc || Grand(j) == i)
      ensures GrandOk(rank, AfterChild(rank, AfterGrandChild(rank, s, i, lv, gc), i, lv, ch), j)
    {
      GcFixGrandNearAt(rank, s, i, lv, gc, ch, j);
    }
  }

  lemma GcFixGrandNearAt<E>(rank: E -> int, s: seq<E>, i: int, lv: Level, gc: int, ch: int, j: int)
    requires GcSwapPre(rank, s, i, lv, gc, ch)
    requires !ChildCheckIdle(rank, AfterGrandChild(rank, s, i, lv, gc), i, lv, ch)
    requires 3 <= j < |s| && (j == i || j == ch || j == Parent(gc) || j == gc || Grand(j) == i)
    ensures GrandOk(rank, AfterChild(rank, AfterGrandChild(rank, s, i, lv, gc), i, lv, ch), j)
  {
    var r := AfterChild(rank, AfterGrandChild(rank, s, i, lv, gc), i, lv, ch);
    var p := Parent(gc);
    GcSwapShape(rank, s, i, lv, gc, ch);
    GcFixShape(rank, s, i, lv, gc, ch);
    DomFacts(lv);
    ParentFacts(i);
    ParentFacts(j);
    if j == i {
      assert Below2(i, ch);
    } else if j == ch {
      assert Below2(i, gc);
    } else if j == p {
      assert ParentOk(rank, s, i);
      assert Below2(i, p);
    }
    assert GrandOk(rank, r, j);
  }

  lemma GcFixGrandsFar<E>(rank: E -> int, s: seq<E>, i: int, lv: Level, gc: int, ch: int)
    requires GcSwapPre(rank, s, i, lv, gc, ch)
    requires !ChildCheckIdle(rank, AfterGrandChild(rank, s, i, lv, gc), i, lv, ch)
    ensures forall j :: 0 <= j < |s| && j != i && j != ch && j != Parent(gc) && j != gc && Grand(j) != i && Grand(j) != gc ==>
      GrandOk(rank, AfterChild(rank, AfterGrandChild(rank, s, i, lv, gc), i, lv, ch), j)
  {
    GcFixGrandsBelow(rank, s, i, lv, gc, ch);
    GcFixGrandsRest(rank, s, i, lv, gc, ch);
  }

  /** Grandchildren of gc's parent and of ch: their grandparents' elements did not move up or down a level. */
  lemma GcFixGrandsBelow<E>(rank: E -> int, s: seq<E>, i: int, lv: Level, gc: int, ch: int)
    requires GcSwapPre(rank, s, i, lv, gc, ch)
    requires !ChildCheckIdle(rank, AfterGrandChild(rank, s, i, lv, gc), i, lv, ch)
    ensures forall j :: 3 <= j < |s| && j != gc && (Grand(j) == Parent(gc) || Grand(j) == ch) ==>
      GrandOk(rank, AfterChild(rank, AfterGrandChild(rank, s, i, lv, gc), i, lv, ch), j)
  {
    forall j | 3 <= j < |s| && j != gc && (Grand(j) == Parent(gc) || Grand(j) == ch)
      ensures GrandOk(rank, AfterChild(rank, AfterGrandChild(rank, s, i, lv, gc), i, lv, ch), j)
    {
      GcFixGrandBelowAt(rank, s, i, lv, gc, ch, j);
    }
  }

  lemma GcFixGrandBelowAt<E>(rank: E -> int, s: seq<E>, i: int, lv: Level, gc: int, ch: int, j: int)
    requires GcSwapPre(rank, s, i, lv, gc, ch)
    requires !ChildCheckIdle(rank, AfterGrandChild(rank, s, i, lv, gc), i, lv, ch)
    requires 3 <= j < |s| && j != gc && (Grand(j) == Parent(gc) || Grand(j) == ch)
    ensures GrandOk(rank, AfterChild(rank, AfterGrandChild(rank, s, i, lv, gc), i, lv, ch), j)
  {
    var s2 := AfterGrandChild(rank, s, i, lv, gc);
    var r := AfterChild(rank, s2, i, lv, ch);
    var p := Parent(gc);
    GcSwapShape(rank, s, i, lv, gc, ch);
    GcFixShape(rank, s, i, lv, gc, ch);
    ParentFacts(j);
    ParentFacts(Parent(j));
    ParentFacts(ch);
    assert GrandOk(rank, s, j);
    assert r[j] == s[j];
    if Grand(j) == p {
      assert r[p] == s2[p];
    }
  }

  /** Every other slot keeps its element and its grandparent's element. */
  lemma GcFixGrandsRest<E>(rank: E -> int, s: seq<E>, i: int, lv: Level, gc: int, ch: int)
    requires GcSwapPre(rank, s, i, lv, gc, ch)
    requires !ChildCheckIdle(rank, AfterGrandChild(rank, s, i, lv, gc), i, lv, ch)
    ensures forall j ::
      (3 <= j < |s| && j != i && j != ch && j != Parent(gc) && j != gc && Grand(j) != i && Grand(j) != gc &&
       Grand(j) != Parent(gc) && Grand(j) != ch) ==>
      GrandOk(rank, AfterChild(rank, AfterGrandChild(rank, s, i, lv, gc), i, lv, ch), j)
  {
    var r := AfterChild(rank, AfterGrandChild(rank, s, i, lv, gc), i, lv, ch);
    var p := Parent(gc);
    GcSwapShape(rank, s, i, lv, gc, ch);
    GcFixShape(rank, s, i, lv, gc, ch);
    forall j | 3 <= j < |r| && j != i && j != ch && j != p && j != gc && Grand(j) != i && Grand(j) != gc &&
               Grand(j) != p && Grand(j) != ch
      ensures GrandOk(rank, r, j)
    {
      ParentFacts(j);
      assert GrandOk(rank, s, j);
    }
  }

  lemma GcFixBridges<E>(rank: E -> int, s: seq<E>, i: int, lv: Level, gc: int, ch: int)
    requires GcSwapPre(rank, s, i, lv, gc, ch)
    requires !ChildCheckIdle(rank, AfterGrandChild(rank, s, i, lv, gc), i, lv, ch)
    ensures Bridges(rank, AfterChild(rank, AfterGrandChild(rank, s, i, lv, gc), i, lv, ch), gc)
  {
    var s2 := AfterGrandChild(rank, s, i, lv, gc);
    var p := Parent(gc);
    GcSwapShape(rank, s, i, lv, gc, ch);
    GcIdleBridges(rank, s, i, lv, gc, ch);
    DomFacts(lv);
    ParentFacts(ch);
    assert ch != p && ch != gc;
    var r := Swap(s2, i, ch);
    assert r == AfterChild(rank, s2, i, lv, ch);
    forall c | 0 <= c < |r| && Below2(gc, c)
      ensures Dom(LevelOf(p), rank(r[p]), rank(r[c]))
      ensures Dom(LevelOf(i), rank(r[i]), rank(r[c]))
    {
      ParentFacts(c);
      assert Dom(LevelOf(i), rank(s2[i]), rank(s2[c]));
    }
  }

  // ------------------------------------------------ no grandchild swap

  lemma NoGcRound<E>(rank: E -> int, s: seq<E>, i: int, lv: Level, gc: int, ch: int)
    requires RoundPre(rank, s, i, lv, gc, ch)
    requires !(gc > 0 && Above(lv, rank(s[gc]), rank(s[i])))
    ensures IsHeap(rank, AfterChild(rank, s, i, lv, ch))
  {
    NoGcGrands(rank, s, i, lv, gc, ch);
    if ch > 0 && Above(lv, rank(s[ch]), rank(s[i])) {
      NoGcSwapParents(rank, s, i, lv, gc, ch);
      NoGcSwapGrands(rank, s, i, lv, gc, ch);
    } else {
      NoGcStay(rank, s, i, lv, gc, ch);
    }
  }

  /** Without a grandchild swap, every grandchild of i comes after i's element. */
  lemma NoGcGrands<E>(rank: E -> int, s: seq<E>, i: int, lv: Level, gc: int, ch: int)
    requires RoundPre(rank, s, i, lv, gc, ch)
    requires !(gc > 0 && Above(lv, rank(s[gc]), rank(s[i])))
    ensures forall h :: 0 <= h < |s| && Grand(h) == i ==> Dom(lv, rank(s[i]), rank(s[h]))
  {
    DomFacts(lv);
    ParentFacts(i);
    forall h | 0 <= h < |s| && Grand(h) == i
      ensures Dom(lv, rank(s[i]), rank(s[h]))
    {
      ParentFacts(h);
    }
  }

  /** No swap at all: i's element already comes before its children and grandchildren. */
  lemma NoGcStay<E>(rank: E -> int, s: seq<E>, i: int, lv: Level, gc: int, ch: int)
    requires RoundPre(rank, s, i, lv, gc, ch)
    requires forall h :: 0 <= h < |s| && Grand(h) == i ==> Dom(lv, rank(s[i]), rank(s[h]))
    requires !(ch > 0 && Above(lv, rank(s[ch]), rank(s[i])))
    ensures IsHeap(rank, s)
  {
    DomFacts(lv);
    ParentFacts(i);
    assert ch != -1;
    ParentFacts(ch);
    forall j | 0 <= j < |s|
      ensures ParentOk(rank, s, j) && GrandOk(rank, s, j)
    {
      ParentFacts(j);
    }
  }

  /** Swapping i with its first child restores every parent constraint. */
  lemma NoGcSwapParents<E>(rank: E -> int, s: seq<E>, i: int, lv: Level, gc: int, ch: int)
    requires RoundPre(rank, s, i, lv, gc, ch)
    requires forall h :: 0 <= h < |s| && Grand(h) == i ==> Dom(lv, rank(s[i]), rank(s[h]))
    requires ch > 0 && Above(lv, rank(s[ch]), rank(s[i]))
    ensures forall j :: 0 <= j < |s| ==> ParentOk(rank, Swap(s, i, ch), j)
  {
    DomFacts(lv);
    DomFacts(Opposite(lv));
    ParentFacts(i);
    ParentFacts(ch);
    var r := Swap(s, i, ch);
    forall j | 0 <= j < |r|
      ensures ParentOk(rank, r, j)
    {
      ParentFacts(j);
      if j == i {
        assert Below2(i, ch);
      } else if j == ch || Parent(j) == i {
      } else {
        assert ParentOk(rank, s, j);
      }
    }
  }

  /** Swapping i with its first child restores every grandparent constraint. */
  lemma NoGcSwapGrands<E>(rank: E -> int, s: seq<E>, i: int, lv: Level, gc: int, ch: int)
    requires RoundPre(rank, s, i, lv, gc, ch)
    requires forall h :: 0 <= h < |s| && Grand(h) == i ==> Dom(lv, rank(s[i]), rank(s[h]))
    requires ch > 0 && Above(lv, rank(s[ch]), rank(s[i]))
    ensures forall j :: 0 <= j < |s| ==> GrandOk(rank, Swap(s, i, ch), j)
  {
    forall j | 0 <= j < |s|
      ensures GrandOk(rank, Swap(s, i, ch), j)
    {
      NoGcSwapGrandAt(rank, s, i, lv, gc, ch, j);
    }
  }

  lemma NoGcSwapGrandAt<E>(rank: E -> int, s: seq<E>, i: int, lv: Level, gc: int, ch: int, j: int)
    requires RoundPre(rank, s, i, lv, gc, ch)
    requires forall h :: 0 <= h < |s| && Grand(h) == i ==> Dom(lv, rank(s[i]), rank(s[h]))
    requires ch > 0 && Above(lv, rank(s[ch]), rank(s[i]))
    requires 0 <= j < |s|
    ensures GrandOk(rank, Swap(s, i, ch), j)
  {
    var r := Swap(s, i, ch);
    DomFacts(lv);
    DomFacts(Opposite(lv));
    ParentFacts(i);
    ParentFacts(ch);
    ParentFacts(j);
    if j < 3 {
    } else if j == i {
      assert Below2(i, ch);
    } else if j == ch {
      assert ParentOk(rank, s, i);
    } else if Grand(j) == i {
      assert r[i] == s[ch] && r[j] == s[j];
      assert Dom(lv, rank(s[i]), rank(s[j]));
    } else if Grand(j) == ch {
      assert r[ch] == s[i] && r[j] == s[j];
      assert GrandOk(rank, s, j);
    } else {
      assert GrandOk(rank, s, j);
    }
  }

  // ------------------------------------------------ whole rounds

  /** Two arrays whose slots hold elements of the same rank, slot by slot. */
  ghost predicate SameRanks<E>(rank: E -> int, s: seq<E>, t: seq<E>)
  {
    |s| == |t| && forall k :: 0 <= k < |s| ==> rank(s[k]) == rank(t[k])
  }

  /** The order constraints only look at ranks. */
  lemma SameRanksKeep<E>(rank: E -> int, s: seq<E>, t: seq<E>, x: int)
    requires SameRanks(rank, s, t)
    ensures TrickleReady(rank, s, x) ==> TrickleReady(rank, t, x)
    ensures IsHeap(rank, s) ==> IsHeap(rank, t)
  {
    forall j | 0 <= j < |s|
      ensures ParentOk(rank, s, j) == ParentOk(rank, t, j)
      ensures GrandOk(rank, s, j) == GrandOk(rank, t, j)
    {
      ParentFacts(j);
    }
    if TrickleReady(rank, s, x) {
      forall c | 0 <= c < |t| && Below2(x, c)
        ensures x > 0 ==> Dom(LevelOf(Parent(x)), rank(t[Parent(x)]), rank(t[c]))
        ensures x >= 3 ==> Dom(LevelOf(Grand(x)), rank(t[Grand(x)]), rank(t[c]))
      {
        ParentFacts(c);
        ParentFacts(x);
      }
    }
  }

  /** With no child left below x, the one open constraint is gone. */
  lemma LeafReady<E>(rank: E -> int, s: seq<E>, x: int)
    requires TrickleReady(rank, s, x) && LeftChild(x) >= |s|
    ensures IsHeap(rank, s)
  {
    forall j | 0 <= j < |s|
      ensures ParentOk(rank, s, j) && GrandOk(rank, s, j)
    {
      ParentFacts(j);
      ParentFacts(Parent(j));
    }
  }

  /** The ancestors of x above its parent and grandparent reach x's children and grandchildren. */
  lemma BelowAncestors(x: int, c: int)
    requires x >= 0 && Below2(x, c) && c > 0
    ensures x > 0 ==> IsAncestor(Parent(x), c)
    ensures x >= 3 ==> IsAncestor(Grand(x), c)
  {
    ParentFacts(c);
    ParentFacts(x);
    if x > 0 {
      ParentFacts(Parent(c));
      assert IsAncestor(Parent(x), x);
      if Parent(c) != x {
        assert IsAncestor(Parent(x), Parent(c));
      }
    }
    if x >= 3 {
      ParentFacts(Parent(x));
      assert IsAncestor(Grand(x), Parent(x));
      assert IsAncestor(Grand(x), x);
      if Parent(c) != x {
        assert IsAncestor(Grand(x), Parent(c));
      }
    }
  }

  /** A heap is ready for trickleDown at any slot. */
  lemma HeapIsTrickleReady<E>(rank: E -> int, s: seq<E>, x: int)
    requires IsHeap(rank, s) && 0 <= x < |s|
    ensures TrickleReady(rank, s, x)
  {
    forall c | 0 <= c < |s| && Below2(x, c)
      ensures x > 0 ==> Dom(LevelOf(Parent(x)), rank(s[Parent(x)]), rank(s[c]))
      ensures x >= 3 ==> Dom(LevelOf(Grand(x)), rank(s[Grand(x)]), rank(s[c]))
    {
      ParentFacts(c);
      ParentFacts(x);
      if x > 0 {
        BelowAncestors(x, c);
        HeapOrder(rank, s, Parent(x), c);
        if x >= 3 {
          HeapOrder(rank, s, Grand(x), c);
        }
      }
    }
  }

  /** The round moves elements only among i and the slots below it. */
  lemma RoundFrame<E>(rank: E -> int, s: seq<E>, i: int, lv: Level, gc: int, ch: int)
    requires 0 <= i < |s| && (gc == -1 || i < gc < |s|) && (ch == -1 || i < ch < |s|)
    requires gc > 0 ==> i < Parent(gc)
    ensures var r := Round(rank, s, i, lv, gc, ch);
      |r| == |s| && multiset(r) == multiset(s) && forall m :: 0 <= m < i ==> r[m] == s[m]
  {
    if gc > 0 && Above(lv, rank(s[gc]), rank(s[i])) {
      var s2 := AfterGrandChild(rank, s, i, lv, gc);
      GrandChildFrame(rank, s, i, lv, gc);
      ChildFrame(rank, s2, i, lv, ch);
    } else {
      ChildFrame(rank, s, i, lv, ch);
    }
  }

  lemma GrandChildFrame<E>(rank: E -> int, s: seq<E>, i: int, lv: Level, gc: int)
    requires 0 <= i < |s| && i < gc < |s| && i < Parent(gc)
    ensures var t := AfterGrandChild(rank, s, i, lv, gc);
      |t| == |s| && multiset(t) == multiset(s) && forall m :: 0 <= m < i ==> t[m] == s[m]
  {
  }

  lemma ChildFrame<E>(rank: E -> int, s: seq<E>, i: int, lv: Level, ch: int)
    requires 0 <= i < |s| && (ch == -1 || i < ch < |s|)
    ensures var t := AfterChild(rank, s, i, lv, ch);
      |t| == |s| && multiset(t) == multiset(s) && forall m :: 0 <= m < i ==> t[m] == s[m]
  {
  }

  /** A child check that changes no order constraint swaps equal ranks at most. */
  lemma IdleSameRanks<E>(rank: E -> int, s2: seq<E>, i: int, lv: Level, ch: int)
    requires 0 <= i < |s2| && -1 <= ch < |s2| && ChildCheckIdle(rank, s2, i, lv, ch)
    ensures SameRanks(rank, s2, AfterChild(rank, s2, i, lv, ch))
  {
  }

  /** After a grandchild swap, the grandchild's slot is ready for the next round. */
  lemma GcRound<E>(rank: E -> int, s: seq<E>, i: int, lv: Level, gc: int, ch: int)
    requires GcSwapPre(rank, s, i, lv, gc, ch)
    ensures TrickleReady(rank, Round(rank, s, i, lv, gc, ch), gc)
  {
    var s2 := AfterGrandChild(rank, s, i, lv, gc);
    var r := AfterChild(rank, s2, i, lv, ch);
    if ChildCheckIdle(rank, s2, i, lv, ch) {
      GcIdleOrder(rank, s, i, lv, gc, ch);
      GcIdleBridges(rank, s, i, lv, gc, ch);
      assert TrickleReady(rank, s2, gc);
      IdleSameRanks(rank, s2, i, lv, ch);
      SameRanksKeep(rank, s2, r, gc);
    } else {
      GcFixOrder(rank, s, i, lv, gc, ch);
      GcFixBridges(rank, s, i, lv, gc, ch);
    }
  }

  /**
   * One round of trickleDown at a ready slot i: after a grandchild swap the
   * grandchild's slot is ready for the next round; otherwise the array is a
   * heap.  The round moves elements only among i and the slots below it.
   */
  lemma TrickleRound<E>(rank: E -> int, s: seq<E>, i: int, lv: Level, gc: int, ch: int)
    requires RoundPre(rank, s, i, lv, gc, ch)
    ensures var r := Round(rank, s, i, lv, gc, ch);
      |r| == |s| && multiset(r) == multiset(s) &&
      (forall m :: 0 <= m < i ==> r[m] == s[m]) &&
      (gc > 0 && Above(lv, rank(s[gc]), rank(s[i])) ==> TrickleReady(rank, r, gc)) &&
      (!(gc > 0 && Above(lv, rank(s[gc]), rank(s[i]))) ==> IsHeap(rank, r))
  {
    ParentFacts(gc);
    ParentFacts(Parent(gc));
    ParentFacts(ch);
    RoundFrame(rank, s, i, lv, gc, ch);
    if gc > 0 && Above(lv, rank(s[gc]), rank(s[i])) {
      GcRound(rank, s, i, lv, gc, ch);
    } else {
      NoGcRound(rank, s, i, lv, gc, ch);
    }
  }
}
