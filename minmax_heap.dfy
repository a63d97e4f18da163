/**
 * The array-embedded min-max heap behind PriorityDeque: index arithmetic,
 * levels, the order constraints every slot must keep with its parent and
 * its grandparent, and what those local constraints give globally (the
 * smallest element sits at the root, the largest at the larger child of
 * the root).
 *
 * Elements are ordered by `rank`; `rank(a) < rank(b)` stands for
 * `compare(a, b) < 0` of the deque's comparator (or natural order).
 */
module MinMaxHeap {

  /** The level of a slot: even depths hold minima, odd depths maxima. */
  datatype Level = Min | Max

  function Opposite(lv: Level): Level
  {
    if lv == Min then Max else Min
  }

  /** getParentIndex: -1 for the root. */
  function Parent(i: int): int
  {
    if i > 0 then (i - 1) / 2 else -1
  }

  function Grand(i: int): int
  {
    Parent(Parent(i))
  }

  function LeftChild(i: int): int
  {
    2 * i + 1
  }

  function RightChild(i: int): int
  {
    2 * (i + 1)
  }

  function Depth(i: nat): nat
  {
    if i == 0 then 0 else 1 + Depth(Parent(i))
  }

  function LevelOf(i: nat): Level
  {
    if Depth(i) % 2 == 0 then Min else Max
  }

  /**
   * The tests the source applies on a level: `compare(u, v) < 1` on a MIN
   * level and `compare(u, v) > 0` on a MAX level ("u belongs above v").
   */
  predicate Above(lv: Level, u: int, v: int)
  {
    if lv == Min then u <= v else u > v
  }

  /** The grandchild scan's replacement test, strict on both levels. */
  predicate Better(lv: Level, u: int, v: int)
  {
    if lv == Min then u < v else u > v
  }

  /** The order an ancestor on level lv keeps with its descendants. */
  predicate Dom(lv: Level, u: int, v: int)
  {
    if lv == Min then u <= v else u >= v
  }

  function Swap<E>(s: seq<E>, i: int, j: int): (t: seq<E>)
    requires 0 <= i < |s| && 0 <= j < |s|
    ensures |t| == |s| && t[i] == s[j] && t[j] == s[i]
    ensures forall m :: 0 <= m < |s| && m != i && m != j ==> t[m] == s[m]
    ensures multiset(t) == multiset(s)
  {
    s[i := s[j]][j := s[i]]
  }

  lemma ParentFacts(j: int)
    ensures j > 0 ==> 0 <= Parent(j) < j && LeftChild(Parent(j)) <= j <= RightChild(Parent(j))
    ensures j >= 3 ==> 0 <= Grand(j) < Parent(j) && Parent(j) >= 1
    ensures j > 0 ==> LevelOf(Parent(j)) == Opposite(LevelOf(j))
    ensures j >= 3 ==> LevelOf(Grand(j)) == LevelOf(j)
  {
    if j >= 3 {
      assert Depth(Parent(j)) == 1 + Depth(Grand(j));
    }
  }

  lemma ChildFacts(i: int)
    requires i >= 0
    ensures Parent(LeftChild(i)) == i && Parent(RightChild(i)) == i
    ensures forall c :: Parent(c) == i ==> c == LeftChild(i) || c == RightChild(i)
  {
  }

  // ---------------------------------------------------------------- constraints

  /** Slot j keeps the order of its parent's level with its parent. */
  ghost predicate ParentOk<E>(rank: E -> int, s: seq<E>, j: int)
  {
    0 < j < |s| ==> Dom(LevelOf(Parent(j)), rank(s[Parent(j)]), rank(s[j]))
  }

  /** Slot j keeps the order of its grandparent's level with its grandparent. */
  ghost predicate GrandOk<E>(rank: E -> int, s: seq<E>, j: int)
  {
    ParentFacts(j);
    3 <= j < |s| ==> Dom(LevelOf(Grand(j)), rank(s[Grand(j)]), rank(s[j]))
  }

  /** The min-max heap order, stated slot by slot. */
  ghost predicate IsHeap<E>(rank: E -> int, s: seq<E>)
  {
    forall j :: 0 <= j < |s| ==> ParentOk(rank, s, j) && GrandOk(rank, s, j)
  }

  /**
   * Every constraint holds except those between x and its children and
   * grandchildren, and the grandparent constraint of slot i (-1 for x or i
   * excludes nothing).
   */
  ghost predicate HeapExcept<E>(rank: E -> int, s: seq<E>, x: int, i: int)
  {
    forall j :: 0 <= j < |s| ==>
      (Parent(j) != x ==> ParentOk(rank, s, j)) &&
      (Grand(j) != x && j != i ==> GrandOk(rank, s, j))
  }

  /** c is a child or a grandchild of x. */
  predicate Below2(x: int, c: int)
  {
    Parent(c) == x || Grand(c) == x
  }

  /** The parent and the grandparent of x order x's children and grandchildren. */
  ghost predicate Bridges<E>(rank: E -> int, s: seq<E>, x: int)
  {
    forall c :: 0 <= c < |s| && 0 <= x && Below2(x, c) ==>
      (ParentFacts(c); ParentFacts(x);
       (x > 0 ==> Dom(LevelOf(Parent(x)), rank(s[Parent(x)]), rank(s[c]))) &&
       (x >= 3 ==> Dom(LevelOf(Grand(x)), rank(s[Grand(x)]), rank(s[c]))))
  }

  /** The state trickleDown repairs: only x's order with the slots below it may fail. */
  ghost predicate TrickleReady<E>(rank: E -> int, s: seq<E>, x: int)
  {
    0 <= x < |s| && HeapExcept(rank, s, x, -1) && Bridges(rank, s, x)
  }

  // ---------------------------------------------------------------- global order

  /** a is a proper ancestor of d. */
  ghost predicate IsAncestor(a: int, d: int)
    decreases d
  {
    0 <= a < d && (Parent(d) == a || IsAncestor(a, Parent(d)))
  }

  lemma {:induction false} RootIsAncestor(j: int)
    requires j > 0
    ensures IsAncestor(0, j)
    decreases j
  {
    if Parent(j) != 0 {
      RootIsAncestor(Parent(j));
    }
  }

  lemma {:induction false} UnderRootChild(j: int)
    requires j >= 3
    ensures IsAncestor(1, j) || IsAncestor(2, j)
    decreases j
  {
    var p := Parent(j);
    if p != 1 && p != 2 {
      UnderRootChild(p);
    }
  }

  /** The local constraints give the order between any ancestor and descendant. */
  lemma {:induction false} HeapOrder<E>(rank: E -> int, s: seq<E>, a: int, d: int)
    requires IsHeap(rank, s) && d < |s| && IsAncestor(a, d)
    ensures Dom(LevelOf(a), rank(s[a]), rank(s[d]))
    decreases d
  {
    ParentFacts(d);
    var p := Parent(d);
    assert ParentOk(rank, s, d) && GrandOk(rank, s, d);
    if p == a {
    } else if LevelOf(a) == LevelOf(d) {
      ParentFacts(p);
      assert IsAncestor(a, p);
      if Grand(d) != a {
        HeapOrder(rank, s, a, Grand(d));
      }
    } else {
      HeapOrder(rank, s, a, p);
    }
  }

  /** peekFirst: the root holds a smallest element. */
  lemma RootIsMin<E>(rank: E -> int, s: seq<E>)
    requires IsHeap(rank, s) && |s| > 0
    ensures forall j :: 0 <= j < |s| ==> rank(s[0]) <= rank(s[j])
  {
    forall j | 0 < j < |s|
      ensures rank(s[0]) <= rank(s[j])
    {
      RootIsAncestor(j);
      HeapOrder(rank, s, 0, j);
    }
  }
}
