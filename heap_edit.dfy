/**
 * How offer and removeAt prepare the array before repairing it: offer
 * appends the new element, removeAt moves the last element into the
 * vacated slot.  Also where the two ends of the deque sit in a heap.
 */
module HeapEdit {
  import opened MinMaxHeap
  import opened HeapBubble
  import opened HeapTrickle
  import opened HeapArray

  /** The array after removeAt(k) has moved the last element into slot k. */
  function Moved<E>(s: seq<E>, k: int): (t: seq<E>)
    requires 0 <= k < |s|
    ensures |t| == |s| - 1
    ensures forall m :: 0 <= m < |t| && m != k ==> t[m] == s[m]
    ensures k < |t| ==> t[k] == s[|s| - 1]
    ensures multiset(t) == multiset(s) - multiset{s[k]}
  {
    var last := |s| - 1;
    assert s == s[..last] + [s[last]];
    if k == last then s[..last]
    else
      assert s[..last] == s[..k] + [s[k]] + s[k + 1..last];
      assert s[..last][k := s[last]] == s[..k] + [s[last]] + s[k + 1..last];
      s[..last][k := s[last]]
  }

  /** offer: the appended element is displaced at the new last slot. */
  lemma AppendDisplaced<E>(rank: E -> int, s: seq<E>, e: E)
    requires IsHeap(rank, s)
    ensures Displaced(rank, s + [e], |s|)
  {
    var t := s + [e];
    forall j | 0 <= j < |t| && j != |s|
      ensures (Parent(j) != |s| ==> ParentOk(rank, t, j)) && (Grand(j) != |s| ==> GrandOk(rank, t, j))
    {
      ParentFacts(j);
      assert ParentOk(rank, s, j) && GrandOk(rank, s, j);
    }
    forall c | 0 <= c < |t| && Below2(|s|, c)
      ensures false
    {
      ParentFacts(c);
      ParentFacts(Parent(c));
    }
  }

  /** removeAt: the moved last element is displaced at slot k. */
  lemma MovedDisplaced<E>(rank: E -> int, s: seq<E>, k: int)
    requires IsHeap(rank, s) && 0 <= k < |s| - 1
    ensures Displaced(rank, Moved(s, k), k)
  {
    var t := Moved(s, k);
    ParentFacts(k);
    forall j | 0 <= j < |t| && j != k
      ensures (Parent(j) != k ==> ParentOk(rank, t, j)) && (Grand(j) != k ==> GrandOk(rank, t, j))
    {
      MovedKeepsAt(rank, s, k, j);
    }
    forall c | 0 <= c < |t| && Below2(k, c)
      ensures k > 0 ==> Dom(LevelOf(Parent(k)), rank(t[Parent(k)]), rank(t[c]))
      ensures k >= 3 ==> Dom(LevelOf(Grand(k)), rank(t[Grand(k)]), rank(t[c]))
    {
      MovedBridgeAt(rank, s, k, c);
    }
  }

  lemma MovedKeepsAt<E>(rank: E -> int, s: seq<E>, k: int, j: int)
    requires IsHeap(rank, s) && 0 <= k < |s| - 1 && 0 <= j < |s| - 1 && j != k
    ensures Parent(j) != k ==> ParentOk(rank, Moved(s, k), j)
    ensures Grand(j) != k ==> GrandOk(rank, Moved(s, k), j)
  {
    ParentFacts(k);
    ParentFacts(j);
    assert ParentOk(rank, s, j) && GrandOk(rank, s, j);
  }

  lemma MovedBridgeAt<E>(rank: E -> int, s: seq<E>, k: int, c: int)
    requires IsHeap(rank, s) && 0 <= k < |s| - 1 && 0 <= c < |s| - 1 && Below2(k, c)
    ensures k > 0 ==> Dom(LevelOf(Parent(k)), rank(Moved(s, k)[Parent(k)]), rank(Moved(s, k)[c]))
    ensures k >= 3 ==> Dom(LevelOf(Grand(k)), rank(Moved(s, k)[Grand(k)]), rank(Moved(s, k)[c]))
  {
    ParentFacts(k);
    ParentFacts(c);
    if k > 0 {
      BelowAncestors(k, c);
      HeapOrder(rank, s, Parent(k), c);
      if k >= 3 {
        HeapOrder(rank, s, Grand(k), c);
      }
    }
  }

  /**
   * At the root and at the root's children (where pollFirst and pollLast
   * remove), the moved element needs no upward repair: the slot is ready
   * for trickleDown as it stands.
   */
  lemma NearRootReady<E>(rank: E -> int, s: seq<E>, k: int)
    requires IsHeap(rank, s) && 0 <= k < 3 && k < |s| - 1
    ensures TrickleReady(rank, Moved(s, k), k)
  {
    var t := Moved(s, k);
    MovedDisplaced(rank, s, k);
    RootIsMin(rank, s);
    if k > 0 {
      assert ParentOk(rank, t, k);
    }
  }

  /** peekLast / pollLast: the slot holding a largest element. */
  function LastIndex<E>(rank: E -> int, s: seq<E>): (k: int)
    requires |s| > 0
    ensures 0 <= k < |s| && k < 3
    ensures |s| > 1 ==> k > 0
  {
    var c := PreferredChild(rank, s, 0, Max);
    if c > 0 then c else 0
  }

  /** The root's larger child (or the root alone) holds a largest element. */
  lemma LastIsMax<E>(rank: E -> int, s: seq<E>)
    requires IsHeap(rank, s) && |s| > 0
    ensures forall j :: 0 <= j < |s| ==> rank(s[j]) <= rank(s[LastIndex(rank, s)])
  {
    var k := LastIndex(rank, s);
    ChildFacts(0);
    DomFacts(Max);
    if |s| > 1 {
      assert ParentOk(rank, s, 1);
      if |s| > 2 {
        assert ParentOk(rank, s, 2);
      }
      forall j | 3 <= j < |s|
        ensures rank(s[j]) <= rank(s[k])
      {
        UnderRootChild(j);
        if IsAncestor(1, j) {
          HeapOrder(rank, s, 1, j);
        } else {
          HeapOrder(rank, s, 2, j);
        }
      }
    }
  }

  /** A heap stays a heap when its last slot is dropped. */
  lemma DropLast<E>(rank: E -> int, s: seq<E>)
    requires IsHeap(rank, s) && |s| > 0
    ensures IsHeap(rank, s[..|s| - 1])
  {
    var t := s[..|s| - 1];
    forall j | 0 <= j < |t|
      ensures ParentOk(rank, t, j) && GrandOk(rank, t, j)
    {
      ParentFacts(j);
      assert ParentOk(rank, s, j) && GrandOk(rank, s, j);
    }
  }
}
