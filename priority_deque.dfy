/**
 * PriorityDeque: a double-ended priority queue kept as a min-max heap in
 * the prefix deque[0..size) of a growable array.  The smallest element is
 * at the root, a largest one at the larger child of the root.
 *
 * The ordering is `rank` (see MinMaxHeap).  Java's null element is
 * `None` where a caller may pass one; stored elements are never null.
 */
module PriorityDeques {
  import opened Lang
  import opened MinMaxHeap
  import opened HeapBubble
  import opened HeapTrickle
  import opened HeapArray
  import opened HeapEdit

  const DEFAULT_INITIAL_CAPACITY: int := 11
  const MAX_ARRAY_SIZE: int := MAX_VALUE - 8

  /** hugeCapacity: an overflowed request is an OutOfMemoryError. */
  function HugeCapacity(minCapacity: int): (r: Outcome<int>)
    ensures r.Thrown? <==> minCapacity < 0
    ensures r.Thrown? ==> r.error == OutOfMemory
    ensures r.Ok? ==> MAX_ARRAY_SIZE <= r.value <= MAX_VALUE && (minCapacity <= MAX_VALUE ==> minCapacity <= r.value)
  {
    if minCapacity < 0 then Thrown(OutOfMemory)
    else if minCapacity > MAX_ARRAY_SIZE then Ok(MAX_VALUE)
    else Ok(MAX_ARRAY_SIZE)
  }

  /**
   * grow's arithmetic, in 32-bit ints: double plus two below 64 slots,
   * half again from 64; past MAX_ARRAY_SIZE defer to hugeCapacity.
   */
  function NewCapacity(oldCapacity: int, minCapacity: int): Outcome<int>
    requires 0 <= oldCapacity <= MAX_VALUE
  {
    var newCapacity := Wrap32(oldCapacity + (if oldCapacity < 64 then oldCapacity + 2 else oldCapacity / 2));
    if Wrap32(newCapacity - MAX_ARRAY_SIZE) > 0 then HugeCapacity(minCapacity) else Ok(newCapacity)
  }

  /**
   * The growth policy as offer uses it (minCapacity is size + 1 as an int):
   * below 64 the array grows to 2*old + 2, later by half, and always by at
   * least one slot, until a full array of Integer.MAX_VALUE slots, where
   * size + 1 overflows and growing fails with OutOfMemoryError.
   */
  lemma GrowthPolicy(cap: int)
    requires 1 <= cap <= MAX_VALUE
    ensures cap < 64 ==> NewCapacity(cap, Wrap32(cap + 1)) == Ok(2 * cap + 2)
    ensures 64 <= cap && cap + cap / 2 <= MAX_ARRAY_SIZE ==> NewCapacity(cap, Wrap32(cap + 1)) == Ok(cap + cap / 2)
    ensures cap < MAX_VALUE ==> NewCapacity(cap, Wrap32(cap + 1)).Ok? && cap < NewCapacity(cap, Wrap32(cap + 1)).value <= MAX_VALUE
    ensures cap == MAX_VALUE ==> NewCapacity(cap, Wrap32(cap + 1)) == Thrown(OutOfMemory)
  {
    var grown := cap + (if cap < 64 then cap + 2 else cap / 2);
    if grown <= MAX_VALUE {
      assert Wrap32(grown) == grown;
      assert Wrap32(grown - MAX_ARRAY_SIZE) == grown - MAX_ARRAY_SIZE;
    } else {
      assert Wrap32(grown) == grown - 0x1_0000_0000;
      assert Wrap32(Wrap32(grown) - MAX_ARRAY_SIZE) == grown - 0x1_0000_0000 - MAX_ARRAY_SIZE + 0x1_0000_0000;
    }
  }

  /**
   * The state after removeAt(k) of the source: the last element moved into
   * slot k and trickled down from there.  Nothing before k moves, a slot
   * without children keeps the moved element, and the result is a heap
   * whenever slot k was ready for trickleDown.
   */
  ghost predicate RemovedAsWritten<E>(rank: E -> int, s: seq<E>, k: int, t: seq<E>)
  {
    0 <= k < |s| && |t| == |s| - 1 &&
    multiset(t) == multiset(s) - multiset{s[k]} &&
    t[..k] == s[..k] &&
    (LeftChild(k) >= |t| ==> t == Moved(s, k)) &&
    (k < |t| && TrickleReady(rank, Moved(s, k), k) ==> IsHeap(rank, t))
  }

  /**
   * The array work of removeAt on a heap of n + 1 elements: slot n's
   * element moves into slot index (when the deque does not become empty)
   * and is trickled down.
   */
  method MoveLastAndTrickle<E>(rank: E -> int, a: array<E>, n: int, index: int, ghost s: seq<E>)
    requires 0 <= index <= n < a.Length <= MAX_VALUE && a[..n + 1] == s
    modifies a
    ensures RemovedAsWritten(rank, s, index, a[..n])
  {
    MoveLast(a, n, index);
    ghost var moved := a[..n];
    TrickleMoved(rank, a, n, index);
    RemovedAsWrittenIntro(rank, s, index, moved, a[..n]);
  }

  /** trickleDown's guarantees, stated on the first n slots alone. */
  method TrickleMoved<E>(rank: E -> int, a: array<E>, n: int, index: int)
    requires 0 <= index <= n <= a.Length <= MAX_VALUE
    modifies a
    ensures multiset(a[..n]) == multiset(old(a[..n])) && a[..n][..index] == old(a[..n])[..index]
    ensures LeftChild(index) >= n ==> a[..n] == old(a[..n])
    ensures TrickleReady(rank, old(a[..n]), index) ==> IsHeap(rank, a[..n])
  {
    ghost var moved := a[..n];
    ghost var kept := a[..index];
    assert moved[..index] == kept;
    TrickleDown(rank, a, n, index);
    assert a[..n][..index] == a[..index];
    if LeftChild(index) >= n {
      assert a[..n] == moved;
    }
  }

  /** deque[index] = deque[n]: the last of n + 1 elements takes slot index. */
  method MoveLast<E>(a: array<E>, n: int, index: int)
    requires 0 <= index <= n < a.Length
    modifies a
    ensures a[..n] == Moved(old(a[..n + 1]), index)
  {
    ghost var s := a[..n + 1];
    a[index] := a[n];
    assert a[..n] == Moved(s, index);
  }

  /** Removing one of the first three slots as written leaves a heap: no upward repair is needed there. */
  lemma RemovedNearRoot<E>(rank: E -> int, s: seq<E>, k: int, t: seq<E>)
    requires IsHeap(rank, s) && 0 <= k < 3 && RemovedAsWritten(rank, s, k, t)
    ensures IsHeap(rank, t)
  {
    if k < |t| {
      NearRootReady(rank, s, k);
    } else {
      DropLast(rank, s);
      assert t == s[..|s| - 1];
    }
  }

  /** What trickleDown guarantees about the moved array is what RemovedAsWritten asks for. */
  lemma RemovedAsWrittenIntro<E>(rank: E -> int, s: seq<E>, k: int, moved: seq<E>, t: seq<E>)
    requires 0 <= k < |s| && moved == Moved(s, k) && |t| == |moved|
    requires multiset(t) == multiset(moved) && t[..k] == moved[..k]
    requires LeftChild(k) >= |t| ==> t == moved
    requires TrickleReady(rank, moved, k) ==> IsHeap(rank, t)
    ensures RemovedAsWritten(rank, s, k, t)
  {
    assert moved[..k] == s[..k];
  }

  /**
   * The array work of removeAt with the upward repair: the last element
   * moves into slot index, is bubbled up and then trickled down, so the
   * n remaining elements form a heap again.
   */
  method MoveLastAndRepair<E>(rank: E -> int, a: array<E>, n: int, index: int)
    requires 0 <= index <= n < a.Length <= MAX_VALUE && IsHeap(rank, a[..n + 1])
    modifies a
    ensures IsHeap(rank, a[..n])
    ensures multiset(a[..n]) == multiset(old(a[..n + 1])) - multiset{old(a[index])}
  {
    ghost var s := a[..n + 1];
    MoveLast(a, n, index);
    if index < n {
      MovedDisplaced(rank, s, index);
      BubbleUp(rank, a, n, index);
      TrickleMoved(rank, a, n, index);
    } else {
      DropLast(rank, s);
    }
  }

  /** The array work of offer: store e in slot n and bubble it up. */
  method AppendAndBubble<E>(rank: E -> int, a: array<E>, n: int, e: E)
    requires 0 <= n < a.Length <= MAX_VALUE && IsHeap(rank, a[..n])
    modifies a
    ensures IsHeap(rank, a[..n + 1])
    ensures multiset(a[..n + 1]) == multiset(old(a[..n])) + multiset{e}
  {
    ghost var s := a[..n];
    a[n] := e;
    assert a[..n + 1] == s + [e];
    if n > 0 {
      AppendDisplaced(rank, s, e);
      BubbleUp(rank, a, n + 1, n);
      LeafReady(rank, a[..n + 1], n);
    }
  }

  class PriorityDeque<E(0,==)> {
    const rank: E -> int
    var deque: array<E>
    var size: int
    var modCount: int

    /** The occupied prefix is a min-max heap in an array of 1..Integer.MAX_VALUE slots. */
    ghost predicate Valid()
      reads this, deque
    {
      1 <= deque.Length <= MAX_VALUE && 0 <= size <= deque.Length && IsHeap(rank, deque[..size])
    }

    /** The elements, in array order. */
    function Elements(): seq<E>
      reads this, deque
      requires 0 <= size <= deque.Length
    {
      deque[..size]
    }

    /** PriorityDeque(int, Comparator) after its capacity check. */
    constructor WithCapacity(initialCapacity: int, rank: E -> int)
      requires 1 <= initialCapacity <= MAX_VALUE
      ensures Valid() && fresh(deque) && deque.Length == initialCapacity
      ensures size == 0 && modCount == 0 && this.rank == rank
    {
      this.rank := rank;
      deque := new E[initialCapacity];
      size := 0;
      modCount := 0;
    }

    /** PriorityDeque(): eleven slots. */
    constructor (rank: E -> int)
      ensures Valid() && fresh(deque) && deque.Length == DEFAULT_INITIAL_CAPACITY
      ensures size == 0 && modCount == 0 && this.rank == rank
    {
      this.rank := rank;
      deque := new E[DEFAULT_INITIAL_CAPACITY];
      size := 0;
      modCount := 0;
    }

    function Size(): (n: int)
      reads this, deque
      requires Valid()
      ensures n == |Elements()|
    {
      size
    }

    // ---------------------------------------------------------- adding

    /** grow: a larger copy of the array, or OutOfMemoryError. */
    method Grow(minCapacity: int) returns (r: Outcome<()>)
      requires Valid()
      modifies this
      ensures size == old(size) && modCount == old(modCount)
      ensures NewCapacity(old(deque.Length), minCapacity).Thrown? ==>
        r == Thrown(NewCapacity(old(deque.Length), minCapacity).error) && deque == old(deque)
      ensures NewCapacity(old(deque.Length), minCapacity).Ok? && NewCapacity(old(deque.Length), minCapacity).value >= old(deque.Length) ==>
        r == Ok(()) && fresh(deque) && deque.Length == NewCapacity(old(deque.Length), minCapacity).value &&
        deque[..old(deque.Length)] == old(deque[..])
      ensures r.Ok? ==> Valid() && Elements() == old(Elements())
      ensures r.Thrown? ==> deque == old(deque)
    {
      var capacity := NewCapacity(deque.Length, minCapacity);
      if capacity.Thrown? {
        return Thrown(capacity.error);
      }
      if capacity.value < deque.Length {
        // Arrays.copyOf would truncate; offer never asks for that.
        return Thrown(OutOfMemory);
      }
      ghost var s := deque[..size];
      assert IsHeap(rank, s);
      var copy := new E[capacity.value];
      forall k | 0 <= k < deque.Length {
        copy[k] := deque[k];
      }
      assert copy[..size] == s;
      deque := copy;
      return Ok(());
    }

    /**
     * offer (and add, addFirst, addLast, offerFirst, offerLast): counts a
     * modification first, rejects null, grows a full array, appends and
     * bubbles the new element up.
     */
    method Offer(element: Option<E>) returns (r: Outcome<bool>)
      requires Valid()
      modifies this, deque
      ensures Valid() && (deque == old(deque) || fresh(deque)) && modCount == old(modCount) + 1
      ensures element.None? ==> r == Thrown(NullPointer) && Elements() == old(Elements())
      ensures element.Some? && old(size) == MAX_VALUE ==> r == Thrown(OutOfMemory) && Elements() == old(Elements())
      ensures element.Some? && old(size) < MAX_VALUE ==>
        r == Ok(true) && size == old(size) + 1 &&
        multiset(Elements()) == multiset(old(Elements())) + multiset{element.value}
    {
      modCount := modCount + 1;
      if element.None? {
        r := Thrown(NullPointer);
      } else {
        var index := size;
        var room := MakeRoom();
        if room.Thrown? {
          r := Thrown(room.error);
        } else {
          AppendAndBubble(rank, deque, index, element.value);
          size := index + 1;
          r := Ok(true);
        }
      }
    }

    /** offer's capacity step: a full array grows to hold size + 1, or overflows at Integer.MAX_VALUE. */
    method MakeRoom() returns (r: Outcome<()>)
      requires Valid()
      modifies this
      ensures Valid() && size == old(size) && modCount == old(modCount) && Elements() == old(Elements())
      ensures deque == old(deque) || fresh(deque)
      ensures old(size) == MAX_VALUE ==> r == Thrown(OutOfMemory)
      ensures old(size) < MAX_VALUE ==> r == Ok(()) && size < deque.Length
    {
      r := Ok(());
      if size >= deque.Length {
        GrowthPolicy(deque.Length);
        r := Grow(Wrap32(size + 1));
      }
    }

    // ---------------------------------------------------------- reading the ends

    /** peekFirst (and peek): the root, a smallest element; null when empty. */
    function PeekFirst(): (r: Option<E>)
      reads this, deque
      requires Valid()
      ensures r.None? <==> size == 0
      ensures r.Some? ==> r.value == Elements()[0] && forall e :: e in Elements() ==> rank(r.value) <= rank(e)
    {
      if size > 0 then
        RootIsMin(rank, Elements());
        Some(deque[0])
      else None
    }

    /** peekLast: the larger child of the root, or the root alone; null when empty. */
    function PeekLast(): (r: Option<E>)
      reads this, deque
      requires Valid()
      ensures r.None? <==> size == 0
      ensures r.Some? ==> r.value in Elements() && forall e :: e in Elements() ==> rank(e) <= rank(r.value)
    {
      if size > 0 then
        LastIsMax(rank, Elements());
        var indexMax := PreferredChild(rank, deque[..size], 0, Max);
        var indexPeek := if indexMax > 0 then indexMax else 0;
        Some(deque[indexPeek])
      else None
    }

    /** getFirst: peekFirst, but NoSuchElementException when empty. */
    function GetFirst(): (r: Outcome<E>)
      reads this, deque
      requires Valid()
      ensures r.Thrown? <==> size == 0
      ensures r.Thrown? ==> r.error == NoSuchElement
      ensures r.Ok? ==> Some(r.value) == PeekFirst()
    {
      match PeekFirst()
      case Some(x) => Ok(x)
      case None => Thrown(NoSuchElement)
    }

    /** getLast: peekLast, but NoSuchElementException when empty. */
    function GetLast(): (r: Outcome<E>)
      reads this, deque
      requires Valid()
      ensures r.Thrown? <==> size == 0
      ensures r.Thrown? ==> r.error == NoSuchElement
      ensures r.Ok? ==> Some(r.value) == PeekLast()
    {
      match PeekLast()
      case Some(x) => Ok(x)
      case None => Thrown(NoSuchElement)
    }

    // ---------------------------------------------------------- removing

    /**
     * removeAt as written: bounds check, move the last element into the
     * slot, trickle it down.  It repairs downward only.
     */
    method RemoveAt(index: int) returns (r: Outcome<E>)
      requires Valid()
      modifies this, deque
      ensures modCount == old(modCount) && deque == old(deque)
      ensures 1 <= deque.Length <= MAX_VALUE && 0 <= size <= deque.Length
      ensures !(0 <= index < old(size)) ==> r == Thrown(IllegalArgument) && size == old(size) && deque[..] == old(deque[..])
      ensures 0 <= index < old(size) ==>
        r == Ok(old(Elements())[index]) && RemovedAsWritten(rank, old(Elements()), index, Elements())
    {
      if index < 0 || index >= size {
        return Thrown(IllegalArgument);
      }
      var obj := deque[index];
      size := size - 1;
      MoveLastAndTrickle(rank, deque, size, index, old(Elements()));
      return Ok(obj);
    }

    /** removeAt with the upward repair it lacks: bubbleUp before trickleDown. */
    method RemoveAtRepaired(index: int) returns (r: Outcome<E>)
      requires Valid()
      modifies this, deque
      ensures Valid() && modCount == old(modCount) && deque == old(deque)
      ensures !(0 <= index < old(size)) ==> r == Thrown(IllegalArgument) && size == old(size) && deque[..] == old(deque[..])
      ensures 0 <= index < old(size) ==>
        r == Ok(old(Elements())[index]) && size == old(size) - 1 &&
        multiset(Elements()) == multiset(old(Elements())) - multiset{old(Elements())[index]}
    {
      if index < 0 || index >= size {
        return Thrown(IllegalArgument);
      }
      var obj := deque[index];
      size := size - 1;
      MoveLastAndRepair(rank, deque, size, index);
      return Ok(obj);
    }

    /** pollFirst (and poll): removes a smallest element; IllegalArgumentException when empty. */
    method PollFirst() returns (r: Outcome<E>)
      requires Valid()
      modifies this, deque
      ensures Valid() && deque == old(deque) && modCount == old(modCount) + 1
      ensures old(size) == 0 ==> r == Thrown(IllegalArgument) && size == 0
      ensures old(size) > 0 ==>
        r.Ok? && Some(r.value) == old(PeekFirst()) && size == old(size) - 1 &&
        multiset(Elements()) == multiset(old(Elements())) - multiset{r.value}
    {
      ghost var s := deque[..size];
      modCount := modCount + 1;
      r := RemoveAt(0);
      if s != [] {
        RemovedNearRoot(rank, s, 0, Elements());
      }
    }

    /** pollLast: removes a largest element; IllegalArgumentException when empty. */
    method PollLast() returns (r: Outcome<E>)
      requires Valid()
      modifies this, deque
      ensures Valid() && deque == old(deque) && modCount == old(modCount) + 1
      ensures old(size) == 0 ==> r == Thrown(IllegalArgument) && size == 0
      ensures old(size) > 0 ==>
        r.Ok? && Some(r.value) == old(PeekLast()) && size == old(size) - 1 &&
        multiset(Elements()) == multiset(old(Elements())) - multiset{r.value}
    {
      ghost var s := deque[..size];
      modCount := modCount + 1;
      var indexMax := PreferredChild(rank, deque[..size], 0, Max);
      var indexRemove := if indexMax > 0 then indexMax else 0;
      r := RemoveAt(indexRemove);
      if s != [] {
        RemovedNearRoot(rank, s, indexRemove, Elements());
      }
    }

    /** removeFirst (and remove()): pollFirst; the empty case already threw in removeAt. */
    method RemoveFirst() returns (r: Outcome<E>)
      requires Valid()
      modifies this, deque
      ensures Valid() && deque == old(deque) && modCount == old(modCount) + 1
      ensures r.Thrown? <==> old(size) == 0
      ensures r.Thrown? ==> r.error == IllegalArgument
      ensures r.Ok? ==> Some(r.value) == old(PeekFirst()) && multiset(Elements()) == multiset(old(Elements())) - multiset{r.value}
    {
      r := PollFirst();
    }

    /** removeLast: pollLast; the empty case already threw in removeAt. */
    method RemoveLast() returns (r: Outcome<E>)
      requires Valid()
      modifies this, deque
      ensures Valid() && deque == old(deque) && modCount == old(modCount) + 1
      ensures r.Thrown? <==> old(size) == 0
      ensures r.Thrown? ==> r.error == IllegalArgument
      ensures r.Ok? ==> Some(r.value) == old(PeekLast()) && multiset(Elements()) == multiset(old(Elements())) - multiset{r.value}
    {
      r := PollLast();
    }

    // ---------------------------------------------------------- searching

    /** indexOf: the first slot holding o; -1 for null or an absent element. */
    method IndexOf(o: Option<E>) returns (i: int)
      requires Valid()
      ensures o.None? ==> i == -1
      ensures o.Some? ==> (i == -1 <==> o.value !in Elements())
      ensures i != -1 ==> 0 <= i < size && o == Some(deque[i]) && forall m :: 0 <= m < i ==> deque[m] != o.value
    {
      if o.Some? {
        i := 0;
        while i < size
          invariant 0 <= i <= size
          invariant forall m :: 0 <= m < i ==> deque[m] != o.value
        {
          if o.value == deque[i] {
            return i;
          }
          i := i + 1;
        }
      }
      return -1;
    }

    /** contains: indexOf finds o. */
    method Contains(o: Option<E>) returns (b: bool)
      requires Valid()
      ensures b <==> o.Some? && o.value in Elements()
    {
      var i := IndexOf(o);
      b := i != -1;
    }

    /** remove(Object): removes one element equal to o, if there is one. */
    method Remove(o: Option<E>) returns (removed: bool)
      requires Valid()
      modifies this, deque
      ensures Valid() && deque == old(deque)
      ensures removed <==> o.Some? && o.value in old(Elements())
      ensures removed ==> (modCount == old(modCount) + 1 && size == old(size) - 1 &&
                           multiset(Elements()) == multiset(old(Elements())) - multiset{o.value})
      ensures !removed ==> modCount == old(modCount) && Elements() == old(Elements())
    {
      var i := IndexOf(o);
      if i == -1 {
        return false;
      }
      modCount := modCount + 1;
      var _ := RemoveAtRepaired(i);
      return true;
    }

    /** removeFirstOccurrence: scans from the front for an element equal to o. */
    method RemoveFirstOccurrence(o: Option<E>) returns (removed: bool)
      requires Valid()
      modifies this, deque
      ensures Valid() && deque == old(deque)
      ensures removed <==> o.Some? && o.value in old(Elements())
      ensures removed ==> (modCount == old(modCount) + 1 && size == old(size) - 1 &&
                           multiset(Elements()) == multiset(old(Elements())) - multiset{o.value})
      ensures !removed ==> modCount == old(modCount) && Elements() == old(Elements())
    {
      var count := 0;
      while count < size && Some(deque[count]) != o
        invariant 0 <= count <= size
        invariant forall m :: 0 <= m < count ==> Some(deque[m]) != o
      {
        count := count + 1;
      }
      var firstIndex := if count < size then count else -1;
      if firstIndex >= 0 {
        modCount := modCount + 1;
        var _ := RemoveAtRepaired(firstIndex);
        return true;
      }
      return false;
    }

    /** removeLastOccurrence: scans from the back for an element equal to o. */
    method RemoveLastOccurrence(o: Option<E>) returns (removed: bool)
      requires Valid()
      modifies this, deque
      ensures Valid() && deque == old(deque)
      ensures removed <==> o.Some? && o.value in old(Elements())
      ensures removed ==> (modCount == old(modCount) + 1 && size == old(size) - 1 &&
                           multiset(Elements()) == multiset(old(Elements())) - multiset{o.value})
      ensures !removed ==> modCount == old(modCount) && Elements() == old(Elements())
    {
      var count := size - 1;
      while count >= 0 && Some(deque[count]) != o
        invariant -1 <= count < size
        invariant forall m :: count < m < size ==> Some(deque[m]) != o
      {
        count := count - 1;
      }
      var lastIndex := count;
      if lastIndex >= 0 {
        modCount := modCount + 1;
        var _ := RemoveAtRepaired(lastIndex);
        return true;
      }
      return false;
    }

    /** clear: counts a modification and empties the deque. */
    method Clear()
      requires Valid()
      modifies this
      ensures Valid() && deque == old(deque)
      ensures size == 0 && modCount == old(modCount) + 1
    {
      modCount := modCount + 1;
      size := 0;
    }

    /**
     * removeAtIter as written, for Itr.remove.  Ascending, it removes only
     * below the last slot: the last element itself is never removed.  It
     * answers whether the element moved from the end landed in the
     * vacated slot (the iterator then steps back to visit it).
     */
    method RemoveAtIter(index: int, desc: bool) returns (r: Outcome<bool>)
      requires Valid()
      modifies this, deque
      ensures deque == old(deque) && 1 <= deque.Length <= MAX_VALUE && 0 <= size <= deque.Length
      ensures !desc && index >= old(size) - 1 ==>
        r == Ok(false) && modCount == old(modCount) && size == old(size) && Elements() == old(Elements())
      ensures !desc && index < old(size) - 1 ==> modCount == old(modCount) + (if old(size) == 0 then 0 else 1)
      ensures !desc && index < 0 ==> size == old(size) && Elements() == old(Elements())
      ensures !desc && index < 0 && index < old(size) - 1 ==> r == Thrown(if old(size) == 0 then ArrayIndexOutOfBounds else IllegalArgument)
      ensures !desc && 0 <= index < old(size) - 1 ==>
        RemovedAsWritten(rank, old(Elements()), index, Elements()) &&
        r == Ok(Elements()[index] == old(Elements())[old(size) - 1])
      ensures desc ==> modCount == old(modCount)
      ensures desc && index < 0 ==> r == Ok(false) && size == old(size) && Elements() == old(Elements())
      ensures desc && index >= old(size) ==> r == Thrown(IllegalArgument) && size == old(size) && Elements() == old(Elements())
      ensures desc && 0 <= index < old(size) ==> r == Ok(false) && RemovedAsWritten(rank, old(Elements()), index, Elements())
    {
      if !desc {
        if index < size - 1 {
          if size == 0 {
            // deque[size - 1] with an empty deque
            return Thrown(ArrayIndexOutOfBounds);
          }
          var moved := deque[size - 1];
          modCount := modCount + 1;
          var removed := RemoveAt(index);
          if removed.Thrown? {
            return Thrown(removed.error);
          }
          return Ok(moved == deque[index]);
        }
      } else {
        if index >= 0 {
          var removed := RemoveAt(index);
          if removed.Thrown? {
            return Thrown(removed.error);
          }
        }
      }
      return Ok(false);
    }

    /**
     * removeAtIter with both repairs: the ascending guard admits the last
     * slot, and the removal is the one that also bubbles up.  The deque
     * stays a heap whatever the iterator removes.
     */
    method RemoveAtIterRepaired(index: int, desc: bool) returns (r: Outcome<bool>)
      requires Valid()
      modifies this, deque
      ensures Valid() && deque == old(deque)
      ensures !desc && index >= old(size) ==>
        r == Ok(false) && modCount == old(modCount) && size == old(size) && Elements() == old(Elements())
      ensures !desc && index < old(size) ==> modCount == old(modCount) + (if old(size) == 0 then 0 else 1)
      ensures desc ==> modCount == old(modCount)
      ensures index < 0 ==> size == old(size) && Elements() == old(Elements())
      ensures index < 0 ==> r == (if desc then Ok(false) else Thrown(if old(size) == 0 then ArrayIndexOutOfBounds else IllegalArgument))
      ensures desc && index >= old(size) ==> r == Thrown(IllegalArgument) && size == old(size) && Elements() == old(Elements())
      ensures 0 <= index < old(size) ==>
        size == old(size) - 1 &&
        multiset(Elements()) == multiset(old(Elements())) - multiset{old(Elements())[index]} &&
        r == Ok(!desc && index < size && Elements()[index] == old(Elements())[old(size) - 1])
    {
      if !desc {
        if index < size {
          if size == 0 {
            // deque[size - 1] with an empty deque
            return Thrown(ArrayIndexOutOfBounds);
          }
          var moved := deque[size - 1];
          modCount := modCount + 1;
          var removed := RemoveAtRepaired(index);
          if removed.Thrown? {
            return Thrown(removed.error);
          }
          return Ok(index < size && moved == deque[index]);
        }
      } else {
        if index >= 0 {
          var removed := RemoveAtRepaired(index);
          if removed.Thrown? {
            return Thrown(removed.error);
          }
        }
      }
      return Ok(false);
    }

    /** push: a priority deque is not a stack. */
    method Push(e: Option<E>) returns (r: Outcome<()>)
      ensures r == Thrown(UnsupportedOperation)
    {
      return Thrown(UnsupportedOperation);
    }

    /** pop: a priority deque is not a stack. */
    method Pop() returns (r: Outcome<E>)
      ensures r == Thrown(UnsupportedOperation)
    {
      return Thrown(UnsupportedOperation);
    }
  }

  /**
   * PriorityDeque(int, Comparator) as a caller sees it: IllegalArgumentException
   * for a capacity below one, else an empty deque of exactly that capacity.
   */
  method NewPriorityDeque<E(0,==)>(initialCapacity: int, rank: E -> int) returns (r: Outcome<PriorityDeque<E>>)
    requires initialCapacity <= MAX_VALUE
    ensures initialCapacity < 1 <==> r == Thrown(IllegalArgument)
    ensures r.Ok? ==>
      fresh(r.value) && fresh(r.value.deque) && r.value.Valid() && r.value.Elements() == [] &&
      r.value.deque.Length == initialCapacity && r.value.rank == rank
  {
    if initialCapacity < 1 {
      return Thrown(IllegalArgument);
    }
    var d := new PriorityDeque.WithCapacity(initialCapacity, rank);
    return Ok(d);
  }

  /**
   * The deque's iterator: ascending walks the array from slot 0, descending
   * from the last slot, both in array order (not priority order).
   */
  class Itr<E(0,==)> {
    const owner: PriorityDeque<E>
    const desc: bool
    var cursor: int
    var expectedModCount: int
    var lastRet: int

    /** lastRet is -1 or the slot next() just returned, one behind the cursor. */
    ghost predicate Valid()
      reads this, owner, owner.deque
    {
      owner.Valid() && -1 <= lastRet &&
      if desc then -1 <= cursor && (lastRet >= 0 ==> lastRet == cursor + 1)
      else 0 <= cursor && (lastRet >= 0 ==> lastRet == cursor - 1)
    }

    constructor (owner: PriorityDeque<E>, desc: bool)
      requires owner.Valid()
      ensures Valid() && this.owner == owner && this.desc == desc
      ensures cursor == (if desc then owner.size - 1 else 0)
      ensures expectedModCount == owner.modCount && lastRet == -1
    {
      this.owner := owner;
      this.desc := desc;
      cursor := if desc then owner.size - 1 else 0;
      expectedModCount := owner.modCount;
      lastRet := -1;
    }

    /** hasNext: the cursor has not run off its end of the deque. */
    function HasNext(): (b: bool)
      reads this, owner
      ensures b ==> (desc && cursor >= 0) || (!desc && cursor < owner.size)
      ensures !b ==> (desc && cursor < 0) || (!desc && cursor >= owner.size)
    {
      (!desc && cursor < owner.size) || (desc && cursor >= 0)
    }

    /**
     * next: the element at the cursor, which then moves one slot on.  A
     * slot past the end holds null (Java clears vacated slots).
     */
    method Next() returns (r: Outcome<Option<E>>)
      requires Valid()
      modifies this
      ensures Valid() && expectedModCount == old(expectedModCount)
      ensures expectedModCount != owner.modCount ==>
        r == Thrown(ConcurrentModification) && cursor == old(cursor) && lastRet == old(lastRet)
      ensures expectedModCount == owner.modCount && !old(HasNext()) ==>
        r == Thrown(NoSuchElement) && cursor == old(cursor) && lastRet == old(lastRet)
      ensures expectedModCount == owner.modCount && old(HasNext()) ==>
        lastRet == old(cursor) && cursor == old(cursor) + (if desc then -1 else 1) &&
        (lastRet < owner.size ==> r == Ok(Some(owner.Elements()[lastRet]))) &&
        (owner.size <= lastRet < owner.deque.Length ==> r == Ok(None)) &&
        (lastRet >= owner.deque.Length ==> r == Thrown(ArrayIndexOutOfBounds))
    {
      if expectedModCount != owner.modCount {
        return Thrown(ConcurrentModification);
      }
      if !HasNext() {
        return Thrown(NoSuchElement);
      }
      lastRet := cursor;
      cursor := if desc then cursor - 1 else cursor + 1;
      if lastRet >= owner.deque.Length {
        return Thrown(ArrayIndexOutOfBounds);
      } else if lastRet >= owner.size {
        return Ok(None);
      }
      return Ok(Some(owner.deque[lastRet]));
    }

    /**
     * remove: removes the element next() last returned, through the
     * repaired removeAtIter; steps back when the element moved from the
     * end took the vacated slot, so that it is still visited.
     */
    method Remove() returns (r: Outcome<()>)
      requires Valid()
      modifies this, owner, owner.deque
      ensures Valid() && owner.deque == old(owner.deque)
      ensures old(expectedModCount) != old(owner.modCount) ==>
        r == Thrown(ConcurrentModification) && lastRet == old(lastRet) && cursor == old(cursor) &&
        owner.modCount == old(owner.modCount) && owner.Elements() == old(owner.Elements())
      ensures old(expectedModCount) == old(owner.modCount) && old(lastRet) == -1 ==>
        r == Thrown(IllegalState) && cursor == old(cursor) &&
        owner.modCount == old(owner.modCount) && owner.Elements() == old(owner.Elements())
      ensures old(expectedModCount) == old(owner.modCount) && 0 <= old(lastRet) < old(owner.size) ==>
        r == Ok(()) && lastRet == -1 && expectedModCount == owner.modCount &&
        owner.size == old(owner.size) - 1 &&
        multiset(owner.Elements()) == multiset(old(owner.Elements())) - multiset{old(owner.Elements())[old(lastRet)]} &&
        (desc ==> cursor == old(cursor)) &&
        (!desc ==> cursor == old(cursor) - (if old(lastRet) < owner.size && owner.Elements()[old(lastRet)] == old(owner.Elements())[old(owner.size) - 1] then 1 else 0))
      ensures old(expectedModCount) == old(owner.modCount) && old(lastRet) >= old(owner.size) ==>
        owner.Elements() == old(owner.Elements()) && cursor == old(cursor) &&
        (desc ==> r == Thrown(IllegalArgument)) && (!desc ==> r == Ok(()) && lastRet == -1)
    {
      if expectedModCount != owner.modCount {
        r := Thrown(ConcurrentModification);
      } else if lastRet == -1 {
        r := Thrown(IllegalState);
      } else {
        r := RemoveReturned();
      }
    }

    /** The part of remove past its two checks: lastRet is a slot next() returned. */
    method RemoveReturned() returns (r: Outcome<()>)
      requires Valid() && 0 <= lastRet
      modifies this, owner, owner.deque
      ensures Valid() && owner.deque == old(owner.deque)
      ensures old(lastRet) < old(owner.size) ==>
        r == Ok(()) && lastRet == -1 && expectedModCount == owner.modCount &&
        owner.size == old(owner.size) - 1 &&
        multiset(owner.Elements()) == multiset(old(owner.Elements())) - multiset{old(owner.Elements())[old(lastRet)]} &&
        (desc ==> cursor == old(cursor)) &&
        (!desc ==> cursor == old(cursor) - (if old(lastRet) < owner.size && owner.Elements()[old(lastRet)] == old(owner.Elements())[old(owner.size) - 1] then 1 else 0))
      ensures old(lastRet) >= old(owner.size) ==>
        owner.Elements() == old(owner.Elements()) && cursor == old(cursor) &&
        (desc ==> r == Thrown(IllegalArgument)) && (!desc ==> r == Ok(()) && lastRet == -1)
    {
      var decrementCounter := owner.RemoveAtIterRepaired(lastRet, desc);
      assert owner.Valid();
      if decrementCounter.Thrown? {
        r := Thrown(decrementCounter.error);
      } else {
        lastRet, expectedModCount := -1, owner.modCount;
        cursor := if decrementCounter.value then cursor - 1 else cursor;
        r := Ok(());
      }
    }
  }

  // ------------------------------------------------------------ removeAt's missing upward repair

  function Identity(x: int): int
  {
    x
  }

  /** A min-max heap of ints in which removing slot 7 needs an upward repair. */
  const UpwardWitness: seq<int> := [0, 100, 100, 50, 50, 1, 1, 60, 60, 60, 60, 2]

  /**
   * removeAt as written, on a valid heap, can leave a non-heap: slot 7 has
   * no children once the deque shrinks to 11, so the moved last element 2
   * stays under its parent 50 on a min level.
   */
  lemma RemoveAtBreaksHeap(t: seq<int>)
    requires RemovedAsWritten(Identity, UpwardWitness, 7, t)
    ensures IsHeap(Identity, UpwardWitness) && !IsHeap(Identity, t)
  {
    WitnessIsHeap();
    MovedWitnessNotHeap();
    assert LeftChild(7) >= |t|;
  }

  /** Moving the last element 2 into slot 7 puts it under 50, on a min level. */
  lemma MovedWitnessNotHeap()
    ensures !IsHeap(Identity, Moved(UpwardWitness, 7))
  {
    WitnessSlots();
    var u := Moved(UpwardWitness, 7);
    assert u[3] == 50 && u[7] == 2;
    assert Parent(7) == 3 && Depth(3) == 2;
    assert !ParentOk(Identity, u, 7);
  }

  lemma WitnessSlots()
    ensures |UpwardWitness| == 12 && UpwardWitness[3] == 50 && UpwardWitness[11] == 2
  {
  }

  lemma WitnessIsHeap()
    ensures IsHeap(Identity, UpwardWitness)
  {
    forall j | 0 <= j < |UpwardWitness|
      ensures ParentOk(Identity, UpwardWitness, j) && GrandOk(Identity, UpwardWitness, j)
    {
      WitnessSlot(j);
    }
  }

  /** Slot by slot, the witness keeps its parent and grandparent constraints. */
  lemma WitnessSlot(j: int)
    requires 0 <= j < |UpwardWitness|
    ensures ParentOk(Identity, UpwardWitness, j) && GrandOk(Identity, UpwardWitness, j)
  {
    assert Depth(0) == 0 && Depth(1) == 1 && Depth(2) == 1;
    if j >= 3 {
      assert Depth(Parent(j)) == 1 + Depth(Grand(j));
      ParentFacts(j);
    }
  }
}
