/**
 * CommandQueue: the FIFO of commands a rule's actions hand to the
 * executer.  The concurrent queue underneath is modelled as a sequence,
 * head first.
 */
module Commands {
  import opened Lang

  class CommandQueue<C> {
    var commands: seq<C>

    constructor ()
      ensures commands == []
    {
      commands := [];
    }

    /** offer: appends at the tail; the underlying queue refuses null. */
    method Offer(command: Option<C>) returns (r: Outcome<()>)
      modifies this
      ensures command.None? ==> r == Thrown(NullPointer) && commands == old(commands)
      ensures command.Some? ==> r == Ok(()) && commands == old(commands) + [command.value]
    {
      if command.None? {
        return Thrown(NullPointer);
      }
      commands := commands + [command.value];
      return Ok(());
    }

    /** poll: removes and returns the head; null when empty. */
    method Poll() returns (head: Option<C>)
      modifies this
      ensures old(commands) == [] ==> head.None? && commands == []
      ensures old(commands) != [] ==> head == Some(old(commands)[0]) && commands == old(commands)[1..]
      ensures (if head.Some? then [head.value] else []) + commands == old(commands)
    {
      if commands == [] {
        return None;
      }
      head := Some(commands[0]);
      commands := commands[1..];
    }

    /** asCollection: polls until empty, collecting in order; the queue ends empty. */
    method AsCollection() returns (list: seq<C>)
      modifies this
      ensures list == old(commands) && commands == []
    {
      list := [];
      while commands != []
        invariant list + commands == old(commands)
        decreases |commands|
      {
        var head := Poll();
        list := list + [head.value];
      }
    }

    method Clear()
      modifies this
      ensures commands == []
    {
      commands := [];
    }

    function Size(): (n: int)
      reads this
      ensures n == |commands|
    {
      |commands|
    }

    /** toString: "CommandQueue [size=<n>]". */
    function ToString(): (s: string)
      reads this
      ensures |s| > 20 && s[..19] == "CommandQueue [size=" && s[|s| - 1] == ']'
      ensures ParseNat(s[19..|s| - 1]) == Some(|commands|)
    {
      var digits := NatToString(|commands|);
      ParseNatToString(|commands|);
      var s := "CommandQueue [size=" + digits + "]";
      assert s[19..|s| - 1] == digits;
      s
    }
  }

  /** FIFO: what is offered comes out of poll in the same order. */
  method FifoOrder<C>(q: CommandQueue<C>, a: C, b: C) returns (first: Option<C>, second: Option<C>)
    requires q.commands == []
    modifies q
    ensures first == Some(a) && second == Some(b) && q.commands == []
  {
    var _ := q.Offer(Some(a));
    var _ := q.Offer(Some(b));
    first := q.Poll();
    second := q.Poll();
  }
}
