/**
 * RulesContext: what a rule's script sees of the engine — the facts, a
 * queue for the commands it asks the engine to run, and the registry of
 * command classes by label.  Facts iterate in the order of the sequence.
 */
module Context {
  import opened Lang
  import opened RuleFacts
  import opened Commands

  const DEFAULT_CLASS_LIST_SEPARATOR: string := ", "

  /** What `getConstructors()[0].newInstance()` does for a command class. */
  datatype Construction =
    | Constructs            // the first public constructor yields a command
    | CaughtFailure         // an exception exec catches and logs (instantiation, access, argument, invocation target, security)
    | NoPublicConstructor   // getConstructors() is empty: ArrayIndexOutOfBoundsException escapes exec

  /** A Command class as exec sees it: its name, and what constructing it does. */
  datatype CommandClass = CommandClass(name: string, construction: Construction)

  /** A command object: its class, and the data set on it (none when exec got null). */
  datatype Command = Command(className: string, data: Option<seq<Value>>)

  /** The static registry of command classes by label. */
  class CommandRegistry {
    var commands: map<string, Option<CommandClass>>

    constructor ()
      ensures commands == map[]
    {
      commands := map[];
    }

    /** registerCommand: binds commandLabel to command, replacing an earlier binding; returns the number of labels. */
    method RegisterCommand(commandLabel: string, command: Option<CommandClass>) returns (n: int)
      modifies this
      ensures commands == old(commands)[commandLabel := command]
      ensures n == |commands| == |old(commands)| + (if commandLabel in old(commands) then 0 else 1)
    {
      commands := commands[commandLabel := command];
      n := |commands|;
    }
  }

  /** getByClass's test: the simple name, or a prefix of the full name. */
  predicate MatchesClassPrefix(v: Value, factClass: string)
  {
    v.simpleName == factClass || StartsWith(v.className, factClass)
  }

  /** isPresentByClass's test: the simple name, or the full name exactly. */
  predicate MatchesClass(v: Value, factClass: string)
  {
    v.simpleName == factClass || v.className == factClass
  }

  /** The values of the facts whose class matches factClass, in order. */
  function ValuesByClass(fs: seq<Fact>, factClass: string): (r: seq<Value>)
    ensures |r| <= |fs|
    ensures forall v :: v in r <==> exists f :: f in fs && f.value == v && MatchesClassPrefix(v, factClass)
  {
    if fs == [] then []
    else
      var init := ValuesByClass(fs[..|fs| - 1], factClass);
      var last := fs[|fs| - 1];
      assert fs == fs[..|fs| - 1] + [last];
      assert forall f :: f in fs <==> f in fs[..|fs| - 1] || f == last;
      if MatchesClassPrefix(last.value, factClass) then init + [last.value] else init
  }

  /** One line of listAllFactsByClass: "name - Simple [Full]". */
  function Entry(f: Fact): string
  {
    f.name + " - " + f.value.simpleName + " [" + f.value.className + "]"
  }

  function Entries(fs: seq<Fact>): (r: seq<string>)
    ensures |r| == |fs| && forall k :: 0 <= k < |fs| ==> r[k] == Entry(fs[k])
  {
    seq(|fs|, k requires 0 <= k < |fs| => Entry(fs[k]))
  }

  class RulesContext {
    const commandQueue: CommandQueue<Command>
    var facts: seq<Fact>

    constructor (commandQueue: CommandQueue<Command>, facts: seq<Fact>)
      ensures this.commandQueue == commandQueue && this.facts == facts
    {
      this.commandQueue := commandQueue;
      this.facts := facts;
    }

    /** addFact: Facts.add of a new Fact, which refuses a null name or payload. */
    method AddFact(factName: Option<string>, payload: Option<Value>) returns (r: Outcome<()>)
      modifies this
      ensures factName.None? || payload.None? ==> r == Thrown(NullPointer) && facts == old(facts)
      ensures factName.Some? && payload.Some? ==>
        r == Ok(()) && facts == RuleFacts.AddFact(old(facts), Fact(factName.value, payload.value))
    {
      var fact := NewFact(factName, payload);
      if fact.Thrown? {
        return Thrown(fact.error);
      }
      facts := RuleFacts.AddFact(facts, fact.value);
      return Ok(());
    }

    /**
     * exec: a registered label whose class constructs enqueues one command,
     * with the data set when data is not null.  An unknown label and the
     * reflective exceptions exec catches are logged and enqueue nothing; a
     * label bound to null (NullPointerException) and a class without a
     * public constructor (ArrayIndexOutOfBoundsException) escape exec.
     */
    method Exec(registry: CommandRegistry, command: string, data: Option<seq<Value>>) returns (r: Outcome<()>)
      modifies commandQueue
      ensures r.Thrown? || !(command in registry.commands && registry.commands[command].Some? &&
                             registry.commands[command].value.construction == Constructs) ==>
        commandQueue.commands == old(commandQueue.commands)
      ensures command !in registry.commands ==> r == Ok(())
      ensures command in registry.commands && registry.commands[command].None? ==> r == Thrown(NullPointer)
      ensures command in registry.commands && registry.commands[command].Some? ==>
        var cls := registry.commands[command].value;
        (cls.construction == NoPublicConstructor ==> r == Thrown(ArrayIndexOutOfBounds)) &&
        (cls.construction == CaughtFailure ==> r == Ok(())) &&
        (cls.construction == Constructs ==>
          r == Ok(()) && commandQueue.commands == old(commandQueue.commands) + [Command(cls.name, data)])
    {
      if command !in registry.commands {
        return Ok(());
      }
      var registered := registry.commands[command];
      if registered.None? {
        return Thrown(NullPointer);
      }
      var cls := registered.value;
      match cls.construction
      case NoPublicConstructor =>
        return Thrown(ArrayIndexOutOfBounds);
      case CaughtFailure =>
        return Ok(());
      case Constructs =>
        var commandObject := Command(cls.name, None);
        if data.Some? {
          commandObject := commandObject.(data := data);
        }
        var _ := commandQueue.Offer(Some(commandObject));
        return Ok(());
    }

    /** getFact: the first fact named factName, or null. */
    method GetFact(factName: string) returns (r: Option<Fact>)
      ensures r.None? <==> !HasName(facts, factName)
      ensures r.Some? ==>
        (exists k :: 0 <= k < |facts| && facts[k] == r.value && r.value.name == factName &&
           forall m :: 0 <= m < k ==> facts[m].name != factName)
    {
      var i := 0;
      while i < |facts|
        invariant 0 <= i <= |facts|
        invariant forall m :: 0 <= m < i ==> facts[m].name != factName
      {
        if facts[i].name == factName {
          return Some(facts[i]);
        }
        i := i + 1;
      }
      return None;
    }

    /** isPresent: some fact is named factName. */
    method IsPresent(factName: string) returns (b: bool)
      ensures b <==> HasName(facts, factName)
    {
      var i := 0;
      while i < |facts|
        invariant 0 <= i <= |facts|
        invariant forall m :: 0 <= m < i ==> facts[m].name != factName
      {
        if facts[i].name == factName {
          return true;
        }
        i := i + 1;
      }
      return false;
    }

    /** isPresentByClass: some fact's value has that simple or full class name. */
    method IsPresentByClass(factClass: string) returns (b: bool)
      ensures b <==> exists k :: 0 <= k < |facts| && MatchesClass(facts[k].value, factClass)
    {
      var i := 0;
      while i < |facts|
        invariant 0 <= i <= |facts|
        invariant forall m :: 0 <= m < i ==> !MatchesClass(facts[m].value, factClass)
      {
        if MatchesClass(facts[i].value, factClass) {
          return true;
        }
        i := i + 1;
      }
      return false;
    }

    /** getByClass: the values whose simple name is factClass or whose full name starts with it. */
    method GetByClass(factClass: string) returns (result: seq<Value>)
      ensures result == ValuesByClass(facts, factClass)
    {
      result := [];
      var i := 0;
      while i < |facts|
        invariant 0 <= i <= |facts|
        invariant result == ValuesByClass(facts[..i], factClass)
      {
        assert facts[..i + 1][..i] == facts[..i];
        if MatchesClassPrefix(facts[i].value, factClass) {
          result := result + [facts[i].value];
        }
        i := i + 1;
      }
      assert facts[..i] == facts;
    }

    /** listAllFactsByClass(separator): one entry per fact, separated by separator. */
    method ListAllFactsByClassWith(separator: string) returns (s: string)
      ensures s == JoinWith(Entries(facts), separator)
    {
      s := "";
      var first := true;
      var i := 0;
      while i < |facts|
        invariant 0 <= i <= |facts|
        invariant first <==> i == 0
        invariant s == JoinWith(Entries(facts[..i]), separator)
      {
        assert Entries(facts[..i + 1])[..i] == Entries(facts[..i]);
        if !first {
          s := s + separator;
        }
        s := s + Entry(facts[i]);
        first := false;
        i := i + 1;
      }
      assert facts[..i] == facts;
    }

    /** listAllFactsByClass(): with the separator ", ". */
    method ListAllFactsByClass() returns (s: string)
      ensures s == JoinWith(Entries(facts), DEFAULT_CLASS_LIST_SEPARATOR)
    {
      s := ListAllFactsByClassWith(DEFAULT_CLASS_LIST_SEPARATOR);
    }

    /** removeFact: Facts.remove of the fact named factName, when there is one. */
    method RemoveFact(factName: string)
      modifies this
      ensures !HasName(old(facts), factName) ==> facts == old(facts)
      ensures facts == WithoutName(old(facts), factName)
    {
      var toDelete: Option<Fact> := None;
      var i := 0;
      while i < |facts|
        invariant 0 <= i <= |facts|
        invariant forall m :: 0 <= m < i ==> facts[m].name != factName
      {
        if facts[i].name == factName {
          toDelete := Some(facts[i]);
          break;
        }
        i := i + 1;
      }
      if toDelete.Some? {
        facts := WithoutName(facts, toDelete.value.name);
      } else {
        assert !HasName(facts, factName);
      }
    }
  }

  /** After addFact(n, v), isPresent(n) holds and getFact(n) finds the new fact. */
  lemma AddThenPresent(fs: seq<Fact>, name: string, v: Value)
    ensures HasName(RuleFacts.AddFact(fs, Fact(name, v)), name)
    ensures RuleFacts.GetFact(RuleFacts.AddFact(fs, Fact(name, v)), name) == Some(Fact(name, v))
  {
    AddedLookup(fs, Fact(name, v));
  }
}
