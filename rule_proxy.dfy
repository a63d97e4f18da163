/**
 * RuleProxy: makes an annotated rule object behave as a rule.  Its name,
 * description and priority come from the @Rule annotation, the class and
 * its methods; it is ordered, compared and hashed on those three; it
 * evaluates the @Condition method and executes the @Action methods with
 * parameters taken from the facts.  Invoking the object's own methods is
 * the parameter `invoke` (user code the model cannot see).
 */
module Proxies {
  import opened Lang
  import opened RuleFacts
  import opened RuleOrder
  import opened RuleValidation

  /**
   * Something that is a Rule: a Rule implemented directly, or an annotated
   * object.  Handed to the rule set (AsRule), Annotated(c) is the object
   * itself, which register wraps; as the other side of equals or compareTo,
   * Annotated(c) is the proxy over c, since only a Rule can be compared.  An
   * argument that is not a Rule at all (a raw annotated object or null) is
   * None in EqualsMethod.
   */
  datatype RuleObject = PlainRule(view: RuleView) | Annotated(target: RuleClass)

  // ------------------------------------------------------------ actions in order

  function ActionOrder(m: MethodDesc): int
  {
    if m.action.Some? then m.action.value else 0
  }

  predicate ByOrder(ms: seq<MethodDesc>)
  {
    forall i, j :: 0 <= i < j < |ms| ==> ActionOrder(ms[i]) <= ActionOrder(ms[j])
  }

  /** Adding a bean to the TreeSet: after every bean whose order is not greater. */
  function InsertByOrder(sorted: seq<MethodDesc>, m: MethodDesc): (r: seq<MethodDesc>)
    ensures multiset(r) == multiset(sorted) + multiset{m}
  {
    if sorted == [] then [m]
    else if ActionOrder(m) < ActionOrder(sorted[0]) then [m] + sorted
    else
      var rest := InsertByOrder(sorted[1..], m);
      assert sorted == [sorted[0]] + sorted[1..];
      [sorted[0]] + rest
  }

  /** Insertion keeps the beans ordered. */
  lemma {:induction false} InsertKeepsOrder(sorted: seq<MethodDesc>, m: MethodDesc)
    requires ByOrder(sorted)
    ensures ByOrder(InsertByOrder(sorted, m))
  {
    if sorted != [] && ActionOrder(sorted[0]) <= ActionOrder(m) {
      var tail := sorted[1..];
      var rest := InsertByOrder(tail, m);
      InsertKeepsOrder(tail, m);
      InsertKeepsBound(tail, m, ActionOrder(sorted[0]));
      ConsByOrder(sorted[0], rest);
    }
  }

  /** A lower bound on every bean survives inserting a bean above it. */
  lemma InsertKeepsBound(sorted: seq<MethodDesc>, m: MethodDesc, lo: int)
    requires forall k :: 0 <= k < |sorted| ==> lo <= ActionOrder(sorted[k])
    requires lo <= ActionOrder(m)
    ensures forall k :: 0 <= k < |InsertByOrder(sorted, m)| ==> lo <= ActionOrder(InsertByOrder(sorted, m)[k])
  {
    var r := InsertByOrder(sorted, m);
    forall k | 0 <= k < |r|
      ensures lo <= ActionOrder(r[k])
    {
      assert r[k] in multiset(r);
      assert r[k] in multiset(sorted) || r[k] == m;
    }
  }

  /** An ordered run stays ordered under a head no greater than any of it. */
  lemma ConsByOrder(h: MethodDesc, rest: seq<MethodDesc>)
    requires ByOrder(rest) && forall k :: 0 <= k < |rest| ==> ActionOrder(h) <= ActionOrder(rest[k])
    ensures ByOrder([h] + rest)
  {
    var r := [h] + rest;
    forall i, j | 0 <= i < j < |r|
      ensures ActionOrder(r[i]) <= ActionOrder(r[j])
    {
      assert r[j] == rest[j - 1];
      if i > 0 {
        assert r[i] == rest[i - 1];
      }
    }
  }

  /** getActionMethodBeans: the @Action methods, by order, ties in reflection order. */
  function ActionBeans(ms: seq<MethodDesc>): (r: seq<MethodDesc>)
    ensures ByOrder(r)
    ensures multiset(r) == multiset(AnnotatedWith(ms, ActionMarker))
  {
    if ms == [] then []
    else
      var init := ActionBeans(ms[..|ms| - 1]);
      var m := ms[|ms| - 1];
      assert ms == ms[..|ms| - 1] + [m];
      if m.action.Some? then InsertKeepsOrder(init, m); InsertByOrder(init, m) else init
  }

  function Names(ms: seq<MethodDesc>): (r: seq<string>)
    ensures |r| == |ms| && forall k :: 0 <= k < |ms| ==> r[k] == ms[k].name
  {
    seq(|ms|, k requires 0 <= k < |ms| => ms[k].name)
  }

  /** getConditionMethod: the first @Condition method. */
  function ConditionMethod(ms: seq<MethodDesc>): (r: Option<MethodDesc>)
    ensures r.None? <==> forall k :: 0 <= k < |ms| ==> !ms[k].isCondition
    ensures r.Some? ==>
      exists k :: 0 <= k < |ms| && ms[k] == r.value && r.value.isCondition &&
        forall j :: 0 <= j < k ==> !ms[j].isCondition
  {
    if ms == [] then None
    else if ms[0].isCondition then Some(ms[0])
    else
      var r := ConditionMethod(ms[1..]);
      assert forall k :: 0 < k < |ms| ==> ms[k] == ms[1..][k - 1];
      r
  }

  /** getCompareToMethod: the first method named compareTo. */
  function CompareToMethodOf(ms: seq<MethodDesc>): (r: Option<MethodDesc>)
    ensures r.None? <==> forall k :: 0 <= k < |ms| ==> ms[k].name != "compareTo"
    ensures r.Some? ==> r.value in ms && r.value.name == "compareTo"
  {
    if ms == [] then None
    else if ms[0].name == "compareTo" then Some(ms[0])
    else
      var r := CompareToMethodOf(ms[1..]);
      assert forall k :: 0 < k < |ms| ==> ms[k] == ms[1..][k - 1];
      r
  }

  /** The first @Priority method. */
  function PriorityMethod(ms: seq<MethodDesc>): (r: Option<MethodDesc>)
    ensures r.None? <==> forall k :: 0 <= k < |ms| ==> !ms[k].isPriority
  {
    if ms == [] then None
    else if ms[0].isPriority then Some(ms[0])
    else
      var r := PriorityMethod(ms[1..]);
      assert forall k :: 0 < k < |ms| ==> ms[k] == ms[1..][k - 1];
      r
  }

  // ------------------------------------------------------------ name, description, priority

  /** getRuleName: the annotation's name, or the class's simple name when it is the default. */
  function RuleName(c: RuleClass): (r: string)
    requires IsRuleClassWellDefined(c)
    ensures c.ruleAnnotation.value.name != DEFAULT_NAME ==> r == c.ruleAnnotation.value.name
    ensures c.ruleAnnotation.value.name == DEFAULT_NAME ==> r == c.simpleName
  {
    var rule := c.ruleAnnotation.value;
    if rule.name == DEFAULT_NAME then c.simpleName else rule.name
  }

  /** The generated description: "when <condition> then <action>,<action>,...". */
  function DefaultDescription(c: RuleClass): (r: string)
    ensures ConditionMethod(c.methods).Some? ==>
      StartsWith(r, "when " + ConditionMethod(c.methods).value.name + " then ")
    ensures ConditionMethod(c.methods).None? ==> r == JoinWith(Names(ActionBeans(c.methods)), ",")
  {
    var actions := JoinWith(Names(ActionBeans(c.methods)), ",");
    match ConditionMethod(c.methods)
    case None => actions
    case Some(m) =>
      var head := "when " + m.name + " then ";
      assert (head + actions)[..|head|] == head;
      head + actions
  }

  /** getRuleDescription: the annotation's description, or the generated one when it is the default. */
  function RuleDescription(c: RuleClass): (r: string)
    requires IsRuleClassWellDefined(c)
    ensures c.ruleAnnotation.value.description != DEFAULT_DESCRIPTION ==> r == c.ruleAnnotation.value.description
    ensures c.ruleAnnotation.value.description == DEFAULT_DESCRIPTION ==> r == DefaultDescription(c)
  {
    var rule := c.ruleAnnotation.value;
    if rule.description == DEFAULT_DESCRIPTION then DefaultDescription(c) else rule.description
  }

  /**
   * getRulePriority: DEFAULT_PRIORITY, overridden by a non-default
   * annotation priority, overridden by what a @Priority method returns.
   */
  function RulePriority(c: RuleClass): (r: int)
    requires IsRuleClassWellDefined(c)
    ensures PriorityMethod(c.methods).Some? ==> r == c.priorityResult
    ensures PriorityMethod(c.methods).None? ==> r == c.ruleAnnotation.value.priority
  {
    var rule := c.ruleAnnotation.value;
    var priority := DEFAULT_PRIORITY;
    var priority := if rule.priority != DEFAULT_PRIORITY then rule.priority else priority;
    if PriorityMethod(c.methods).Some? then c.priorityResult else priority
  }

  /** The proxy as the rule API sees it. */
  function ProxyView(c: RuleClass): RuleView
    requires IsRuleClassWellDefined(c)
  {
    RuleView(RuleName(c), RuleDescription(c), RulePriority(c))
  }

  predicate Wrappable(o: RuleObject)
  {
    o.Annotated? ==> IsRuleClassWellDefined(o.target)
  }

  function ViewOf(o: RuleObject): RuleView
    requires Wrappable(o)
  {
    match o
    case PlainRule(v) => v
    case Annotated(c) => ProxyView(c)
  }

  /**
   * The proxy with its lazily filled fields: each of name, description
   * and priority is computed on first use and kept.
   */
  class RuleProxy {
    const target: RuleClass
    var name: Option<string>
    var description: Option<string>
    var priority: Option<int>

    predicate Valid()
      reads this
    {
      IsRuleClassWellDefined(target) &&
      (name.Some? ==> name.value == RuleName(target)) &&
      (description.Some? ==> description.value == RuleDescription(target)) &&
      (priority.Some? ==> priority.value == RulePriority(target))
    }

    constructor (target: RuleClass)
      requires IsRuleClassWellDefined(target)
      ensures Valid() && this.target == target
      ensures name.None? && description.None? && priority.None?
    {
      this.target := target;
      name := None;
      description := None;
      priority := None;
    }

    method GetRuleName() returns (r: string)
      requires Valid()
      modifies this
      ensures Valid() && r == RuleName(target) && name == Some(r)
      ensures description == old(description) && priority == old(priority)
    {
      if name.None? {
        var rule := target.ruleAnnotation.value;
        name := Some(if rule.name == DEFAULT_NAME then target.simpleName else rule.name);
      }
      r := name.value;
    }

    method GetRuleDescription() returns (r: string)
      requires Valid()
      modifies this
      ensures Valid() && r == RuleDescription(target) && description == Some(r)
      ensures name == old(name) && priority == old(priority)
    {
      if description.None? {
        var generated := DefaultDescription(target);
        var rule := target.ruleAnnotation.value;
        description := Some(if rule.description == DEFAULT_DESCRIPTION then generated else rule.description);
      }
      r := description.value;
    }

    method GetRulePriority() returns (r: int)
      requires Valid()
      modifies this
      ensures Valid() && r == RulePriority(target) && priority == Some(r)
      ensures name == old(name) && description == old(description)
    {
      if priority.None? {
        var p := DEFAULT_PRIORITY;
        var rule := target.ruleAnnotation.value;
        if rule.priority != DEFAULT_PRIORITY {
          p := rule.priority;
        }
        var i := 0;
        while i < |target.methods|
          invariant 0 <= i <= |target.methods|
          invariant forall k :: 0 <= k < i ==> !target.methods[k].isPriority
        {
          if target.methods[i].isPriority {
            p := target.priorityResult;
            break;
          }
          i := i + 1;
        }
        priority := Some(p);
      }
      r := priority.value;
    }
  }

  // ------------------------------------------------------------ compareTo, equals, hashCode

  /**
   * compareToMethod: the target's own compareTo when it has one and the
   * other rule is a proxy too, else the natural order on priority and name.
   */
  function CompareToMethod(self: RuleClass, other: RuleObject, invokeCompareTo: (RuleClass, RuleClass) -> int): (r: Outcome<int>)
    requires IsRuleClassWellDefined(self) && Wrappable(other)
    ensures CompareToMethodOf(self.methods).None? || other.PlainRule? ==>
      r.Ok? && (r.value < 0 <==> RuleLess(ProxyView(self), ViewOf(other))) &&
      (r.value == 0 <==> SameKey(ProxyView(self), ViewOf(other)))
    ensures CompareToMethodOf(self.methods).Some? && other.Annotated? ==>
      (|CompareToMethodOf(self.methods).value.params| != 1 <==> r == Thrown(IllegalArgument))
  {
    match CompareToMethodOf(self.methods)
    case Some(m) =>
      if other.Annotated? then
        if |m.params| != 1 then Thrown(IllegalArgument) else Ok(invokeCompareTo(self, other.target))
      else Ok(CompareTo(ProxyView(self), ViewOf(other)))
    case None => Ok(CompareTo(ProxyView(self), ViewOf(other)))
  }

  /** equalsMethod: a rule with the same priority, name and description; a non-rule (None) is unequal. */
  predicate EqualsMethod(self: RuleClass, other: Option<RuleObject>)
    requires IsRuleClassWellDefined(self) && (other.Some? ==> Wrappable(other.value))
    ensures EqualsMethod(self, other) <==> other.Some? && ViewOf(other.value) == ProxyView(self)
  {
    if other.None? then false
    else
      var o := ViewOf(other.value);
      var me := ProxyView(self);
      o.priority == me.priority && me.name == o.name && me.description == o.description
  }

  /** hashCodeMethod: 31-based over name, description and priority, in int arithmetic. */
  function HashCodeMethod(self: RuleClass): (h: int)
    requires IsRuleClassWellDefined(self)
    ensures IsInt32(h)
  {
    var v := ProxyView(self);
    var result := StringHashCode(v.name);
    var result := Wrap32(31 * result + StringHashCode(v.description));
    Wrap32(31 * result + Wrap32(v.priority))
  }

  /** equals is exactly equality of the three rule attributes; equal proxies hash and order alike. */
  lemma EqualsContract(a: RuleClass, b: RuleClass)
    requires IsRuleClassWellDefined(a) && IsRuleClassWellDefined(b)
    ensures EqualsMethod(a, Some(Annotated(b))) <==> ProxyView(a) == ProxyView(b)
    ensures EqualsMethod(a, Some(Annotated(b))) ==> HashCodeMethod(a) == HashCodeMethod(b)
    ensures EqualsMethod(a, Some(Annotated(b))) ==> SameKey(ProxyView(a), ProxyView(b))
    ensures EqualsMethod(a, Some(Annotated(b))) <==> EqualsMethod(b, Some(Annotated(a)))
    ensures !EqualsMethod(a, None)
  {
    var va, vb := ProxyView(a), ProxyView(b);
    assert ViewOf(Annotated(b)) == vb;
    assert ViewOf(Annotated(a)) == va;
    assert EqualsMethod(a, Some(Annotated(b))) <==> va == vb;
    assert EqualsMethod(b, Some(Annotated(a))) <==> va == vb;
  }

  // ------------------------------------------------------------ evaluate and execute

  /** An actual parameter: the value of a named fact, or the whole facts. */
  datatype Arg = FactArg(value: Value) | FactsArg

  /**
   * The actual parameter for one formal parameter: with one annotation, the
   * value of the fact it names (NoSuchFactException when there is none, a
   * ClassCastException when the annotation is not @Fact); with none or
   * several, the facts themselves.
   */
  function ArgFor(p: Param, facts: seq<Fact>): (r: Outcome<Arg>)
    ensures |p.annotations| != 1 ==> r == Ok(FactsArg)
    ensures |p.annotations| == 1 && p.annotations[0].FactAnnotation? ==>
      (r.Ok? <==> HasName(facts, p.annotations[0].value)) &&
      (r.Ok? ==> r.value.FactArg? && Fact(p.annotations[0].value, r.value.value) in facts) &&
      (r.Thrown? ==> r.error == NoSuchFact(p.annotations[0].value))
    ensures |p.annotations| == 1 && p.annotations[0].OtherAnnotation? ==> r == Thrown(ClassCast)
  {
    if |p.annotations| == 1 then
      match p.annotations[0]
      case OtherAnnotation => Thrown(ClassCast)
      case FactAnnotation(factName) =>
        match GetFact(facts, factName)
        case None => Thrown(NoSuchFact(factName))
        case Some(f) => Ok(FactArg(f.value))
    else Ok(FactsArg)
  }

  /** getActualParameters: the parameters in order; the first that cannot be supplied throws. */
  function ActualParameters(ps: seq<Param>, facts: seq<Fact>): Outcome<seq<Arg>>
  {
    if ps == [] then Ok([])
    else
      match ArgFor(ps[0], facts)
      case Thrown(e) => Thrown(e)
      case Ok(a) =>
        match ActualParameters(ps[1..], facts)
        case Thrown(e) => Thrown(e)
        case Ok(rest) => Ok([a] + rest)
  }

  /** Every parameter supplied: the arguments are the parameters' own, position by position. */
  lemma {:induction false} ActualParametersOk(ps: seq<Param>, facts: seq<Fact>)
    requires forall k :: 0 <= k < |ps| ==> ArgFor(ps[k], facts).Ok?
    ensures ActualParameters(ps, facts).Ok?
    ensures |ActualParameters(ps, facts).value| == |ps|
    ensures forall k :: 0 <= k < |ps| ==> ActualParameters(ps, facts).value[k] == ArgFor(ps[k], facts).value
  {
    if ps != [] {
      ActualParametersOk(ps[1..], facts);
      assert forall k :: 0 < k < |ps| ==> ps[1..][k - 1] == ps[k];
    }
  }

  /** The first parameter that cannot be supplied decides the exception. */
  lemma {:induction false} ActualParametersThrown(ps: seq<Param>, facts: seq<Fact>, i: int)
    requires 0 <= i < |ps| && ArgFor(ps[i], facts).Thrown?
    requires forall k :: 0 <= k < i ==> ArgFor(ps[k], facts).Ok?
    ensures ActualParameters(ps, facts) == Thrown(ArgFor(ps[i], facts).error)
  {
    if i > 0 {
      ActualParametersThrown(ps[1..], facts, i - 1);
    }
  }

  method GetActualParameters(m: MethodDesc, facts: seq<Fact>) returns (r: Outcome<seq<Arg>>)
    ensures r == ActualParameters(m.params, facts)
  {
    var actualParameters: seq<Arg> := [];
    var i := 0;
    while i < |m.params|
      invariant 0 <= i <= |m.params| && |actualParameters| == i
      invariant forall k :: 0 <= k < i ==> ArgFor(m.params[k], facts) == Ok(actualParameters[k])
    {
      var annotations := m.params[i].annotations;
      if |annotations| == 1 {
        if annotations[0].OtherAnnotation? {
          ActualParametersThrown(m.params, facts, i);
          return Thrown(ClassCast);
        }
        var factName := annotations[0].value;
        var fact := GetFact(facts, factName);
        if fact.None? {
          ActualParametersThrown(m.params, facts, i);
          return Thrown(NoSuchFact(factName));
        }
        actualParameters := actualParameters + [FactArg(fact.value.value)];
      } else {
        actualParameters := actualParameters + [FactsArg];
      }
      i := i + 1;
    }
    ActualParametersOk(m.params, facts);
    assert ActualParameters(m.params, facts).value == actualParameters;
    return Ok(actualParameters);
  }

  /**
   * evaluateMethod: the condition method invoked on the actual parameters;
   * a missing fact or an IllegalArgumentException from the call gives false.
   */
  method EvaluateMethod(c: RuleClass, facts: seq<Fact>, invoke: (MethodDesc, seq<Arg>) -> Outcome<bool>) returns (r: Outcome<bool>)
    ensures ConditionMethod(c.methods).None? ==> r == Thrown(NullPointer)
    ensures ConditionMethod(c.methods).Some? ==>
      var m := ConditionMethod(c.methods).value;
      var args := ActualParameters(m.params, facts);
      (args.Thrown? && args.error.NoSuchFact? ==> r == Ok(false)) &&
      (args.Thrown? && !args.error.NoSuchFact? ==> r == Thrown(args.error)) &&
      (args.Ok? && invoke(m, args.value) == Thrown(IllegalArgument) ==> r == Ok(false)) &&
      (args.Ok? && invoke(m, args.value) != Thrown(IllegalArgument) ==> r == invoke(m, args.value))
  {
    var conditionMethod := ConditionMethod(c.methods);
    if conditionMethod.None? {
      return Thrown(NullPointer);
    }
    var actualParameters := GetActualParameters(conditionMethod.value, facts);
    if actualParameters.Thrown? {
      if actualParameters.error.NoSuchFact? {
        return Ok(false);
      }
      return Thrown(actualParameters.error);
    }
    r := invoke(conditionMethod.value, actualParameters.value);
    if r == Thrown(IllegalArgument) {
      r := Ok(false);
    }
  }

  /** One action on its actual parameters: the exception of either, or normal completion. */
  function ActionOutcome(m: MethodDesc, facts: seq<Fact>, invoke: (MethodDesc, seq<Arg>) -> Outcome<()>): Outcome<()>
  {
    match ActualParameters(m.params, facts)
    case Thrown(e) => Thrown(e)
    case Ok(args) => invoke(m, args)
  }

  /** The actions in turn, stopping at the first exception. */
  function RunActions(ms: seq<MethodDesc>, facts: seq<Fact>, invoke: (MethodDesc, seq<Arg>) -> Outcome<()>): Outcome<()>
  {
    if ms == [] then Ok(())
    else if ActionOutcome(ms[0], facts, invoke).Thrown? then ActionOutcome(ms[0], facts, invoke)
    else RunActions(ms[1..], facts, invoke)
  }

  /** The actions complete normally exactly when each does; otherwise the first failure is the result. */
  lemma {:induction false} RunActionsFirstFailure(ms: seq<MethodDesc>, facts: seq<Fact>, invoke: (MethodDesc, seq<Arg>) -> Outcome<()>)
    ensures RunActions(ms, facts, invoke).Ok? <==> forall k :: 0 <= k < |ms| ==> ActionOutcome(ms[k], facts, invoke).Ok?
    ensures RunActions(ms, facts, invoke).Thrown? ==>
      exists i :: 0 <= i < |ms| && RunActions(ms, facts, invoke) == ActionOutcome(ms[i], facts, invoke) &&
        forall k :: 0 <= k < i ==> ActionOutcome(ms[k], facts, invoke).Ok?
  {
    if ms != [] {
      RunActionsFirstFailure(ms[1..], facts, invoke);
      assert forall k :: 0 < k < |ms| ==> ms[1..][k - 1] == ms[k];
      if RunActions(ms, facts, invoke).Thrown? && ActionOutcome(ms[0], facts, invoke).Ok? {
        var i :| 0 <= i < |ms| - 1 && RunActions(ms[1..], facts, invoke) == ActionOutcome(ms[1..][i], facts, invoke) &&
          forall k :: 0 <= k < i ==> ActionOutcome(ms[1..][k], facts, invoke).Ok?;
        assert RunActions(ms, facts, invoke) == ActionOutcome(ms[i + 1], facts, invoke);
      }
    }
  }

  /** executeMethod: each action in bean order on its actual parameters; the first failure propagates. */
  method ExecuteMethod(c: RuleClass, facts: seq<Fact>, invoke: (MethodDesc, seq<Arg>) -> Outcome<()>) returns (r: Outcome<()>)
    ensures r == RunActions(ActionBeans(c.methods), facts, invoke)
  {
    var beans := ActionBeans(c.methods);
    var i := 0;
    while i < |beans|
      invariant 0 <= i <= |beans|
      invariant RunActions(beans, facts, invoke) == RunActions(beans[i..], facts, invoke)
    {
      assert beans[i..][1..] == beans[i + 1..];
      var actualParameters := GetActualParameters(beans[i], facts);
      if actualParameters.Thrown? {
        return Thrown(actualParameters.error);
      }
      var done := invoke(beans[i], actualParameters.value);
      if done.Thrown? {
        return done;
      }
      i := i + 1;
    }
    return Ok(());
  }

  /** asRule: a Rule is kept as it is; an annotated object is validated, then wrapped. */
  function AsRule(o: RuleObject): (r: Outcome<RuleView>)
    ensures o.PlainRule? ==> r == Ok(o.view)
    ensures o.Annotated? ==> (r.Ok? <==> WellDefinedRule(o.target))
    ensures o.Annotated? && r.Ok? ==> IsRuleClassWellDefined(o.target) && r.value == ProxyView(o.target)
    ensures r.Thrown? ==> r.error == IllegalArgument
  {
    match o
    case PlainRule(v) => Ok(v)
    case Annotated(c) =>
      ValidationAcceptsWellDefined(c);
      match ValidateRuleDefinition(c)
      case Thrown(e) => Thrown(e)
      case Ok(_) => Ok(ProxyView(c))
  }
}
