/**
 * RuleDefinitionValidator: the structural checks an annotated rule class
 * must pass before it is wrapped as a rule.  A class is seen as a
 * descriptor: its @Rule annotation (found on the class or through a
 * meta-annotation), and its public methods in reflection order, each with
 * its visibility, return type, parameters and rule annotations.
 */
module RuleValidation {
  import opened Lang

  datatype Annotation = FactAnnotation(value: string) | OtherAnnotation

  datatype Param = Param(annotations: seq<Annotation>, isFactsType: bool)

  datatype ReturnType = BooleanType | VoidType | IntType | OtherType

  /** A method: @Condition, @Action(order) and @Priority as flags. */
  datatype MethodDesc = MethodDesc(
    name: string,
    isPublic: bool,
    returnType: ReturnType,
    params: seq<Param>,
    isCondition: bool,
    action: Option<int>,
    isPriority: bool)

  datatype RuleAnnotation = RuleAnnotation(name: string, description: string, priority: int)

  /** A rule class: priorityResult is what its @Priority method returns when invoked. */
  datatype RuleClass = RuleClass(
    simpleName: string,
    ruleAnnotation: Option<RuleAnnotation>,
    methods: seq<MethodDesc>,
    priorityResult: int)

  datatype Marker = ConditionMarker | ActionMarker | PriorityMarker

  predicate Marked(m: MethodDesc, marker: Marker)
  {
    match marker
    case ConditionMarker => m.isCondition
    case ActionMarker => m.action.Some?
    case PriorityMarker => m.isPriority
  }

  function MarkedIndexes(ms: seq<MethodDesc>, marker: Marker): set<int>
  {
    set k | 0 <= k < |ms| && Marked(ms[k], marker)
  }

  /** getMethodsAnnotatedWith: the methods carrying marker, in order. */
  function AnnotatedWith(ms: seq<MethodDesc>, marker: Marker): (r: seq<MethodDesc>)
    ensures forall m :: m in r <==> m in ms && Marked(m, marker)
    ensures |r| == |MarkedIndexes(ms, marker)|
  {
    if ms == [] then []
    else
      var init := ms[..|ms| - 1];
      var r := AnnotatedWith(init, marker);
      MarkedIndexesSnoc(ms, marker);
      assert ms == init + [ms[|ms| - 1]];
      if Marked(ms[|ms| - 1], marker) then r + [ms[|ms| - 1]] else r
  }

  /** One more method adds its index to the marked ones exactly when it is marked. */
  lemma MarkedIndexesSnoc(ms: seq<MethodDesc>, marker: Marker)
    requires ms != []
    ensures |MarkedIndexes(ms, marker)| ==
      |MarkedIndexes(ms[..|ms| - 1], marker)| + (if Marked(ms[|ms| - 1], marker) then 1 else 0)
  {
    var last := |ms| - 1;
    var before := MarkedIndexes(ms[..last], marker);
    var extra: set<int> := if Marked(ms[last], marker) then {last} else {};
    MarkedIndexesSplit(ms, marker);
    assert last !in before;
    assert |before + extra| == |before| + |extra|;
  }

  lemma MarkedIndexesSplit(ms: seq<MethodDesc>, marker: Marker)
    requires ms != []
    ensures MarkedIndexes(ms, marker) ==
      MarkedIndexes(ms[..|ms| - 1], marker) + (if Marked(ms[|ms| - 1], marker) then {|ms| - 1} else {})
  {
    var init := ms[..|ms| - 1];
    var last := |ms| - 1;
    var both := MarkedIndexes(init, marker) + (if Marked(ms[last], marker) then {last} else {});
    forall k | k in MarkedIndexes(ms, marker)
      ensures k in both
    {
      if k < last {
        assert init[k] == ms[k];
      }
    }
    forall k | k in both
      ensures k in MarkedIndexes(ms, marker)
    {
      if k < last {
        assert init[k] == ms[k];
      }
    }
  }

  // ------------------------------------------------------------ parameters

  function CountUnannotated(ps: seq<Param>): nat
  {
    if ps == [] then 0 else CountUnannotated(ps[..|ps| - 1]) + (if ps[|ps| - 1].annotations == [] then 1 else 0)
  }

  /**
   * What validParameters accepts: every annotation is @Fact, at most one
   * parameter is unannotated, and that one is of a Facts type.
   */
  predicate ParametersWellFormed(ps: seq<Param>)
  {
    (forall k, a :: 0 <= k < |ps| && a in ps[k].annotations ==> a.FactAnnotation?) &&
    (forall i, j :: 0 <= i < j < |ps| ==> ps[i].annotations != [] || ps[j].annotations != []) &&
    (forall k :: 0 <= k < |ps| && ps[k].annotations == [] ==> ps[k].isFactsType)
  }

  lemma {:induction false} CountPositive(ps: seq<Param>, i: int)
    requires 0 <= i < |ps| && ps[i].annotations == []
    ensures CountUnannotated(ps) >= 1
    decreases |ps|
  {
    if i < |ps| - 1 {
      CountPositive(ps[..|ps| - 1], i);
    }
  }

  lemma {:induction false} CountTwo(ps: seq<Param>, i: int, j: int)
    requires 0 <= i < j < |ps| && ps[i].annotations == [] && ps[j].annotations == []
    ensures CountUnannotated(ps) >= 2
    decreases |ps|
  {
    if j == |ps| - 1 {
      CountPositive(ps[..|ps| - 1], i);
    } else {
      CountTwo(ps[..|ps| - 1], i, j);
    }
  }

  /** getNotAnnotatedParameter: the first parameter without annotations. */
  method GetNotAnnotatedParameter(ps: seq<Param>) returns (r: int)
    ensures -1 <= r < |ps|
    ensures r >= 0 ==> ps[r].annotations == [] && forall k :: 0 <= k < r ==> ps[k].annotations != []
    ensures r == -1 ==> forall k :: 0 <= k < |ps| ==> ps[k].annotations != []
  {
    var i := 0;
    while i < |ps|
      invariant 0 <= i <= |ps|
      invariant forall k :: 0 <= k < i ==> ps[k].annotations != []
    {
      if ps[i].annotations == [] {
        return i;
      }
      i := i + 1;
    }
    return -1;
  }

  /** validParameters. */
  method ValidParameters(m: MethodDesc) returns (b: bool)
    ensures b <==> ParametersWellFormed(m.params)
  {
    var ps := m.params;
    var notAnnotatedParameterCount := 0;
    var i := 0;
    while i < |ps|
      invariant 0 <= i <= |ps|
      invariant notAnnotatedParameterCount == CountUnannotated(ps[..i])
      invariant forall k, a :: 0 <= k < i && a in ps[k].annotations ==> a.FactAnnotation?
    {
      assert ps[..i + 1][..i] == ps[..i];
      if ps[i].annotations == [] {
        notAnnotatedParameterCount := notAnnotatedParameterCount + 1;
      } else {
        var j := 0;
        while j < |ps[i].annotations|
          invariant 0 <= j <= |ps[i].annotations|
          invariant forall a :: a in ps[i].annotations[..j] ==> a.FactAnnotation?
        {
          if !ps[i].annotations[j].FactAnnotation? {
            return false;
          }
          assert ps[i].annotations[..j + 1] == ps[i].annotations[..j] + [ps[i].annotations[j]];
          j := j + 1;
        }
        assert ps[i].annotations[..j] == ps[i].annotations;
      }
      i := i + 1;
    }
    assert ps[..i] == ps;
    if notAnnotatedParameterCount > 1 {
      assert !ParametersWellFormed(ps) by {
        if ParametersWellFormed(ps) {
          CountAtMostOne(ps);
        }
      }
      return false;
    }
    if notAnnotatedParameterCount == 1 {
      var k := GetNotAnnotatedParameter(ps);
      if k >= 0 {
        forall j | 0 <= j < |ps| && j != k
          ensures ps[j].annotations != []
        {
          if ps[j].annotations == [] {
            if j < k { } else { CountTwo(ps, k, j); }
          }
        }
        return ps[k].isFactsType;
      }
    }
    forall k | 0 <= k < |ps|
      ensures ps[k].annotations != []
    {
      if ps[k].annotations == [] {
        CountPositive(ps, k);
      }
    }
    return true;
  }

  lemma {:induction false} CountAtMostOne(ps: seq<Param>)
    requires forall i, j :: 0 <= i < j < |ps| ==> ps[i].annotations != [] || ps[j].annotations != []
    ensures CountUnannotated(ps) <= 1
    decreases |ps|
  {
    if ps != [] {
      var init := ps[..|ps| - 1];
      CountAtMostOne(init);
      if ps[|ps| - 1].annotations == [] {
        CountZero(init);
      }
    }
  }

  lemma {:induction false} CountZero(ps: seq<Param>)
    requires forall k :: 0 <= k < |ps| ==> ps[k].annotations != []
    ensures CountUnannotated(ps) == 0
    decreases |ps|
  {
    if ps != [] {
      CountZero(ps[..|ps| - 1]);
    }
  }

  // ------------------------------------------------------------ methods

  predicate IsConditionMethodWellDefined(m: MethodDesc)
  {
    m.isPublic && m.returnType == BooleanType && ParametersWellFormed(m.params)
  }

  predicate IsActionMethodWellDefined(m: MethodDesc)
  {
    m.isPublic && m.returnType == VoidType && ParametersWellFormed(m.params)
  }

  predicate IsPriorityMethodWellDefined(m: MethodDesc)
  {
    m.isPublic && m.returnType == IntType && m.params == []
  }

  predicate IsRuleClassWellDefined(c: RuleClass)
  {
    c.ruleAnnotation.Some?
  }

  /** checkConditionMethod passes: exactly one @Condition method, well defined. */
  predicate ConditionCheckPasses(c: RuleClass)
  {
    var ms := AnnotatedWith(c.methods, ConditionMarker);
    |ms| == 1 && IsConditionMethodWellDefined(ms[0])
  }

  /** checkActionMethods passes: at least one @Action method, all well defined. */
  predicate ActionsCheckPasses(c: RuleClass)
  {
    var ms := AnnotatedWith(c.methods, ActionMarker);
    |ms| >= 1 && forall m :: m in ms ==> IsActionMethodWellDefined(m)
  }

  /** checkPriorityMethod passes: no @Priority method, or exactly one, well defined. */
  predicate PriorityCheckPasses(c: RuleClass)
  {
    var ms := AnnotatedWith(c.methods, PriorityMarker);
    |ms| == 0 || (|ms| == 1 && IsPriorityMethodWellDefined(ms[0]))
  }

  datatype Check = RuleClassCheck | ConditionCheck | ActionsCheck | PriorityCheck

  /** The check of validateRuleDefinition that throws, taken in its order. */
  function FailingCheck(c: RuleClass): (r: Option<Check>)
    ensures r.None? <==> IsRuleClassWellDefined(c) && ConditionCheckPasses(c) && ActionsCheckPasses(c) && PriorityCheckPasses(c)
    ensures r == Some(RuleClassCheck) <==> !IsRuleClassWellDefined(c)
    ensures r == Some(ConditionCheck) <==> IsRuleClassWellDefined(c) && !ConditionCheckPasses(c)
    ensures r == Some(ActionsCheck) <==> IsRuleClassWellDefined(c) && ConditionCheckPasses(c) && !ActionsCheckPasses(c)
    ensures r == Some(PriorityCheck) <==>
      IsRuleClassWellDefined(c) && ConditionCheckPasses(c) && ActionsCheckPasses(c) && !PriorityCheckPasses(c)
  {
    if !IsRuleClassWellDefined(c) then Some(RuleClassCheck)
    else if !ConditionCheckPasses(c) then Some(ConditionCheck)
    else if !ActionsCheckPasses(c) then Some(ActionsCheck)
    else if !PriorityCheckPasses(c) then Some(PriorityCheck)
    else None
  }

  /** validateRuleDefinition: IllegalArgumentException from the first failing check. */
  function ValidateRuleDefinition(c: RuleClass): (r: Outcome<()>)
    ensures r.Thrown? <==> FailingCheck(c).Some?
    ensures r.Thrown? ==> r.error == IllegalArgument
  {
    if FailingCheck(c).Some? then Thrown(IllegalArgument) else Ok(())
  }

  /**
   * The checks restated over the class's methods: annotated with @Rule,
   * exactly one @Condition method, at least one @Action method, at most one
   * @Priority method, each of them well defined.
   */
  predicate WellDefinedRule(c: RuleClass)
  {
    var ms := c.methods;
    c.ruleAnnotation.Some? &&
    |MarkedIndexes(ms, ConditionMarker)| == 1 &&
    |MarkedIndexes(ms, ActionMarker)| >= 1 &&
    |MarkedIndexes(ms, PriorityMarker)| <= 1 &&
    (forall k :: 0 <= k < |ms| && ms[k].isCondition ==> IsConditionMethodWellDefined(ms[k])) &&
    (forall k :: 0 <= k < |ms| && ms[k].action.Some? ==> IsActionMethodWellDefined(ms[k])) &&
    (forall k :: 0 <= k < |ms| && ms[k].isPriority ==> IsPriorityMethodWellDefined(ms[k]))
  }

  /** validateRuleDefinition accepts exactly the well-defined rule classes. */
  lemma ValidationAcceptsWellDefined(c: RuleClass)
    ensures ValidateRuleDefinition(c).Ok? <==> WellDefinedRule(c)
  {
    ConditionCheckMeans(c);
    ActionsCheckMeans(c);
    PriorityCheckMeans(c);
  }

  /** With exactly one method carrying marker, every marked method is that one. */
  lemma SingleMarked(ms: seq<MethodDesc>, marker: Marker)
    requires |AnnotatedWith(ms, marker)| == 1
    ensures forall k :: 0 <= k < |ms| && Marked(ms[k], marker) ==> ms[k] == AnnotatedWith(ms, marker)[0]
  {
    var r := AnnotatedWith(ms, marker);
    forall k | 0 <= k < |ms| && Marked(ms[k], marker)
      ensures ms[k] == r[0]
    {
      assert ms[k] in r;
    }
  }

  lemma ConditionCheckMeans(c: RuleClass)
    ensures ConditionCheckPasses(c) <==>
      |MarkedIndexes(c.methods, ConditionMarker)| == 1 &&
      forall k :: 0 <= k < |c.methods| && c.methods[k].isCondition ==> IsConditionMethodWellDefined(c.methods[k])
  {
    var ms := c.methods;
    var conds := AnnotatedWith(ms, ConditionMarker);
    if |conds| == 1 {
      SingleMarked(ms, ConditionMarker);
      assert conds[0] in conds;
      var k :| 0 <= k < |ms| && ms[k] == conds[0];
    }
  }

  lemma ActionsCheckMeans(c: RuleClass)
    ensures ActionsCheckPasses(c) <==>
      |MarkedIndexes(c.methods, ActionMarker)| >= 1 &&
      forall k :: 0 <= k < |c.methods| && c.methods[k].action.Some? ==> IsActionMethodWellDefined(c.methods[k])
  {
    var ms := c.methods;
    var acts := AnnotatedWith(ms, ActionMarker);
    if forall k :: 0 <= k < |ms| && ms[k].action.Some? ==> IsActionMethodWellDefined(ms[k]) {
      forall m | m in acts
        ensures IsActionMethodWellDefined(m)
      {
        var k :| 0 <= k < |ms| && ms[k] == m;
      }
    }
    if forall m :: m in acts ==> IsActionMethodWellDefined(m) {
      forall k | 0 <= k < |ms| && ms[k].action.Some?
        ensures IsActionMethodWellDefined(ms[k])
      {
        assert ms[k] in acts;
      }
    }
  }

  lemma PriorityCheckMeans(c: RuleClass)
    ensures PriorityCheckPasses(c) <==>
      |MarkedIndexes(c.methods, PriorityMarker)| <= 1 &&
      forall k :: 0 <= k < |c.methods| && c.methods[k].isPriority ==> IsPriorityMethodWellDefined(c.methods[k])
  {
    var ms := c.methods;
    var prios := AnnotatedWith(ms, PriorityMarker);
    if |prios| == 1 {
      SingleMarked(ms, PriorityMarker);
      assert prios[0] in prios;
      var k :| 0 <= k < |ms| && ms[k] == prios[0];
    }
    forall k | 0 <= k < |ms| && ms[k].isPriority
      ensures |prios| >= 1
    {
      assert ms[k] in prios;
    }
  }
}
