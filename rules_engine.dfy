/**
 * DefaultRulesEngine: fires the rules of a rule set in their iteration
 * order under the engine parameters, or checks them without executing.
 *
 * The listeners' beforeEvaluate veto, each rule's evaluate and each rule's
 * execute are user code; they are the parameters `accepts`, `evaluate` and
 * `execute`, indexed by the rule's position.  In one firing each rule is
 * evaluated and executed at most once, so one such triple describes any
 * single run, whatever the rules do to the facts.  What a firing does is
 * described by its trace: one step per rule it reached.
 */
module RulesEngine {
  import opened Lang
  import opened RuleOrder
  import opened RuleFacts

  /** RulesEngineParameters. */
  datatype Parameters = Parameters(
    priorityThreshold: int,
    skipOnFirstAppliedRule: bool,
    skipOnFirstFailedRule: bool,
    skipOnFirstNonTriggeredRule: bool)

  /** What happened to one rule. */
  datatype Status =
    | Vetoed            // a listener's beforeEvaluate returned false
    | EvaluationError   // evaluate threw
    | NotTriggered      // evaluate returned false
    | Applied           // evaluate returned true, execute completed
    | Failed            // evaluate returned true, execute threw

  datatype Step = Step(index: int, status: Status)

  /** Processing stops after this step under these parameters. */
  predicate Stops(p: Parameters, st: Status)
  {
    match st
    case Vetoed => false
    case EvaluationError => p.skipOnFirstNonTriggeredRule
    case NotTriggered => p.skipOnFirstNonTriggeredRule
    case Applied => p.skipOnFirstAppliedRule
    case Failed => p.skipOnFirstFailedRule
  }

  /** The status of rule i when it is reached. */
  function StatusOf(i: int, accepts: int -> bool, evaluate: int -> Outcome<bool>, execute: int -> Outcome<()>): (st: Status)
    ensures st == Vetoed <==> !accepts(i)
    ensures st in {Applied, Failed} <==> accepts(i) && evaluate(i) == Ok(true)
    ensures st == Applied <==> accepts(i) && evaluate(i) == Ok(true) && execute(i).Ok?
    ensures st == EvaluationError <==> accepts(i) && evaluate(i).Thrown?
  {
    if !accepts(i) then Vetoed
    else match evaluate(i)
      case Thrown(_) => EvaluationError
      case Ok(false) => NotTriggered
      case Ok(true) => if execute(i).Ok? then Applied else Failed
  }

  /**
   * The steps of doFire from rule i on: a rule above the priority threshold
   * ends processing before it is evaluated; otherwise the rule gets its
   * status, and processing goes on unless a skip parameter stops it.
   */
  function FireFrom(rules: seq<RuleView>, p: Parameters, accepts: int -> bool, evaluate: int -> Outcome<bool>,
                    execute: int -> Outcome<()>, i: nat): (trace: seq<Step>)
    decreases |rules| - i
    ensures i + |trace| <= |rules| || (i > |rules| && trace == [])
  {
    if i >= |rules| || rules[i].priority > p.priorityThreshold then []
    else
      var st := StatusOf(i, accepts, evaluate, execute);
      var rest := if Stops(p, st) then [] else FireFrom(rules, p, accepts, evaluate, execute, i + 1);
      [Step(i, st)] + rest
  }

  /** What doFire records from rule i on is a run in the sense of FiredFrom. */
  lemma {:induction false} FireFromSteps(rules: seq<RuleView>, p: Parameters, accepts: int -> bool,
                                         evaluate: int -> Outcome<bool>, execute: int -> Outcome<()>, i: nat)
    decreases |rules| - i
    ensures FiredFrom(rules, p, accepts, evaluate, execute, i, FireFrom(rules, p, accepts, evaluate, execute, i))
  {
    if i < |rules| && rules[i].priority <= p.priorityThreshold {
      var st := StatusOf(i, accepts, evaluate, execute);
      var rest := if Stops(p, st) then [] else FireFrom(rules, p, accepts, evaluate, execute, i + 1);
      FireFromSteps(rules, p, accepts, evaluate, execute, i + 1);
      FireCons(rules, p, accepts, evaluate, execute, i, rest, [Step(i, st)] + rest);
    }
  }

  /**
   * trace is a run of doFire from rule i: consecutive rules, each within the
   * threshold and with its status, and only the last one may stop processing.
   */
  ghost predicate FiredFrom(rules: seq<RuleView>, p: Parameters, accepts: int -> bool, evaluate: int -> Outcome<bool>,
                            execute: int -> Outcome<()>, i: nat, trace: seq<Step>)
  {
    (i + |trace| <= |rules| || (i > |rules| && trace == [])) &&
    (forall k :: 0 <= k < |trace| ==>
      trace[k] == Step(i + k, StatusOf(i + k, accepts, evaluate, execute)) &&
      rules[i + k].priority <= p.priorityThreshold) &&
    (forall k :: 0 <= k < |trace| - 1 ==> !Stops(p, trace[k].status))
  }

  /**
   * doFire stops only for a reason: the rules run out, the next rule is above
   * the priority threshold, or the last recorded status triggers a skip flag.
   * In particular processing goes on past a vetoed rule and past any status
   * no skip flag is set for.
   */
  lemma {:induction false} FireMaximal(rules: seq<RuleView>, p: Parameters, accepts: int -> bool,
                                       evaluate: int -> Outcome<bool>, execute: int -> Outcome<()>, i: nat)
    requires i <= |rules|
    decreases |rules| - i
    ensures var t := FireFrom(rules, p, accepts, evaluate, execute, i);
      i + |t| == |rules| || rules[i + |t|].priority > p.priorityThreshold ||
      (t != [] && Stops(p, t[|t| - 1].status))
  {
    if i < |rules| && rules[i].priority <= p.priorityThreshold {
      var st := StatusOf(i, accepts, evaluate, execute);
      if !Stops(p, st) {
        FireMaximal(rules, p, accepts, evaluate, execute, i + 1);
        var rest := FireFrom(rules, p, accepts, evaluate, execute, i + 1);
        var t := [Step(i, st)] + rest;
        assert FireFrom(rules, p, accepts, evaluate, execute, i) == t;
        assert rest != [] ==> t[|t| - 1] == rest[|rest| - 1];
      }
    }
  }

  /** Prepending rule i's step to the steps after it keeps FireFrom's guarantees. */
  lemma FireCons(rules: seq<RuleView>, p: Parameters, accepts: int -> bool, evaluate: int -> Outcome<bool>,
                 execute: int -> Outcome<()>, i: nat, rest: seq<Step>, trace: seq<Step>)
    requires i < |rules| && rules[i].priority <= p.priorityThreshold
    requires Stops(p, StatusOf(i, accepts, evaluate, execute)) ==> rest == []
    requires FiredFrom(rules, p, accepts, evaluate, execute, i + 1, rest)
    requires trace == [Step(i, StatusOf(i, accepts, evaluate, execute))] + rest
    ensures FiredFrom(rules, p, accepts, evaluate, execute, i, trace)
  {
    assert trace[0] == Step(i + 0, StatusOf(i + 0, accepts, evaluate, execute));
    forall k | 0 < k < |trace|
      ensures trace[k] == Step(i + k, StatusOf(i + k, accepts, evaluate, execute))
      ensures rules[i + k].priority <= p.priorityThreshold
    {
      assert trace[k] == rest[k - 1];
      assert i + 1 + (k - 1) == i + k;
    }
    forall k | 0 <= k < |trace| - 1
      ensures !Stops(p, trace[k].status)
    {
      if k == 0 {
        assert rest != [];
      } else {
        assert trace[k] == rest[k - 1];
      }
    }
  }

  /** doFire: nothing on an empty rule set, else the steps from the first rule. */
  function Fire(rules: seq<RuleView>, p: Parameters, accepts: int -> bool, evaluate: int -> Outcome<bool>,
                execute: int -> Outcome<()>): (trace: seq<Step>)
    ensures FiredFrom(rules, p, accepts, evaluate, execute, 0, trace)
    ensures |trace| == |rules| || rules[|trace|].priority > p.priorityThreshold ||
      (trace != [] && Stops(p, trace[|trace| - 1].status))
  {
    FireFromSteps(rules, p, accepts, evaluate, execute, 0);
    FireMaximal(rules, p, accepts, evaluate, execute, 0);
    if rules == [] then [] else FireFrom(rules, p, accepts, evaluate, execute, 0)
  }

  /** One step of doFire, for a rule within the threshold: its step is recorded, then processing stops or goes on. */
  lemma FireAdvance(rules: seq<RuleView>, p: Parameters, accepts: int -> bool, evaluate: int -> Outcome<bool>,
                    execute: int -> Outcome<()>, i: nat, trace: seq<Step>, whole: seq<Step>)
    requires i < |rules| && rules[i].priority <= p.priorityThreshold
    requires trace + FireFrom(rules, p, accepts, evaluate, execute, i) == whole
    ensures var st := StatusOf(i, accepts, evaluate, execute);
      (Stops(p, st) ==> trace + [Step(i, st)] == whole) &&
      (!Stops(p, st) ==> (trace + [Step(i, st)]) + FireFrom(rules, p, accepts, evaluate, execute, i + 1) == whole)
  {
  }

  /** doFire, statement by statement. */
  method DoFire(rules: seq<RuleView>, p: Parameters, accepts: int -> bool, evaluate: int -> Outcome<bool>,
                execute: int -> Outcome<()>) returns (trace: seq<Step>)
    ensures trace == Fire(rules, p, accepts, evaluate, execute)
  {
    trace := [];
    if rules == [] {
      return;
    }
    ghost var whole := FireFrom(rules, p, accepts, evaluate, execute, 0);
    var i := 0;
    while i < |rules|
      invariant 0 <= i <= |rules|
      invariant trace + FireFrom(rules, p, accepts, evaluate, execute, i) == whole
    {
      var priority := rules[i].priority;
      if priority > p.priorityThreshold {
        break;
      }
      FireAdvance(rules, p, accepts, evaluate, execute, i, trace, whole);
      if !accepts(i) {
        trace := trace + [Step(i, Vetoed)];
        i := i + 1;
        continue;
      }
      var evaluationResult := false;
      var outcome := evaluate(i);
      if outcome.Thrown? {
        if p.skipOnFirstNonTriggeredRule {
          trace := trace + [Step(i, EvaluationError)];
          return;
        }
      } else {
        evaluationResult := outcome.value;
      }
      if evaluationResult {
        var done := execute(i);
        if done.Ok? {
          trace := trace + [Step(i, Applied)];
          if p.skipOnFirstAppliedRule {
            return;
          }
        } else {
          trace := trace + [Step(i, Failed)];
          if p.skipOnFirstFailedRule {
            return;
          }
        }
      } else {
        trace := trace + [Step(i, if outcome.Thrown? then EvaluationError else NotTriggered)];
        if p.skipOnFirstNonTriggeredRule {
          return;
        }
      }
      i := i + 1;
    }
  }

  /** Processing never reaches a rule beyond one whose priority exceeds the threshold. */
  lemma {:induction false} ThresholdStops(rules: seq<RuleView>, p: Parameters, accepts: int -> bool,
                                          evaluate: int -> Outcome<bool>, execute: int -> Outcome<()>, i: nat, j: int)
    requires i <= j < |rules| && rules[j].priority > p.priorityThreshold
    decreases |rules| - i
    ensures |FireFrom(rules, p, accepts, evaluate, execute, i)| <= j - i
  {
    if i < j && rules[i].priority <= p.priorityThreshold {
      ThresholdStops(rules, p, accepts, evaluate, execute, i + 1, j);
    }
  }

  /** With no skip parameter and every rule under the threshold, every rule is reached. */
  lemma {:induction false} FireReachesAll(rules: seq<RuleView>, p: Parameters, accepts: int -> bool,
                                          evaluate: int -> Outcome<bool>, execute: int -> Outcome<()>, i: nat)
    requires i <= |rules|
    requires !p.skipOnFirstAppliedRule && !p.skipOnFirstFailedRule && !p.skipOnFirstNonTriggeredRule
    requires forall k :: i <= k < |rules| ==> rules[k].priority <= p.priorityThreshold
    decreases |rules| - i
    ensures |FireFrom(rules, p, accepts, evaluate, execute, i)| == |rules| - i
  {
    if i < |rules| {
      FireReachesAll(rules, p, accepts, evaluate, execute, i + 1);
    }
  }

  /** fire: NullPointerException for null rules or facts, else doFire. */
  method FireRules(rules: Option<seq<RuleView>>, facts: Option<seq<Fact>>, p: Parameters, accepts: int -> bool,
                   evaluate: int -> Outcome<bool>, execute: int -> Outcome<()>) returns (r: Outcome<seq<Step>>)
    ensures rules.None? || facts.None? <==> r == Thrown(NullPointer)
    ensures rules.Some? && facts.Some? ==> r == Ok(Fire(rules.value, p, accepts, evaluate, execute))
  {
    if rules.None? || facts.None? {
      return Thrown(NullPointer);
    }
    var trace := DoFire(rules.value, p, accepts, evaluate, execute);
    return Ok(trace);
  }

  /**
   * doCheck over the first n rules: each rule no listener vetoes is mapped
   * to its evaluation; an exception from evaluate propagates.
   */
  function Checked(rules: seq<RuleView>, accepts: int -> bool, evaluate: int -> Outcome<bool>, n: nat): (r: Outcome<map<RuleView, bool>>)
    requires n <= |rules|
    ensures r.Ok? ==> forall x :: x in r.value ==> x in rules[..n]
    ensures r.Thrown? ==> exists k :: 0 <= k < n && accepts(k) && evaluate(k) == Thrown(r.error)
  {
    if n == 0 then Ok(map[])
    else
      assert rules[..n] == rules[..n - 1] + [rules[n - 1]];
      match Checked(rules, accepts, evaluate, n - 1)
      case Thrown(e) => Thrown(e)
      case Ok(result) =>
        if !accepts(n - 1) then Ok(result)
        else match evaluate(n - 1)
          case Thrown(e) => Thrown(e)
          case Ok(b) => Ok(result[rules[n - 1] := b])
  }

  /**
   * check's result: exactly the rules not vetoed, each with its evaluation;
   * it fails exactly when some rule not vetoed throws in evaluate.
   */
  lemma {:induction false} CheckedContents(rules: seq<RuleView>, accepts: int -> bool, evaluate: int -> Outcome<bool>, n: nat)
    requires n <= |rules| && Ascending(rules)
    ensures Checked(rules, accepts, evaluate, n).Ok? <==>
      forall k :: 0 <= k < n && accepts(k) ==> evaluate(k).Ok?
    ensures Checked(rules, accepts, evaluate, n).Ok? ==>
      var result := Checked(rules, accepts, evaluate, n).value;
      (forall x :: x in result ==> exists k :: 0 <= k < n && rules[k] == x) &&
      (forall k :: 0 <= k < n ==> (rules[k] in result <==> accepts(k))) &&
      (forall k :: 0 <= k < n && accepts(k) ==> result[rules[k]] == evaluate(k).value)
  {
    if n > 0 {
      CheckedContents(rules, accepts, evaluate, n - 1);
      forall k | 0 <= k < n - 1
        ensures rules[k] != rules[n - 1]
      {
        RuleOrderIsStrictTotal(rules[k], rules[n - 1], rules[n - 1]);
      }
      if Checked(rules, accepts, evaluate, n).Ok? {
        CheckedStep(rules, accepts, evaluate, n);
      }
    }
  }

  /** One more rule: the map of the first n rules from the map of the first n - 1. */
  lemma CheckedStep(rules: seq<RuleView>, accepts: int -> bool, evaluate: int -> Outcome<bool>, n: nat)
    requires 0 < n <= |rules| && Checked(rules, accepts, evaluate, n).Ok?
    requires forall k :: 0 <= k < n - 1 ==> rules[k] != rules[n - 1]
    requires forall k :: 0 <= k < n && accepts(k) ==> evaluate(k).Ok?
    requires Checked(rules, accepts, evaluate, n - 1).Ok? ==>
      var result := Checked(rules, accepts, evaluate, n - 1).value;
      (forall x :: x in result ==> exists k :: 0 <= k < n - 1 && rules[k] == x) &&
      (forall k :: 0 <= k < n - 1 ==> (rules[k] in result <==> accepts(k))) &&
      (forall k :: 0 <= k < n - 1 && accepts(k) ==> result[rules[k]] == evaluate(k).value)
    ensures
      var result := Checked(rules, accepts, evaluate, n).value;
      (forall x :: x in result ==> exists k :: 0 <= k < n && rules[k] == x) &&
      (forall k :: 0 <= k < n ==> (rules[k] in result <==> accepts(k))) &&
      (forall k :: 0 <= k < n && accepts(k) ==> result[rules[k]] == evaluate(k).value)
  {
    var c := Checked(rules, accepts, evaluate, n).value;
    var prev := Checked(rules, accepts, evaluate, n - 1).value;
    assert c == if accepts(n - 1) then prev[rules[n - 1] := evaluate(n - 1).value] else prev;
    forall x | x in c
      ensures exists k :: 0 <= k < n && rules[k] == x
    {
      if x in prev {
        var k :| 0 <= k < n - 1 && rules[k] == x;
        assert rules[k] == x;
      } else {
        assert rules[n - 1] == x;
      }
    }
  }

  /** doCheck, loop by loop. */
  method DoCheck(rules: seq<RuleView>, accepts: int -> bool, evaluate: int -> Outcome<bool>) returns (r: Outcome<map<RuleView, bool>>)
    ensures r == Checked(rules, accepts, evaluate, |rules|)
  {
    var result: map<RuleView, bool> := map[];
    var i := 0;
    while i < |rules|
      invariant 0 <= i <= |rules|
      invariant Checked(rules, accepts, evaluate, i) == Ok(result)
    {
      if accepts(i) {
        var b := evaluate(i);
        if b.Thrown? {
          ThrownPersists(rules, accepts, evaluate, i + 1);
          return Thrown(b.error);
        }
        result := result[rules[i] := b.value];
      }
      i := i + 1;
    }
    return Ok(result);
  }

  /** Once a prefix throws, the whole check throws the same. */
  lemma {:induction false} ThrownPersists(rules: seq<RuleView>, accepts: int -> bool, evaluate: int -> Outcome<bool>, n: nat)
    requires n <= |rules| && Checked(rules, accepts, evaluate, n).Thrown?
    decreases |rules| - n
    ensures Checked(rules, accepts, evaluate, |rules|) == Checked(rules, accepts, evaluate, n)
  {
    if n < |rules| {
      ThrownPersists(rules, accepts, evaluate, n + 1);
    }
  }

  /** check: NullPointerException for null rules or facts, else doCheck; nothing is executed. */
  method Check(rules: Option<seq<RuleView>>, facts: Option<seq<Fact>>, accepts: int -> bool,
               evaluate: int -> Outcome<bool>) returns (r: Outcome<map<RuleView, bool>>)
    ensures rules.None? || facts.None? ==> r == Thrown(NullPointer)
    ensures rules.Some? && facts.Some? ==> r == Checked(rules.value, accepts, evaluate, |rules.value|)
  {
    if rules.None? || facts.None? {
      return Thrown(NullPointer);
    }
    r := DoCheck(rules.value, accepts, evaluate);
  }
}
