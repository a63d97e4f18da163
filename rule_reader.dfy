/**
 * Reading rule definitions from maps of rule properties (the form a YAML or
 * JSON rule descriptor is loaded into): defaults for the missing name,
 * description and priority, the checks that separate simple from
 * composite rules, and the composing rules read recursively.
 */
module RuleReader {
  import opened Lang
  import opened RuleOrder

  /** The properties of one rule as loaded; None is an absent key (or null). */
  datatype RuleMap = RuleMap(
    name: Option<string>,
    description: Option<string>,
    priority: Option<int>,
    compositeRuleType: Option<string>,
    condition: Option<string>,
    actions: Option<seq<string>>,
    composingRules: MapList)

  /** The composingRules entry: absent (or null), or a list of maps. */
  datatype MapList = Null | List(items: seq<RuleMap>)

  /** A rule definition; composingRules is empty and compositeRuleType null unless set. */
  datatype RuleDefinition = RuleDefinition(
    name: string,
    description: string,
    priority: int,
    condition: Option<string>,
    actions: Option<seq<string>>,
    composingRules: seq<RuleDefinition>,
    compositeRuleType: Option<string>)

  /** A composing rule is smaller than the rule it composes. */
  lemma ChildSmaller(m: RuleMap, i: int)
    requires m.composingRules.List? && 0 <= i < |m.composingRules.items|
    ensures m.composingRules.items[i] < m
  {
    var rules := m.composingRules.items;
    assert rules[i] in rules;

  }

  /** A list that is null or empty. */
  predicate Blank<T>(xs: Option<seq<T>>)
  {
    xs.None? || xs.value == []
  }

  predicate BlankList(xs: MapList)
  {
    xs.Null? || xs.items == []
  }

  /** The checks of one map, before its composing rules are read. */
  predicate OwnError(m: RuleMap)
  {
    (m.condition.None? && m.compositeRuleType.None?) ||
    (Blank(m.actions) && m.compositeRuleType.None?) ||
    (!BlankList(m.composingRules) && m.compositeRuleType.None?) ||
    (BlankList(m.composingRules) && m.compositeRuleType.Some?)
  }

  /** The first exception among the outcomes, else all their values. */
  function Collect<T>(os: seq<Outcome<T>>): (r: Outcome<seq<T>>)
    ensures r.Ok? <==> forall i :: 0 <= i < |os| ==> os[i].Ok?
    ensures r.Ok? ==> |r.value| == |os| && forall i :: 0 <= i < |os| ==> r.value[i] == os[i].value
    ensures r.Thrown? ==>
      exists i :: 0 <= i < |os| && os[i] == Thrown(r.error) && forall j :: 0 <= j < i ==> os[j].Ok?
  {
    if os == [] then Ok([])
    else if os[0].Thrown? then Thrown(os[0].error)
    else
      var rest := Collect(os[1..]);
      assert forall i :: 0 < i < |os| ==> os[i] == os[1..][i - 1];
      if rest.Thrown? then
        var i :| 0 <= i < |os[1..]| && os[1..][i] == Thrown(rest.error) && forall j :: 0 <= j < i ==> os[1..][j].Ok?;
        assert os[i + 1] == os[1..][i];
        Thrown(rest.error)
      else Ok([os[0].value] + rest.value)
  }

  /**
   * createRuleDefinition: defaults, then the checks in the source's order
   * (all IllegalArgumentException), then the composing rules in order, the
   * first failing one failing the whole.
   */
  function CreateRuleDefinition(m: RuleMap): (r: Outcome<RuleDefinition>)
    decreases m
    ensures OwnError(m) ==> r == Thrown(IllegalArgument)
    ensures r.Ok? ==>
      r.value.name == (if m.name.Some? then m.name.value else DEFAULT_NAME) &&
      r.value.description == (if m.description.Some? then m.description.value else DEFAULT_DESCRIPTION) &&
      r.value.priority == (if m.priority.Some? then m.priority.value else DEFAULT_PRIORITY) &&
      r.value.condition == m.condition && r.value.actions == m.actions
    ensures !OwnError(m) && m.composingRules.Null? ==>
      r.Ok? && r.value.composingRules == [] && r.value.compositeRuleType.None?
    ensures r.Thrown? ==> r.error == IllegalArgument
  {
    var name := if m.name.Some? then m.name.value else DEFAULT_NAME;
    var description := if m.description.Some? then m.description.value else DEFAULT_DESCRIPTION;
    var priority := if m.priority.Some? then m.priority.value else DEFAULT_PRIORITY;
    var definition := RuleDefinition(name, description, priority, None, None, [], None);
    if m.condition.None? && m.compositeRuleType.None? then Thrown(IllegalArgument)
    else
      var definition := definition.(condition := m.condition);
      if Blank(m.actions) && m.compositeRuleType.None? then Thrown(IllegalArgument)
      else
        var definition := definition.(actions := m.actions);
        if !BlankList(m.composingRules) && m.compositeRuleType.None? then Thrown(IllegalArgument)
        else if BlankList(m.composingRules) && m.compositeRuleType.Some? then Thrown(IllegalArgument)
        else if m.composingRules.List? then
          var rules := m.composingRules.items;
          var children := seq(|rules|, i requires 0 <= i < |rules| => (ChildSmaller(m, i); CreateRuleDefinition(rules[i])));
          match Collect(children)
          case Thrown(e) => Thrown(e)
          case Ok(defs) => Ok(definition.(composingRules := defs, compositeRuleType := m.compositeRuleType))
        else Ok(definition)
  }

  /**
   * A composite rule: read exactly when each composing rule is, with the
   * composing definitions in order and the composite type recorded.
   */
  lemma ComposedRules(m: RuleMap)
    requires !OwnError(m) && m.composingRules.List?
    ensures var r := CreateRuleDefinition(m);
      (r.Ok? <==> forall i :: 0 <= i < |m.composingRules.items| ==> (ChildSmaller(m, i); CreateRuleDefinition(m.composingRules.items[i]).Ok?)) &&
      (r.Ok? ==>
        r.value.compositeRuleType == m.compositeRuleType &&
        |r.value.composingRules| == |m.composingRules.items| &&
        forall i :: 0 <= i < |m.composingRules.items| ==>
          (ChildSmaller(m, i); CreateRuleDefinition(m.composingRules.items[i]) == Ok(r.value.composingRules[i])))
  {
    var rules := m.composingRules.items;
    var children := seq(|rules|, i requires 0 <= i < |rules| => (ChildSmaller(m, i); CreateRuleDefinition(rules[i])));
    assert forall i :: 0 <= i < |rules| ==> children[i] == CreateRuleDefinition(rules[i]);
    var c := Collect(children);
    assert CreateRuleDefinition(m).Ok? <==> c.Ok?;
  }

  /** A map every check accepts, and so are all its composing rules, at every depth. */
  predicate WellFormed(m: RuleMap)
    decreases m
  {
    !OwnError(m) &&
    (m.composingRules.List? ==>
      forall i :: 0 <= i < |m.composingRules.items| ==> (ChildSmaller(m, i); WellFormed(m.composingRules.items[i])))
  }

  /** A map is read without an exception exactly when it and all its composing rules pass the checks. */
  lemma {:induction false} CreateOkIffWellFormed(m: RuleMap)
    decreases m
    ensures CreateRuleDefinition(m).Ok? <==> WellFormed(m)
  {
    if !OwnError(m) && m.composingRules.List? {
      ComposedRules(m);
      var rules := m.composingRules.items;
      forall i | 0 <= i < |rules|
        ensures CreateRuleDefinition(rules[i]).Ok? <==> WellFormed(rules[i])
      {
        ChildSmaller(m, i);
        CreateOkIffWellFormed(rules[i]);
      }
    }
  }

  /** A rule read from a well-formed map is composite exactly when it has composing rules. */
  lemma CompositeIffComposing(m: RuleMap)
    requires CreateRuleDefinition(m).Ok?
    ensures CreateRuleDefinition(m).value.compositeRuleType.Some? <==> CreateRuleDefinition(m).value.composingRules != []
  {
    var d := CreateRuleDefinition(m).value;
    if m.composingRules.List? && m.composingRules.items != [] {
      assert |d.composingRules| > 0;
    }
  }

  /** f applied to each element, in order. */
  function Mapped<M, T>(xs: seq<M>, f: M -> Outcome<T>): (r: seq<Outcome<T>>)
    ensures |r| == |xs| && forall i :: 0 <= i < |xs| ==> r[i] == f(xs[i])
  {
    if xs == [] then [] else [f(xs[0])] + Mapped(xs[1..], f)
  }

  /** read: one definition per loaded map, in order; the first failing map fails the read. */
  method Read(maps: seq<RuleMap>) returns (r: Outcome<seq<RuleDefinition>>)
    ensures r == Collect(Mapped(maps, CreateRuleDefinition))
    ensures r.Ok? ==> |r.value| == |maps| && forall i :: 0 <= i < |maps| ==> Ok(r.value[i]) == CreateRuleDefinition(maps[i])
  {
    r := CollectEach(maps, CreateRuleDefinition);
  }

  /** The loop of read: apply f element by element, stopping at the first exception. */
  method CollectEach<M, T>(xs: seq<M>, f: M -> Outcome<T>) returns (r: Outcome<seq<T>>)
    ensures r == Collect(Mapped(xs, f))
  {
    var values: seq<T> := [];
    var i := 0;
    while i < |xs|
      invariant 0 <= i <= |xs| && |values| == i
      invariant forall j :: 0 <= j < i ==> f(xs[j]) == Ok(values[j])
    {
      var outcome := f(xs[i]);
      if outcome.Thrown? {
        CollectFirstThrown(Mapped(xs, f), i);
        return Thrown(outcome.error);
      }
      values := values + [outcome.value];
      i := i + 1;
    }
    CollectAllOk(Mapped(xs, f), values);
    r := Ok(values);
  }

  /** Collect stops at the first exception. */
  lemma CollectFirstThrown<T>(os: seq<Outcome<T>>, i: int)
    requires 0 <= i < |os| && os[i].Thrown? && forall j :: 0 <= j < i ==> os[j].Ok?
    ensures Collect(os) == Thrown(os[i].error)
  {
    var k :| 0 <= k < |os| && os[k] == Thrown(Collect(os).error) && forall j :: 0 <= j < k ==> os[j].Ok?;
    assert k == i;
  }

  /** Without exceptions Collect gathers exactly the values. */
  lemma CollectAllOk<T>(os: seq<Outcome<T>>, vs: seq<T>)
    requires |vs| == |os| && forall j :: 0 <= j < |os| ==> os[j] == Ok(vs[j])
    ensures Collect(os) == Ok(vs)
  {
    assert Collect(os).value == vs;
  }
}
