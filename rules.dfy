/**
 * Rules: the rule set, a TreeSet ordered by the rules' natural order.  It
 * is kept here as a strictly ascending sequence; adding a rule whose key
 * (priority and name) is already present changes nothing, and removal
 * goes by key as TreeSet.remove does.
 */
module RuleSet {
  import opened Lang
  import opened RuleOrder
  import opened Proxies

  /** Some element of s compares equal to r. */
  predicate HasKey(s: seq<RuleView>, r: RuleView)
  {
    exists k :: 0 <= k < |s| && SameKey(s[k], r)
  }

  /** TreeSet.add: r in its place, unless an element with its key is there already. */
  function InsertRule(s: seq<RuleView>, r: RuleView): (res: seq<RuleView>)
    requires Ascending(s)
    ensures Ascending(res)
    ensures HasKey(s, r) ==> res == s
    ensures !HasKey(s, r) ==> multiset(res) == multiset(s) + multiset{r}
  {
    if s == [] then [r]
    else if SameKey(s[0], r) then s
    else if RuleLess(r, s[0]) then
      BelowAll(s, r);
      [r] + s
    else
      var rest := InsertRule(s[1..], r);
      assert s == [s[0]] + s[1..];
      HasKeyTail(s, r);
      HeadBelowRest(s, r, rest);
      ConsAscending(s[0], rest);
      [s[0]] + rest
  }

  /** Past a head of another key, the key is present in the sequence iff in its tail. */
  lemma HasKeyTail(s: seq<RuleView>, r: RuleView)
    requires s != [] && !SameKey(s[0], r)
    ensures HasKey(s, r) <==> HasKey(s[1..], r)
  {
    assert forall k :: 0 <= k < |s[1..]| ==> s[1..][k] == s[k + 1];
  }

  lemma ConsAscending(x: RuleView, rest: seq<RuleView>)
    requires Ascending(rest) && forall k :: 0 <= k < |rest| ==> RuleLess(x, rest[k])
    ensures Ascending([x] + rest)
  {
  }

  /** A rule below the first of an ascending sequence is below all of it and shares no key. */
  lemma BelowAll(s: seq<RuleView>, r: RuleView)
    requires Ascending(s) && s != [] && RuleLess(r, s[0])
    ensures forall k :: 0 <= k < |s| ==> RuleLess(r, s[k]) && !SameKey(s[k], r)
    ensures !HasKey(s, r)
  {
    forall k | 0 <= k < |s|
      ensures RuleLess(r, s[k]) && !SameKey(s[k], r)
    {
      RuleOrderIsStrictTotal(r, s[0], s[k]);
      RuleOrderIsStrictTotal(r, s[k], s[k]);
    }
  }

  /** The head of an ascending sequence is below everything inserted behind it. */
  lemma HeadBelowRest(s: seq<RuleView>, r: RuleView, rest: seq<RuleView>)
    requires Ascending(s) && s != [] && !SameKey(s[0], r) && !RuleLess(r, s[0])
    requires multiset(rest) <= multiset(s[1..]) + multiset{r}
    ensures forall k :: 0 <= k < |rest| ==> RuleLess(s[0], rest[k])
  {
    RuleOrderIsStrictTotal(s[0], r, r);
    forall k | 0 <= k < |rest|
      ensures RuleLess(s[0], rest[k])
    {
      assert rest[k] in multiset(rest);
      if rest[k] != r {
        assert rest[k] in multiset(s[1..]);
        var j :| 0 <= j < |s[1..]| && s[1..][j] == rest[k];
        assert s[j + 1] == rest[k];
      }
    }
  }

  /** What the tail of a rule sequence inherits from the whole. */
  lemma TailFacts(s: seq<RuleView>, r: RuleView)
    requires s != []
    ensures !HasKey(s, r) ==> !HasKey(s[1..], r)
    ensures Ascending(s) ==> forall x :: x in s[1..] ==> RuleLess(s[0], x)
  {
    if HasKey(s[1..], r) {
      var k :| 0 <= k < |s[1..]| && SameKey(s[1..][k], r);
      assert s[k + 1] == s[1..][k];
    }
    if Ascending(s) {
      forall x | x in s[1..]
        ensures RuleLess(s[0], x)
      {
        var j :| 0 <= j < |s[1..]| && s[1..][j] == x;
        assert s[j + 1] == x;
      }
    }
  }

  /** TreeSet.remove: every element with r's key goes (there is at most one). */
  function RemoveRule(s: seq<RuleView>, r: RuleView): (res: seq<RuleView>)
    ensures forall x :: x in res <==> x in s && !SameKey(x, r)
    ensures !HasKey(s, r) ==> res == s
    ensures Ascending(s) ==> Ascending(res)
  {
    if s == [] then []
    else
      var rest := RemoveRule(s[1..], r);
      assert s == [s[0]] + s[1..];
      TailFacts(s, r);
      if SameKey(s[0], r) then rest else [s[0]] + rest
  }

  /** Registering a new rule and unregistering it again leaves the set as it was. */
  lemma {:induction false} InsertThenRemove(s: seq<RuleView>, r: RuleView)
    requires Ascending(s) && !HasKey(s, r)
    ensures RemoveRule(InsertRule(s, r), r) == s
  {
    if s == [] {
      assert RemoveRule([r], r) == RemoveRule([r][1..], r);
    } else if RuleLess(r, s[0]) {
      var added := [r] + s;
      assert InsertRule(s, r) == added;
      assert added[1..] == s;
      assert RemoveRule(added, r) == RemoveRule(s, r);
    } else {
      assert !SameKey(s[0], r) by {
        assert SameKey(s[0], r) ==> HasKey(s, r);
      }
      HasKeyTail(s, r);
      assert Ascending(s[1..]) by {
        assert forall k :: 0 <= k < |s[1..]| ==> s[1..][k] == s[k + 1];
      }
      var tail := InsertRule(s[1..], r);
      var added := [s[0]] + tail;
      assert InsertRule(s, r) == added;
      assert added[1..] == tail;
      InsertThenRemove(s[1..], r);
      assert RemoveRule(added, r) == [s[0]] + RemoveRule(tail, r);
      assert [s[0]] + s[1..] == s;
    }
  }

  /** Registering a rule twice stores it once. */
  lemma InsertIdempotent(s: seq<RuleView>, r: RuleView)
    requires Ascending(s)
    ensures InsertRule(InsertRule(s, r), r) == InsertRule(s, r)
  {
    var once := InsertRule(s, r);
    if !HasKey(s, r) {
      assert r in multiset(once);
      var k :| 0 <= k < |once| && once[k] == r;
      assert SameKey(once[k], r);
    }
  }

  /** String.equalsIgnoreCase over ASCII letters. */
  function FoldCase(c: char): char
  {
    if 'A' <= c <= 'Z' then (c as int - 'A' as int + 'a' as int) as char else c
  }

  predicate EqualsIgnoreCase(a: string, b: string)
  {
    |a| == |b| && forall k :: 0 <= k < |a| ==> FoldCase(a[k]) == FoldCase(b[k])
  }

  /** findRuleByName: the first rule, in iteration order, whose name matches ignoring case. */
  function FindRuleByName(s: seq<RuleView>, ruleName: string): (r: Option<RuleView>)
    ensures r.None? <==> forall k :: 0 <= k < |s| ==> !EqualsIgnoreCase(s[k].name, ruleName)
    ensures r.Some? ==>
      exists k :: 0 <= k < |s| && s[k] == r.value && EqualsIgnoreCase(r.value.name, ruleName) &&
        forall j :: 0 <= j < k ==> !EqualsIgnoreCase(s[j].name, ruleName)
  {
    if s == [] then None
    else if EqualsIgnoreCase(s[0].name, ruleName) then Some(s[0])
    else
      var r := FindRuleByName(s[1..], ruleName);
      assert forall k :: 0 < k < |s| ==> s[k] == s[1..][k - 1];
      r
  }

  /**
   * register(Object...) as a fold: each object in turn is made a rule and
   * added; a null array or element throws NullPointerException and an
   * invalid annotated object IllegalArgumentException, keeping what the
   * earlier objects added.
   */
  function RegisterAll(s: seq<RuleView>, objs: seq<Option<RuleObject>>): (res: (seq<RuleView>, Outcome<()>))
    requires Ascending(s)
    ensures Ascending(res.0)
    decreases |objs|
  {
    if objs == [] then (s, Ok(()))
    else if objs[0].None? then (s, Thrown(NullPointer))
    else
      match AsRule(objs[0].value)
      case Thrown(e) => (s, Thrown(e))
      case Ok(rule) => RegisterAll(InsertRule(s, rule), objs[1..])
  }

  /** unregister(Object...) as a fold, removing by key. */
  function UnregisterAll(s: seq<RuleView>, objs: seq<Option<RuleObject>>): (res: (seq<RuleView>, Outcome<()>))
    requires Ascending(s)
    ensures Ascending(res.0)
    decreases |objs|
  {
    if objs == [] then (s, Ok(()))
    else if objs[0].None? then (s, Thrown(NullPointer))
    else
      match AsRule(objs[0].value)
      case Thrown(e) => (s, Thrown(e))
      case Ok(rule) => UnregisterAll(RemoveRule(s, rule), objs[1..])
  }

  /** Registering keeps the set ascending, and when it succeeds every object's rule is in it. */
  lemma {:induction false} RegisterAllContents(s: seq<RuleView>, objs: seq<Option<RuleObject>>)
    requires Ascending(s)
    decreases |objs|
    ensures forall x :: x in s ==> HasKey(RegisterAll(s, objs).0, x)
    ensures RegisterAll(s, objs).1.Ok? ==>
      forall k :: 0 <= k < |objs| ==>
        (objs[k].Some? && AsRule(objs[k].value).Ok? && HasKey(RegisterAll(s, objs).0, AsRule(objs[k].value).value))
    ensures RegisterAll(s, objs).1.Thrown? ==>
      exists k :: 0 <= k < |objs| && (objs[k].None? || AsRule(objs[k].value).Thrown?)
  {
    forall x | x in s
      ensures HasKey(RegisterAll(s, objs).0, x)
    {
      KeyedElementKept(s, objs, x);
    }
    if objs != [] && objs[0].Some? && AsRule(objs[0].value).Ok? {
      var rule := AsRule(objs[0].value).value;
      var s' := InsertRule(s, rule);
      RegisterAllContents(s', objs[1..]);
      if RegisterAll(s, objs).1.Ok? {
        forall k | 0 <= k < |objs|
          ensures objs[k].Some? && AsRule(objs[k].value).Ok? &&
            HasKey(RegisterAll(s', objs[1..]).0, AsRule(objs[k].value).value)
        {
          if k == 0 {
            InsertHasKey(s, rule);
            KeyKept(s', objs[1..], rule);
          } else {
            assert objs[1..][k - 1] == objs[k];
          }
        }
      } else {
        var k :| 0 <= k < |objs[1..]| && (objs[1..][k].None? || AsRule(objs[1..][k].value).Thrown?);
        assert objs[k + 1] == objs[1..][k];
      }
    }
  }

  /** An inserted rule's key is present afterwards. */
  lemma InsertHasKey(s: seq<RuleView>, r: RuleView)
    requires Ascending(s)
    ensures HasKey(InsertRule(s, r), r)
  {
    var s' := InsertRule(s, r);
    if !HasKey(s, r) {
      assert r in multiset(s');
      var j :| 0 <= j < |s'| && s'[j] == r;
      assert SameKey(s'[j], r);
    }
  }

  /** A key present before registering is present after. */
  lemma KeyKept(s: seq<RuleView>, objs: seq<Option<RuleObject>>, r: RuleView)
    requires Ascending(s) && HasKey(s, r)
    ensures HasKey(RegisterAll(s, objs).0, r)
  {
    var j :| 0 <= j < |s| && SameKey(s[j], r);
    KeyedElementKept(s, objs, s[j]);
    HasKeyBySame(RegisterAll(s, objs).0, s[j], r);
  }

  /** After an insertion, every key present before is still present. */
  lemma InsertKeepsKeys(s: seq<RuleView>, r: RuleView, x: RuleView)
    requires Ascending(s) && x in s
    ensures HasKey(InsertRule(s, r), x)
  {
    var s' := InsertRule(s, r);
    if !HasKey(s, r) {
      assert x in multiset(s);
      assert x in multiset(s');
    }
    var j :| 0 <= j < |s'| && s'[j] == x;
    assert SameKey(s'[j], x);
  }

  /** A rule present before registering has its key present after. */
  lemma {:induction false} KeyedElementKept(s: seq<RuleView>, objs: seq<Option<RuleObject>>, x: RuleView)
    requires Ascending(s) && x in s
    decreases |objs|
    ensures HasKey(RegisterAll(s, objs).0, x)
  {
    if objs != [] && objs[0].Some? && AsRule(objs[0].value).Ok? {
      var s' := InsertRule(s, AsRule(objs[0].value).value);
      InsertKeepsKeys(s, AsRule(objs[0].value).value, x);
      var j :| 0 <= j < |s'| && SameKey(s'[j], x);
      KeyedElementKept(s', objs[1..], s'[j]);
      HasKeyBySame(RegisterAll(s', objs[1..]).0, s'[j], x);
    } else {
      var j :| 0 <= j < |s| && s[j] == x;
      assert SameKey(s[j], x);
    }
  }

  lemma HasKeyBySame(s: seq<RuleView>, a: RuleView, b: RuleView)
    requires HasKey(s, a) && SameKey(a, b)
    ensures HasKey(s, b)
  {
    var j :| 0 <= j < |s| && SameKey(s[j], a);
    assert SameKey(s[j], b);
  }

  /**
   * Rules(Object...): an empty set, then register of the arguments.  An
   * exception from register escapes the constructor, so no set is built.
   */
  method NewRules(objs: Option<seq<Option<RuleObject>>>) returns (r: Outcome<Rules>)
    ensures objs.None? ==> r == Thrown(NullPointer)
    ensures objs.Some? && RegisterAll([], objs.value).1.Thrown? ==> r == Thrown(RegisterAll([], objs.value).1.error)
    ensures objs.Some? && RegisterAll([], objs.value).1.Ok? ==>
      r.Ok? && fresh(r.value) && r.value.Valid() && r.value.rules == RegisterAll([], objs.value).0
  {
    var rules := new Rules();
    var done := rules.Register(objs);
    if done.Thrown? {
      return Thrown(done.error);
    }
    return Ok(rules);
  }

  /** The rule set: a TreeSet of rules, iterated in ascending order. */
  class Rules {
    var rules: seq<RuleView>

    /** Iteration order is the natural order, and no two rules share a key. */
    predicate Valid()
      reads this
    {
      Ascending(rules)
    }

    /** The empty TreeSet every constructor starts from. */
    constructor ()
      ensures Valid() && rules == []
    {
      rules := [];
    }

    method Clear()
      modifies this
      ensures Valid() && rules == []
    {
      rules := [];
    }

    method Size() returns (n: int)
      ensures n == |rules|
    {
      n := |rules|;
    }

    method IsEmpty() returns (b: bool)
      ensures b <==> |rules| == 0
    {
      b := rules == [];
    }

    /** register(Object...): see RegisterAll. */
    method Register(objs: Option<seq<Option<RuleObject>>>) returns (r: Outcome<()>)
      requires Valid()
      modifies this
      ensures Valid()
      ensures objs.None? ==> r == Thrown(NullPointer) && rules == old(rules)
      ensures objs.Some? ==> (rules, r) == RegisterAll(old(rules), objs.value)
    {
      if objs.None? {
        return Thrown(NullPointer);
      }
      var all := objs.value;
      ghost var start := rules;
      var i := 0;
      while i < |all|
        invariant 0 <= i <= |all| && Ascending(rules)
        invariant RegisterAll(start, all) == RegisterAll(rules, all[i..])
      {
        assert all[i..][1..] == all[i + 1..];
        if all[i].None? {
          return Thrown(NullPointer);
        }
        var rule := AsRule(all[i].value);
        if rule.Thrown? {
          return Thrown(rule.error);
        }
        rules := InsertRule(rules, rule.value);
        i := i + 1;
      }
      return Ok(());
    }

    /** unregister(Object...): see UnregisterAll. */
    method Unregister(objs: Option<seq<Option<RuleObject>>>) returns (r: Outcome<()>)
      requires Valid()
      modifies this
      ensures Valid()
      ensures objs.None? ==> r == Thrown(NullPointer) && rules == old(rules)
      ensures objs.Some? ==> (rules, r) == UnregisterAll(old(rules), objs.value)
    {
      if objs.None? {
        return Thrown(NullPointer);
      }
      var all := objs.value;
      ghost var start := rules;
      var i := 0;
      while i < |all|
        invariant 0 <= i <= |all| && Ascending(rules)
        invariant UnregisterAll(start, all) == UnregisterAll(rules, all[i..])
      {
        assert all[i..][1..] == all[i + 1..];
        if all[i].None? {
          return Thrown(NullPointer);
        }
        var rule := AsRule(all[i].value);
        if rule.Thrown? {
          return Thrown(rule.error);
        }
        rules := RemoveRule(rules, rule.value);
        i := i + 1;
      }
      return Ok(());
    }

    /** unregister(String): removes the first rule whose name matches ignoring case, if any. */
    method UnregisterByName(ruleName: Option<string>) returns (r: Outcome<()>)
      requires Valid()
      modifies this
      ensures Valid()
      ensures ruleName.None? ==> r == Thrown(NullPointer) && rules == old(rules)
      ensures ruleName.Some? && FindRuleByName(old(rules), ruleName.value).None? ==> r == Ok(()) && rules == old(rules)
      ensures ruleName.Some? && FindRuleByName(old(rules), ruleName.value).Some? ==>
        r == Ok(()) && rules == RemoveRule(old(rules), FindRuleByName(old(rules), ruleName.value).value)
    {
      if ruleName.None? {
        return Thrown(NullPointer);
      }
      var rule := FindRuleByName(rules, ruleName.value);
      if rule.Some? {
        r := Unregister(Some([Some(PlainRule(rule.value))]));
        assert [Some(PlainRule(rule.value))][1..] == [];
      } else {
        r := Ok(());
      }
    }
  }

  /** unregister(String) removes exactly the rule it finds and keeps every other rule. */
  lemma UnregisterByNameRemovesOne(s: seq<RuleView>, ruleName: string)
    requires Ascending(s) && FindRuleByName(s, ruleName).Some?
    ensures var found := FindRuleByName(s, ruleName).value;
      found in s && found !in RemoveRule(s, found) &&
      forall x :: x in s && x != found ==> x in RemoveRule(s, found)
  {
    var found := FindRuleByName(s, ruleName).value;
    var k :| 0 <= k < |s| && s[k] == found;
    AscendingUnique(s, k);
  }
}
