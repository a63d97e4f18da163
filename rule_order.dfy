/**
 * A rule as the engine and the rule set see it, and the natural order of
 * rules: priority ascending, then name by String.compareTo.  Two rules
 * comparing equal (same priority, same name) are one element of a rule set.
 */
module RuleOrder {

  /** The rule constants of the rule API (Rule.DEFAULT_NAME and friends). */
  const DEFAULT_NAME: string := "rule"
  const DEFAULT_DESCRIPTION: string := "description"
  const DEFAULT_PRIORITY: int := 0x7fff_ffff - 1

  datatype RuleView = RuleView(name: string, description: string, priority: int)

  /** Lexicographic order on UTF-16 units, a proper prefix first. */
  predicate LexLess(a: string, b: string)
    decreases |a|
  {
    if a == [] then b != []
    else if b == [] then false
    else if a[0] != b[0] then a[0] < b[0]
    else LexLess(a[1..], b[1..])
  }

  /** String.compareTo: the difference of the first differing units, else of the lengths. */
  function StringCompareTo(a: string, b: string): (r: int)
    ensures r < 0 <==> LexLess(a, b)
    ensures r == 0 <==> a == b
    ensures r > 0 <==> LexLess(b, a)
    decreases |a|
  {
    if a == [] || b == [] then |a| - |b|
    else if a[0] != b[0] then a[0] as int - b[0] as int
    else
      var r := StringCompareTo(a[1..], b[1..]);
      assert a == [a[0]] + a[1..] && b == [b[0]] + b[1..];
      r
  }

  lemma {:induction false} LexTransitive(a: string, b: string, c: string)
    requires LexLess(a, b) && LexLess(b, c)
    ensures LexLess(a, c)
    decreases |a|
  {
    if a != [] && b != [] && c != [] && a[0] == b[0] && b[0] == c[0] {
      LexTransitive(a[1..], b[1..], c[1..]);
    }
  }

  /** Ordering of two rules: negative, zero or positive as a comes before, with or after b. */
  function CompareTo(a: RuleView, b: RuleView): (r: int)
    ensures r < 0 <==> RuleLess(a, b)
    ensures r == 0 <==> SameKey(a, b)
    ensures r > 0 <==> RuleLess(b, a)
  {
    if a.priority < b.priority then -1
    else if a.priority > b.priority then 1
    else StringCompareTo(a.name, b.name)
  }

  predicate RuleLess(a: RuleView, b: RuleView)
  {
    a.priority < b.priority || (a.priority == b.priority && LexLess(a.name, b.name))
  }

  /** compareTo gives 0: the rules are the same element of a rule set. */
  predicate SameKey(a: RuleView, b: RuleView)
  {
    a.priority == b.priority && a.name == b.name
  }

  /** The natural order is a strict total order on keys. */
  lemma RuleOrderIsStrictTotal(a: RuleView, b: RuleView, c: RuleView)
    ensures !RuleLess(a, a)
    ensures RuleLess(a, b) ==> !RuleLess(b, a) && !SameKey(a, b)
    ensures SameKey(a, b) || RuleLess(a, b) || RuleLess(b, a)
    ensures RuleLess(a, b) && RuleLess(b, c) ==> RuleLess(a, c)
  {
    var _ := CompareTo(a, a);
    var _ := CompareTo(a, b);
    if RuleLess(a, b) && RuleLess(b, c) && a.priority == b.priority == c.priority {
      LexTransitive(a.name, b.name, c.name);
    }
  }

  /** Strictly ascending: the order a TreeSet iterates in, no two elements comparing equal. */
  predicate Ascending(s: seq<RuleView>)
  {
    forall i, j :: 0 <= i < j < |s| ==> RuleLess(s[i], s[j])
  }

  /** No two elements of an ascending sequence share a key. */
  lemma AscendingUnique(s: seq<RuleView>, k: int)
    requires Ascending(s) && 0 <= k < |s|
    ensures forall j :: 0 <= j < |s| && j != k ==> !SameKey(s[j], s[k])
  {
    forall j | 0 <= j < |s| && j != k
      ensures !SameKey(s[j], s[k])
    {
      if j < k {
        RuleOrderIsStrictTotal(s[j], s[k], s[k]);
      } else {
        RuleOrderIsStrictTotal(s[k], s[j], s[j]);
      }
    }
  }
}
