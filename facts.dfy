/**
 * Facts of the rule engine: a Fact is a name bound to a value, equal to
 * another Fact exactly when the names are equal; a Facts collection holds
 * at most one fact per name, a later add replacing an earlier one.
 *
 * A value is seen through what the modelled code asks of it: its class's
 * full name, its simple name, and its toString text.
 */
module RuleFacts {
  import opened Lang

  datatype Value = Value(className: string, simpleName: string, text: string)

  datatype Fact = Fact(name: string, value: Value)

  const DEFAULT_MAX_CHARS_IN_VALUE_TO_STRING: int := 80
  const ELLIPSIS: string := "[...]"

  /** Fact(name, value): both must be non-null. */
  function NewFact(name: Option<string>, value: Option<Value>): (r: Outcome<Fact>)
    ensures r.Ok? <==> name.Some? && value.Some?
    ensures r.Thrown? ==> r.error == NullPointer
    ensures r.Ok? ==> r.value.name == name.value && r.value.value == value.value
  {
    if name.None? || value.None? then Thrown(NullPointer) else Ok(Fact(name.value, value.value))
  }

  /** equals: a Fact equals another Fact with the same name, whatever the values. */
  predicate FactEquals(a: Fact, o: Option<Fact>)
  {
    o.Some? && a.name == o.value.name
  }

  /** String.hashCode: h = 31 * h + c over the characters, in 32-bit ints. */
  function StringHashCode(s: string): (h: int)
    ensures IsInt32(h)
  {
    if s == [] then 0 else Wrap32(31 * StringHashCode(s[..|s| - 1]) + s[|s| - 1] as int)
  }

  /** hashCode: Objects.hash(name) = 31 * 1 + name.hashCode(). */
  function FactHashCode(f: Fact): (h: int)
    ensures IsInt32(h)
  {
    Wrap32(31 + StringHashCode(f.name))
  }

  /** equals is an equivalence, and equal facts hash equally. */
  lemma EqualsContract(a: Fact, b: Fact, c: Fact)
    ensures FactEquals(a, Some(a))
    ensures FactEquals(a, Some(b)) <==> FactEquals(b, Some(a))
    ensures FactEquals(a, Some(b)) && FactEquals(b, Some(c)) ==> FactEquals(a, Some(c))
    ensures FactEquals(a, Some(b)) ==> FactHashCode(a) == FactHashCode(b)
    ensures !FactEquals(a, None)
  {
  }

  /**
   * The value part of toString: the text whole when it fits maxChars, else
   * its first maxChars characters and "[...]" (a negative limit makes
   * substring throw).
   */
  function ValueString(text: string, maxChars: int): (r: Outcome<string>)
    ensures r.Thrown? <==> |text| > maxChars && maxChars < 0
    ensures r.Thrown? ==> r.error == StringIndexOutOfBounds
    ensures r.Ok? && |text| <= maxChars ==> r.value == text
    ensures r.Ok? && |text| > maxChars ==>
      |r.value| == maxChars + |ELLIPSIS| && r.value[..maxChars] == text[..maxChars] && r.value[maxChars..] == ELLIPSIS
  {
    if |text| <= maxChars then Ok(text)
    else if maxChars < 0 then Thrown(StringIndexOutOfBounds)
    else Ok(text[..maxChars] + ELLIPSIS)
  }

  /** toString: Fact{name='<name>', value=<value string>}. */
  function FactToString(f: Fact, maxChars: int): (r: Outcome<string>)
    ensures r.Ok? <==> ValueString(f.value.text, maxChars).Ok?
    ensures r.Ok? ==>
      var head := "Fact{name='" + f.name + "', value=";
      |r.value| == |head| + |ValueString(f.value.text, maxChars).value| + 1 &&
      r.value[..|head|] == head && r.value[|r.value| - 1] == '}' &&
      r.value[|head|..|r.value| - 1] == ValueString(f.value.text, maxChars).value
  {
    match ValueString(f.value.text, maxChars)
    case Thrown(e) => Thrown(e)
    case Ok(v) =>
      var head := "Fact{name='" + f.name + "', value=";
      var s := head + v + "}";
      assert s[..|head|] == head && s[|head|..|s| - 1] == v;
      Ok(s)
  }

  // ------------------------------------------------------------ Facts

  /** A Facts collection: one fact per name. */
  predicate UniqueNames(fs: seq<Fact>)
  {
    forall i, j :: 0 <= i < j < |fs| ==> fs[i].name != fs[j].name
  }

  predicate HasName(fs: seq<Fact>, name: string)
  {
    exists k :: 0 <= k < |fs| && fs[k].name == name
  }

  /** The facts without the one named name. */
  function WithoutName(fs: seq<Fact>, name: string): (r: seq<Fact>)
    ensures forall g :: g in r <==> g in fs && g.name != name
    ensures UniqueNames(fs) ==> UniqueNames(r)
    ensures UniqueNames(fs) ==> |r| == |fs| - (if HasName(fs, name) then 1 else 0)
    ensures !HasName(fs, name) ==> r == fs
  {
    if fs == [] then []
    else
      var rest := WithoutName(fs[1..], name);
      UniqueTail(fs);
      HasNameTail(fs, name);
      if fs[0].name == name then rest
      else
        ConsUnique(fs[0], rest);
        [fs[0]] + rest
  }

  /** A fact whose name no later fact shares keeps the names unique. */
  lemma ConsUnique(f: Fact, rest: seq<Fact>)
    ensures UniqueNames(rest) && (forall g :: g in rest ==> g.name != f.name) ==> UniqueNames([f] + rest)
  {
    if UniqueNames(rest) && forall g :: g in rest ==> g.name != f.name {
      var s := [f] + rest;
      forall i, j | 0 <= i < j < |s|
        ensures s[i].name != s[j].name
      {
        assert s[j] == rest[j - 1];
        if i > 0 {
          assert s[i] == rest[i - 1];
        }
      }
    }
  }

  lemma UniqueTail(fs: seq<Fact>)
    requires fs != []
    ensures UniqueNames(fs) ==> UniqueNames(fs[1..]) && forall g :: g in fs[1..] ==> g.name != fs[0].name
  {
    if UniqueNames(fs) {
      forall g | g in fs[1..]
        ensures g.name != fs[0].name
      {
        var k :| 0 <= k < |fs[1..]| && fs[1..][k] == g;
        assert fs[k + 1] == g;
      }
    }
  }

  lemma HasNameTail(fs: seq<Fact>, name: string)
    requires fs != []
    ensures forall g :: g in fs[1..] ==> g in fs
    ensures fs[0].name != name ==> (HasName(fs, name) <==> HasName(fs[1..], name))
    ensures UniqueNames(fs) && fs[0].name == name ==> !HasName(fs[1..], name)
  {
    if HasName(fs, name) && fs[0].name != name {
      var k :| 0 <= k < |fs| && fs[k].name == name;
      assert fs[1..][k - 1].name == name;
    }
    if HasName(fs[1..], name) {
      var k :| 0 <= k < |fs[1..]| && fs[1..][k].name == name;
      assert fs[k + 1].name == name;
    }
  }

  /** Facts.add: replaces a fact of the same name, else adds. */
  function AddFact(fs: seq<Fact>, f: Fact): (r: seq<Fact>)
    ensures UniqueNames(fs) ==> UniqueNames(r)
    ensures f in r
    ensures forall g :: g in r && g.name == f.name ==> g == f
    ensures forall g :: g in fs && g.name != f.name ==> g in r
    ensures forall g :: g in r ==> g == f || g in fs
  {
    WithoutName(fs, f.name) + [f]
  }

  /** Facts.getFact: the fact named name, if any. */
  function GetFact(fs: seq<Fact>, name: string): (r: Option<Fact>)
    ensures r.None? <==> !HasName(fs, name)
    ensures r.Some? ==> r.value in fs && r.value.name == name
  {
    if fs == [] then None
    else if fs[0].name == name then Some(fs[0])
    else
      var r := GetFact(fs[1..], name);
      assert HasName(fs, name) ==> HasName(fs[1..], name);
      assert r.Some? ==> HasName(fs, name) by {
        if r.Some? {
          var k :| 0 <= k < |fs[1..]| && fs[1..][k].name == name;
          assert fs[k + 1].name == name;
        }
      }
      r
  }

  /** A fact in a collection makes its name present. */
  lemma InHasName(fs: seq<Fact>, g: Fact)
    requires g in fs
    ensures HasName(fs, g.name)
  {
    var k :| 0 <= k < |fs| && fs[k] == g;
  }

  /** After an add, looking up its name finds the added fact. */
  lemma AddedLookup(fs: seq<Fact>, f: Fact)
    ensures GetFact(AddFact(fs, f), f.name) == Some(f)
  {
    InHasName(AddFact(fs, f), f);
  }

  /** An add leaves the lookup of every other name as it was. */
  lemma OtherLookup(fs: seq<Fact>, f: Fact, name: string)
    requires UniqueNames(fs) && f.name != name
    ensures GetFact(AddFact(fs, f), name) == GetFact(fs, name)
  {
    var r := AddFact(fs, f);
    var a := GetFact(r, name);
    if a.Some? {
      InHasName(fs, a.value);
    }
    var b := GetFact(fs, name);
    if b.Some? {
      InHasName(r, b.value);
      var i :| 0 <= i < |fs| && fs[i] == a.value;
      var j :| 0 <= j < |fs| && fs[j] == b.value;
    }
  }

  /** Adding a second fact under a name keeps only the later one. */
  lemma LaterAddWins(fs: seq<Fact>, name: string, v1: Value, v2: Value)
    requires UniqueNames(fs)
    ensures GetFact(AddFact(AddFact(fs, Fact(name, v1)), Fact(name, v2)), name) == Some(Fact(name, v2))
  {
    AddedLookup(AddFact(fs, Fact(name, v1)), Fact(name, v2));
  }
}
