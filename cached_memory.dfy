/**
 * The rule engine's memories: CachedMemory keeps saved facts in a list;
 * BaseCachedMemory keeps them with a validity window (a delay before the
 * fact shows, a lifetime after which it is purged).  Both hand the rules
 * a Facts collection of what they hold plus the fact "mem", the memory
 * itself.  Time is the parameter `now`, in epoch milliseconds.
 */
module Memories {
  import opened Lang
  import opened RuleFacts

  const MEM: string := "mem"
  const MAX_LEN: int := 20

  /** The facts of fs added in order: a later fact replaces an earlier one of the same name. */
  function AllFacts(fs: seq<Fact>): (r: seq<Fact>)
    ensures UniqueNames(r)
  {
    if fs == [] then [] else AddFact(AllFacts(fs[..|fs| - 1]), fs[|fs| - 1])
  }

  /** The last fact of fs named name. */
  function LastNamed(fs: seq<Fact>, name: string): (r: Option<Fact>)
    ensures r.None? <==> !HasName(fs, name)
    ensures r.Some? ==> r.value in fs && r.value.name == name
  {
    if fs == [] then None
    else if fs[|fs| - 1].name == name then Some(fs[|fs| - 1])
    else
      var r := LastNamed(fs[..|fs| - 1], name);
      assert HasName(fs, name) ==> HasName(fs[..|fs| - 1], name);
      assert r.Some? ==> HasName(fs, name) by {
        if r.Some? {
          var k :| 0 <= k < |fs| - 1 && fs[..|fs| - 1][k].name == name;
          assert fs[k].name == name;
        }
      }
      r
  }

  /** Looking a name up in the added facts finds the last fact saved under it. */
  lemma {:induction false} AllFactsLookup(fs: seq<Fact>, name: string)
    ensures GetFact(AllFacts(fs), name) == LastNamed(fs, name)
    decreases |fs|
  {
    if fs != [] {
      var init := fs[..|fs| - 1];
      var last := fs[|fs| - 1];
      AllFactsLookup(init, name);
      if last.name == name {
        AddedLookup(AllFacts(init), last);
      } else {
        OtherLookup(AllFacts(init), last, name);
      }
    }
  }

  /** The index of the first fact named name, -1 if none. */
  function FirstNamed(fs: seq<Fact>, name: string): (k: int)
    ensures -1 <= k < |fs|
    ensures k == -1 <==> !HasName(fs, name)
    ensures k >= 0 ==> fs[k].name == name && forall m :: 0 <= m < k ==> fs[m].name != name
  {
    if fs == [] then -1
    else if fs[0].name == name then 0
    else
      var k := FirstNamed(fs[1..], name);
      assert HasName(fs, name) ==> HasName(fs[1..], name);
      if k == -1 then -1 else k + 1
  }

  /** The list without its first fact named name. */
  function WithoutFirst<T>(fs: seq<T>, k: int): (r: seq<T>)
    requires -1 <= k < |fs|
    ensures k == -1 ==> r == fs
    ensures k >= 0 ==> |r| == |fs| - 1 && r[..k] == fs[..k] && r[k..] == fs[k + 1..]
  {
    if k == -1 then fs else fs[..k] + fs[k + 1..]
  }

  /** The value of the "mem" fact: the memory object (its text is not modelled). */
  function MemFact(className: string, simpleName: string): Fact
  {
    Fact(MEM, Value(className, simpleName, ""))
  }

  /** List.toString of facts: "[" then the elements joined by ", " then "]". */
  function ListText(fs: seq<Fact>, maxChars: int): (r: Outcome<string>)
    ensures r.Ok? <==> forall k :: 0 <= k < |fs| ==> FactToString(fs[k], maxChars).Ok?
  {
    match Joined(fs, maxChars)
    case Thrown(e) => Thrown(e)
    case Ok(s) => Ok("[" + s + "]")
  }

  function Joined(fs: seq<Fact>, maxChars: int): (r: Outcome<string>)
    ensures r.Ok? <==> forall k :: 0 <= k < |fs| ==> FactToString(fs[k], maxChars).Ok?
  {
    if fs == [] then Ok("")
    else
      match FactToString(fs[0], maxChars)
      case Thrown(e) => Thrown(e)
      case Ok(head) =>
        if |fs| == 1 then Ok(head)
        else
          match Joined(fs[1..], maxChars)
          case Thrown(e) => Thrown(e)
          case Ok(rest) => Ok(head + ", " + rest)
  }

  class CachedMemory {
    var factsMemory: seq<Fact>

    constructor ()
      ensures factsMemory == []
    {
      factsMemory := [];
    }

    method Clear()
      modifies this
      ensures factsMemory == []
    {
      factsMemory := [];
    }

    /** save: one more fact at the end; the Fact constructor refuses a null name or payload. */
    method Save(name: Option<string>, payload: Option<Value>) returns (r: Outcome<()>)
      modifies this
      ensures name.None? || payload.None? ==> r == Thrown(NullPointer) && factsMemory == old(factsMemory)
      ensures name.Some? && payload.Some? ==>
        r == Ok(()) && factsMemory == old(factsMemory) + [Fact(name.value, payload.value)]
    {
      var fact := NewFact(name, payload);
      if fact.Thrown? {
        return Thrown(fact.error);
      }
      factsMemory := factsMemory + [fact.value];
      return Ok(());
    }

    /** remove: drops the first fact named factName, if there is one. */
    method Remove(factName: string)
      modifies this
      ensures factsMemory == WithoutFirst(old(factsMemory), FirstNamed(old(factsMemory), factName))
    {
      var toDelete := -1;
      var i := 0;
      while i < |factsMemory|
        invariant 0 <= i <= |factsMemory|
        invariant forall m :: 0 <= m < i ==> factsMemory[m].name != factName
      {
        if factsMemory[i].name == factName {
          toDelete := i;
          break;
        }
        i := i + 1;
      }
      assert toDelete == -1 ==> !HasName(factsMemory, factName);
      factsMemory := WithoutFirst(factsMemory, toDelete);
    }

    /**
     * getFacts: every saved fact added in order (the last one saved under a
     * name wins), then "mem"; the memory itself is untouched.
     */
    method GetFacts() returns (reply: seq<Fact>)
      ensures reply == AddFact(AllFacts(factsMemory), MemFact("org.rossonet.rules.base.CachedMemory", "CachedMemory"))
    {
      reply := [];
      var i := 0;
      while i < |factsMemory|
        invariant 0 <= i <= |factsMemory|
        invariant reply == AllFacts(factsMemory[..i])
      {
        assert factsMemory[..i + 1][..i] == factsMemory[..i];
        reply := AddFact(reply, factsMemory[i]);
        i := i + 1;
      }
      assert factsMemory[..i] == factsMemory;
      reply := AddFact(reply, MemFact("org.rossonet.rules.base.CachedMemory", "CachedMemory"));
    }

    /** toString: at most the first twenty facts, as List.toString renders them. */
    function ToString(maxChars: int): (r: Outcome<string>)
      reads this
      ensures r.Thrown? <==>
        ListText(factsMemory[..if |factsMemory| < MAX_LEN then |factsMemory| else MAX_LEN], maxChars).Thrown?
      ensures r.Ok? ==>
        |r.value| > 26 && r.value[..26] == "CachedMemory [factsMemory=" && r.value[|r.value| - 1] == ']'
    {
      var shown := factsMemory[..if |factsMemory| < MAX_LEN then |factsMemory| else MAX_LEN];
      match ListText(shown, maxChars)
      case Thrown(e) => Thrown(e)
      case Ok(list) => Ok("CachedMemory [factsMemory=" + list + "]")
    }
  }

  /** What getFacts offers: "mem", and under every other name the last fact saved under it. */
  lemma GetFactsContents(factsMemory: seq<Fact>, className: string, simpleName: string, name: string)
    ensures GetFact(AddFact(AllFacts(factsMemory), MemFact(className, simpleName)), MEM) == Some(MemFact(className, simpleName))
    ensures name != MEM ==> GetFact(AddFact(AllFacts(factsMemory), MemFact(className, simpleName)), name) == LastNamed(factsMemory, name)
  {
    AddedLookup(AllFacts(factsMemory), MemFact(className, simpleName));
    if name != MEM {
      AllFactsLookup(factsMemory, name);
      OtherLookup(AllFacts(factsMemory), MemFact(className, simpleName), name);
    }
  }

  /** toString shows only the first twenty facts: later ones do not change it. */
  lemma ToStringFirstTwenty(m1: CachedMemory, m2: CachedMemory, maxChars: int)
    requires |m1.factsMemory| >= MAX_LEN && |m2.factsMemory| >= MAX_LEN
    requires m1.factsMemory[..MAX_LEN] == m2.factsMemory[..MAX_LEN]
    ensures m1.ToString(maxChars) == m2.ToString(maxChars)
  {
  }

  // ------------------------------------------------------------ BaseCachedMemory

  /** TimerCachedMemory: a fact with its delay and lifetime (-1 for none) and its creation time. */
  datatype TimerEntry = TimerEntry(name: string, validDelayMs: int, validUntilMs: int, fact: Fact, createdAt: int)

  /** isExpired: a lifetime is set and has run out. */
  predicate IsExpired(e: TimerEntry, now: int)
    ensures e.validUntilMs == -1 ==> !IsExpired(e, now)
    ensures !IsExpired(e, now) <==> e.validUntilMs == -1 || now <= e.createdAt + e.validUntilMs
  {
    e.validUntilMs != -1 && e.createdAt + e.validUntilMs < now
  }

  /** isValidNow: not before the delay has passed, and not expired. */
  predicate IsValidNow(e: TimerEntry, now: int)
    ensures IsValidNow(e, now) ==> !IsExpired(e, now)
    ensures IsValidNow(e, now) <==>
      (e.validDelayMs == -1 || e.createdAt + e.validDelayMs <= now) &&
      (e.validUntilMs == -1 || now <= e.createdAt + e.validUntilMs)
  {
    !(e.validDelayMs != -1 && e.createdAt + e.validDelayMs > now) && !IsExpired(e, now)
  }

  /** An entry is visible exactly inside its window [createdAt + delay, createdAt + lifetime]. */
  lemma ValidityWindow(e: TimerEntry, now: int, later: int)
    ensures IsValidNow(e, now) <==>
      (e.validDelayMs == -1 || e.createdAt + e.validDelayMs <= now) &&
      (e.validUntilMs == -1 || now <= e.createdAt + e.validUntilMs)
    ensures IsExpired(e, now) ==> !IsValidNow(e, now)
    ensures IsExpired(e, now) && now <= later ==> IsExpired(e, later)
  {
  }

  /** An entry saved without delay or lifetime is visible at every time and never expires. */
  lemma UntimedAlwaysValid(e: TimerEntry, now: int)
    requires e.validDelayMs == -1 && e.validUntilMs == -1
    ensures IsValidNow(e, now) && !IsExpired(e, now)
  {
  }

  /** The entries visible at now, their facts in list order. */
  function VisibleFacts(es: seq<TimerEntry>, now: int): (r: seq<Fact>)
    ensures |r| <= |es|
    ensures forall f :: f in r ==> exists k :: 0 <= k < |es| && es[k].fact == f && IsValidNow(es[k], now)
    ensures forall k :: 0 <= k < |es| && IsValidNow(es[k], now) ==> es[k].fact in r
  {
    if es == [] then []
    else
      var init := VisibleFacts(es[..|es| - 1], now);
      assert forall f :: f in init ==> exists k :: 0 <= k < |es| - 1 && es[..|es| - 1][k].fact == f && IsValidNow(es[k], now);
      assert forall k :: 0 <= k < |es| - 1 && IsValidNow(es[k], now) ==> es[..|es| - 1][k].fact in init;
      if IsValidNow(es[|es| - 1], now) then init + [es[|es| - 1].fact] else init
  }

  /** Slot k holds the last entry valid at now whose fact is named name. */
  ghost predicate LastValidNamedAt(es: seq<TimerEntry>, now: int, name: string, k: int)
  {
    0 <= k < |es| && IsValidNow(es[k], now) && es[k].fact.name == name &&
    forall m :: k < m < |es| && IsValidNow(es[m], now) ==> es[m].fact.name != name
  }

  /** The fact of the last entry valid at now whose fact is named name, scanning back from the end. */
  function LastValidNamed(es: seq<TimerEntry>, now: int, name: string): Option<Fact>
  {
    if es == [] then None
    else if IsValidNow(es[|es| - 1], now) && es[|es| - 1].fact.name == name then Some(es[|es| - 1].fact)
    else LastValidNamed(es[..|es| - 1], now, name)
  }

  /** The backward scan finds nothing exactly when no entry valid now has the name, else the last one that does. */
  lemma {:induction false} LastValidNamedMeans(es: seq<TimerEntry>, now: int, name: string)
    ensures LastValidNamed(es, now, name).None? <==>
      forall k :: 0 <= k < |es| && IsValidNow(es[k], now) ==> es[k].fact.name != name
    ensures LastValidNamed(es, now, name).Some? ==>
      exists k :: LastValidNamedAt(es, now, name, k) && LastValidNamed(es, now, name) == Some(es[k].fact)
    decreases |es|
  {
    if es != [] {
      var n := |es| - 1;
      var init := es[..n];
      if IsValidNow(es[n], now) && es[n].fact.name == name {
        assert LastValidNamedAt(es, now, name, n);
      } else {
        LastValidNamedMeans(init, now, name);
        if LastValidNamed(init, now, name).Some? {
          var k :| LastValidNamedAt(init, now, name, k) && LastValidNamed(init, now, name) == Some(init[k].fact);
          forall m | k < m < |es| && IsValidNow(es[m], now)
            ensures es[m].fact.name != name
          {
            if m < n {
              assert es[m] == init[m];
            }
          }
          assert LastValidNamedAt(es, now, name, k);
        } else {
          forall k | 0 <= k < |es| && IsValidNow(es[k], now)
            ensures es[k].fact.name != name
          {
            if k < n {
              assert es[k] == init[k];
            }
          }
        }
      }
    }
  }

  /** The last of fs + [f] named name is f when f has the name, else the last of fs. */
  lemma LastNamedSnoc(fs: seq<Fact>, f: Fact, name: string)
    ensures LastNamed(fs + [f], name) == if f.name == name then Some(f) else LastNamed(fs, name)
  {
    assert (fs + [f])[..|fs|] == fs;
  }

  /** Looking a name up in the visible facts is the backward scan over the entries valid now. */
  lemma {:induction false} VisibleLookup(es: seq<TimerEntry>, now: int, name: string)
    ensures LastNamed(VisibleFacts(es, now), name) == LastValidNamed(es, now, name)
    decreases |es|
  {
    if es != [] {
      var n := |es| - 1;
      VisibleLookup(es[..n], now, name);
      if IsValidNow(es[n], now) {
        LastNamedSnoc(VisibleFacts(es[..n], now), es[n].fact, name);
      }
    }
  }

  /** The entries that survive the purge at now. */
  function Unexpired(es: seq<TimerEntry>, now: int): (r: seq<TimerEntry>)
    ensures forall e :: e in r <==> e in es && !IsExpired(e, now)
    ensures |r| <= |es|
  {
    if es == [] then []
    else
      var init := Unexpired(es[..|es| - 1], now);
      assert forall e :: e in es <==> e in es[..|es| - 1] || e == es[|es| - 1];
      if IsExpired(es[|es| - 1], now) then init else init + [es[|es| - 1]]
  }

  /** What BaseCachedMemory.getFacts replies at now. */
  function BaseFacts(es: seq<TimerEntry>, now: int): seq<Fact>
  {
    AddFact(AllFacts(VisibleFacts(es, now)), MemFact("org.rossonet.rules.base.BaseCachedMemory", "BaseCachedMemory"))
  }

  /**
   * What BaseCachedMemory's getFacts offers: "mem", and under every other
   * name the fact of the last entry valid now under it, or nothing when no
   * entry valid now has that name.
   */
  lemma BaseGetFactsContents(es: seq<TimerEntry>, now: int, name: string)
    ensures GetFact(BaseFacts(es, now), MEM) == Some(MemFact("org.rossonet.rules.base.BaseCachedMemory", "BaseCachedMemory"))
    ensures name != MEM ==> GetFact(BaseFacts(es, now), name) == LastValidNamed(es, now, name)
    ensures name != MEM ==>
      (GetFact(BaseFacts(es, now), name).None? <==>
        forall k :: 0 <= k < |es| && IsValidNow(es[k], now) ==> es[k].fact.name != name)
    ensures name != MEM && GetFact(BaseFacts(es, now), name).Some? ==>
      exists k :: LastValidNamedAt(es, now, name, k) && GetFact(BaseFacts(es, now), name) == Some(es[k].fact)
  {
    GetFactsContents(VisibleFacts(es, now), "org.rossonet.rules.base.BaseCachedMemory", "BaseCachedMemory", name);
    if name != MEM {
      VisibleLookup(es, now, name);
      LastValidNamedMeans(es, now, name);
    }
  }

  class BaseCachedMemory {
    var factsMemory: seq<TimerEntry>

    constructor ()
      ensures factsMemory == []
    {
      factsMemory := [];
    }

    method Clear()
      modifies this
      ensures factsMemory == []
    {
      factsMemory := [];
    }

    /** close: the same as clear. */
    method Close()
      modifies this
      ensures factsMemory == []
    {
      factsMemory := [];
    }

    /** save(name, payload, delay, lifetime), created at now. */
    method SaveTimed(name: Option<string>, payload: Option<Value>, validDelayMs: int, validUntilMs: int, now: int) returns (r: Outcome<()>)
      modifies this
      ensures name.None? || payload.None? ==> r == Thrown(NullPointer) && factsMemory == old(factsMemory)
      ensures name.Some? && payload.Some? ==>
        r == Ok(()) &&
        factsMemory == old(factsMemory) + [TimerEntry(name.value, validDelayMs, validUntilMs, Fact(name.value, payload.value), now)]
    {
      var fact := NewFact(name, payload);
      if fact.Thrown? {
        return Thrown(fact.error);
      }
      factsMemory := factsMemory + [TimerEntry(name.value, validDelayMs, validUntilMs, fact.value, now)];
      return Ok(());
    }

    /** save(name, payload): no delay, no lifetime. */
    method Save(name: Option<string>, payload: Option<Value>, now: int) returns (r: Outcome<()>)
      modifies this
      ensures name.None? || payload.None? ==> r == Thrown(NullPointer) && factsMemory == old(factsMemory)
      ensures name.Some? && payload.Some? ==>
        r == Ok(()) && factsMemory == old(factsMemory) + [TimerEntry(name.value, -1, -1, Fact(name.value, payload.value), now)]
    {
      r := SaveTimed(name, payload, -1, -1, now);
    }

    /** remove: drops the first entry named factName, if there is one. */
    method Remove(factName: string)
      modifies this
      ensures |factsMemory| == |old(factsMemory)| - (if exists k :: 0 <= k < |old(factsMemory)| && old(factsMemory)[k].name == factName then 1 else 0)
      ensures exists k ::
        (-1 <= k < |old(factsMemory)| && factsMemory == WithoutFirst(old(factsMemory), k) &&
         (k == -1 ==> forall m :: 0 <= m < |old(factsMemory)| ==> old(factsMemory)[m].name != factName) &&
         (k >= 0 ==> old(factsMemory)[k].name == factName && forall m :: 0 <= m < k ==> old(factsMemory)[m].name != factName))
    {
      var toDelete := -1;
      var i := 0;
      while i < |factsMemory|
        invariant 0 <= i <= |factsMemory|
        invariant forall m :: 0 <= m < i ==> factsMemory[m].name != factName
      {
        if factsMemory[i].name == factName {
          toDelete := i;
          break;
        }
        i := i + 1;
      }
      factsMemory := WithoutFirst(factsMemory, toDelete);
    }

    /**
     * getFacts(now): the facts of the entries valid now, added in order,
     * then "mem"; the entries expired at now are purged.
     */
    method GetFacts(now: int) returns (reply: seq<Fact>)
      modifies this
      ensures reply == BaseFacts(old(factsMemory), now)
      ensures factsMemory == Unexpired(old(factsMemory), now)
    {
      reply := [];
      var kept: seq<TimerEntry> := [];
      var i := 0;
      while i < |factsMemory|
        invariant 0 <= i <= |factsMemory|
        invariant reply == AllFacts(VisibleFacts(factsMemory[..i], now))
        invariant kept == Unexpired(factsMemory[..i], now)
      {
        var memoryFact := factsMemory[i];
        assert factsMemory[..i + 1][..i] == factsMemory[..i];
        if IsValidNow(memoryFact, now) {
          reply := AddFact(reply, memoryFact.fact);
        }
        if !IsExpired(memoryFact, now) {
          kept := kept + [memoryFact];
        }
        i := i + 1;
      }
      assert factsMemory[..i] == factsMemory;
      reply := AddFact(reply, MemFact("org.rossonet.rules.base.BaseCachedMemory", "BaseCachedMemory"));
      factsMemory := kept;
    }
  }
}
