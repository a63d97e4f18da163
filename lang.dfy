/**
 * The Java vocabulary the models share: an optional value for references
 * that may be null, the exceptions the modelled code throws, an outcome
 * that is a value or a thrown exception, 32-bit int arithmetic, and the
 * decimal rendering of an int that string concatenation performs.
 */
module Lang {

  datatype Option<T> = None | Some(value: T)

  datatype Exception =
    | IllegalArgument
    | IllegalState
    | NullPointer
    | NoSuchElement
    | UnsupportedOperation
    | ConcurrentModification
    | OutOfMemory
    | ArrayIndexOutOfBounds
    | StringIndexOutOfBounds
    | ClassCast
    | NoSuchFact(missingFact: string)
    | Runtime(message: string)

  /** A method's result: it returned a value or it threw. */
  datatype Outcome<T> = Ok(value: T) | Thrown(error: Exception)

  const MIN_VALUE: int := -0x8000_0000
  const MAX_VALUE: int := 0x7fff_ffff

  predicate IsInt32(x: int)
  {
    MIN_VALUE <= x <= MAX_VALUE
  }

  /** The int a Java int expression yields: the exact value taken modulo 2^32. */
  function Wrap32(x: int): (r: int)
    ensures IsInt32(r) && (r - x) % 0x1_0000_0000 == 0
    ensures IsInt32(x) ==> r == x
  {
    (x - MIN_VALUE) % 0x1_0000_0000 + MIN_VALUE
  }

  // ------------------------------------------------------------ decimal text

  function DigitChar(d: int): char
    requires 0 <= d < 10
  {
    "0123456789"[d]
  }

  function CharDigit(c: char): (d: int)
    ensures 0 <= d < 10 || d == -1
  {
    if '0' <= c <= '9' then (c - '0') as int else -1
  }

  /** Decimal digits of n, most significant first, no leading zeros. */
  function NatToString(n: nat): (s: string)
    ensures |s| >= 1 && forall k :: 0 <= k < |s| ==> '0' <= s[k] <= '9'
    ensures |s| > 1 ==> s[0] != '0'
  {
    if n < 10 then [DigitChar(n)] else NatToString(n / 10) + [DigitChar(n % 10)]
  }

  /** String.valueOf(int): a minus sign before the digits of a negative value. */
  function IntToString(n: int): (s: string)
    ensures |s| >= 1
  {
    if n < 0 then "-" + NatToString(-n) else NatToString(n)
  }

  /** Reads a run of decimal digits (the inverse of NatToString). */
  function ParseNat(s: string): (r: Option<nat>)
    ensures r.Some? ==> |s| >= 1
  {
    if |s| == 0 then None
    else if |s| == 1 then (if CharDigit(s[0]) >= 0 then Some(CharDigit(s[0])) else None)
    else
      match ParseNat(s[..|s| - 1])
      case None => None
      case Some(p) => if CharDigit(s[|s| - 1]) >= 0 then Some(10 * p + CharDigit(s[|s| - 1])) else None
  }

  lemma {:induction false} ParseNatToString(n: nat)
    ensures ParseNat(NatToString(n)) == Some(n)
    decreases n
  {
    if n >= 10 {
      ParseNatToString(n / 10);
      LastDigit(n);
      ParseNatStep(NatToString(n / 10), n / 10, n % 10);
    } else {
      DigitRoundTrip(n);
      assert NatToString(n) == [DigitChar(n)];
    }
  }

  /** A number of two or more digits is its tenth followed by its last digit. */
  lemma LastDigit(n: nat)
    requires n >= 10
    ensures NatToString(n) == NatToString(n / 10) + [DigitChar(n % 10)]
    ensures n == 10 * (n / 10) + n % 10
  {
  }

  /** Appending one digit multiplies the parsed value by ten and adds the digit. */
  lemma ParseNatStep(t: string, p: nat, d: int)
    requires 0 <= d < 10 && ParseNat(t) == Some(p)
    ensures ParseNat(t + [DigitChar(d)]) == Some(10 * p + d)
  {
    DigitRoundTrip(d);
    var s := t + [DigitChar(d)];
    assert s[..|s| - 1] == t;
  }

  lemma DigitRoundTrip(d: int)
    requires 0 <= d < 10
    ensures CharDigit(DigitChar(d)) == d
  {
  }

  /** Different numbers render differently. */
  lemma NatToStringInjective(m: nat, n: nat)
    requires NatToString(m) == NatToString(n)
    ensures m == n
  {
    ParseNatToString(m);
    ParseNatToString(n);
  }

  // ------------------------------------------------------------ text

  predicate StartsWith(s: string, prefix: string)
  {
    |prefix| <= |s| && s[..|prefix|] == prefix
  }

  /** The parts joined by sep, with no separator before the first or after the last. */
  function JoinWith(parts: seq<string>, sep: string): (r: string)
  {
    if parts == [] then ""
    else if |parts| == 1 then parts[0]
    else JoinWith(parts[..|parts| - 1], sep) + sep + parts[|parts| - 1]
  }

  /** The joined text begins with the first part and ends with the last. */
  lemma {:induction false} JoinEnds(parts: seq<string>, sep: string)
    requires parts != []
    ensures StartsWith(JoinWith(parts, sep), parts[0])
    ensures |parts[|parts| - 1]| <= |JoinWith(parts, sep)|
    ensures JoinWith(parts, sep)[|JoinWith(parts, sep)| - |parts[|parts| - 1]|..] == parts[|parts| - 1]
    decreases |parts|
  {
    if |parts| > 1 {
      var init := parts[..|parts| - 1];
      JoinEnds(init, sep);
      var j := JoinWith(init, sep);
      assert init[0] == parts[0];
      assert (j + sep + parts[|parts| - 1])[..|parts[0]|] == j[..|parts[0]|];
    }
  }

  /** Joining counts: the parts' lengths plus one separator between each pair. */
  lemma {:induction false} JoinLength(parts: seq<string>, sep: string)
    requires parts != []
    ensures |JoinWith(parts, sep)| == TotalLength(parts) + (|parts| - 1) * |sep|
    decreases |parts|
  {
    if |parts| > 1 {
      var init := parts[..|parts| - 1];
      JoinLength(init, sep);
      assert init + [parts[|parts| - 1]] == parts;
      TotalLengthAppend(init, parts[|parts| - 1]);
      MulStep(|parts| - 1, |sep|);
    } else {
      assert parts == [] + [parts[0]];
      TotalLengthAppend([], parts[0]);
    }
  }

  lemma MulStep(a: int, b: int)
    ensures a * b == (a - 1) * b + b
  {
  }

  function TotalLength(parts: seq<string>): nat
  {
    if parts == [] then 0 else |parts[0]| + TotalLength(parts[1..])
  }

  lemma {:induction false} TotalLengthAppend(parts: seq<string>, p: string)
    ensures TotalLength(parts + [p]) == TotalLength(parts) + |p|
    decreases |parts|
  {
    if parts != [] {
      assert (parts + [p])[1..] == parts[1..] + [p];
      TotalLengthAppend(parts[1..], p);
    }
  }
}
