/**
 * DataInDnsHelper: stores a string in DNS TXT records and reads it back.
 *
 * The encoder cuts the data into pieces of at most 254 characters (one
 * TXT character-string holds at most 255 octets, sections 3.3 and 3.3.14
 * of RFC 1035) and writes one master-file line (section 5.1 of RFC 1035)
 * per piece, `<prefix>-<i>`, then an index line `<prefix>-idx` holding
 * the number of pieces.  The decoder reads the index, then the pieces in
 * order.  Name resolution is the parameter `lookup`: the text of the
 * first TXT answer for a name at a given attempt, or None when the
 * lookup does not succeed.
 */
module DnsData {
  import opened Lang

  const CHUNK_LENGTH: int := 254
  const CHUNK_NUMBER_SUFFIX: string := "-idx"

  // ------------------------------------------------------------ encoding

  /** Splitter.fixedLength(254): pieces of 254 characters, the last shorter; "" gives [""]. */
  function Chunks(data: string): (r: seq<string>)
    ensures |r| >= 1
    ensures Concat(r) == data
    ensures forall k :: 0 <= k < |r| ==> |r[k]| <= CHUNK_LENGTH
    ensures data != [] ==> forall k :: 0 <= k < |r| ==> |r[k]| >= 1
    ensures data != [] ==> |r| == (|data| + CHUNK_LENGTH - 1) / CHUNK_LENGTH
    decreases |data|
  {
    if |data| <= CHUNK_LENGTH then [data]
    else [data[..CHUNK_LENGTH]] + Chunks(data[CHUNK_LENGTH..])
  }

  function Concat(parts: seq<string>): string
  {
    if parts == [] then "" else parts[0] + Concat(parts[1..])
  }

  lemma {:induction false} ConcatAppend(parts: seq<string>, p: string)
    ensures Concat(parts + [p]) == Concat(parts) + p
    decreases |parts|
  {
    if parts != [] {
      assert (parts + [p])[1..] == parts[1..] + [p];
      ConcatAppend(parts[1..], p);
    }
  }

  function Quoted(s: string): string
  {
    "\"" + s + "\""
  }

  function ChunkOwner(prefix: string, c: nat): string
  {
    prefix + "-" + NatToString(c)
  }

  function IndexOwner(prefix: string): string
  {
    prefix + CHUNK_NUMBER_SUFFIX
  }

  /** `<owner>\tIN\tTXT\t"<text>"\n`. */
  function TxtLine(owner: string, text: string): string
  {
    owner + "\tIN\tTXT\t" + Quoted(text) + "\n"
  }

  /** The lines of the pieces, numbered from 0. */
  function ChunkLines(prefix: string, chunks: seq<string>): string
  {
    if chunks == [] then ""
    else ChunkLines(prefix, chunks[..|chunks| - 1]) + TxtLine(ChunkOwner(prefix, |chunks| - 1), chunks[|chunks| - 1])
  }

  /** The whole zone fragment: the piece lines, then the index line. */
  function Records(prefix: string, chunks: seq<string>): string
  {
    ChunkLines(prefix, chunks) + TxtLine(IndexOwner(prefix), NatToString(|chunks|))
  }

  /** prepareStringAsDnsHostRecord. */
  method PrepareStringAsDnsHostRecord(hostNamePrefix: string, data: string) returns (result: string)
    ensures result == Records(hostNamePrefix, Chunks(data))
  {
    var chunks := Chunks(data);
    result := "";
    var counter := 0;
    while counter < |chunks|
      invariant 0 <= counter <= |chunks|
      invariant result == ChunkLines(hostNamePrefix, chunks[..counter])
    {
      assert chunks[..counter + 1][..counter] == chunks[..counter];
      result := result + TxtLine(ChunkOwner(hostNamePrefix, counter), chunks[counter]);
      counter := counter + 1;
    }
    assert chunks[..counter] == chunks;
    result := result + TxtLine(IndexOwner(hostNamePrefix), NatToString(counter));
  }

  // ------------------------------------------------------------ line count

  function Newlines(s: string): nat
  {
    if s == [] then 0 else (if s[|s| - 1] == '\n' then 1 else 0) + Newlines(s[..|s| - 1])
  }

  lemma {:induction false} NewlinesAppend(a: string, b: string)
    ensures Newlines(a + b) == Newlines(a) + Newlines(b)
    decreases |b|
  {
    if b != [] {
      assert (a + b)[..|a + b| - 1] == a + b[..|b| - 1];
      NewlinesAppend(a, b[..|b| - 1]);
    } else {
      assert a + b == a;
    }
  }

  lemma {:induction false} NoNewlines(s: string)
    requires '\n' !in s
    ensures Newlines(s) == 0
    decreases |s|
  {
    if s != [] {
      assert s[..|s| - 1] + [s[|s| - 1]] == s;
      NoNewlines(s[..|s| - 1]);
    }
  }

  /** A line whose owner and text hold no newline has just its final one. */
  lemma OneNewline(owner: string, text: string)
    requires '\n' !in owner && '\n' !in text
    ensures Newlines(TxtLine(owner, text)) == 1
  {
    var body := owner + "\tIN\tTXT\t" + Quoted(text);
    assert TxtLine(owner, text) == body + "\n";
    NoNewlines(body);
    NewlinesAppend(body, "\n");
  }

  lemma NoNewlineInDigits(n: nat)
    ensures '\n' !in NatToString(n)
  {
  }

  lemma {:induction false} ChunkLinesCount(prefix: string, chunks: seq<string>)
    requires '\n' !in prefix
    requires forall c :: c in chunks ==> '\n' !in c
    ensures Newlines(ChunkLines(prefix, chunks)) == |chunks|
    decreases |chunks|
  {
    if chunks != [] {
      var init := chunks[..|chunks| - 1];
      assert forall c :: c in init ==> c in chunks;
      ChunkLinesCount(prefix, init);
      NoNewlineInDigits(|chunks| - 1);
      OneNewline(ChunkOwner(prefix, |chunks| - 1), chunks[|chunks| - 1]);
      NewlinesAppend(ChunkLines(prefix, init), TxtLine(ChunkOwner(prefix, |chunks| - 1), chunks[|chunks| - 1]));
    }
  }

  /** Data and prefix without newlines give one line per piece plus the index line. */
  lemma RecordsLineCount(prefix: string, data: string)
    requires '\n' !in prefix && '\n' !in data
    ensures Newlines(Records(prefix, Chunks(data))) == |Chunks(data)| + 1
  {
    var chunks := Chunks(data);
    ChunksWithout(data, '\n');
    ChunkLinesCount(prefix, chunks);
    NoNewlineInDigits(|chunks|);
    OneNewline(IndexOwner(prefix), NatToString(|chunks|));
    NewlinesAppend(ChunkLines(prefix, chunks), TxtLine(IndexOwner(prefix), NatToString(|chunks|)));
  }

  /** A character absent from the data is absent from every piece. */
  lemma {:induction false} ChunksWithout(data: string, ch: char)
    requires ch !in data
    ensures forall c :: c in Chunks(data) ==> ch !in c
    decreases |data|
  {
    if |data| > CHUNK_LENGTH {
      var head, tail := data[..CHUNK_LENGTH], data[CHUNK_LENGTH..];
      assert data == head + tail;
      ChunksWithout(tail, ch);
      assert Chunks(data) == [head] + Chunks(tail);
    }
  }

  // ------------------------------------------------------------ decoding

  /** Integer.parseInt: an optional sign, then decimal digits, within the int range. */
  function ParseInt(s: string): (r: Option<int>)
    ensures r.Some? ==> IsInt32(r.value)
  {
    if |s| >= 1 && (s[0] == '-' || s[0] == '+') then
      match ParseNat(s[1..])
      case None => None
      case Some(p) =>
        var v := if s[0] == '-' then -(p as int) else p as int;
        if IsInt32(v) then Some(v) else None
    else
      match ParseNat(s)
      case None => None
      case Some(p) => if p <= MAX_VALUE then Some(p) else None
  }

  /** The two replaceAll calls: one leading quote and one trailing quote dropped. */
  function Unquote(s: string): (r: string)
    ensures |r| <= |s|
  {
    var t := if |s| > 0 && s[0] == '"' then s[1..] else s;
    if |t| > 0 && t[|t| - 1] == '"' then t[..|t| - 1] else t
  }

  lemma UnquoteQuoted(s: string)
    ensures Unquote(Quoted(s)) == s
  {
    assert Quoted(s)[1..] == s + "\"";
  }

  function IndexName(prefix: string, domain: string): string
  {
    IndexOwner(prefix) + "." + domain
  }

  function ChunkName(prefix: string, c: nat, domain: string): string
  {
    ChunkOwner(prefix, c) + "." + domain
  }

  /** What getStringFromDnsHostRecord ends with. */
  datatype Fetched =
    | Found(data: string)
    | Absent                             // null: no index record after every retry
    | Unparsable(indexText: string)      // NumberFormatException from parseInt
    | BadSize(indexText: string)         // RuntimeException: the count is not positive
    | MissingChunks(missing: set<int>)   // RuntimeException: these pieces were not found

  /** The pieces 0..n-1 looked up at attempt: the found texts in order, and the missing indexes. */
  function Assemble(prefix: string, domain: string, n: nat, lookup: (string, nat) -> Option<string>, attempt: nat): (r: (string, set<int>))
    ensures forall c :: c in r.1 <==> 0 <= c < n && lookup(ChunkName(prefix, c, domain), attempt).None?
  {
    if n == 0 then ("", {})
    else
      var (data, missing) := Assemble(prefix, domain, n - 1, lookup, attempt);
      match lookup(ChunkName(prefix, n - 1, domain), attempt)
      case Some(answer) => (data + Unquote(answer), missing)
      case None => (data, missing + {n - 1})
  }

  /** getStringFromDnsHostRecord, from attempt onwards, retrying a missing index retry more times. */
  function Fetch(prefix: string, domain: string, retry: int, lookup: (string, nat) -> Option<string>, attempt: nat): (r: Fetched)
    ensures r.Absent? <==>
      forall i :: attempt <= i <= attempt + (if retry > 0 then retry else 0) ==> lookup(IndexName(prefix, domain), i).None?
    ensures r.MissingChunks? ==> r.missing != {}
    decreases if retry > 0 then retry else 0
  {
    match lookup(IndexName(prefix, domain), attempt)
    case None =>
      if retry > 0 then
        var r := Fetch(prefix, domain, retry - 1, lookup, attempt + 1);
        assert r.Absent? ==> forall i :: attempt <= i <= attempt + retry ==> lookup(IndexName(prefix, domain), i).None? by {
          if r.Absent? {
            forall i | attempt <= i <= attempt + retry
              ensures lookup(IndexName(prefix, domain), i).None?
            {
              if i > attempt {
                assert attempt + 1 <= i <= attempt + 1 + (if retry - 1 > 0 then retry - 1 else 0);
              }
            }
          }
        }
        r
      else Absent
    case Some(text) =>
      match ParseInt(Unquote(text))
      case None => Unparsable(text)
      case Some(chunkSize) =>
        if chunkSize > 0 then
          var (data, missing) := Assemble(prefix, domain, chunkSize, lookup, attempt);
          if missing == {} then Found(data) else MissingChunks(missing)
        else BadSize(text)
  }

  /** The reading loop over pieces 0..chunkSize-1. */
  method ReadChunks(prefix: string, domain: string, chunkSize: nat, lookup: (string, nat) -> Option<string>, attempt: nat)
    returns (resultString: string, errors: set<int>)
    ensures (resultString, errors) == Assemble(prefix, domain, chunkSize, lookup, attempt)
  {
    resultString := "";
    errors := {};
    var c := 0;
    while c < chunkSize
      invariant 0 <= c <= chunkSize
      invariant (resultString, errors) == Assemble(prefix, domain, c, lookup, attempt)
    {
      var answer := lookup(ChunkName(prefix, c, domain), attempt);
      if answer.Some? {
        resultString := resultString + Unquote(answer.value);
      } else {
        errors := errors + {c};
      }
      c := c + 1;
    }
  }

  /** getStringFromDnsHostRecord. */
  method GetStringFromDnsHostRecord(hostNamePrefix: string, domain: string, retry: int,
                                    lookup: (string, nat) -> Option<string>, attempt: nat)
    returns (r: Fetched)
    ensures r == Fetch(hostNamePrefix, domain, retry, lookup, attempt)
    decreases if retry > 0 then retry else 0
  {
    var index := lookup(IndexName(hostNamePrefix, domain), attempt);
    if index.Some? {
      var chunkSize := ParseInt(Unquote(index.value));
      if chunkSize.None? {
        return Unparsable(index.value);
      }
      if chunkSize.value > 0 {
        var resultString, errors := ReadChunks(hostNamePrefix, domain, chunkSize.value, lookup, attempt);
        if errors != {} {
          return MissingChunks(errors);
        }
        return Found(resultString);
      }
      return BadSize(index.value);
    }
    if retry > 0 {
      r := GetStringFromDnsHostRecord(hostNamePrefix, domain, retry - 1, lookup, attempt + 1);
    } else {
      r := Absent;
    }
  }

  // ------------------------------------------------------------ round trip

  /** The lookup answers, at attempt, the records the encoder wrote for data under domain. */
  predicate Serves(lookup: (string, nat) -> Option<string>, prefix: string, domain: string, data: string, attempt: nat)
  {
    var chunks := Chunks(data);
    lookup(IndexName(prefix, domain), attempt) == Some(Quoted(NatToString(|chunks|))) &&
    forall c :: 0 <= c < |chunks| ==> lookup(ChunkName(prefix, c, domain), attempt) == Some(Quoted(chunks[c]))
  }

  lemma {:induction false} AssembleServed(prefix: string, domain: string, chunks: seq<string>, n: nat,
                                          lookup: (string, nat) -> Option<string>, attempt: nat)
    requires n <= |chunks|
    requires forall c {:trigger ChunkName(prefix, c, domain)} :: 0 <= c < |chunks| ==> lookup(ChunkName(prefix, c, domain), attempt) == Some(Quoted(chunks[c]))
    ensures Assemble(prefix, domain, n, lookup, attempt) == (Concat(chunks[..n]), {})
    decreases n
  {
    if n > 0 {
      var before, last := chunks[..n - 1], chunks[n - 1];
      AssembleServed(prefix, domain, chunks, n - 1, lookup, attempt);
      UnquoteQuoted(last);
      AssembleFound(prefix, domain, n, lookup, attempt, Quoted(last));
      ConcatAppend(before, last);
      assert chunks[..n] == before + [last];
    }
  }

  /** One more chunk that is answered appends its unquoted text and misses nothing new. */
  lemma AssembleFound(prefix: string, domain: string, n: nat, lookup: (string, nat) -> Option<string>, attempt: nat,
                      answer: string)
    requires n > 0 && lookup(ChunkName(prefix, n - 1, domain), attempt) == Some(answer)
    ensures Assemble(prefix, domain, n, lookup, attempt) ==
      (Assemble(prefix, domain, n - 1, lookup, attempt).0 + Unquote(answer), Assemble(prefix, domain, n - 1, lookup, attempt).1)
  {
  }

  lemma ParseIntNat(n: nat)
    requires n <= MAX_VALUE
    ensures ParseInt(NatToString(n)) == Some(n)
  {
    ParseNatToString(n);
  }

  /** Reading back what the encoder wrote yields the data, whatever the retry count. */
  lemma RoundTrip(prefix: string, domain: string, data: string, retry: int, lookup: (string, nat) -> Option<string>, attempt: nat)
    requires |data| <= MAX_VALUE
    requires Serves(lookup, prefix, domain, data, attempt)
    ensures Fetch(prefix, domain, retry, lookup, attempt) == Found(data)
  {
    var chunks := Chunks(data);
    assert |chunks| <= MAX_VALUE;
    UnquoteQuoted(NatToString(|chunks|));
    ParseIntNat(|chunks|);
    AssembleServed(prefix, domain, chunks, |chunks|, lookup, attempt);
    assert chunks[..|chunks|] == chunks;
  }
}
