/** The word-occurrence counter of src/search.rs (`find_occurrence`).

    The content is split into whitespace-delimited tokens, the tokens are cut
    into contiguous ranges sized from a parallelism hint, and every range is
    scanned for tokens equal to the target word, a shared counter going up by
    one per match. The worker threads and the mutex are sequentialised here:
    the ranges are scanned one after the other and add to one counter. */
module Search {

  /** How `find_occurrence` can fail. */
  datatype SearchError =
    | DivisionByZero  // `usize::div_ceil` with a zero divisor panics

  datatype Result<T> = Ok(value: T) | Err(error: SearchError)

  // ---------------------------------------------------------------------
  // Tokenising: `str::split_whitespace`
  // ---------------------------------------------------------------------

  /** `char::is_whitespace`: the characters with the Unicode White_Space property. */
  predicate IsWhitespace(c: char)
  {
    ('\U{0009}' <= c <= '\U{000D}') || c == ' ' || c == '\U{0085}' || c == '\U{00A0}'
    || c == '\U{1680}' || ('\U{2000}' <= c <= '\U{200A}') || c == '\U{2028}'
    || c == '\U{2029}' || c == '\U{202F}' || c == '\U{205F}' || c == '\U{3000}'
  }

  /** A token: a non-empty string without whitespace. */
  predicate IsToken(t: string)
  {
    |t| > 0 && forall k :: 0 <= k < |t| ==> !IsWhitespace(t[k])
  }

  /** The length of the longest whitespace-free prefix of `s`. */
  function LeadingRun(s: string): (n: nat)
    ensures n <= |s|
    ensures forall k :: 0 <= k < n ==> !IsWhitespace(s[k])
    ensures n < |s| ==> IsWhitespace(s[n])
  {
    if s == [] || IsWhitespace(s[0]) then 0 else 1 + LeadingRun(s[1..])
  }

  /** The maximal runs of non-whitespace characters of `s`, in order. */
  function SplitWhitespace(s: string): (ts: seq<string>)
    ensures forall i :: 0 <= i < |ts| ==> IsToken(ts[i])
    decreases |s|
  {
    if s == [] then []
    else if IsWhitespace(s[0]) then SplitWhitespace(s[1..])
    else
      var n := LeadingRun(s);
      [s[..n]] + SplitWhitespace(s[n..])
  }

  /** The tokens joined by single spaces: a text `SplitWhitespace` reads back. */
  function JoinWords(ts: seq<string>): string
  {
    if |ts| == 0 then ""
    else if |ts| == 1 then ts[0]
    else ts[0] + " " + JoinWords(ts[1..])
  }

  /** The concatenation of all strings of `ts`. */
  function Concat(ts: seq<string>): string
  {
    if ts == [] then [] else ts[0] + Concat(ts[1..])
  }

  /** The characters of `s` that are not whitespace, in order. */
  function NonWhitespace(s: string): string
  {
    if s == [] then []
    else if IsWhitespace(s[0]) then NonWhitespace(s[1..])
    else [s[0]] + NonWhitespace(s[1..])
  }

  lemma {:induction false} LeadingRunOfToken(t: string, rest: string)
    requires forall k :: 0 <= k < |t| ==> !IsWhitespace(t[k])
    requires rest == [] || IsWhitespace(rest[0])
    ensures LeadingRun(t + rest) == |t|
  {
    if t != [] {
      assert (t + rest)[1..] == t[1..] + rest;
      LeadingRunOfToken(t[1..], rest);
    }
  }

  /** Splitting a space-joined sequence of tokens gives the tokens back. */
  lemma {:induction false} SplitJoin(ts: seq<string>)
    requires forall i :: 0 <= i < |ts| ==> IsToken(ts[i])
    ensures SplitWhitespace(JoinWords(ts)) == ts
  {
    if |ts| == 1 {
      LeadingRunOfToken(ts[0], []);
      assert ts[0] + [] == ts[0];
      assert ts[0][..|ts[0]|] == ts[0];
    } else if |ts| > 1 {
      var t, rest := ts[0], JoinWords(ts[1..]);
      var s := t + " " + rest;
      var tail := " " + rest;
      assert s == t + tail;
      LeadingRunOfToken(t, tail);
      assert s[0] == t[0];
      assert s[..|t|] == t;
      assert s[|t|..] == tail;
      assert tail[1..] == rest;
      SplitJoin(ts[1..]);
      assert SplitWhitespace(tail) == ts[1..];
      assert ts == [t] + ts[1..];
    }
  }

  lemma {:induction false} NonWhitespaceAppend(a: string, b: string)
    ensures NonWhitespace(a + b) == NonWhitespace(a) + NonWhitespace(b)
  {
    if a != [] {
      assert (a + b)[1..] == a[1..] + b;
      NonWhitespaceAppend(a[1..], b);
    } else {
      assert a + b == b;
    }
  }

  lemma {:induction false} NonWhitespaceOfRun(t: string)
    requires forall k :: 0 <= k < |t| ==> !IsWhitespace(t[k])
    ensures NonWhitespace(t) == t
  {
    if t != [] {
      NonWhitespaceOfRun(t[1..]);
    }
  }

  lemma {:induction false} LeadingRunStops(x: string, y: string)
    requires LeadingRun(x) < |x|
    ensures LeadingRun(x + y) == LeadingRun(x)
  {
    if !IsWhitespace(x[0]) {
      assert (x + y)[1..] == x[1..] + y;
      LeadingRunStops(x[1..], y);
    }
  }

  /** A whitespace character always separates tokens: the tokens of
      `a + [c] + b` are those of `a` followed by those of `b`. */
  lemma {:induction false} SplitAtWhitespace(a: string, c: char, b: string)
    requires IsWhitespace(c)
    ensures SplitWhitespace(a + [c] + b) == SplitWhitespace(a) + SplitWhitespace(b)
    decreases |a|
  {
    var s := a + [c] + b;
    if a == [] {
      assert s == [c] + b && s[1..] == b;
    } else if IsWhitespace(a[0]) {
      assert s[1..] == a[1..] + [c] + b;
      SplitAtWhitespace(a[1..], c, b);
    } else {
      var m := LeadingRun(a);
      if m < |a| {
        LeadingRunStops(a, [c] + b);
        assert s == a + ([c] + b);
        assert s[..m] == a[..m];
        assert s[m..] == a[m..] + [c] + b;
        SplitAtWhitespace(a[m..], c, b);
      } else {
        LeadingRunOfToken(a, [c] + b);
        assert s == a + ([c] + b);
        assert s[..m] == a && a[..m] == a;
        assert s[m..] == [c] + b && s[m..][1..] == b;
        assert a[m..] == [];
      }
    }
  }

  /** The tokens hold exactly the non-whitespace characters of the content,
      in their original order: splitting loses only whitespace. */
  lemma {:induction false} SplitKeepsNonWhitespace(s: string)
    ensures Concat(SplitWhitespace(s)) == NonWhitespace(s)
    decreases |s|
  {
    if s == [] {
    } else if IsWhitespace(s[0]) {
      SplitKeepsNonWhitespace(s[1..]);
    } else {
      var n := LeadingRun(s);
      assert s == s[..n] + s[n..];
      SplitKeepsNonWhitespace(s[n..]);
      NonWhitespaceAppend(s[..n], s[n..]);
      NonWhitespaceOfRun(s[..n]);
      var ts := [s[..n]] + SplitWhitespace(s[n..]);
      assert ts[0] == s[..n] && ts[1..] == SplitWhitespace(s[n..]);
    }
  }

  // ---------------------------------------------------------------------
  // Counting: the sequential oracle
  // ---------------------------------------------------------------------

  /** The number of tokens of `ts` exactly equal to `word`. */
  function CountMatches(ts: seq<string>, word: string): (r: nat)
    ensures r <= |ts|
  {
    if ts == [] then 0
    else CountMatches(ts[..|ts| - 1], word) + (if ts[|ts| - 1] == word then 1 else 0)
  }

  /** Counting distributes over concatenation. */
  lemma {:induction false} CountAppend(a: seq<string>, b: seq<string>, word: string)
    ensures CountMatches(a + b, word) == CountMatches(a, word) + CountMatches(b, word)
    decreases |b|
  {
    if b == [] {
      assert a + b == a;
    } else {
      assert (a + b)[..|a + b| - 1] == a + b[..|b| - 1];
      CountAppend(a, b[..|b| - 1], word);
    }
  }

  /** The count is the multiplicity of `word` among the tokens: exact
      equality only, whatever the order of the tokens. */
  lemma {:induction false} CountIsMultiplicity(ts: seq<string>, word: string)
    ensures CountMatches(ts, word) == multiset(ts)[word]
  {
    if ts != [] {
      var init := ts[..|ts| - 1];
      assert ts == init + [ts[|ts| - 1]];
      CountIsMultiplicity(init, word);
    }
  }

  /** The word is counted at least once exactly when it is one of the tokens. */
  lemma CountPositiveIffPresent(ts: seq<string>, word: string)
    ensures CountMatches(ts, word) > 0 <==> word in ts
  {
    CountIsMultiplicity(ts, word);
  }

  // ---------------------------------------------------------------------
  // Partition arithmetic
  // ---------------------------------------------------------------------

  /** `usize::div_ceil`: the least multiple count of `b` that reaches `a`. */
  function DivCeil(a: nat, b: nat): (r: nat)
    requires b > 0
    ensures a <= r * b < a + b
  {
    var d := a / b;
    if a % b > 0 then d + 1 else d
  }

  lemma MulLeft(x: nat, y: nat, c: nat)
    requires x <= y
    ensures x * c <= y * c
  {
  }

  /** `DivCeil(a, b)` is the least `c` with `c * b >= a`. */
  lemma DivCeilLeast(a: nat, b: nat, c: nat)
    requires b > 0 && a <= c * b
    ensures DivCeil(a, b) <= c
  {
    var r := DivCeil(a, b);
    if c < r {
      MulLeft(c, r - 1, b);
    }
  }

  /** The words per worker and the number of workers actually used. */
  datatype Plan = Plan(chunk: nat, count: nat)

  /** The sizing of src/search.rs:24-26: `chunk = ceil(n / p)` and then
      `count = ceil(n / chunk)`, the second division failing when `n == 0`. */
  function PartitionPlan(n: nat, p: nat): (r: Result<Plan>)
    requires p >= 1
    ensures r.Err? <==> n == 0
    ensures r.Err? ==> r.error == DivisionByZero
  {
    var chunk := DivCeil(n, p);
    if chunk == 0 then Err(DivisionByZero) else Ok(Plan(chunk, DivCeil(n, chunk)))
  }

  /** With at least one token the plan has chunks of at least one token, at
      least one and at most `p` and `n` partitions, and the last partition is
      the one that reaches `n`. */
  lemma PlanBounds(n: nat, p: nat)
    requires p >= 1 && n > 0
    ensures PartitionPlan(n, p).Ok?
    ensures var pl := PartitionPlan(n, p).value;
      && pl.chunk >= 1 && pl.chunk <= n
      && 1 <= pl.count <= p && pl.count <= n
      && (pl.count - 1) * pl.chunk < n <= pl.count * pl.chunk
  {
    ChunkBounds(n, p);
    CountBounds(n, p, DivCeil(n, p));
  }

  /** `ceil(n / p)` lies between 1 and `n`. */
  lemma ChunkBounds(n: nat, p: nat)
    requires p >= 1 && n > 0
    ensures 1 <= DivCeil(n, p) <= n
  {
    DivCeilLeast(n, p, n);
  }

  /** With `chunk = ceil(n / p)`, `ceil(n / chunk)` is at least 1, at most `p`
      and `n`, and its last chunk is the one that reaches `n`. */
  lemma CountBounds(n: nat, p: nat, chunk: nat)
    requires p >= 1 && n > 0 && 1 <= chunk && n <= chunk * p
    ensures var count := DivCeil(n, chunk);
      && 1 <= count <= p && count <= n
      && (count - 1) * chunk < n <= count * chunk
  {
    var count := DivCeil(n, chunk);
    DivCeilLeast(n, chunk, p);
    MulLeft(1, chunk, n);
    DivCeilLeast(n, chunk, n);
    assert (count - 1) * chunk == count * chunk - chunk;
  }

  /** A multiple of `chunk` divides back exactly. */
  lemma MulDivExact(i: nat, chunk: nat)
    ensures chunk > 0 ==> (i * chunk) % chunk == 0 && (i * chunk) / chunk == i
  {
    if chunk > 0 {
      var q, rem := (i * chunk) / chunk, (i * chunk) % chunk;
      assert (i - q) * chunk == rem;
      if q < i {
        MulLeft(1, i - q, chunk);
      }
    }
  }

  /** First token index of partition `i`. */
  function RangeFrom(i: nat, chunk: nat): (r: nat)
    // the first index whose partition is `i`: a multiple of `chunk` with quotient `i`
    ensures chunk > 0 ==> r % chunk == 0 && r / chunk == i
  {
    MulDivExact(i, chunk);
    i * chunk
  }

  /** One past the last token index of partition `i`. */
  function RangeTo(i: nat, chunk: nat, n: nat): (r: nat)
    // the smaller of the full chunk's end and the token count
    ensures r <= n && r <= RangeFrom(i, chunk) + chunk
    ensures r == n || r == RangeFrom(i, chunk) + chunk
  {
    if i * chunk + chunk < n then i * chunk + chunk else n
  }

  /** The partition that holds token index `k`. */
  function Owner(k: nat, chunk: nat): nat
    requires chunk > 0
  {
    k / chunk
  }

  /** `count` partitions of `chunk` tokens reach `n` and the last one is needed. */
  predicate Fits(n: nat, chunk: nat, count: nat)
  {
    chunk >= 1 && count >= 1 && (count - 1) * chunk < n <= count * chunk
  }

  lemma RangeInBounds(n: nat, chunk: nat, count: nat, i: nat)
    requires Fits(n, chunk, count) && i < count
    ensures RangeFrom(i, chunk) < RangeTo(i, chunk, n) <= n
  {
    MulLeft(i, count - 1, chunk);
  }

  lemma RangesApart(n: nat, chunk: nat, i: nat, j: nat)
    requires chunk >= 1 && i < j
    ensures RangeTo(i, chunk, n) <= RangeFrom(j, chunk)
  {
    MulLeft(i + 1, j, chunk);
  }

  lemma OwnerRange(n: nat, chunk: nat, count: nat, k: nat)
    requires Fits(n, chunk, count) && k < n
    ensures Owner(k, chunk) < count
    ensures RangeFrom(Owner(k, chunk), chunk) <= k < RangeTo(Owner(k, chunk), chunk, n)
  {
    var i := Owner(k, chunk);
    assert i * chunk <= k < i * chunk + chunk;
    if i >= count {
      MulLeft(count, i, chunk);
    }
  }

  /** Each partition ends where the next one starts; the last one ends at `n`. */
  lemma RangesAdjacent(n: nat, chunk: nat, count: nat, i: nat)
    requires Fits(n, chunk, count) && i < count
    ensures i + 1 < count ==> RangeTo(i, chunk, n) == RangeFrom(i + 1, chunk)
    ensures i + 1 == count ==> RangeTo(i, chunk, n) == n
  {
    if i + 1 < count {
      MulLeft(i + 1, count - 1, chunk);
    }
  }

  /** The partitions of the plan for `n` tokens and hint `p` are non-empty,
      lie inside `[0, n)`, are pairwise disjoint and cover every index. */
  lemma RangesPartition(n: nat, p: nat)
    requires p >= 1 && n > 0
    ensures PartitionPlan(n, p).Ok?
    ensures var pl := PartitionPlan(n, p).value;
      forall i :: 0 <= i < pl.count ==>
        RangeFrom(i, pl.chunk) < RangeTo(i, pl.chunk, n) <= n
    ensures var pl := PartitionPlan(n, p).value;
      forall i, j :: 0 <= i < j < pl.count ==>
        RangeTo(i, pl.chunk, n) <= RangeFrom(j, pl.chunk)
    ensures var pl := PartitionPlan(n, p).value;
      forall k :: 0 <= k < n ==>
        Owner(k, pl.chunk) < pl.count
        && RangeFrom(Owner(k, pl.chunk), pl.chunk) <= k < RangeTo(Owner(k, pl.chunk), pl.chunk, n)
  {
    PlanBounds(n, p);
    var pl := PartitionPlan(n, p).value;
    var chunk, count := pl.chunk, pl.count;
    assert Fits(n, chunk, count);
    forall i | 0 <= i < count
      ensures RangeFrom(i, chunk) < RangeTo(i, chunk, n) <= n
    {
      RangeInBounds(n, chunk, count, i);
    }
    forall i, j | 0 <= i < j < count
      ensures RangeTo(i, chunk, n) <= RangeFrom(j, chunk)
    {
      RangesApart(n, chunk, i, j);
    }
    forall k | 0 <= k < n
      ensures Owner(k, chunk) < count
      ensures RangeFrom(Owner(k, chunk), chunk) <= k < RangeTo(Owner(k, chunk), chunk, n)
    {
      OwnerRange(n, chunk, count, k);
    }
  }

  // ---------------------------------------------------------------------
  // find_occurrence
  // ---------------------------------------------------------------------

  /** `find_occurrence(content, word)` with the parallelism hint `p` as an
      input. The partitions are scanned in sequence; every match adds one to
      the shared counter. Empty content (no tokens) ends in the division by
      zero of src/search.rs:26. */
  method FindOccurrence(content: string, word: string, p: nat) returns (r: Result<nat>)
    requires p >= 1
    ensures r.Err? <==> SplitWhitespace(content) == []
    ensures r.Err? ==> r.error == DivisionByZero
    ensures r.Ok? ==> r.value == CountMatches(SplitWhitespace(content), word)
  {
    var words := SplitWhitespace(content);
    var n := |words|;
    var plan := PartitionPlan(n, p);
    if plan.Err? {
      return Err(plan.error);
    }
    PlanBounds(n, p);
    var chunk, count := plan.value.chunk, plan.value.count;
    assert Fits(n, chunk, count);

    var occurrence := 0;
    var processor := 0;
    while processor < count
      invariant processor <= count
      invariant processor < count ==>
        (RangeFrom(processor, chunk) <= n
         && occurrence == CountMatches(words[..RangeFrom(processor, chunk)], word))
      invariant processor == count ==> occurrence == CountMatches(words, word)
    {
      var from := RangeFrom(processor, chunk);
      var to := RangeTo(processor, chunk, n);
      RangeInBounds(n, chunk, count, processor);
      var i := from;
      while i < to
        invariant from <= i <= to
        invariant occurrence == CountMatches(words[..i], word)
      {
        assert words[..i + 1][..i] == words[..i];
        if words[i] == word {
          occurrence := occurrence + 1;
        }
        i := i + 1;
      }
      RangesAdjacent(n, chunk, count, processor);
      processor := processor + 1;
      if processor == count {
        assert words[..n] == words;
      }
    }
    return Ok(occurrence);
  }

  /** Content made of whitespace only (the empty string included) has no
      tokens, so its plan divides by zero: `find_occurrence` panics there
      instead of answering 0. */
  lemma {:induction false} WhitespaceOnlyHasNoPlan(content: string, p: nat)
    requires p >= 1
    requires forall k :: 0 <= k < |content| ==> IsWhitespace(content[k])
    ensures SplitWhitespace(content) == []
    ensures PartitionPlan(|SplitWhitespace(content)|, p) == Err(DivisionByZero)
  {
    if content != [] {
      WhitespaceOnlyHasNoPlan(content[1..], p);
    }
  }

  /** `find_occurrence` with the empty case answered as intended: no tokens,
      no partitions, a count of 0. */
  method FindOccurrenceOrZero(content: string, word: string, p: nat) returns (r: nat)
    requires p >= 1
    ensures r == CountMatches(SplitWhitespace(content), word)
    ensures r == multiset(SplitWhitespace(content))[word]
  {
    CountIsMultiplicity(SplitWhitespace(content), word);
    var result := FindOccurrence(content, word, p);
    match result
    case Ok(count) => r := count;
    case Err(_) => r := 0;
  }

  /** The words of the sample text used by the entry point. */
  const SampleWords: seq<string> := SampleHead + SampleTail

  /** The sample's first nine words and its last eight. */
  const SampleHead: seq<string> :=
    ["Ciao", "mi", "chiamo", "Michele", "Maione", "e", "sono", "un", "informatico"]
  const SampleTail: seq<string> :=
    ["e", "sono", "nato", "a", "Napoli", "e", "sono", "bello"]

  /** The sample text: its words separated by single spaces. */
  function SampleText(): string
  {
    JoinWords(SampleWords)
  }

  /** The sample text splits back into its words. */
  lemma SampleSplit()
    ensures SplitWhitespace(SampleText()) == SampleWords
  {
    SplitJoin(SampleWords);
  }

  lemma SampleHeadCounts()
    ensures CountMatches(SampleHead, "sono") == 1 && CountMatches(SampleHead, "Napoli") == 0
  {
    CountIsMultiplicity(SampleHead, "sono");
    CountIsMultiplicity(SampleHead, "Napoli");
  }

  lemma SampleTailCounts()
    ensures CountMatches(SampleTail, "sono") == 2 && CountMatches(SampleTail, "Napoli") == 1
  {
    CountIsMultiplicity(SampleTail, "sono");
    CountIsMultiplicity(SampleTail, "Napoli");
  }

  /** The entry point's first query: "sono" occurs three times. */
  lemma SampleCountSono()
    ensures CountMatches(SplitWhitespace(SampleText()), "sono") == 3
  {
    SampleHeadCounts();
    SampleTailCounts();
    CountAppend(SampleHead, SampleTail, "sono");
    SampleSplit();
  }

  /** The entry point's second query: "Napoli" occurs once. */
  lemma SampleCountNapoli()
    ensures CountMatches(SplitWhitespace(SampleText()), "Napoli") == 1
  {
    SampleHeadCounts();
    SampleTailCounts();
    CountAppend(SampleHead, SampleTail, "Napoli");
    SampleSplit();
  }
}
