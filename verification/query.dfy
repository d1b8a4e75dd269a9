/**
 * The deterministic text logic of the question-answering entry point:
 * how the nearest-neighbour hits are turned into the context handed to the
 * language model, how the requested answer length is read and clamped, and
 * which index and chunk files a router letter selects.
 */
module Query {
  import opened Wrappers
  import opened PyStr
  import opened Decimal

  // ---------------------------------------------------------------------
  // Search results and the context built from them
  // ---------------------------------------------------------------------

  /** One row of the index's answer: the similarity score, already rounded
      to hundredths (`score` 0.8712 arrives as 87), and the chunk position
      (FAISS reports `-1` when it has fewer than `k` vectors). */
  datatype Hit = Hit(score: int, position: int)

  /** What the search produced before the context is assembled: the hits
      in the order the index returned them, or the message of an exception
      raised while loading the model, the index or the chunks, or while
      searching. */
  datatype SearchOutcome = Searched(hits: seq<Hit>) | Raised(message: string)

  const NoResults: string := "No se encontr\U{F3} informaci\U{F3}n relevante."
  const ErrorPrefix: string := "Error al buscar informaci\U{F3}n: "
  const BlockSeparator: string := "\n\n---\n\n"
  const ScoreLabel: string := "[Relevancia: "

  /** `f"{score:.2f}"` for a score held in hundredths. */
  function FormatScore(hundredths: int): string
  {
    var m: nat := if hundredths < 0 then -hundredths else hundredths;
    var sign := if hundredths < 0 then "-" else "";
    var cents := m % 100;
    sign + NatToString(m / 100) + "." + [Digit(cents / 10), Digit(cents % 10)]
  }

  /** The score text has an optional minus sign, whole digits, a point and
      exactly two decimals; the sign appears exactly for negative scores. */
  lemma FormatScoreShape(hundredths: int)
    ensures var r := FormatScore(hundredths);
      && |r| >= 4 && r[|r| - 3] == '.'
      && AllDigits(r[|r| - 2..])
      && (r[0] == '-' <==> hundredths < 0)
      && (hundredths < 0 ==> AllDigits(r[1..|r| - 3]))
      && (hundredths >= 0 ==> AllDigits(r[..|r| - 3]))
  {
    var m: nat := if hundredths < 0 then -hundredths else hundredths;
    NatToStringShape(m / 100);
    var digits := NatToString(m / 100);
    var r := FormatScore(hundredths);
    if hundredths < 0 {
      assert r[1..|r| - 3] == digits;
    } else {
      assert r[..|r| - 3] == digits;
    }
  }

  /** Reads an unsigned two-decimal text back into hundredths: one or more
      digits, a point and exactly two digits. */
  function ParseUnsigned(body: string): Option<nat>
  {
    if |body| < 4 || body[|body| - 3] != '.' then None
    else
      var whole := body[..|body| - 3];
      var tenths, hundredths := body[|body| - 2], body[|body| - 1];
      if !AllDigits(whole) || !IsDigit(tenths) || !IsDigit(hundredths) then None
      else Some(GroupsValue(whole) * 100 + DigitValue(tenths) * 10 + DigitValue(hundredths))
  }

  /** Reads a score written by `FormatScore` back into hundredths. */
  function ParseScore(t: string): Option<int>
  {
    if t != [] && t[0] == '-' then
      match ParseUnsigned(t[1..])
      case None => None
      case Some(v) => Some(-(v as int))
    else
      match ParseUnsigned(t)
      case None => None
      case Some(v) => Some(v as int)
  }

  lemma HundredthsSplit(m: nat)
    ensures m / 100 * 100 + m % 100 / 10 * 10 + m % 100 % 10 == m
  {
    var r := m % 100;
    assert r / 10 * 10 + r % 10 == r;
  }

  /** Digits, a point and two digits read back as their value. */
  lemma ParseUnsignedDigits(whole: string, tenths: char, hundredths: char)
    requires whole != [] && AllDigits(whole) && IsDigit(tenths) && IsDigit(hundredths)
    ensures ParseUnsigned(whole + "." + [tenths, hundredths])
      == Some(GroupsValue(whole) * 100 + DigitValue(tenths) * 10 + DigitValue(hundredths))
  {
    var body := whole + "." + [tenths, hundredths];
    assert |body| == |whole| + 3;
    assert body[|body| - 3] == '.';
    assert body[|body| - 2] == tenths && body[|body| - 1] == hundredths;
    assert body[..|body| - 3] == whole;
  }

  /** The printed score determines the score: formatting loses nothing. */
  lemma ScoreRoundTrip(hundredths: int)
    ensures ParseScore(FormatScore(hundredths)) == Some(hundredths)
  {
    var m: nat := if hundredths < 0 then -hundredths else hundredths;
    var cents := m % 100;
    var digits := NatToString(m / 100);
    NatToStringShape(m / 100);
    ParseUnsignedDigits(digits, Digit(cents / 10), Digit(cents % 10));
    HundredthsSplit(m);
    var body := digits + "." + [Digit(cents / 10), Digit(cents % 10)];
    assert ParseUnsigned(body) == Some(m);
    if hundredths < 0 {
      assert FormatScore(hundredths) == "-" + body;
      assert ("-" + body)[1..] == body;
    } else {
      assert FormatScore(hundredths) == body;
      assert body[0] == digits[0];
    }
  }

  /** The block one surviving hit contributes:
      `f"[Relevancia: {score:.2f}]\n{chunks[idx]}"`. */
  function Block(score: int, chunk: string): string
  {
    ScoreLabel + FormatScore(score) + "]\n" + chunk
  }

  /** A block opens with the score label and ends with a line break
      followed by the chunk text, untouched. */
  lemma BlockShape(score: int, chunk: string)
    ensures var b := Block(score, chunk);
      && ScoreLabel <= b
      && |chunk| < |b| && b[|b| - |chunk|..] == chunk && b[|b| - |chunk| - 1] == '\n'
  {
  }

  /** The first position of `c` in `s`. */
  function IndexOf(s: string, c: char): (r: Option<nat>)
    ensures r.Some? ==> r.value < |s| && s[r.value] == c && c !in s[..r.value]
    ensures r.None? ==> c !in s
  {
    if s == [] then None
    else if s[0] == c then Some(0)
    else match IndexOf(s[1..], c)
      case None => None
      case Some(j) => assert s[..j + 1] == [s[0]] + s[1..][..j]; Some(j + 1)
  }

  /** Takes a block apart again: the score after the label, up to the first
      `]`, and the chunk text after the line break. */
  function ParseBlock(b: string): Option<(int, string)>
  {
    if |b| < |ScoreLabel| || b[..|ScoreLabel|] != ScoreLabel then None
    else
      var rest := b[|ScoreLabel|..];
      match IndexOf(rest, ']')
      case None => None
      case Some(j) =>
        if j + 1 < |rest| && rest[j + 1] == '\n' then
          match ParseScore(rest[..j])
          case None => None
          case Some(v) => Some((v, rest[j + 2..]))
        else None
  }

  lemma FormatScoreChars(hundredths: int)
    ensures ']' !in FormatScore(hundredths)
  {
    var m: nat := if hundredths < 0 then -hundredths else hundredths;
    NatToStringShape(m / 100);
    var digits := NatToString(m / 100);
    assert forall i :: 0 <= i < |digits| ==> digits[i] != ']';
  }

  /** A block gives back exactly the score and the chunk text it was made
      from, whatever the chunk contains. */
  lemma {:induction false} BlockRoundTrip(score: int, chunk: string)
    ensures ParseBlock(Block(score, chunk)) == Some((score, chunk))
  {
    var f := FormatScore(score);
    var b := Block(score, chunk);
    var rest := f + "]\n" + chunk;
    assert b == ScoreLabel + rest;
    assert b[..|ScoreLabel|] == ScoreLabel && b[|ScoreLabel|..] == rest;
    FormatScoreChars(score);
    assert IndexOf(rest, ']') == Some(|f|) by {
      IndexOfAfter(f, ']', "\n" + chunk);
      assert rest == f + [']'] + ("\n" + chunk);
    }
    assert rest[..|f|] == f && rest[|f| + 2..] == chunk;
    ScoreRoundTrip(score);
  }

  lemma {:induction false} IndexOfAfter(x: string, c: char, y: string)
    requires c !in x
    ensures IndexOf(x + [c] + y, c) == Some(|x|)
    decreases |x|
  {
    if x == [] {
      assert (x + [c] + y)[0] == c;
    } else {
      var s := x + [c] + y;
      assert s[0] == x[0] && s[1..] == x[1..] + [c] + y;
      IndexOfAfter(x[1..], c, y);
    }
  }

  /** How many leading hits the loop looks at: `range(min(k, len(hits)))`,
      which is empty when `k` is not positive. */
  function Examined(hits: seq<Hit>, k: int): (n: nat)
    ensures n <= |hits|
    ensures k <= 0 ==> n == 0
    ensures 0 <= k <= |hits| ==> n == k
    ensures |hits| <= k ==> n == |hits|
  {
    var m := Min(k, |hits|);
    if m < 0 then 0 else m
  }

  /** The first `n` hits whose position names a stored chunk, in the index's
      order. */
  function Survivors(hits: seq<Hit>, count: int, n: nat): (s: seq<Hit>)
    requires n <= |hits|
    ensures |s| <= n
    ensures forall j :: 0 <= j < |s| ==> 0 <= s[j].position < count
    ensures forall x :: x in s ==> x in hits[..n]
  {
    if n == 0 then []
    else
      var before := Survivors(hits, count, n - 1);
      assert hits[..n - 1] <= hits[..n];
      if 0 <= hits[n - 1].position < count then before + [hits[n - 1]] else before
  }

  /** One block per survivor, in the survivors' order. */
  function Blocks(survivors: seq<Hit>, chunks: seq<string>): (r: seq<string>)
    requires forall j :: 0 <= j < |survivors| ==> 0 <= survivors[j].position < |chunks|
    ensures |r| == |survivors|
  {
    if survivors == [] then []
    else
      var last := survivors[|survivors| - 1];
      Blocks(survivors[..|survivors| - 1], chunks) + [Block(last.score, chunks[last.position])]
  }

  /** Block `j` is survivor `j` formatted with its own chunk. */
  lemma {:induction false} BlocksAt(survivors: seq<Hit>, chunks: seq<string>, j: nat)
    requires forall i :: 0 <= i < |survivors| ==> 0 <= survivors[i].position < |chunks|
    requires j < |survivors|
    ensures Blocks(survivors, chunks)[j] == Block(survivors[j].score, chunks[survivors[j].position])
    decreases |survivors|
  {
    if j < |survivors| - 1 {
      var front := survivors[..|survivors| - 1];
      BlocksAt(front, chunks, j);
      assert front[j] == survivors[j];
    }
  }

  /** What `context_parts` holds after the loop has looked at the first `n`
      hits. */
  function Collected(hits: seq<Hit>, chunks: seq<string>, n: nat): (r: seq<string>)
    requires n <= |hits|
    ensures |r| <= n
  {
    if n == 0 then []
    else
      var h := hits[n - 1];
      Collected(hits, chunks, n - 1)
        + (if 0 <= h.position < |chunks| then [Block(h.score, chunks[h.position])] else [])
  }

  /** The blocks `search_faiss` joins into the context. */
  function Parts(hits: seq<Hit>, chunks: seq<string>, k: int): (r: seq<string>)
    ensures |r| <= |hits| && (k <= 0 ==> r == [])
    ensures 0 <= k ==> |r| <= k
  {
    Collected(hits, chunks, Examined(hits, k))
  }

  /** The string `search_faiss` returns. The three kinds of answer are told
      apart by their first character, and a single survivor gives exactly
      its block, with no separator. */
  function ContextFor(outcome: SearchOutcome, chunks: seq<string>, k: int): (c: string)
    ensures c != []
    ensures c[0] == 'E' <==> outcome.Raised?
    ensures c[0] == 'N' <==> outcome.Searched? && Parts(outcome.hits, chunks, k) == []
    ensures c[0] == '[' <==> outcome.Searched? && Parts(outcome.hits, chunks, k) != []
    ensures outcome.Searched? && |Parts(outcome.hits, chunks, k)| == 1 ==>
      c == Parts(outcome.hits, chunks, k)[0]
  {
    match outcome
    case Raised(message) => ErrorPrefix + message
    case Searched(hits) =>
      var parts := Parts(hits, chunks, k);
      if parts == [] then NoResults
      else
        var n := Examined(hits, k);
        CollectedBlocks(hits, chunks, n);
        BlocksAt(Survivors(hits, |chunks|, n), chunks, 0);
        JoinEnds(BlockSeparator, parts);
        Join(BlockSeparator, parts)
  }

  /** The collected blocks are exactly the surviving hits, each formatted
      with its own chunk, in the index's order. */
  lemma {:induction false} CollectedBlocks(hits: seq<Hit>, chunks: seq<string>, n: nat)
    requires n <= |hits|
    ensures Collected(hits, chunks, n) == Blocks(Survivors(hits, |chunks|, n), chunks)
  {
    if n > 0 {
      CollectedBlocks(hits, chunks, n - 1);
      var h := hits[n - 1];
      var before := Survivors(hits, |chunks|, n - 1);
      if 0 <= h.position < |chunks| {
        CollectedKeep(hits, chunks, n);
        BlocksSnoc(before, h, chunks);
      } else {
        CollectedSkip(hits, chunks, n);
      }
    }
  }

  /** A hit that names a stored chunk survives and adds its block. */
  lemma CollectedKeep(hits: seq<Hit>, chunks: seq<string>, n: nat)
    requires 0 < n <= |hits| && 0 <= hits[n - 1].position < |chunks|
    ensures Survivors(hits, |chunks|, n) == Survivors(hits, |chunks|, n - 1) + [hits[n - 1]]
    ensures Collected(hits, chunks, n)
         == Collected(hits, chunks, n - 1) + [Block(hits[n - 1].score, chunks[hits[n - 1].position])]
  {
  }

  /** A hit that names no stored chunk is dropped. */
  lemma CollectedSkip(hits: seq<Hit>, chunks: seq<string>, n: nat)
    requires 0 < n <= |hits| && !(0 <= hits[n - 1].position < |chunks|)
    ensures Survivors(hits, |chunks|, n) == Survivors(hits, |chunks|, n - 1)
    ensures Collected(hits, chunks, n) == Collected(hits, chunks, n - 1)
  {
    assert Collected(hits, chunks, n - 1) + [] == Collected(hits, chunks, n - 1);
  }

  /** One more survivor adds its block at the end. */
  lemma BlocksSnoc(survivors: seq<Hit>, h: Hit, chunks: seq<string>)
    requires forall j :: 0 <= j < |survivors| ==> 0 <= survivors[j].position < |chunks|
    requires 0 <= h.position < |chunks|
    ensures forall j :: 0 <= j < |survivors + [h]| ==> 0 <= (survivors + [h])[j].position < |chunks|
    ensures Blocks(survivors + [h], chunks) == Blocks(survivors, chunks) + [Block(h.score, chunks[h.position])]
  {
    var more := survivors + [h];
    assert more[..|survivors|] == survivors;
  }

  /** The filtering and formatting loop of `search_faiss`, with the outcome
      of the search as input. */
  method SearchContext(outcome: SearchOutcome, chunks: seq<string>, k: int) returns (context: string)
    ensures context == ContextFor(outcome, chunks, k)
  {
    match outcome
    case Raised(message) =>
      context := ErrorPrefix + message;
    case Searched(hits) =>
      var contextParts: seq<string> := [];
      var i := 0;
      var limit := Min(k, |hits|);
      ghost var n := Examined(hits, k);
      assert limit <= n && (limit < 0 ==> n == 0);
      while i < limit
        invariant 0 <= i <= n
        invariant contextParts == Collected(hits, chunks, i)
      {
        var idx := hits[i].position;
        if idx >= 0 && idx < |chunks| {
          contextParts := contextParts + [Block(hits[i].score, chunks[idx])];
        }
        i := i + 1;
      }
      assert contextParts == Parts(hits, chunks, k);
      if contextParts == [] {
        context := NoResults;
      } else {
        context := Join(BlockSeparator, contextParts);
      }
  }

  /** A hit among the first `n` survives exactly when its position names a
      stored chunk. */
  lemma {:induction false} SurvivorsMembers(hits: seq<Hit>, count: int, n: nat)
    requires n <= |hits|
    ensures forall x :: x in Survivors(hits, count, n) <==> x in hits[..n] && 0 <= x.position < count
  {
    if n > 0 {
      SurvivorsMembers(hits, count, n - 1);
      assert hits[..n] == hits[..n - 1] + [hits[n - 1]];
    }
  }

  /** When every examined position is valid nothing is dropped. */
  lemma {:induction false} SurvivorsAllValid(hits: seq<Hit>, count: int, n: nat)
    requires n <= |hits|
    requires forall j :: 0 <= j < n ==> 0 <= hits[j].position < count
    ensures Survivors(hits, count, n) == hits[..n]
  {
    if n > 0 {
      SurvivorsAllValid(hits, count, n - 1);
      assert hits[..n] == hits[..n - 1] + [hits[n - 1]];
    }
  }

  predicate NonIncreasing(hits: seq<Hit>)
  {
    forall i, j :: 0 <= i < j < |hits| ==> hits[i].score >= hits[j].score
  }

  /** Filtering never reorders: hits sorted by decreasing score give blocks
      sorted by decreasing score. */
  lemma {:induction false} SurvivorsKeepOrder(hits: seq<Hit>, count: int, n: nat)
    requires n <= |hits| && NonIncreasing(hits)
    ensures NonIncreasing(Survivors(hits, count, n))
  {
    if n > 0 {
      SurvivorsKeepOrder(hits, count, n - 1);
      var before := Survivors(hits, count, n - 1);
      if 0 <= hits[n - 1].position < count {
        forall x | x in before ensures x.score >= hits[n - 1].score {
          var j :| 0 <= j < n - 1 && hits[..n - 1][j] == x;
          assert hits[j] == x;
        }
        var s := before + [hits[n - 1]];
        forall i, j | 0 <= i < j < |s| ensures s[i].score >= s[j].score {
          if j == |before| {
            assert s[i] in before;
          } else {
            assert s[i] == before[i] && s[j] == before[j];
          }
        }
      }
    }
  }

  /** The blocks are the surviving hits formatted in order: block `j` reads
      back as the score and chunk of survivor `j`. */
  lemma PartsDecode(hits: seq<Hit>, chunks: seq<string>, k: int, j: nat)
    requires j < |Parts(hits, chunks, k)|
    ensures var s := Survivors(hits, |chunks|, Examined(hits, k));
      && j < |s|
      && ParseBlock(Parts(hits, chunks, k)[j]) == Some((s[j].score, chunks[s[j].position]))
  {
    var s := Survivors(hits, |chunks|, Examined(hits, k));
    CollectedBlocks(hits, chunks, Examined(hits, k));
    BlocksAt(s, chunks, j);
    BlockRoundTrip(s[j].score, chunks[s[j].position]);
  }

  // ---------------------------------------------------------------------
  // Answer length
  // ---------------------------------------------------------------------

  const DefaultTokens: int := 150
  const FewestTokens: int := 50
  const MostTokens: int := 500

  /** `max_tokens` from the line the user typed: an empty line means `"150"`;
      a line `int()` rejects gives 150; a number is clamped to [50, 500]. */
  function MaxTokens(line: string): (n: int)
    ensures FewestTokens <= n <= MostTokens
    ensures line != [] && ParseInt(line).None? ==> n == DefaultTokens
    ensures line != [] && ParseInt(line).Some? ==>
      var v := ParseInt(line).value;
      && (FewestTokens <= v <= MostTokens ==> n == v)
      && (v < FewestTokens ==> n == FewestTokens)
      && (v > MostTokens ==> n == MostTokens)
  {
    var raw := if line == [] then "150" else line;
    match ParseInt(raw)
    case None => DefaultTokens
    case Some(v) => Max(FewestTokens, Min(MostTokens, v))
  }

  /** Pressing Enter selects the default length. */
  lemma MaxTokensEmpty()
    ensures MaxTokens("") == DefaultTokens
  {
    assert NatToString(150) == "150";
    ParseFormatInt(150);
  }

  /** Typing a number in any form `str` prints selects that number, clamped;
      a number of more than `MaxStrDigits` digits is refused by `int()` and
      selects the default. */
  lemma MaxTokensOfNumber(v: int)
    ensures var digits := NatToString(if v < 0 then -v else v);
      && (|digits| > MaxStrDigits ==> MaxTokens(FormatInt(v)) == DefaultTokens)
      && (|digits| <= MaxStrDigits ==>
        && (FewestTokens <= v <= MostTokens ==> MaxTokens(FormatInt(v)) == v)
        && (v < FewestTokens ==> MaxTokens(FormatInt(v)) == FewestTokens)
        && (v > MostTokens ==> MaxTokens(FormatInt(v)) == MostTokens))
  {
    ParseFormatInt(v);
  }

  /** A reply that starts with one of the separators U+001C to U+001F is
      refused by `int()` and selects the default, even when a number
      follows. */
  lemma MaxTokensSeparatorFirst(c: char, s: string)
    requires '\U{1C}' <= c <= '\U{1F}'
    ensures MaxTokens([c] + s) == DefaultTokens
  {
    ParseIntSeparatorFirst(c, s);
  }

  /** Typing back the length that was chosen chooses it again. */
  lemma MaxTokensStable(line: string)
    ensures MaxTokens(FormatInt(MaxTokens(line))) == MaxTokens(line)
  {
    var n := MaxTokens(line);
    NatToStringLength(n);
    MaxTokensOfNumber(n);
  }

  // ---------------------------------------------------------------------
  // Router choice
  // ---------------------------------------------------------------------

  /** The FAISS index file and the pickled chunk list of one collection. */
  datatype CollectionFiles = CollectionFiles(index: string, chunks: string)

  const RouterAFiles := CollectionFiles("XLM22.index", "XLM22_chunks.pkl")
  const RouterBFiles := CollectionFiles("XYZ12.index", "XYZ12_chunks.pkl")

  /** The files selected by the answer to the router question, after
      `strip().upper()`; any other answer ends the program (`None`).
      Exactly the letters A and B, in either case and with surrounding
      whitespace, select a collection. */
  function RouterFiles(answer: string): (r: Option<CollectionFiles>)
    ensures r == Some(RouterAFiles) <==> Strip(answer) == "A" || Strip(answer) == "a"
    ensures r == Some(RouterBFiles) <==> Strip(answer) == "B" || Strip(answer) == "b"
    ensures r.None? <==> Strip(answer) !in {"A", "a", "B", "b"}
  {
    var t := Strip(answer);
    var choice := Upper(t);
    UpperOneLetter(t);
    if choice == "A" then Some(RouterAFiles)
    else if choice == "B" then Some(RouterBFiles)
    else None
  }

  /** Only the two cases of a letter upper-case to that letter. */
  lemma UpperOneLetter(t: string)
    ensures Upper(t) == "A" <==> t == "A" || t == "a"
    ensures Upper(t) == "B" <==> t == "B" || t == "b"
  {
    var choice := Upper(t);
    assert |t| == 1 ==> choice == [UpperChar(t[0])] && t == [t[0]];
    assert |t| != 1 ==> |choice| != 1;
  }
}
