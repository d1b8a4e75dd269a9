/**
 * The two text chunkers of `ingest/ingest-model.py`.
 *
 * `chunk_text` walks the whitespace-separated words of a text with a
 * counter `start`, emitting windows of at most `chunk_size` words that
 * begin `chunk_size - chunk_overlap` words apart.  `chunk_text_smart` splits
 * the text on the literal delimiter "---", greedily packs paragraphs into
 * groups of at most `chunk_size` words and hands any paragraph that is too
 * large on its own to `chunk_text`.
 *
 * Each is a method with the source's loop, proved equal to a specification
 * function; the lemmas below state what those functions guarantee.
 */
module Ingest {
  import opened PyStr

  /** The paragraph delimiter of `chunk_text_smart`. */
  const Delimiter := "---"

  // ---------------------------------------------------------------------
  // chunk_text
  // ---------------------------------------------------------------------

  /** `chunk_text`'s loop ends: either there is no word to walk or each
      pass moves `start` forward (the source has no guard for the rest). */
  predicate Advances(words: seq<string>, size: int, overlap: int)
  {
    words == [] || overlap < size
  }

  /** `words[start:min(start + chunk_size, len(words))]`. */
  function Window(words: seq<string>, start: nat, size: int): seq<string>
  {
    Slice(words, start, Min(start + size, |words|))
  }

  /** The chunks the loop emits from word `start` on, `step` words apart. */
  function WindowsFrom(words: seq<string>, start: nat, size: int, step: int): seq<string>
    requires step > 0
    decreases |words| - start
  {
    if start >= |words| then []
    else [Join(" ", Window(words, start, size))] + WindowsFrom(words, start + step, size, step)
  }

  /** The result of `chunk_text` on a text whose words are `words`. */
  function ChunkTexts(words: seq<string>, size: int, overlap: int): seq<string>
    requires Advances(words, size, overlap)
  {
    if words == [] then [] else WindowsFrom(words, 0, size, size - overlap)
  }

  /** `chunk_text(text, chunk_size, chunk_overlap)`. */
  method ChunkText(text: string, chunkSize: int, chunkOverlap: int) returns (chunks: seq<string>)
    requires Advances(Words(text), chunkSize, chunkOverlap)
    ensures chunks == ChunkTexts(Words(text), chunkSize, chunkOverlap)
  {
    var words := Words(text);
    chunks := [];
    var start: nat := 0;
    while start < |words|
      invariant words == [] ==> chunks == []
      invariant words != [] ==>
        ChunkTexts(words, chunkSize, chunkOverlap)
          == chunks + WindowsFrom(words, start, chunkSize, chunkSize - chunkOverlap)
      decreases |words| - start
    {
      var end := Min(start + chunkSize, |words|);
      var chunk := Join(" ", Slice(words, start, end));
      ghost var step := chunkSize - chunkOverlap;
      assert ChunkTexts(words, chunkSize, chunkOverlap)
          == chunks + [chunk] + WindowsFrom(words, start + step, chunkSize, step) by {
        var rest := WindowsFrom(words, start + step, chunkSize, step);
        assert WindowsFrom(words, start, chunkSize, step) == [chunk] + rest;
        assert chunks + ([chunk] + rest) == chunks + [chunk] + rest;
      }
      chunks := chunks + [chunk];
      start := start + chunkSize - chunkOverlap;
    }
  }

  /** `ceil(n / d)` for a positive `d`. */
  function CeilDiv(n: nat, d: int): nat
    requires d > 0
  {
    (n + d - 1) / d
  }

  lemma MulMonotone(a: int, b: int, c: int)
    requires a <= b && 0 <= c
    ensures a * c <= b * c
  {
  }

  /** The two bounds that define a ceiling pin the quotient down. */
  lemma CeilDivUnique(n: nat, d: int, c: nat)
    requires d > 0
    requires (c - 1) * d < n <= c * d
    ensures c == CeilDiv(n, d)
  {
    var q := (n + d - 1) / d;
    var m := (n + d - 1) % d;
    assert n + d - 1 == q * d + m && 0 <= m < d;
    assert c * d - d < n;
    if q > c {
      MulMonotone(c + 1, q, d);
    } else if q < c {
      MulMonotone(q + 1, c, d);
    }
  }

  lemma {:induction false} WindowsFromCount(words: seq<string>, start: nat, size: int, step: int)
    requires step > 0
    ensures var r := WindowsFrom(words, start, size, step);
      && (start >= |words| ==> r == [])
      && (start < |words| ==> start + (|r| - 1) * step < |words| <= start + |r| * step)
    decreases |words| - start
  {
    if start < |words| {
      var rest := WindowsFrom(words, start + step, size, step);
      WindowsFromCount(words, start + step, size, step);
      assert |WindowsFrom(words, start, size, step)| == |rest| + 1;
      CountStep(start, step, |rest|, |words|);
    }
  }

  /** One more step in front of `c` steps: the bounds on the last start
      shift by one `step`. */
  lemma CountStep(start: int, step: int, c: nat, n: int)
    requires step > 0 && start < n
    requires c == 0 ==> start + step >= n
    requires c > 0 ==> start + step + (c - 1) * step < n <= start + step + c * step
    ensures start + c * step < n <= start + (c + 1) * step
  {
    assert (c + 1) * step == c * step + step;
    if c > 0 {
      assert (c - 1) * step + step == c * step;
    }
  }

  lemma ShiftStep(start: int, step: int, i: int)
    ensures start + step + (i - 1) * step == start + i * step
  {
    assert (i - 1) * step + step == i * step;
  }

  /** Chunk `i` of a walk from `start` is the window at `a`, the start
      moved `i` steps on. */
  lemma {:induction false} WindowsFromAt(words: seq<string>, start: nat, size: int, step: int, i: nat, a: int)
    requires step > 0 && a == start + i * step
    requires i < |WindowsFrom(words, start, size, step)|
    ensures 0 <= a < |words|
    ensures WindowsFrom(words, start, size, step)[i] == Join(" ", Window(words, a, size))
    decreases i
  {
    if i > 0 {
      var rest := WindowsFrom(words, start + step, size, step);
      assert WindowsFrom(words, start, size, step)[i] == rest[i - 1];
      ShiftStep(start, step, i);
      WindowsFromAt(words, start + step, size, step, i - 1, a);
    }
  }

  /** `chunk_text` returns exactly `ceil(n / step)` chunks for `n` words,
      and its chunk `i` is the words from `i * step` up to at most
      `chunk_size` of them, joined by single spaces. */
  lemma ChunkTextsShape(words: seq<string>, size: int, overlap: int)
    requires overlap < size
    ensures var r := ChunkTexts(words, size, overlap); var step := size - overlap;
      && |r| == CeilDiv(|words|, step)
      && (forall i :: 0 <= i < |r| ==>
            0 <= i * step < |words| && r[i] == Join(" ", Window(words, i * step, size)))
  {
    var step := size - overlap;
    var r := ChunkTexts(words, size, overlap);
    assert |r| == CeilDiv(|words|, step) by {
      WindowsFromCount(words, 0, size, step);
      if words != [] {
        CeilDivUnique(|words|, step, |r|);
      }
    }
    forall i | 0 <= i < |r|
      ensures 0 <= i * step < |words| && r[i] == Join(" ", Window(words, i * step, size))
    {
      WindowsFromAt(words, 0, size, step, i, i * step);
    }
  }

  /** Empty or whitespace-only text gives no chunk at all. */
  lemma ChunkTextBlank(text: string, size: int, overlap: int)
    requires AllSpace(text)
    ensures Words(text) == [] && ChunkTexts(Words(text), size, overlap) == []
  {
    WordsEmptyIffBlank(text);
  }

  /** With a positive `chunk_size`, every chunk holds between one and
      `chunk_size` words, and splitting the chunk again gives back exactly
      the window of words it was built from. */
  lemma ChunkWords(text: string, size: int, overlap: int, i: nat)
    requires 1 <= size && overlap < size
    requires i < |ChunkTexts(Words(text), size, overlap)|
    ensures var words := Words(text); var r := ChunkTexts(words, size, overlap);
      && Words(r[i]) == Window(words, i * (size - overlap), size)
      && 1 <= |Words(r[i])| <= size
  {
    var words := Words(text);
    var step := size - overlap;
    MulMonotone(0, i, step);
    var a := i * step;
    var w := Window(words, a, size);
    assert a < |words| && ChunkTexts(words, size, overlap)[i] == Join(" ", w) by {
      assert words != [];
      WindowsFromAt(words, 0, size, step, i, a);
    }
    assert Words(Join(" ", w)) == w && 1 <= |w| <= size by {
      WindowWords(words, a, size);
    }
  }

  /** A window of at least one word, re-split, gives back its words. */
  lemma WindowWords(words: seq<string>, a: nat, size: int)
    requires 1 <= size && a < |words|
    requires forall k :: 0 <= k < |words| ==> IsWord(words[k])
    ensures var w := Window(words, a, size);
      Words(Join(" ", w)) == w && 1 <= |w| <= size
  {
    var w := Window(words, a, size);
    SliceWithin(words, a, Min(a + size, |words|));
    assert forall k :: 0 <= k < |w| ==> w[k] == words[a + k];
    WordsOfJoin(w);
  }

  /** With `0 <= chunk_overlap < chunk_size`, the first chunk starts at the
      first word and the last chunk ends at the last word. */
  lemma ChunkTextsEnds(words: seq<string>, size: int, overlap: int)
    requires 0 <= overlap < size && words != []
    ensures var r := ChunkTexts(words, size, overlap); var last := (|r| - 1) * (size - overlap);
      && r != []
      && r[0] == Join(" ", words[..Min(size, |words|)])
      && 0 <= last < |words|
      && r[|r| - 1] == Join(" ", words[last..])
  {
    var step := size - overlap;
    var r := ChunkTexts(words, size, overlap);
    WindowsFromCount(words, 0, size, step);
    var last := (|r| - 1) * step;
    assert r != [] && 0 <= last < |words| <= last + step by {
      MulMonotone(0, |r| - 1, step);
      ShiftStep(0, step, |r|);
    }
    assert r[0] == Join(" ", words[..Min(size, |words|)]) by {
      WindowsFromAt(words, 0, size, step, 0, 0);
      SliceWithin(words, 0, Min(size, |words|));
    }
    assert r[|r| - 1] == Join(" ", words[last..]) by {
      WindowsFromAt(words, 0, size, step, |r| - 1, last);
      assert Min(last + size, |words|) == |words|;
      SliceWithin(words, last, |words|);
      assert words[last..|words|] == words[last..];
    }
  }

  /** Word `j` lies in window `i` of a walk from `start`. */
  predicate CoversFrom(start: nat, i: nat, size: int, overlap: int, j: nat)
  {
    start + i * (size - overlap) <= j < start + i * (size - overlap) + size
  }

  lemma {:induction false} CoverFrom(words: seq<string>, start: nat, size: int, overlap: int, j: nat)
    requires 0 <= overlap < size && start <= j < |words|
    ensures exists i :: 0 <= i < |WindowsFrom(words, start, size, size - overlap)|
                        && CoversFrom(start, i, size, overlap, j)
    decreases |words| - start
  {
    var step := size - overlap;
    var r := WindowsFrom(words, start, size, step);
    if j < start + step {
      assert 0 < |r| && CoversFrom(start, 0, size, overlap, j);
    } else {
      CoverFrom(words, start + step, size, overlap, j);
      var rest := WindowsFrom(words, start + step, size, step);
      var i :| 0 <= i < |rest| && CoversFrom(start + step, i, size, overlap, j);
      assert start + step + i * step == start + (i + 1) * step;
      assert |r| == |rest| + 1;
      assert CoversFrom(start, i + 1, size, overlap, j);
    }
  }

  /** With `0 <= chunk_overlap < chunk_size`, every word lies in some chunk:
      word `j` is in chunk `i` when `i * step <= j < i * step + chunk_size`. */
  lemma ChunkTextsCover(words: seq<string>, size: int, overlap: int, j: nat)
    requires 0 <= overlap < size && j < |words|
    ensures exists i :: 0 <= i < |ChunkTexts(words, size, overlap)| && CoversFrom(0, i, size, overlap, j)
  {
    assert ChunkTexts(words, size, overlap) == WindowsFrom(words, 0, size, size - overlap);
    CoverFrom(words, 0, size, overlap, j);
  }

  // ---------------------------------------------------------------------
  // chunk_text_smart
  // ---------------------------------------------------------------------

  /** One entry of `chunk_text_smart`'s output, in order: a packed group of
      paragraphs (emitted as one chunk) or a paragraph too large on its own
      (emitted as its `chunk_text` chunks). */
  datatype Piece = Packed(paras: seq<string>) | Oversized(para: string)

  /** The loop state of `chunk_text_smart`: the pieces emitted so far, the
      pending `current_chunk` and its `current_size`. */
  datatype Packer = Packer(plan: seq<Piece>, group: seq<string>, groupSize: int)

  function WordCount(p: string): nat
  {
    |Words(p)|
  }

  function SumWords(ps: seq<string>): nat
    decreases |ps|
  {
    if ps == [] then 0 else SumWords(ps[..|ps| - 1]) + WordCount(ps[|ps| - 1])
  }

  /** One pass of the `for para in paragraphs` loop. */
  function PackStep(st: Packer, para: string, size: int): Packer
  {
    var n := WordCount(para);
    if n > size then
      st.(plan := st.plan + [Oversized(para)])
    else if st.groupSize + n <= size then
      st.(group := st.group + [para], groupSize := st.groupSize + n)
    else
      Packer(if st.group != [] then st.plan + [Packed(st.group)] else st.plan, [para], n)
  }

  /** The loop state after the given paragraphs. */
  function PackAll(paras: seq<string>, size: int): (st: Packer)
    ensures forall i :: 0 <= i < |st.plan| && st.plan[i].Oversized? ==>
              st.plan[i].para in paras && WordCount(st.plan[i].para) > size
    decreases |paras|
  {
    if paras == [] then Packer([], [], 0)
    else PackStep(PackAll(paras[..|paras| - 1], size), paras[|paras| - 1], size)
  }

  /** The pieces of the result, the pending group flushed at the end. */
  function Plan(paras: seq<string>, size: int): (plan: seq<Piece>)
    ensures forall i :: 0 <= i < |plan| && plan[i].Oversized? ==>
              plan[i].para in paras && WordCount(plan[i].para) > size
  {
    var st := PackAll(paras, size);
    if st.group != [] then st.plan + [Packed(st.group)] else st.plan
  }

  /** Every paragraph that `chunk_text_smart` hands to `chunk_text` lets
      that loop end. */
  predicate SmartAdvances(paras: seq<string>, size: int, overlap: int)
  {
    forall p :: p in paras && WordCount(p) > size ==> Advances(Words(p), size, overlap)
  }

  predicate Renderable(plan: seq<Piece>, size: int, overlap: int)
  {
    forall i :: 0 <= i < |plan| && plan[i].Oversized? ==> Advances(Words(plan[i].para), size, overlap)
  }

  function RenderPiece(piece: Piece, size: int, overlap: int): seq<string>
    requires piece.Oversized? ==> Advances(Words(piece.para), size, overlap)
  {
    match piece
    case Packed(group) => [Join(Delimiter, group)]
    case Oversized(para) => ChunkTexts(Words(para), size, overlap)
  }

  /** The chunks a plan stands for. */
  function Render(plan: seq<Piece>, size: int, overlap: int): seq<string>
    requires Renderable(plan, size, overlap)
    decreases |plan|
  {
    if plan == [] then []
    else Render(plan[..|plan| - 1], size, overlap) + RenderPiece(plan[|plan| - 1], size, overlap)
  }

  /** The result of `chunk_text_smart`. */
  function SmartChunks(text: string, size: int, overlap: int): seq<string>
    requires SmartAdvances(Split(text, Delimiter), size, overlap)
  {
    Render(Plan(Split(text, Delimiter), size), size, overlap)
  }

  lemma RenderSnoc(plan: seq<Piece>, piece: Piece, size: int, overlap: int)
    requires Renderable(plan, size, overlap)
    requires piece.Oversized? ==> Advances(Words(piece.para), size, overlap)
    ensures Renderable(plan + [piece], size, overlap)
    ensures Render(plan + [piece], size, overlap)
         == Render(plan, size, overlap) + RenderPiece(piece, size, overlap)
  {
    assert (plan + [piece])[..|plan|] == plan;
  }

  /** The loop state after `n + 1` paragraphs is one step on from the
      state after `n`. */
  lemma PackPrefix(paras: seq<string>, n: nat, size: int)
    requires n < |paras|
    ensures PackAll(paras[..n + 1], size) == PackStep(PackAll(paras[..n], size), paras[n], size)
  {
    assert paras[..n + 1][..n] == paras[..n];
  }

  lemma PackRenderable(paras: seq<string>, n: nat, size: int, overlap: int)
    requires n <= |paras|
    requires SmartAdvances(paras, size, overlap)
    ensures Renderable(PackAll(paras[..n], size).plan, size, overlap)
  {
    var plan := PackAll(paras[..n], size).plan;
    forall i | 0 <= i < |plan| && plan[i].Oversized?
      ensures Advances(Words(plan[i].para), size, overlap)
    {
      var p := plan[i].para;
      assert p in paras[..n];
      assert p in paras;
    }
  }

  lemma TakeSnoc<T>(xs: seq<T>, j: nat)
    requires j < |xs|
    ensures xs[..j + 1] == xs[..j] + [xs[j]]
  {
  }

  /** A pass over an oversized paragraph emits its `chunk_text` chunks and
      leaves the pending group alone. */
  lemma PackOversized(paras: seq<string>, n: nat, size: int, overlap: int)
    requires n < |paras| && SmartAdvances(paras, size, overlap)
    requires WordCount(paras[n]) > size
    ensures var st := PackAll(paras[..n], size);
      var next := PackAll(paras[..n + 1], size);
      && Advances(Words(paras[n]), size, overlap)
      && next.group == st.group && next.groupSize == st.groupSize
      && Render(next.plan, size, overlap)
         == Render(st.plan, size, overlap) + ChunkTexts(Words(paras[n]), size, overlap)
  {
    var st := PackAll(paras[..n], size);
    PackPrefix(paras, n, size);
    PackRenderable(paras, n, size, overlap);
    assert paras[n] in paras;
    RenderSnoc(st.plan, Oversized(paras[n]), size, overlap);
  }

  /** A pass over a paragraph that fits in the pending group adds it there
      and emits nothing. */
  lemma PackFits(paras: seq<string>, n: nat, size: int)
    requires n < |paras|
    requires WordCount(paras[n]) <= size
    requires PackAll(paras[..n], size).groupSize + WordCount(paras[n]) <= size
    ensures var st := PackAll(paras[..n], size);
      var next := PackAll(paras[..n + 1], size);
      && next.plan == st.plan
      && next.group == st.group + [paras[n]]
      && next.groupSize == st.groupSize + WordCount(paras[n])
  {
    PackPrefix(paras, n, size);
  }

  /** A pass over a paragraph that does not fit emits the pending group, if
      any, and starts a new group with the paragraph. */
  lemma PackFlush(paras: seq<string>, n: nat, size: int, overlap: int)
    requires n < |paras| && SmartAdvances(paras, size, overlap)
    requires WordCount(paras[n]) <= size
    requires PackAll(paras[..n], size).groupSize + WordCount(paras[n]) > size
    ensures var st := PackAll(paras[..n], size);
      var next := PackAll(paras[..n + 1], size);
      && next.group == [paras[n]] && next.groupSize == WordCount(paras[n])
      && Render(next.plan, size, overlap)
         == Render(st.plan, size, overlap)
            + (if st.group != [] then [Join(Delimiter, st.group)] else [])
  {
    var st := PackAll(paras[..n], size);
    PackPrefix(paras, n, size);
    PackRenderable(paras, n, size, overlap);
    if st.group != [] {
      RenderSnoc(st.plan, Packed(st.group), size, overlap);
    }
  }

  /** The inner loop of `chunk_text_smart`: appends the chunks of an
      oversized paragraph to the output one at a time. */
  method AppendEach(chunks: seq<string>, more: seq<string>) returns (r: seq<string>)
    ensures r == chunks + more
  {
    r := chunks;
    for j := 0 to |more|
      invariant r == chunks + more[..j]
    {
      TakeSnoc(more, j);
      r := r + [more[j]];
    }
    assert more[..|more|] == more;
  }

  /** `chunk_text_smart(text, chunk_size, chunk_overlap)`. */
  method ChunkTextSmart(text: string, chunkSize: int, chunkOverlap: int) returns (chunks: seq<string>)
    requires SmartAdvances(Split(text, Delimiter), chunkSize, chunkOverlap)
    ensures chunks == SmartChunks(text, chunkSize, chunkOverlap)
  {
    var paragraphs := Split(text, Delimiter);
    chunks := [];
    var currentChunk: seq<string> := [];
    var currentSize := 0;
    ghost var st := Packer([], [], 0);
    for n := 0 to |paragraphs|
      invariant st == PackAll(paragraphs[..n], chunkSize)
      invariant currentChunk == st.group && currentSize == st.groupSize
      invariant chunks == Render(st.plan, chunkSize, chunkOverlap)
    {
      var para := paragraphs[n];
      var paraSize := |Words(para)|;
      if paraSize > chunkSize {
        PackOversized(paragraphs, n, chunkSize, chunkOverlap);
        var paraChunks := ChunkText(para, chunkSize, chunkOverlap);
        chunks := AppendEach(chunks, paraChunks);
      } else if currentSize + paraSize <= chunkSize {
        PackFits(paragraphs, n, chunkSize);
        currentChunk := currentChunk + [para];
        currentSize := currentSize + paraSize;
      } else {
        PackFlush(paragraphs, n, chunkSize, chunkOverlap);
        if currentChunk != [] {
          chunks := chunks + [Join(Delimiter, currentChunk)];
        }
        currentChunk := [para];
        currentSize := paraSize;
      }
      st := PackAll(paragraphs[..n + 1], chunkSize);
    }
    assert paragraphs[..|paragraphs|] == paragraphs;
    PackRenderable(paragraphs, |paragraphs|, chunkSize, chunkOverlap);
    if currentChunk != [] {
      RenderSnoc(st.plan, Packed(currentChunk), chunkSize, chunkOverlap);
      chunks := chunks + [Join(Delimiter, currentChunk)];
    }
  }

  // Properties of the packing.

  /** The paragraphs that fit in a chunk, in input order. */
  function Fitting(paras: seq<string>, size: int): seq<string>
    decreases |paras|
  {
    if paras == [] then []
    else Fitting(paras[..|paras| - 1], size)
         + (if WordCount(paras[|paras| - 1]) <= size then [paras[|paras| - 1]] else [])
  }

  /** The paragraphs too large for a chunk, in input order. */
  function TooLarge(paras: seq<string>, size: int): seq<string>
    decreases |paras|
  {
    if paras == [] then []
    else TooLarge(paras[..|paras| - 1], size)
         + (if WordCount(paras[|paras| - 1]) > size then [paras[|paras| - 1]] else [])
  }

  /** The paragraphs of the packed groups of a plan, concatenated in order. */
  function PackedParas(plan: seq<Piece>): seq<string>
    decreases |plan|
  {
    if plan == [] then []
    else PackedParas(plan[..|plan| - 1])
         + (match plan[|plan| - 1] case Packed(g) => g case Oversized(_) => [])
  }

  /** The oversized paragraphs of a plan, in order. */
  function OversizedParas(plan: seq<Piece>): seq<string>
    decreases |plan|
  {
    if plan == [] then []
    else OversizedParas(plan[..|plan| - 1])
         + (match plan[|plan| - 1] case Packed(_) => [] case Oversized(p) => [p])
  }

  predicate GroupsBounded(plan: seq<Piece>, size: int)
  {
    forall i :: 0 <= i < |plan| && plan[i].Packed? ==>
      plan[i].paras != [] && SumWords(plan[i].paras) <= size
  }

  lemma AppendPiece(plan: seq<Piece>, piece: Piece)
    ensures PackedParas(plan + [piece])
         == PackedParas(plan) + (match piece case Packed(g) => g case Oversized(_) => [])
    ensures OversizedParas(plan + [piece])
         == OversizedParas(plan) + (match piece case Packed(_) => [] case Oversized(p) => [p])
  {
    assert (plan + [piece])[..|plan|] == plan;
  }

  /** The pending size is the word count of the pending group, which fits,
      and every emitted group is non-empty and fits. */
  lemma {:induction false} PackAllSizes(paras: seq<string>, size: int)
    ensures var st := PackAll(paras, size);
      && st.groupSize == SumWords(st.group)
      && (st.group != [] ==> st.groupSize <= size)
      && GroupsBounded(st.plan, size)
    decreases |paras|
  {
    if paras != [] {
      var init := paras[..|paras| - 1];
      var para := paras[|paras| - 1];
      PackAllSizes(init, size);
      var st := PackAll(init, size);
      var n := WordCount(para);
      if n > size {
        assert forall i :: 0 <= i < |st.plan| ==> (st.plan + [Oversized(para)])[i] == st.plan[i];
      } else if st.groupSize + n <= size {
        assert (st.group + [para])[..|st.group|] == st.group;
      } else {
        assert [para][..0] == [];
        assert forall i :: 0 <= i < |st.plan| ==> (st.plan + [Packed(st.group)])[i] == st.plan[i];
      }
    }
  }

  /** The emitted groups followed by the pending one are exactly the
      fitting paragraphs, and the oversized pieces exactly the others. */
  lemma {:induction false} PackAllParas(paras: seq<string>, size: int)
    ensures var st := PackAll(paras, size);
      && PackedParas(st.plan) + st.group == Fitting(paras, size)
      && OversizedParas(st.plan) == TooLarge(paras, size)
    decreases |paras|
  {
    if paras != [] {
      var init := paras[..|paras| - 1];
      var para := paras[|paras| - 1];
      PackAllParas(init, size);
      var st := PackAll(init, size);
      var next := PackAll(paras, size);
      assert paras[..|paras| - 1] == init;
      var n := WordCount(para);
      if n > size {
        assert Fitting(paras, size) == Fitting(init, size) by {
          assert Fitting(init, size) + [] == Fitting(init, size);
        }
        assert TooLarge(paras, size) == TooLarge(init, size) + [para];
        AppendPiece(st.plan, Oversized(para));
        assert PackedParas(next.plan) == PackedParas(st.plan) by {
          assert PackedParas(st.plan) + [] == PackedParas(st.plan);
        }
      } else {
        assert Fitting(paras, size) == Fitting(init, size) + [para];
        assert TooLarge(paras, size) == TooLarge(init, size) by {
          assert TooLarge(init, size) + [] == TooLarge(init, size);
        }
        if st.groupSize + n <= size {
          assert PackedParas(st.plan) + (st.group + [para])
              == PackedParas(st.plan) + st.group + [para];
        } else if st.group != [] {
          AppendPiece(st.plan, Packed(st.group));
        } else {
          assert PackedParas(st.plan) + [] + [para] == PackedParas(st.plan) + [para];
        }
      }
    }
  }

  /** Every chunk built by packing holds a non-empty run of paragraphs whose
      word counts add up to at most `chunk_size`; the packed runs, in order,
      are exactly the paragraphs that fit, so each of them (empty ones
      included) lands in exactly one chunk; and the oversized pieces are
      exactly the paragraphs larger than `chunk_size`, in order. */
  lemma PlanShape(paras: seq<string>, size: int)
    ensures var plan := Plan(paras, size);
      && GroupsBounded(plan, size)
      && PackedParas(plan) == Fitting(paras, size)
      && OversizedParas(plan) == TooLarge(paras, size)
  {
    PackAllSizes(paras, size);
    PackAllParas(paras, size);
    var st := PackAll(paras, size);
    if st.group != [] {
      AppendPiece(st.plan, Packed(st.group));
    } else {
      assert PackedParas(st.plan) + [] == PackedParas(st.plan);
    }
  }

  /** An oversized paragraph emits its `chunk_text` chunks at once: they
      follow everything emitted before and come ahead of the group that is
      still pending, which is not flushed first. */
  lemma OversizedBeforePending(paras: seq<string>, para: string, size: int, overlap: int)
    requires WordCount(para) > size
    requires SmartAdvances(paras + [para], size, overlap)
    ensures var st := PackAll(paras, size);
      && Renderable(st.plan, size, overlap)
      && Advances(Words(para), size, overlap)
      && Render(Plan(paras + [para], size), size, overlap)
         == Render(st.plan, size, overlap) + ChunkTexts(Words(para), size, overlap)
            + (if st.group != [] then [Join(Delimiter, st.group)] else [])
  {
    var st := PackAll(paras, size);
    assert para in paras + [para];
    forall i | 0 <= i < |st.plan| && st.plan[i].Oversized?
      ensures Advances(Words(st.plan[i].para), size, overlap)
    {
      assert st.plan[i].para in paras + [para];
    }
    assert (paras + [para])[..|paras|] == paras;
    var plan1 := st.plan + [Oversized(para)];
    RenderSnoc(st.plan, Oversized(para), size, overlap);
    if st.group != [] {
      RenderSnoc(plan1, Packed(st.group), size, overlap);
    }
  }

  /** Text without the delimiter and with at most `chunk_size` words comes
      back as a single chunk, verbatim. */
  lemma SmartSingleParagraph(text: string, size: int, overlap: int)
    requires !Contains(text, Delimiter)
    requires WordCount(text) <= size
    ensures Split(text, Delimiter) == [text] && SmartChunks(text, size, overlap) == [text]
  {
    SplitWithoutSeparator(text, Delimiter);
    assert [text][..0] == [];
    assert PackAll([text], size) == Packer([], [text], WordCount(text));
    RenderSnoc([], Packed([text]), size, overlap);
  }

  /** Empty text gives one empty chunk (unlike `chunk_text`, which gives
      none) when `chunk_size` is not negative; with a negative size the
      empty paragraph counts as oversized and gives no chunk at all. */
  lemma SmartEmptyText(size: int, overlap: int)
    ensures Split("", Delimiter) == [""]
      && SmartChunks("", size, overlap) == if 0 <= size then [""] else []
  {
    assert !Contains("", Delimiter) by {
      forall i | 0 <= i <= 0 && OccursAt("", Delimiter, i) ensures false { }
    }
    SplitWithoutSeparator("", Delimiter);
    if 0 <= size {
      SmartSingleParagraph("", size, overlap);
    } else {
      assert [""][..0] == [];
      assert PackAll([""], size) == Packer([Oversized("")], [], 0);
      RenderSnoc([], Oversized(""), size, overlap);
    }
  }
}
