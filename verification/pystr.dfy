/**
 * The Python built-ins the core relies on, stated over Dafny strings
 * (`seq<char>`) and sequences: `str.isspace`, `str.split()`,
 * `str.split(sep)`, `sep.join(parts)`, `str.strip()`, `str.upper()` on
 * ASCII letters, `min`, `max` and list slicing.
 */
module PyStr {

  function Min(a: int, b: int): int { if a <= b then a else b }

  function Max(a: int, b: int): int { if a <= b then b else a }

  /** Where Python's slicing puts a stop index `j` on a list of length `n`:
      a negative `j` counts from the end, and the result is clipped to
      `[0, n]`. */
  function SliceStop(n: nat, j: int): nat
  {
    if j < 0 then (if n + j < 0 then 0 else n + j)
    else if j > n then n
    else j
  }

  /** `xs[i:j]` for `0 <= i`. */
  function Slice<T>(xs: seq<T>, i: nat, j: int): seq<T>
  {
    var e := SliceStop(|xs|, j);
    if i < e then xs[i..e] else []
  }

  /** `xs[i:j]` holds the items from `i` up to the stop index, none when
      the stop is not beyond `i`; a stop of `0 <= j` is clipped to the
      length, and a negative one counts from the end. */
  lemma SliceLength<T>(xs: seq<T>, i: nat, j: int)
    ensures var e := SliceStop(|xs|, j);
      && e <= |xs|
      && (0 <= j ==> e == Min(j, |xs|))
      && (j < 0 ==> e == Max(0, |xs| + j))
      && |Slice(xs, i, j)| == Max(0, e - i)
  {
  }

  /** Item `k` of `xs[i:j]` is item `i + k` of `xs`. */
  lemma SliceAt<T>(xs: seq<T>, i: nat, j: int, k: nat)
    requires k < |Slice(xs, i, j)|
    ensures Slice(xs, i, j)[k] == xs[i + k]
  {
  }

  /** A slice whose bounds are already inside the list is the plain
      subsequence. */
  lemma SliceWithin<T>(xs: seq<T>, i: nat, j: int)
    requires i <= j <= |xs|
    ensures Slice(xs, i, j) == xs[i..j]
  {
  }

  /** A negative stop index is the same as the stop counted from the end. */
  lemma SliceFromEnd<T>(xs: seq<T>, i: nat, j: int)
    requires -|xs| <= j < 0
    ensures Slice(xs, i, j) == Slice(xs, i, |xs| + j)
  {
  }

  // ---------------------------------------------------------------------
  // Whitespace and `str.split()`
  // ---------------------------------------------------------------------

  /** The characters for which Python's `str.isspace()` holds; `str.split()`
      and `str.strip()` treat exactly these as whitespace. */
  predicate IsSpace(c: char)
  {
    || ('\t' <= c <= '\r')
    || ('\U{1C}' <= c <= '\U{1F}')
    || c == ' ' || c == '\U{85}' || c == '\U{A0}' || c == '\U{1680}'
    || ('\U{2000}' <= c <= '\U{200A}')
    || c == '\U{2028}' || c == '\U{2029}' || c == '\U{202F}' || c == '\U{205F}'
    || c == '\U{3000}'
  }

  predicate AllSpace(s: string)
  {
    forall i :: 0 <= i < |s| ==> IsSpace(s[i])
  }

  predicate NoSpace(s: string)
  {
    forall i :: 0 <= i < |s| ==> !IsSpace(s[i])
  }

  /** A word as `str.split()` yields it: non-empty, no whitespace. */
  predicate IsWord(w: string)
  {
    w != [] && NoSpace(w)
  }

  /** The longest whitespace-free prefix of `s`. */
  function Token(s: string): (w: string)
    ensures w <= s && NoSpace(w)
    ensures |w| < |s| ==> IsSpace(s[|w|])
    ensures s != [] && !IsSpace(s[0]) ==> w != []
  {
    if s == [] || IsSpace(s[0]) then [] else [s[0]] + Token(s[1..])
  }

  /** `s.split()`: the maximal runs of non-whitespace characters, in order. */
  function Words(s: string): (ws: seq<string>)
    ensures forall i :: 0 <= i < |ws| ==> IsWord(ws[i])
    decreases |s|
  {
    if s == [] then []
    else if IsSpace(s[0]) then Words(s[1..])
    else
      var w := Token(s);
      [w] + Words(s[|w|..])
  }

  /** `sep.join(parts)`. */
  function Join(sep: string, parts: seq<string>): string
    decreases |parts|
  {
    if parts == [] then []
    else if |parts| == 1 then parts[0]
    else parts[0] + sep + Join(sep, parts[1..])
  }

  /** A text has no words exactly when it is whitespace only (the empty
      text included). */
  lemma {:induction false} WordsEmptyIffBlank(s: string)
    ensures Words(s) == [] <==> AllSpace(s)
    decreases |s|
  {
    if s == [] {
    } else if IsSpace(s[0]) {
      WordsEmptyIffBlank(s[1..]);
      assert AllSpace(s) <==> AllSpace(s[1..]) by {
        if AllSpace(s[1..]) {
          forall i | 0 <= i < |s| ensures IsSpace(s[i]) {
            if i > 0 { assert s[i] == s[1..][i - 1]; }
          }
        }
      }
    } else {
      assert !AllSpace(s);
    }
  }

  lemma {:induction false} TokenOfWord(w: string, rest: string)
    requires NoSpace(w)
    requires rest == [] || IsSpace(rest[0])
    ensures Token(w + rest) == w
    decreases |w|
  {
    if w == [] {
      assert w + rest == rest;
    } else {
      assert (w + rest)[1..] == w[1..] + rest;
      TokenOfWord(w[1..], rest);
    }
  }

  lemma {:induction false} WordsOfWordThen(w: string, rest: string)
    requires IsWord(w)
    requires rest == [] || IsSpace(rest[0])
    ensures Words(w + rest) == [w] + Words(rest)
  {
    TokenOfWord(w, rest);
    assert (w + rest)[|w|..] == rest;
  }

  /** `' '.join(ws).split() == ws` whenever every item is a word: a chunk
      built from a window of words gives back exactly that window. */
  lemma {:induction false} WordsOfJoin(ws: seq<string>)
    requires forall i :: 0 <= i < |ws| ==> IsWord(ws[i])
    ensures Words(Join(" ", ws)) == ws
    decreases |ws|
  {
    if ws == [] {
    } else if |ws| == 1 {
      WordsOfWordThen(ws[0], []);
      assert ws[0] + [] == ws[0];
    } else {
      var tail := Join(" ", ws[1..]);
      var rest := " " + tail;
      assert Join(" ", ws) == ws[0] + rest;
      WordsOfWordThen(ws[0], rest);
      assert rest[1..] == tail;
      WordsOfJoin(ws[1..]);
      assert [ws[0]] + ws[1..] == ws;
    }
  }

  /** A non-empty join starts with its first part and ends with its last
      part; joining one part gives that part alone. */
  lemma {:induction false} JoinEnds(sep: string, parts: seq<string>)
    requires parts != []
    ensures var r := Join(sep, parts);
      && parts[0] <= r
      && |parts[|parts| - 1]| <= |r| && r[|r| - |parts[|parts| - 1]|..] == parts[|parts| - 1]
      && (|parts| == 1 ==> r == parts[0])
    decreases |parts|
  {
    if |parts| > 1 {
      JoinEnds(sep, parts[1..]);
    }
  }

  /** The total length of some strings. */
  function TotalLength(parts: seq<string>): nat
    decreases |parts|
  {
    if parts == [] then 0 else |parts[0]| + TotalLength(parts[1..])
  }

  /** A join holds every part and one separator between each two
      neighbours, nothing more. */
  lemma {:induction false} JoinLength(sep: string, parts: seq<string>)
    ensures |Join(sep, parts)| == TotalLength(parts) + (if parts == [] then 0 else (|parts| - 1) * |sep|)
    decreases |parts|
  {
    if |parts| > 1 {
      JoinLength(sep, parts[1..]);
      assert (|parts| - 2) * |sep| + |sep| == (|parts| - 1) * |sep|;
    } else if |parts| == 1 {
      assert parts[1..] == [];
    }
  }

  // ---------------------------------------------------------------------
  // `str.split(sep)` on a literal separator
  // ---------------------------------------------------------------------

  predicate OccursAt(s: string, sep: string, i: nat)
  {
    i + |sep| <= |s| && s[i..i + |sep|] == sep
  }

  predicate Contains(s: string, sep: string)
  {
    exists i :: 0 <= i <= |s| && OccursAt(s, sep, i)
  }

  /** `s.split(sep)`: scanning left to right, every non-overlapping
      occurrence of `sep` ends one piece and starts the next. */
  function Split(s: string, sep: string): (parts: seq<string>)
    requires sep != []
    ensures parts != [] && parts[0] <= s
    decreases |s|
  {
    if |s| < |sep| then [s]
    else if s[..|sep|] == sep then [[]] + Split(s[|sep|..], sep)
    else
      var rest := Split(s[1..], sep);
      [[s[0]] + rest[0]] + rest[1..]
  }

  /** Prepending a character to the first part prepends it to the join. */
  lemma JoinConsFirst(c: char, sep: string, parts: seq<string>)
    requires parts != []
    ensures Join(sep, [[c] + parts[0]] + parts[1..]) == [c] + Join(sep, parts)
  {
    var moved := [[c] + parts[0]] + parts[1..];
    if |parts| > 1 {
      assert moved[1..] == parts[1..];
    }
  }

  /** An empty first part leaves just the separator in front. */
  lemma JoinConsEmpty(sep: string, parts: seq<string>)
    requires parts != []
    ensures Join(sep, [[]] + parts) == sep + Join(sep, parts)
  {
    assert ([[]] + parts)[1..] == parts;
  }

  /** Splitting loses nothing: joining the pieces with the separator gives
      the text back. */
  lemma {:induction false} JoinSplit(s: string, sep: string)
    requires sep != []
    ensures Join(sep, Split(s, sep)) == s
    decreases |s|
  {
    if |s| < |sep| {
    } else if s[..|sep|] == sep {
      var rest := Split(s[|sep|..], sep);
      assert Split(s, sep) == [[]] + rest;
      JoinSplit(s[|sep|..], sep);
      JoinConsEmpty(sep, rest);
      assert s == sep + s[|sep|..];
    } else {
      var rest := Split(s[1..], sep);
      assert Split(s, sep) == [[s[0]] + rest[0]] + rest[1..];
      JoinSplit(s[1..], sep);
      JoinConsFirst(s[0], sep, rest);
      assert s == [s[0]] + s[1..];
    }
  }

  /** No piece contains the separator. */
  lemma {:induction false} SplitPiecesFree(s: string, sep: string)
    requires sep != []
    ensures forall k :: 0 <= k < |Split(s, sep)| ==> !Contains(Split(s, sep)[k], sep)
    decreases |s|
  {
    var parts := Split(s, sep);
    if |s| < |sep| {
      forall i: nat | OccursAt(s, sep, i) ensures false { }
    } else if s[..|sep|] == sep {
      SplitPiecesFree(s[|sep|..], sep);
      var rest := Split(s[|sep|..], sep);
      assert parts == [[]] + rest;
      forall k | 0 <= k < |parts| ensures !Contains(parts[k], sep) {
        if k == 0 {
          forall i: nat | OccursAt(parts[0], sep, i) ensures false { }
        } else {
          assert parts[k] == rest[k - 1];
        }
      }
    } else {
      SplitPiecesFree(s[1..], sep);
      var rest := Split(s[1..], sep);
      var first := [s[0]] + rest[0];
      assert parts == [first] + rest[1..];
      assert first <= s by {
        assert rest[0] <= s[1..];
        assert s == [s[0]] + s[1..];
      }
      forall k | 0 <= k < |parts| ensures !Contains(parts[k], sep) {
        if k == 0 {
          forall i: nat | OccursAt(first, sep, i) ensures false {
            if i > 0 {
              assert first[i..i + |sep|] == rest[0][i - 1..i - 1 + |sep|];
              assert OccursAt(rest[0], sep, i - 1);
            }
          }
        } else {
          assert parts[k] == rest[k];
        }
      }
    }
  }

  /** A text without the separator is a single piece: itself. */
  lemma {:induction false} SplitWithoutSeparator(s: string, sep: string)
    requires sep != []
    requires !Contains(s, sep)
    ensures Split(s, sep) == [s]
    decreases |s|
  {
    if |s| < |sep| {
    } else if s[..|sep|] == sep {
      assert OccursAt(s, sep, 0);
    } else {
      assert !Contains(s[1..], sep) by {
        forall i: nat | OccursAt(s[1..], sep, i) ensures false {
          assert s[i + 1..i + 1 + |sep|] == s[1..][i..i + |sep|];
          assert OccursAt(s, sep, i + 1);
        }
      }
      SplitWithoutSeparator(s[1..], sep);
      assert [s[0]] + s[1..] == s;
    }
  }

  // ---------------------------------------------------------------------
  // `str.strip()` and `str.upper()`
  // ---------------------------------------------------------------------

  /** Drops leading whitespace. */
  function StripStart(s: string): (t: string)
    ensures t == [] || !IsSpace(t[0])
    decreases |s|
  {
    if s != [] && IsSpace(s[0]) then StripStart(s[1..]) else s
  }

  /** Drops trailing whitespace. */
  function StripEnd(s: string): string
    decreases |s|
  {
    if s != [] && IsSpace(s[|s| - 1]) then StripEnd(s[..|s| - 1]) else s
  }

  /** `s.strip()`: drops leading and trailing whitespace. */
  function Strip(s: string): (t: string)
    ensures t == [] || (!IsSpace(t[0]) && !IsSpace(t[|t| - 1]))
  {
    StripEndKeepsStart(StripStart(s));
    StripEnd(StripStart(s))
  }

  lemma {:induction false} StripEndKeepsStart(s: string)
    requires s == [] || !IsSpace(s[0])
    ensures var t := StripEnd(s); t <= s && (t == [] || (!IsSpace(t[0]) && !IsSpace(t[|t| - 1])))
    decreases |s|
  {
    if s != [] && IsSpace(s[|s| - 1]) {
      StripEndKeepsStart(s[..|s| - 1]);
    }
  }

  lemma {:induction false} StripStartPadded(pre: string, t: string)
    requires AllSpace(pre)
    requires t == [] || !IsSpace(t[0])
    ensures StripStart(pre + t) == t
    decreases |pre|
  {
    if pre == [] {
      assert pre + t == t;
    } else {
      assert (pre + t)[1..] == pre[1..] + t;
      StripStartPadded(pre[1..], t);
    }
  }

  lemma {:induction false} StripEndPadded(t: string, post: string)
    requires AllSpace(post)
    requires t == [] || !IsSpace(t[|t| - 1])
    ensures StripEnd(t + post) == t
    decreases |post|
  {
    if post == [] {
      assert t + post == t;
    } else {
      assert (t + post)[..|t + post| - 1] == t + post[..|post| - 1];
      StripEndPadded(t, post[..|post| - 1]);
    }
  }

  /** `strip()` removes exactly the whitespace around a text that neither
      starts nor ends with whitespace. */
  lemma {:induction false} StripPadded(pre: string, t: string, post: string)
    requires AllSpace(pre) && AllSpace(post)
    requires t == [] || (!IsSpace(t[0]) && !IsSpace(t[|t| - 1]))
    ensures Strip(pre + t + post) == t
  {
    if t == [] {
      assert pre + t + post == pre + post;
      assert AllSpace(pre + post);
      StripStartPadded(pre + post, []);
      assert pre + post + [] == pre + post;
    } else {
      assert pre + t + post == pre + (t + post);
      StripStartPadded(pre, t + post);
      StripEndPadded(t, post);
    }
  }

  function UpperChar(c: char): char
  {
    if 'a' <= c <= 'z' then (c as int - 32) as char else c
  }

  /** `s.upper()` on ASCII letters; every other character is kept. */
  function Upper(s: string): (u: string)
    ensures |u| == |s|
    ensures forall i :: 0 <= i < |s| ==> u[i] == UpperChar(s[i])
  {
    if s == [] then [] else [UpperChar(s[0])] + Upper(s[1..])
  }
}
