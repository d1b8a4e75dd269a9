/**
 * Decimal text for integers, as Python's `str(int)` writes it and `int(str)`
 * reads it (base 10, ASCII digits).
 */
module Decimal {
  import opened Wrappers
  import opened PyStr

  predicate IsDigit(c: char) { '0' <= c <= '9' }

  predicate AllDigits(s: string)
  {
    forall i :: 0 <= i < |s| ==> IsDigit(s[i])
  }

  function DigitValue(c: char): (d: nat)
    requires IsDigit(c)
    ensures d < 10
  {
    c as int - '0' as int
  }

  function Digit(d: nat): (c: char)
    requires d < 10
    ensures IsDigit(c) && DigitValue(c) == d
  {
    ('0' as int + d) as char
  }

  /** `str(n)` for a natural number: no sign, no leading zero. */
  function NatToString(n: nat): string
    decreases n
  {
    if n < 10 then [Digit(n)] else NatToString(n / 10) + [Digit(n % 10)]
  }

  /** `str(v)`. */
  function FormatInt(v: int): string
  {
    if v < 0 then "-" + NatToString(-v) else NatToString(v)
  }

  /** Digits, with single underscores between digits, as `int()` accepts
      them after the sign. */
  predicate DigitGroups(s: string)
  {
    && s != []
    && IsDigit(s[0]) && IsDigit(s[|s| - 1])
    && (forall i :: 0 <= i < |s| ==> IsDigit(s[i]) || s[i] == '_')
    && (forall i :: 0 <= i < |s| - 1 && s[i] == '_' ==> s[i + 1] != '_')
  }

  /** The value of a run of digits, underscores skipped. */
  function GroupsValue(s: string): nat
    requires forall i :: 0 <= i < |s| ==> IsDigit(s[i]) || s[i] == '_'
    decreases |s|
  {
    if s == [] then 0
    else if s[|s| - 1] == '_' then GroupsValue(s[..|s| - 1])
    else GroupsValue(s[..|s| - 1]) * 10 + DigitValue(s[|s| - 1])
  }

  /** The default limit on the number of digits `int()` converts
      (`sys.get_int_max_str_digits()`); longer inputs raise `ValueError`. */
  const MaxStrDigits: nat := 4300

  /** How many digits a run holds, underscores not counted. */
  function DigitCount(s: string): nat
    decreases |s|
  {
    if s == [] then 0
    else DigitCount(s[..|s| - 1]) + (if s[|s| - 1] == '_' then 0 else 1)
  }

  /** The whitespace `int()` skips around a number. CPython first turns
      every non-ASCII whitespace character into a space and keeps the ASCII
      characters as they are, then skips only space, tab, line feed,
      vertical tab, form feed and carriage return. So these are the
      characters of `IsSpace` except the ASCII separators U+001C to U+001F
      (`IntSpaceIsSpace`). */
  predicate IntSpace(c: char)
  {
    || ('\t' <= c <= '\r')
    || c == ' ' || c == '\U{85}' || c == '\U{A0}' || c == '\U{1680}'
    || ('\U{2000}' <= c <= '\U{200A}')
    || c == '\U{2028}' || c == '\U{2029}' || c == '\U{202F}' || c == '\U{205F}'
    || c == '\U{3000}'
  }

  lemma IntSpaceIsSpace(c: char)
    ensures IntSpace(c) <==> IsSpace(c) && !('\U{1C}' <= c <= '\U{1F}')
  {
  }

  predicate AllIntSpace(s: string)
  {
    forall i :: 0 <= i < |s| ==> IntSpace(s[i])
  }

  /** Skips the leading whitespace of `IntSpace`. */
  function IntStripStart(s: string): (t: string)
    ensures t == [] || !IntSpace(t[0])
    decreases |s|
  {
    if s != [] && IntSpace(s[0]) then IntStripStart(s[1..]) else s
  }

  /** Skips the trailing whitespace of `IntSpace`. */
  function IntStripEnd(s: string): string
    decreases |s|
  {
    if s != [] && IntSpace(s[|s| - 1]) then IntStripEnd(s[..|s| - 1]) else s
  }

  /** The text `int()` reads once the whitespace around it is skipped. */
  function IntStrip(s: string): (t: string)
    ensures t == [] || (!IntSpace(t[0]) && !IntSpace(t[|t| - 1]))
  {
    IntStripEndKeepsStart(IntStripStart(s));
    IntStripEnd(IntStripStart(s))
  }

  /** Skipping trailing whitespace after a text that starts outside
      `IntSpace` keeps a prefix, and keeps that first character. */
  lemma {:induction false} IntStripEndKeepsStart(s: string)
    requires s == [] || !IntSpace(s[0])
    ensures var t := IntStripEnd(s);
      && t <= s && (s != [] ==> t != [])
      && (t == [] || (!IntSpace(t[0]) && !IntSpace(t[|t| - 1])))
    decreases |s|
  {
    if s != [] && IntSpace(s[|s| - 1]) {
      IntStripEndKeepsStart(s[..|s| - 1]);
    }
  }

  lemma {:induction false} IntStripStartPadded(pre: string, t: string)
    requires AllIntSpace(pre)
    requires t == [] || !IntSpace(t[0])
    ensures IntStripStart(pre + t) == t
    decreases |pre|
  {
    if pre == [] {
      assert pre + t == t;
    } else {
      assert (pre + t)[1..] == pre[1..] + t;
      IntStripStartPadded(pre[1..], t);
    }
  }

  lemma {:induction false} IntStripEndPadded(t: string, post: string)
    requires AllIntSpace(post)
    requires t == [] || !IntSpace(t[|t| - 1])
    ensures IntStripEnd(t + post) == t
    decreases |post|
  {
    if post == [] {
      assert t + post == t;
    } else {
      assert (t + post)[..|t + post| - 1] == t + post[..|post| - 1];
      IntStripEndPadded(t, post[..|post| - 1]);
    }
  }

  /** Exactly the whitespace of `IntSpace` around a text that neither
      starts nor ends with it is skipped. */
  lemma {:induction false} IntStripPadded(pre: string, t: string, post: string)
    requires AllIntSpace(pre) && AllIntSpace(post)
    requires t == [] || (!IntSpace(t[0]) && !IntSpace(t[|t| - 1]))
    ensures IntStrip(pre + t + post) == t
  {
    if t == [] {
      assert pre + t + post == pre + post;
      assert AllIntSpace(pre + post);
      IntStripStartPadded(pre + post, []);
      assert pre + post + [] == pre + post;
    } else {
      assert pre + t + post == pre + (t + post);
      IntStripStartPadded(pre, t + post);
      IntStripEndPadded(t, post);
    }
  }

  /** `int(s)` in base 10: the whitespace in `IntSpace` around the number
      is skipped, and what is left must be a number for `ParseNumber`. */
  function ParseInt(s: string): (r: Option<int>)
    ensures r.Some? ==> IntStrip(s) != []
  {
    ParseNumber(IntStrip(s))
  }

  /** The number `int()` reads once the whitespace is gone: one optional
      sign, then digit groups of at most `MaxStrDigits` digits; anything
      else is a `ValueError` (`None`). */
  function ParseNumber(t: string): (r: Option<int>)
    ensures r.Some? ==> t != [] && IsDigit(t[|t| - 1])
  {
    if t == [] then None
    else
      var negative := t[0] == '-';
      var body := if t[0] == '-' || t[0] == '+' then t[1..] else t;
      if !DigitGroups(body) || DigitCount(body) > MaxStrDigits then None
      else
        var magnitude: int := GroupsValue(body);
        Some(if negative then -magnitude else magnitude)
  }

  lemma {:induction false} NatToStringShape(n: nat)
    ensures var s := NatToString(n);
      s != [] && AllDigits(s) && (s[0] == '0' ==> n == 0) && GroupsValue(s) == n
    decreases n
  {
    if n >= 10 {
      NatToStringShape(n / 10);
      var s := NatToString(n);
      assert s[..|s| - 1] == NatToString(n / 10);
    }
  }

  /** A text that neither starts nor ends with whitespace `int()` skips is
      read as a whole. */
  lemma {:induction false} ParseIntUnpadded(s: string)
    requires s != [] && !IntSpace(s[0]) && !IntSpace(s[|s| - 1])
    ensures ParseInt(s) == ParseNumber(s)
  {
    assert [] + s + [] == s;
    IntStripPadded([], s, []);
  }

  lemma {:induction false} DigitGroupsOfDigits(s: string)
    requires s != [] && AllDigits(s)
    ensures DigitGroups(s)
  {
  }

  /** An all-digit run counts every character. */
  lemma {:induction false} DigitCountOfDigits(s: string)
    requires AllDigits(s)
    ensures DigitCount(s) == |s|
    decreases |s|
  {
    if s != [] {
      DigitCountOfDigits(s[..|s| - 1]);
    }
  }

  /** `str(n)` has no more digits than `n + 1`, so every number up to
      `MaxStrDigits` is short enough to read back. */
  lemma {:induction false} NatToStringLength(n: nat)
    ensures |NatToString(n)| <= n + 1
    decreases n
  {
    if n >= 10 {
      NatToStringLength(n / 10);
    }
  }

  /** A plain run of digits, with or without a minus sign, is a number of
      that value, unless it has more than `MaxStrDigits` digits. */
  lemma {:induction false} ParseNumberOfDigits(digits: string)
    requires digits != [] && AllDigits(digits)
    ensures ParseNumber(digits)
      == if |digits| <= MaxStrDigits then Some(GroupsValue(digits) as int) else None
    ensures ParseNumber("-" + digits)
      == if |digits| <= MaxStrDigits then Some(-(GroupsValue(digits) as int)) else None
  {
    assert DigitGroups(digits) && DigitCount(digits) == |digits| by {
      DigitGroupsOfDigits(digits);
      DigitCountOfDigits(digits);
    }
    assert digits[0] != '-' && digits[0] != '+';
    assert ("-" + digits)[0] == '-' && ("-" + digits)[1..] == digits;
  }

  /** `int()` reads a plain run of digits, with or without a minus sign, as
      its value, unless it has more than `MaxStrDigits` digits. */
  lemma {:induction false} ParseIntOfDigits(digits: string, n: nat)
    requires digits != [] && AllDigits(digits) && GroupsValue(digits) == n
    ensures ParseInt(digits) == if |digits| <= MaxStrDigits then Some(n) else None
    ensures ParseInt("-" + digits) == if |digits| <= MaxStrDigits then Some(-(n as int)) else None
  {
    ParseNumberOfDigits(digits);
    assert IsDigit(digits[0]) && IsDigit(digits[|digits| - 1]);
    ParseIntUnpadded(digits);
    var signed := "-" + digits;
    assert signed[0] == '-' && signed[|signed| - 1] == digits[|digits| - 1];
    ParseIntUnpadded(signed);
  }

  /** Reading back what `str` wrote gives the same integer, as long as it
      has at most `MaxStrDigits` digits; a longer one is refused. */
  lemma {:induction false} ParseFormatInt(v: int)
    ensures var digits := NatToString(if v < 0 then -v else v);
      ParseInt(FormatInt(v)) == if |digits| <= MaxStrDigits then Some(v) else None
  {
    if v < 0 {
      assert FormatInt(v) == "-" + NatToString(-v);
      ParseFormatNegative(-v);
    } else {
      assert FormatInt(v) == NatToString(v);
      ParseFormatNonNegative(v);
    }
  }

  /** `str` of a negative number read back. */
  lemma ParseFormatNegative(n: nat)
    requires n > 0
    ensures var d := NatToString(n);
      ParseInt("-" + d) == if |d| <= MaxStrDigits then Some(-(n as int)) else None
  {
    NatToStringShape(n);
    ParseIntOfDigits(NatToString(n), n);
  }

  /** `str` of a non-negative number read back. */
  lemma ParseFormatNonNegative(n: nat)
    ensures var d := NatToString(n);
      ParseInt(d) == if |d| <= MaxStrDigits then Some(n as int) else None
  {
    NatToStringShape(n);
    ParseIntOfDigits(NatToString(n), n);
  }

  /** `int()` reads a number the same with any run of the whitespace it
      skips before and after it. */
  lemma {:induction false} ParseIntPadded(pre: string, t: string, post: string)
    requires AllIntSpace(pre) && AllIntSpace(post)
    requires t == [] || (!IntSpace(t[0]) && !IntSpace(t[|t| - 1]))
    ensures ParseInt(pre + t + post) == ParseInt(t)
  {
    assert IntStrip(pre + t + post) == t by {
      IntStripPadded(pre, t, post);
    }
    assert IntStrip(t) == t by {
      assert [] + t + [] == t;
      IntStripPadded([], t, []);
    }
  }

  /** A text that starts with one of the separators U+001C to U+001F is no
      number for `int()`, whatever follows. */
  lemma {:induction false} ParseIntSeparatorFirst(c: char, s: string)
    requires '\U{1C}' <= c <= '\U{1F}'
    ensures ParseInt([c] + s) == None
  {
    var text := [c] + s;
    assert IntStripStart(text) == text;
    IntStripEndKeepsStart(text);
    var t := IntStrip(text);
    assert t != [] && t[0] == c;
    assert !IsDigit(t[0]);
  }
}
