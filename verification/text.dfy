/** String rules the scraper applies through Python's `str` methods:
    `strip()`, `split(c)[0]`, `replace(c, '')`, `isdigit()`, `int(...)` and the
    regular expression `\d+`. Digits are the ASCII digits throughout. */
module Text {

  import opened Wrappers

  /** The characters Python's `str.isspace()` accepts, hence the ones
      `str.strip()` removes. */
  predicate IsSpace(c: char) {
    || c == ' '
    || ('\t' <= c <= '\r')
    || ('\U{1c}' <= c <= '\U{1f}')
    || c == '\U{85}'
    || c == '\U{a0}'
    || c == '\U{1680}'
    || ('\U{2000}' <= c <= '\U{200a}')
    || c == '\U{2028}'
    || c == '\U{2029}'
    || c == '\U{202f}'
    || c == '\U{205f}'
    || c == '\U{3000}'
  }

  /** Every character of `s` is white space. */
  predicate AllSpace(s: string) {
    forall k :: 0 <= k < |s| ==> IsSpace(s[k])
  }

  /** A space in front of `s[1..]`, whose suffix `r` follows only white
      space, makes `r` a suffix of `s` that follows only white space. */
  lemma LeadingSpace(s: string, r: string)
    requires s != [] && IsSpace(s[0])
    requires |r| < |s| && r == s[1..][|s| - 1 - |r|..] && AllSpace(s[1..][..|s| - 1 - |r|])
    ensures r == s[|s| - |r|..] && AllSpace(s[..|s| - |r|])
  {
    var k := |s| - 1 - |r|;
    assert s[..k + 1] == [s[0]] + s[1..][..k];
    assert s[1..][k..] == s[k + 1..];
  }

  /** `s` without its leading white space. */
  function TrimStart(s: string): (r: string)
    ensures |r| <= |s| && r == s[|s| - |r|..]
    ensures AllSpace(s[..|s| - |r|])
    ensures r == [] || !IsSpace(r[0])
  {
    if s != [] && IsSpace(s[0]) then
      var r := TrimStart(s[1..]);
      LeadingSpace(s, r);
      r
    else s
  }

  /** A space after `s[..|s| - 1]`, whose prefix `r` precedes only white
      space, makes `r` a prefix of `s` that precedes only white space. */
  lemma TrailingSpace(s: string, r: string)
    requires s != [] && IsSpace(s[|s| - 1])
    requires r <= s[..|s| - 1] && AllSpace(s[..|s| - 1][|r|..])
    ensures r <= s && AllSpace(s[|r|..])
  {
    assert s[|r|..] == s[..|s| - 1][|r|..] + [s[|s| - 1]];
  }

  /** `s` without its trailing white space. */
  function TrimEnd(s: string): (r: string)
    ensures r <= s
    ensures AllSpace(s[|r|..])
    ensures r == [] || !IsSpace(r[|r| - 1])
  {
    if s != [] && IsSpace(s[|s| - 1]) then
      var r := TrimEnd(s[..|s| - 1]);
      TrailingSpace(s, r);
      r
    else s
  }

  /** `r` is the slice of `s` at offset `i`, and everything of `s` before and
      after that slice is white space. */
  predicate SpacedAround(s: string, r: string, i: int) {
    && 0 <= i <= |s| - |r|
    && r == s[i..i + |r|]
    && AllSpace(s[..i])
    && AllSpace(s[i + |r|..])
  }

  /** A suffix `t` of `s` after white space, and a prefix `r` of `t` before
      white space: `r` is a slice of `s` with only white space around it. */
  lemma SpacedAroundOfTrims(s: string, t: string, r: string)
    requires |t| <= |s| && t == s[|s| - |t|..] && AllSpace(s[..|s| - |t|])
    requires r <= t && AllSpace(t[|r|..])
    ensures SpacedAround(s, r, |s| - |t|)
  {
    var i := |s| - |t|;
    assert r == t[..|r|] == s[i..i + |r|];
    assert t[|r|..] == s[i + |r|..];
  }

  /** Python's `s.strip()`: the slice of `s` left after removing white space
      from both ends. */
  function Strip(s: string): (r: string)
    ensures r == [] || (!IsSpace(r[0]) && !IsSpace(r[|r| - 1]))
    ensures exists i :: SpacedAround(s, r, i)
  {
    var t := TrimStart(s);
    var r := TrimEnd(t);
    SpacedAroundOfTrims(s, t, r);
    r
  }

  /** A string that neither starts nor ends with white space is stripped
      to itself. */
  lemma StripKeeps(s: string)
    requires s == [] || (!IsSpace(s[0]) && !IsSpace(s[|s| - 1]))
    ensures Strip(s) == s
  {
    assert TrimStart(s) == s;
  }

  /** Stripping a string twice removes nothing more. */
  lemma {:induction false} StripIdempotent(s: string)
    ensures Strip(Strip(s)) == Strip(s)
  {
    var r := Strip(s);
    assert TrimStart(r) == r;
    assert TrimEnd(r) == r;
  }

  /** Python's `s.split(c)[0]`: the text before the first `c`, or all of `s`
      when it holds no `c`. */
  function PrefixBefore(s: string, c: char): (r: string)
    ensures r <= s
    ensures c !in r
    ensures |r| < |s| ==> s[|r|] == c
  {
    if s == [] || s[0] == c then [] else [s[0]] + PrefixBefore(s[1..], c)
  }

  /** The text before the first `c` of `a + [c] + b` is `a` when `a` holds
      no `c`. */
  lemma {:induction false} PrefixBeforeOfJoin(a: string, c: char, b: string)
    requires c !in a
    ensures PrefixBefore(a + [c] + b, c) == a
  {
    if a != [] {
      assert (a + [c] + b)[1..] == a[1..] + [c] + b;
      PrefixBeforeOfJoin(a[1..], c, b);
    }
  }

  /** A string without `c` is its own prefix before `c`, and cutting twice
      at the same character cuts nothing more. */
  lemma PrefixBeforeFixes(s: string, c: char)
    ensures c !in s ==> PrefixBefore(s, c) == s
    ensures PrefixBefore(PrefixBefore(s, c), c) == PrefixBefore(s, c)
  {
  }

  /** Python's `s.replace(c, '')`: every `c` removed. */
  function RemoveChar(s: string, c: char): (r: string)
    ensures forall x :: x in r <==> x in s && x != c
    ensures |r| <= |s|
    ensures c !in s ==> r == s
  {
    if s == [] then []
    else
      var rest := RemoveChar(s[1..], c);
      assert s == [s[0]] + s[1..];
      if s[0] == c then rest else [s[0]] + rest
  }

  /** Removing `c` from a join removes it from each part, so the kept
      characters stay in order, each as often as it occurred. */
  lemma {:induction false} RemoveCharJoin(a: string, b: string, c: char)
    ensures RemoveChar(a + b, c) == RemoveChar(a, c) + RemoveChar(b, c)
  {
    if a == [] {
      assert a + b == b;
    } else {
      assert (a + b)[0] == a[0] && (a + b)[1..] == a[1..] + b;
      RemoveCharJoin(a[1..], b, c);
    }
  }

  /** One character is dropped when it is `c` and kept otherwise. */
  lemma RemoveCharOfOne(x: char, c: char)
    ensures RemoveChar([x], c) == if x == c then [] else [x]
  {
    assert [x][1..] == [];
  }

  /** A leading `c` before text free of `c` is all that `replace(c, '')`
      removes. */
  lemma RemoveLeading(c: char, t: string)
    requires c !in t
    ensures RemoveChar([c] + t, c) == t
  {
    assert ([c] + t)[1..] == t;
  }

  predicate IsDigit(c: char) {
    '0' <= c <= '9'
  }

  predicate AllDigits(s: string) {
    forall k :: 0 <= k < |s| ==> IsDigit(s[k])
  }

  /** Python's `s.isdigit()` on ASCII text: non-empty and only digits. */
  predicate IsNumeral(s: string) {
    s != [] && AllDigits(s)
  }

  function DigitValue(c: char): nat
    requires IsDigit(c)
  {
    c as int - '0' as int
  }

  function DigitChar(d: nat): (c: char)
    requires d < 10
    ensures IsDigit(c) && DigitValue(c) == d
  {
    ('0' as int + d) as char
  }

  /** Python's `int(s)` on a string of digits (leading zeros allowed). */
  function DecimalValue(s: string): nat
    requires AllDigits(s)
  {
    if s == [] then 0
    else DecimalValue(s[..|s| - 1]) * 10 + DigitValue(s[|s| - 1])
  }

  /** The decimal numeral of `n`, without leading zeros. */
  function Decimal(n: nat): (r: string)
    ensures IsNumeral(r)
    ensures r[0] != '0' || n == 0
  {
    if n < 10 then [DigitChar(n)] else Decimal(n / 10) + [DigitChar(n % 10)]
  }

  /** Reading back a written numeral gives the number. */
  lemma {:induction false} DecimalRoundTrip(n: nat)
    ensures DecimalValue(Decimal(n)) == n
  {
    var r := Decimal(n);
    if n >= 10 {
      var p := Decimal(n / 10);
      assert r[..|r| - 1] == p;
      DecimalRoundTrip(n / 10);
    }
  }

  /** A stretch `s[start..end]` of a string. */
  datatype Span = Span(start: nat, end: nat)

  /** The index of the first digit at or after `i`, or `|s|` when none. */
  function NextDigit(s: string, i: nat): (k: nat)
    requires i <= |s|
    ensures i <= k <= |s|
    ensures forall j :: i <= j < k ==> !IsDigit(s[j])
    ensures k < |s| ==> IsDigit(s[k])
    decreases |s| - i
  {
    if i == |s| || IsDigit(s[i]) then i else NextDigit(s, i + 1)
  }

  /** The end of the run of digits starting at `i`. */
  function RunEnd(s: string, i: nat): (e: nat)
    requires i <= |s|
    ensures i <= e <= |s|
    ensures forall j :: i <= j < e ==> IsDigit(s[j])
    ensures e == |s| || !IsDigit(s[e])
    decreases |s| - i
  {
    if i < |s| && IsDigit(s[i]) then RunEnd(s, i + 1) else i
  }

  /** What `re.search(r'\d+', s)` matches: the leftmost, longest run of
      digits, or nothing when `s` holds no digit. */
  function FirstDigitRun(s: string): (r: Option<Span>)
    ensures r.None? <==> forall j :: 0 <= j < |s| ==> !IsDigit(s[j])
    ensures r.Some? ==>
              && r.value.start < r.value.end <= |s|
              && (forall j :: 0 <= j < r.value.start ==> !IsDigit(s[j]))
              && (forall j :: r.value.start <= j < r.value.end ==> IsDigit(s[j]))
              && (r.value.end == |s| || !IsDigit(s[r.value.end]))
  {
    var k := NextDigit(s, 0);
    if k == |s| then None else Some(Span(k, RunEnd(s, k)))
  }

  /** The matched digits of `FirstDigitRun`. */
  function MatchedDigits(s: string, span: Span): (r: string)
    requires span.start <= span.end <= |s|
    requires forall j :: span.start <= j < span.end ==> IsDigit(s[j])
    ensures AllDigits(r)
  {
    s[span.start..span.end]
  }
}
