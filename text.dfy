/** Python's character classes and the small string operations the scraper
    relies on: `str.isspace` (the `\s` of `re`), `\d`, `\w`, `[A-Za-z]`,
    `str.strip()` and the decimal rendering of an `int` in an f-string. */
module Text {

  /** Python's `str.isspace()`, which is also what `\s` matches in a `str`
      pattern: ASCII blanks and control separators plus the Unicode spaces,
      among them the no-break space U+00A0. */
  predicate IsSpace(c: char) {
    || c == ' '
    || ('\t' <= c <= '\r')
    || ('\U{1C}' <= c <= '\U{1F}')
    || c == '\U{85}'
    || c == '\U{A0}'
    || c == '\U{1680}'
    || ('\U{2000}' <= c <= '\U{200A}')
    || c == '\U{2028}'
    || c == '\U{2029}'
    || c == '\U{202F}'
    || c == '\U{205F}'
    || c == '\U{3000}'
  }

  predicate IsDigit(c: char) { '0' <= c <= '9' }

  predicate IsUpper(c: char) { 'A' <= c <= 'Z' }

  predicate IsLower(c: char) { 'a' <= c <= 'z' }

  /** `[A-Za-z]` */
  predicate IsLetter(c: char) { IsUpper(c) || IsLower(c) }

  /** `\w`, restricted to ASCII */
  predicate IsWordChar(c: char) { IsLetter(c) || IsDigit(c) || c == '_' }

  /** The character classes that the source's regular expressions repeat
      with `+`; `DateWord` is the class `[A-Za-z,?]` of the closing-date
      pattern. */
  datatype CharClass = Space | Digit | Letter | Word | DateWord

  predicate InClass(c: char, k: CharClass) {
    match k
    case Space => IsSpace(c)
    case Digit => IsDigit(c)
    case Letter => IsLetter(c)
    case Word => IsWordChar(c)
    case DateWord => IsLetter(c) || c == ',' || c == '?'
  }

  predicate AllIn(s: string, k: CharClass) {
    forall i :: 0 <= i < |s| ==> InClass(s[i], k)
  }

  predicate NoSpace(s: string) {
    forall i :: 0 <= i < |s| ==> !IsSpace(s[i])
  }

  /** Where the maximal run of `k` characters starting at `i` ends: what a
      greedy `k+` consumes from position `i`. */
  function RunEnd(s: string, i: nat, k: CharClass): (e: nat)
    requires i <= |s|
    ensures i <= e <= |s|
    decreases |s| - i
  {
    if i < |s| && InClass(s[i], k) then RunEnd(s, i + 1, k) else i
  }

  /** The run `RunEnd` measures is all of class `k`, and it is maximal. */
  lemma {:induction false} RunEndRun(s: string, i: nat, k: CharClass)
    requires i <= |s|
    ensures forall j :: i <= j < RunEnd(s, i, k) ==> InClass(s[j], k)
    ensures RunEnd(s, i, k) == |s| || !InClass(s[RunEnd(s, i, k)], k)
    decreases |s| - i
  {
    if i < |s| && InClass(s[i], k) {
      RunEndRun(s, i + 1, k);
    }
  }

  /** `RunEnd` stops exactly at the first character outside the class. */
  lemma {:induction false} RunEndIs(t: string, i: nat, e: nat, k: CharClass)
    requires i <= e <= |t|
    requires forall x :: i <= x < e ==> InClass(t[x], k)
    requires e == |t| || !InClass(t[e], k)
    ensures RunEnd(t, i, k) == e
    decreases e - i
  {
    if i < e {
      RunEndIs(t, i + 1, e, k);
    }
  }

  /** The slice a greedy `k+` consumes from `i` is all of class `k`. */
  lemma RunSlice(s: string, i: nat, k: CharClass)
    requires i <= |s|
    ensures AllIn(s[i..RunEnd(s, i, k)], k)
  {
    RunEndRun(s, i, k);
  }

  /** Where the maximal run of whitespace ending at `e` starts. */
  function TrailStart(s: string, e: nat): (b: nat)
    requires e <= |s|
    ensures b <= e
  {
    if e > 0 && IsSpace(s[e - 1]) then TrailStart(s, e - 1) else e
  }

  /** The run `TrailStart` measures is all whitespace, and it is maximal. */
  lemma {:induction false} TrailStartRun(s: string, e: nat)
    requires e <= |s|
    ensures forall j :: TrailStart(s, e) <= j < e ==> IsSpace(s[j])
    ensures TrailStart(s, e) == 0 || !IsSpace(s[TrailStart(s, e) - 1])
  {
    if e > 0 && IsSpace(s[e - 1]) {
      TrailStartRun(s, e - 1);
    }
  }

  /** Python's `str.strip()` with no argument. */
  function Strip(s: string): (r: string)
    ensures |r| <= |s|
  {
    var a := RunEnd(s, 0, Space);
    s[a..][..TrailStart(s[a..], |s| - a)]
  }

  /** What `Strip` keeps neither starts nor ends with whitespace. */
  lemma StripEnds(s: string)
    ensures Strip(s) == [] || (!IsSpace(Strip(s)[0]) && !IsSpace(Strip(s)[|Strip(s)| - 1]))
  {
    var a := RunEnd(s, 0, Space);
    RunEndRun(s, 0, Space);
    TrailStartRun(s[a..], |s| - a);
  }

  /** `Strip` removes exactly the leading and the trailing whitespace: what
      it keeps is the slice `s[a..b]` with only whitespace outside it. */
  lemma StripIsSlice(s: string) returns (a: nat, b: nat)
    ensures a <= b <= |s| && Strip(s) == s[a..b]
    ensures forall j :: 0 <= j < a ==> IsSpace(s[j])
    ensures forall j :: b <= j < |s| ==> IsSpace(s[j])
  {
    a := RunEnd(s, 0, Space);
    RunEndRun(s, 0, Space);
    var t := s[a..];
    b := a + TrailStart(t, |t|);
    TrailStartRun(t, |t|);
    assert Strip(s) == s[a..b];
    forall j | b <= j < |s| ensures IsSpace(s[j]) {
      assert s[j] == t[j - a];
    }
  }

  /** A string without leading or trailing whitespace is its own strip. */
  lemma {:induction false} StripKeepsStripped(s: string)
    requires s == [] || (!IsSpace(s[0]) && !IsSpace(s[|s| - 1]))
    ensures Strip(s) == s
  {
    if s != [] {
      assert RunEnd(s, 0, Space) == 0;
      assert s[0..] == s;
      assert TrailStart(s, |s|) == |s|;
    }
  }

  lemma StripIdempotent(s: string)
    ensures Strip(Strip(s)) == Strip(s)
  {
    StripEnds(s);
    StripKeepsStripped(Strip(s));
  }

  function DigitChar(d: nat): (c: char)
    requires d < 10
    ensures IsDigit(c)
  {
    ('0' as int + d) as char
  }

  function DigitValue(c: char): (d: nat)
    requires IsDigit(c)
    ensures d < 10 && DigitChar(d) == c
  {
    (c as int - '0' as int)
  }

  /** `str(n)` for a non-negative integer: its decimal digits, without a
      leading zero. */
  function NatToString(n: nat): (r: string)
    ensures 1 <= |r|
    ensures (n < 10) == (|r| == 1)
  {
    if n < 10 then [DigitChar(n)] else NatToString(n / 10) + [DigitChar(n % 10)]
  }

  lemma {:induction false} NatToStringDigits(n: nat)
    ensures AllIn(NatToString(n), Digit)
  {
    if n >= 10 {
      NatToStringDigits(n / 10);
    }
  }

  /** The value of a string of decimal digits. */
  function ParseNat(s: string): nat
    requires AllIn(s, Digit)
  {
    if s == [] then 0 else ParseNat(s[..|s| - 1]) * 10 + DigitValue(s[|s| - 1])
  }

  lemma {:induction false} ParseNatToString(n: nat)
    ensures AllIn(NatToString(n), Digit) && ParseNat(NatToString(n)) == n
  {
    var r := NatToString(n);
    NatToStringDigits(n);
    if n >= 10 {
      NatToStringDigits(n / 10);
      ParseNatToString(n / 10);
      assert r[..|r| - 1] == NatToString(n / 10);
    }
  }

  /** Distinct numbers render as distinct strings. */
  lemma NatToStringInjective(m: nat, n: nat)
    requires NatToString(m) == NatToString(n)
    ensures m == n
  {
    ParseNatToString(m);
    ParseNatToString(n);
  }

  /** `x` occurs in `s` at position `p`. */
  predicate At(s: string, p: nat, x: string)
    decreases |x|
  {
    if x == [] then p <= |s| else p < |s| && s[p] == x[0] && At(s, p + 1, x[1..])
  }

  /** `At` is the slice equation `s[p..p + |x|] == x`. */
  lemma {:induction false} AtIsSlice(s: string, p: nat, x: string)
    ensures At(s, p, x) <==> p + |x| <= |s| && s[p..p + |x|] == x
    decreases |x|
  {
    if x != [] {
      AtIsSlice(s, p + 1, x[1..]);
      if p + |x| <= |s| {
        assert s[p..p + |x|] == [s[p]] + s[p + 1..p + 1 + |x[1..]|];
        assert x == [x[0]] + x[1..];
      }
    }
  }

  lemma AtSlice(s: string, p: nat, q: nat)
    requires p <= q <= |s|
    ensures At(s, p, s[p..q])
  {
    AtIsSlice(s, p, s[p..q]);
  }

  /** An occurrence of `x + y` is an occurrence of `x` followed by one of
      `y`. */
  lemma {:induction false} AtAppend(s: string, p: nat, x: string, y: string)
    ensures At(s, p, x + y) <==> At(s, p, x) && At(s, p + |x|, y)
    decreases |x|
  {
    if x == [] {
      assert x + y == y;
      if At(s, p, y) {
        AtStart(s, p, y);
      }
    } else {
      assert (x + y)[0] == x[0] && (x + y)[1..] == x[1..] + y;
      AtAppend(s, p + 1, x[1..], y);
    }
  }

  lemma {:induction false} AtStart(s: string, p: nat, x: string)
    requires At(s, p, x)
    ensures p + |x| <= |s|
    decreases |x|
  {
    if x != [] {
      AtStart(s, p + 1, x[1..]);
    }
  }

  /** Character `i` of an occurrence of `x` is `x[i]`. */
  lemma {:induction false} AtIndex(s: string, p: nat, x: string, i: nat)
    requires At(s, p, x) && i < |x|
    ensures p + i < |s| && s[p + i] == x[i]
    decreases i
  {
    if 0 < i {
      AtIndex(s, p + 1, x[1..], i - 1);
    }
  }

  /** Occurrences that follow each other make an occurrence of the
      concatenation; the positions are given so that no arithmetic on
      lengths is left to the caller. */
  lemma AtCat(s: string, p: nat, q: nat, x: string, y: string)
    requires At(s, p, x) && At(s, q, y) && q == p + |x|
    ensures At(s, p, x + y)
  {
    AtAppend(s, p, x, y);
  }

  /** Every character of an occurrence of `x` is in the classes of `x`. */
  lemma AtAllIn(s: string, p: nat, x: string, k: CharClass)
    requires At(s, p, x) && AllIn(x, k)
    ensures p + |x| <= |s|
    ensures forall j :: p <= j < p + |x| ==> InClass(s[j], k)
  {
    AtStart(s, p, x);
    forall j | p <= j < p + |x| ensures InClass(s[j], k) {
      AtIndex(s, p, x, j - p);
    }
  }

  /** An occurrence of a run of class `k` followed by a character outside
      `k` (or by the end) is exactly what a greedy `k+` consumes. */
  lemma AtRunEnd(s: string, p: nat, x: string, k: CharClass)
    requires At(s, p, x) && AllIn(x, k)
    requires p + |x| < |s| ==> !InClass(s[p + |x|], k)
    ensures RunEnd(s, p, k) == p + |x|
  {
    AtStart(s, p, x);
    AtAllIn(s, p, x, k);
    RunEndIs(s, p, p + |x|, k);
  }
}
