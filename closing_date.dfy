/** The closing date of one article: the pattern of main.py:43 searched in
    the article's text (main.py:45) and the whitespace cleanup of
    main.py:49-51 applied to its group. */
module ClosingDate {
  import opened Wrappers
  import opened Text

  const Label: string := "Closing Date:"

  const Suffixes: set<string> := {"st", "nd", "rd", "th"}

  /** `\s+[A-Za-z,?]+\s+\d{4}`, the part of the pattern after the ordinal
      suffix. */
  datatype Tail = Tail(gap1: string, word: string, gap2: string, year: string)
  {
    function Text(): string {
      gap1 + (word + (gap2 + year))
    }
  }

  /** `\d{1,2}(?:st|nd|rd|th)` followed by a `Tail`: group 1 of the pattern. */
  datatype DateGroup = DateGroup(day: string, suffix: string, tail: Tail)
  {
    /** What `match.group(1)` returns. */
    function Text(): string {
      day + (suffix + tail.Text())
    }
  }

  /** One match of `Closing Date:\s+(\d{1,2}(?:st|nd|rd|th)\s+[A-Za-z,?]+\s+\d{4})`;
      `lead` is the `\s+` before the group. */
  datatype DateMatch = DateMatch(lead: string, group: DateGroup)
  {
    /** The text the pattern consumed after the label. */
    function Text(): string {
      lead + group.Text()
    }
  }

  /** The label begins at position `p` of `t`. */
  predicate LabelAt(t: string, p: nat) {
    p + |Label| <= |t| && t[p..p + |Label|] == Label
  }

  /** The shape the pattern imposes on each part. */
  predicate TailWellFormed(m: Tail) {
    && 1 <= |m.gap1| && AllIn(m.gap1, Space)
    && 1 <= |m.word| && AllIn(m.word, DateWord)
    && 1 <= |m.gap2| && AllIn(m.gap2, Space)
    && |m.year| == 4 && AllIn(m.year, Digit)
  }

  predicate GroupWellFormed(m: DateGroup) {
    1 <= |m.day| <= 2 && AllIn(m.day, Digit) && m.suffix in Suffixes && TailWellFormed(m.tail)
  }

  predicate WellFormed(m: DateMatch) {
    1 <= |m.lead| && AllIn(m.lead, Space) && GroupWellFormed(m.group)
  }

  // Every `+` and `{1,2}` of the pattern is greedy, and backtracking never
  // helps: each repeated class is followed by a part whose first character
  // lies outside that class (a digit or a letter after `\s+`, whitespace
  // after `[A-Za-z,?]+`, a suffix letter after a one-digit day), so only the
  // maximal runs can succeed. The three functions below therefore take the
  // maximal runs and fail where the next part does not fit.

  /** `\s+[A-Za-z,?]+\s+\d{4}` anchored at `q`. */
  function TailAt(t: string, q: nat): Option<Tail>
    requires q <= |t|
  {
    var g := RunEnd(t, q, Space);
    var w := RunEnd(t, g, DateWord);
    var h := RunEnd(t, w, Space);
    if g == q || w == g || h == w || !(h + 4 <= |t| && AllIn(t[h..h + 4], Digit)) then None
    else Some(Tail(t[q..g], t[g..w], t[w..h], t[h..h + 4]))
  }

  /** Group 1 of the pattern anchored at `j`. */
  function GroupAt(t: string, j: nat): Option<DateGroup>
    requires j <= |t|
  {
    if j == |t| || !IsDigit(t[j]) then None
    else
      var k := if j + 1 < |t| && IsDigit(t[j + 1]) then j + 2 else j + 1;
      if !(k + 2 <= |t| && t[k..k + 2] in Suffixes) then None
      else match TailAt(t, k + 2)
        case None => None
        case Some(tail) => Some(DateGroup(t[j..k], t[k..k + 2], tail))
  }

  /** The whole pattern anchored at position `p` of `t`. */
  function MatchAt(t: string, p: nat): Option<DateMatch>
    requires p <= |t|
  {
    if !LabelAt(t, p) then None
    else
      var i := p + |Label|;
      var j := RunEnd(t, i, Space);
      if j == i then None
      else match GroupAt(t, j)
        case None => None
        case Some(g) => Some(DateMatch(t[i..j], g))
  }

  // Soundness: what the matchers return is well formed and really there.

  lemma TailAtParts(t: string, q: nat) returns (g: nat, w: nat, h: nat)
    requires q <= |t| && TailAt(t, q).Some?
    ensures q < g < w < h && h + 4 <= |t|
    ensures RunEnd(t, q, Space) == g && RunEnd(t, g, DateWord) == w && RunEnd(t, w, Space) == h
    ensures AllIn(t[h..h + 4], Digit)
    ensures TailAt(t, q).value == Tail(t[q..g], t[g..w], t[w..h], t[h..h + 4])
  {
    g := RunEnd(t, q, Space);
    w := RunEnd(t, g, DateWord);
    h := RunEnd(t, w, Space);
  }

  lemma TailSlicesAt(t: string, q: nat, g: nat, w: nat, h: nat)
    requires q <= g <= w <= h && h + 4 <= |t|
    ensures At(t, q, Tail(t[q..g], t[g..w], t[w..h], t[h..h + 4]).Text())
  {
    var m := Tail(t[q..g], t[g..w], t[w..h], t[h..h + 4]);
    AtSlice(t, q, g);
    AtSlice(t, g, w);
    AtSlice(t, w, h);
    AtSlice(t, h, h + 4);
    AtAppend(t, w, m.gap2, m.year);
    AtAppend(t, g, m.word, m.gap2 + m.year);
    AtAppend(t, q, m.gap1, m.word + (m.gap2 + m.year));
  }

  lemma TailAtSound(t: string, q: nat)
    requires q <= |t| && TailAt(t, q).Some?
    ensures TailWellFormed(TailAt(t, q).value)
    ensures At(t, q, TailAt(t, q).value.Text())
  {
    var g, w, h := TailAtParts(t, q);
    RunSlice(t, q, Space);
    RunSlice(t, g, DateWord);
    RunSlice(t, w, Space);
    TailSlicesAt(t, q, g, w, h);
  }

  /** Where the day of a found group ends. */
  lemma GroupAtParts(t: string, j: nat) returns (k: nat)
    requires j <= |t| && GroupAt(t, j).Some?
    ensures var m := GroupAt(t, j).value;
      && j < k <= j + 2 && k + 2 <= |t| && AllIn(t[j..k], Digit)
      && m.day == t[j..k] && m.suffix == t[k..k + 2] && m.suffix in Suffixes
      && TailAt(t, k + 2) == Some(m.tail)
  {
    k := if j + 1 < |t| && IsDigit(t[j + 1]) then j + 2 else j + 1;
  }

  lemma GroupAtSound(t: string, j: nat)
    requires j <= |t| && GroupAt(t, j).Some?
    ensures GroupWellFormed(GroupAt(t, j).value)
    ensures At(t, j, GroupAt(t, j).value.Text())
  {
    var m := GroupAt(t, j).value;
    var k := GroupAtParts(t, j);
    TailAtSound(t, k + 2);
    AtSlice(t, j, k);
    AtSlice(t, k, k + 2);
    AtAppend(t, k, m.suffix, m.tail.Text());
    AtAppend(t, j, m.day, m.suffix + m.tail.Text());
  }

  lemma MatchAtParts(t: string, p: nat) returns (j: nat)
    requires p <= |t| && MatchAt(t, p).Some?
    ensures p + |Label| < j <= |t| && LabelAt(t, p)
    ensures RunEnd(t, p + |Label|, Space) == j && GroupAt(t, j).Some?
    ensures MatchAt(t, p).value == DateMatch(t[p + |Label|..j], GroupAt(t, j).value)
  {
    j := RunEnd(t, p + |Label|, Space);
  }

  /** What `MatchAt` returns is a well-formed match: the label is at `p`
      and the rest of the match follows it. */
  lemma MatchAtSound(t: string, p: nat)
    requires p <= |t| && MatchAt(t, p).Some?
    ensures WellFormed(MatchAt(t, p).value)
    ensures LabelAt(t, p) && At(t, p + |Label|, MatchAt(t, p).value.Text())
  {
    var j := MatchAtParts(t, p);
    var g := GroupAt(t, j).value;
    GroupAtSound(t, j);
    RunSlice(t, p + |Label|, Space);
    AtSlice(t, p + |Label|, j);
    AtCat(t, p + |Label|, j, t[p + |Label|..j], g.Text());
  }

  // Completeness: wherever the text has the shape, the matchers find it.

  lemma TailPieces(t: string, q: nat, m: Tail)
    requires At(t, q, m.Text())
    ensures var g := q + |m.gap1|; var w := g + |m.word|; var h := w + |m.gap2|;
      At(t, q, m.gap1) && At(t, g, m.word) && At(t, w, m.gap2) && At(t, h, m.year)
  {
    var g := q + |m.gap1|;
    var w := g + |m.word|;
    AtAppend(t, q, m.gap1, m.word + (m.gap2 + m.year));
    AtAppend(t, g, m.word, m.gap2 + m.year);
    AtAppend(t, w, m.gap2, m.year);
  }

  /** The greedy runs stop at the part boundaries of a well-formed tail. */
  lemma TailRuns(t: string, q: nat, m: Tail)
    requires TailWellFormed(m)
    requires var g := q + |m.gap1|; var w := g + |m.word|; var h := w + |m.gap2|;
      At(t, q, m.gap1) && At(t, g, m.word) && At(t, w, m.gap2) && At(t, h, m.year)
    ensures var g := q + |m.gap1|; var w := g + |m.word|; var h := w + |m.gap2|;
      RunEnd(t, q, Space) == g && RunEnd(t, g, DateWord) == w && RunEnd(t, w, Space) == h
  {
    var g := q + |m.gap1|;
    var w := g + |m.word|;
    var h := w + |m.gap2|;
    AtIndex(t, g, m.word, 0);
    AtIndex(t, w, m.gap2, 0);
    AtIndex(t, h, m.year, 0);
    AtRunEnd(t, q, m.gap1, Space);
    AtRunEnd(t, g, m.word, DateWord);
    AtRunEnd(t, w, m.gap2, Space);
  }

  lemma TailAtFrom(t: string, q: nat, g: nat, w: nat, h: nat)
    requires q < g < w < h && h + 4 <= |t| && AllIn(t[h..h + 4], Digit)
    requires RunEnd(t, q, Space) == g && RunEnd(t, g, DateWord) == w && RunEnd(t, w, Space) == h
    ensures TailAt(t, q) == Some(Tail(t[q..g], t[g..w], t[w..h], t[h..h + 4]))
  {
  }

  lemma TailAtComplete(t: string, q: nat, m: Tail)
    requires TailWellFormed(m) && At(t, q, m.Text())
    ensures TailAt(t, q) == Some(m)
  {
    TailPieces(t, q, m);
    TailRuns(t, q, m);
    var g := q + |m.gap1|;
    var w := g + |m.word|;
    var h := w + |m.gap2|;
    AtIsSlice(t, q, m.gap1);
    AtIsSlice(t, g, m.word);
    AtIsSlice(t, w, m.gap2);
    AtIsSlice(t, h, m.year);
    TailAtFrom(t, q, g, w, h);
  }

  lemma GroupAtComplete(t: string, j: nat, m: DateGroup)
    requires GroupWellFormed(m) && At(t, j, m.Text())
    ensures GroupAt(t, j) == Some(m)
  {
    var k := j + |m.day|;
    AtAppend(t, j, m.day, m.suffix + m.tail.Text());
    AtAppend(t, k, m.suffix, m.tail.Text());
    TailAtComplete(t, k + 2, m.tail);
    AtIndex(t, j, m.day, 0);
    AtIndex(t, k, m.suffix, 0);
    assert m.suffix[0] in "snrt";
    if |m.day| == 2 {
      AtIndex(t, j, m.day, 1);
    }
    AtIsSlice(t, j, m.day);
    AtIsSlice(t, k, m.suffix);
    GroupAtFrom(t, j, k, m.tail);
  }

  lemma GroupAtFrom(t: string, j: nat, k: nat, tail: Tail)
    requires j < k <= j + 2 && k + 2 <= |t| && AllIn(t[j..k], Digit)
    requires k == j + 1 ==> !IsDigit(t[k])
    requires t[k..k + 2] in Suffixes && TailAt(t, k + 2) == Some(tail)
    ensures GroupAt(t, j) == Some(DateGroup(t[j..k], t[k..k + 2], tail))
  {
    assert t[j] == t[j..k][0];
    if k == j + 2 {
      assert t[j + 1] == t[j..k][1];
    }
  }

  /** The converse of `MatchAtSound`: wherever the text at `p` has the shape
      of a well-formed match, `MatchAt` finds exactly that match. */
  lemma MatchAtComplete(t: string, p: nat, m: DateMatch)
    requires WellFormed(m) && LabelAt(t, p) && At(t, p + |Label|, m.Text())
    ensures MatchAt(t, p) == Some(m)
  {
    var i := p + |Label|;
    var j := i + |m.lead|;
    AtAppend(t, i, m.lead, m.group.Text());
    GroupAtComplete(t, j, m.group);
    GroupStart(t, j, m.group);
    AtRunEnd(t, i, m.lead, Space);
    AtIsSlice(t, i, m.lead);
    MatchAtFrom(t, p, j, m.group);
  }

  /** A group starts with a digit of its day. */
  lemma GroupStart(t: string, j: nat, g: DateGroup)
    requires GroupWellFormed(g) && At(t, j, g.Text())
    ensures j < |t| && IsDigit(t[j])
  {
    assert g.Text()[0] == g.day[0];
    AtIndex(t, j, g.Text(), 0);
  }

  lemma MatchAtFrom(t: string, p: nat, j: nat, g: DateGroup)
    requires p + |Label| < j <= |t| && LabelAt(t, p)
    requires RunEnd(t, p + |Label|, Space) == j && GroupAt(t, j) == Some(g)
    ensures MatchAt(t, p) == Some(DateMatch(t[p + |Label|..j], g))
  {
  }

  /** The leftmost position at or after `p` where the pattern matches:
      `re.search` tries the start positions in increasing order. */
  function FirstMatchFrom(t: string, p: nat): (r: Option<nat>)
    requires p <= |t|
    ensures r.Some? ==> p <= r.value <= |t|
    decreases |t| - p
  {
    if MatchAt(t, p).Some? then Some(p)
    else if p == |t| then None
    else FirstMatchFrom(t, p + 1)
  }

  /** `FirstMatchFrom` finds a match, and no position before it (from `p`
      on) matches. */
  lemma {:induction false} FirstMatchFromLeftmost(t: string, p: nat)
    requires p <= |t|
    ensures FirstMatchFrom(t, p).Some? ==> MatchAt(t, FirstMatchFrom(t, p).value).Some?
    ensures forall q :: p <= q <= |t| && (FirstMatchFrom(t, p).None? || q < FirstMatchFrom(t, p).value) ==> MatchAt(t, q).None?
    decreases |t| - p
  {
    if MatchAt(t, p).None? && p < |t| {
      FirstMatchFromLeftmost(t, p + 1);
    }
  }

  /** `re.search(date_pattern, article.text)` (main.py:43-45). */
  function Search(t: string): Option<DateMatch> {
    match FirstMatchFrom(t, 0)
    case Some(q) => MatchAt(t, q)
    case None => None
  }

  /** `Search` finds nothing only when the pattern matches at no position,
      and otherwise yields the match at the leftmost position that has one. */
  lemma SearchLeftmost(t: string)
    ensures Search(t).None? ==> forall q :: 0 <= q <= |t| ==> MatchAt(t, q).None?
    ensures forall q :: 0 <= q <= |t| && MatchAt(t, q).Some? && (forall e :: 0 <= e < q ==> MatchAt(t, e).None?) ==>
      Search(t) == MatchAt(t, q)
  {
    FirstMatchFromLeftmost(t, 0);
  }

  // ----- the cleanup of main.py:49-51 -----

  const NoBreakSpace: char := '\U{A0}'

  /** `s.replace("\xa0", " ")` */
  function ReplaceNoBreak(s: string): string {
    seq(|s|, i requires 0 <= i < |s| => if s[i] == NoBreakSpace then ' ' else s[i])
  }

  /** The non-whitespace characters of `s`, in order. */
  function NonSpaces(s: string): string {
    if s == [] then []
    else if IsSpace(s[0]) then NonSpaces(s[1..])
    else [s[0]] + NonSpaces(s[1..])
  }

  /** `re.sub(r"\s+", " ", s)`: every maximal whitespace run becomes one
      ordinary space. */
  function CollapseSpaces(s: string): (r: string)
    ensures r != [] <==> s != []
    decreases |s|
  {
    if s == [] then []
    else if IsSpace(s[0]) then [' '] + CollapseSpaces(s[RunEnd(s, 0, Space)..])
    else [s[0]] + CollapseSpaces(s[1..])
  }

  /** After collapsing, whitespace occurs only as single ordinary spaces,
      and the first and the last character are whitespace exactly when they
      were before. */
  lemma {:induction false} CollapseShape(s: string)
    ensures var r := CollapseSpaces(s);
      && (forall i :: 0 <= i < |r| && IsSpace(r[i]) ==> r[i] == ' ')
      && (forall i :: 0 <= i < |r| - 1 ==> !(IsSpace(r[i]) && IsSpace(r[i + 1])))
      && (r != [] ==> (IsSpace(r[0]) <==> IsSpace(s[0])))
      && (r != [] ==> (IsSpace(r[|r| - 1]) <==> IsSpace(s[|s| - 1])))
    decreases |s|
  {
    if s != [] {
      var r := CollapseSpaces(s);
      var k := if IsSpace(s[0]) then RunEnd(s, 0, Space) else 1;
      if IsSpace(s[0]) {
        RunEndRun(s, 0, Space);
      }
      var rest := CollapseSpaces(s[k..]);
      CollapseShape(s[k..]);
      assert r == [r[0]] + rest;
      forall i | 0 <= i < |r| - 1 ensures !(IsSpace(r[i]) && IsSpace(r[i + 1])) {
        if 0 < i {
          assert r[i] == rest[i - 1] && r[i + 1] == rest[i];
        }
      }
      if rest != [] {
        assert r[|r| - 1] == rest[|rest| - 1];
        assert s[k..][|s[k..]| - 1] == s[|s| - 1];
      }
    }
  }

  /** Collapsing keeps every non-whitespace character, in order. */
  lemma {:induction false} CollapseKeepsNonSpaces(s: string)
    ensures NonSpaces(CollapseSpaces(s)) == NonSpaces(s)
    decreases |s|
  {
    if s != [] {
      if IsSpace(s[0]) {
        var e := RunEnd(s, 0, Space);
        RunEndRun(s, 0, Space);
        NonSpacesSkip(s, e);
        CollapseKeepsNonSpaces(s[e..]);
        assert ([' '] + CollapseSpaces(s[e..]))[1..] == CollapseSpaces(s[e..]);
      } else {
        CollapseKeepsNonSpaces(s[1..]);
        assert ([s[0]] + CollapseSpaces(s[1..]))[1..] == CollapseSpaces(s[1..]);
      }
    }
  }

  /** Dropping a whitespace prefix does not change `NonSpaces`. */
  lemma {:induction false} NonSpacesSkip(s: string, e: nat)
    requires e <= |s| && forall i :: 0 <= i < e ==> IsSpace(s[i])
    ensures NonSpaces(s[e..]) == NonSpaces(s)
  {
    if e > 0 {
      NonSpacesSkip(s[1..], e - 1);
      assert s[1..][e - 1..] == s[e..];
    }
  }

  /** The cleaned closing date (main.py:49-51). */
  function Clean(s: string): string {
    Strip(CollapseSpaces(ReplaceNoBreak(s)))
  }

  /** What the cleanup guarantees: whitespace only as single ordinary spaces
      between other characters. */
  predicate IsClean(s: string) {
    && (s == [] || (!IsSpace(s[0]) && !IsSpace(s[|s| - 1])))
    && (forall i :: 0 <= i < |s| && IsSpace(s[i]) ==> s[i] == ' ')
    && (forall i :: 0 <= i < |s| - 1 ==> !(IsSpace(s[i]) && IsSpace(s[i + 1])))
  }

  /** The cleaned date has no no-break space, no leading or trailing
      whitespace and no two whitespace characters in a row. */
  lemma CleanIsClean(s: string)
    ensures IsClean(Clean(s))
    ensures NoBreakSpace !in Clean(s)
  {
    var c := CollapseSpaces(ReplaceNoBreak(s));
    CollapseShape(ReplaceNoBreak(s));
    var a, b := StripIsSlice(c);
    StripEnds(c);
    SliceKeepsSpacing(c, a, b);
  }

  /** A slice of a string whose whitespace is single spaces is one too. */
  lemma SliceKeepsSpacing(c: string, a: nat, b: nat)
    requires a <= b <= |c|
    requires forall i :: 0 <= i < |c| && IsSpace(c[i]) ==> c[i] == ' '
    requires forall i :: 0 <= i < |c| - 1 ==> !(IsSpace(c[i]) && IsSpace(c[i + 1]))
    ensures forall i :: 0 <= i < b - a && IsSpace(c[a..b][i]) ==> c[a..b][i] == ' '
    ensures forall i :: 0 <= i < b - a - 1 ==> !(IsSpace(c[a..b][i]) && IsSpace(c[a..b][i + 1]))
  {
    var r := c[a..b];
    forall i | 0 <= i < |r| - 1 ensures !(IsSpace(r[i]) && IsSpace(r[i + 1])) {
      assert r[i] == c[a + i] && r[i + 1] == c[a + i + 1];
    }
  }

  /** The cleanup removes whitespace only: the other characters survive, in
      order. */
  lemma CleanKeepsNonSpaces(s: string)
    ensures NonSpaces(Clean(s)) == NonSpaces(s)
  {
    var c := CollapseSpaces(ReplaceNoBreak(s));
    var a, b := StripIsSlice(c);
    NonSpacesSkip(c, a);
    NonSpacesTrim(c[a..], b - a);
    assert c[a..][..b - a] == Clean(s);
    CollapseKeepsNonSpaces(ReplaceNoBreak(s));
    NonSpacesReplace(s);
  }

  /** Dropping a whitespace suffix does not change `NonSpaces`. */
  lemma {:induction false} NonSpacesTrim(s: string, b: nat)
    requires b <= |s| && forall i :: b <= i < |s| ==> IsSpace(s[i])
    ensures NonSpaces(s[..b]) == NonSpaces(s)
  {
    if b > 0 {
      NonSpacesTrim(s[1..], b - 1);
      assert s[1..][..b - 1] == s[..b][1..];
    } else if s != [] {
      NonSpacesSkip(s, |s|);
      assert s[|s|..] == [];
    }
  }

  /** Turning no-break spaces into spaces does not change `NonSpaces`. */
  lemma {:induction false} NonSpacesReplace(s: string)
    ensures NonSpaces(ReplaceNoBreak(s)) == NonSpaces(s)
  {
    if s != [] {
      NonSpacesReplace(s[1..]);
      assert ReplaceNoBreak(s)[1..] == ReplaceNoBreak(s[1..]);
    }
  }

  /** A clean string is left as it is by each of the three steps. */
  lemma CleanKeepsClean(s: string)
    requires IsClean(s)
    ensures Clean(s) == s
  {
    assert ReplaceNoBreak(s) == s;
    CollapseKeepsClean(s);
    StripKeepsStripped(s);
  }

  lemma {:induction false} CollapseKeepsClean(s: string)
    requires forall i :: 0 <= i < |s| && IsSpace(s[i]) ==> s[i] == ' '
    requires forall i :: 0 <= i < |s| - 1 ==> !(IsSpace(s[i]) && IsSpace(s[i + 1]))
    ensures CollapseSpaces(s) == s
    decreases |s|
  {
    if s != [] {
      var t := s[1..];
      forall i | 0 <= i < |t| - 1 ensures !(IsSpace(t[i]) && IsSpace(t[i + 1])) {
        assert t[i] == s[i + 1] && t[i + 1] == s[i + 2];
      }
      forall i | 0 <= i < |t| && IsSpace(t[i]) ensures t[i] == ' ' {
        assert t[i] == s[i + 1];
      }
      CollapseKeepsClean(t);
      assert s == [s[0]] + t;
      if IsSpace(s[0]) {
        assert |s| > 1 ==> !IsSpace(s[1]);
        RunEndIs(s, 0, 1, Space);
        assert s[1..] == t;
      }
    }
  }

  /** Cleaning twice is cleaning once. */
  lemma CleanIdempotent(s: string)
    ensures Clean(Clean(s)) == Clean(s)
  {
    CleanIsClean(s);
    CleanKeepsClean(Clean(s));
  }

  // ----- the cleanup of a matched group -----

  lemma {:induction false} ReplaceAppend(a: string, b: string)
    ensures ReplaceNoBreak(a + b) == ReplaceNoBreak(a) + ReplaceNoBreak(b)
  {
    assert |ReplaceNoBreak(a + b)| == |ReplaceNoBreak(a) + ReplaceNoBreak(b)|;
    forall i | 0 <= i < |a + b|
      ensures ReplaceNoBreak(a + b)[i] == (ReplaceNoBreak(a) + ReplaceNoBreak(b))[i]
    {
      if i >= |a| { assert (a + b)[i] == b[i - |a|]; }
    }
  }

  lemma {:induction false} CollapseAfterNonSpaces(a: string, b: string)
    requires NoSpace(a)
    ensures CollapseSpaces(a + b) == a + CollapseSpaces(b)
    decreases |a|
  {
    if a == [] {
      assert a + b == b;
    } else {
      var s := a + b;
      assert s[0] == a[0] && !IsSpace(s[0]);
      assert s[1..] == a[1..] + b;
      assert CollapseSpaces(s) == [a[0]] + CollapseSpaces(a[1..] + b);
      CollapseAfterNonSpaces(a[1..], b);
      assert a == [a[0]] + a[1..];
    }
  }

  lemma CollapseAfterSpaces(g: string, b: string)
    requires 1 <= |g| && AllIn(g, Space)
    requires b == [] || !IsSpace(b[0])
    ensures CollapseSpaces(g + b) == [' '] + CollapseSpaces(b)
  {
    RunEndIs(g + b, 0, |g|, Space);
    assert (g + b)[|g|..] == b;
  }

  /** The no-break-space replacement only touches the two gaps. */
  lemma ReplaceGroup(m: DateGroup)
    requires GroupWellFormed(m)
    ensures var t := m.tail;
      ReplaceNoBreak(m.Text())
        == (m.day + m.suffix) + (ReplaceNoBreak(t.gap1) + (t.word + (ReplaceNoBreak(t.gap2) + t.year)))
  {
    var t := m.tail;
    var ds := m.day + m.suffix;
    assert NoSpace(ds) && NoSpace(t.word) && NoSpace(t.year);
    assert ReplaceNoBreak(ds) == ds && ReplaceNoBreak(t.word) == t.word && ReplaceNoBreak(t.year) == t.year;
    ReplaceAppend(t.gap2, t.year);
    ReplaceAppend(t.word, t.gap2 + t.year);
    ReplaceAppend(t.gap1, t.word + (t.gap2 + t.year));
    ReplaceAppend(ds, t.Text());
    assert m.Text() == ds + t.Text();
  }

  /** Collapsing the replaced group leaves one space per gap. */
  lemma CollapseGroup(ds: string, g1: string, word: string, g2: string, year: string)
    requires NoSpace(ds) && NoSpace(word) && NoSpace(year)
    requires 1 <= |g1| && AllIn(g1, Space) && 1 <= |g2| && AllIn(g2, Space)
    requires 1 <= |word| && 1 <= |year|
    ensures CollapseSpaces(ds + (g1 + (word + (g2 + year)))) == ds + ([' '] + (word + ([' '] + year)))
  {
    CollapseAfterNonSpaces(year, []);
    assert year + [] == year;
    CollapseAfterSpaces(g2, year);
    CollapseAfterNonSpaces(word, g2 + year);
    CollapseAfterSpaces(g1, word + (g2 + year));
    CollapseAfterNonSpaces(ds, g1 + (word + (g2 + year)));
  }

  /** The group the pattern captures always cleans to
      "<day><suffix> <word> <year>": each whitespace gap, no-break spaces
      included, becomes one ordinary space. */
  lemma CleanGroupText(m: DateGroup)
    requires GroupWellFormed(m)
    ensures Clean(m.Text()) == m.day + m.suffix + " " + m.tail.word + " " + m.tail.year
  {
    var t := m.tail;
    ReplaceGroup(m);
    var g1 := ReplaceNoBreak(t.gap1);
    var g2 := ReplaceNoBreak(t.gap2);
    assert AllIn(g1, Space) && AllIn(g2, Space);
    assert NoSpace(m.day + m.suffix) && NoSpace(t.word) && NoSpace(t.year);
    CollapseGroup(m.day + m.suffix, g1, t.word, g2, t.year);
    var c := (m.day + m.suffix) + ([' '] + (t.word + ([' '] + t.year)));
    assert c == m.day + m.suffix + " " + m.tail.word + " " + m.tail.year;
    StripKeepsStripped(c);
  }
}
