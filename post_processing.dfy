/** `post_processing` (main.py:75-86): the row-wise normalisation of the
    saved records. `Sector` is title-cased and the exact value "Public"
    becomes "Govt"; `Date` is rebuilt from three regular-expression
    extractions (day, month, year) that are concatenated for the date
    parser, and the helper columns are dropped again. */
module PostProcessing {
  import opened Wrappers
  import opened Text
  import ClosingDate
  import Scraper

  // ----- str.title() -----

  function ToUpper(c: char): char {
    if IsLower(c) then (c as int - 32) as char else c
  }

  function ToLower(c: char): char {
    if IsUpper(c) then (c as int + 32) as char else c
  }

  /** `str.title()` from some position on: a character goes to upper case
      unless the character before it (in the input) is cased, in which case
      it goes to lower case. `prevCased` says whether that character before
      the start was cased. */
  function TitleFrom(s: string, prevCased: bool): (r: string)
    ensures |r| == |s|
  {
    if s == [] then []
    else [if prevCased then ToLower(s[0]) else ToUpper(s[0])] + TitleFrom(s[1..], IsLetter(s[0]))
  }

  function Title(s: string): (r: string)
    ensures |r| == |s|
  {
    TitleFrom(s, false)
  }

  /** How `str.title()` treats one character: lower case right after a
      letter, upper case everywhere else. */
  function TitleChar(s: string, i: nat): char
    requires i < |s|
  {
    if 0 < i && IsLetter(s[i - 1]) then ToLower(s[i]) else ToUpper(s[i])
  }

  /** A string that `str.title()` leaves as it is. */
  predicate IsTitled(s: string) {
    forall i :: 0 <= i < |s| ==> s[i] == TitleChar(s, i)
  }

  lemma {:induction false} TitleFromAt(s: string, prevCased: bool, i: nat)
    requires i < |s|
    ensures TitleFrom(s, prevCased)[i] ==
      if (if i == 0 then prevCased else IsLetter(s[i - 1])) then ToLower(s[i]) else ToUpper(s[i])
    decreases i
  {
    if 0 < i {
      TitleFromAt(s[1..], IsLetter(s[0]), i - 1);
      assert s[1..][i - 1] == s[i];
      if 1 < i {
        assert s[1..][i - 2] == s[i - 1];
      }
    }
  }

  /** Character `i` of `Title(s)` is `TitleChar(s, i)`. */
  lemma TitleAt(s: string)
    ensures forall i :: 0 <= i < |s| ==> Title(s)[i] == TitleChar(s, i)
  {
    forall i | 0 <= i < |s| ensures Title(s)[i] == TitleChar(s, i) {
      TitleFromAt(s, false, i);
    }
  }

  /** `str.title()` changes only case: letters stay letters, and every
      other character is kept. */
  lemma TitleKeepsKinds(s: string)
    ensures forall i :: 0 <= i < |s| ==> IsLetter(Title(s)[i]) == IsLetter(s[i])
    ensures forall i :: 0 <= i < |s| && !IsLetter(s[i]) ==> Title(s)[i] == s[i]
  {
    TitleAt(s);
  }

  /** The result of `str.title()` is titled, and a string is its own title
      exactly when it is titled. */
  lemma TitleIsTitled(s: string)
    ensures IsTitled(Title(s))
    ensures Title(s) == s <==> IsTitled(s)
  {
    var t := Title(s);
    TitleAt(s);
    TitleAt(t);
    forall i | 0 <= i < |t| ensures t[i] == TitleChar(t, i) {
      if 0 < i {
        assert IsLetter(t[i - 1]) == IsLetter(s[i - 1]);
      }
    }
    if IsTitled(s) {
      assert forall i :: 0 <= i < |s| ==> t[i] == s[i];
    }
  }

  lemma TitleIdempotent(s: string)
    ensures Title(Title(s)) == Title(s)
  {
    TitleIsTitled(s);
    TitleIsTitled(Title(s));
  }

  // ----- Sector (main.py:77) -----

  /** `Sector.str.title().replace("Public", "Govt")`: `Series.replace` with
      a plain string replaces whole values only. */
  function CanonicalSector(s: string): (r: string)
    ensures r == Title(s) || (Title(s) == "Public" && r == "Govt")
    ensures r != "Public"
  {
    var t := Title(s);
    if t == "Public" then "Govt" else t
  }

  /** The canonical sector is "Govt" exactly when the titled sector is
      "Public" or already "Govt"; any other sector keeps its titled value,
      so "Public Works" stays "Public Works". */
  lemma SectorGovtIff(s: string)
    ensures CanonicalSector(s) == "Govt" <==> Title(s) == "Public" || Title(s) == "Govt"
    ensures Title(s) != "Public" ==> CanonicalSector(s) == Title(s)
  {
  }

  lemma GovtIsTitled()
    ensures Title("Govt") == "Govt"
  {
    assert IsTitled("Govt") by {
      forall i | 0 <= i < 4 ensures "Govt"[i] == TitleChar("Govt", i) {
      }
    }
    TitleIsTitled("Govt");
  }

  /** Canonical sectors are titled and canonicalising one again changes
      nothing. */
  lemma SectorIdempotent(s: string)
    ensures IsTitled(CanonicalSector(s))
    ensures CanonicalSector(CanonicalSector(s)) == CanonicalSector(s)
  {
    GovtIsTitled();
    TitleIsTitled(s);
    TitleIsTitled("Govt");
    TitleIdempotent(s);
  }

  lemma SectorExamples()
    ensures CanonicalSector("public") == "Govt"
    ensures CanonicalSector("PUBLIC") == "Govt"
    ensures CanonicalSector("public works") == "Public Works"
    ensures CanonicalSector("private") == "Private"
  {
    TitleAt("public");
    TitleAt("PUBLIC");
    TitleAt("public works");
    TitleAt("private");
  }

  // ----- day: `(\d{1,2}).*` (main.py:78) -----

  /** The first position at or after `i` holding a character of class `k`,
      or `|s|` when there is none. */
  function FirstIn(s: string, i: nat, k: CharClass): (j: nat)
    requires i <= |s|
    ensures i <= j <= |s|
    ensures forall x :: i <= x < j ==> !InClass(s[x], k)
    ensures j == |s| || InClass(s[j], k)
    decreases |s| - i
  {
    if i == |s| || InClass(s[i], k) then i else FirstIn(s, i + 1, k)
  }

  /** The day: the leftmost digit together with the digit after it, if
      there is one (`\d{1,2}` is greedy). There is a day exactly when the
      date has a digit. */
  function DayOf(s: string): (r: Option<string>)
    ensures r.None? <==> forall i :: 0 <= i < |s| ==> !IsDigit(s[i])
    ensures r.Some? ==>
      var j := FirstIn(s, 0, Digit);
      var d := r.value;
      && 1 <= |d| <= 2 && AllIn(d, Digit)
      && j + |d| <= |s| && s[j..j + |d|] == d
      && (|d| == 1 ==> j + 1 == |s| || !IsDigit(s[j + 1]))
  {
    var j := FirstIn(s, 0, Digit);
    if j == |s| then None
    else if j + 1 < |s| && IsDigit(s[j + 1]) then Some(s[j..j + 2])
    else Some(s[j..j + 1])
  }

  // ----- month: `\w+\s+([A-Za-z]+),?\s+.*` (main.py:79) -----

  /** One way the month pattern can match: a word, whitespace, the month
      letters (group 1), an optional comma and whitespace. `.*` adds
      nothing that matters. */
  datatype MonthMatch = MonthMatch(word: string, gap: string, month: string, comma: string, gap2: string)
  {
    function Text(): string {
      word + (gap + (month + (comma + gap2)))
    }
  }

  predicate MonthWellFormed(m: MonthMatch) {
    && 1 <= |m.word| && AllIn(m.word, Word)
    && 1 <= |m.gap| && AllIn(m.gap, Space)
    && 1 <= |m.month| && AllIn(m.month, Letter)
    && (m.comma == "" || m.comma == ",")
    && 1 <= |m.gap2| && AllIn(m.gap2, Space)
  }

  // As in the closing-date pattern, each repeated class is followed by a
  // character outside it (whitespace after `\w+`, a letter after `\s+`, a
  // comma or whitespace after `[A-Za-z]+`), so backtracking cannot change
  // the runs: `MonthAt` takes the maximal ones.

  /** The month pattern anchored at `p`. */
  function MonthAt(s: string, p: nat): Option<MonthMatch>
    requires p <= |s|
  {
    var w := RunEnd(s, p, Word);
    var g := RunEnd(s, w, Space);
    var e := RunEnd(s, g, Letter);
    var c := if e < |s| && s[e] == ',' then e + 1 else e;
    var h := RunEnd(s, c, Space);
    if w == p || g == w || e == g || h == c then None
    else Some(MonthMatch(s[p..w], s[w..g], s[g..e], s[e..c], s[c..h]))
  }

  /** Where the runs of a found match end. */
  lemma MonthAtParts(s: string, p: nat) returns (w: nat, g: nat, e: nat, c: nat, h: nat)
    requires p <= |s| && MonthAt(s, p).Some?
    ensures p < w < g < e <= c < h <= |s|
    ensures RunEnd(s, p, Word) == w && RunEnd(s, w, Space) == g && RunEnd(s, g, Letter) == e
    ensures RunEnd(s, c, Space) == h && (c == e || s[e..c] == ",")
    ensures MonthAt(s, p).value == MonthMatch(s[p..w], s[w..g], s[g..e], s[e..c], s[c..h])
  {
    w := RunEnd(s, p, Word);
    g := RunEnd(s, w, Space);
    e := RunEnd(s, g, Letter);
    c := if e < |s| && s[e] == ',' then e + 1 else e;
    h := RunEnd(s, c, Space);
  }

  /** Consecutive slices of `s` occur, concatenated, where the first one
      starts. */
  lemma MonthSlicesAt(s: string, p: nat, w: nat, g: nat, e: nat, c: nat, h: nat)
    requires p <= w <= g <= e <= c <= h <= |s|
    ensures At(s, p, MonthMatch(s[p..w], s[w..g], s[g..e], s[e..c], s[c..h]).Text())
  {
    var m := MonthMatch(s[p..w], s[w..g], s[g..e], s[e..c], s[c..h]);
    AtSlice(s, p, w);
    AtSlice(s, w, g);
    AtSlice(s, g, e);
    AtSlice(s, e, c);
    AtSlice(s, c, h);
    AtAppend(s, e, m.comma, m.gap2);
    AtAppend(s, g, m.month, m.comma + m.gap2);
    AtAppend(s, w, m.gap, m.month + (m.comma + m.gap2));
    AtAppend(s, p, m.word, m.gap + (m.month + (m.comma + m.gap2)));
  }

  /** What `MonthAt` returns is a well-formed match and is really there. */
  lemma MonthAtSound(s: string, p: nat)
    requires p <= |s| && MonthAt(s, p).Some?
    ensures MonthWellFormed(MonthAt(s, p).value)
    ensures At(s, p, MonthAt(s, p).value.Text())
  {
    var w, g, e, c, h := MonthAtParts(s, p);
    RunSlice(s, p, Word);
    RunSlice(s, w, Space);
    RunSlice(s, g, Letter);
    RunSlice(s, c, Space);
    MonthSlicesAt(s, p, w, g, e, c, h);
  }

  /** Cuts an occurrence of a match into occurrences of its parts. */
  lemma MonthPieces(s: string, p: nat, m: MonthMatch)
    requires At(s, p, m.Text())
    ensures var w := p + |m.word|; var g := w + |m.gap|;
      var e := g + |m.month|; var c := e + |m.comma|;
      && At(s, p, m.word) && At(s, w, m.gap) && At(s, g, m.month)
      && At(s, e, m.comma) && At(s, c, m.gap2)
  {
    var w := p + |m.word|;
    var g := w + |m.gap|;
    var e := g + |m.month|;
    AtAppend(s, p, m.word, m.gap + (m.month + (m.comma + m.gap2)));
    AtAppend(s, w, m.gap, m.month + (m.comma + m.gap2));
    AtAppend(s, g, m.month, m.comma + m.gap2);
    AtAppend(s, e, m.comma, m.gap2);
  }

  /** Where an occurrence of a well-formed match sits, the greedy runs end
      exactly at its part boundaries. */
  lemma MonthRuns(s: string, p: nat, m: MonthMatch)
    requires MonthWellFormed(m)
    requires var w := p + |m.word|; var g := w + |m.gap|;
      var e := g + |m.month|; var c := e + |m.comma|;
      && At(s, p, m.word) && At(s, w, m.gap) && At(s, g, m.month)
      && At(s, e, m.comma) && At(s, c, m.gap2)
    ensures var w := p + |m.word|; var g := w + |m.gap|;
      var e := g + |m.month|; var c := e + |m.comma|;
      && RunEnd(s, p, Word) == w && RunEnd(s, w, Space) == g && RunEnd(s, g, Letter) == e
      && c < |s| && IsSpace(s[c]) && c == (if s[e] == ',' then e + 1 else e)
  {
    var w := p + |m.word|;
    var g := w + |m.gap|;
    var e := g + |m.month|;
    var c := e + |m.comma|;
    AtIndex(s, w, m.gap, 0);
    AtIndex(s, g, m.month, 0);
    AtIndex(s, c, m.gap2, 0);
    if m.comma == "," {
      AtIndex(s, e, m.comma, 0);
    }
    AtRunEnd(s, p, m.word, Word);
    AtRunEnd(s, w, m.gap, Space);
    AtRunEnd(s, g, m.month, Letter);
  }

  /** Any way the pattern can match at `p` has the month that `MonthAt`
      finds: the group the regular expression extracts does not depend on
      the order in which backtracking tries the alternatives. */
  lemma MonthAtComplete(s: string, p: nat, m: MonthMatch)
    requires MonthWellFormed(m) && At(s, p, m.Text())
    ensures MonthAt(s, p).Some?
    ensures MonthAt(s, p).value.word == m.word
    ensures MonthAt(s, p).value.month == m.month
    ensures MonthAt(s, p).value.comma == m.comma
  {
    MonthPieces(s, p, m);
    MonthRuns(s, p, m);
    var w := p + |m.word|;
    var g := w + |m.gap|;
    var e := g + |m.month|;
    AtIsSlice(s, p, m.word);
    AtIsSlice(s, g, m.month);
    AtIsSlice(s, e, m.comma);
    MonthAtRuns(s, p, w, g, e, e + |m.comma|);
  }

  /** `MonthAt` in terms of where its runs end. */
  lemma MonthAtRuns(s: string, p: nat, w: nat, g: nat, e: nat, c: nat)
    requires p < w < g < e <= c < |s|
    requires RunEnd(s, p, Word) == w && RunEnd(s, w, Space) == g && RunEnd(s, g, Letter) == e
    requires c == if s[e] == ',' then e + 1 else e
    requires IsSpace(s[c])
    ensures MonthAt(s, p).Some?
    ensures MonthAt(s, p).value.word == s[p..w]
    ensures MonthAt(s, p).value.month == s[g..e]
    ensures MonthAt(s, p).value.comma == s[e..c]
  {
    assert RunEnd(s, c, Space) > c;
  }

  /** The leftmost start at or after `p` where the month pattern matches. */
  function FirstMonthFrom(s: string, p: nat): (r: Option<nat>)
    requires p <= |s|
    ensures r.Some? ==> p <= r.value <= |s| && MonthAt(s, r.value).Some?
    ensures forall q :: p <= q <= |s| && (r.None? || q < r.value) ==> MonthAt(s, q).None?
    decreases |s| - p
  {
    if MonthAt(s, p).Some? then Some(p)
    else if p == |s| then None
    else FirstMonthFrom(s, p + 1)
  }

  /** `str.extract` of the month pattern: group 1 of the leftmost match. */
  function MonthOf(s: string): (r: Option<string>)
    ensures r.Some? ==> 1 <= |r.value| && AllIn(r.value, Letter)
  {
    match FirstMonthFrom(s, 0)
    case Some(q) =>
      MonthAtSound(s, q);
      Some(MonthAt(s, q).value.month)
    case None => None
  }

  /** Where a match sits at `p` and none starts earlier, the extracted month
      is that match's month. */
  lemma MonthOfLeftmost(s: string, p: nat, m: MonthMatch)
    requires MonthWellFormed(m) && At(s, p, m.Text())
    requires forall q :: 0 <= q < p ==> MonthAt(s, q).None?
    ensures MonthOf(s) == Some(m.month)
  {
    MonthAtComplete(s, p, m);
  }

  // ----- year: `.*(\d{4})$` (main.py:80) -----

  /** `$` matches at the end of the string and before a final newline, and
      `.*` is greedy, so the group is the four digits that end the string
      or that come just before its final newline. */
  predicate EndsWithYear(s: string, y: string) {
    && |y| == 4 && AllIn(y, Digit)
    && ((4 <= |s| && s[|s| - 4..] == y) || (5 <= |s| && s[|s| - 5..] == y + "\n"))
  }

  function YearOf(s: string): (r: Option<string>)
    ensures r.Some? ==> EndsWithYear(s, r.value)
  {
    if 4 <= |s| && AllIn(s[|s| - 4..], Digit) then Some(s[|s| - 4..])
    else if 5 <= |s| && s[|s| - 1] == '\n' && AllIn(s[|s| - 5..|s| - 1], Digit) then Some(s[|s| - 5..|s| - 1])
    else None
  }

  /** The year found is the only one: `YearOf(s) == Some(y)` exactly when
      `s` ends with the year `y`. */
  lemma YearOfIff(s: string, y: string)
    ensures YearOf(s) == Some(y) <==> EndsWithYear(s, y)
  {
    if EndsWithYear(s, y) {
      if 4 <= |s| && s[|s| - 4..] == y {
        assert YearOf(s) == Some(y);
      } else {
        assert s[|s| - 1] == (y + "\n")[4] == '\n';
        assert s[|s| - 5..|s| - 1] == (y + "\n")[..4] == y;
        assert !IsDigit(s[|s| - 4..][3]);
      }
    }
  }

  // ----- the rebuilt date (main.py:81-83) -----

  /** `df.day + df.month + df.year`: a missing part (NaN) makes the sum
      missing. */
  function DateParts(s: string): (r: Option<string>)
    ensures r.Some? <==> DayOf(s).Some? && MonthOf(s).Some? && YearOf(s).Some?
    ensures r.Some? ==> r.value == DayOf(s).value + MonthOf(s).value + YearOf(s).value
  {
    match (DayOf(s), MonthOf(s), YearOf(s))
    case (Some(d), Some(m), Some(y)) => Some(d + m + y)
    case _ => None
  }

  /** One output row: the date parts (before date parsing), the canonical
      sector, and the other columns as they were. */
  datatype Row = Row(date: Option<string>, company: string, url: string, sector: string, project: string)

  function PostProcess(ts: seq<Scraper.Tender>): (rs: seq<Row>)
    ensures |rs| == |ts|
    ensures forall i :: 0 <= i < |ts| ==>
      && rs[i].date == DateParts(ts[i].date)
      && rs[i].sector == CanonicalSector(ts[i].sector)
      && rs[i].company == ts[i].company
      && rs[i].url == ts[i].url
      && rs[i].project == ts[i].project
  {
    seq(|ts|, i requires 0 <= i < |ts| =>
      Row(DateParts(ts[i].date), ts[i].company, ts[i].url, CanonicalSector(ts[i].sector), ts[i].project))
  }

  // ----- from a scraped closing date to the parts -----

  lemma DayOfCleaned(c: string, day: string, rest: string)
    requires 1 <= |day| <= 2 && AllIn(day, Digit)
    requires c == day + rest && rest != [] && !IsDigit(rest[0])
    ensures DayOf(c) == Some(day)
  {
    assert c[0] == day[0];
    assert FirstIn(c, 0, Digit) == 0;
    assert c[|day|] == rest[0];
    if |day| == 2 {
      assert c[1] == day[1];
    }
    assert c[..|day|] == day;
  }

  /** The cleaned closing date regrouped as a month match followed by the
      year. */
  lemma CleanedShape(day: string, suffix: string, month: string, comma: string, year: string)
    ensures day + suffix + " " + (month + comma) + " " + year
      == day + (suffix + " " + month + comma + " " + year)
      == MonthMatch(day + suffix, " ", month, comma, " ").Text() + year
  {
  }

  lemma DaySuffixIsWord(day: string, suffix: string)
    requires AllIn(day, Digit) && suffix in ClosingDate.Suffixes
    ensures AllIn(day + suffix, Word)
  {
    forall i | 0 <= i < |day + suffix| ensures IsWordChar((day + suffix)[i]) {
      if i >= |day| {
        assert (day + suffix)[i] == suffix[i - |day|];
      }
    }
  }

  /** A closing date whose word is a month name, possibly followed by a
      comma ("12th January 2024", "3rd Sept, 2025"), once cleaned as the
      scraper cleans it, yields its day, its month name and its year, and
      so the string `day + month + year` handed to the date parser. */
  lemma PartsOfCleanedDate(m: ClosingDate.DateGroup, month: string, comma: string)
    requires ClosingDate.GroupWellFormed(m)
    requires m.tail.word == month + comma && 1 <= |month| && AllIn(month, Letter)
    requires comma == "" || comma == ","
    ensures DateParts(ClosingDate.Clean(m.Text())) == Some(m.day + month + m.tail.year)
  {
    ClosingDate.CleanGroupText(m);
    CleanedShape(m.day, m.suffix, month, comma, m.tail.year);
    var c := ClosingDate.Clean(m.Text());
    DayOfCleanedDate(c, m.day, m.suffix, month, comma, m.tail.year);
    MonthOfCleanedDate(c, m.day, m.suffix, month, comma, m.tail.year);
    assert c[|c| - 4..] == m.tail.year;
    YearOfIff(c, m.tail.year);
  }

  lemma DayOfCleanedDate(c: string, day: string, suffix: string, month: string, comma: string, year: string)
    requires 1 <= |day| <= 2 && AllIn(day, Digit) && suffix in ClosingDate.Suffixes
    requires c == day + (suffix + " " + month + comma + " " + year)
    ensures DayOf(c) == Some(day)
  {
    var rest := suffix + " " + month + comma + " " + year;
    assert rest[0] == suffix[0] && suffix[0] in "snrt";
    DayOfCleaned(c, day, rest);
  }

  lemma MonthOfCleanedDate(c: string, day: string, suffix: string, month: string, comma: string, year: string)
    requires 1 <= |day| && AllIn(day, Digit) && suffix in ClosingDate.Suffixes
    requires 1 <= |month| && AllIn(month, Letter) && (comma == "" || comma == ",")
    requires c == MonthMatch(day + suffix, " ", month, comma, " ").Text() + year
    ensures MonthOf(c) == Some(month)
  {
    var mm := MonthMatch(day + suffix, " ", month, comma, " ");
    AtSlice(c, 0, |c|);
    assert c[0..|c|] == c;
    AtAppend(c, 0, mm.Text(), year);
    DaySuffixIsWord(day, suffix);
    MonthOfLeftmost(c, 0, mm);
  }
}
