/** extractDate: lower-case the name, cut it into tokens, and look for a
    day/month/year cluster near the end of the token list with six positional
    patterns tried in a fixed order. */
module Matcher {
  import opened GoStrings
  import opened Tokenizer
  import opened Fields

  /** The title tokens in front of the date cluster, and the date. The pair
      ([], "") stands for "no pattern matched". */
  datatype Extraction = Extraction(title: seq<string>, date: string)

  const NoMatch := Extraction([], "")

  /** The shape of every date a pattern produces: a four-digit year, '-', a
      month number "01".."12", '-', and a two-character day field that starts
      with a digit. */
  predicate DateShaped(d: string) {
    && |d| == 10 && d[4] == '-' && d[7] == '-'
    && IsYear(d[..4]) && IsMonthNumber(d[5..7])
    && IsDigit(d[8]) && (IsDigit(d[9]) || IsLetter(d[9]))
  }

  /** year + "-" + month + "-" + day, from the three matched tokens. */
  function DateOf(year: string, month: string, day: string): (d: string)
    requires IsYear(year) && IsMonth(month) && IsDay(day)
    ensures DateShaped(d)
    ensures d[..4] == year && d[5..7] == Months[month] && d[8..] == ExtractDay(day)
  {
    year + "-" + ExtractMonth(month) + "-" + ExtractDay(day)
  }

  /** The pattern chain over the token list, in the order written. */
  function MatchDate(parts: seq<string>): (m: Extraction)
    ensures m == NoMatch || (DateShaped(m.date) && 0 < |m.title| && |m.title| + 4 <= |parts| && m.title == parts[..|m.title|])
  {
    var l := |parts|;
    if l > 11 && IsDay(parts[l - 5]) && IsMonth(parts[l - 4]) && IsYear(parts[l - 3]) then
      Extraction(parts[..l - 9], DateOf(parts[l - 3], parts[l - 4], parts[l - 5]))
    else if l > 7 && IsDay(parts[l - 7]) && IsMonth(parts[l - 6]) && IsYear(parts[l - 2]) then
      Extraction(parts[..l - 7], DateOf(parts[l - 2], parts[l - 6], parts[l - 7]))
    else if l > 7 && IsMonth(parts[l - 7]) && IsDay(parts[l - 6]) && IsYear(parts[l - 2]) then
      Extraction(parts[..l - 7], DateOf(parts[l - 2], parts[l - 7], parts[l - 6]))
    else if l > 6 && IsMonth(parts[l - 6]) && IsDay(parts[l - 5]) && IsYear(parts[l - 2]) then
      Extraction(parts[..l - 6], DateOf(parts[l - 2], parts[l - 6], parts[l - 5]))
    else if l > 5 && IsDay(parts[l - 5]) && IsMonth(parts[l - 3]) && IsYear(parts[l - 2]) then
      Extraction(parts[..l - 5], DateOf(parts[l - 2], parts[l - 3], parts[l - 5]))
    else if l > 4 && IsDay(parts[l - 4]) && IsMonth(parts[l - 3]) && IsYear(parts[l - 2]) then
      Extraction(parts[..l - 4], DateOf(parts[l - 2], parts[l - 3], parts[l - 4]))
    else
      NoMatch
  }

  /** extractDate: the chain applied to the tokens of the lower-cased name. */
  function ExtractDate(original: string): (m: Extraction)
    ensures m == NoMatch || (DateShaped(m.date) && 0 < |m.title|)
    ensures forall k :: 0 <= k < |m.title| ==> DelimiterFree(m.title[k])
  {
    var parts := Tokenize(Lower(original));
    TokenizeIsRunSplit(Lower(original));
    MatchDate(parts)
  }

  /** The title tokens come from the lower-cased name, so they hold no
      upper-case letter. */
  lemma TitleLowerCase(original: string)
    ensures var m := ExtractDate(original);
      forall k, c :: 0 <= k < |m.title| && c in m.title[k] ==> !('A' <= c <= 'Z')
  {
    var lower := Lower(original);
    var parts := Tokenize(lower);
    var m := ExtractDate(original);
    forall k, c | 0 <= k < |m.title| && c in m.title[k]
      ensures !('A' <= c <= 'Z')
    {
      assert m.title[k] == parts[k];
      TokenChars(lower, k, c);
      var i :| 0 <= i < |lower| && lower[i] == c;
      LowerCase(original);
    }
  }

  /** A date the patterns write passes isDate exactly when its year does not
      start with 0 and its day field is two digits starting with 0 to 3. */
  lemma DateShapedIsDate(d: string)
    requires DateShaped(d)
    ensures IsDate(d) <==> d[0] != '0' && '0' <= d[8] <= '3' && IsDigit(d[9])
  {
    assert d[0] == d[..4][0] && d[1] == d[..4][1] && d[2] == d[..4][2] && d[3] == d[..4][3];
    assert d[5] == d[5..7][0] && d[6] == d[5..7][1];
  }

  /** No pattern accepts a token list that ends in a year, a month number, a
      two-character day field and one more token: the day would have to be
      the year, and the month or the year the month number or the day field. */
  lemma WrittenTailNeverMatches(front: seq<string>, year: string, month: string, day: string, ext: string)
    requires |front| >= 1 && IsYear(year) && IsMonthNumber(month) && |day| == 2
    ensures MatchDate(front + [year, month, day, ext]) == NoMatch
  {
    var parts := front + [year, month, day, ext];
    var l := |parts|;
    assert parts[l - 4] == year && parts[l - 3] == month && parts[l - 2] == day;
    assert !IsMonth(month);
    assert !IsYear(month) && !IsYear(day);
    assert !IsDay(year) by { assert IsDigit(year[2]) && !IsLetter(year[2]); }
  }

  /** Lower-casing changes only letters, so it keeps a token delimiter-free. */
  lemma LowerDelimiterFree(s: string)
    requires DelimiterFree(s)
    ensures DelimiterFree(Lower(s))
  {
  }

  lemma DateTailWeave(year: string, month: string, day: string, ext: string)
    ensures Weave([year, month, day, ext], ["-", "-", "."]) == year + "-" + month + "-" + day + "." + ext
  {
    assert Weave([ext], []) == ext;
    WeaveCons(day, ".", [ext], []);
    assert [day] + [ext] == [day, ext] && ["."] + [] == ["."];
    WeaveCons(month, "-", [day, ext], ["."]);
    assert [month] + [day, ext] == [month, day, ext] && ["-"] + ["."] == ["-", "."];
    WeaveCons(year, "-", [month, day, ext], ["-", "."]);
    assert [year] + [month, day, ext] == [year, month, day, ext] && ["-"] + ["-", "."] == ["-", "-", "."];
  }

  /** year-month-day.ext with delimiter-free fields cuts into exactly those four tokens. */
  lemma DateTailTokens(year: string, month: string, day: string, ext: string)
    requires DelimiterFree(year) && DelimiterFree(month) && DelimiterFree(day) && DelimiterFree(ext)
    requires year != "" && month != "" && day != ""
    ensures Tokenize(year + "-" + month + "-" + day + "." + ext) == [year, month, day, ext]
  {
    assert IsRunSplit([year, month, day, ext], ["-", "-", "."]);
    DateTailWeave(year, month, day, ext);
    RunSplitIsTokenize(year + "-" + month + "-" + day + "." + ext, [year, month, day, ext], ["-", "-", "."]);
  }

  /** The lower-cased "date.ext" tail of a new name, for an extension without
      delimiters, cuts into the year, the month number, the day field and the
      extension, and starts with a digit. */
  lemma DateExtTokens(d: string, ext: string)
    requires DateShaped(d) && DelimiterFree(ext)
    ensures var year, month := d[..4], d[5..7];
      && Tokenize(Lower(d + "." + ext)) == [year, month, Lower(d[8..]), Lower(ext)]
      && IsYear(year) && IsMonthNumber(month) && |Lower(d[8..])| == 2
      && !IsDelimiter(Lower(d + "." + ext)[0])
  {
    var year, month, day := d[..4], d[5..7], d[8..];
    assert d == year + "-" + month + "-" + day;
    assert forall i :: 0 <= i < 4 ==> IsDigit(year[i]);
    LowerNoCapitals(year);
    LowerNoCapitals(month);
    LowerConcat(year + "-" + month + "-" + day, "." + ext);
    LowerConcat(year + "-" + month + "-", day);
    LowerConcat(year + "-" + month, "-");
    LowerConcat(year + "-", month);
    LowerConcat(year, "-");
    LowerConcat(".", ext);
    assert Lower(d + "." + ext) == year + "-" + month + "-" + Lower(day) + "." + Lower(ext);
    assert DelimiterFree(day);
    LowerDelimiterFree(day);
    LowerDelimiterFree(ext);
    DateTailTokens(year, month, Lower(day), Lower(ext));
  }

  /** A positional pattern as data. Offsets count back from the end of the
      token list (offset o reads index |parts| - o); the pattern applies only
      when |parts| > guard, and the title is everything before |parts| - cut. */
  datatype Pattern = Pattern(guard: nat, day: nat, month: nat, year: nat, cut: nat)

  /** The six patterns, most specific first. */
  const Patterns: seq<Pattern> := [
    Pattern(11, 5, 4, 3, 9),  // "... [24 Sep 2022] (TruePDF).pdf"
    Pattern(7, 7, 6, 2, 7),   // "...11TH.July.17TH.TruePDF-July.2015.pdf"
    Pattern(7, 6, 7, 2, 7),   // "...July.29.TruePDF-4.August.2017.pdf"
    Pattern(6, 5, 6, 2, 6),   // "...April.1.7.TruePDF-2017.pdf"
    Pattern(5, 5, 3, 2, 5),   // "...TruePDF-22.29.December.2014.pdf"
    Pattern(4, 4, 3, 2, 4)    // "...-09.August.2014.pdf"
  ]

  /** The guard makes every offset a valid index and leaves a non-empty title. */
  predicate Guarded(p: Pattern) {
    && 1 <= p.day <= p.guard + 1
    && 1 <= p.month <= p.guard + 1
    && 1 <= p.year <= p.guard + 1
    && p.cut <= p.guard
  }

  predicate Matches(p: Pattern, parts: seq<string>)
    requires Guarded(p)
  {
    var l := |parts|;
    l > p.guard && IsDay(parts[l - p.day]) && IsMonth(parts[l - p.month]) && IsYear(parts[l - p.year])
  }

  function Apply(p: Pattern, parts: seq<string>): Extraction
    requires Guarded(p) && Matches(p, parts)
  {
    var l := |parts|;
    Extraction(parts[..l - p.cut], DateOf(parts[l - p.year], parts[l - p.month], parts[l - p.day]))
  }

  /** The first pattern of `ps` that matches decides; none matching gives NoMatch. */
  function FirstMatch(ps: seq<Pattern>, parts: seq<string>): Extraction
    requires forall k :: 0 <= k < |ps| ==> Guarded(ps[k])
  {
    if ps == [] then NoMatch
    else if Matches(ps[0], parts) then Apply(ps[0], parts)
    else FirstMatch(ps[1..], parts)
  }

  /** Every guard in the table covers the indices its pattern reads. */
  lemma PatternsGuarded()
    ensures forall k :: 0 <= k < |Patterns| ==> Guarded(Patterns[k])
  {
  }

  /** The chain as written is the first-match search over the pattern table. */
  lemma MatchDateIsFirstMatch(parts: seq<string>)
    ensures MatchDate(parts) == FirstMatch(Patterns, parts)
  {
    PatternsGuarded();
    UnrollPatterns(parts);
    var ps, l := Patterns, |parts|;
    assert Matches(ps[0], parts) <==> l > 11 && IsDay(parts[l - 5]) && IsMonth(parts[l - 4]) && IsYear(parts[l - 3]);
    assert Matches(ps[1], parts) <==> l > 7 && IsDay(parts[l - 7]) && IsMonth(parts[l - 6]) && IsYear(parts[l - 2]);
    assert Matches(ps[2], parts) <==> l > 7 && IsMonth(parts[l - 7]) && IsDay(parts[l - 6]) && IsYear(parts[l - 2]);
    assert Matches(ps[3], parts) <==> l > 6 && IsMonth(parts[l - 6]) && IsDay(parts[l - 5]) && IsYear(parts[l - 2]);
    assert Matches(ps[4], parts) <==> l > 5 && IsDay(parts[l - 5]) && IsMonth(parts[l - 3]) && IsYear(parts[l - 2]);
    assert Matches(ps[5], parts) <==> l > 4 && IsDay(parts[l - 4]) && IsMonth(parts[l - 3]) && IsYear(parts[l - 2]);
  }

  /** The search over the six-entry table, written out. */
  lemma UnrollPatterns(parts: seq<string>)
    ensures var ps := Patterns;
      FirstMatch(ps, parts) ==
        if Matches(ps[0], parts) then Apply(ps[0], parts)
        else if Matches(ps[1], parts) then Apply(ps[1], parts)
        else if Matches(ps[2], parts) then Apply(ps[2], parts)
        else if Matches(ps[3], parts) then Apply(ps[3], parts)
        else if Matches(ps[4], parts) then Apply(ps[4], parts)
        else if Matches(ps[5], parts) then Apply(ps[5], parts)
        else NoMatch
  {
    PatternsGuarded();
    var t1 := Patterns[1..];
    var t2 := t1[1..];
    var t3 := t2[1..];
    var t4 := t3[1..];
    var t5 := t4[1..];
    assert t5[1..] == [];
    assert FirstMatch(t5, parts) == if Matches(Patterns[5], parts) then Apply(Patterns[5], parts) else NoMatch;
    assert FirstMatch(t4, parts) == if Matches(Patterns[4], parts) then Apply(Patterns[4], parts) else FirstMatch(t5, parts);
    assert FirstMatch(t3, parts) == if Matches(Patterns[3], parts) then Apply(Patterns[3], parts) else FirstMatch(t4, parts);
    assert FirstMatch(t2, parts) == if Matches(Patterns[2], parts) then Apply(Patterns[2], parts) else FirstMatch(t3, parts);
    assert FirstMatch(t1, parts) == if Matches(Patterns[1], parts) then Apply(Patterns[1], parts) else FirstMatch(t2, parts);
  }

  /** The earliest matching pattern decides the result. */
  lemma {:induction false} FirstMatchWins(ps: seq<Pattern>, parts: seq<string>, k: nat)
    requires forall j :: 0 <= j < |ps| ==> Guarded(ps[j])
    requires k < |ps| && Matches(ps[k], parts)
    requires forall j :: 0 <= j < k ==> !Matches(ps[j], parts)
    ensures FirstMatch(ps, parts) == Apply(ps[k], parts)
    decreases k
  {
    if k > 0 {
      assert !Matches(ps[0], parts);
      FirstMatchWins(ps[1..], parts, k - 1);
    }
  }

  /** The search finds nothing exactly when no pattern matches. */
  lemma {:induction false} FirstMatchNone(ps: seq<Pattern>, parts: seq<string>)
    requires forall j :: 0 <= j < |ps| ==> Guarded(ps[j])
    ensures FirstMatch(ps, parts) == NoMatch <==> forall j :: 0 <= j < |ps| ==> !Matches(ps[j], parts)
    decreases |ps|
  {
    if ps != [] {
      FirstMatchNone(ps[1..], parts);
      if Matches(ps[0], parts) {
        assert Apply(ps[0], parts).date != "";
      } else {
        assert forall j :: 1 <= j < |ps| ==> ps[j] == ps[1..][j - 1];
      }
    }
  }
}
