/** Rows of main_test.go and a name for each way rename panics, worked through
    the model. Each name is bound to a variable `x` rather than written into
    the statement, so that each stage (lower-casing, the token cut, the
    pattern chain, the '.'-pieces, the extension) is proved on its own. */
module Vectors {
  import opened GoStrings
  import opened Tokenizer
  import opened Fields
  import opened Matcher
  import opened Renamer

  /** The pattern chain sees the tokens of the lower-cased name. */
  lemma ExtractDateFrom(x: string, lower: string, ts: seq<string>, ds: seq<string>)
    requires Lower(x) == lower
    requires IsRunSplit(ts, ds) && Weave(ts, ds) == lower
    ensures Tokenize(Lower(x)) == ts
    ensures ExtractDate(x) == MatchDate(ts)
  {
    RunSplitIsTokenize(lower, ts, ds);
  }

  /** Join of four pieces, written out. */
  lemma JoinFour(a: string, b: string, c: string, d: string, sep: char)
    ensures Join([a, b, c, d], sep) == a + [sep] + (b + [sep] + (c + [sep] + d))
  {
    assert Join([d], sep) == d;
    JoinCons(c, [d], sep);
    assert [c] + [d] == [c, d];
    JoinCons(b, [c, d], sep);
    assert [b] + [c, d] == [b, c, d];
    JoinCons(a, [b, c, d], sep);
    assert [a] + [b, c, d] == [a, b, c, d];
  }

  /** Join of five pieces, written out. */
  lemma JoinFive(a: string, b: string, c: string, d: string, e: string, sep: char)
    ensures Join([a, b, c, d, e], sep) == a + [sep] + (b + [sep] + (c + [sep] + (d + [sep] + e)))
  {
    JoinFour(b, c, d, e, sep);
    JoinCons(a, [b, c, d, e], sep);
    assert [a] + [b, c, d, e] == [a, b, c, d, e];
  }

  /** Weave over five tokens, written out. */
  lemma WeaveFive(t0: string, t1: string, t2: string, t3: string, t4: string,
                  d0: string, d1: string, d2: string, d3: string)
    ensures Weave([t0, t1, t2, t3, t4], [d0, d1, d2, d3])
      == t0 + d0 + (t1 + d1 + (t2 + d2 + (t3 + d3 + t4)))
  {
    assert Weave([t4], []) == t4;
    WeaveCons(t3, d3, [t4], []);
    assert [t3] + [t4] == [t3, t4] && [d3] + [] == [d3];
    WeaveCons(t2, d2, [t3, t4], [d3]);
    assert [t2] + [t3, t4] == [t2, t3, t4] && [d2] + [d3] == [d2, d3];
    WeaveCons(t1, d1, [t2, t3, t4], [d2, d3]);
    assert [t1] + [t2, t3, t4] == [t1, t2, t3, t4] && [d1] + [d2, d3] == [d1, d2, d3];
    WeaveCons(t0, d0, [t1, t2, t3, t4], [d1, d2, d3]);
    assert [t0] + [t1, t2, t3, t4] == [t0, t1, t2, t3, t4] && [d0] + [d1, d2, d3] == [d0, d1, d2, d3];
  }

  /** Weave over six tokens, written out. */
  lemma WeaveSix(t0: string, t1: string, t2: string, t3: string, t4: string, t5: string,
                 d0: string, d1: string, d2: string, d3: string, d4: string)
    ensures Weave([t0, t1, t2, t3, t4, t5], [d0, d1, d2, d3, d4])
      == t0 + d0 + (t1 + d1 + (t2 + d2 + (t3 + d3 + (t4 + d4 + t5))))
  {
    WeaveFive(t1, t2, t3, t4, t5, d1, d2, d3, d4);
    WeaveCons(t0, d0, [t1, t2, t3, t4, t5], [d1, d2, d3, d4]);
    assert [t0] + [t1, t2, t3, t4, t5] == [t0, t1, t2, t3, t4, t5] && [d0] + [d1, d2, d3, d4] == [d0, d1, d2, d3, d4];
  }

  /** A name whose '.'-pieces hold no date is not already renamed. */
  lemma NotRenamedFrom(x: string, pieces: seq<string>)
    requires |pieces| >= 1 && Join(pieces, '.') == x
    requires forall k :: 0 <= k < |pieces| ==> '.' !in pieces[k] && !IsDate(pieces[k])
    ensures !AlreadyRenamed(x)
  {
    SplitJoin(pieces, '.');
  }

  /** A name with a date among its '.'-pieces is already renamed. */
  lemma RenamedFrom(x: string, pieces: seq<string>, k: nat)
    requires |pieces| >= 1 && Join(pieces, '.') == x
    requires forall j :: 0 <= j < |pieces| ==> '.' !in pieces[j]
    requires k < |pieces| && IsDate(pieces[k])
    ensures AlreadyRenamed(x)
  {
    SplitJoin(pieces, '.');
  }

  /** The last steps of rename, once the stages are known. */
  lemma RenamedTo(x: string, m: Extraction, kept: seq<string>, ext: string, pieces: seq<string>, out: string)
    requires '/' !in x && !AlreadyRenamed(x)
    requires ExtractDate(x) == m && m.date != ""
    requires WithoutBanned(m.title) == kept && kept != []
    requires Ext(x) == ext && ext != ""
    requires ArticleLast(kept) + [m.date, ext[1..]] == pieces && Join(pieces, '.') == out
    ensures NewName(x) == Ok(out)
  {
  }

  /** A name with no date anywhere comes back unchanged. */
  lemma KeptFrom(x: string, lower: string, ts: seq<string>, ds: seq<string>, pieces: seq<string>)
    requires '/' !in x
    requires Lower(x) == lower && IsRunSplit(ts, ds) && Weave(ts, ds) == lower
    requires MatchDate(ts) == NoMatch
    requires |pieces| >= 1 && Join(pieces, '.') == x
    requires forall k :: 0 <= k < |pieces| ==> '.' !in pieces[k] && !IsDate(pieces[k])
    ensures NewName(x) == Ok(x)
  {
    ExtractDateFrom(x, lower, ts, ds);
    NotRenamedFrom(x, pieces);
  }

  /** "" stays "". */
  lemma EmptyNameKept()
    ensures NewName("") == Ok("")
  {
    assert SplitOn("", '.') == [""];
    assert Tokenize(Lower("")) == [""];
  }

  /** "hello" stays "hello": one token, no pattern applies. */
  lemma UnrelatedNameKept()
    ensures NewName("hello") == Ok("hello")
  {
    assert SplitOn("hello", '.') == ["hello"];
    assert Lower("hello") == "hello";
    assert Tokenize("hello") == ["hello"];
  }


  /** "hello.pdf" stays "hello.pdf": no pattern applies. */
  lemma HelloPdfKept(x: string)
    requires x == "hello.pdf"
    ensures NewName(x) == Ok(x)
  {
    HelloPdfLower(x);
    HelloPdfCut();
    HelloPdfPieces(x);
    KeptFrom(x, x, ["hello", "pdf"], ["."], ["hello", "pdf"]);
  }

  lemma HelloPdfLower(x: string)
    requires x == "hello.pdf"
    ensures '/' !in x && Lower(x) == x
  {
  }

  lemma HelloPdfCut()
    ensures IsRunSplit(["hello", "pdf"], ["."])
    ensures MatchDate(["hello", "pdf"]) == NoMatch
    ensures var pieces := ["hello", "pdf"];
      forall k :: 0 <= k < |pieces| ==> '.' !in pieces[k] && !IsDate(pieces[k])
  {
  }

  lemma HelloPdfPieces(x: string)
    requires x == "hello.pdf"
    ensures Weave(["hello", "pdf"], ["."]) == x
    ensures Join(["hello", "pdf"], '.') == x
  {
  }

  /** "2016.pdf" stays "2016.pdf": no pattern applies. */
  lemma YearPdfKept(x: string)
    requires x == "2016.pdf"
    ensures NewName(x) == Ok(x)
  {
    YearPdfLower(x);
    YearPdfCut();
    YearPdfPieces(x);
    KeptFrom(x, x, ["2016", "pdf"], ["."], ["2016", "pdf"]);
  }

  lemma YearPdfLower(x: string)
    requires x == "2016.pdf"
    ensures '/' !in x && Lower(x) == x
  {
  }

  lemma YearPdfCut()
    ensures IsRunSplit(["2016", "pdf"], ["."])
    ensures MatchDate(["2016", "pdf"]) == NoMatch
    ensures var pieces := ["2016", "pdf"];
      forall k :: 0 <= k < |pieces| ==> '.' !in pieces[k] && !IsDate(pieces[k])
  {
  }

  lemma YearPdfPieces(x: string)
    requires x == "2016.pdf"
    ensures Weave(["2016", "pdf"], ["."]) == x
    ensures Join(["2016", "pdf"], '.') == x
  {
  }

  /** "hello.2016.pdf" stays "hello.2016.pdf": no pattern applies. */
  lemma HelloYearPdfKept(x: string)
    requires x == "hello.2016.pdf"
    ensures NewName(x) == Ok(x)
  {
    HelloYearPdfLower(x);
    HelloYearPdfCut();
    HelloYearPdfPieces(x);
    KeptFrom(x, x, ["hello", "2016", "pdf"], [".", "."], ["hello", "2016", "pdf"]);
  }

  lemma HelloYearPdfLower(x: string)
    requires x == "hello.2016.pdf"
    ensures '/' !in x && Lower(x) == x
  {
  }

  lemma HelloYearPdfCut()
    ensures IsRunSplit(["hello", "2016", "pdf"], [".", "."])
    ensures MatchDate(["hello", "2016", "pdf"]) == NoMatch
    ensures var pieces := ["hello", "2016", "pdf"];
      forall k :: 0 <= k < |pieces| ==> '.' !in pieces[k] && !IsDate(pieces[k])
  {
  }

  lemma HelloYearPdfPieces(x: string)
    requires x == "hello.2016.pdf"
    ensures Weave(["hello", "2016", "pdf"], [".", "."]) == x
    ensures Join(["hello", "2016", "pdf"], '.') == x
  {
  }

  /** "economist.the.2014-08-09.pdf" is one of this tool's own names. */
  lemma RenamedNameKept(x: string)
    requires x == "economist.the.2014-08-09.pdf"
    ensures NewName(x) == Ok(x)
  {
    RenamedNoSlash(x);
    RenamedPieces(x);
    RenamedPiecesDotFree();
    RenamedDate();
    RenamedFrom(x, ["economist", "the", "2014-08-09", "pdf"], 2);
  }

  lemma RenamedNoSlash(x: string)
    requires x == "economist.the.2014-08-09.pdf"
    ensures '/' !in x
  {
  }

  lemma RenamedPieces(x: string)
    requires x == "economist.the.2014-08-09.pdf"
    ensures Join(["economist", "the", "2014-08-09", "pdf"], '.') == x
  {
    JoinFour("economist", "the", "2014-08-09", "pdf", '.');
  }

  lemma RenamedPiecesDotFree()
    ensures var pieces := ["economist", "the", "2014-08-09", "pdf"];
      forall k :: 0 <= k < |pieces| ==> '.' !in pieces[k]
  {
  }

  lemma RenamedDate()
    ensures IsDate(["economist", "the", "2014-08-09", "pdf"][2])
  {
  }

  // The stages of "The.Economist-09.August.2014.pdf", one fact each.

  lemma EconomistNoSlash(x: string)
    requires x == "The.Economist-09.August.2014.pdf"
    ensures '/' !in x
  {
  }

  lemma EconomistExt(x: string)
    requires x == "The.Economist-09.August.2014.pdf"
    ensures Ext(x) == ".pdf"
  {
  }

  lemma EconomistLower(x: string)
    requires x == "The.Economist-09.August.2014.pdf"
    ensures Lower(x) == "the.economist-09.august.2014.pdf"
  {
  }

  lemma EconomistPieces(x: string)
    requires x == "The.Economist-09.August.2014.pdf"
    ensures Join(["The", "Economist-09", "August", "2014", "pdf"], '.') == x
  {
    JoinFive("The", "Economist-09", "August", "2014", "pdf", '.');
  }

  lemma EconomistPiecesUndated()
    ensures var pieces := ["The", "Economist-09", "August", "2014", "pdf"];
      forall k :: 0 <= k < |pieces| ==> '.' !in pieces[k] && !IsDate(pieces[k])
  {
  }

  lemma EconomistCut()
    ensures IsRunSplit(["the", "economist", "09", "august", "2014", "pdf"], [".", "-", ".", ".", "."])
  {
  }

  lemma EconomistWeave()
    ensures Weave(["the", "economist", "09", "august", "2014", "pdf"], [".", "-", ".", ".", "."])
      == "the.economist-09.august.2014.pdf"
  {
    WeaveSix("the", "economist", "09", "august", "2014", "pdf", ".", "-", ".", ".", ".");
  }

  /** The last pattern (day, month, year, extension) applies. */
  lemma EconomistMatch()
    ensures MatchDate(["the", "economist", "09", "august", "2014", "pdf"])
      == Extraction(["the", "economist"], "2014-08-09")
  {
  }

  /** main_test.go:47: patterns 2 and 5 both apply to these tokens; pattern 2
      comes first, so the day is "11th", not "17th". */
  lemma EarlierPatternMatch(parts: seq<string>)
    requires parts == ["the", "economist", "11th", "july", "17th", "truepdf", "july", "2015", "pdf"]
    ensures MatchDate(parts) == Extraction(["the", "economist"], "2015-07-11")
  {
    assert |parts| == 9 && parts[2] == "11th" && parts[3] == "july" && parts[7] == "2015";
    assert parts[4] == "17th";
    JulyClasses();
    assert parts[..2] == ["the", "economist"];
  }

  lemma JulyClasses()
    ensures IsDay("11th") && IsMonth("july") && IsYear("2015")
    ensures DateOf("2015", "july", "11th") == "2015-07-11"
  {
  }

  /** main_test.go:55: patterns 5 and 6 both apply; pattern 5 comes first, so
      the day is "22", not "29". */
  lemma FifthBeforeSixthMatch(parts: seq<string>)
    requires parts == ["the", "new", "yorker", "truepdf", "22", "29", "december", "2014", "pdf"]
    ensures MatchDate(parts) == Extraction(["the", "new", "yorker", "truepdf"], "2014-12-22")
  {
    assert |parts| == 9 && parts[2] == "yorker" && parts[3] == "truepdf";
    assert parts[4] == "22" && parts[6] == "december" && parts[7] == "2014";
    assert parts[..4] == ["the", "new", "yorker", "truepdf"];
    DecemberDate();
  }

  /** The first rename of "Foo.1x may 2016 pdf": pattern 6 writes the date
      "2016-05-1x", whose day field fails isDate. */
  lemma FooFirstMatch(parts: seq<string>)
    requires parts == ["foo", "1x", "may", "2016", "pdf"]
    ensures MatchDate(parts) == Extraction(["foo"], "2016-05-1x")
    ensures !IsDate("2016-05-1x")
  {
    assert |parts| == 5 && parts[1] == "1x" && parts[2] == "may" && parts[3] == "2016";
    FooClasses();
    assert parts[..1] == ["foo"];
  }

  /** The second rename of its new name "foo.2016-05-1x.1x may 2016 pdf":
      pattern 5 matches again and takes "2016" and "05" into the title. */
  lemma FooSecondMatch(parts: seq<string>)
    requires parts == ["foo", "2016", "05", "1x", "1x", "may", "2016", "pdf"]
    ensures MatchDate(parts) == Extraction(["foo", "2016", "05"], "2016-05-1x")
  {
    assert |parts| == 8 && parts[1] == "2016" && parts[2] == "05" && parts[3] == "1x";
    assert parts[5] == "may" && parts[6] == "2016";
    FooClasses();
    assert parts[..3] == ["foo", "2016", "05"];
  }

  lemma FooClasses()
    ensures !IsDay("2016") && !IsMonth("2016") && !IsMonth("05")
    ensures IsDay("1x") && IsMonth("may") && IsYear("2016")
    ensures DateOf("2016", "may", "1x") == "2016-05-1x"
  {
    assert IsDigit("2016"[2]) && !IsLetter("2016"[2]);
  }

  lemma DecemberDate()
    ensures IsDay("22") && IsMonth("december") && IsYear("2014")
    ensures DateOf("2014", "december", "22") == "2014-12-22"
  {
  }

  lemma EconomistParsed(x: string)
    requires x == "The.Economist-09.August.2014.pdf"
    ensures !AlreadyRenamed(x)
    ensures ExtractDate(x) == Extraction(["the", "economist"], "2014-08-09")
  {
    EconomistLower(x);
    EconomistCut();
    EconomistWeave();
    EconomistMatch();
    ExtractDateFrom(x, "the.economist-09.august.2014.pdf",
      ["the", "economist", "09", "august", "2014", "pdf"], [".", "-", ".", ".", "."]);
    EconomistPieces(x);
    EconomistPiecesUndated();
    NotRenamedFrom(x, ["The", "Economist-09", "August", "2014", "pdf"]);
  }

  lemma EconomistKept()
    ensures WithoutBanned(["the", "economist"]) == ["the", "economist"]
  {
  }

  lemma EconomistOutPieces()
    ensures ArticleLast(["the", "economist"]) + ["2014-08-09", ".pdf"[1..]]
      == ["economist", "the", "2014-08-09", "pdf"]
  {
    assert ArticleLast(["the", "economist"]) == ["economist", "the"];
  }

  /** "The.Economist-09.August.2014.pdf" becomes "economist.the.2014-08-09.pdf". */
  lemma EconomistRenamed(x: string)
    requires x == "The.Economist-09.August.2014.pdf"
    ensures NewName(x) == Ok("economist.the.2014-08-09.pdf")
  {
    EconomistNoSlash(x);
    EconomistExt(x);
    EconomistParsed(x);
    EconomistKept();
    EconomistOutPieces();
    RenamedPieces("economist.the.2014-08-09.pdf");
    RenamedTo(x, Extraction(["the", "economist"], "2014-08-09"), ["the", "economist"], ".pdf",
      ["economist", "the", "2014-08-09", "pdf"], "economist.the.2014-08-09.pdf");
  }

  /** A path instead of a file name: rename panics before looking further. */
  lemma SlashPanics()
    ensures NewName("a/b.pdf") == Panic(PathGiven)
  {
    assert "a/b.pdf"[1] == '/';
  }

  /** A name whose whole title is banned: rename reads the first element of
      an empty list and panics. */
  lemma BannedTitlePanics(x: string)
    requires x == "TruePDF-09.August.2014.pdf"
    ensures NewName(x) == Panic(EmptyTitle)
  {
    BannedNoSlash(x);
    BannedLower(x);
    BannedCut();
    BannedWeave();
    BannedMatch();
    ExtractDateFrom(x, "truepdf-09.august.2014.pdf",
      ["truepdf", "09", "august", "2014", "pdf"], ["-", ".", ".", "."]);
    BannedPieces(x);
    BannedPiecesUndated();
    NotRenamedFrom(x, ["TruePDF-09", "August", "2014", "pdf"]);
    BannedKept();
  }

  lemma BannedNoSlash(x: string)
    requires x == "TruePDF-09.August.2014.pdf"
    ensures '/' !in x
  {
  }

  lemma BannedLower(x: string)
    requires x == "TruePDF-09.August.2014.pdf"
    ensures Lower(x) == "truepdf-09.august.2014.pdf"
  {
  }

  lemma BannedCut()
    ensures IsRunSplit(["truepdf", "09", "august", "2014", "pdf"], ["-", ".", ".", "."])
  {
  }

  lemma BannedWeave()
    ensures Weave(["truepdf", "09", "august", "2014", "pdf"], ["-", ".", ".", "."])
      == "truepdf-09.august.2014.pdf"
  {
    WeaveFive("truepdf", "09", "august", "2014", "pdf", "-", ".", ".", ".");
  }

  lemma BannedMatch()
    ensures MatchDate(["truepdf", "09", "august", "2014", "pdf"])
      == Extraction(["truepdf"], "2014-08-09")
  {
  }

  lemma BannedPieces(x: string)
    requires x == "TruePDF-09.August.2014.pdf"
    ensures Join(["TruePDF-09", "August", "2014", "pdf"], '.') == x
  {
    JoinFour("TruePDF-09", "August", "2014", "pdf", '.');
  }

  lemma BannedPiecesUndated()
    ensures var pieces := ["TruePDF-09", "August", "2014", "pdf"];
      forall k :: 0 <= k < |pieces| ==> '.' !in pieces[k] && !IsDate(pieces[k])
  {
  }

  lemma BannedKept()
    ensures WithoutBanned(["truepdf"]) == []
  {
    assert ["truepdf"][..0] == [];
  }

  /** A dated name without a '.': rename cuts the leading dot off an empty
      extension and panics. */
  lemma DotlessPanics(x: string)
    requires x == "The Economist 09 August 2014 issue"
    ensures NewName(x) == Panic(NoExtension)
  {
    DotlessNoDot(x);
    DotlessLower(x);
    DotlessCut();
    DotlessWeave();
    DotlessMatch();
    ExtractDateFrom(x, "the economist 09 august 2014 issue",
      ["the", "economist", "09", "august", "2014", "issue"], [" ", " ", " ", " ", " "]);
    DotlessUndated(x);
    NotRenamedFrom(x, [x]);
    EconomistKept();
  }

  lemma DotlessNoDot(x: string)
    requires x == "The Economist 09 August 2014 issue"
    ensures '/' !in x && '.' !in x && Ext(x) == ""
  {
  }

  lemma DotlessLower(x: string)
    requires x == "The Economist 09 August 2014 issue"
    ensures Lower(x) == "the economist 09 august 2014 issue"
  {
  }

  lemma DotlessCut()
    ensures IsRunSplit(["the", "economist", "09", "august", "2014", "issue"], [" ", " ", " ", " ", " "])
  {
  }

  lemma DotlessWeave()
    ensures Weave(["the", "economist", "09", "august", "2014", "issue"], [" ", " ", " ", " ", " "])
      == "the economist 09 august 2014 issue"
  {
    WeaveSix("the", "economist", "09", "august", "2014", "issue", " ", " ", " ", " ", " ");
  }

  lemma DotlessMatch()
    ensures MatchDate(["the", "economist", "09", "august", "2014", "issue"])
      == Extraction(["the", "economist"], "2014-08-09")
  {
  }

  lemma DotlessUndated(x: string)
    requires x == "The Economist 09 August 2014 issue"
    ensures Join([x], '.') == x && '.' !in [x][0] && !IsDate([x][0])
  {
  }
}
