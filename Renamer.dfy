/** rename: turn a periodical's file name such as
    "The.Economist-09.August.2014.pdf" into "economist.the.2014-08-09.pdf",
    leaving names it has already produced, or cannot parse, as they are. */
module Renamer {
  import opened GoStrings
  import opened Tokenizer
  import opened Fields
  import opened Matcher

  /** The ways rename panics. */
  datatype Fault =
    | PathGiven    // the argument contains '/', so it is a path, not a file name
    | EmptyTitle   // every title token was banned, and the first one is read anyway
    | NoExtension  // the name has no '.', and the extension's leading dot is cut off anyway

  datatype Outcome = Ok(name: string) | Panic(fault: Fault)

  /** Some '.'-separated piece of the name is a date this tool writes. */
  predicate AlreadyRenamed(original: string) {
    var pieces := SplitOn(original, '.');
    exists k :: 0 <= k < |pieces| && IsDate(pieces[k])
  }

  /** isAlreadyRenamed: scan the '.'-separated pieces, stopping at the first date. */
  method IsAlreadyRenamed(original: string) returns (renamed: bool)
    ensures renamed == AlreadyRenamed(original)
  {
    var dotParts := SplitOn(original, '.');
    for i := 0 to |dotParts|
      invariant forall k :: 0 <= k < i ==> !IsDate(dotParts[k])
    {
      if IsDate(dotParts[i]) {
        return true;
      }
    }
    return false;
  }

  /** The tokens that are not banned, in their original order. */
  function WithoutBanned(ts: seq<string>): (r: seq<string>)
    ensures |r| <= |ts|
    ensures forall t :: t in r <==> t in ts && t !in Banned
  {
    if ts == [] then []
    else
      var last := ts[|ts| - 1];
      WithoutBanned(ts[..|ts| - 1]) + (if last in Banned then [] else [last])
  }

  /** A leading "the" goes to the end; nothing else moves. */
  function ArticleLast(ts: seq<string>): (r: seq<string>)
    requires ts != []
    ensures multiset(r) == multiset(ts)
  {
    if ts[0] == "the" then
      assert ts == [ts[0]] + ts[1..];
      ts[1..] + ["the"]
    else ts
  }

  /** What rename returns for `original`, or how it panics. */
  function NewName(original: string): Outcome {
    if '/' in original then Panic(PathGiven)
    else if AlreadyRenamed(original) then Ok(original)
    else
      var m := ExtractDate(original);
      if m.date == "" then Ok(original)
      else
        var kept := WithoutBanned(m.title);
        if kept == [] then Panic(EmptyTitle)
        else
          var ext := Ext(original);
          if ext == "" then Panic(NoExtension)
          else Ok(Join(ArticleLast(kept) + [m.date, ext[1..]], '.'))
  }

  /** rename, step by step: the banned tokens are filtered out in a loop, a
      leading "the" is rotated to the back, and the date and the extension are
      appended before the pieces are joined with '.'. */
  method Rename(original: string) returns (out: Outcome)
    ensures out == NewName(original)
  {
    if '/' in original {
      return Panic(PathGiven);
    }
    var renamed := IsAlreadyRenamed(original);
    if renamed {
      return Ok(original);
    }
    var m := ExtractDate(original);
    if m.date == "" {
      return Ok(original);
    }
    var correctedParts: seq<string> := [];
    for i := 0 to |m.title|
      invariant correctedParts == WithoutBanned(m.title[..i])
    {
      assert m.title[..i + 1][..i] == m.title[..i];
      if m.title[i] !in Banned {
        correctedParts := correctedParts + [m.title[i]];
      }
    }
    assert m.title[..|m.title|] == m.title;
    ghost var kept := correctedParts;
    if |correctedParts| == 0 {
      return Panic(EmptyTitle);
    }
    if correctedParts[0] == "the" {
      correctedParts := correctedParts[1..] + ["the"];
    }
    assert correctedParts == ArticleLast(kept);
    var ext := Ext(original);
    if |ext| == 0 {
      return Panic(NoExtension);
    }
    ext := ext[1..];
    correctedParts := correctedParts + [m.date, ext];
    return Ok(Join(correctedParts, '.'));
  }

  /** Filtering distributes over concatenation, so the kept tokens stay in
      their original order. */
  lemma {:induction false} WithoutBannedConcat(a: seq<string>, b: seq<string>)
    ensures WithoutBanned(a + b) == WithoutBanned(a) + WithoutBanned(b)
    decreases |b|
  {
    if b != [] {
      var b', x := b[..|b| - 1], b[|b| - 1];
      var tail := if x in Banned then [] else [x];
      assert a + b == (a + b') + [x];
      assert (a + b)[..|a + b| - 1] == a + b';
      assert WithoutBanned(a + b) == WithoutBanned(a + b') + tail;
      assert WithoutBanned(b) == WithoutBanned(b') + tail;
      WithoutBannedConcat(a, b');
    } else {
      assert a + b == a;
    }
  }

  /** A name that no pattern matches comes back unchanged. */
  lemma UnparseableUnchanged(original: string)
    requires '/' !in original
    requires forall k :: 0 <= k < |Patterns| ==> !Matches(Patterns[k], Tokenize(Lower(original)))
    ensures NewName(original) == Ok(original)
  {
    var parts := Tokenize(Lower(original));
    MatchDateIsFirstMatch(parts);
    PatternsGuarded();
    FirstMatchNone(Patterns, parts);
  }

  /** No piece of the new name before the date contains '.'. */
  lemma KeptHaveNoDot(original: string)
    requires ExtractDate(original) != NoMatch
    ensures var kept := WithoutBanned(ExtractDate(original).title);
      forall k :: 0 <= k < |kept| ==> '.' !in kept[k]
  {
    var m := ExtractDate(original);
    var kept := WithoutBanned(m.title);
    forall k | 0 <= k < |kept|
      ensures '.' !in kept[k]
    {
      assert kept[k] in m.title;
      var j :| 0 <= j < |m.title| && m.title[j] == kept[k];
      assert DelimiterFree(m.title[j]);
    }
  }

  /** A date-shaped field holds only digits, letters and '-'. */
  lemma DateShapedChars(d: string, c: char)
    requires DateShaped(d)
    requires !IsDigit(c) && !IsLetter(c) && c != '-'
    ensures c !in d
  {
    assert forall i :: 0 <= i < 4 ==> d[i] == d[..4][i];
    assert d[5] == d[5..7][0] && d[6] == d[5..7][1];
  }

  /** Splitting the joined output on '.' gives back its pieces. */
  lemma OutputPieces(kept: seq<string>, date: string, ext: string)
    requires kept != []
    requires forall k :: 0 <= k < |kept| ==> '.' !in kept[k]
    requires '.' !in date && '.' !in ext
    ensures var out := ArticleLast(kept) + [date, ext]; SplitOn(Join(out, '.'), '.') == out
  {
    var out := ArticleLast(kept) + [date, ext];
    forall k | 0 <= k < |out|
      ensures '.' !in out[k]
    {
      if k < |kept| {
        assert out[k] in multiset(kept);
      }
    }
    SplitJoin(out, '.');
  }

  /** In rename's success case, the new name is the joined pieces. */
  lemma NewNameJoins(original: string)
    requires '/' !in original && '.' in original && !AlreadyRenamed(original)
    requires ExtractDate(original) != NoMatch
    requires WithoutBanned(ExtractDate(original).title) != []
    ensures var m := ExtractDate(original);
      NewName(original) == Ok(Join(ArticleLast(WithoutBanned(m.title)) + [m.date, Ext(original)[1..]], '.'))
  {
  }

  /** rename panics exactly on a path, on a parsed name whose title tokens
      are all banned, and on a parsed name without '.'; nothing else fails. */
  lemma NewNamePanics(original: string)
    ensures var m := ExtractDate(original);
      NewName(original).Panic? <==>
        '/' in original ||
        (!AlreadyRenamed(original) && m != NoMatch && (WithoutBanned(m.title) == [] || '.' !in original))
    ensures NewName(original) == Panic(PathGiven) <==> '/' in original
    ensures var m := ExtractDate(original);
      NewName(original) == Panic(EmptyTitle) <==>
        '/' !in original && !AlreadyRenamed(original) && m != NoMatch && WithoutBanned(m.title) == []
    ensures var m := ExtractDate(original);
      NewName(original) == Panic(NoExtension) <==>
        '/' !in original && !AlreadyRenamed(original) && m != NoMatch && WithoutBanned(m.title) != []
        && '.' !in original
  {
    var m := ExtractDate(original);
    assert m.date == "" <==> m == NoMatch;
    if '/' !in original {
      assert Ext(original) == "" <==> '.' !in original;
    }
  }

  /** The pieces of the joined output, one fact per part. */
  lemma OutputShape(kept: seq<string>, date: string, ext: string)
    requires kept != []
    requires forall k :: 0 <= k < |kept| ==> '.' !in kept[k]
    requires '.' !in date && '.' !in ext
    ensures var pieces := SplitOn(Join(ArticleLast(kept) + [date, ext], '.'), '.');
      && |pieces| == |kept| + 2
      && (kept[0] == "the" ==> pieces[..|kept| - 1] == kept[1..] && pieces[|kept| - 1] == "the")
      && (kept[0] != "the" ==> pieces[..|kept|] == kept)
      && (forall k :: 0 <= k < |kept| ==> pieces[k] in kept)
      && pieces[|kept|] == date
      && pieces[|kept| + 1] == ext
  {
    var out := ArticleLast(kept) + [date, ext];
    OutputPieces(kept, date, ext);
    assert out[..|kept|] == ArticleLast(kept);
    forall k | 0 <= k < |kept|
      ensures out[k] in kept
    {
      assert out[k] in multiset(kept);
    }
  }

  /** The pieces of a new name: the kept title tokens with a leading "the"
      rotated to the back, then the date, then the original's extension
      without its dot; no banned token survives. */
  lemma NewNamePieces(original: string)
    requires '/' !in original && '.' in original && !AlreadyRenamed(original)
    requires ExtractDate(original) != NoMatch
    requires WithoutBanned(ExtractDate(original).title) != []
    ensures NewName(original).Ok?
    ensures var m := ExtractDate(original);
      var kept := WithoutBanned(m.title);
      var pieces := SplitOn(NewName(original).name, '.');
      && |pieces| == |kept| + 2
      && (kept[0] == "the" ==> pieces[..|kept| - 1] == kept[1..] && pieces[|kept| - 1] == "the")
      && (kept[0] != "the" ==> pieces[..|kept|] == kept)
      && (forall k :: 0 <= k < |kept| ==> pieces[k] !in Banned)
      && pieces[|kept|] == m.date
      && pieces[|kept| + 1] == Ext(original)[1..]
  {
    var m := ExtractDate(original);
    var kept := WithoutBanned(m.title);
    var ext := Ext(original)[1..];
    NewNameJoins(original);
    assert NewName(original).name == Join(ArticleLast(kept) + [m.date, ext], '.');
    KeptHaveNoDot(original);
    DateShapedChars(m.date, '.');
    OutputShape(kept, m.date, ext);
    var pieces := SplitOn(NewName(original).name, '.');
    forall k | 0 <= k < |kept|
      ensures pieces[k] !in Banned
    {
      assert pieces[k] in kept;
    }
  }

  /** No title token of a parsed name contains '/' when the name has none. */
  lemma KeptHaveNoSlash(original: string)
    requires '/' !in original
    requires ExtractDate(original) != NoMatch
    ensures var kept := WithoutBanned(ExtractDate(original).title);
      forall k :: 0 <= k < |kept| ==> '/' !in kept[k]
  {
    var lower := Lower(original);
    var parts := Tokenize(lower);
    var m := ExtractDate(original);
    assert m == MatchDate(parts);
    var kept := WithoutBanned(m.title);
    LowerKeeps(original, '/');
    forall k | 0 <= k < |kept|
      ensures '/' !in kept[k]
    {
      assert kept[k] in m.title;
      var j :| 0 <= j < |m.title| && m.title[j] == kept[k];
      assert m.title[j] == parts[j];
      if '/' in kept[k] {
        TokenChars(lower, j, '/');
      }
    }
  }

  /** A character absent from every piece other than the separator is
      absent from the joined output. */
  lemma OutputLacks(kept: seq<string>, date: string, ext: string, c: char)
    requires kept != [] && c != '.'
    requires forall k :: 0 <= k < |kept| ==> c !in kept[k]
    requires c !in date && c !in ext
    ensures c !in Join(ArticleLast(kept) + [date, ext], '.')
  {
    var out := ArticleLast(kept) + [date, ext];
    forall k | 0 <= k < |out|
      ensures c !in out[k]
    {
      if k < |kept| {
        assert out[k] in multiset(kept);
      }
    }
    JoinChars(out, '.', c);
  }

  /** The extension is a suffix of the name, so it holds only the name's characters. */
  lemma ExtLacks(original: string, c: char)
    requires c !in original && Ext(original) != ""
    ensures c !in Ext(original)[1..]
  {
    var e := Ext(original);
    var start := |original| - |e|;
    assert 0 <= start && e[1..] == original[start + 1..];
  }

  /** The new name contains no '/' when the old one has none. */
  lemma NewNameHasNoSlash(original: string)
    requires '/' !in original && '.' in original && !AlreadyRenamed(original)
    requires ExtractDate(original) != NoMatch
    requires WithoutBanned(ExtractDate(original).title) != []
    ensures NewName(original).Ok? && '/' !in NewName(original).name
  {
    var m := ExtractDate(original);
    NewNameJoins(original);
    KeptHaveNoSlash(original);
    DateShapedChars(m.date, '/');
    ExtLacks(original, '/');
    OutputLacks(WithoutBanned(m.title), m.date, Ext(original)[1..], '/');
  }

  /** A new name is the joined front, a '.', and "date.ext". */
  lemma NewNameSplit(original: string)
    requires NewName(original).Ok? && !AlreadyRenamed(original) && ExtractDate(original) != NoMatch
    ensures var m := ExtractDate(original);
      NewName(original).name == (Join(ArticleLast(WithoutBanned(m.title)), '.') + ".") + (m.date + "." + Ext(original)[1..])
  {
    var m := ExtractDate(original);
    var kept := WithoutBanned(m.title);
    assert '/' !in original && kept != [] && Ext(original) != "";
    var ext := Ext(original)[1..];
    var front := ArticleLast(kept);
    NewNameJoins(original);
    assert NewName(original).name == Join(front + [m.date, ext], '.');
    JoinAppendTwo(front, m.date, ext, '.');
    var a := Join(front, '.');
    assert Join(front + [m.date, ext], '.') == a + ['.'] + m.date + ['.'] + ext;
    Regroup(a, m.date, ext);
  }

  lemma Regroup(a: string, d: string, e: string)
    ensures a + ['.'] + d + ['.'] + e == (a + ".") + (d + "." + e)
  {
    assert a + ['.'] + d + ['.'] + e == (a + ['.']) + (d + ['.'] + e);
  }

  /** The second rename of a new name whose date passes isDate stops at the
      already-renamed check. */
  lemma DatedIdempotent(original: string)
    requires NewName(original).Ok? && !AlreadyRenamed(original) && ExtractDate(original) != NoMatch
    requires IsDate(ExtractDate(original).date)
    ensures NewName(NewName(original).name) == NewName(original)
  {
    var m := ExtractDate(original);
    var kept := WithoutBanned(m.title);
    assert '/' !in original && kept != [] && Ext(original) != "";
    var y := NewName(original).name;
    NewNamePieces(original);
    NewNameHasNoSlash(original);
    var pieces := SplitOn(y, '.');
    assert IsDate(pieces[|kept|]);
    assert AlreadyRenamed(y);
  }

  /** The second rename of a new name whose extension holds no delimiter
      finds no pattern: its tokens end in year, month number, day field and
      extension. */
  lemma PlainExtIdempotent(original: string)
    requires NewName(original).Ok? && !AlreadyRenamed(original) && ExtractDate(original) != NoMatch
    requires DelimiterFree(Ext(original)[1..])
    ensures NewName(NewName(original).name) == NewName(original)
  {
    var m := ExtractDate(original);
    var kept := WithoutBanned(m.title);
    assert '/' !in original && kept != [] && Ext(original) != "";
    var ext := Ext(original)[1..];
    var y := NewName(original).name;
    NewNameHasNoSlash(original);
    NewNameSplit(original);
    var a := Join(ArticleLast(kept), '.');
    var b := m.date + "." + ext;
    if !AlreadyRenamed(y) {
      LowerConcat(a + ".", b);
      LowerConcat(a, ".");
      var la := Lower(a + ".");
      assert la[|la| - 1] == '.';
      DateExtTokens(m.date, ext);
      var p := TokenizeAfterRun(la, Lower(b));
      assert Tokenize(Lower(y)) == p + [m.date[..4], m.date[5..7], Lower(m.date[8..]), Lower(ext)];
      WrittenTailNeverMatches(p, m.date[..4], m.date[5..7], Lower(m.date[8..]), Lower(ext));
      assert ExtractDate(y) == NoMatch;
    }
  }

  /** Renaming twice is renaming once, provided the date written the first
      time is one the already-renamed check recognises (a year not starting
      with 0 and a day field of two digits starting with 0 to 3), or the
      extension holds no delimiter, as ".pdf" does. */
  lemma NewNameIdempotent(original: string)
    requires NewName(original).Ok?
    requires || AlreadyRenamed(original) || ExtractDate(original) == NoMatch
             || IsDate(ExtractDate(original).date)
             || (Ext(original) != "" && DelimiterFree(Ext(original)[1..]))
    ensures NewName(NewName(original).name) == NewName(original)
  {
    if !AlreadyRenamed(original) && ExtractDate(original) != NoMatch {
      assert '/' !in original && Ext(original) != "";
      if IsDate(ExtractDate(original).date) {
        DatedIdempotent(original);
      } else {
        PlainExtIdempotent(original);
      }
    }
  }
}
