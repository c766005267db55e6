/** The split of a (lower-cased) file name by the pattern [()[\] .-]+ : the
    name is cut at every maximal run of delimiter characters. The extension is
    not treated specially and stays as the last token. */
module Tokenizer {

  /** The character class of the pattern: parentheses, brackets, space, '.' and '-'. */
  predicate IsDelimiter(c: char) {
    c == '(' || c == ')' || c == '[' || c == ']' || c == ' ' || c == '.' || c == '-'
  }

  predicate DelimiterFree(t: string) {
    forall i :: 0 <= i < |t| ==> !IsDelimiter(t[i])
  }

  predicate AllDelimiters(d: string) {
    forall i :: 0 <= i < |d| ==> IsDelimiter(d[i])
  }

  /** Index of the first delimiter at or after `from`, or |s| when there is none. */
  function NextDelimiter(s: string, from: nat): (i: nat)
    requires from <= |s|
    ensures from <= i <= |s|
    ensures i < |s| ==> IsDelimiter(s[i])
    ensures forall j :: from <= j < i ==> !IsDelimiter(s[j])
    decreases |s| - from
  {
    if from == |s| || IsDelimiter(s[from]) then from else NextDelimiter(s, from + 1)
  }

  /** Index just past the run of delimiters that starts at `from`. */
  function RunEnd(s: string, from: nat): (j: nat)
    requires from <= |s|
    ensures from <= j <= |s|
    ensures j < |s| ==> !IsDelimiter(s[j])
    ensures forall k :: from <= k < j ==> IsDelimiter(s[k])
    decreases |s| - from
  {
    if from == |s| || !IsDelimiter(s[from]) then from else RunEnd(s, from + 1)
  }

  /** The tokens: what lies between consecutive delimiter runs. */
  function Tokenize(s: string): (ts: seq<string>)
    ensures |ts| >= 1
    decreases |s|
  {
    var i := NextDelimiter(s, 0);
    if i == |s| then [s] else [s[..i]] + Tokenize(s[RunEnd(s, i)..])
  }

  /** The delimiter runs themselves, in order. */
  function Separators(s: string): (ds: seq<string>)
    ensures |ds| == |Tokenize(s)| - 1
    decreases |s|
  {
    var i := NextDelimiter(s, 0);
    if i == |s| then [] else [s[i..RunEnd(s, i)]] + Separators(s[RunEnd(s, i)..])
  }

  /** Tokens interleaved with the separators between them. */
  function Weave(ts: seq<string>, ds: seq<string>): string
    requires |ts| == |ds| + 1
  {
    if |ds| == 0 then ts[0] else ts[0] + ds[0] + Weave(ts[1..], ds[1..])
  }

  /** `ts` and `ds` cut a string at maximal delimiter runs: tokens hold no
      delimiter, separators are non-empty runs of delimiters, and only the
      first and the last token may be empty. */
  predicate IsRunSplit(ts: seq<string>, ds: seq<string>) {
    && |ts| == |ds| + 1
    && (forall k :: 0 <= k < |ts| ==> DelimiterFree(ts[k]))
    && (forall k :: 0 <= k < |ds| ==> |ds[k]| > 0 && AllDelimiters(ds[k]))
    && (forall k :: 0 < k < |ts| - 1 ==> |ts[k]| > 0)
  }

  /** One step of Tokenize and Separators: the text before the first
      delimiter run, that run, and the rest. */
  lemma Unfold(s: string)
    requires NextDelimiter(s, 0) < |s|
    ensures var i := NextDelimiter(s, 0); var j := RunEnd(s, i);
      && Tokenize(s) == [s[..i]] + Tokenize(s[j..])
      && Separators(s) == [s[i..j]] + Separators(s[j..])
  {
  }

  lemma WeaveCons(t: string, d: string, ts: seq<string>, ds: seq<string>)
    requires |ts| == |ds| + 1
    ensures Weave([t] + ts, [d] + ds) == t + d + Weave(ts, ds)
  {
    assert ([t] + ts)[1..] == ts;
    assert ([d] + ds)[1..] == ds;
  }

  /** Tokenize cuts at maximal delimiter runs. */
  lemma {:induction false} TokenizeIsRunSplit(s: string)
    ensures IsRunSplit(Tokenize(s), Separators(s))
    decreases |s|
  {
    var i := NextDelimiter(s, 0);
    if i < |s| {
      var j := RunEnd(s, i);
      var r := s[j..];
      TokenizeIsRunSplit(r);
      Unfold(s);
      RunSplitCons(s[..i], s[i..j], Tokenize(r), Separators(r));
    }
  }

  /** Prepending a token and a run keeps a run split, provided the old first
      token is non-empty whenever it has become an interior one. */
  lemma RunSplitCons(t: string, d: string, ts: seq<string>, ds: seq<string>)
    requires IsRunSplit(ts, ds)
    requires DelimiterFree(t) && d != [] && AllDelimiters(d)
    requires |ts| > 1 ==> ts[0] != ""
    ensures IsRunSplit([t] + ts, [d] + ds)
  {
  }

  lemma ThreeSlices(s: string, i: nat, j: nat)
    requires i <= j <= |s|
    ensures s == s[..i] + s[i..j] + s[j..]
  {
  }

  /** Putting the delimiter runs back between the tokens gives the string again. */
  lemma {:induction false} TokenizeWeave(s: string)
    ensures Weave(Tokenize(s), Separators(s)) == s
    decreases |s|
  {
    var i := NextDelimiter(s, 0);
    if i < |s| {
      var j := RunEnd(s, i);
      var r := s[j..];
      TokenizeWeave(r);
      Unfold(s);
      WeaveCons(s[..i], s[i..j], Tokenize(r), Separators(r));
      ThreeSlices(s, i, j);
    }
  }

  /** In t + d + r, with t free of delimiters, d a run of them and r not
      starting with one, the first run is exactly d. */
  lemma FirstRun(t: string, d: string, r: string)
    requires DelimiterFree(t) && d != [] && AllDelimiters(d)
    requires |r| > 0 ==> !IsDelimiter(r[0])
    ensures NextDelimiter(t + d + r, 0) == |t|
    ensures RunEnd(t + d + r, |t|) == |t| + |d|
    ensures var s := t + d + r; s[..|t|] == t && s[|t|..|t| + |d|] == d && s[|t| + |d|..] == r
  {
    var s := t + d + r;
    assert s[..|t|] == t;
    assert s[|t|..|t| + |d|] == d;
    assert s[|t| + |d|..] == r;
    FirstDelimiterAt(s, |t|);
    RunEndAt(s, |t|, |t| + |d|);
  }

  lemma FirstDelimiterAt(s: string, i: nat)
    requires i < |s| && IsDelimiter(s[i]) && DelimiterFree(s[..i])
    ensures NextDelimiter(s, 0) == i
  {
    assert forall j :: 0 <= j < i ==> s[j] == s[..i][j];
  }

  lemma RunEndAt(s: string, i: nat, j: nat)
    requires i <= j <= |s| && AllDelimiters(s[i..j])
    requires j < |s| ==> !IsDelimiter(s[j])
    ensures RunEnd(s, i) == j
  {
    assert forall k :: i <= k < j ==> s[k] == s[i..j][k - i];
  }

  lemma RunSplitTail(ts: seq<string>, ds: seq<string>)
    requires IsRunSplit(ts, ds) && |ds| > 0
    ensures IsRunSplit(ts[1..], ds[1..])
  {
  }

  /** The cut at maximal delimiter runs is unique, so it is Tokenize's. */
  lemma {:induction false} RunSplitIsTokenize(s: string, ts: seq<string>, ds: seq<string>)
    requires IsRunSplit(ts, ds)
    requires Weave(ts, ds) == s
    ensures Tokenize(s) == ts
    ensures Separators(s) == ds
    decreases |ds|
  {
    if |ds| == 0 {
      assert NextDelimiter(s, 0) == |s|;
    } else {
      var t, d := ts[0], ds[0];
      var r := Weave(ts[1..], ds[1..]);
      assert ts == [t] + ts[1..] && ds == [d] + ds[1..];
      WeaveCons(t, d, ts[1..], ds[1..]);
      assert s == t + d + r;
      assert |r| > 0 ==> !IsDelimiter(r[0]) by {
        if |ds| > 1 {
          assert ts[1] != [] && r[0] == ts[1][0];
        } else {
          assert r == ts[1];
        }
      }
      FirstRun(t, d, r);
      Unfold(s);
      RunSplitTail(ts, ds);
      RunSplitIsTokenize(r, ts[1..], ds[1..]);
    }
  }

  /** Every character of a token is a character of the string. */
  lemma {:induction false} TokenChars(s: string, k: nat, c: char)
    requires k < |Tokenize(s)|
    requires c in Tokenize(s)[k]
    ensures c in s
    decreases |s|
  {
    var i := NextDelimiter(s, 0);
    if i < |s| && k > 0 {
      var j := RunEnd(s, i);
      TokenChars(s[j..], k - 1, c);
    }
  }

  /** The empty name is the single empty token; a leading delimiter yields an
      empty first token and a trailing one an empty last token. */
  lemma {:induction false} TokenizeEnds(s: string)
    ensures s == "" ==> Tokenize(s) == [""]
    ensures Tokenize(s)[0] == "" <==> (s == "" || IsDelimiter(s[0]))
    ensures Tokenize(s)[|Tokenize(s)| - 1] == "" <==> (s == "" || IsDelimiter(s[|s| - 1]))
    decreases |s|
  {
    var i := NextDelimiter(s, 0);
    if i < |s| {
      var j := RunEnd(s, i);
      var r := s[j..];
      TokenizeEnds(r);
      if r == "" {
        assert IsDelimiter(s[|s| - 1]);
      } else {
        assert r[|r| - 1] == s[|s| - 1];
      }
    }
  }

  /** In x + b, with x ending in a delimiter and b not starting with one,
      the first delimiter run starts and ends inside x. */
  lemma FirstRunInside(x: string, b: string)
    requires |x| > 0 && IsDelimiter(x[|x| - 1])
    requires |b| > 0 && !IsDelimiter(b[0])
    ensures var s := x + b; var i := NextDelimiter(s, 0);
      i < |x| && i < RunEnd(s, i) <= |x|
  {
    var s := x + b;
    assert s[|x| - 1] == x[|x| - 1];
    assert s[|x|] == b[0];
  }

  /** One cut of x + b: the first token, and what of x is left after the
      first delimiter run. */
  lemma CutInside(x: string, b: string) returns (t: string, rest: string)
    requires |x| > 0 && IsDelimiter(x[|x| - 1])
    requires |b| > 0 && !IsDelimiter(b[0])
    ensures |rest| < |x|
    ensures Tokenize(x + b) == [t] + (if rest == "" then Tokenize(b) else Tokenize(rest + b))
    ensures rest != "" ==> IsDelimiter(rest[|rest| - 1])
  {
    var s := x + b;
    FirstRunInside(x, b);
    var i := NextDelimiter(s, 0);
    var j := RunEnd(s, i);
    Unfold(s);
    t := s[..i];
    rest := x[j..];
    assert s[j..] == rest + b;
    if rest != "" {
      assert rest[|rest| - 1] == x[|x| - 1];
    }
  }

  /** A name that ends in a delimiter cuts off cleanly: the tokens of x + b
      are some tokens of x followed by exactly the tokens of b. */
  lemma {:induction false} TokenizeAfterRun(x: string, b: string) returns (p: seq<string>)
    requires |x| > 0 && IsDelimiter(x[|x| - 1])
    requires |b| > 0 && !IsDelimiter(b[0])
    ensures |p| >= 1 && Tokenize(x + b) == p + Tokenize(b)
    decreases |x|
  {
    var t, rest := CutInside(x, b);
    if rest == "" {
      p := [t];
    } else {
      var p' := TokenizeAfterRun(rest, b);
      p := [t] + p';
      assert [t] + (p' + Tokenize(b)) == p + Tokenize(b);
    }
  }
}
