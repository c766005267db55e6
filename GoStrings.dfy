/** The handful of Go standard-library string functions the renamer relies on:
    strings.ToLower (restricted to ASCII), strings.Split and strings.Join with a
    one-character separator, and path.Ext. strings.Contains with a
    one-character argument is Dafny's `in`. */
module GoStrings {

  /** strings.ToLower on one ASCII character; every other character is kept. */
  function LowerChar(c: char): char {
    if 'A' <= c <= 'Z' then (c as int - 'A' as int + 'a' as int) as char else c
  }

  /** strings.ToLower, character by character. */
  function Lower(s: string): (r: string)
    ensures |r| == |s|
  {
    seq(|s|, i requires 0 <= i < |s| => LowerChar(s[i]))
  }

  /** Lower-casing leaves no upper-case ASCII letter, and each character
      differs from the input's only in case. */
  lemma LowerCase(s: string)
    ensures forall i :: 0 <= i < |s| ==> !('A' <= Lower(s)[i] <= 'Z') && LowerChar(Lower(s)[i]) == LowerChar(s[i])
  {
  }

  /** Lower-casing neither creates nor removes a character that is not a letter. */
  lemma LowerKeeps(s: string, c: char)
    requires !('A' <= c <= 'Z') && !('a' <= c <= 'z')
    ensures c in Lower(s) <==> c in s
  {
    if c in s {
      var i :| 0 <= i < |s| && s[i] == c;
      assert Lower(s)[i] == c;
    }
    if c in Lower(s) {
      var i :| 0 <= i < |s| && Lower(s)[i] == c;
      assert s[i] == c;
    }
  }

  /** Lower-casing works character by character, so it distributes over concatenation. */
  lemma LowerConcat(a: string, b: string)
    ensures Lower(a + b) == Lower(a) + Lower(b)
  {
    assert forall i :: 0 <= i < |a + b| ==> Lower(a + b)[i] == (Lower(a) + Lower(b))[i];
  }

  /** A string without upper-case ASCII letters is its own lower case. */
  lemma LowerNoCapitals(s: string)
    requires forall i :: 0 <= i < |s| ==> !('A' <= s[i] <= 'Z')
    ensures Lower(s) == s
  {
  }

  /** Position of the first `c` in `s`, or |s| when `s` has none. */
  function IndexOf(s: string, c: char): (i: nat)
    ensures i <= |s|
    ensures i < |s| ==> s[i] == c
    ensures forall j :: 0 <= j < i ==> s[j] != c
  {
    if |s| == 0 || s[0] == c then 0 else 1 + IndexOf(s[1..], c)
  }

  /** strings.Split(s, sep) for a one-character separator: the pieces between
      the separators, so n separators give n + 1 pieces and "" gives [""]. */
  function SplitOn(s: string, sep: char): (pieces: seq<string>)
    ensures |pieces| >= 1
    ensures forall k :: 0 <= k < |pieces| ==> sep !in pieces[k]
    decreases |s|
  {
    var i := IndexOf(s, sep);
    if i == |s| then [s] else [s[..i]] + SplitOn(s[i + 1..], sep)
  }

  /** strings.Join(xs, sep) for a one-character separator. */
  function Join(xs: seq<string>, sep: char): string {
    if |xs| == 0 then ""
    else if |xs| == 1 then xs[0]
    else xs[0] + [sep] + Join(xs[1..], sep)
  }

  lemma JoinCons(x: string, xs: seq<string>, sep: char)
    requires |xs| >= 1
    ensures Join([x] + xs, sep) == x + [sep] + Join(xs, sep)
  {
    assert ([x] + xs)[1..] == xs;
  }

  /** Appending two pieces to a non-empty join appends them with a separator before each. */
  lemma {:induction false} JoinAppendTwo(xs: seq<string>, a: string, b: string, sep: char)
    requires |xs| >= 1
    ensures Join(xs + [a, b], sep) == Join(xs, sep) + [sep] + a + [sep] + b
    decreases |xs|
  {
    JoinCons(a, [b], sep);
    assert [a] + [b] == [a, b];
    if |xs| == 1 {
      JoinCons(xs[0], [a, b], sep);
      assert xs + [a, b] == [xs[0]] + [a, b];
    } else {
      JoinCons(xs[0], xs[1..] + [a, b], sep);
      assert xs + [a, b] == [xs[0]] + (xs[1..] + [a, b]);
      JoinCons(xs[0], xs[1..], sep);
      assert xs == [xs[0]] + xs[1..];
      JoinAppendTwo(xs[1..], a, b, sep);
    }
  }

  lemma SplitCons(s: string, sep: char)
    requires IndexOf(s, sep) < |s|
    ensures var i := IndexOf(s, sep); SplitOn(s, sep) == [s[..i]] + SplitOn(s[i + 1..], sep)
  {
  }

  /** The first separator of x + [sep] + rest, when x has none, is the one after x. */
  lemma IndexOfAfter(x: string, sep: char, rest: string)
    requires sep !in x
    ensures var s := x + [sep] + rest; IndexOf(s, sep) == |x| && s[..|x|] == x && s[|x| + 1..] == rest
  {
    var s := x + [sep] + rest;
    assert s[|x|] == sep;
    assert forall j :: 0 <= j < |x| ==> s[j] == x[j];
  }

  /** Splitting undoes joining when no piece contains the separator. */
  lemma {:induction false} SplitJoin(xs: seq<string>, sep: char)
    requires |xs| >= 1
    requires forall k :: 0 <= k < |xs| ==> sep !in xs[k]
    ensures SplitOn(Join(xs, sep), sep) == xs
    decreases |xs|
  {
    if |xs| == 1 {
      assert IndexOf(xs[0], sep) == |xs[0]|;
    } else {
      var rest := Join(xs[1..], sep);
      JoinCons(xs[0], xs[1..], sep);
      assert xs == [xs[0]] + xs[1..];
      IndexOfAfter(xs[0], sep, rest);
      SplitCons(Join(xs, sep), sep);
      SplitJoin(xs[1..], sep);
    }
  }

  /** Joining undoes splitting. */
  lemma {:induction false} JoinSplit(s: string, sep: char)
    ensures Join(SplitOn(s, sep), sep) == s
    decreases |s|
  {
    var i := IndexOf(s, sep);
    if i < |s| {
      var rest := s[i + 1..];
      JoinSplit(rest, sep);
      SplitCons(s, sep);
      JoinCons(s[..i], SplitOn(rest, sep), sep);
      assert s == s[..i] + [sep] + rest;
    }
  }

  /** A joined string holds only the separator and the pieces' characters. */
  lemma {:induction false} JoinChars(xs: seq<string>, sep: char, c: char)
    requires c != sep
    requires forall k :: 0 <= k < |xs| ==> c !in xs[k]
    ensures c !in Join(xs, sep)
    decreases |xs|
  {
    if |xs| > 1 {
      JoinChars(xs[1..], sep, c);
    }
  }

  /** The loop of path.Ext, scanning `path` backwards from index `i`: it stops
      with "" at a '/' or at the front, and with the suffix from a '.'. */
  function ExtScan(path: string, i: int): (e: string)
    requires -1 <= i < |path|
    requires forall j :: i < j < |path| ==> path[j] != '.'
    ensures e == "" || (|e| <= |path| && e == path[|path| - |e|..] && e[0] == '.')
    ensures e != "" ==> '.' !in e[1..]
    ensures '/' !in path ==> (e == "" <==> '.' !in path[..i + 1])
    decreases i + 1
  {
    if i < 0 || path[i] == '/' then ""
    else if path[i] == '.' then path[i..]
    else
      assert path[..i + 1] == path[..i] + [path[i]];
      ExtScan(path, i - 1)
  }

  /** path.Ext: the suffix of `path` from its last '.', or "" when the last
      path element has no '.'. */
  function Ext(path: string): (e: string)
    ensures e == "" || (|e| <= |path| && e == path[|path| - |e|..] && e[0] == '.')
    ensures e != "" ==> '.' !in e[1..]
    ensures '/' !in path ==> (e == "" <==> '.' !in path)
  {
    assert path[..|path|] == path;
    ExtScan(path, |path| - 1)
  }
}
