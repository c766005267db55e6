/** The fixed tables and the token classifiers and extractors of the renamer:
    which tokens are days, months, years and finished dates, and how a day
    and a month token become two-digit fields. */
module Fields {

  /** Tokens that never survive into a new name. */
  const Banned: set<string> := {"truepdf"}

  /** Month names, full and abbreviated, to their two-digit numbers. */
  const Months: map<string, string> := map[
    "jan" := "01", "january" := "01",
    "feb" := "02", "february" := "02",
    "mar" := "03", "march" := "03",
    "apr" := "04", "april" := "04",
    "may" := "05",
    "jun" := "06", "june" := "06",
    "jul" := "07", "july" := "07",
    "aug" := "08", "august" := "08",
    "sep" := "09", "september" := "09",
    "oct" := "10", "october" := "10",
    "nov" := "11", "november" := "11",
    "dec" := "12", "december" := "12"
  ]

  predicate IsDigit(c: char) { '0' <= c <= '9' }

  predicate IsLetter(c: char) { 'A' <= c <= 'Z' || 'a' <= c <= 'z' }

  /** A two-digit month number, "01" to "12". */
  predicate IsMonthNumber(m: string) {
    |m| == 2 && ((m[0] == '0' && '1' <= m[1] <= '9') || (m[0] == '1' && '0' <= m[1] <= '2'))
  }

  /** `p` is `n` digits followed by at most two letters. */
  predicate DigitsThenLetters(p: string, n: nat) {
    && n <= |p| <= n + 2
    && (forall i :: 0 <= i < n ==> IsDigit(p[i]))
    && (forall i :: n <= i < |p| ==> IsLetter(p[i]))
  }

  /** ^[0-9]{1,2}[A-Za-z]{0,2}$ : a day number with an optional ordinal suffix. */
  predicate IsDay(p: string) {
    DigitsThenLetters(p, 1) || DigitsThenLetters(p, 2)
  }

  /** A key of the month table. */
  predicate IsMonth(p: string) {
    p in Months
  }

  /** ^[0-9]{4}$ */
  predicate IsYear(p: string) {
    |p| == 4 && forall i :: 0 <= i < 4 ==> IsDigit(p[i])
  }

  /** ^[1-9][0-9]{3}-[01][0-9]-[0123][0-9]$ : a date this tool writes. */
  predicate IsDate(p: string) {
    && |p| == 10
    && '1' <= p[0] <= '9' && IsDigit(p[1]) && IsDigit(p[2]) && IsDigit(p[3])
    && p[4] == '-'
    && '0' <= p[5] <= '1' && IsDigit(p[6])
    && p[7] == '-'
    && '0' <= p[8] <= '3' && IsDigit(p[9])
  }

  /** The three token classes are disjoint, so a token plays at most one
      part in a pattern. */
  lemma ClassesDisjoint(p: string)
    ensures !(IsDay(p) && IsMonth(p))
    ensures !(IsDay(p) && IsYear(p))
    ensures !(IsMonth(p) && IsYear(p))
  {
    if IsMonth(p) {
      assert IsLetter(p[0]) && |p| >= 3;
    } else if IsYear(p) {
      assert IsDigit(p[2]) && !IsLetter(p[2]);
    }
  }

  /** The day field, chosen by the token's length alone. */
  function ExtractDay(p: string): (d: string)
    ensures IsDay(p) ==> |d| == 2 && IsDigit(d[0]) && (IsDigit(d[1]) || IsLetter(d[1]))
  {
    if |p| == 4 then p[..2]
    else if |p| == 3 then "0" + p[..1]
    else if |p| == 2 then p
    else "0" + p
  }

  /** The month field: the table's number, or "" (Go's zero value) for a
      token that is not in the table. */
  function ExtractMonth(p: string): (m: string)
    ensures IsMonth(p) ==> IsMonthNumber(m)
    ensures !IsMonth(p) ==> m == ""
  {
    if p in Months then Months[p] else ""
  }

  /** How many leading digits a day token has. */
  function DayDigits(p: string): nat {
    if |p| >= 2 && IsDigit(p[1]) then 2 else 1
  }

  /** A day number zero-padded to two digits. */
  function Pad2(digits: string): string {
    if |digits| == 1 then "0" + digits else digits
  }

  /** ExtractDay strips the suffix and zero-pads the number exactly when the
      suffix is not a single letter (or the number is "00"): "3", "19", "3rd"
      and "22nd" come out as "03", "19", "03" and "22", while "12x" gives "01"
      and "1x" stays "1x". */
  lemma ExtractDayPadsNumber(p: string)
    requires IsDay(p)
    ensures DigitsThenLetters(p, DayDigits(p))
    ensures ExtractDay(p) == Pad2(p[..DayDigits(p)]) <==> (|p| - DayDigits(p) != 1 || p[..2] == "00")
    ensures |p| - DayDigits(p) == 1 ==> ExtractDay(p) == (if |p| == 3 then "0" + p[..1] else p)
  {
    if |p| == 2 && DayDigits(p) == 1 {
      assert ExtractDay(p)[1] != Pad2(p[..1])[1];
    } else if |p| == 3 && DayDigits(p) == 2 {
      if p[..2] != "00" {
        assert p[0] != '0' || p[1] != '0';
        assert ExtractDay(p)[0] != p[0] || ExtractDay(p)[1] != p[1];
      }
    }
  }
}
