# magmv rename, in Dafny

magmv renames downloaded periodical files, for example
`The.Economist-09.August.2014.pdf`, to a sortable form,
`economist.the.2014-08-09.pdf`. The model covers the pure core of the Go
program in `main.go`. That core is `rename(name)` and its helpers:

- the lower-casing tokenizer over the delimiter class `[()[\] .-]+`;
- the six positional day/month/year patterns of `extractDate`;
- the token classifiers (`isDay`, `isMonth`, `isYear`, `isDate`) and the
  month table;
- the field extractors `extractDay` and `extractMonth`;
- the already-renamed check;
- the final assembly: drop `truepdf`, move a leading `the` to the back, and
  append the date and the extension.

Modules, one per file:

- `GoStrings`: the Go library functions rename calls. These are
  `strings.ToLower`, `strings.Split` and `strings.Join` with a one-character
  separator, and `path.Ext`.
- `Tokenizer`: the `partsRX.Split(s, -1)` cut at maximal delimiter runs.
  Tokens and separators are defined recursively. The cut is proved to be
  the only split whose interleaving is the input, among splits into:
  - delimiter-free tokens;
  - non-empty delimiter runs;
  - non-empty interior tokens (so that runs are maximal).
- `Fields`: the banned set, the month table, and the classifiers written as
  predicates on characters. Also `ExtractDay` and `ExtractMonth`.
- `Matcher`: `extractDate` as the six-branch chain, exactly as written. It
  is shown equal to a first-match search over a table of the six patterns.
- `Renamer`: `isAlreadyRenamed` as a loop with an early return. `NewName` is
  the specification of `rename`, and the method `Rename` follows the source
  step by step: the filtering loop over the title, the rotation of `the`,
  and the appends. It is proved equal to `NewName`. The lemmas about
  `NewName` prove:
  - exactly when rename panics, and with which fault;
  - that a name no pattern matches comes back unchanged;
  - the `.`-pieces of a new name: the kept title in order, a leading `the`
    moved last, no banned token, then the date and the extension;
  - that a name without `/` stays without `/`;
  - that renaming a new name again leaves it unchanged when its date passes
    `isDate` or its extension holds no delimiter (as `.pdf` does).
- `Vectors`: rows of `main_test.go`, plus one name for each of the three
  ways rename panics.

A Go panic is modelled as a result, not as a precondition:
`Outcome.Panic(fault)`. The faults are:

- `PathGiven`: the name contains `/` (main.go:190-192).
- `EmptyTitle`: every title token was banned. Nothing guards against this,
  and `correctedParts[0]` is read from the empty list (main.go:216).
- `NoExtension`: the name has no `.`, so `path.Ext` returns `""` and
  `ext[1:]` fails (main.go:220-221).

The extension in the new name keeps the case it has in the original name.
This is because it is taken from `path.Ext(original)` (main.go:220), not
from the lower-cased tokens.

## Model

| member | source | states |
|---|---|---|
| GoStrings.Lower | main.go:102 | lower-casing keeps the length of the name |
| GoStrings.LowerCase | main.go:102 | lower-casing leaves no upper-case ASCII letter and changes each character only in case |
| GoStrings.LowerKeeps | main.go:102 | lower-casing neither adds nor removes a non-letter such as '/' |
| GoStrings.SplitOn | main.go:161 | strings.Split gives at least one piece, and no piece holds the separator |
| GoStrings.SplitJoin | main.go:161 | splitting on '.' recovers the pieces of a '.'-join whose pieces hold no '.' |
| GoStrings.Join | main.go:224 | strings.Join: the pieces in order with the separator between neighbours (its inverse is SplitOn, by SplitJoin and JoinSplit) |
| GoStrings.JoinSplit | main.go:224 | joining the pieces of a split gives the string back |
| GoStrings.JoinChars | main.go:224 | a joined string holds no character that is absent from the separator and from every piece |
| GoStrings.Ext | main.go:220 | path.Ext is "" or a suffix of the name that starts with '.' and has no further '.'; for a name without '/' it is "" exactly when the name has no '.' |
| Tokenizer.Tokenize | main.go:106 | the split always yields at least one token |
| Tokenizer.TokenizeIsRunSplit | main.go:97 | tokens hold no delimiter; separators are non-empty delimiter runs; only the first and the last token may be empty |
| Tokenizer.TokenizeWeave | main.go:106 | putting the separators back between the tokens gives the lower-cased name again |
| Tokenizer.RunSplitIsTokenize | main.go:97 | any split into delimiter-free tokens and maximal runs that weaves back to the string is the tokenizer's own |
| Tokenizer.TokenChars | main.go:106 | every character of a token occurs in the split string |
| Tokenizer.TokenizeAfterRun | main.go:104-106 | when a name ends in a delimiter and the added text is non-empty and does not start with a delimiter, the tokens of the name followed by that text end with exactly the tokens of the added text |
| Tokenizer.TokenizeEnds | main.go:104-106 | "" gives [""]; the first (last) token is empty exactly when the name starts (ends) with a delimiter |
| Fields.Banned | main.go:59-61 | the banned tokens: only "truepdf" |
| Fields.Months | main.go:69-93 | the 23 month names, full and abbreviated, and their numbers "01".."12" |
| Fields.IsDay | main.go:171-173 | dayRX (main.go:67): one or two digits, then at most two ASCII letters |
| Fields.IsMonth | main.go:179-182 | the token is a key of the month table |
| Fields.IsYear | main.go:184-186 | yearRX (main.go:99): exactly four digits |
| Fields.IsDate | main.go:175-177 | dateRX (main.go:64): [1-9] then three digits, '-', [01] and a digit, '-', [0-3] and a digit |
| Fields.ClassesDisjoint | main.go:171-186 | no token is both a day and a month, a day and a year, or a month and a year |
| Fields.ExtractDay | main.go:140-154 | for every token isDay accepts, the day field has two characters: a digit, then a digit or a letter |
| Fields.ExtractDayPadsNumber | main.go:140-154 | extractDay zero-pads the day's digits exactly when its suffix is not a single letter (or the digits are "00"); "12x" gives "01" and "1x" stays "1x" |
| Fields.ExtractMonth | main.go:156-158 | a month-table key maps to a number "01".."12"; any other token gives "" |
| Matcher.DateOf | main.go:111-135 | year + "-" + month + "-" + day is 10 characters long, with '-' at 4 and 7, the year first, the month's number and then the day field |
| Matcher.MatchDate | main.go:107-137 | the chain gives ([], "") or a date-shaped date with a non-empty title that is a prefix of the tokens and ends at least four tokens before the end |
| Matcher.ExtractDate | main.go:101-138 | extractDate gives ([], "") or a date-shaped date with a non-empty title of delimiter-free tokens |
| Matcher.TitleLowerCase | main.go:102-106 | no title token that extractDate returns holds an upper-case letter |
| Matcher.DateShapedIsDate | main.go:64 | a pattern-written date passes isDate exactly when its year does not start with 0 and its day field is two digits starting with 0 to 3 |
| Matcher.WrittenTailNeverMatches | main.go:111-134 | no pattern accepts tokens that end in a year, a month number, a two-character day field and one more token, which is the tail of every new name whose extension holds no delimiter (DateExtTokens) |
| Matcher.DateExtTokens | main.go:101-106 | the lower-cased tail "date.ext" of a new name, for an extension without delimiters, cuts into the year, the month number, the day field and the extension |
| Matcher.PatternsGuarded | main.go:111-134 | each pattern's length guard makes every index it reads valid and leaves a non-empty title |
| Matcher.MatchDateIsFirstMatch | main.go:111-137 | the if/else-if chain equals the first-match search over the six-entry pattern table |
| Matcher.FirstMatchWins | main.go:111-135 | the earliest matching pattern decides the title and the date |
| Matcher.FirstMatchNone | main.go:135-137 | the result is ([], "") exactly when no pattern matches |
| Renamer.IsAlreadyRenamed | main.go:160-169 | the loop returns true exactly when some '.'-piece of the name is a date of the form [1-9]ddd-[01]d-[0-3]d |
| Renamer.WithoutBanned | main.go:208-213 | a token survives filtering exactly when it occurs in the title and is not banned |
| Renamer.WithoutBannedConcat | main.go:209-213 | filtering distributes over concatenation, so the kept tokens keep their order |
| Renamer.ArticleLast | main.go:215-218 | moving a leading "the" to the back is a permutation of the kept tokens |
| Renamer.Rename | main.go:188-225 | the filtering loop, the rotation and the appends compute NewName, including each panic |
| Renamer.UnparseableUnchanged | main.go:201-206 | a name without '/' on whose tokens no pattern matches comes back unchanged |
| Renamer.NewNamePanics | main.go:188-221 | rename panics exactly when the name contains '/' (PathGiven), or when it is not already renamed, a pattern matches, and either every title token is banned (EmptyTitle) or the name has no '.' (NoExtension) |
| Renamer.NewNamePieces | main.go:208-224 | the '.'-pieces of the new name: the kept tokens with a leading "the" moved last, no banned token, then the date, then the extension |
| Renamer.NewNameHasNoSlash | main.go:188-225 | a renamed name without '/' stays free of '/' |
| Renamer.NewNameIdempotent | main.go:188-225 | renaming the new name again returns it unchanged when its date passes isDate (the already-renamed check, main.go:197-199, stops it) or its extension holds no delimiter (no pattern matches, main.go:201-206) |
| Vectors.EmptyNameKept | main_test.go:22 | "" is returned unchanged |
| Vectors.UnrelatedNameKept | main_test.go:25 | "hello" is returned unchanged |
| Vectors.HelloPdfKept | main_test.go:26 | "hello.pdf" is returned unchanged |
| Vectors.YearPdfKept | main_test.go:28 | "2016.pdf" is returned unchanged |
| Vectors.HelloYearPdfKept | main_test.go:29 | "hello.2016.pdf" is returned unchanged |
| Vectors.EarlierPatternMatch | main_test.go:47 | patterns 2 and 5 both fit [the, economist, 11th, july, 17th, truepdf, july, 2015, pdf]; the earlier one wins with day 11 |
| Vectors.FifthBeforeSixthMatch | main_test.go:55 | patterns 5 and 6 both fit [the, new, yorker, truepdf, 22, 29, december, 2014, pdf]; the earlier one wins with day 22 |
| Vectors.FooFirstMatch | main.go:111-134 | the tokens of "Foo.1x may 2016 pdf" match the sixth pattern and give the title [foo] and the date "2016-05-1x", which fails isDate |
| Vectors.FooSecondMatch | main.go:111-130 | the tokens of that name's new name "foo.2016-05-1x.1x may 2016 pdf" match the fifth pattern again and give a different title, [foo, 2016, 05], so renaming is not idempotent there |
| Vectors.RenamedNameKept | main_test.go:32 | "economist.the.2014-08-09.pdf" is already renamed and returned unchanged |
| Vectors.EconomistRenamed | main_test.go:36 | "The.Economist-09.August.2014.pdf" becomes "economist.the.2014-08-09.pdf" |
| Vectors.SlashPanics | main.go:190-192 | "a/b.pdf" is a path, so rename panics |
| Vectors.BannedTitlePanics | main.go:216 | "TruePDF-09.August.2014.pdf" parses, but its whole title is banned, so rename panics |
| Vectors.DotlessPanics | main.go:220-221 | "The Economist 09 August 2014 issue" parses but has no '.', so rename panics |

## Left out

- `main` (main.go:12-53) is not modelled. It covers flag parsing, the
  existence check, `path.Base`/`path.Join`, the preview line and `os.Rename`,
  all of which are command-line and file-system I/O.
- The debug `fmt.Printf` in `extractDate` (main.go:109) has no effect on the
  result.
- The regular expressions `dayRX`, `yearRX`, `dateRX` and `partsRX` are
  written as predicates on characters. No regular-expression engine is
  modelled.
- `strings.ToLower` is modelled for ASCII letters only. Other characters
  pass through unchanged, so Unicode case mapping is not captured.
- `path.Ext` is modelled as the scan back to the last `.`, which stops at a
  `/`. Other path handling in Go's `path` package is not modelled, because
  rename rejects names containing `/`.
- Calendar validity (month lengths, day ranges) is not modelled. The source
  checks only digit shapes.
- NewNameIdempotent is proved when the written date passes `isDate` (a year
  not starting with 0, and a day field of two digits whose first is 0 to 3),
  or when the extension holds no delimiter. Renaming can fail to be
  idempotent only when both conditions fail. For example,
  `Foo.1x may 2016 pdf` becomes `foo.2016-05-1x.1x may 2016 pdf`. The date
  `2016-05-1x` fails `isDate`, and the extension `1x may 2016 pdf` holds
  spaces, so a second rename tokenizes again and matches the fifth pattern on
  `[foo, 2016, 05, 1x, 1x, may, 2016, pdf]`, which gives a different name.
  The example is checked on the pattern chain only (FooFirstMatch and
  FooSecondMatch), not as a lemma of the whole rename.
- The other rows of `main_test.go` (main_test.go:27, main_test.go:33,
  main_test.go:37-55) are not restated as lemmas of the whole rename; rows
  47 and 55 are restated for the pattern chain only. The rows that are cover:
  - the unparseable branch;
  - the already-renamed branch;
  - the renaming branch;
  - all three panics.
