# logdebarker: a verified model of the redaction filter

logdebarker is a line-oriented filter. It reads text and replaces every
occurrence of a configured blocked word with a redaction token. Lines whose
first visible character is `#` pass through unchanged.

The configuration is `~/.blocked_words.txt`. The filter refuses to start
unless that file's permission bits are exactly `0700`. The file holds one
blocked word per line. A `redaction: <token>` line sets the token, which
defaults to `redacted`. Blank lines and `#` lines are ignored.

This project models the filter's four pieces of logic in Dafny and proves
what each of them does:

- `wrappers.dfy` (module `Wrappers`): the `Result` and `Option` types. A
  `Failure` stands for the filter's fatal log-and-exit calls.
- `text.dfy` (module `Text`): the Go string primitives the filter relies on.
  - `strings.TrimSpace`, with Go's own white-space set.
  - `strings.HasPrefix` and `strings.TrimPrefix`.
  - The literal, leftmost, non-overlapping replace-all that a quoted
    regular expression performs. `ReplaceAll` also follows Go on the empty
    pattern, which inserts the replacement at every position.
- `config.dfy` (module `Config`): the configuration loader.
  - The permission check on the mode bits.
  - The classification of one configuration line.
  - The loader's loop as a method, `LoadBlockedWords`.
  - The loader's meaning as a function, `ParseConfig`.
  - A closed form, `Expected`, that the loop is proved to agree with.
  - The process-wide `blockedWords` and `redaction` variables become the
    immutable `BlockedWordConfig` value that loading returns.
- `censor.dfy` (module `Censoring`): `censorLine`.
  - A left fold, `Censor`, of one replace-all pass per word in load order.
  - The loop method `CensorLine`, proved equal to the fold.
  - Separately, the replacement as the Go code actually performs it. This
    is the subject of the Findings section below.
- `process.dfy` (module `Processing`): `process`, the line loop, as a
  method over already-split input lines. It yields one output line per
  input line.

In these cases the code and its documented intent differ, and the model
follows the code:

- The documented intent is that the token may be set only once. The code
  (main.go:46) fails on a `redaction:` line only when the token in force is
  no longer `redacted`. So `redaction: redacted` followed by another
  directive loads without error, and the second value wins (see
  `Config.RepeatedDirective`).
- Censoring is documented as idempotent whenever the token matches no
  blocked word. It is not: see `Censoring.NotIdempotent`.

In one case the model has both readings, and the rest of the model uses the
documented one. The token is documented as inserted literally, but the code
passes it to `ReplaceAllString`, which expands `$` references (see
"Findings"). `CensorAsWritten` is the code as written. `Censor`,
`CensorLine`, `ProcessLine` and `Process` insert the token literally. The
two readings agree on every token without `$`.

## Model

| member | source | states |
|---|---|---|
| `Text.IsSpace` | main.go:41 | defined by Go's white-space set (`unicode.IsSpace`): tab, newline, vertical tab, form feed, carriage return, space, U+0085, U+00A0, U+1680, U+2000 to U+200A, U+2028, U+2029, U+202F, U+205F, U+3000 |
| `Text.TrimSpace` | main.go:41 | the result has no white space at either end and is no longer than the input |
| `Text.TrimSpaceOfTrimmed` | main.go:41 | trimming a string without white space at its ends returns it unchanged |
| `Text.TrimSpaceIdempotent` | main.go:41 | trimming twice is trimming once |
| `Text.LeadingSpaceOfBlanks` | main.go:71 | the leading white space of blanks followed by a visible character is exactly those blanks |
| `Text.TrimSpaceFirstVisible` | main.go:71 | after trimming, the first visible character of a line is the first character |
| `Text.StartsWithIsHasPrefix` | main.go:42 | the one-character test used for `#` is `strings.HasPrefix` with the prefix `#` |
| `Text.TrimSpaceLeadingBlank` | main.go:49 | one blank before a trimmed value is removed by trimming |
| `Text.TrimPrefixOfConcat` | main.go:49 | `TrimPrefix` removes exactly a prefix that is present |
| `Text.ReplaceAll` | main.go:61 | literal, leftmost, non-overlapping replace-all of a quoted pattern; its contract is carried by the lemmas below, which pin it down (`ReplaceAbsent` and `ReplaceFirstOccurrence`) |
| `Text.ReplaceAbsent` | main.go:61 | replacing a non-empty word that does not occur leaves the text unchanged |
| `Text.ReplaceFirstOccurrence` | main.go:61 | replace-all replaces the leftmost occurrence, keeps the text before it, and continues after the match |
| `Text.FirstCharAbsent` | main.go:61 | no occurrence of a word can start in text lacking the word's first character |
| `Text.ReplaceSingle` | main.go:61 | a single occurrence with no room for another is replaced and everything around it is kept |
| `Text.ReplaceBySelf` | main.go:61 | replacing a word by itself is the identity, whatever the word |
| `Text.ReplaceRoundTrip` | main.go:61 | replacing a word by a fresh character and that character back by the word restores the text |
| `Text.ReplaceAbsentChar` | main.go:61 | replacing a character that does not occur leaves the text unchanged |
| `Config.CheckPermission` | main.go:26-29 | accepts exactly when the owner has read, write and execute and group and others have nothing; a refusal reports the permission bits found |
| `Config.WorldReadableRefused` | main.go:26-29 | mode `0644` is refused and reported as `0644` |
| `Config.LoadConfig` | main.go:95-96 | a bad mode fails with the permission error before any line is parsed; a good mode yields the parse of the lines |
| `Config.Classify` | main.go:41-52 | a line that becomes a word is the trimmed line, non-empty, starting with neither `#` nor `redaction:`; a directive's value is trimmed |
| `Config.ClassifyTrimmed` | main.go:42-52 | the same, for an already trimmed line |
| `Config.ClassifyAll` | main.go:40-41 | one classification per line, in order: the i-th kind is the classification of the i-th line, and each is well formed |
| `Config.SkipLineClassified` | main.go:42-44 | a line that trims to nothing or starts with `#` after trimming is skipped |
| `Config.WordLineClassified` | main.go:52 | any other line that is not a directive is the word made of the trimmed line |
| `Config.Step` | main.go:42-52 | one turn of the loop fails exactly when a directive meets a token other than `redacted`, and then only with the repeated-directive error; a line other than a directive leaves the token as it is |
| `Config.ParseFrom` | main.go:40-53 | the loop from a given state over the remaining lines stops at the first error, and the only error is the repeated directive |
| `Config.LoadOneLine` | main.go:40-53 | one turn of the loop over the raw lines: classify the current line, step, and go on from the next |
| `Config.WordsOnlyAppended` | main.go:52 | a successful run from any state keeps the words it started with and appends the file's words in order |
| `Config.ParseConfig` | main.go:32-57 | for the lines the model can represent, loading fails only with the repeated-directive error; on success every word is a well-formed blocked word and the token is trimmed |
| `Config.ParseFromSpec` | main.go:40-53 | from any state, the loop equals the closed form: words appended in file order, the token after the last directive, failure iff some directive meets a non-default token |
| `Config.InitialClosedForm` | main.go:15-53 | from the initial state the closed form reduces to: success iff every directive but the last has the value `redacted`, with the last value as the token |
| `Config.InitialOutcome` | main.go:15-53 | from the initial state (no words, token `redacted`) the loop equals `Expected` |
| `Config.ParseConfigSpec` | main.go:32-57 | loading fails exactly when a directive other than the last has a value other than `redacted`; otherwise the words are those of the file in order and the token is the last directive's value, or `redacted` if there is none |
| `Config.WordsOfWordLines` | main.go:41-52 | the words loaded are the trimmed lines that are non-empty and start with neither `#` nor `redaction:` |
| `Config.LoadedWordsInFileOrder` | main.go:52 | a successful load holds exactly those trimmed word lines, in file order |
| `Config.ParseFromAppend` | main.go:40-53 | loading a file in two pieces is loading the first, then continuing from its state over the second; an error in the first piece stops everything |
| `Config.SkippedLineIrrelevant` | main.go:41-44 | inserting a blank or `#` line anywhere in the file does not change the outcome |
| `Config.CommentedDirectiveSkipped` | main.go:42-45 | `#redaction: x` is a comment, not a directive |
| `Config.DirectiveLineClassified` | main.go:45-49 | a line whose trimmed form starts with `redaction:` is a directive whose value is the trimmed remainder after `TrimPrefix` |
| `Config.ClassifyDirective` | main.go:45-49 | `redaction: v` is the directive with value `v` |
| `Config.RepeatedDirective` | main.go:45-49 | two directives in a row load when the first value is `redacted`, with the second value as the token, and fail otherwise |
| `Config.DirectiveThenWord` | main.go:45-52 | a directive then a word yields that word and that token |
| `Config.DirectiveThenWordFile` | main.go:45-52 | a file with a directive line then a word line loads to that word and that token |
| `Config.LoadBlockedWords` | main.go:32-57 | the loop over the lines returns exactly `ParseConfig` of the lines |
| `Censoring.Censor` | main.go:59-64 | the left fold of one replace-all pass per word, in load order, with the token inserted literally; its properties are the lemmas below |
| `Censoring.CensorAppend` | main.go:60-62 | censoring with `ws1 + ws2` is censoring with `ws1` and then, on the result, with `ws2` |
| `Censoring.CensorUntouched` | main.go:59-64 | a line in which no non-empty blocked word occurs is unchanged, including when there are no words |
| `Censoring.WordRedacted` | main.go:61 | a line that is exactly the blocked word becomes exactly the token |
| `Censoring.NotIdempotent` | main.go:59-64 | with the word `ab` and the token `a`, `abb` censors to `ab`, which censors again to `a` |
| `Censoring.SubstringMatch` | main.go:61 | `cat` with the token `X` turns `concatenate` into `conXenate` |
| `Censoring.SequentialPasses` | main.go:60-62 | `ab` then `ba` with the token `*` turn `abba` into `**` |
| `Censoring.OrderMatters` | main.go:60-62 | `aba` censors to `*a` under `ab, ba` and to `a*` under `ba, ab` |
| `Censoring.CensorLine` | main.go:59-64 | the loop over the words returns the fold `Censor` |
| `Censoring.ExtractReference` | main.go:61 | an extracted reference splits the text exactly: a bare name is the longest run of name characters (`$1x` names `1x`), and a braced name is followed by `}`; the name is non-empty |
| `Censoring.BareReferenceExtracted` | main.go:61 | every non-empty bare name cut at a non-name character is extracted, so a bare reference is refused only when no name character follows the `$` |
| `Censoring.BracedReferenceExtracted` | main.go:61 | every non-empty name in braces is extracted, whatever follows the `}` |
| `Censoring.Expand` | main.go:61 | the replacement `ReplaceAllString` inserts for one match, following Go's template rules; its properties are the lemmas below |
| `Censoring.CensorAsWritten` | main.go:59-64 | censorLine as written: each match is replaced by the expansion of the token for that match |
| `Censoring.ExpandLiteral` | main.go:61 | a token without `$` is inserted as it is |
| `Censoring.AsWrittenAgreesWithoutDollar` | main.go:61 | for a token without `$`, censoring as written equals literal censoring |
| `Censoring.ExpandDollarZero` | main.go:61 | `$0` expands to the matched word |
| `Censoring.ExpandBracedZero` | main.go:61 | `${0}` expands to the matched word |
| `Censoring.ExpandDollarDollar` | main.go:61 | `$$` expands to one `$` |
| `Censoring.ExpandOtherName` | main.go:61 | `$1`, a name the quoted pattern has no group for, expands to nothing |
| `Censoring.ExpandMalformedKept` | main.go:61 | a `$` that begins no reference is kept as it is |
| `Censoring.DollarZeroRedactsNothing` | main.go:61 | with the token `$0`, censoring as written leaves every line unchanged |
| `Censoring.DollarZeroLeaksSecret` | main.go:61 | with the token `$0`, `secret` survives as written but becomes `$0` under literal censoring |
| `Processing.ProcessLine` | main.go:71-76 | what is written for one line: the line itself if its trimmed form starts with `#`, otherwise its censored form |
| `Processing.Process` | main.go:66-82 | one output line per input line, in order; a comment line is written verbatim; every other line is written censored |
| `Processing.IndentedCommentKept` | main.go:71-73 | a `#` line is kept verbatim however far it is indented, whatever blocked words it holds |
| `Processing.CleanLineKept` | main.go:71-76 | a line in which no blocked word occurs is written unchanged |
| `Processing.BlockedLineRedacted` | main.go:75-76 | a line that is exactly the single blocked word is written as the token |
| `Processing.CustomTokenExample` | main.go:45-76 | the file `redaction: ***`, `secret` loads to that word and token, under which `top secret plan` is written as `top *** plan` |

## Left out

- `main` (main.go:84-123) is not modelled. It covers argument dispatch, `user.Current`, the path of the configuration file, and opening and creating files. This is operating-system and command-line plumbing; `Config.LoadConfig` keeps its one piece of logic, the order "check permissions, then load" (main.go:95-96).
- `isInputFromTerminal` (main.go:125-131) is not modelled. It is a device-mode query on standard input.
- I/O errors are not modelled: the failures of `os.Stat` (main.go:21-24), of `os.Open` (main.go:33-36) and of the scanners (main.go:54-56, 79-81).
- `bufio.Scanner` is not modelled. Input is a sequence of already-split lines. The scanner's 64 KiB line limit and its stripping of a trailing `\r` are not modelled.
- `bufio.Writer` is not modelled. Output is the sequence of written lines. The newline `Fprintln` adds after each line, and `Flush`, are not modelled.
- `log.Fatalf` becomes a `Failure` value. Its message text and the process exit are not modelled.
- The file mode is modelled as a 32-bit word with Go's `Perm` mask (`0777`). The other mode bits are masked off as in Go.
- Strings are sequences of Unicode code points, whereas Go strings are bytes. `TrimSpace` follows Go's white-space set on valid UTF-8. Its handling of invalid UTF-8 is not modelled.
- A word line that is not valid UTF-8 makes `regexp.MustCompile` (main.go:52) panic, because `QuoteMeta` copies its bytes unchanged and Go's regexp parser rejects invalid UTF-8. A configuration saved in Latin-1 holding `café` stops the filter at start-up. The model's strings cannot represent such a line, so `Config.ParseConfig` and `Config.LoadBlockedWords` never fail this way.
- The regular-expression engine is replaced by the literal replace-all it computes on a quoted pattern. The configuration never yields an empty pattern, since blank lines are skipped.
- `Text.TrimSpace`: the contract says only that the result is trimmed and no longer than the input. That it is the input minus its outer white space is stated by `LeadingSpace` and `TrailingSpace`, through the definition.
- `Censoring.CensorLine`: inserts the token literally. main.go:61 expands `$` references in it, so the two differ for a token that contains `$` (see "Findings").
- `Censoring.Censor`: inserts the token literally, where main.go:61 expands `$` references in it. The two differ for a token that contains `$` (see "Findings").
- `Processing.ProcessLine`: censors a non-comment line with `Censoring.Censor`, so it inserts the token literally. It therefore differs from main.go:75 for a token that contains `$` (see "Findings").
- `Processing.Process`: writes lines censored by `Censoring.Censor`, with the token inserted literally. It therefore differs from main.go:75 for a token that contains `$` (see "Findings").
- `Censoring.ExtractReference`: names are limited to ASCII letters, digits and `_`. Go also accepts any Unicode letter or digit, so a `$` followed by, say, `é` expands to nothing in Go but is kept in this model.
- Idempotence of censoring is not a property of the filter, so no such lemma is stated; `Censoring.NotIdempotent` gives the counterexample.

## Findings

| source | as written | input that shows it | evidently intended | confidence | as-written member | corrected member |
|---|---|---|---|---|---|---|
| main.go:61 | `ReplaceAllString` treats the token as a template: `$0` and `${0}` re-insert the matched word, `$$` becomes `$`, and any other `$name` expands to nothing | the configuration `redaction: $0` with the blocked word `secret`: the line `secret` is written as `secret` | every occurrence replaced by the token text as configured (`ReplaceAllLiteralString`) | not executed; follows from the documented expansion rules of Go's `regexp` package | `Censoring.DollarZeroLeaksSecret` | `Censoring.WordRedacted` |

The code as written is `Censoring.CensorAsWritten`, which inserts
`Expand(token, word)` for each match. `Censoring.DollarZeroRedactsNothing`
proves that the token `$0` makes it redact nothing at all.
`Censoring.AsWrittenAgreesWithoutDollar` proves that the two readings
agree for every token without `$`. The rest of the model uses the literal
reading, `Censoring.Censor`.
