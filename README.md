# dotenvconfig in Dafny

A model of the `dotenvconfig` Go library, with proofs. The library loads application configuration from
`.env` files. The model covers:

- the internal line parser (`internal/parser`);
- the configuration value and its operations (`config.go`): `GetKey`, `GetKeyAsInt`, `NewConfig`,
  `WithEnvironment` and `Load`;
- the two rules that choose which `.env` file to read (`internal/environment`, `internal/profile`).

Modules, one per file:

- `Wrappers`: `Option` and `Result`.
- `Bytes`: the three helpers of Go's `bytes` package that the parser uses.
  - `TrimSpace` takes Unicode white space off both ends.
  - `Split` gives the pieces between separators; `Split` of the empty text is one empty piece.
  - `SplitAtFirst` models `SplitN(s, sep, 2)`: it splits at the first separator.
- `Parser`: `Parse` is the imperative loop of the source. It is proved equal to the pure
  function `ParseText`: classify each line, then fold the classified lines into a map. The
  lemmas about `ParseLines` give the meaning of a parse:
  - which keys are defined;
  - that the last definition of a key wins;
  - that blank and comment lines are irrelevant;
  - that the first malformed line aborts the parse.
- `Strconv`: `strconv.Atoi` on 64-bit integers. `Itoa` is a right inverse: `Atoi(Itoa(n)) == Some(n)`.
  The converse fails, since `+7` and `007` also convert to 7.
- `Environment`, `Profile`: the file-name choice. A variable that is present wins, even if it is
  empty. Otherwise a non-empty fallback is used, otherwise `default`. `.env` is appended.
- `Config`: `Config` is a value type, as in Go. Methods with value receivers become functions that
  return the new value.
  - The process environment is a map parameter `osEnv`.
  - The file store is `Option<map<string, string>>`, where `None` is the nil `fs.FS`.
  - The godotenv decoder is a function parameter `unmarshal` that returns the entries and an
    optional error.
  - `GetKey` is tied to the reference map `Effective`: the configuration map overridden by every
    non-empty environment variable.

The environment and profile selectors test only that the variable is present (`os.LookupEnv`,
internal/environment/environment.go:24 and internal/profile/profile.go:24). A variable set to the
empty string therefore still wins: `Environment.EmptyVariableWins` proves it selects the file `.env`.

## Model

| member | source | states |
|---|---|---|
| Bytes.TrimSpace | internal/parser/parser.go:15 | the trimmed text has no white space at either end and is no longer than the input |
| Bytes.TrimSpaceOfPadded | internal/parser/parser.go:15 | white space around a core that has none at its edges is removed, and exactly the core is left |
| Bytes.TrimSpaceOfTrimmed | internal/parser/parser.go:15 | text with no white space at its edges is left unchanged |
| Bytes.TrimSpaceIdempotent | internal/parser/parser.go:27-28 | trimming twice is trimming once |
| Bytes.Split | internal/parser/parser.go:11 | there is at least one piece, and no piece holds the separator |
| Bytes.JoinSplit | internal/parser/parser.go:11 | joining the pieces with the separator gives back the text |
| Bytes.SplitJoin | internal/parser/parser.go:11 | splitting the join of separator-free pieces gives back the pieces |
| Bytes.SplitAtFirst | internal/parser/parser.go:22-23 | no result iff the separator is absent; otherwise text = before + separator + after, with no separator in before |
| Bytes.SplitAtFirstUnique | internal/parser/parser.go:22 | the split happens at the first separator, so everything after it (more `=` included) is the second part |
| Parser.Message | internal/parser/parser.go:24 | the error text is `error parsing line: ` followed by the trimmed line |
| Parser.ClassifyLine | internal/parser/parser.go:15-28 | skipped iff the trimmed line is empty or starts with `#`; malformed iff the trimmed line is neither of those and has no `=`, and then it carries the trimmed line; a pair has trimmed key and value and no `=` in the key |
| Parser.ClassifySplitPair | internal/parser/parser.go:22-29 | when the trimmed line is `before` + `=` + `after` with no `=` in `before`, the pair is the trimmed `before` and the trimmed `after` |
| Parser.ClassifiesSpacedPair | internal/parser/parser.go:27-28 | `KEY = VALUE` gives key `KEY` and value `VALUE`: spaces around the `=` are dropped |
| Parser.ClassifiesEmptyKey | internal/parser/parser.go:22-29 | a line starting with `=` is accepted, with the empty key |
| Parser.Classify | internal/parser/parser.go:14-15 | one classification per line, in order |
| Parser.Parse | internal/parser/parser.go:10-33 | the loop returns exactly `ParseText(data)`; its invariant is that the map built so far is the parse of the lines seen so far |
| Parser.FailureExtends | internal/parser/parser.go:23-25 | once a prefix fails, the whole parse fails with the same error |
| Parser.ParseFailsAtFirstMalformed | internal/parser/parser.go:22-25 | the parse fails iff some line is malformed, and the error carries the text of the first such line |
| Parser.SkippedLineContributesNothing | internal/parser/parser.go:17-20 | inserting a blank or comment line anywhere does not change the result |
| Parser.ParsedEntries | internal/parser/parser.go:27-29 | on success the key set is the set of keys defined by pair lines, and each key maps to the value of its last definition |
| Parser.ParsedEntriesTrimmed | internal/parser/parser.go:27-28 | keys and values of a successful parse have no white space at their edges |
| Parser.ParseTextOfLines | internal/parser/parser.go:11 | text joined from newline-free lines parses as those lines' classifications |
| Parser.ClassifyPlainPair | internal/parser/parser.go:22-29 | `KEY=VALUE` with trimmed halves and no `=` in the key is that pair |
| Parser.ClassifyByTrimmedText | internal/parser/parser.go:15 | a line is classified by its trimmed text alone |
| Parser.ClassifiesIndented | internal/parser/parser.go:15 | a tab-indented pair is the same pair |
| Parser.ParsesSinglePair | internal/parser/parser.go:10-33 | a file holding only `TEST_KEY=123` parses to that single entry |
| Parser.ParsesTwoLines | internal/parser/parser_test.go:51-53 | `TEST_KEY=123\nTEST_KEY2=456` parses to both entries |
| Parser.ParsesLinesWithBlanksAndComments | internal/parser/parser_test.go:55-62 | the indented file with blank lines and a comment parses to the same two entries |
| Parser.RejectsLineWithoutEquals | internal/parser/parser_test.go:64-66 | `TEST_KEY,123` fails, and the error names that line |
| Parser.RejectsSingleLine | internal/parser/parser.go:11-25 | a one-line file whose trimmed text is not empty, not a comment and has no `=` fails, and the error carries that trimmed text |
| Parser.ValueMayContainEquals | internal/parser/parser.go:22 | `URL=a=b` gives key `URL` and value `a=b` |
| Strconv.Atoi | config.go:45-48 | a result is always in the 64-bit range; it needs an optional sign followed only by digits; the result's sign follows the text's sign |
| Strconv.AtoiItoa | config.go:45 | every 64-bit integer parses back from its decimal form |
| Strconv.AtoiOfDigits | config.go:45-48 | an optional sign and one or more digits convert to their signed value when it is in the 64-bit range, and are an error otherwise |
| Strconv.PlusSignIgnored | config.go:45 | a `+` before digits gives the same result as the digits alone |
| Strconv.LeadingZeroIgnored | config.go:45 | a leading zero does not change a digit string's value |
| Strconv.AtoiLeadingZero | config.go:45 | a leading zero after the sign does not change the conversion |
| Strconv.ConvertsPlusSign | config.go:45 | `+7` converts to 7 |
| Strconv.ConvertsLeadingZeros | config.go:45 | `007` converts to 7 |
| Strconv.ConvertsNegativeZero | config.go:45 | `-0` converts to 0 |
| Strconv.ConvertsDecimal | config_test.go:241-251 | `123` converts to 123 |
| Strconv.RejectsLetters | config_test.go:263-273 | a value with letters is an error |
| Strconv.RejectsNoDigits | config.go:45-48 | the empty text and a lone sign are errors |
| Strconv.ConvertsNegative | config.go:45 | `-5` converts to -5 |
| Strconv.RejectsOverflow | config.go:45-48 | one past the largest 64-bit integer is an error |
| Environment.BuildFilename | internal/environment/environment.go:39-41 | the file name is the environment name followed by `.env` |
| Environment.GetEnvironment | internal/environment/environment.go:23-37 | a present variable's value wins; else the non-empty fallback; else `default`; each gets `.env` |
| Environment.StripBuiltFilename | internal/environment/environment.go:39-41 | removing the extension undoes `BuildFilename` |
| Environment.BuildFilenameInjective | internal/environment/environment.go:39-41 | distinct names give distinct files |
| Environment.ChosenFileHasExtension | internal/environment/environment.go:23-41 | every chosen file ends in `.env` |
| Environment.EmptyVariableWins | internal/environment/environment.go:24-27 | a present but empty variable still wins, which gives the file `.env` |
| Environment.FallbackIgnoredWhenSet | internal/environment/environment.go:24-27 | while the variable is present, the fallback is irrelevant |
| Environment.OnlyTheKeyIsRead | internal/environment/environment.go:24 | no variable other than the named one affects the result |
| Environment.ChosenEnvironment | internal/environment/environment.go:23-37 | the chosen name, read back from the file name, is the variable's value, else the fallback, else `default` |
| Environment.DefaultFileChosen | internal/environment/environment.go:30-36 | `default.env` is chosen iff the variable says `default`, or the variable is absent and the fallback is `default` or empty |
| Profile.BuildFilename | internal/profile/profile.go:39-41 | the file name is the profile name followed by `.env` |
| Profile.GetProfile | internal/profile/profile.go:23-37 | the profile rule picks the same file as the environment rule for the same key and fallback |
| Profile.ChosenProfile | internal/profile/profile.go:23-41 | the file ends in `.env`; its stem is the variable's value, else the fallback, else `default` |
| Config.Message | config.go:34 | lookup errors end with the key; every load error starts with `error loading config` |
| Config.GetKey | config.go:25-36 | success iff the key is in `Effective` (map overridden by non-empty variables), and then the value is `Effective[key]`; otherwise `""` with a missing-value error |
| Config.EmptyVariableIgnored | config.go:27 | a variable set to `""` behaves exactly like an unset one |
| Config.VariableOverridesEntry | config.go:27-29 | a non-empty variable wins over the map entry |
| Config.GetKeyAsInt | config.go:39-50 | 0 on every error; missing-value error iff the key is not found; not-an-int error iff the value does not convert; otherwise the converted value |
| Config.GetKeyAsIntOfFormatted | config.go:45-49 | an entry holding the decimal form of a 64-bit integer reads back as that integer |
| Config.NewConfig | config.go:53-60 | empty map, the given store, no environment |
| Config.NewConfigSeesOnlyVariables | config.go:53-60 | a new configuration finds a key iff a non-empty variable holds it |
| Config.WithEnvironment | config.go:63-66 | only `currentEnv` changes |
| Config.WithEnvironmentLastWins | config.go:63-66 | when the environment is set twice, the second call wins |
| Config.ConfigFileName | config.go:76-83 | `{currentEnv}.env`, or `default.env` when no environment is set |
| Config.ConfigFileNameIsEnvironmentFallback | config.go:76-83 | the file name `Load` uses is what the environment rule picks from the fallback alone |
| Config.LoadAsWritten | config.go:70-96 | the store and environment are kept; no error iff the file is loadable; a nil store and a missing file are errors that leave the configuration unchanged; once the file is read the map is the decoder's, even when the decoder reports an error, which is then the cause |
| Config.Load | config.go:70-96 | success iff the store exists and the chosen file is present and decodes; then only the map changes, to the decoded entries; every error leaves the configuration unchanged and tells which step failed |
| Config.LoadAgreesWithLoadAsWritten | config.go:85-95 | both versions report the same errors and agree on success |
| Config.LoadAsWrittenDropsEntriesOnParseError | config.go:90-93 | with the code as written, a decoder error returns a configuration that differs from the original |
| Config.LoadIdempotent | config.go:85-95 | loading again after a successful load changes nothing |
| Config.LoadedEntriesAreLookedUp | config.go:90 | after a load, a key with no non-empty variable reads the decoded entry, or is missing |
| Config.ParserUnmarshal | internal/parser/parser.go:10-33 | the parser used as the decoder succeeds iff the parse succeeds; then the entries are the parsed map, and otherwise the error is the parser's message |
| Config.LoadsDefaultFile | config_test.go:52-65 | a new configuration over a store whose `default.env` holds `TEST_KEY=123` loads exactly that entry, and `TEST_KEY` reads as the integer 123 |
| Config.MissingEnvironmentFileFails | config.go:85-88 | with environment `custom` and no `custom.env`, loading fails with a read error and keeps the configuration |

## Left out

- `ToContext` and `FromContext` are context plumbing: they store a value in a `context.Context` and fetch it back.
- Logging is left out: `slog.Info` and `logging.Info`.
- Real file input is left out:
  - the store is a map from file name to contents;
  - Go's path-validity rules for `fs.FS` are not modelled, so a name the store does not hold is simply unreadable.
- godotenv's grammar is left out: quoting, `export`, inline comments and variable expansion.
  - The decoder is a parameter of `Load`.
  - `ParserUnmarshal` plugs in the internal parser as one such decoder.
- `Config.Message`: the text of a read failure is always the store's "file does not exist" error. Operating-system errors from a directory store are not modelled.
- Text is the sequence of characters its UTF-8 bytes decode to. Invalid UTF-8 byte sequences are not modelled.
- The process environment is a fixed map. Changes to it while a lookup runs are not modelled.
- `Strconv.Atoi` models a 64-bit `int`; 32-bit platforms are not modelled.

## Findings

| source | as written | input that shows it | evidently intended | confidence | as-written member | corrected member |
|---|---|---|---|---|---|---|
| config.go:90-93 | `Load` assigns the decoder's map to `c.configMap` before it checks the decoder's error. So on a parse error the returned configuration carries that map, which is empty or partial. | a configuration holding `A=1` whose `default.env` the decoder rejects, while the decoder returns an empty map | that error path returns the configuration unchanged, as the nil-store and read-error paths do; the invalid-file case in config_test.go:108-121 expects the original map | not executed; medium | Config.LoadAsWritten, Config.LoadAsWrittenDropsEntriesOnParseError | Config.Load |
