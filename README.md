# globalenv in Dafny

globalenv reads, sets and removes persistent environment variables. It has
two backends:

- **Shell start-up file** (env_posix.go). `Get` resolves the target file,
  reads it and runs `query`. `query` collects the value of every
  `export KEY=...` line, unquotes each value, strips the self-reference token
  `$KEY:` and joins the values with `;`. `Set` runs a `bash` command that
  appends `export KEY="VALUE"` to the file and sources it. `Unset` cuts every
  match of the unset pattern out of the file and writes the file back.
- **Windows registry** (env_windows.go). A target selects a registry key:
  `""` or `"user"` selects the current user's key and `"system"` the
  machine's. Any other target fails with `ErrInvalidEnvInFile`. `Get` runs
  `reg query` and `parseQuery` takes the value out of what it prints. `Set`
  runs `setx`, adding `/M` for the machine. `Unset` runs `reg delete`.

The project has three modules:

- `GoStrings` (go_strings.dfy) models the functions of Go's `strings` package
  that the two backends call: `Replace(..., 1)`, `Join`, `SplitN` and
  `TrimSpace`. `Index`, which `Replace` and `SplitN` use to find the
  pattern, is modelled with them.
- `EnvPosix` (env_posix.dfy) models the file backend. The two regular
  expressions are written out as leftmost-first matchers over the text.
  - `query` matches `(?m)^export\s+KEY=([^\n]*)`.
  - `unset` matches `(?m)^export\s+KEY=.*?(\s*;\s*[^$])?\n`. It is modelled by
    `LazyTail`, `Group` and `SecondSpaces`.
  - The file system is a `map` from paths to contents. The home directory is
    an `Option` parameter.
- `EnvWindows` (env_windows.dfy) models the registry backend. Running a
  command is a function parameter `run`.
- `PosixSample` (posix_sample.dfy) proves line-by-line lemmas about `query`
  and `unset`. `PosixSampleText` (posix_sample_text.dfy) applies them to
  lines 23, 24, 63, 96, 113 and 114 of the start-up file in
  env_posix_test.go:19-115.

Go's semantics are kept where they matter:

- In RE2, `\s` is `[\t\n\f\r ]`, so it includes the newline. `.` excludes
  the newline, but `[^$]` matches it.
- `query` indexes `s[0]` and slices `s[1:len(s)-1]`. On an empty captured
  value, or on a lone `"`, this panics. The model returns `Err(IndexPanic)`
  for those cases.

### What the code does at its edges

- **Unset is not idempotent.** Cutting a line can join the text before it
  with the line after it. In `export\nexport K=v\nK=w\n` this forms a new
  definition of `K`, which a second `Unset` then removes. See
  `UnsetIsNotIdempotent`.
- **`Get` can still succeed after `Unset`.**
  - In the example above, `Get` after `Unset` returns `w`.
  - A definition on a last line with no newline is never removed. See
    `UnsetKeepsUnterminatedTail`.
- **`Unset` can remove more than the definition line.** At each length the
  lazy `.*?` first tries the optional group `(\s*;\s*[^$])?` with the `\n`
  after it. Both `\s` and `[^$]` also match newlines. So a match reaches past
  the definition's own newline only through the group. That needs, from the
  value on, a `;` after optional white space, then optional white space, then
  one character other than `$`, then a newline. The `;` may end the
  definition line or start the next one.
  - `export K=v;\nx\n` loses both lines (`UnsetTakesNextLine`).
    `export K=v;\nxy\n` keeps `xy`, which is two characters
    (`UnsetKeepsLongNextLine`).
  - `export K=v\n;x\n` loses both lines, as the first `\s*` takes the
    newline after `v` (`UnsetTakesSemicolonLine`). `export K=v\n;xy\n`
    keeps `;xy` (`UnsetKeepsSemicolonLongLine`).
  - This is why `UnsetWithoutSemicolon` asks for a text with no `;` at all.
- **The self-reference token is removed at most twice.** The code calls
  `strings.Replace(s, "$KEY:", "", 1)` twice, so a third `$KEY:` stays. See
  `NormalizeRemovesTwoTokens`.
- **The key is pasted into the pattern unescaped.** The model restricts keys
  to `[A-Za-z0-9_]+`, where the key matches only itself; see "Left out".
- **A line that holds several commands is captured whole.** The comment at
  env_posix.go:103-105 says such a line is not supported. The sample's
  line 114 is one: `query` returns its whole rest after `$PATH:`, and
  `unset` removes the line. See `PosixSampleText.SampleQuery` and
  `PosixSampleText.SampleUnset`.
- **`os.ReadFile("")` fails.** `ReadFile` never reads the empty path, so
  `Get` and `Unset` with the empty target always fail with a read error.

## Model

| member | source | states |
|---|---|---|
| GoStrings.Index | env_posix.go:126 | the result is the leftmost occurrence of the pattern, and there is none exactly when the pattern does not occur |
| GoStrings.ReplaceFirstAt | env_posix.go:126 | replacing once changes only the leftmost occurrence and keeps the text around it |
| GoStrings.ReplaceFirstAbsent | env_posix.go:129 | without an occurrence of the pattern, the replacement changes nothing |
| GoStrings.ReplaceFirst | env_posix.go:126 | replacing once with a text no longer than the pattern never lengthens the text, and brings in no newline that the text and the replacement lack |
| GoStrings.SplitNIsSplit | env_windows.go:111 | `SplitN` returns at most n pieces that join back to the input; each piece but the last ends at the first separator after its start; the last piece holds a separator only when the limit was reached |
| GoStrings.SplitNUnique | env_windows.go:111 | any split with those properties is the one `SplitN` returns |
| GoStrings.SplitThreeIff | env_windows.go:111-112 | splitting into three yields three pieces exactly when the separator occurs twice without overlap |
| GoStrings.TrimSpace | env_windows.go:113 | the result is the input with white-space padding removed from both ends, and it neither starts nor ends with white space |
| GoStrings.TrimSpacePadded | env_windows.go:113 | trimming white-space padding around a text that neither starts nor ends with white space gives back exactly that text |
| GoStrings.SplitN | env_windows.go:111 | `SplitN(s, sep, n)` returns at least one and at most n pieces |
| GoStrings.Join | env_posix.go:133 | one piece joins to itself, and pieces and a separator without a newline join to a text without one |
| EnvPosix.LineEnd | env_posix.go:107 | the capture `([^\n]*)` ends at the first newline at or after its start, or at the end of the text |
| EnvPosix.DefinitionHead | env_posix.go:107 | a match of `^export\s+KEY=` starts a line, has `export`, a non-empty white-space run and `KEY=`, and the capture starts right after the `=` |
| EnvPosix.Captures | env_posix.go:107-114 | no value captured by `([^\n]*)` holds a newline |
| EnvPosix.KeyIsNotExport | env_posix.go:107 | no text can be both `export` followed by white space and a key followed by `=` |
| EnvPosix.CapturesAreAllDefinitions | env_posix.go:107-114 | the scan of all matches returns the value of every definition line, in document order, none merged or dropped |
| EnvPosix.DefinitionValuesEmptyIff | env_posix.go:114-115 | there are no matches exactly when no line defines the key |
| EnvPosix.Unquote | env_posix.go:123-125 | one pair of surrounding double quotes is removed when both ends are `"`; otherwise the value is unchanged |
| EnvPosix.Normalize | env_posix.go:123-129 | unquoting and the two replacements never lengthen a value and bring in no newline |
| EnvPosix.QueryValue | env_posix.go:106-133 | `query` fails only with "key not found" or the index panic, and a value it returns holds no newline |
| EnvPosix.NormalizeEach | env_posix.go:120-131 | every match yields exactly one value, and the i-th is the i-th capture normalized |
| EnvPosix.Query | env_posix.go:106-133 | the loop over the matches returns the query value of the text |
| EnvPosix.QueryNotFoundIff | env_posix.go:114-117 | `query` fails with "key not found" exactly when no line defines the key |
| EnvPosix.QueryMergesAllDefinitions | env_posix.go:106-133 | `query` is "not found" without definitions; it panics when a value is empty or a lone `"`; otherwise it returns the normalized values of all definitions joined with `;` |
| EnvPosix.NormalizeRemovesTwoTokens | env_posix.go:118-129 | exactly the first two `$KEY:` tokens are removed from a quoted value, and a third one stays |
| EnvPosix.NormalizeWithoutToken | env_posix.go:123-129 | a value without the `$KEY:` token is only unquoted |
| EnvPosix.KeysAtSamePlace | env_posix.go:107 | two valid keys that are each followed by `=` at the same place are equal |
| EnvPosix.DefinitionKeyIsExact | env_posix.go:107 | a line defines at most one key, so `MYPATH=` or `PATH2=` never define `PATH` |
| EnvPosix.QueryAfterAppend | env_posix.go:54 | after the line `Set` appends is added to a text that ends in a newline and does not define the key, `query` returns the value |
| EnvPosix.SecondSpaces | env_posix.go:138 | the tail `\s*[^$]\n` of the optional group, when it matches, ends just after a newline |
| EnvPosix.Group | env_posix.go:138 | the optional group followed by `\n`, when it matches, ends just after a newline past its start |
| EnvPosix.LazyTail | env_posix.go:138 | the lazy `.*?` with what follows it, when it matches, ends just after a newline past its start |
| EnvPosix.UnsetMatch | env_posix.go:138 | a match of the unset pattern starts at a definition line and ends just after a newline |
| EnvPosix.LazyTailWithoutSemicolon | env_posix.go:138 | without `;` in the text, the match ends right after its own line's newline, and fails on a last line with no newline |
| EnvPosix.CutMatches | env_posix.go:145 | replacing every match with nothing never lengthens the text |
| EnvPosix.Unset | env_posix.go:137-146 | `unset` never lengthens the text |
| EnvPosix.UnsetWithoutDefinition | env_posix.go:137-146 | a text that does not define the key is returned unchanged |
| EnvPosix.UnsetWhenQueryNotFound | env_posix.go:114-117 | when `query` reports the key missing, `unset` changes nothing |
| EnvPosix.UnsetWithoutSemicolon | env_posix.go:137-146 | in a text without `;`, `unset` cuts exactly each definition line through its newline and keeps all other characters in order |
| EnvPosix.UnsetKeepsUnterminatedTail | env_posix.go:138 | text after the last newline is never cut, so a definition on an unterminated last line stays |
| EnvPosix.UnsetAfterAppend | env_posix.go:145 | removing the key after `Set` appended its line to a text that ends in a newline and does not define the key gives back that text |
| EnvPosix.UnsetIsNotIdempotent | env_posix.go:138-145 | in `export\nexport K=v\nK=w\n`, a second `unset` still changes the text, and `query` of the once-unset text returns `w` |
| EnvPosix.UnsetTakesNextLine | env_posix.go:138 | `unset` of `export K=v;\nx\n` also removes the line after the definition |
| EnvPosix.UnsetKeepsLongNextLine | env_posix.go:138 | `unset` of `export K=v;\nxy\n` removes only the definition line: the group needs a single character before the newline |
| EnvPosix.UnsetTakesSemicolonLine | env_posix.go:138 | `unset` of `export K=v\n;x\n` also removes the line that starts with `;` |
| EnvPosix.UnsetKeepsSemicolonLongLine | env_posix.go:138 | `unset` of `export K=v\n;xy\n` removes only the definition line and keeps `;xy` |
| EnvPosix.PathResolve | env_posix.go:81-93 | the empty target resolves to the empty path; a target longer than one character that starts with `~` gets the home directory in place of the `~`, or the home-directory error; every other target is used as it is |
| EnvPosix.SetTarget | env_posix.go:51-54 | the file `Set` writes to is never the empty path, and it is the target itself whenever the target is not empty |
| EnvPosix.LineLayout | env_posix.go:52-54 | the line `Set` appends has `export`, a space, `KEY=`, the value in double quotes and a newline, and nothing else |
| EnvPosix.AppendedLayout | env_posix.go:52-54 | after `Set` the text is the old text followed by that line |
| EnvPosix.SetCommand | env_posix.go:50-55 | the shell command echoes the definition line, appends it with `>>` to the file `SetTarget` names and ends by sourcing that file |
| EnvPosix.AppendDefinition | env_posix.go:52-54 | `>>` keeps the old contents as a prefix and adds the line at the end; a missing file is created; no other file changes |
| EnvPosix.Get | env_posix.go:36-46 | the empty target fails with a read error of the empty path, a `~` target without a home directory fails with that error, and a returned value holds no newline |
| EnvPosix.UnsetFile | env_posix.go:59-78 | the empty target fails with a read error; on success no file is created or removed, and every file but the resolved one is unchanged |
| EnvPosix.GetAfterSet | env_posix.go:36-46 | `Get` after `Set` on the same file returns the value when the file did not define the key and ended in a newline |
| EnvPosix.UnsetFileAt | env_posix.go:59-78 | `Unset` of an existing file writes back its `unset` contents and touches no other file |
| EnvPosix.UnsetAfterSet | env_posix.go:59-78 | under the same conditions, `Unset` after `Set` restores the file |
| EnvPosix.EmptyTargetMissesSetFile | env_posix.go:82-84 | with the empty target, `Set` appends to `~/.bashrc`, but `Get` reads the empty path and fails |
| EnvPosix.ResolveTarget | env_posix.go:50-53 | resolution that defaults the empty target to `~/.bashrc` always succeeds with a home directory, and gives `home/.bashrc` for the empty target |
| EnvPosix.ResolvedGetAfterSet | env_posix.go:36-55 | with that resolution, `Get` after `Set` returns the value for every target, the empty one included |
| EnvWindows.RegPath.String | env_windows.go:77-82 | both paths end in `\Environment`; the user's path starts with `HKCU\` and the machine's with `HKLM\` |
| EnvWindows.RegPathStringInjective | env_windows.go:77-82 | different keys have different paths |
| EnvWindows.RegBuilder.Query | env_windows.go:96-99 | `reg query` gets exactly `query`, a path ending in `\Environment`, `/v` and the value name |
| EnvWindows.RegBuilder.Delete | env_windows.go:101-104 | `reg delete` gets exactly `delete`, a path ending in `\Environment`, `/F` (no confirmation prompt), `/V` and the value name |
| EnvWindows.QueryAndDeleteAgree | env_windows.go:96-104 | `reg query` and `reg delete` name the builder's key and the same value name |
| EnvWindows.Selector | env_windows.go:33-41 | `""` and `"user"` select the current user's key, `"system"` the machine's, and every other target none |
| EnvWindows.GetCommand | env_windows.go:32-42 | a command exists exactly for a target that selects a key, else the error is `ErrInvalidEnvInFile`; it is `reg query` with the selected key's path and the value name |
| EnvWindows.SetCommand | env_windows.go:45-53 | a command exists exactly for a target that selects a key, else the error is `ErrInvalidEnvInFile`; it is `setx` with the key and the value, and a third argument exactly for the machine's key |
| EnvWindows.UnsetCommand | env_windows.go:56-66 | a command exists exactly for a target that selects a key, else the error is `ErrInvalidEnvInFile`; it is `reg delete` with the selected key's path and the value name |
| EnvWindows.DispatchAgrees | env_windows.go:31-66 | Get, Set and Unset accept the same three targets and fail any other with `ErrInvalidEnvInFile`; `reg query` and `reg delete` address the same key, which is the machine's exactly for `"system"`; `setx` gets the key and the value, plus `/M` exactly for `"system"` |
| EnvWindows.InvalidTargetFails | env_windows.go:31-66 | an invalid target fails every operation with `ErrInvalidEnvInFile` without running a command |
| EnvWindows.ParseQuery | env_windows.go:107-110 | an error of the command is returned unchanged, and every other failure is `ErrFailParseValue` |
| EnvWindows.ParseQueryIff | env_windows.go:107-120 | `parseQuery` returns a value exactly when the output has two lines and then a record that, trimmed, splits into name, type and that value |
| EnvWindows.ParseQueryNeedsTwoLines | env_windows.go:111-119 | output with fewer than two line breaks fails with `ErrFailParseValue` |
| EnvWindows.ParseQueryThirdLine | env_windows.go:111-117 | after two lines, the value is the third column of the trimmed rest, or `ErrFailParseValue` when it has fewer than three |
| EnvWindows.ParseQueryNeedsThreeColumns | env_windows.go:114-119 | a trimmed record with fewer than two column separators fails with `ErrFailParseValue` |
| EnvWindows.ParseQueryNeverEmpty | env_windows.go:111-119 | `parseQuery` never succeeds with an empty value: a record whose third column is empty would end in white space, which trimming removed |
| EnvWindows.ParseQueryOfRecord | env_windows.go:111-117 | a padded record of name, type and value yields the value, further separators in the value included |
| EnvWindows.ParseQueryFixture | env_windows_test.go:20-25 | the `reg query` output of the library's test parses to `Hello Global Environment!` |
| EnvWindows.GetOfQuery | env_windows.go:32-42 | `Get` for a valid target returns the error of `reg query` unchanged; otherwise it returns a value exactly when the output holds one |
| EnvWindows.Get | env_windows.go:32-42 | an invalid target fails with `ErrInvalidEnvInFile`, and a value `Get` returns is never empty |
| EnvWindows.Set | env_windows.go:45-53 | an invalid target fails with `ErrInvalidEnvInFile` and no output; otherwise the result is the output of running the `setx` command |
| EnvWindows.Unset | env_windows.go:56-66 | an invalid target fails with `ErrInvalidEnvInFile` and no output; otherwise the result is the output of running the `reg delete` command |
| PosixSample.CapturesOverLine | env_posix.go:107-114 | a definition whose value runs to a newline contributes that value, and the scan resumes after the newline |
| PosixSample.QueryExportLine | env_posix.go:107-114 | a line `export KEY=VALUE` contributes exactly its value, and the scan resumes at the next line |
| PosixSample.QueryOtherLine | env_posix.go:107-114 | a line that does not define the key contributes nothing |
| PosixSample.LazyTailToNewline | env_posix.go:138 | over a stretch without a newline, whose `;`s all fail the group and whose last character is not white space, the lazy tail stops just after the next newline when the line after it starts with neither white space nor `;` |
| PosixSample.LazyTailOverValue | env_posix.go:138 | the lazy tail passes over such a value to just after the newline that ends it |
| PosixSample.LazyValueJoin | env_posix.go:138 | `a;b` is such a value when `b` is one and starts with a character other than white space, or with one space and such a character |
| PosixSample.CutDefinition | env_posix.go:138-145 | a definition whose lazy tail ends at e is cut up to e, and the cutting goes on from there |
| PosixSample.UnsetExportLineTo | env_posix.go:138-145 | a line `export KEY=VALUE` with such a value is cut whole when the next line starts with neither white space nor `;` |
| PosixSample.UnsetOtherLine | env_posix.go:138-145 | a line that does not define the key is kept whole |
| PosixSample.NormalizeAppend | env_posix.go:118-129 | `$KEY:rest` normalizes to `rest` when `rest` lacks the key's first character |
| PosixSample.NormalizeQuotedAppend | env_posix.go:118-129 | `"$KEY:rest"` normalizes to `rest` under the same condition |
| PosixSample.NormalizeOpenQuote | env_posix.go:118-129 | `"$KEY:rest` without a closing quote keeps its opening quote and loses `$KEY:` |
| PosixSampleText.SampleQuery | env_posix_test.go:23-114 | on lines 23, 24, 63, 96, 113 and 114 of the test's start-up file, `query` of `PATH` joins the four `PATH` values with `$PATH:` removed; the indented line 63 is not a definition, and line 114 is captured whole, the commands after its `;` included |
| PosixSampleText.SampleUnset | env_posix_test.go:23-114 | on the same lines, `unset` of `PATH` removes the four `PATH` lines, those with `;` included, and keeps lines 24 and 63 |

## Left out

- **Regular-expression compilation** (env_posix.go:109-112 and :140-143).
  Keys are limited to `[A-Za-z0-9_]+`. With such keys the pattern always
  compiles and the key matches only itself. A key holding a pattern
  metacharacter is not modelled.
- **I/O is not modelled directly.**
  - Files are a map from paths to contents. A failed `os.ReadFile` is a
    missing path.
  - A failing `os.WriteFile`, file permissions and the file mode are not
    modelled.
  - `os.UserHomeDir` is an `Option` parameter.
  - `exec.Command(...).CombinedOutput()` (env.go:11-14) is a parameter on
    Windows. On the file backend it is left out: `SetCommand` gives the
    command text and `AppendDefinition` its effect on the file.
- **The shell.**
  - Quoting and injection through the key or the value are not modelled.
  - The shell's own `~` expansion of the target in `Set` is not modelled.
    `GetAfterSet` takes the path both operations act on as a parameter.
  - The effect of `source` is not modelled.
- **Side effects of `query` that the result ignores.** The `fmt.Println` of
  each value and the discarded `strings.Split` (env_posix.go:127-128) are
  left out.
- **Bytes are modelled as characters.** `[]byte` contents are `string`.
  Multi-byte UTF-8 white space is not distinguished from bytes. Windows
  console code pages are not modelled.
- **Concurrency.** The read-modify-write race of two concurrent `Unset`
  calls is not modelled.
- **Package wrappers.** `Get`, `Set` and `Unset` (env_posix.go:17-30 and
  env_windows.go:14-26) fix the target to `~/.bashrc` or `"user"`. `InFile`
  converts a name to a target. The models take the target as a parameter.
- **Windows `Set` and `Unset` results.** The model passes their output
  through unchanged. What `setx` and `reg delete` do to the registry is not
  modelled.
- EnvWindows.RegPathStringInjective: proved by case analysis with an empty body. The
  indexing of the path table by any other `regPath` value is not modelled,
  because only the two constants exist.
- EnvPosix.CutMatches: states only a length bound. What is cut is stated by
  `UnsetWithoutDefinition`, `UnsetWithoutSemicolon`,
  `UnsetKeepsUnterminatedTail` and the examples.
- EnvPosix.Unset: its contract bounds only the length. A general
  characterisation of its matches on lines that contain `;` is not stated;
  the exact behaviour there is shown by `UnsetTakesNextLine` and
  `UnsetIsNotIdempotent`.

## Findings

| source | as written | input that shows it | evidently intended | confidence | as-written member | corrected member |
|---|---|---|---|---|---|---|
| env_posix.go:50-55 | `Set` with the empty target appends to `~/.bashrc`, but `pathResolve` (env_posix.go:82-84) resolves the empty target to the empty path for `Get` and `Unset`, so they fail to read | target `""`, any key and value: `Set` then `Get` returns a read error | all three operations default the empty target to `~/.bashrc` | not executed | EnvPosix.EmptyTargetMissesSetFile | EnvPosix.ResolveTarget |
