# kotlin-formatter, modelled in Dafny

A model of the formatting core of the kotlin-formatter VS Code extension,
with proofs. To format a Kotlin document, the extension does four things:

1. It looks for an `.editorconfig` file by walking up the directory tree
   from the document. At each level it lists the directory's direct
   contents, takes the first non-directory entry whose full path contains
   `.editorconfig`, and checks that the file is readable. A permission
   error (`EPERM`/`EACCES`) skips the level; any other error ends the
   search.
2. It builds a shell command that feeds the document to ktlint:
   - on Windows, a chain of `echo` statements, one per non-empty line,
     piped into `java -jar <ktlintPath>`;
   - elsewhere, a heredoc whose delimiter is the SHA-1 of the text.
3. It runs the command and removes ktlint's own log lines from the output.
4. If the command fails, it asks whether ktlint is installed at all. If
   not, it reports "no ktlint" with platform-specific guidance. Otherwise
   it rethrows the original error.

Modules:

- `Wrappers`: `Option` and `Result`.
- `Strings`: the JavaScript string operations the code relies on (`indexOf`, one-argument `substring`, `join`).
- `Platform`: the `win32`/default switch.
- `Paths`: absolute paths as component sequences, `dirname`, `resolve`, and rendering as text.
- `Config`: `getFiles` and `findEditorConfig`. The filesystem is a value with a listing function and a readability check.
- `Output`: `showError`, `showInfo` and `noKtlintError`. Their observable effects are the text of the pop-up and the lines appended to the output channel.
- `Formatter`: the command strings, the log-line filter, and `format`. `format` is a method whose outcome, channel lines and pop-ups are tied to the specification function of the walk.

`findEditorConfig` is a `while` loop with `break`, `continue` and early
returns. It is proved equal to the recursive function `Config.Walk`, and
the walk's properties are proved about `Walk`.

Notes on what the code does, which the model follows:

- The search does not descend into subdirectories. Only the direct
  contents of the document's directory and of each ancestor are listed.
- The test for `.editorconfig` is an unanchored match on the whole resolved
  path, not an exact comparison of the file name. `x.editorconfig.bak` is
  accepted, and so is any file of a level whose own path has a component
  containing `.editorconfig` (a directory named `my.editorconfig.d`, say).
- When the first accepted file of a level is unreadable for lack of
  permission, the whole level is skipped. Later accepted files of that
  level are not tried.
- The Windows command drops blank lines. `split(/\n|\r/)` followed by
  `filter(Boolean)` also turns `"\r\n"` into a single break.

## Model

| member | source | states |
|---|---|---|
| Platform.PlatformSelect | src/platformSelect.ts:3-17 | the result is one of the two variants: the Windows one exactly when the platform is "win32", the default one otherwise |
| Platform.SelectSameVariant | src/platformSelect.ts:11-16 | when both variants are equal, the result is that value on every platform |
| Platform.NonWindowsPlatformsAgree | src/platformSelect.ts:14-15 | any two platforms other than "win32" get the same variant |
| Strings.IndexOf | src/utils/output.ts:9 | -1 exactly when the pattern does not occur; otherwise the pattern starts at the result and at no earlier position |
| Strings.Substring | src/utils/output.ts:9 | a negative start keeps the whole string, a start in range drops that many characters, a start past the end gives "" |
| Strings.Join | src/formatter.ts:26 | `join(sep)` of nothing is ""; otherwise its length is the elements' lengths plus one separator between each pair of neighbours |
| Strings.JoinLayout | src/formatter.ts:26 | in `join(sep)` each element sits at its offset, followed by the separator unless it is the last, which ends the string |
| Strings.JoinElementAt | src/formatter.ts:26 | the i-th element appears whole at its offset in the joined string |
| Strings.JoinSeparatorAfter | src/formatter.ts:26 | between an element and the next one there is exactly the separator |
| Strings.JoinLayoutWithin | src/formatter.ts:22-26 | the same layout holds inside a prefix and a suffix: the prefix comes first and the suffix follows the last element exactly |
| Paths.Dirname | src/utils/config.ts:38-41 | dirname returns its input exactly at the root; otherwise it drops the last component |
| Paths.Resolve | src/utils/config.ts:27 | a resolved entry lies directly inside its directory and ends with the entry's name |
| Paths.Render | src/formatter.ts:11 | a rendered path is never empty, so a found path is always truthy |
| Paths.SegmentsAppend | src/utils/config.ts:27 | the text of a path is the text of its leading components followed by the text of the rest |
| Paths.ComponentsInRender | src/utils/config.ts:45 | a pattern found in any one component of a path, a directory's name as much as the file's, is found in the path's text |
| Config.GetFiles | src/utils/config.ts:24-31 | the result holds exactly the non-directory entries resolved against the directory, in listing order: one file per such entry, at its rank among them |
| Config.FileComesFromEntry | src/utils/config.ts:26-30 | every position of the result comes from a non-directory entry |
| Config.CandidateByComponent | src/utils/config.ts:45 | the unanchored `/\.editorconfig/` test never accepts the root, and accepts a path as soon as any of its components contains `.editorconfig` |
| Config.FindCandidate | src/utils/config.ts:45 | `find` returns the first accepted path, or nothing when no path is accepted |
| Config.FindCandidateInListing | src/utils/config.ts:44-45 | the chosen file is the first non-directory entry whose resolved path contains the marker; nothing is chosen exactly when no such entry exists |
| Config.Caught | src/utils/config.ts:50-55 | a caught error skips the level exactly when its code is EPERM or EACCES; otherwise it is fatal, and the error is kept |
| Config.ExamineLevel | src/utils/config.ts:43-56 | a found path lies directly in the level, contains the marker and is readable; a skip carries a permission error; a fatal error is never one |
| Config.ExamineListing | src/utils/config.ts:44-49 | after a successful listing, a found path is the first accepted file of that listing |
| Config.AccessOutcome | src/utils/config.ts:47-55 | the R_OK check on the chosen file finds it exactly when it passes; when it throws, the error is caught as a skip or a fatal error |
| Config.ExamineLevelCases | src/utils/config.ts:43-56 | every case of a level: a `readdirSync` failure gives its caught error; a listing with no accepted non-directory entry gives no candidate; otherwise the R_OK check on the first accepted entry decides |
| Config.FirstCandidateEntryUnique | src/utils/config.ts:45 | `find` has only one first accepted entry |
| Config.ExamineLevelInSourceTerms | src/utils/config.ts:43-56 | both directions: a level lets the loop go on exactly when it has no readable first accepted entry and throws nothing but EPERM/EACCES; it is found exactly when its first accepted entry is readable; it fails with `e` exactly when `readdirSync` or `accessSync` threw `e` there and `e` is not a permission error |
| Config.ListingFailedLevel | src/utils/config.ts:25 | when `readdirSync` throws, that error is the only one thrown at the level and is caught; there is no readable candidate |
| Config.EmptyLevel | src/utils/config.ts:44-46 | a listing without accepted non-directory entries throws nothing and leaves the level without a candidate |
| Config.CandidateLevel | src/utils/config.ts:45-55 | with a first accepted entry, the R_OK check on it decides the level, and its error is the only one thrown |
| Config.ExamineLevelFound | src/utils/config.ts:44-48 | a level is found only after a successful listing, and the path is that of the first accepted non-directory entry |
| Config.DeniedCandidateSkipsLevel | src/utils/config.ts:46-52 | a permission error on the first accepted file skips the level, whatever later entries hold |
| Config.ExamineLevelFrame | src/utils/config.ts:44-47 | a level's outcome depends only on its listing and the readability of its direct entries |
| Config.Walk | src/utils/config.ts:37-61 | from the root nothing is walked; a returned path is accepted, readable and directly inside a proper ancestor directory of the start; an error is never EPERM/EACCES |
| Config.WalkStopsAtNearestDecisive | src/utils/config.ts:37-56 | the nearest level that does not continue decides the result of the walk |
| Config.WalkCharacterized | src/utils/config.ts:37-61 | null without error exactly when every level from dirname(document) up to the root continues; otherwise the nearest deciding level's outcome |
| Config.FoundPathIsNearestReadableFile | src/utils/config.ts:37-49 | a returned path passed the R_OK check and is the first accepted non-directory entry of some level, and every level nearer to the document had no readable first accepted entry and threw nothing but EPERM/EACCES |
| Config.WalkFindsNearestReadableFile | src/utils/config.ts:37-49 | conversely, a readable first accepted entry at a level below which every level lets the loop go on is exactly what the walk returns |
| Config.WalkNullWhenAllLevelsGoOn | src/utils/config.ts:37-61 | null without error exactly when every level from the document's directory up to the root has no readable first accepted entry and throws nothing but EPERM/EACCES |
| Config.NearerLevelsGoOn | src/utils/config.ts:37-56 | the levels nearer than the deciding one each let the loop go on, in the source's terms |
| Config.WalkErrorIsFatal | src/utils/config.ts:43-55 | an error out of the walk is never EPERM/EACCES; it is what `readdirSync` or `accessSync` threw at some level, unchanged, and every nearer level let the loop go on |
| Config.WalkOnlyExaminesAncestors | src/utils/config.ts:38-47 | two filesystems that agree on the direct contents of the document's ancestors give the same result |
| Config.FindEditorConfig | src/utils/config.ts:33-62 | the loop returns exactly what the upward walk specifies |
| Output.RelevantInfo | src/utils/output.ts:8-10 | "Unkown error" for a missing or empty log; otherwise a suffix of the log that starts at the first `<stdin>`, or the whole log when the marker is absent |
| Output.ShowError | src/utils/output.ts:7-14 | the pop-up and the channel line are the same string: the error tag, a space, and the relevant part of the log |
| Output.ShowInfo | src/utils/output.ts:16-18 | the channel line is the info tag, a space, and the text, which can be read back |
| Output.NoKtlintMessage | src/utils/output.ts:21-24 | the jar guidance exactly on "win32", the install guidance on every other platform; neither contains `<stdin>` |
| Output.GuidanceHasNoMarker | src/utils/output.ts:22-23 | neither guidance text contains `<stdin>` |
| Output.NoOpeningAngleNoMarker | src/utils/output.ts:9 | a text without `<` never contains `<stdin>` |
| Output.NoKtlintError | src/utils/output.ts:20-26 | the guidance reaches the pop-up and the channel whole, behind the error tag |
| Formatter.EditorConfigParam | src/formatter.ts:11 | "" exactly when no file was found; otherwise `--editorconfig '` followed by the path and a closing quote |
| Formatter.KtlintPath | src/formatter.ts:14-16 | the configured path when it is set and non-empty, `.\ktlint` otherwise; never empty |
| Formatter.SplitLines | src/formatter.ts:23 | split gives at least one piece, and no piece holds a break character |
| Formatter.SplitUnbroken | src/formatter.ts:23 | text without breaks splits into itself |
| Formatter.SplitAtBreak | src/formatter.ts:23 | splitting cuts at every \n or \r: the pieces around a break are the pieces of each side |
| Formatter.NonEmpty | src/formatter.ts:24 | the kept pieces are all non-empty and come from the input |
| Formatter.NonEmptyAppend | src/formatter.ts:24 | filtering distributes over concatenation, so order is kept |
| Formatter.EchoFragments | src/formatter.ts:23-24 | every fragment is non-empty and free of breaks |
| Formatter.FragmentsAtBreak | src/formatter.ts:23-24 | the fragments of text around a break are the fragments of each side |
| Formatter.FragmentsOfLine | src/formatter.ts:23-24 | a line without breaks is one fragment, or none when empty |
| Formatter.BlankLinesVanish | src/formatter.ts:23-24 | two breaks in a row give the same fragments as one: blank lines and "\r\n" leave no echo statement |
| Formatter.FragmentsKeepAllText | src/formatter.ts:23-24 | the fragments, concatenated, are the text with its break characters removed |
| Formatter.NonEmptyKeepsCharacters | src/formatter.ts:24 | dropping empty pieces loses no character |
| Formatter.SplitKeepsCharacters | src/formatter.ts:23 | splitting loses exactly the break characters |
| Formatter.EchoStatement | src/formatter.ts:25 | the statement is `echo\|set /p="`, the fragment, and `" & echo.`; the fragment reads back between them |
| Formatter.EchoStatements | src/formatter.ts:25 | `map` gives one statement per fragment, in order, each reading back as its fragment |
| Formatter.WindowsCommand | src/formatter.ts:22-26 | the command starts with `cd <dir> & ( ` and ends with the pipe into the jar; it is exactly those two when the text has no fragment |
| Formatter.WindowsCommandLayout | src/formatter.ts:22-26 | the Windows command is `cd <dir> & ( `, then one `set /p` echo statement per fragment, in order, joined by " & ", then the pipe into `java -jar <ktlintPath> <param> --stdin -F` |
| Formatter.HeredocCommand | src/formatter.ts:27 | the command is the header line, a line feed, the text, a line feed and the hash, in that order and nothing else |
| Formatter.HeredocCarriesText | src/formatter.ts:19-27 | when the found path holds no line feed (a POSIX path may), the first line feed ends the header that pipes a heredoc delimited by the hash into `ktlint <param> --stdin -F`; the text follows verbatim, then a line feed and the delimiter |
| Formatter.FirstLineFeed | src/formatter.ts:27 | after a line without a line feed, the first line feed is the one that ends it |
| Formatter.FormatCommand | src/formatter.ts:21-28 | "win32" gets the echo chain run in the document's directory with the configured jar; every other platform gets the heredoc delimited by the hash; both carry the same editorconfig flag |
| Formatter.DigitRun | src/formatter.ts:34 | `[0-9]+` matches exactly the leading digits |
| Formatter.LineLength | src/formatter.ts:34 | `.*` runs exactly to the first line terminator |
| Formatter.LogLineMatch | src/formatter.ts:34 | a match of the log-line pattern ends in \n or \r and crosses no earlier line terminator |
| Formatter.MatchTag | src/formatter.ts:34 | after at least one millisecond digit, a match of ` [.+] .*` starts with " [", holds "] " after a non-empty tag, and ends at a break on the same line |
| Formatter.MatchLineEnd | src/formatter.ts:34 | the match ends just after the break that ends the line exactly when that line holds "] " after a non-empty tag |
| Formatter.StripLogLines | src/formatter.ts:34 | the global replace never lengthens the output |
| Formatter.StripChangesOnlyLogLines | src/formatter.ts:34 | output is returned unchanged exactly when no log line starts anywhere in it |
| Formatter.CleanTextUnchanged | src/formatter.ts:34 | text without log lines is kept as is |
| Formatter.StripShortensAtLogLine | src/formatter.ts:34 | a log line anywhere makes the result strictly shorter |
| Formatter.LogLineMatchIsLocal | src/formatter.ts:34 | whether a log line starts at a position is decided within its line; what follows a line terminator cannot change it |
| Formatter.MatchTagIsLocal | src/formatter.ts:34 | the tag part of a match is decided within its line |
| Formatter.StripKeepsCleanLines | src/formatter.ts:34 | whole lines without log lines come through unchanged, whatever follows them |
| Formatter.StripKeepsTextBeforeMatch | src/formatter.ts:34 | text at none of whose positions a log line starts is kept as it is, whatever follows, also when a log line begins later on the same line: the pattern is not anchored and only the match is removed |
| Formatter.StripDropsLogLine | src/formatter.ts:34 | a well-formed log line (`hh:mm:ss.<digits> [<tag>] <message>` and a break) at the head of the text is matched whole and removed, and stripping goes on after it |
| Formatter.LogLineReachesTag | src/formatter.ts:34 | a clock, one character and the milliseconds lead to the tag part of the match |
| Formatter.TagReachesLineEnd | src/formatter.ts:34 | ` [<tag>] <message>` and a break complete the match at that break |
| Formatter.LogLineMatchCharacterized | src/formatter.ts:34 | both directions: the pattern matches the first n characters exactly when they are a well-formed log line (clock, one character, digits, " [", a tag, "] ", a message, a break) |
| Formatter.MatchIsLogLine | src/formatter.ts:34 | what a match covers splits into the parts of a well-formed log line |
| Formatter.MatchPositions | src/formatter.ts:34 | a match has a clock, digits, " [" and "] " at fixed positions and no line terminator before its final break |
| Formatter.PositionsGiveLogLine | src/formatter.ts:34 | those positions cut the matched text into a well-formed log line |
| Formatter.StripRemovesInterleavedLogLine | src/formatter.ts:34 | a well-formed log line is cut out wherever it starts, at a line start or mid-line, and the text in front of it, in which no log line starts, is kept |
| Formatter.Format | src/formatter.ts:9-45 | a lookup error is rethrown before anything is written; otherwise success gives the stripped output, and failure gives "no ktlint" when the probe says ktlint is absent or the original error unchanged when it is present; the channel gets the optional "Found editorconfig" line, the "Formatting file" line and, for "no ktlint" only, the guidance, which is also the one pop-up shown |

## Left out

- src/extension.ts (command registration, document edits, showing a rejection with `showError`) is not part of this model.
- Process execution (`run`, `exec`) is an input function from a command string to its output or error message. What the shell does with the command is not modelled.
- `checkIfKTlintExist` (src/utils/config.ts:7-22) is the boolean input `ktlintFound`, consulted only when the command failed. Its two probes, `command -v ktlint` and `existsSync`, are not modelled.
- The SHA-1 digest is an input function (`sha1Hex`). That the delimiter does not occur as a line of the text is not proved; it holds only with high probability.
- Paths are POSIX-style component sequences. Windows drive letters, backslashes and `path.resolve` normalisation (`..`, `.`) are not modelled. The Windows `cd` uses the same rendering.
- `console.log`, `output.show(true)` and the async/Promise plumbing are left out. The output channel is the sequence of lines appended to it.
- The regular expression of the log-line filter is modelled for the pattern in src/formatter.ts:34 only, not as a general regex engine.
- Formatter.LogLineMatch: characters are Unicode scalar values, while the source's regular expression (no `u` flag) works on UTF-16 code units. For a character outside the Basic Multilingual Plane in the one-character slot after the clock, as in `"12:34:56😀5 [x] y\n"`, the model matches where the source does not, because `.` takes only half of the surrogate pair. Lone surrogates cannot be represented.
- Paths.Dirname: only absolute paths are modelled. For a relative document path, such as an untitled document's, the source's `path.dirname` reaches "." and lists the process's working directory once before stopping.
