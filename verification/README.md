# thuis-gui: the `run-batch` handler, modelled in Dafny

thuis-gui is a small Electron shell around a download script. The only logic
in it is in the host process's `run-batch` handler in `main.js`. The handler
builds the command line `thuis.bat <url>` and runs it. When the script
completes, the handler trims the script's standard output and looks in it for

    /File has been downloaded successfully to: (.*?\.mp4)/

It then sends the renderer a `batch-complete` message `{ response, file }`.
`response` is the trimmed output. `file` is the captured path, or `null`.
When the script reports an error, the handler logs it and sends nothing.

This project models that handler as pure functions over strings and proves
what it does:

- `options.dfy` (`Options`): the `Option` type; `None` is JavaScript's `null`.
- `js_string.dfy` (`JsString`): ECMAScript line terminators and white space,
  and `String.prototype.trim`. Trimming is defined over any "strippable
  character" predicate. It is proved equal to a declarative description
  (strip a strippable prefix and suffix so that the rest neither starts nor
  ends with a strippable character), and that description is proved to have
  exactly one solution.
- `path_pattern.dfy` (`PathPattern`): the regular expression. `MatchAt` and
  `Selected` state its meaning. A match is the literal phrase followed by a
  capture that ends in `.mp4`, where the lazy `.*?` part contains no line
  terminator, because `.` without the `s` flag does not match one. The engine
  reports the match with the leftmost start. At that start it reports the
  shortest capture, because `.*?` is lazy. `ExtractPath` is a scanning
  implementation of this search: an outer scan over start indices, and an
  inner lazy expansion. It is proved to agree with `Selected` in both
  directions.
- `batch_handler.dfy` (`BatchHandler`): the command line, the result record
  and the completion callback.

Two properties decide which path is reported:

- Which path is picked when several phrases appear. The search runs line by
  line (`ExtractPathFirstLine`). An earlier line that holds the phrase but no
  `.mp4` is skipped. On the chosen line, the first `.mp4` after the phrase
  ends the path, even if another `.mp4` follows on that line.
- Trimming before matching never changes the path (`ExtractPathIgnoresTrim`).
  The phrase starts with `F` and the capture ends with `4`, and `trim` keeps
  both characters.

The command line is the script name, one space and the URL exactly as
received. A URL with spaces or shell metacharacters therefore reaches the
shell unquoted. `BuildCommand` states this and nothing more, because the
source shows no intent to quote.

`response` is the trimmed output (`outputPath`, main.js:35 and main.js:41),
not the raw `stdout`.

## Model

| member | source | states |
|---|---|---|
| `BatchHandler.BuildCommand` | main.js:26-27 | The command is `thuis.bat`, one space, then the URL unchanged: the URL is recovered exactly as the suffix after the first 10 characters |
| `BatchHandler.BuildCommandInjective` | main.js:26-27 | Different URLs give different command lines, so no escaping or rewriting merges two URLs |
| `BatchHandler.HandleCompletion` | main.js:29-53 | An error from the script produces no message. Otherwise the message's `response` is the trimmed output. Its `file` is absent exactly when the trimmed output has no match, and otherwise it is the capture of the match the regular expression reports |
| `BatchHandler.FileIsExtractedPath` | main.js:35-46 | The `match && match[1]` check never discards a match. The path taken from the trimmed output is the path the pattern finds in the raw output |
| `BatchHandler.NoPhraseNoFile` | main.js:37-50 | When the output does not contain the phrase, the message's `file` is `null` |
| `BatchHandler.FileAbsentIffNoPathLine` | main.js:37-49 | `file` is `null` exactly when no occurrence of the phrase in the output is followed by `.mp4` on the same line |
| `BatchHandler.PhraseThenPathYieldsPath` | main.js:37-46 | Output that starts with the phrase and then a one-line path ending in its only `.mp4` yields exactly that path, whatever text follows |
| `BatchHandler.LaterLineYieldsPath` | main.js:35-46 | Output whose earlier lines hold no match, followed by a line terminator, the phrase and such a path, yields exactly that path, whatever text follows |
| `JsString.LeadingLength` | main.js:35 | Counts the white space at the start: every character before the count is white space, and the character at the count, if any, is not |
| `JsString.TrailingLength` | main.js:35 | Counts the white space at the end: every character in that many last positions is white space, and the character just before them, if any, is not |
| `JsString.Trim` | main.js:35 | The result is a contiguous part of the input, white space lies on both sides of it, and it neither starts nor ends with white space |
| `JsString.TrimUnique` | main.js:35 | The declarative description of trimming determines the result uniquely |
| `JsString.TrimCharacterized` | main.js:35 | A string satisfies the declarative description of trimming if and only if it is what `Trim` returns |
| `JsString.TrimIdempotent` | main.js:35 | Trimming an already trimmed string changes nothing |
| `PathPattern.ShortestCaptureFrom` | main.js:38 | The lazy expansion of `.*?\.mp4` returns a capture end exactly when one exists at or beyond the current point, and it returns the smallest such end |
| `PathPattern.FindFrom` | main.js:37-39 | The scan over start indices returns the leftmost start at which the pattern matches, with that start's shortest match. It returns nothing exactly when no match starts at or after the given index |
| `PathPattern.ExtractPath` | main.js:37-45 | No path exactly when the pattern has no match. Otherwise the path is the capture of the leftmost, then shortest, match |
| `PathPattern.SelectedUnique` | main.js:37-39 | At most one match is the leftmost-then-shortest one |
| `PathPattern.ExtractPathIsRegexMatch` | main.js:37-39 | The scanner returns `c` if and only if `c` is the capture of the match the regular expression reports |
| `PathPattern.PhrasePrecedesPath` | main.js:37-45 | The phrase immediately followed by the returned path occurs in the output, at the leftmost index where any match starts |
| `PathPattern.ExtractedPathShape` | main.js:38-44 | A returned path ends with `.mp4`, so it is non-empty, and it contains no line terminator |
| `PathPattern.ExtractedPathIsLazy` | main.js:38 | `.mp4` occurs in a returned path only as its last four characters, so no proper prefix of the path is itself a match |
| `PathPattern.PathIffPhraseThenExtensionOnLine` | main.js:37-39 | A path is found exactly when some occurrence of the phrase is followed, with no line terminator in between, by `.mp4` |
| `PathPattern.ExtractPathIgnoresTrim` | main.js:35-39 | For any trimming predicate that keeps `F` and `4`, matching the trimmed output gives the same path as matching the raw output |
| `PathPattern.ExtractPathFirstLine` | main.js:37-39 | For text, a line terminator, then more text: the path comes from the first part when that part has a match, and otherwise from the rest |

## Left out

- Running the script (`exec`, main.js:29) and the `thuis.bat` script itself are not modelled. `HandleCompletion` takes the callback's outcome as input: a flag for whether `error` was set, and the standard output. `stderr` is ignored, as in the source.
- A non-string `mpdUrl` is not modelled. The URL is a string; the template literal would turn any other value into text.
- Logging (`console.log`, `console.error`) is left out. It has no effect on the message.
- The window lifecycle and app events (main.js:10-21, main.js:76-91) are left out. They are Electron framework code.
- The save-dialog handler (main.js:57-71) is left out. It opens a native dialog and only logs the result.
- preload.js and renderer.js are left out. They pass messages through and wire up the DOM. The renderer's `if (result.file)` test is true exactly when `file` is present, because an extracted path is never empty (`ExtractedPathShape`).
- Overlapping `run-batch` requests are not modelled. Responses have no correlation id, and that is a concurrency question with no code behind it.
- JavaScript strings are UTF-16 code units, while Dafny's `char` is a Unicode scalar value. This does not change which path is found. `exec` decodes `stdout` as UTF-8, which never yields an unpaired surrogate, so every code unit sequence it produces corresponds to a sequence of scalar values. All characters in the pattern, and all white space and line terminators, are in the Basic Multilingual Plane, and `.` matches both halves of a surrogate pair.
