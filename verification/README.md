# YouTube audio bot: a Dafny model of its request handling

The bot receives a chat message and checks whether it is a YouTube link. If it is, the bot has the audio extracted as an `.mp3`. It reports progress by editing one status message, uploads the file, and then removes it. This project models the four parts of that flow that are plain sequential logic:

- **Progress throttle** (`Progress`): the `report_progress` hook is a two-variable state machine over `(last_progress, last_update_time)`. Each raw progress event becomes at most one status edit. An edit is sent when progress rose by 5 or more, or when strictly more than 2 seconds have passed since the last edit.
- **Link check** (`Links`): the message text is stripped and must contain `youtube.com` or `youtu.be`.
- **Output file name** (`Paths`): the prepared file name is cut at its last `.` and `.mp3` is appended.
- **Request lifecycle** (`Lifecycle`): a pure function maps the outcomes of the foreign calls to a `Trace`. The inputs are the extraction result, whether the file exists, the upload outcome and the removal outcome. The trace records the status-message texts in order, the plain replies, the link handed to the extractor, the files whose upload was attempted, the files `os.remove` was called on, and the operator log.

These rest on models of the Python string and number operations the code uses (`Strings`, `Numbers`):

- `str.strip()` with Python's full whitespace set, and the narrower set `float()` skips around a number (it keeps the ASCII separators U+001C to U+001F);
- the substring test `in`;
- `str.replace(c, "")`;
- the last-dot search behind `rsplit(".", 1)`;
- `str(int)`;
- `int(float(s))` on plain decimal notation.

`Base` holds `Option` and `Outcome`.

Each operation has a partner property:

- The throttle's single-step contract is paired with runs of the hook. A run is stated over the readings the hook takes from events: the status test and the parsed percent. `RunStartsWithReport` ties each step of a run to one hook call. `RunIsThrottled` proves that any two consecutive edits of a run are far enough apart. `QuietRun` proves that small, fast progress sends nothing.
- The percent parser is paired with the renderer. Every valid literal reads back as itself, and every printed percent reads back as the state's value.
- The file-name derivation is shown to replace exactly the last extension and to be idempotent.
- The lifecycle is paired with a trace invariant, `WellFormed`, that holds for every input.

On these points the code behaves in ways a reader may not expect, and the model follows the code:

- After an extraction error the last status text is `Error: Audio file not found.`. The `Download error: ...` edit is overwritten at once by the `not mp3_file` check.
- The missing-file path returns before the `try/finally`, so `os.remove` is not called there.
- The time test is strict: an edit is due after more than 2 seconds, and exactly 2 seconds is not enough.
- A percent that cannot be parsed does not skip the event. It is replaced by the last shown percent, so the time test alone decides whether an edit is sent.
- `strip()` and `float()` disagree on U+001C to U+001F. A percent such as `5\x1c%` survives `strip()` because it ends in `%`, and `float()` then rejects `5\x1c`.

## Model

| member | source | states |
|---|---|---|
| Progress.Report | yt-audio-extractor.py:22-35 | A non-`downloading` event sends nothing and changes nothing. For a `downloading` event an edit is sent exactly when the observed percent is at least 5 above the last shown one, or more than 2 seconds have passed. Without an edit the state is unchanged. With one, the state becomes (percent, now) and the text is `Downloading... {percent}%`. An unparsable percent keeps the last shown percent, so only the time test can trigger an edit. |
| Progress.FirstEventShown | yt-audio-extractor.py:19-34 | Both variables start at 0, so the first `downloading` event at any clock reading more than 2 seconds after the epoch is shown, and the state becomes (its percent, now). |
| Progress.Due | yt-audio-extractor.py:29-33 | A reading whose status is not `downloading` records nothing. Otherwise the progress is the parsed percent, or the last shown one when parsing failed. A new state is recorded exactly when that progress at `now` is at least 5 above the last shown percent, or `now` is more than 2 seconds after the last edit. The recorded state is (progress, now). |
| Progress.ParsePercent | yt-audio-extractor.py:25-27 | An event without `_percent_str` is read as `"0%"`, that is, percent 0. |
| Progress.ParsePercentLiteral | yt-audio-extractor.py:25-27 | A percent string made of a decimal literal followed by `%`, padded with any whitespace, yields the literal's value with the fraction dropped. |
| Progress.SeparatorKeepsLastPercent | yt-audio-extractor.py:25-29 | A percent such as `5\x1c%` passes `strip()` unchanged, and `float()` rejects what is left after `%` is removed. The hook keeps the last shown percent, and an edit is sent exactly when more than 2 seconds have passed. |
| Progress.ProgressTextReadsBack | yt-audio-extractor.py:27-35 | The number printed in a progress text, read back with the hook's own parser, is the percent the text was made from. |
| Progress.ShownPercentCanDrop | yt-audio-extractor.py:32-35 | Once more than 2 seconds have passed, a percent lower than the last shown one is shown and recorded as is. The shown percent is not monotone. |
| Progress.RunStartsWithReport | yt-audio-extractor.py:22-35 | A run's first step does what one hook call does. It records a state exactly when the hook sends an edit, that edit's text shows the recorded percent, and the rest of the run continues from the state the hook leaves. |
| Progress.RunIsThrottled | yt-audio-extractor.py:22-35 | Over any run of events, the final state is the one recorded by the last edit (the start state if none was sent). Each edit is at least 5 points above, or more than 2 seconds after, the previous one. The first edit is measured against the start state. |
| Progress.QuietRun | yt-audio-extractor.py:29-32 | Events that arrive within 2 seconds of the last edit, each with a percent below last + 5, send no edit and leave the state unchanged. An unparsable percent counts as the last shown one. |
| Links.Accepts | yt-audio-extractor.py:58-60 | A message is accepted exactly when `youtube.com` or `youtu.be` occurs somewhere in its raw text. Stripping first changes nothing, because the host names contain no whitespace. |
| Paths.Stem | yt-audio-extractor.py:48 | The whole name when it has no dot. Otherwise the prefix that ends right before a dot that has no dot after it. |
| Paths.Mp3Path | yt-audio-extractor.py:48-49 | The result ends in `.mp3`. What precedes `.mp3` is the prepared name cut at its last dot, or the whole name when it has no dot. |
| Paths.ReplacesLastExtension | yt-audio-extractor.py:48-49 | `base.ext` becomes `base.mp3` whenever `ext` has no dot, whatever dots `base` contains. |
| Paths.Mp3PathKeepsMp3 | yt-audio-extractor.py:48-49 | A name that already ends in `.mp3` is returned unchanged. |
| Paths.Mp3PathIdempotent | yt-audio-extractor.py:48-49 | Applying the derivation to its own output returns that output. |
| Lifecycle.DownloadAudio | yt-audio-extractor.py:45-55 | The status message is created as `Starting download...` and edited once. A successful extraction yields exactly the `.mp3` path derived from the prepared name, and the text `Downloading... 100% ✅`. A failed one yields no path and the text `Download error: ` followed by the error message. |
| Lifecycle.EveryTraceWellFormed | yt-audio-extractor.py:57-84 | For every message and every combination of outcomes: a rejected message gets only the invalid-link reply. An accepted one gets a status message that starts with `Starting download...` and whose only terminal text (`✅ Done!` or `Error: ...`) is the last one. The upload of at most one file is attempted. That file ends in `.mp3`, and `os.remove` is called on exactly the file whose upload was attempted. |
| Lifecycle.HandleMessage | yt-audio-extractor.py:57-84 | A message has no status message exactly when it is rejected. A rejected one gets only `Please send a valid YouTube video link.`, with no extraction, upload attempt or removal. An accepted one is passed to the extractor stripped, gets no plain reply, and its status texts begin with the two that `download_audio` showed. `os.remove` is called on exactly the file whose upload was attempted, on at most one file. One line is logged exactly when that call fails. |
| Lifecycle.ExtractionErrorPath | yt-audio-extractor.py:53-68 | After an extraction error the status texts are `Starting download...`, `Download error: {e}`, `Error: Audio file not found.`. No upload is attempted, nothing is removed and nothing is logged. |
| Lifecycle.MissingFilePath | yt-audio-extractor.py:64-68 | When extraction succeeds but the file is missing, the status texts are `Starting download...`, `Downloading... 100% ✅`, `Error: Audio file not found.`. No upload is attempted and `os.remove` is not called. |
| Lifecycle.UploadPath | yt-audio-extractor.py:70-84 | When the file exists, the texts continue with `Uploading to Telegram... ⏳` and then `✅ Done!` or `Error: {e}`. The upload of the `.mp3` path is attempted once, and `os.remove` is called on it once, whatever the upload outcome. A failed removal only adds `Failed to delete file: {e}` to the operator log. |
| Lifecycle.RemovalNotShown | yt-audio-extractor.py:79-84 | The removal outcome changes nothing the user sees. Replies, status texts, upload attempts and removal calls are the same for any removal outcome. |
| Strings.StripChars | yt-audio-extractor.py:25-27 | `s.strip(chars)`: the result is the slice of the text after its leading characters in `chars`, only such characters follow it, and it neither starts nor ends with one. `strip()` is this with the `str.isspace()` set. `float()` strips the same way, but with that set minus U+001C to U+001F. |
| Strings.ContainsStripped | yt-audio-extractor.py:58-60 | A non-empty pattern with no stripped character occurs in the stripped text exactly when it occurs in the raw text. |
| Strings.Contains | yt-audio-extractor.py:60 | `p in s` is true exactly when `p` occurs in `s` at some index. |
| Strings.RemoveChar | yt-audio-extractor.py:27 | `replace('%', '')`: no `%` is left and the text does not grow. |
| Strings.RemoveCharCounts | yt-audio-extractor.py:27 | Every character other than `%` keeps its count, and the length drops by the number of `%`. |
| Strings.RemoveCharConcat | yt-audio-extractor.py:27 | Removal distributes over concatenation, so the order of the remaining characters is kept. |
| Strings.LastIndexOf | yt-audio-extractor.py:48 | Finds a position of the character exactly when the character occurs. The position holds the character and nothing after it does. |
| Numbers.ShowInt | yt-audio-extractor.py:35 | `str(i)`: a leading minus exactly for negative `i`, then digits denoting the magnitude, with no leading zero unless the magnitude is 0. |
| Numbers.ReadDecimal | yt-audio-extractor.py:27 | When a literal is read, it is valid and renders back to exactly the text read. |
| Numbers.ReadRender | yt-audio-extractor.py:27 | Every valid literal reads back as itself. |
| Numbers.ParseDecimal | yt-audio-extractor.py:27 | `int(float(s))` yields a value only when the text left after `float()`'s stripping is a valid literal, and the value is that literal's truncation toward zero. `float()` strips every `str.isspace()` character except U+001C to U+001F. |
| Numbers.ParseRendered | yt-audio-extractor.py:27 | A valid literal padded on both sides with characters `float()` skips parses to its truncated value. |
| Numbers.SeparatorNotSkipped | yt-audio-extractor.py:27 | A number followed by U+001C does not parse: `float()` does not skip that separator. |
| Numbers.ParseShowInt | yt-audio-extractor.py:27-35 | Parsing what `str(i)` prints gives `i`. |
| Numbers.ParseDropsFraction | yt-audio-extractor.py:27 | `int(float(str(i) + "." + digits))` is `i`, also for negative `i`. |
| Numbers.ParseBlank | yt-audio-extractor.py:26-29 | Text made only of `str.isspace()` characters does not parse, including U+001C to U+001F, which `float()` keeps. The hook then falls back to the last shown percent. |

## Left out

- How the extractor drives the hook. `report_progress` is a coroutine function registered as an ordinary progress hook (line 40), and whether its body runs is internal to the extractor. The throttle is modelled on its own, and the lifecycle trace contains no progress edits.
- The foreign libraries: the downloader, ffmpeg and the Telegram SDK, including the option dictionary and output template (lines 14-16, 37-43). Their outcomes are inputs and their effects are trace entries. Failures of `reply_text` and `edit_text` are not modelled, so every edit is assumed to succeed. The upload outcome covers opening the file, sending it and the `✅ Done!` edit, all of which share one `try`. The trace therefore records that an upload was attempted, not whether the file reached the user.
- The file system: `os.makedirs`, `os.path.exists`, `open` and `os.remove` become the `fileExists` flag and the upload and removal outcomes.
- Bootstrap: the `BOT_TOKEN` check (lines 8-11), `main`, the `/start` reply and polling (lines 86-95).
- Concurrency between requests and asyncio scheduling. The blocking extraction inside a coroutine is not modelled.
- Clock arithmetic: `time.time()` readings are modelled as exact `real` values. Floating-point rounding of the subtraction is not modelled.
- Malformed events: an event without a `status` key, or with `_percent_str` present but `None`, raises outside the `try`. The model's events always carry a status and an optional string.
- Numbers.ParseDecimal: models `float()` only for plain ASCII decimal notation (`[+|-]digits[.digits]`, surrounded by the whitespace `float()` skips). Exponents, `inf`/`nan`, digit-group underscores and non-ASCII digits, all accepted by Python, are read as unparsable here. The rounding of literals too long for a double (such as `99.99999999999999999` becoming 100) is not modelled, and neither is the `OverflowError` of `int(float('inf'))`.
