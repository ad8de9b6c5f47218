# Video transcriber: the deterministic core, in Dafny

`transcribe.py` extracts a video's audio with ffmpeg and sends it to a Whisper
speech-recognition service. It turns the service's JSON answer into a
transcript document, writes that document next to the video and prints a
human-readable version of it. This project models the parts of the script that
are pure computation, and proves what they promise:

- **`format_timestamp`** (module `Timestamp`). The seconds are truncated the
  way Python's `int()` does it, toward zero. They are split by two floor
  `divmod` steps. The result is rendered as `12m34s` below one hour and as
  `1h02m03s` from one hour on. A parser `Timestamp.Parse` inverts the
  rendering. Distinct non-negative totals therefore never print alike.
- **Python's `str(int)`, `:02d` and `str.strip()`** (modules `Decimal` and
  `Whitespace`). These are the library pieces the formats rely on. `strip`
  removes exactly the characters `str.isspace()` accepts.
- **Response normalisation in `transcribe`** (module `Transcription`). The
  service's parsed JSON is a `RawResponse`. Each key the service may omit is an
  `Option`. The method `Normalise` is the source's loop: it appends one
  normalised segment per response segment. It is proved equal to the
  specification function `NormalisedTranscript`, and the lemmas are stated
  about that function. The model also covers the request-timeout formula and
  the status-code guard before the response is read.
- **`print_transcript`** (module `Console`). The method `PrintTranscript`
  returns the printed lines, one entry per `print` call. The segment lines are
  built by a loop, as in the source. `ParseLine` reads a segment line back.
- **Path choice in `main`** (module `Paths`). The transcript path is
  `--output`, or `<stem>_transcript.json` beside the video. The WAV goes beside
  the video when it is kept, and into a fresh temporary directory otherwise.

## Model

| member | source | states |
|---|---|---|
| Decimal.Show | transcribe.py:32-33 | `str(n)`: at least one character; one character exactly below 10; at most two below 100; no leading zero |
| Decimal.ShowRoundTrip | transcribe.py:32-33 | reading the digits of `str(n)` back gives `n` |
| Decimal.ShowInjective | transcribe.py:32-33 | distinct numbers are never shown alike |
| Decimal.Pad2RoundTrip | transcribe.py:32-33 | reading the digits of `format(n, "02d")` back gives `n` |
| Decimal.Pad2 | transcribe.py:32-33 | `format(n, "02d")` has at least two characters, and exactly two below 100 |
| Timestamp.Truncate | transcribe.py:28 | `int(x)` rounds toward zero: `n <= x < n + 1` for non-negative `x`, `n - 1 < x <= n` for negative `x` |
| Timestamp.Decompose | transcribe.py:29-30 | `hours*3600 + minutes*60 + secs` equals the total, `minutes < 60`, `secs < 60`, and hours are non-negative for a non-negative total |
| Timestamp.FormatSeconds | transcribe.py:26-33 | `format_timestamp(seconds)`: `Format` of `int(seconds)`; its shapes, examples and round trip are stated by the `Format…` lemmas below and `FormatSecondsTruncates` |
| Timestamp.Format | transcribe.py:28-33 | the text of a whole number of seconds: `Render` of `Decompose`; stated by `FormatBelowHour`, `FormatFromHour`, `FormatNegativeWraps` and `FormatRoundTrip` |
| Timestamp.Render | transcribe.py:31-33 | the two f-strings chosen by `hours > 0`; stated by `HoursRoundTrip`, `MinutesRoundTrip` and `RenderRoundTrip` |
| Timestamp.FormatBelowHour | transcribe.py:33 | below 3600 s the text is unpadded minutes, `m`, two-digit seconds, `s` |
| Timestamp.FormatFromHour | transcribe.py:31-32 | from 3600 s on the text is hours, `h`, two-digit minutes, `m`, two-digit seconds, `s` |
| Timestamp.FormatSecondsTruncates | transcribe.py:28 | two non-negative arguments with the same integer part give the same text, that of the integer part |
| Timestamp.FormatNegativeWraps | transcribe.py:28-30 | a negative total prints as that total modulo 3600 (floor `divmod`), with no hours part |
| Timestamp.FormatExamplesBelowHour | transcribe.py:26-33 | 0 gives `0m00s`, 59 gives `0m59s`, 60 gives `1m00s` |
| Timestamp.FormatExampleHour | transcribe.py:26-33 | 3661 gives `1h01m01s` |
| Timestamp.FormatSecondsExamples | transcribe.py:28 | 1.9 and 1.0 both give `0m01s` |
| Timestamp.FormatNegativeExample | transcribe.py:28-33 | -1.0 gives `59m59s` |
| Timestamp.HoursRoundTrip | transcribe.py:31-32 | the hours shape parses back to `hours*3600 + minutes*60 + secs` |
| Timestamp.MinutesRoundTrip | transcribe.py:33 | the minutes shape parses back to `minutes*60 + secs` |
| Timestamp.RenderRoundTrip | transcribe.py:31-33 | either f-string, on a well-formed clock, parses back to the clock's total |
| Timestamp.FormatRoundTrip | transcribe.py:26-33 | for every non-negative total, parsing the formatted text gives the total back |
| Timestamp.FormatInjective | transcribe.py:26-33 | two non-negative totals that format alike are equal |
| Whitespace.StripStart | transcribe.py:112 | the result is a suffix of the input and does not start with whitespace |
| Whitespace.StripEnd | transcribe.py:112 | the result is a prefix of the input and does not end with whitespace |
| Whitespace.Strip | transcribe.py:112 | `s.strip()` is no longer than `s` and has no whitespace at either end |
| Whitespace.StripKeepsSlice | transcribe.py:112 | `s.strip()` is the contiguous part of `s` that starts where the leading whitespace ends |
| Whitespace.StripRemovesSpace | transcribe.py:112 | everything `strip` removes, on either side, is whitespace |
| Whitespace.StripUnique | transcribe.py:112 | any cut of `s` into whitespace, a stripped middle and whitespace has `s.strip()` as its middle |
| Whitespace.StripIdempotent | transcribe.py:112 | stripping twice is stripping once |
| Transcription.NormaliseWord | transcribe.py:117-121 | each word field is the response's value when the key is present, else `""` or 0 |
| Transcription.NormaliseWords | transcribe.py:116-123 | one word per response word, in order |
| Transcription.NormaliseSegment | transcribe.py:109-123 | start and end are copied or 0, a present text becomes its `strip()` and an absent one `""` (so the text is stripped), `words` is present iff the response segment has it, and then it holds the normalised words |
| Transcription.NormaliseSegments | transcribe.py:108-125 | one segment per response segment, as many as in the response; `NormaliseSegmentsAt` states that segment `k` is response segment `k` normalised |
| Transcription.NormaliseSegmentsAt | transcribe.py:108-125 | segment `k` of the result is `NormaliseSegment` of response segment `k`, so order is kept |
| Transcription.NormalisedTranscript | transcribe.py:101-125 | the transcript a response yields; stated by `NormalisedShape`, `NormalisedSegments` and `NormaliseIdempotent`, and `Normalise` is proved to compute it |
| Transcription.Normalise | transcribe.py:101-125 | the loop that appends one segment per response segment yields exactly `NormalisedTranscript` |
| Transcription.NormalisedShape | transcribe.py:101-108 | `audio_file` is the audio name; language and duration are copied or default to `"en"` and 0; absent `segments` yields no segments; otherwise one segment per response segment |
| Transcription.NormalisedSegments | transcribe.py:108-125 | segment `k` comes from response segment `k`: its text is the response text's `strip()` (`""` when absent), so it is stripped, no longer than the original, and unchanged if already stripped; `words` is present iff present, with the same length and order |
| Whitespace.StripStripped | transcribe.py:112 | text with no surrounding whitespace is kept unchanged |
| Transcription.NormaliseSegmentFixed | transcribe.py:109-123 | a written segment with stripped text, read back as a response segment, normalises to itself |
| Transcription.NormaliseFixedPoint | transcribe.py:101-125 | a transcript whose texts are stripped, read back as a response, normalises to itself |
| Transcription.NormaliseIdempotent | transcribe.py:101-125 | normalising a normalised transcript again changes nothing |
| Transcription.RequestTimeout | transcribe.py:77-78 | the timeout is at least 120 and at least `bytes*60/(10 MiB) + 60`, and equals one of the two |
| Transcription.TimeoutMonotone | transcribe.py:77-78 | a larger file never gets a shorter timeout |
| Transcription.TimeoutFloorIff | transcribe.py:78 | the timeout is exactly 120 iff the file is smaller than 61/6 MiB |
| Transcription.TimeoutExamples | transcribe.py:77-78 | 100 MiB gives 660 s and 1 MiB gives 120 s |
| Transcription.Transcribe | transcribe.py:94-125 | a status other than 200 is a failure carrying `UpstreamError(status, body)`; status 200 yields the normalised transcript |
| Transcription.UpstreamError | transcribe.py:95-97 | the `Fireworks API error <status>: <body>` message; stated by `UpstreamErrorCarries` |
| Transcription.UpstreamErrorCarries | transcribe.py:95-97 | the error message holds the status in decimal at a fixed position and ends with the response body unchanged |
| Console.Banner | transcribe.py:138-142 | five header lines are printed before the segments; their contents are stated by `BannerContents` |
| Console.BannerContents | transcribe.py:138-142 | the header is the rule, `TRANSCRIPT`, the duration line (`Duration: `, then `format_timestamp(duration)`, then the `Language: ` label and the language) (the duration reading back to its whole seconds), `Segments: <n>` with `n` reading back to the segment count, and the rule again |
| Console.SegmentLine | transcribe.py:145-148 | `[<start> -> <end>]  <text>`; stated by `SegmentLineRoundTrip`, `ExampleHelloLine` and `ExampleWorldLine` |
| Console.SegmentLines | transcribe.py:144-148 | one printed line per segment |
| Console.SegmentLinesAt | transcribe.py:144-148 | line `k` of the segment block is the line of segment `k` |
| Console.PrintTranscript | transcribe.py:133-150 | the printed lines are the banner, then one line per segment in order, then the closing rule |
| Console.PrintedSegment | transcribe.py:144-148 | the output has `6 + n` lines, and line `5 + k` is `[<start> -> <end>]  <text>` of segment `k` |
| Console.FormatAlphabet | transcribe.py:31-33 | a formatted timestamp holds only digits and the letters `h`, `m`, `s` |
| Console.SegmentLineRoundTrip | transcribe.py:144-148 | for non-negative times, a printed line reads back to the whole seconds of start and end and the text unchanged |
| Console.ExampleHelloSegment | transcribe.py:109-113 | a segment `0.0`-`15.0` with text `" hello"` normalises to text `hello` |
| Console.ExampleHelloLine | transcribe.py:144-148 | that segment prints as `[0m00s -> 0m15s]  hello` |
| Console.ExampleWorldLine | transcribe.py:144-148 | the segment `15.0`-`30.0` `world` prints as `[0m15s -> 0m30s]  world` |
| Console.TwoSegmentExample | transcribe.py:101-148 | a two-segment response for a 30 s clip prints `[0m00s -> 0m15s]  hello` and `[0m15s -> 0m30s]  world` |
| Paths.Join | transcribe.py:198 | pathlib's `parent / name`; stated by `JoinSplit` |
| Paths.NameOf | transcribe.py:198 | pathlib's `.name`, the text after the last `/`; stated by `JoinSplit` |
| Paths.ParentOf | transcribe.py:198 | pathlib's `.parent` of an absolute path; stated by `JoinSplit` |
| Paths.DefaultOutputPath | transcribe.py:198 | `parent / f"{stem}_transcript.json"`; stated by `DefaultOutputBesideVideo` and `DefaultOutputIsNotAudio` |
| Paths.AudioPath | transcribe.py:201-206 | `<stem>.wav` in the video's directory or in the temporary one; stated by `AudioPathPlacement` and `DefaultOutputIsNotAudio` |
| Paths.JoinSplit | transcribe.py:198 | `parent / name` taken apart again gives `parent` and `name` |
| Paths.OutputPath | transcribe.py:195-198 | a non-empty `--output` is used as given; an absent or empty one gives the default path |
| Paths.DefaultOutputBesideVideo | transcribe.py:198 | the default transcript is `<stem>_transcript.json` in the video's directory |
| Paths.AudioPathPlacement | transcribe.py:201-206 | a kept WAV is `<stem>.wav` in the video's directory; otherwise it is `<stem>.wav` in the temporary directory |
| Paths.DefaultOutputIsNotAudio | transcribe.py:198-206 | the default transcript path never coincides with the WAV path |

## Left out

- `check_ffmpeg` and `extract_audio` (transcribe.py:36-69) run ffmpeg as a subprocess. That is an external program, so the model does not include them.
- The HTTP upload and `response.json()` (transcribe.py:80-92, 99) are network I/O and a foreign library. The model starts from the status code, the body text and the already-parsed response (`Transcription.Transcribe`).
- JSON values that are `null` or of the wrong type are not modelled. Each key is either absent (`None`) or holds a value of the expected type.
- `json.dump` and the transcript file write (transcribe.py:213-216) are not modelled. Nor are `tempfile.mkdtemp` itself (the fresh directory is the parameter `tempDir` of `Paths.AudioPath`) and the `finally` cleanup of the temporary WAV (transcribe.py:221-225). All of these are filesystem effects.
- `argparse`, the `FIREWORKS_API_KEY` lookup, the video-exists check and `sys.exit` (transcribe.py:153-192) are process I/O. Their results are parameters of `Paths.OutputPath` and `Paths.AudioPath`.
- The progress messages are not modelled: the two lines at the start of `transcribe` (transcribe.py:74-75) and "Transcription complete" (transcribe.py:127-128). Only the lines of `print_transcript` are modelled, and those as the returned list `lines`, not as writes to stdout.
- Console.PrintTranscript: reads `duration` and `language` straight from the transcript. The source's fallbacks (0 and `"unknown"`, transcribe.py:135-136) can never apply to a transcript that `transcribe` built, which always has both keys.
- Transcription.RequestTimeout: uses the exact integer floor of `bytes*60/(10*1048576)`. The source divides in floating point, so the two may differ by one second right at a rounding boundary.
- Seconds are Dafny reals. The source's Python floats, and any rounding in the service's decimal values, are not modelled.
- Paths.OutputPath: a given `--output` is returned as written. Its resolution against the working directory by `Path.resolve()` is not modelled. The video's parent directory and stem are parameters, so pathlib's rules for deriving a stem are not modelled either.
- The transcript document's JSON serialisation is not modelled. `Transcription.AsResponse` stands in for writing the transcript out and reading it back, and it is used only for the idempotence lemmas.
