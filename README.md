# whisper wrapper: transcript parsing, flag building and model selection

This project models the string-level core of a Node.js wrapper around a
speech-to-text engine. It proves properties of that model in Dafny.

- **`whisper` (src/index.ts).**
  - It checks the input file (`checkAudio`), deciding whether it must be converted to 16 kHz WAV. For a WAV file it asks ffmpeg for the sample rate through `grep "Hz"`.
  - It builds the engine command and awaits the engine's output. The command builder is called as `createCppCommand`, which src/utils.ts does not define; the model uses `createPythonCommand` (see "Left out").
  - It classifies the engine's output. Any standard-error output becomes a list of trimmed, non-empty error lines. Otherwise standard output is parsed into timed segments (`parseWhisperResponse`).
- **`getFlags` (src/utils.ts).** It turns the option record into the engine's command-line flags. Each truthy option appends one ` --name value` fragment, in a fixed order. A non-zero temperature outside [0, 1] throws.
- **`createPythonCommand` (src/utils.ts).** It checks four paths in turn: the audio file, the model weights, the virtual environment and the engine script. The first missing one throws its own error. Otherwise it wraps the engine call in a `bash -c '...'` command.
- **The model download script (src/setup.ts).** It reads `--model`/`-m` from the command line and splits its value on commas. It exits with an error when a name is unknown or when none is given. `getErrorMessage` turns a thrown value into text.

## Modelling choices

- Strings are `seq<char>`.
  - `trim()` and `\s` use the ECMAScript WhiteSpace and LineTerminator code points (`Text.IsSpace`).
  - Lower-casing covers ASCII letters only. This is exact for the comparison with ".wav".
- The regular expressions are written out as matchers.
  - `/(\d+) Hz/` is `Whisper.RateHere`.
  - The segment pattern is `Transcript.MatchHere`.
  - The unanchored search is `Seqs.Leftmost`, giving the leftmost position where the matcher succeeds.
- A thrown `Error` is `Err(message)` of a `Result`. A falsy path or model name is the empty string. An absent value is `None`.
- The file system is a predicate `fileExists`. `root` is the package directory. `path.join` over plain segments is `/`-concatenation.
- The extension that `path.extname` reports is an input of `CheckAudio`. So is the outcome of awaiting the probe command: `Ok(stdout)` or `Err(message)`.
- `Whisper.ProbeOutput` models the `| grep "Hz"` stage of that command. Given what ffmpeg printed, it gives the selected lines, or the rejection that grep's exit status 1 causes when no line holds "Hz".
- A JavaScript number is `Number(num, text)`: its value, and the text that `${n}` interpolation gives for it.
- `getFlags` is a method that grows a local string step by step, as the source does. It is proved equal to the specification function `Flags.FlagString`. The lemmas state the properties of `FlagString`.
- The argv handling of src/setup.ts is the pure function `Setup.Validate`. Its result is `Selected(models)`, `InvalidNames(names)` or `ModelRequired`.

## Model

| member | source | states |
|---|---|---|
| Transcript.ParseWhisperResponse | src/index.ts:70-83 | Defines `parseWhisperResponse`: trim, split on newlines, parse each line, keep the segments. BlankResponse, SegmentsFollowLines, UnmatchedLineDropped and SegmentsWellFormed state its properties. |
| Transcript.ParseLine | src/index.ts:73-81 | Defines the `map` callback: collapse white-space runs, match, and keep groups 1 to 3 as start, end and text. ParseLineWellFormed states its property. |
| Transcript.Exec | src/index.ts:74 | Defines the unanchored `match`: the groups of the leftmost position where the pattern matches. ExecPastPrefix states its property. |
| Transcript.MatchHere | src/index.ts:71 | Defines the pattern anchored at one position. MatchHereWellFormed and MatchLine state its properties. |
| Transcript.BlankResponse | src/index.ts:73 | Output that is empty or only white space gives no segments. |
| Transcript.SegmentsFollowLines | src/index.ts:73-82 | Segments come from distinct lines, in line order. There are at most as many segments as lines. Each segment is what its line parses to. Every other line parses to nothing. |
| Transcript.UnmatchedLineDropped | src/index.ts:75-82 | A line that does not match leaves no entry: the list is the same as without that line. |
| Transcript.SegmentsWellFormed | src/index.ts:71-82 | See the notes below this table. |
| Transcript.ParseLineWellFormed | src/index.ts:74-81 | The segment a single line yields is well formed. |
| Transcript.MatchHereWellFormed | src/index.ts:71 | In collapsed text, an anchored match's text group is the whole rest of the line, and the groups form a well-formed segment. |
| Transcript.DotRun | src/index.ts:71 | The greedy `.` run stops exactly at the first line terminator. |
| Transcript.NoLineTerminatorWhenCollapsed | src/index.ts:71-74 | In collapsed text the `.` run reaches the end of the string. |
| Transcript.ExecPastPrefix | src/index.ts:74 | The unanchored match skips any prefix without `[` and returns the match that follows it. |
| Transcript.CollapseLine | src/index.ts:74 | Collapsing a line `[a w1-->w2 b]w3 t`, where the w are white-space runs, gives the regular line `[a --> b] t'`, with t' the collapsed text. |
| Transcript.MatchLine | src/index.ts:71 | The pattern matches a regular line with collapsed text and gives exactly its two time markers and its text. |
| Transcript.UnanchoredLine | src/index.ts:71-75 | A line with a prefix without `[` and irregular white-space runs still gives its segment. The prefix is discarded. |
| Transcript.CollapseWordThenRun | src/index.ts:74 | Text without white space followed by a white-space run collapses to the text and one space. |
| Whisper.Classify | src/index.ts:20-22 | Defines the result of `whisper`: the error variant for any standard-error output, otherwise the parsed transcript. StderrWins, SilentStderr and BlankStderr state its properties. |
| Whisper.ErrorLines | src/index.ts:21 | Defines the error list: standard-error lines, trimmed, empty ones dropped. ErrorsFollowLines and ErrorsTrimmed state its properties. |
| Whisper.StderrWins | src/index.ts:20-22 | Any standard-error output gives the error variant, whatever standard output holds. |
| Whisper.SilentStderr | src/index.ts:22 | Without standard-error output the result is the parsed transcript. |
| Whisper.ErrorsFollowLines | src/index.ts:21 | The errors are the trimmed standard-error lines, in order, one per line. A line is left out exactly when it is only white space. |
| Whisper.ErrorsTrimmed | src/index.ts:21 | Every error is non-empty, holds no newline, and neither starts nor ends with white space. |
| Whisper.BlankStderr | src/index.ts:21 | Standard-error output that is only white space gives the error variant with no errors. |
| Whisper.IsSampleRateNot16000 | src/index.ts:64-67 | Defines the decision on the probe's output: false for empty output or no match, otherwise whether group 1 differs from "16000". SampleRateDecision states it without the redundant test. |
| Whisper.SampleRate | src/index.ts:66 | Defines group 1 of the leftmost `(\d+) Hz` match. SampleRateIsDigitRun and RateAfterText state its properties. |
| Whisper.RateHere | src/index.ts:66 | Defines `(\d+) Hz` anchored at one position. RateHereShape states its property. |
| Whisper.ProbeOutput | src/index.ts:63-64 | The piped probe rejects exactly when no line of ffmpeg's output holds "Hz", with the exec's error. Otherwise its output is non-empty, so the `if (!stdout)` test never succeeds. |
| Whisper.DigitRun | src/index.ts:66 | The run of digits at the start is maximal: all digits, and not followed by a digit. |
| Whisper.RateHereShape | src/index.ts:66 | An anchored `(\d+) Hz` match captures a non-empty digit run, and " Hz" follows it. |
| Whisper.SampleRateIsDigitRun | src/index.ts:66 | The captured rate is a whole digit run at the leftmost match, followed by " Hz", and no digit precedes it. |
| Whisper.SampleRateDecision | src/index.ts:62-68 | The check is true exactly when a rate is found and it is not "16000". So with empty output it is false. |
| Whisper.RateAfterText | src/index.ts:66-67 | After text in which no rate is found and which does not end in a digit, such as "Stream #0:0: Audio: pcm_s16le, ", the first `<digits> Hz` is the rate found. The check is true exactly when those digits are not "16000". |
| Whisper.LowerWav | src/index.ts:38 | The extension lower-cases to ".wav" exactly when it is ".wav" in some letter case. |
| Whisper.CheckAudio | src/index.ts:34-39 | Defines `checkAudio`: the two path checks, then conversion for a non-WAV extension, or the probe's verdict for a WAV file. The lemmas below state its properties. |
| Whisper.CheckAudioErrors | src/index.ts:34-39 | A missing path fails first, then a missing file, each with its own message. For a WAV file a rejected probe comes next. There is no error exactly when the file exists and the file is not WAV or the probe succeeded. |
| Whisper.ConversionRule | src/index.ts:38-39 | An existing file is converted exactly when its extension is not WAV in any case, or a sample rate other than 16000 is reported. |
| Whisper.ProbeOnlyForWav | src/index.ts:39 | For a file that is not WAV, the probe's outcome plays no part in the decision. |
| Whisper.NoHzRejects | src/index.ts:63-64 | When ffmpeg prints no line holding "Hz", `checkAudio` on an existing WAV file fails with the probe's error. It does not answer "no conversion". |
| Whisper.ProbeDecision | src/index.ts:63-67 | When the probe succeeds, its output is non-empty and the check is true exactly when a rate is found and it is not "16000". |
| Text.Trim | src/index.ts:73 | The result starts and ends with a character that is not white space. It is empty exactly when the input is only white space. |
| Text.TrimInfix | src/index.ts:73 | The trimmed string is a contiguous part of the input. |
| Text.TrimAvoids | src/index.ts:21 | Trimming introduces no character. |
| Text.Join | src/setup.ts:16 | Defines `parts.join(sep)`. JoinSplit and SplitJoin state its relation to Split. |
| Text.Split | src/setup.ts:11 | Splitting gives at least one piece, and no piece holds the separator. |
| Text.JoinSplit | src/setup.ts:11 | Joining the pieces with the separator gives the input back. |
| Text.SplitJoin | src/setup.ts:11 | Splitting the join of separator-free pieces gives the pieces back. |
| Text.SplitTrailingSeparator | src/setup.ts:11 | A trailing separator adds exactly one empty piece. |
| Text.SplitAllSpace | src/index.ts:21 | Every piece of a white-space-only string is white space only. |
| Text.Collapse | src/index.ts:74 | The result is empty exactly when the input is. Its first character is the input's, or a space. |
| Text.CollapseIsCollapsed | src/index.ts:74 | After `replaceAll(/\s+/g, ' ')`, the only white space is the plain space, and no two white-space characters are adjacent. |
| Text.CollapseAvoids | src/index.ts:74 | Collapsing introduces no character except the plain space. |
| Text.CollapseKeepsNonSpace | src/index.ts:74 | Collapsing keeps every character that is not white space, in order. |
| Text.CollapseFixesCollapsed | src/index.ts:74 | Text already in collapsed form is unchanged. |
| Text.CollapseIdempotent | src/index.ts:74 | Collapsing twice is collapsing once. |
| Text.CollapseNoSpacePrefix | src/index.ts:74 | A prefix without white space passes through unchanged. |
| Text.CollapseSpaceRun | src/index.ts:74 | A maximal white-space run becomes one space. |
| Text.CollapseAppend | src/index.ts:74 | Collapsing distributes over a join whose second part starts with a character that is not white space. |
| Text.ToLowerCases | src/index.ts:38 | Lower-casing keeps the length and leaves no upper-case ASCII letter. Other characters are unchanged. Each upper-case letter becomes the lower-case letter at the same place in the alphabet. |
| Text.ToLowerIdempotent | src/index.ts:38 | Lower-casing twice is lower-casing once. |
| Seqs.FilterMap | src/index.ts:73-82 | Defines `map` followed by `filter`: there are never more results than elements. FilterMapKeptIndices states which elements give them. |
| Seqs.FilterMapKeptIndices | src/index.ts:73-82 | The `map`/`filter` chain keeps the mapped values in order, at increasing positions. The positions it drops are exactly those mapped to nothing. |
| Seqs.FilterMapAppend | src/index.ts:73-82 | Mapping then filtering a concatenation handles each part on its own. |
| Seqs.DroppedElement | src/index.ts:82 | An element that maps to nothing can be removed without changing the result. |
| Seqs.Leftmost | src/index.ts:66 | The search finds the first position where the anchored matcher succeeds; none before it does. When none is found, no position matches. |
| Flags.FlagString | src/utils.ts:30-46 | Defines what `getFlags` returns: "" without options, the temperature error, or the texts of the truthy options in order. The lemmas below state its properties. |
| Flags.GetFlags | src/utils.ts:30-46 | The method growing `s` step by step returns exactly `FlagString(flags)`: the texts of the truthy options in order, or the temperature error. |
| Flags.AbsentFlags | src/utils.ts:31 | No options, or options that are all absent, give the empty string. |
| Flags.EmittedIsRendered | src/utils.ts:34-43 | The output is the rendering of the fragment list: one ` --name value` piece per truthy option. |
| Flags.PartText | src/utils.ts:34-43 | Each option's literal text agrees with its flag name and value. |
| Flags.FragmentsInOrder | src/utils.ts:34-43 | The fragments follow the fixed order task, language, beam_size, patience, temperature, compression_ratio_threshold, cuda. No flag appears twice. |
| Flags.FalsyIsAbsent | src/utils.ts:34-43 | An empty language, a zero number or `cuda: false` gives the same outcome as an absent option. So a zero temperature gives neither a flag nor an error. |
| Flags.TemperatureRange | src/utils.ts:38-41 | A non-zero temperature fails, with "Temperature must be between 0 and 1", exactly when it is below 0 or above 1. Otherwise it is emitted as a ` --temperature` fragment. |
| Flags.CudaLast | src/utils.ts:43 | `cuda: true` ends the output with exactly " --cuda true". |
| Flags.RenderShape | src/utils.ts:32-43 | A rendering is empty exactly when there are no fragments, and otherwise starts with a space. |
| Flags.FlagStringShape | src/utils.ts:32-43 | The flag string is empty or starts with a space. |
| Flags.Prefix | src/utils.ts:34-43 | Every fragment's text starts with a space. |
| Command.CreatePythonCommand | src/utils.ts:5-28 | Defines `createPythonCommand`: the four existence checks in order, then the flag error or the `bash -c` command. ChecksInOrder, ErrorNamesCheck and ShellWordIntact state its properties. |
| Command.FirstFailureNone | src/utils.ts:10-17 | No check fails exactly when every check passes. |
| Command.FirstFailureAt | src/utils.ts:10-17 | The first failing check decides the error. |
| Command.ChecksInOrder | src/utils.ts:10-17 | See the notes below this table. |
| Command.ErrorNamesCheck | src/utils.ts:10-17 | Each error is returned exactly when all earlier checks pass and its own check fails. Success means all four pass and the flags are valid. |
| Command.MessagesDistinct | src/utils.ts:10-17 | The five error messages are pairwise different. |
| Command.ShellWordIntact | src/utils.ts:19-27 | The command is `bash -c '` + script + `'`. The script contains a single quote exactly when the root, model, file path or flags do. |
| Setup.Validate | src/setup.ts:9-23 | Defines the outcome of the argument check: invalid names first, then a missing name, otherwise the names to download. OutcomeCases states it. |
| Setup.FindModelFlag | src/setup.ts:9 | Defines `argv.find` for `--model`/`-m`. FindFirstFlag and FindNoFlag state its properties. |
| Setup.ModelValue | src/setup.ts:9-10 | Defines the model value: the argument after the flag's first position. ValueAfterFirstFlag and NoFlagNoValue state its properties. |
| Setup.SelectedModels | src/setup.ts:11 | Defines `models`: the value split on commas, or no names for a missing or empty value. NamesAreTheValue states its property. |
| Setup.InvalidModels | src/setup.ts:13 | Defines `invalidModels`: the names not in `ModelList`. InvalidCount and InvalidInOrder state its properties. |
| Setup.ErrorOutput | src/setup.ts:15-22 | Defines what is printed before exit code 1: the invalid names joined with ", ", or "Model name is required!" with the size table. |
| Setup.IndexOf | src/setup.ts:10 | `indexOf` gives -1 or a position holding the value. |
| Setup.FindFirstFlag | src/setup.ts:9 | `find` returns the first `--model`/`-m` argument. |
| Setup.FindNoFlag | src/setup.ts:9 | Without a model flag, `find` returns nothing. |
| Setup.IndexOfFirst | src/setup.ts:10 | `indexOf` returns the first position holding the value. |
| Setup.ValueAfterFirstFlag | src/setup.ts:9-10 | The model value is the argument right after the first `--model` or `-m`. A flag in the last position gives no value. |
| Setup.NoFlagNoValue | src/setup.ts:9-10 | Without a model flag there is no value. |
| Setup.ModelRequiredExactly | src/setup.ts:10-22 | "Model name is required!" comes exactly when there is no value or the value is empty. |
| Setup.NamesAreTheValue | src/setup.ts:11 | The names hold no comma, and joined with commas they give the value. |
| Setup.TrailingCommaInvalid | src/setup.ts:11-16 | A trailing comma adds an empty name, so the script reports invalid names. |
| Setup.InvalidCount | src/setup.ts:13 | Each unknown name appears among the invalid ones as often as it was given. A known name does not appear. |
| Setup.InvalidInOrder | src/setup.ts:13 | The invalid names are the unknown names at increasing positions, in the order given. Every name left out is a known model. |
| Setup.OutcomeCases | src/setup.ts:15-23 | See the notes below this table. |
| Setup.GetErrorMessage | src/setup.ts:46-54 | An `Error` gives its message, a thrown string gives itself, and anything else gives "Unknown error". |

Notes on rows whose statement has several parts:

- **Transcript.SegmentsWellFormed.** Every segment is well formed:
  - both time markers have exactly the shape `HH:MM:SS.mmm`;
  - the text is non-empty and does not start with white space;
  - the text holds no newline or tab, and no two adjacent white-space characters.
- **Command.ChecksInOrder.** The result is the error of the first failing check. The checks come in the order:
  1. audio file;
  2. `models/<name>/model.bin`;
  3. virtual environment;
  4. `whisper.py`.

  After these checks the flags' error propagates, or the result is the shell command around the flag string.
- **Setup.OutcomeCases.** The download goes ahead, with the names as given, exactly when:
  - there is at least one name;
  - every name is known.

  Invalid names are reported exactly when some name is unknown. This takes priority over a missing name.

## Left out

- The persistent worker process, with its request table and line-delimited JSON protocol, is not part of this model: none of the modelled source files implements it.
- The composition in `whisper` is modelled as its parts: the file check, the command and the output classification. The engine run in between is a process call, which an input string stands in for.
- `whisper` as written cannot reach the engine. src/index.ts:2 imports `createCppCommand`, which src/utils.ts does not export. src/index.ts:14 also calls the builder without `await`, while `createPythonCommand` is `async` (src/utils.ts:5), so `command` would be a promise. So `CreatePythonCommand`'s errors never reach `whisper`'s caller as written. The model keeps `Command.CreatePythonCommand` and `Whisper.Classify` as separate functions and does not compose them.
- The text of the error with which the probe's `exec` rejects is not modelled. It is the parameter `failure` of `Whisper.ProbeOutput`.
- `Whisper.ProbeOutput` does not relate the rate found in grep's output to the rate in ffmpeg's full output.
- `rawWhisper` (src/index.ts:25-32) is not modelled. It is a process call around an existence check.
- Process and file I/O are not modelled: `exec`, the ffmpeg probe, `existsSync`, and `unlinkSync`/`renameSync`/`mkdirSync`. The same goes for `console.error`, `process.exit`, and the download code after src/setup.ts:23.
- `convertToWav` (src/index.ts:42-59) is not modelled. It replaces a file on disk, and its temporary name depends on `path.extname`.
- `path.extname`, `path.join` and `path.normalize` are library code. The extension is an input, `path.join` is plain `/`-concatenation, and the path given to `createPythonCommand` is used as it is.
- The engine script scripts/whisper.py is not part of this model.
- JavaScript number-to-string formatting is not modelled: each `Number` carries its text. NaN is not among the values.
- `toLowerCase` covers only ASCII letters. Full Unicode case mapping only matters here for the comparison with ".wav", and no other code point lower-cases to those four characters.
- `ResponsePart.certainty` (src/types.ts:47) is never produced by the parser, so `Segment` has no such field.
- The help table printed with "Model name is required!" (src/setup.ts:19) has no row for `large-v2`, although `ModelList` contains it. `Setup.HelpTable` reproduces the table as written.
- Setup.ErrorOutput: the printed text is modelled, but no lemma states more than its definition.
