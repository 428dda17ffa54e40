/** The decisions `whisper` (src/index.ts) takes around the engine call: the
    input file check with its conversion rule, and the classification of
    the engine's output streams into errors or segments. */
module Whisper {
  import opened Results
  import opened Text
  import opened Types
  import opened Seqs
  import opened Transcript

  // ---------------------------------------------------------------------
  // Classification of the engine's output

  /** The callbacks of `.map((e) => e.trim()).filter((e) => e)`. */
  function TrimmedLine(line: string): Option<string>
  {
    var t := Trim(line);
    if t == [] then None else Some(t)
  }

  /** The error list made from the engine's standard error. */
  function ErrorLines(stderr: string): seq<string>
  {
    FilterMap(Split(stderr, '\n'), TrimmedLine)
  }

  /** The value `whisper` resolves to, given what the engine printed. */
  function Classify(stdout: string, stderr: string): WhisperResponse
  {
    if stderr != [] then Errors(ErrorLines(stderr)) else Data(ParseWhisperResponse(stdout))
  }

  /** Any standard-error output makes the result the error variant, and
      standard output then plays no part. */
  lemma StderrWins(stdout: string, other: string, stderr: string)
    requires stderr != []
    ensures Classify(stdout, stderr).Errors?
    ensures Classify(stdout, stderr) == Classify(other, stderr)
  {
  }

  /** Without standard-error output the result is the parsed transcript. */
  lemma SilentStderr(stdout: string)
    ensures Classify(stdout, []) == Data(ParseWhisperResponse(stdout))
  {
  }

  /** The errors are the standard-error lines, trimmed, without the empty
      ones, in order: each comes from its own line, and a line is left out
      exactly when it is only white space. */
  lemma ErrorsFollowLines(stderr: string)
    ensures var lines, errs, idx := Split(stderr, '\n'), ErrorLines(stderr), KeptIndices(Split(stderr, '\n'), TrimmedLine);
      && |idx| == |errs|
      && (forall k :: 0 <= k < |idx| ==> idx[k] < |lines| && errs[k] == Trim(lines[idx[k]]) && errs[k] != [])
      && (forall k, m :: 0 <= k < m < |idx| ==> idx[k] < idx[m])
      && (forall j :: 0 <= j < |lines| && j !in idx ==> AllSpace(lines[j]))
  {
    KeptLines(Split(stderr, '\n'));
  }

  /** What `ErrorsFollowLines` states, for any list of lines. */
  lemma KeptLines(lines: seq<string>)
    ensures |KeptIndices(lines, TrimmedLine)| == |FilterMap(lines, TrimmedLine)|
    ensures var errs, idx := FilterMap(lines, TrimmedLine), KeptIndices(lines, TrimmedLine);
      forall k :: 0 <= k < |idx| ==> idx[k] < |lines| && errs[k] == Trim(lines[idx[k]]) && errs[k] != []
    ensures Increasing(KeptIndices(lines, TrimmedLine))
    ensures forall j :: 0 <= j < |lines| && j !in KeptIndices(lines, TrimmedLine) ==> AllSpace(lines[j])
  {
    var errs, idx := FilterMap(lines, TrimmedLine), KeptIndices(lines, TrimmedLine);
    FilterMapKeptIndices(lines, TrimmedLine);
    forall k | 0 <= k < |idx|
      ensures idx[k] < |lines| && errs[k] == Trim(lines[idx[k]]) && errs[k] != []
    {
      assert TrimmedLine(lines[idx[k]]) == Some(errs[k]);
    }
    forall j | 0 <= j < |lines| && j !in idx
      ensures AllSpace(lines[j])
    {
      assert TrimmedLine(lines[j]) == None;
    }
  }

  /** Every error is non-empty, holds no newline, and neither starts nor ends
      with white space. */
  lemma ErrorsTrimmed(stderr: string)
    ensures forall k :: 0 <= k < |ErrorLines(stderr)| ==>
      var e := ErrorLines(stderr)[k];
      e != [] && '\n' !in e && !IsSpace(e[0]) && !IsSpace(e[|e| - 1])
  {
    var lines, errs, idx := Split(stderr, '\n'), ErrorLines(stderr), KeptIndices(Split(stderr, '\n'), TrimmedLine);
    ErrorsFollowLines(stderr);
    forall k | 0 <= k < |errs| ensures '\n' !in errs[k] {
      TrimAvoids(lines[idx[k]], '\n');
    }
  }

  lemma {:induction false} AllDropped(lines: seq<string>)
    requires forall k :: 0 <= k < |lines| ==> AllSpace(lines[k])
    ensures FilterMap(lines, TrimmedLine) == []
    decreases |lines|
  {
    if lines != [] {
      assert TrimmedLine(lines[0]) == None;
      AllDropped(lines[1..]);
    }
  }

  /** Standard error that is only white space still selects the error
      variant, with no errors in it. */
  lemma BlankStderr(stdout: string, stderr: string)
    requires stderr != [] && AllSpace(stderr)
    ensures Classify(stdout, stderr) == Errors([])
  {
    SplitAllSpace(stderr, '\n');
    AllDropped(Split(stderr, '\n'));
  }

  // ---------------------------------------------------------------------
  // Sample-rate probe: `stdout.match(/(\d+) Hz/)`

  /** Length of the run of digits at the start of `t`. */
  function DigitRun(t: string): (n: nat)
    ensures n <= |t|
    ensures forall k :: 0 <= k < n ==> IsDigit(t[k])
    ensures n < |t| ==> !IsDigit(t[n])
  {
    if t == [] || !IsDigit(t[0]) then 0
    else
      var n := 1 + DigitRun(t[1..]);
      assert forall k :: 1 <= k < n ==> t[k] == t[1..][k - 1];
      n
  }

  /** `(\d+) Hz` matched at the start of `t`, giving group 1. A shorter digit
      run is never followed by a space, so backtracking cannot help: the
      group is the whole run. */
  function RateHere(t: string): Option<string>
  {
    var n := DigitRun(t);
    if n > 0 && n + 3 <= |t| && t[n..n + 3] == " Hz" then Some(t[..n]) else None
  }

  /** Group 1 of the leftmost match. */
  function SampleRate(s: string): Option<string>
  {
    match Leftmost(s, 0, RateHere)
    case Some(i) => RateHere(s[i..])
    case None => None
  }

  /** `isSampleRateNot16000`, given the probe's output. */
  function IsSampleRateNot16000(probe: string): bool
  {
    if probe == [] then false
    else
      match SampleRate(probe)
      case Some(rate) => rate != "16000"
      case None => false
  }

  /** A digit in front of a match extends it. */
  lemma RateHereExtends(s: string, i: nat)
    requires 0 < i <= |s|
    ensures IsDigit(s[i - 1]) && RateHere(s[i..]).Some? ==> RateHere(s[i - 1..]).Some?
  {
    var t, u := s[i..], s[i - 1..];
    if IsDigit(s[i - 1]) && RateHere(t).Some? {
      assert u[1..] == t;
      var n := DigitRun(t);
      assert DigitRun(u) == n + 1;
      assert u[n + 1..n + 4] == t[n..n + 3];
    }
  }

  /** The captured rate is a whole digit run: non-empty, all digits, followed
      by " Hz", and not preceded by a digit. */
  lemma SampleRateIsDigitRun(s: string)
    requires SampleRate(s).Some?
    ensures var i, d := Leftmost(s, 0, RateHere).value, SampleRate(s).value;
      && d != []
      && (forall k :: 0 <= k < |d| ==> IsDigit(d[k]))
      && i + |d| + 3 <= |s| && s[i..i + |d|] == d && s[i + |d|..i + |d| + 3] == " Hz"
      && (i == 0 || !IsDigit(s[i - 1]))
  {
    var i := Leftmost(s, 0, RateHere).value;
    var t := s[i..];
    assert SampleRate(s) == RateHere(t);
    RateHereShape(t);
    var n := |RateHere(t).value|;
    SliceOfSuffix(s, i, n);
    InnerSliceOfSuffix(s, i, n, 3);
    if i > 0 {
      RateHereExtends(s, i);
    }
  }

  /** A match at the start of `t` captures a non-empty run of digits that
      `t` continues with " Hz". */
  lemma RateHereShape(t: string)
    requires RateHere(t).Some?
    ensures var d := RateHere(t).value;
      && d != []
      && (forall k :: 0 <= k < |d| ==> IsDigit(d[k]))
      && |d| + 3 <= |t| && t[..|d|] == d && t[|d|..|d| + 3] == " Hz"
  {
  }

  /** The leading empty-output test is redundant: without output there is no
      match, so the answer is "a rate was found and it is not 16000". */
  lemma SampleRateDecision(probe: string)
    ensures IsSampleRateNot16000(probe) <==> SampleRate(probe).Some? && SampleRate(probe).value != "16000"
  {
    if probe == [] {
      assert RateHere([]) == None;
      assert Leftmost([], 0, RateHere) == None;
    }
  }

  /** A rate after text in which no rate is found, and which does not end
      in a digit, is the one found: the first `<digits> Hz` of an ffmpeg
      stream line such as "Stream #0:0: Audio: pcm_s16le, 16000 Hz, mono". */
  lemma RateAfterText(p: string, d: string, q: string)
    requires SampleRate(p).None? && (p == [] || !IsDigit(p[|p| - 1]))
    requires d != [] && forall k :: 0 <= k < |d| ==> IsDigit(d[k])
    ensures SampleRate(p + (d + (" Hz" + q))) == Some(d)
    ensures IsSampleRateNot16000(p + (d + (" Hz" + q))) == (d != "16000")
  {
    var s := p + (d + (" Hz" + q));
    var t := d + (" Hz" + q);
    assert s[|p|..] == t;
    NoRateInPrefix(p, t);
    assert DigitRun(t) == |d| by {
      DigitRunOf(d, " Hz" + q);
    }
    assert t[..|d|] == d && t[|d|..|d| + 3] == " Hz";
    assert Leftmost(s, 0, RateHere) == Some(|p|);
    SampleRateDecision(s);
  }

  /** Where `p` holds no match, `p + t` holds none before `t`. */
  lemma NoRateInPrefix(p: string, t: string)
    requires SampleRate(p).None? && (p == [] || !IsDigit(p[|p| - 1]))
    requires t != [] && IsDigit(t[0])
    ensures forall j :: 0 <= j < |p| ==> RateHere((p + t)[j..]).None?
  {
    NoLeftmostRate(p);
    forall j | 0 <= j < |p| ensures RateHere((p + t)[j..]).None? {
      assert (p + t)[j..] == p[j..] + t;
      NoRateBeforeDigit(p[j..], t);
    }
  }

  /** Without a sample rate, no position of `s` starts a match. */
  lemma NoLeftmostRate(s: string)
    requires SampleRate(s).None?
    ensures forall j :: 0 <= j <= |s| ==> RateHere(s[j..]).None?
  {
  }

  /** No anchored match in non-empty `u`, which does not end in a digit,
      stays so when text starting with a digit follows. */
  lemma NoRateBeforeDigit(u: string, t: string)
    requires u != [] && !IsDigit(u[|u| - 1]) && RateHere(u).None?
    requires t != [] && IsDigit(t[0])
    ensures RateHere(u + t).None?
  {
    var n := DigitRun(u);
    var w := u + t;
    assert n < |u|;
    assert DigitRun(w) == n by {
      DigitRunOf(u[..n], u[n..] + t);
      assert u[..n] + (u[n..] + t) == w;
    }
    if n > 0 && n + 3 <= |w| {
      if n + 3 <= |u| {
        assert w[n..n + 3] == u[n..n + 3] by {
          assert forall k :: n <= k < n + 3 ==> w[k] == u[k];
        }
      } else {
        var k := |u| - n;
        assert 0 < k < 3 && w[n..n + 3][k] == t[0];
        assert !IsDigit(" Hz"[1]) && !IsDigit(" Hz"[2]);
      }
    }
  }

  lemma {:induction false} DigitRunOf(d: string, rest: string)
    requires forall k :: 0 <= k < |d| ==> IsDigit(d[k])
    requires rest == [] || !IsDigit(rest[0])
    ensures DigitRun(d + rest) == |d|
    decreases |d|
  {
    if d == [] {
      assert d + rest == rest;
    } else {
      assert (d + rest)[1..] == d[1..] + rest;
      DigitRunOf(d[1..], rest);
    }
  }

  // ---------------------------------------------------------------------
  // `checkAudio`

  /** An extension that lower-cases to ".wav". */
  predicate IsWavExtension(ext: string)
  {
    && |ext| == 4 && ext[0] == '.'
    && (ext[1] == 'w' || ext[1] == 'W')
    && (ext[2] == 'a' || ext[2] == 'A')
    && (ext[3] == 'v' || ext[3] == 'V')
  }

  lemma LowerWav(ext: string)
    ensures ToLower(ext) == ".wav" <==> IsWavExtension(ext)
  {
    assert |ToLower(ext)| == |ext| && forall i :: 0 <= i < |ext| ==> ToLower(ext)[i] == LowerChar(ext[i]);
    if IsWavExtension(ext) {
      assert ToLower(ext) == [LowerChar(ext[0]), LowerChar(ext[1]), LowerChar(ext[2]), LowerChar(ext[3])];
    }
  }

  // ---------------------------------------------------------------------
  // The probe command `ffmpeg -y -i "<file>" 2>&1 | grep "Hz"`

  /** `grep "Hz"` selects a line when "Hz" occurs in it. */
  predicate HasHz(line: string)
  {
    exists k :: 0 <= k < |line| - 1 && line[k] == 'H' && line[k + 1] == 'z'
  }

  /** What `grep` prints for one input line: the line and a newline when it
      is selected. */
  function HzLine(line: string): Option<string>
  {
    if HasHz(line) then Some(line + "\n") else None
  }

  function Concat(parts: seq<string>): string
  {
    if parts == [] then [] else parts[0] + Concat(parts[1..])
  }

  /** The outcome of awaiting the probe pipeline, given what ffmpeg printed.
      The pipeline's exit status is grep's: 1 when no line is selected, and
      the promisified `exec` then rejects with `failure`. Otherwise the
      output is the selected lines, so it is never empty and the test
      `if (!stdout)` (src/index.ts:64) cannot succeed. */
  function ProbeOutput(ffmpegOutput: string, failure: string): (r: Result<string>)
    ensures r.Err? <==> forall k :: 0 <= k < |Split(ffmpegOutput, '\n')| ==> !HasHz(Split(ffmpegOutput, '\n')[k])
    ensures r.Err? ==> r.message == failure
    ensures r.Ok? ==> r.value != []
  {
    var lines := Split(ffmpegOutput, '\n');
    var selected := FilterMap(lines, HzLine);
    FilterMapEmpty(lines, HzLine);
    if selected == [] then Err(failure)
    else
      assert selected[0] != [] by {
        FilterMapKeptIndices(lines, HzLine);
      }
      Ok(Concat(selected))
  }

  /** `checkAudio(filePath)`: `Ok(true)` when the file must be converted,
      `Ok(false)` when it can be used as it is. `extension` is what
      `path.extname(filePath)` reports; `probe` is the outcome of awaiting
      the probe command, consulted only for a WAV file: a rejection
      propagates. */
  function CheckAudio(filePath: string, fileExists: string -> bool, extension: string, probe: Result<string>): Result<bool>
  {
    if filePath == [] then Err("No file path provided.")
    else if !fileExists(filePath) then Err("'" + filePath + "' not found!")
    else if ToLower(extension) != ".wav" then Ok(true)
    else match probe
      case Err(m) => Err(m)
      case Ok(stdout) => Ok(IsSampleRateNot16000(stdout))
  }

  /** The errors come first, in order: no path, then a missing file, then,
      for a WAV file only, a failed probe. */
  lemma CheckAudioErrors(filePath: string, fileExists: string -> bool, extension: string, probe: Result<string>)
    ensures filePath == [] ==> CheckAudio(filePath, fileExists, extension, probe) == Err("No file path provided.")
    ensures filePath != [] && !fileExists(filePath) ==> CheckAudio(filePath, fileExists, extension, probe) == Err("'" + filePath + "' not found!")
    ensures filePath != [] && fileExists(filePath) && IsWavExtension(extension) && probe.Err? ==>
      CheckAudio(filePath, fileExists, extension, probe) == Err(probe.message)
    ensures CheckAudio(filePath, fileExists, extension, probe).Ok? <==>
      filePath != [] && fileExists(filePath) && (!IsWavExtension(extension) || probe.Ok?)
  {
    LowerWav(extension);
  }

  /** An existing file is converted exactly when its extension is not WAV in
      any letter case, or the probe reports a sample rate other than 16000. */
  lemma ConversionRule(filePath: string, fileExists: string -> bool, extension: string, stdout: string)
    requires filePath != [] && fileExists(filePath)
    ensures CheckAudio(filePath, fileExists, extension, Ok(stdout))
      == Ok(!IsWavExtension(extension) || (SampleRate(stdout).Some? && SampleRate(stdout).value != "16000"))
  {
    LowerWav(extension);
    SampleRateDecision(stdout);
  }

  /** The probe is only consulted for a WAV file. */
  lemma ProbeOnlyForWav(filePath: string, fileExists: string -> bool, extension: string, probe: Result<string>, other: Result<string>)
    requires !IsWavExtension(extension)
    ensures CheckAudio(filePath, fileExists, extension, probe) == CheckAudio(filePath, fileExists, extension, other)
  {
    LowerWav(extension);
  }

  /** When ffmpeg prints no line holding "Hz", the probe rejects and so does
      `checkAudio` for an existing WAV file: it does not answer "no
      conversion" as the test at src/index.ts:64 suggests. */
  lemma NoHzRejects(filePath: string, fileExists: string -> bool, extension: string, ffmpegOutput: string, failure: string)
    requires filePath != [] && fileExists(filePath) && IsWavExtension(extension)
    requires forall k :: 0 <= k < |Split(ffmpegOutput, '\n')| ==> !HasHz(Split(ffmpegOutput, '\n')[k])
    ensures CheckAudio(filePath, fileExists, extension, ProbeOutput(ffmpegOutput, failure)) == Err(failure)
  {
    LowerWav(extension);
  }

  /** Whatever ffmpeg prints, the probe either rejects or yields output on
      which the sample-rate check decides by the first `<digits> Hz` alone. */
  lemma ProbeDecision(ffmpegOutput: string, failure: string)
    ensures var r := ProbeOutput(ffmpegOutput, failure);
      r.Ok? ==> r.value != [] && (IsSampleRateNot16000(r.value) <==> SampleRate(r.value).Some? && SampleRate(r.value).value != "16000")
  {
    var r := ProbeOutput(ffmpegOutput, failure);
    if r.Ok? {
      SampleRateDecision(r.value);
    }
  }
}
