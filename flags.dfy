/** `getFlags` (src/utils.ts): the engine's command-line options, appended
    as ` --name value` fragments in a fixed order. */
module Flags {
  import opened Results
  import opened Types

  /** The options the engine accepts, in the order they are emitted. */
  datatype Flag = TaskFlag | Language | BeamSize | Patience | Temperature | CompressionRatioThreshold | Cuda

  /** Position in the emission order. */
  function Rank(f: Flag): nat
  {
    match f
    case TaskFlag => 0
    case Language => 1
    case BeamSize => 2
    case Patience => 3
    case Temperature => 4
    case CompressionRatioThreshold => 5
    case Cuda => 6
  }

  function TaskName(t: Task): string
  {
    match t
    case Transcribe => "transcribe"
    case Translate => "translate"
  }

  /** One ` --name value` piece of the output. */
  datatype Fragment = Fragment(flag: Flag, value: string)

  /** The text in front of a fragment's value: ` --name `. */
  function Prefix(f: Flag): (p: string)
    ensures |p| > 0 && p[0] == ' '
  {
    match f
    case TaskFlag => " --task "
    case Language => " --language "
    case BeamSize => " --beam_size "
    case Patience => " --patience "
    case Temperature => " --temperature "
    case CompressionRatioThreshold => " --compression_ratio_threshold "
    case Cuda => " --cuda "
  }

  function RenderFragment(f: Fragment): string
  {
    Prefix(f.flag) + f.value
  }

  function Render(fs: seq<Fragment>): string
  {
    if fs == [] then [] else RenderFragment(fs[0]) + Render(fs[1..])
  }

  /** The fragment-list view: what the option behind flag `f` contributes,
      one fragment when it is truthy and none otherwise. A number option is
      truthy when present and not zero (NaN is not modelled). */
  function NumberPart(f: Flag, n: Option<Number>): seq<Fragment>
  {
    match n
    case Some(x) => if x.num != 0.0 then [Fragment(f, x.text)] else []
    case None => []
  }

  function Part(o: FlagOptions, f: Flag): (p: seq<Fragment>)
    ensures |p| <= 1 && forall i :: 0 <= i < |p| ==> p[i].flag == f
  {
    match f
    case TaskFlag => (match o.task case Some(t) => [Fragment(TaskFlag, TaskName(t))] case None => [])
    case Language => (match o.spokenLanguage case Some(l) => (if l != [] then [Fragment(Language, l)] else []) case None => [])
    case BeamSize => NumberPart(BeamSize, o.beamSize)
    case Patience => NumberPart(Patience, o.patience)
    case Temperature => NumberPart(Temperature, o.temperature)
    case CompressionRatioThreshold => NumberPart(CompressionRatioThreshold, o.compressionRatioThreshold)
    case Cuda => if o.cuda == Some(true) then [Fragment(Cuda, "true")] else []
  }

  /** All fragments, in emission order. */
  function Fragments(o: FlagOptions): seq<Fragment>
  {
    Part(o, TaskFlag) + Part(o, Language) + Part(o, BeamSize) + Part(o, Patience)
    + Part(o, Temperature) + Part(o, CompressionRatioThreshold) + Part(o, Cuda)
  }

  /** The text each option appends, in the terms of the source: the literal
      ` --name ` and the value, when the option is truthy. */
  function TaskText(o: FlagOptions): string
  {
    match o.task
    case Some(t) => " --task " + TaskName(t)
    case None => []
  }

  function LanguageText(o: FlagOptions): string
  {
    match o.spokenLanguage
    case Some(l) => if l != [] then " --language " + l else []
    case None => []
  }

  function NumberText(prefix: string, n: Option<Number>): string
  {
    match n
    case Some(x) => if x.num != 0.0 then prefix + x.text else []
    case None => []
  }

  function CudaText(o: FlagOptions): string
  {
    if o.cuda == Some(true) then " --cuda true" else []
  }

  /** The texts in emission order. */
  function Emitted(o: FlagOptions): string
  {
    TaskText(o) + LanguageText(o) + NumberText(" --beam_size ", o.beamSize) + NumberText(" --patience ", o.patience)
    + NumberText(" --temperature ", o.temperature)
    + NumberText(" --compression_ratio_threshold ", o.compressionRatioThreshold) + CudaText(o)
  }

  const TemperatureError := "Temperature must be between 0 and 1"

  /** A temperature that is present, not zero, and outside [0, 1]. */
  predicate TemperatureRejected(o: FlagOptions)
  {
    match o.temperature
    case Some(t) => t.num != 0.0 && (t.num < 0.0 || t.num > 1.0)
    case None => false
  }

  /** The specification of `getFlags`: the emitted texts, or the
      temperature error. */
  function FlagString(flags: Option<FlagOptions>): Result<string>
  {
    match flags
    case None => Ok([])
    case Some(o) => if TemperatureRejected(o) then Err(TemperatureError) else Ok(Emitted(o))
  }

  /** `getFlags(flags)`: the local string grows by one text per truthy
      option; an out-of-range temperature throws. */
  method GetFlags(flags: Option<FlagOptions>) returns (r: Result<string>)
    ensures r == FlagString(flags)
  {
    if flags.None? {
      return Ok([]);
    }
    var o := flags.value;
    var s: string := [];
    if o.task.Some? {
      s := s + (" --task " + TaskName(o.task.value));
    }
    assert s == TaskText(o);
    if o.spokenLanguage.Some? && o.spokenLanguage.value != [] {
      s := s + (" --language " + o.spokenLanguage.value);
    }
    assert s == TaskText(o) + LanguageText(o);
    if o.beamSize.Some? && o.beamSize.value.num != 0.0 {
      s := s + (" --beam_size " + o.beamSize.value.text);
    }
    assert s == TaskText(o) + LanguageText(o) + NumberText(" --beam_size ", o.beamSize);
    if o.patience.Some? && o.patience.value.num != 0.0 {
      s := s + (" --patience " + o.patience.value.text);
    }
    assert s == TaskText(o) + LanguageText(o) + NumberText(" --beam_size ", o.beamSize)
      + NumberText(" --patience ", o.patience);
    if o.temperature.Some? && o.temperature.value.num != 0.0 {
      if o.temperature.value.num < 0.0 || o.temperature.value.num > 1.0 {
        return Err(TemperatureError);
      }
      s := s + (" --temperature " + o.temperature.value.text);
    }
    assert s == TaskText(o) + LanguageText(o) + NumberText(" --beam_size ", o.beamSize)
      + NumberText(" --patience ", o.patience) + NumberText(" --temperature ", o.temperature);
    if o.compressionRatioThreshold.Some? && o.compressionRatioThreshold.value.num != 0.0 {
      s := s + (" --compression_ratio_threshold " + o.compressionRatioThreshold.value.text);
    }
    assert s == TaskText(o) + LanguageText(o) + NumberText(" --beam_size ", o.beamSize)
      + NumberText(" --patience ", o.patience) + NumberText(" --temperature ", o.temperature)
      + NumberText(" --compression_ratio_threshold ", o.compressionRatioThreshold);
    if o.cuda == Some(true) {
      s := s + " --cuda true";
    }
    assert s == TaskText(o) + LanguageText(o) + NumberText(" --beam_size ", o.beamSize)
      + NumberText(" --patience ", o.patience) + NumberText(" --temperature ", o.temperature)
      + NumberText(" --compression_ratio_threshold ", o.compressionRatioThreshold) + CudaText(o);
    assert !TemperatureRejected(o);
    return Ok(s);
  }

  lemma {:induction false} RenderAppend(a: seq<Fragment>, b: seq<Fragment>)
    ensures Render(a + b) == Render(a) + Render(b)
    decreases |a|
  {
    if a == [] {
      assert a + b == b;
    } else {
      assert (a + b)[0] == a[0];
      assert (a + b)[1..] == a[1..] + b;
      RenderAppend(a[1..], b);
    }
  }

  /** The text of flag `f`'s option. */
  function FlagText(o: FlagOptions, f: Flag): string
  {
    match f
    case TaskFlag => TaskText(o)
    case Language => LanguageText(o)
    case BeamSize => NumberText(" --beam_size ", o.beamSize)
    case Patience => NumberText(" --patience ", o.patience)
    case Temperature => NumberText(" --temperature ", o.temperature)
    case CompressionRatioThreshold => NumberText(" --compression_ratio_threshold ", o.compressionRatioThreshold)
    case Cuda => CudaText(o)
  }

  /** Each text is the rendering of the corresponding part: the literals of
      the source agree with `Prefix`. */
  lemma PartText(o: FlagOptions, f: Flag)
    ensures Render(Part(o, f)) == FlagText(o, f)
  {
    var p := Part(o, f);
    if p != [] {
      assert p[1..] == [];
    }
  }

  lemma RenderStep(fs: seq<Fragment>, o: FlagOptions, f: Flag)
    ensures Render(fs + Part(o, f)) == Render(fs) + FlagText(o, f)
  {
    RenderAppend(fs, Part(o, f));
    PartText(o, f);
  }

  /** The emitted string is the rendering of the fragment list. */
  lemma EmittedIsRendered(o: FlagOptions)
    ensures Emitted(o) == Render(Fragments(o))
  {
    var f0 := Part(o, TaskFlag);
    PartText(o, TaskFlag);
    var f1 := f0 + Part(o, Language);
    RenderStep(f0, o, Language);
    var f2 := f1 + Part(o, BeamSize);
    RenderStep(f1, o, BeamSize);
    var f3 := f2 + Part(o, Patience);
    RenderStep(f2, o, Patience);
    var f4 := f3 + Part(o, Temperature);
    RenderStep(f3, o, Temperature);
    var f5 := f4 + Part(o, CompressionRatioThreshold);
    RenderStep(f4, o, CompressionRatioThreshold);
    RenderStep(f5, o, Cuda);
  }

  /** No options object, or one whose options are all absent, gives the
      empty string. */
  lemma AbsentFlags()
    ensures FlagString(None) == Ok([])
    ensures FlagString(Some(FlagOptions(None, None, None, None, None, None, None))) == Ok([])
  {
    var o := FlagOptions(None, None, None, None, None, None, None);
    assert TaskText(o) == LanguageText(o) == CudaText(o) == [];
    assert Emitted(o) == [];
  }

  /** Every fragment starts with a space, so the output is empty or starts
      with a space; it is empty exactly when nothing is emitted. */
  lemma RenderShape(fs: seq<Fragment>)
    ensures Render(fs) == [] <==> fs == []
    ensures Render(fs) != [] ==> Render(fs)[0] == ' '
  {
    if fs != [] {
      assert Render(fs) == RenderFragment(fs[0]) + Render(fs[1..]);
    }
  }

  lemma FlagStringShape(flags: Option<FlagOptions>)
    ensures FlagString(flags).Ok? ==> var s := FlagString(flags).value; s == [] || s[0] == ' '
  {
    if flags.Some? {
      EmittedIsRendered(flags.value);
      RenderShape(Fragments(flags.value));
    }
  }

  /** Strictly increasing in emission order. */
  ghost predicate Ordered(fs: seq<Fragment>)
  {
    forall i, j :: 0 <= i < j < |fs| ==> Rank(fs[i].flag) < Rank(fs[j].flag)
  }

  /** Fragments whose flags all come before rank `m`. */
  ghost predicate Below(fs: seq<Fragment>, m: nat)
  {
    forall i :: 0 <= i < |fs| ==> Rank(fs[i].flag) < m
  }

  /** Appending the part of a later flag keeps the order. */
  lemma AppendPart(fs: seq<Fragment>, o: FlagOptions, f: Flag, m: nat)
    requires Ordered(fs) && Below(fs, m) && m <= Rank(f)
    ensures Ordered(fs + Part(o, f)) && Below(fs + Part(o, f), Rank(f) + 1)
  {
    var c := fs + Part(o, f);
    forall i | 0 <= i < |c| ensures Rank(c[i].flag) < Rank(f) + 1 {
      if i >= |fs| {
        assert c[i] == Part(o, f)[i - |fs|];
      }
    }
    forall i, j | 0 <= i < j < |c| ensures Rank(c[i].flag) < Rank(c[j].flag) {
      if j < |fs| {
        assert c[i] == fs[i] && c[j] == fs[j];
      } else {
        assert i < |fs| && c[i] == fs[i] && c[j] == Part(o, f)[j - |fs|];
      }
    }
  }

  /** The fragments come in the fixed order task, language, beam_size,
      patience, temperature, compression_ratio_threshold, cuda; so no flag
      is emitted twice. */
  lemma FragmentsInOrder(o: FlagOptions)
    ensures Ordered(Fragments(o))
    ensures forall i, j :: 0 <= i < j < |Fragments(o)| ==> Fragments(o)[i].flag != Fragments(o)[j].flag
  {
    var f0 := Part(o, TaskFlag);
    assert Ordered(f0) && Below(f0, 1);
    AppendPart(f0, o, Language, 1);
    var f1 := f0 + Part(o, Language);
    AppendPart(f1, o, BeamSize, 2);
    var f2 := f1 + Part(o, BeamSize);
    AppendPart(f2, o, Patience, 3);
    var f3 := f2 + Part(o, Patience);
    AppendPart(f3, o, Temperature, 4);
    var f4 := f3 + Part(o, Temperature);
    AppendPart(f4, o, CompressionRatioThreshold, 5);
    var f5 := f4 + Part(o, CompressionRatioThreshold);
    AppendPart(f5, o, Cuda, 6);
  }

  /** A falsy option (zero, the empty string, `false`) contributes exactly
      what an absent one does: nothing. In particular a zero temperature
      gives neither a flag nor an error. */
  lemma FalsyIsAbsent(o: FlagOptions, zero: Number)
    requires zero.num == 0.0
    ensures FlagString(Some(o.(spokenLanguage := Some([])))) == FlagString(Some(o.(spokenLanguage := None)))
    ensures FlagString(Some(o.(beamSize := Some(zero)))) == FlagString(Some(o.(beamSize := None)))
    ensures FlagString(Some(o.(patience := Some(zero)))) == FlagString(Some(o.(patience := None)))
    ensures FlagString(Some(o.(temperature := Some(zero)))) == FlagString(Some(o.(temperature := None)))
    ensures FlagString(Some(o.(compressionRatioThreshold := Some(zero)))) == FlagString(Some(o.(compressionRatioThreshold := None)))
    ensures FlagString(Some(o.(cuda := Some(false)))) == FlagString(Some(o.(cuda := None)))
  {
    SameTexts(o.(spokenLanguage := Some([])), o.(spokenLanguage := None));
    SameTexts(o.(beamSize := Some(zero)), o.(beamSize := None));
    SameTexts(o.(patience := Some(zero)), o.(patience := None));
    SameTexts(o.(temperature := Some(zero)), o.(temperature := None));
    SameTexts(o.(compressionRatioThreshold := Some(zero)), o.(compressionRatioThreshold := None));
    SameTexts(o.(cuda := Some(false)), o.(cuda := None));
  }

  /** Options that contribute the same texts and the same temperature
      verdict give the same outcome. */
  lemma SameTexts(a: FlagOptions, b: FlagOptions)
    requires TaskText(a) == TaskText(b) && LanguageText(a) == LanguageText(b)
    requires NumberText(" --beam_size ", a.beamSize) == NumberText(" --beam_size ", b.beamSize)
    requires NumberText(" --patience ", a.patience) == NumberText(" --patience ", b.patience)
    requires NumberText(" --temperature ", a.temperature) == NumberText(" --temperature ", b.temperature)
    requires NumberText(" --compression_ratio_threshold ", a.compressionRatioThreshold)
      == NumberText(" --compression_ratio_threshold ", b.compressionRatioThreshold)
    requires CudaText(a) == CudaText(b) && TemperatureRejected(a) == TemperatureRejected(b)
    ensures FlagString(Some(a)) == FlagString(Some(b))
  {
  }

  /** A non-zero temperature is an error exactly when it lies outside
      [0, 1]; otherwise it is emitted as ` --temperature <t>`. */
  lemma TemperatureRange(o: FlagOptions, t: Number)
    requires o.temperature == Some(t) && t.num != 0.0
    ensures FlagString(Some(o)).Err? <==> t.num < 0.0 || t.num > 1.0
    ensures FlagString(Some(o)).Err? ==> FlagString(Some(o)).message == TemperatureError
    ensures FlagString(Some(o)).Ok? ==> Fragment(Temperature, t.text) in Fragments(o)
  {
    assert Part(o, Temperature) == [Fragment(Temperature, t.text)];
  }

  /** `cuda: true` contributes exactly ` --cuda true`, and last. */
  lemma CudaLast(o: FlagOptions)
    requires o.cuda == Some(true) && !TemperatureRejected(o)
    ensures var s := FlagString(Some(o)).value;
      |s| >= 12 && s[|s| - 12..] == " --cuda true"
  {
    var e := Emitted(o);
    assert e == e[..|e| - 12] + CudaText(o);
  }
}
