/** The declarations of src/types.ts that the core uses. */
module Types {
  import opened Results

  /** `ModelList`: the model names the package can download. */
  const ModelList: seq<string> := [
    "tiny", "tiny.en", "base", "base.en", "small", "small.en",
    "medium", "medium.en", "large-v1", "large-v2", "large"
  ]

  /** The two values the `task` option's type admits. */
  datatype Task = Transcribe | Translate

  /** A JavaScript number: its value and the text that string interpolation
      (`${n}`) gives for it. Number formatting itself is not modelled, and
      NaN is not among the values. */
  datatype Number = Number(num: real, text: string)

  /** `IFlagTypes`: every option may be absent. */
  datatype FlagOptions = FlagOptions(
    task: Option<Task>,
    spokenLanguage: Option<string>,
    beamSize: Option<Number>,
    patience: Option<Number>,
    temperature: Option<Number>,
    compressionRatioThreshold: Option<Number>,
    cuda: Option<bool>)

  /** `ResponsePart`: one timed piece of transcript. The declared `certainty`
      field is never filled in by the parser and is not part of the value. */
  datatype Segment = Segment(start: string, end: string, text: string)

  /** `WhisperResponse`: either the engine's error lines or its segments. */
  datatype WhisperResponse = Errors(errors: seq<string>) | Data(data: seq<Segment>)
}
