/** `createPythonCommand` (src/utils.ts): four existence checks, then the
    shell command that runs the transcription script inside its virtual
    environment. The file system is the predicate `fileExists`; `root` is
    the package directory (the parent of the compiled module's directory),
    and `path.join` over plain segments is `/`-concatenation. */
module Command {
  import opened Results
  import opened Types
  import opened Flags

  function ModelFile(root: string, model: string): string
  {
    root + "/models/" + model + "/model.bin"
  }

  function VenvDir(root: string): string
  {
    root + "/scripts/venv"
  }

  function WhisperScript(root: string): string
  {
    root + "/scripts/whisper.py"
  }

  function NotFound(filePath: string): string
  {
    "'" + filePath + "' not found!"
  }

  function NotDownloaded(model: string): string
  {
    "'" + model + "' not downloaded! Run 'npx whisper-models -m " + model + "'"
  }

  const NoVenv := "Virtual environment not found!"
  const NoWhisper := "Whisper not found!"

  /** What `bash -c` runs: activate, transcribe, deactivate. */
  function Script(root: string, model: string, filePath: string, flags: string): string
  {
    "source " + VenvDir(root) + "/bin/activate"
    + " && "
    + VenvDir(root) + "/bin/python3 " + WhisperScript(root) + " " + flags
    + " -m \"" + model + "\" -f \"" + filePath + "\""
    + " && "
    + "deactivate"
  }

  function ShellCommand(root: string, model: string, filePath: string, flags: string): string
  {
    "bash -c '" + Script(root, model, filePath, flags) + "'"
  }

  /** `createPythonCommand({ modelName, filePath, options })`: the first
      failing check throws its error; otherwise a flag error propagates, or
      the command is returned. An empty string is the falsy path. */
  function CreatePythonCommand(root: string, modelName: string, filePath: string,
                               options: Option<FlagOptions>, fileExists: string -> bool): Result<string>
  {
    if filePath == [] || !fileExists(filePath) then Err(NotFound(filePath))
    else if modelName == [] || !fileExists(ModelFile(root, modelName)) then Err(NotDownloaded(modelName))
    else if !fileExists(VenvDir(root)) then Err(NoVenv)
    else if !fileExists(WhisperScript(root)) then Err(NoWhisper)
    else match FlagString(options)
      case Err(m) => Err(m)
      case Ok(flags) => Ok(ShellCommand(root, modelName, filePath, flags))
  }

  /** One check: whether it passes, and what it throws when it does not. */
  datatype Check = Check(passes: bool, error: string)

  /** The checks in the order the source makes them. */
  function Checks(root: string, modelName: string, filePath: string, fileExists: string -> bool): seq<Check>
  {
    [ Check(filePath != [] && fileExists(filePath), NotFound(filePath)),
      Check(modelName != [] && fileExists(ModelFile(root, modelName)), NotDownloaded(modelName)),
      Check(fileExists(VenvDir(root)), NoVenv),
      Check(fileExists(WhisperScript(root)), NoWhisper) ]
  }

  /** The error of the first failing check, if any. */
  function FirstFailure(cs: seq<Check>): Option<string>
  {
    if cs == [] then None
    else if !cs[0].passes then Some(cs[0].error)
    else FirstFailure(cs[1..])
  }

  lemma {:induction false} FirstFailureNone(cs: seq<Check>)
    ensures FirstFailure(cs).None? <==> forall i :: 0 <= i < |cs| ==> cs[i].passes
    decreases |cs|
  {
    if cs != [] {
      FirstFailureNone(cs[1..]);
      if cs[0].passes {
        assert forall i :: 1 <= i < |cs| ==> cs[i] == cs[1..][i - 1];
      }
    }
  }

  /** The check that fails first decides the error. */
  lemma {:induction false} FirstFailureAt(cs: seq<Check>, k: nat)
    requires k < |cs| && !cs[k].passes
    requires forall j :: 0 <= j < k ==> cs[j].passes
    ensures FirstFailure(cs) == Some(cs[k].error)
    decreases k
  {
    if k > 0 {
      assert forall j :: 0 <= j < k - 1 ==> cs[1..][j] == cs[j + 1];
      FirstFailureAt(cs[1..], k - 1);
    }
  }

  /** The command is the first failing check's error, then the flags'
      outcome wrapped into the shell command. */
  lemma ChecksInOrder(root: string, modelName: string, filePath: string,
                      options: Option<FlagOptions>, fileExists: string -> bool)
    ensures var r := CreatePythonCommand(root, modelName, filePath, options, fileExists);
      match FirstFailure(Checks(root, modelName, filePath, fileExists))
      case Some(e) => r == Err(e)
      case None =>
        match FlagString(options)
        case Err(m) => r == Err(m)
        case Ok(flags) => r == Ok(ShellCommand(root, modelName, filePath, flags))
  {
    var c0 := Checks(root, modelName, filePath, fileExists);
    var c1 := c0[1..];
    var c2 := c1[1..];
    var c3 := c2[1..];
    assert c3[1..] == [];
    assert FirstFailure(c3) == if c3[0].passes then None else Some(NoWhisper);
    assert FirstFailure(c2) == if c2[0].passes then FirstFailure(c3) else Some(NoVenv);
    assert FirstFailure(c1) == if c1[0].passes then FirstFailure(c2) else Some(NotDownloaded(modelName));
    assert FirstFailure(c0) == if c0[0].passes then FirstFailure(c1) else Some(NotFound(filePath));
  }

  /** No two of the errors are the same string, so the message names the
      check that failed. */
  lemma MessagesDistinct(filePath: string, model: string)
    ensures NotFound(filePath) != NotDownloaded(model)
    ensures NotFound(filePath) != NoVenv && NotFound(filePath) != NoWhisper && NotFound(filePath) != TemperatureError
    ensures NotDownloaded(model) != NoVenv && NotDownloaded(model) != NoWhisper && NotDownloaded(model) != TemperatureError
    ensures NoVenv != NoWhisper && NoVenv != TemperatureError && NoWhisper != TemperatureError
  {
    var a := NotFound(filePath);
    var b := NotDownloaded(model);
    assert a[0] == '\'' && b[0] == '\'';
    assert a[|a| - 1] == '!';
    assert b[|b| - 1] == '\'';
    assert NoVenv[0] == 'V' && NoWhisper[0] == 'W' && TemperatureError[0] == 'T';
  }

  /** Which error comes back says exactly how far the checks got. */
  lemma ErrorNamesCheck(root: string, modelName: string, filePath: string,
                        options: Option<FlagOptions>, fileExists: string -> bool)
    ensures var r := CreatePythonCommand(root, modelName, filePath, options, fileExists);
      var fileOk := filePath != [] && fileExists(filePath);
      var modelOk := modelName != [] && fileExists(ModelFile(root, modelName));
      var venvOk := fileExists(VenvDir(root));
      var scriptOk := fileExists(WhisperScript(root));
      && (r == Err(NotFound(filePath)) <==> !fileOk)
      && (r == Err(NotDownloaded(modelName)) <==> fileOk && !modelOk)
      && (r == Err(NoVenv) <==> fileOk && modelOk && !venvOk)
      && (r == Err(NoWhisper) <==> fileOk && modelOk && venvOk && !scriptOk)
      && (r == Err(TemperatureError) <==> fileOk && modelOk && venvOk && scriptOk && FlagString(options).Err?)
      && (r.Ok? <==> fileOk && modelOk && venvOk && scriptOk && FlagString(options).Ok?)
  {
    MessagesDistinct(filePath, modelName);
  }

  /** Every command starts `bash -c '` and ends with `'`; the single-quoted
      word holds the script exactly when none of the inserted strings
      contains a single quote (a quote in the file path ends it early). */
  lemma ShellWordIntact(root: string, model: string, filePath: string, flags: string)
    ensures ShellCommand(root, model, filePath, flags) == "bash -c '" + Script(root, model, filePath, flags) + "'"
    ensures '\'' in Script(root, model, filePath, flags) <==>
      '\'' in root || '\'' in model || '\'' in filePath || '\'' in flags
  {
    var v := VenvDir(root);
    var w := WhisperScript(root);
    assert '\'' in v <==> '\'' in root;
    assert '\'' in w <==> '\'' in root;
    assert '\'' !in "/bin/activate" && '\'' !in " && " && '\'' !in "/bin/python3 " && '\'' !in " -m \"";
    assert '\'' !in "\" -f \"" && '\'' !in "deactivate" && '\'' !in "source " && '\'' !in " " && '\'' !in "\"";
  }
}
