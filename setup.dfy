/** The argument check at the top of the model download script
    (src/setup.ts): which models were asked for, and whether the script
    stops with an error before downloading anything. */
module Setup {
  import opened Results
  import opened Text
  import opened Types
  import opened Seqs

  predicate IsModelFlag(arg: string)
  {
    arg == "--model" || arg == "-m"
  }

  /** `argv.find(isModelFlag)`. */
  function FindModelFlag(argv: seq<string>): Option<string>
  {
    if argv == [] then None
    else if IsModelFlag(argv[0]) then Some(argv[0])
    else FindModelFlag(argv[1..])
  }

  /** `argv.indexOf(x)`: the first position holding `x`, or -1. */
  function IndexOf(argv: seq<string>, x: string): (r: int)
    ensures -1 <= r < |argv|
    ensures 0 <= r ==> argv[r] == x
  {
    if argv == [] then -1
    else if argv[0] == x then 0
    else
      var k := IndexOf(argv[1..], x);
      if k < 0 then -1 else k + 1
  }

  /** `modelValue`: the argument after the model flag. `None` stands both for
      `null` (no flag) and for `undefined` (the flag is the last argument). */
  function ModelValue(argv: seq<string>): Option<string>
  {
    match FindModelFlag(argv)
    case None => None
    case Some(flag) =>
      var i := IndexOf(argv, flag);
      if 0 <= i + 1 < |argv| then Some(argv[i + 1]) else None
  }

  /** `models`: the comma-separated names; none for a missing or empty value. */
  function SelectedModels(argv: seq<string>): seq<string>
  {
    match ModelValue(argv)
    case Some(v) => if v != [] then Split(v, ',') else []
    case None => []
  }

  function Unknown(model: string): Option<string>
  {
    if model in ModelList then None else Some(model)
  }

  /** `invalidModels`: the names that are not in `ModelList`. */
  function InvalidModels(models: seq<string>): seq<string>
  {
    FilterMap(models, Unknown)
  }

  /** How the check ends: the models to download, or exit code 1 with a
      message. */
  datatype Outcome = Selected(models: seq<string>) | InvalidNames(names: seq<string>) | ModelRequired

  function Validate(argv: seq<string>): Outcome
  {
    var models := SelectedModels(argv);
    var invalid := InvalidModels(models);
    if |invalid| > 0 then InvalidNames(invalid)
    else if |models| == 0 then ModelRequired
    else Selected(models)
  }

  /** The size table printed with "Model name is required!". */
  const HelpTable := "| Model     | Disk   | RAM     |\n|-----------|--------|---------|\n"
    + "| tiny      |  75 MB | ~390 MB |\n| tiny.en   |  75 MB | ~390 MB |\n"
    + "| base      | 142 MB | ~500 MB |\n| base.en   | 142 MB | ~500 MB |\n"
    + "| small     | 466 MB | ~1.0 GB |\n| small.en  | 466 MB | ~1.0 GB |\n"
    + "| medium    | 1.5 GB | ~2.6 GB |\n| medium.en | 1.5 GB | ~2.6 GB |\n"
    + "| large-v1  | 2.9 GB | ~4.7 GB |\n| large     | 2.9 GB | ~4.7 GB |"

  /** What goes to standard error before the script exits with code 1. */
  function ErrorOutput(o: Outcome): Option<string>
  {
    match o
    case Selected(_) => None
    case InvalidNames(names) => Some("Invalid model names: " + Join(names, ", "))
    case ModelRequired => Some("Model name is required!\n\n" + HelpTable + "\n")
  }

  lemma {:induction false} FindFirstFlag(argv: seq<string>, i: nat)
    requires i < |argv| && IsModelFlag(argv[i])
    requires forall j :: 0 <= j < i ==> !IsModelFlag(argv[j])
    ensures FindModelFlag(argv) == Some(argv[i])
    decreases i
  {
    if i > 0 {
      assert forall j :: 0 <= j < i - 1 ==> argv[1..][j] == argv[j + 1];
      FindFirstFlag(argv[1..], i - 1);
    }
  }

  lemma {:induction false} FindNoFlag(argv: seq<string>)
    requires forall j :: 0 <= j < |argv| ==> !IsModelFlag(argv[j])
    ensures FindModelFlag(argv) == None
    decreases |argv|
  {
    if argv != [] {
      assert forall j :: 0 <= j < |argv| - 1 ==> argv[1..][j] == argv[j + 1];
      FindNoFlag(argv[1..]);
    }
  }

  lemma {:induction false} IndexOfFirst(argv: seq<string>, x: string, i: nat)
    requires i < |argv| && argv[i] == x
    requires forall j :: 0 <= j < i ==> argv[j] != x
    ensures IndexOf(argv, x) == i
    decreases i
  {
    if i > 0 {
      assert forall j :: 0 <= j < i - 1 ==> argv[1..][j] == argv[j + 1];
      IndexOfFirst(argv[1..], x, i - 1);
    }
  }

  /** The value is the argument right after the first `--model` or `-m`:
      searching for the flag and then for its position lands on the same
      argument. A flag in the last position gives no value. */
  lemma ValueAfterFirstFlag(argv: seq<string>, i: nat)
    requires i < |argv| && IsModelFlag(argv[i])
    requires forall j :: 0 <= j < i ==> !IsModelFlag(argv[j])
    ensures ModelValue(argv) == if i + 1 < |argv| then Some(argv[i + 1]) else None
  {
    FindFirstFlag(argv, i);
    IndexOfFirst(argv, argv[i], i);
  }

  /** Without a model flag there is no value. */
  lemma NoFlagNoValue(argv: seq<string>)
    requires forall j :: 0 <= j < |argv| ==> !IsModelFlag(argv[j])
    ensures ModelValue(argv) == None
  {
    FindNoFlag(argv);
  }

  /** "Model name is required!" is printed exactly when no value, or an
      empty one, was given. */
  lemma ModelRequiredExactly(argv: seq<string>)
    ensures Validate(argv) == ModelRequired <==> ModelValue(argv).None? || ModelValue(argv) == Some([])
  {
  }

  /** A non-empty value is cut at every comma and nothing else: the names
      hold no comma and joined back with commas give the value. */
  lemma NamesAreTheValue(argv: seq<string>, v: string)
    requires ModelValue(argv) == Some(v) && v != []
    ensures Join(SelectedModels(argv), [',']) == v
    ensures forall k :: 0 <= k < |SelectedModels(argv)| ==> ',' !in SelectedModels(argv)[k]
  {
    JoinSplit(v, ',');
  }

  /** Each name occurs among the invalid ones as often as it was given, if
      it is not a known model, and not at all if it is. */
  lemma {:induction false} InvalidCount(models: seq<string>, x: string)
    ensures multiset(InvalidModels(models))[x] == if x in ModelList then 0 else multiset(models)[x]
    decreases |models|
  {
    if models != [] {
      InvalidCount(models[1..], x);
      assert models == [models[0]] + models[1..];
      assert InvalidModels(models) == (if models[0] in ModelList then [] else [models[0]]) + InvalidModels(models[1..]);
    }
  }

  /** The invalid names are the unknown names, in the order given: the k-th
      invalid name is the given name at the k-th kept position, positions
      increase, and every name left out is a known model. */
  lemma InvalidInOrder(models: seq<string>)
    ensures |KeptIndices(models, Unknown)| == |InvalidModels(models)|
    ensures var inv, idx := InvalidModels(models), KeptIndices(models, Unknown);
      forall k :: 0 <= k < |idx| ==> idx[k] < |models| && inv[k] == models[idx[k]] && inv[k] !in ModelList
    ensures Increasing(KeptIndices(models, Unknown))
    ensures forall j :: 0 <= j < |models| && j !in KeptIndices(models, Unknown) ==> models[j] in ModelList
  {
    var inv, idx := InvalidModels(models), KeptIndices(models, Unknown);
    FilterMapKeptIndices(models, Unknown);
    forall k | 0 <= k < |idx|
      ensures idx[k] < |models| && inv[k] == models[idx[k]] && inv[k] !in ModelList
    {
      assert Unknown(models[idx[k]]) == Some(inv[k]);
    }
    forall j | 0 <= j < |models| && j !in idx
      ensures models[j] in ModelList
    {
      assert Unknown(models[j]) == None;
    }
  }

  /** The download goes ahead exactly when at least one name was given and
      every name is a known model; unknown names win over a missing one. */
  lemma OutcomeCases(argv: seq<string>)
    ensures var models := SelectedModels(argv);
      && (Validate(argv).Selected? <==> models != [] && forall m :: m in models ==> m in ModelList)
      && (Validate(argv).Selected? ==> Validate(argv).models == models)
      && (Validate(argv).InvalidNames? <==> exists m :: m in models && m !in ModelList)
      && (Validate(argv).InvalidNames? ==> Validate(argv).names == InvalidModels(models))
  {
    var models := SelectedModels(argv);
    forall m | m in models
      ensures m !in ModelList <==> m in InvalidModels(models)
    {
      InvalidCount(models, m);
    }
    if |InvalidModels(models)| > 0 {
      var m := InvalidModels(models)[0];
      InvalidCount(models, m);
    }
  }

  /** A trailing comma, as in `-m tiny,`, adds an empty name, which is not
      a model: the script reports invalid names. */
  lemma TrailingCommaInvalid(argv: seq<string>, v: string)
    requires ModelValue(argv) == Some(v + [','])
    ensures Validate(argv).InvalidNames? && [] in Validate(argv).names
  {
    SplitTrailingSeparator(v, ',');
    var models := SelectedModels(argv);
    assert models[|models| - 1] == [];
    InvalidCount(models, []);
  }

  /** A thrown value as `getErrorMessage` distinguishes it. */
  datatype Thrown = ErrorValue(message: string) | StringValue(text: string) | OtherValue

  /** `getErrorMessage(error)`: an `Error`'s message, a thrown string as it
      is, and "Unknown error" for anything else. */
  function GetErrorMessage(error: Thrown): (r: string)
    ensures error.ErrorValue? ==> r == error.message
    ensures error.StringValue? ==> r == error.text
    ensures error.OtherValue? ==> r == "Unknown error"
  {
    match error
    case ErrorValue(m) => m
    case StringValue(s) => s
    case OtherValue => "Unknown error"
  }
}
