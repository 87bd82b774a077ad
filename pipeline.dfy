/**
 The per-file decision of `processImage`: the task opens the input, decodes
 it, converts it to gray, creates the output file, picks an encoder by the
 input's extension and encodes. The first step that fails decides the one
 status message the task sends, and no later step runs. The library calls
 are not modelled; their outcomes are inputs.
 */
module Pipeline {
  import opened Wrappers

  /** The two encoders the task can pick. */
  datatype Format = Png | Jpeg

  /**
   The `switch filepath.Ext(inputPath)`: an exact, case-sensitive match on
   ".png" and ".jpg"; every other extension is unsupported.
   */
  function EncoderFor(ext: string): (f: Option<Format>)
    ensures f == Some(Png) <==> ext == ".png"
    ensures f == Some(Jpeg) <==> ext == ".jpg"
    ensures f == None <==> ext != ".png" && ext != ".jpg"
  {
    if ext == ".png" then Some(Png)
    else if ext == ".jpg" then Some(Jpeg)
    else None
  }

  /** The steps of one task, in the order the task takes them. */
  datatype Step = Open | Decode | Transform | Create | SelectEncoder | Encode(format: Format)

  /**
   What the library calls return for one input: `None` for success, or the
   text of the error. `ext` is what `filepath.Ext(inputPath)` returns;
   `encode` is the result of whichever encoder was picked.
   */
  datatype Outcomes = Outcomes(
    open: Option<string>,
    decode: Option<string>,
    create: Option<string>,
    ext: string,
    encode: Option<string>)

  /**
   The status message sent on the results channel, and the steps that were
   started, the last of them being the one that failed, if one did.
   */
  datatype Report = Report(message: string, ran: seq<Step>)

  const UnsupportedFormat: string := "Unsupported file format"

  function ErrorMessage(path: string, cause: string): (m: string) {
    "Error when processing " + path + ": " + cause
  }

  function SuccessMessage(path: string): (m: string) {
    "Successfully processed " + path + ", SUIII"
  }

  /** `processImage` with its early returns, one per failing step. */
  function ProcessImage(path: string, o: Outcomes): (r: Report) {
    if o.open.Some? then
      Report(ErrorMessage(path, o.open.value), [Open])
    else if o.decode.Some? then
      Report(ErrorMessage(path, o.decode.value), [Open, Decode])
    else if o.create.Some? then
      Report(ErrorMessage(path, o.create.value), [Open, Decode, Transform, Create])
    else
      match EncoderFor(o.ext)
      case None =>
        Report(ErrorMessage(path, UnsupportedFormat), [Open, Decode, Transform, Create, SelectEncoder])
      case Some(f) =>
        var ran := [Open, Decode, Transform, Create, SelectEncoder, Encode(f)];
        if o.encode.Some? then Report(ErrorMessage(path, o.encode.value), ran)
        else Report(SuccessMessage(path), ran)
  }

  // ---------------------------------------------------------------------
  // A reference semantics: a list of checks, where the first failure wins.
  // ---------------------------------------------------------------------

  /** One step and how it ended. */
  datatype Check = Check(step: Step, failure: Option<string>)

  function Steps(cs: seq<Check>): (s: seq<Step>)
    ensures |s| == |cs|
    ensures forall i :: 0 <= i < |cs| ==> s[i] == cs[i].step
  {
    if cs == [] then [] else [cs[0].step] + Steps(cs[1..])
  }

  /** Runs the checks in order and stops at the first that fails. */
  function RunChecks(cs: seq<Check>): (r: (seq<Step>, Option<string>)) {
    if cs == [] then ([], None)
    else if cs[0].failure.Some? then ([cs[0].step], cs[0].failure)
    else
      var (ran, failure) := RunChecks(cs[1..]);
      ([cs[0].step] + ran, failure)
  }

  /** The checks of one task, as `processImage` makes them. */
  function PipelineChecks(o: Outcomes): (cs: seq<Check>) {
    [Check(Open, o.open), Check(Decode, o.decode), Check(Transform, None), Check(Create, o.create)]
    + match EncoderFor(o.ext)
      case None => [Check(SelectEncoder, Some(UnsupportedFormat))]
      case Some(f) => [Check(SelectEncoder, None), Check(Encode(f), o.encode)]
  }

  /** The message a task sends for the failure it ended with, if any. */
  function Announce(path: string, failure: Option<string>): (m: string) {
    match failure
    case None => SuccessMessage(path)
    case Some(cause) => ErrorMessage(path, cause)
  }

  /** When check `k` is the first to fail, exactly the checks up to `k` ran and its error is reported. */
  lemma {:induction false} RunChecksFirstFailure(cs: seq<Check>, k: nat)
    requires k < |cs| && cs[k].failure.Some?
    requires forall i :: 0 <= i < k ==> cs[i].failure.None?
    ensures RunChecks(cs) == (Steps(cs[..k + 1]), cs[k].failure)
  {
    if k > 0 {
      RunChecksFirstFailure(cs[1..], k - 1);
      assert cs[1..][..k] == cs[1..k + 1];
      assert cs[..k + 1] == [cs[0]] + cs[1..k + 1];
    } else {
      assert Steps(cs[..1]) == [cs[0].step];
    }
  }

  /** When no check fails, every check ran and nothing is reported. */
  lemma {:induction false} RunChecksAllPass(cs: seq<Check>)
    requires forall i :: 0 <= i < |cs| ==> cs[i].failure.None?
    ensures RunChecks(cs) == (Steps(cs), None)
  {
    if cs != [] {
      RunChecksAllPass(cs[1..]);
    }
  }

  /** The run reports no failure exactly when no check fails. */
  lemma {:induction false} RunChecksSucceedsIff(cs: seq<Check>)
    ensures RunChecks(cs).1.None? <==> forall i :: 0 <= i < |cs| ==> cs[i].failure.None?
  {
    if cs != [] {
      RunChecksSucceedsIff(cs[1..]);
      if cs[0].failure.None? && (forall i :: 0 <= i < |cs| - 1 ==> cs[1..][i].failure.None?) {
        forall i | 0 <= i < |cs| ensures cs[i].failure.None? {
          if i > 0 { assert cs[i] == cs[1..][i - 1]; }
        }
      }
    }
  }

  /** `processImage`'s early returns are the first-failure-wins run of its checks. */
  lemma ProcessImageRunsChecks(path: string, o: Outcomes)
    ensures var (ran, failure) := RunChecks(PipelineChecks(o));
            ProcessImage(path, o) == Report(Announce(path, failure), ran)
  {
    var cs := PipelineChecks(o);
    if o.open.Some? { RunChecksFirstFailure(cs, 0); }
    else if o.decode.Some? { RunChecksFirstFailure(cs, 1); }
    else if o.create.Some? { RunChecksFirstFailure(cs, 3); }
    else if EncoderFor(o.ext).None? { RunChecksFirstFailure(cs, 4); }
    else if o.encode.Some? { RunChecksFirstFailure(cs, 5); }
    else { RunChecksAllPass(cs); }
  }

  // ---------------------------------------------------------------------
  // Properties of the status message.
  // ---------------------------------------------------------------------

  /** An error message is never a success message, whatever the paths and cause. */
  lemma ErrorIsNotSuccess(path: string, cause: string, other: string)
    ensures ErrorMessage(path, cause) != SuccessMessage(other)
  {
    assert ErrorMessage(path, cause)[0] == 'E';
    assert SuccessMessage(other)[0] == 'S';
  }

  /** The task reports success exactly when every step succeeded and an encoder was picked. */
  lemma SuccessIff(path: string, o: Outcomes)
    ensures ProcessImage(path, o).message == SuccessMessage(path) <==>
            o.open.None? && o.decode.None? && o.create.None? &&
            EncoderFor(o.ext).Some? && o.encode.None?
  {
    if o.open.Some? { ErrorIsNotSuccess(path, o.open.value, path); }
    else if o.decode.Some? { ErrorIsNotSuccess(path, o.decode.value, path); }
    else if o.create.Some? { ErrorIsNotSuccess(path, o.create.value, path); }
    else if EncoderFor(o.ext).None? { ErrorIsNotSuccess(path, UnsupportedFormat, path); }
    else if o.encode.Some? { ErrorIsNotSuccess(path, o.encode.value, path); }
  }

  /** `path` occurs in `m` starting at index `i`. */
  predicate PathAt(m: string, path: string, i: nat) {
    i + |path| <= |m| && m[i..i + |path|] == path
  }

  /** Every message, success or failure, names the input path. */
  lemma MessageNamesPath(path: string, o: Outcomes)
    ensures exists i :: PathAt(ProcessImage(path, o).message, path, i)
  {
    var m := ProcessImage(path, o).message;
    if m == SuccessMessage(path) {
      assert PathAt(m, path, |"Successfully processed "|);
    } else {
      assert PathAt(m, path, |"Error when processing "|);
    }
  }

  /** The steps that ran are a prefix of the full order, with the encoder picked by the extension. */
  lemma StepsInOrder(path: string, o: Outcomes)
    ensures var full := [Open, Decode, Transform, Create, SelectEncoder] +
              (match EncoderFor(o.ext) case None => [] case Some(f) => [Encode(f)]);
            ProcessImage(path, o).ran <= full
  {
  }

  /**
   An unsupported extension is noticed only after the output file has been
   created; no encoder runs and the message says the format is unsupported.
   */
  lemma UnsupportedExtensionAfterCreate(path: string, o: Outcomes)
    requires o.open.None? && o.decode.None? && o.create.None?
    requires o.ext != ".png" && o.ext != ".jpg"
    ensures ProcessImage(path, o).message == ErrorMessage(path, "Unsupported file format")
    ensures Create in ProcessImage(path, o).ran
    ensures forall f :: Encode(f) !in ProcessImage(path, o).ran
  {
  }

  /** Extensions differing only in spelling or case are not accepted. */
  lemma ExtensionsAreExact()
    ensures EncoderFor(".jpeg") == None && EncoderFor(".PNG") == None && EncoderFor(".JPG") == None
    ensures EncoderFor("") == None && EncoderFor(".gif") == None
  {
  }
}
