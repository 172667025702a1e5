/** The pipeline runner of App.tsx: `runPipeline` carries a working copy of
    the code through the `steps` table, recording one history entry per
    code-producing step and stopping at the first step that throws;
    `getCurrentCode` reads the latest code back from the history, and
    `handleRefine` appends one more model pass to it. */
module Pipeline {
  import opened Wrappers
  import opened Steps
  import Stabilize
  import HexDecode

  datatype Status = Success | Warning | Error

  /** One history entry. */
  datatype TransformationResult = TransformationResult(
    step: Step, content: string, description: Description, status: Status, timestamp: nat)

  datatype ThreatLevel = Low | Medium | High | Critical

  datatype Indicator = Indicator(kind: string, value: string)

  /** The report the ANALYZE step's JSON text parses to. */
  datatype AnalysisSummary = AnalysisSummary(
    attackVector: string, impacts: seq<string>, iocs: seq<Indicator>,
    flowDescription: string, threatLevel: ThreatLevel)

  datatype ViewMode = Editor | Report

  /** `gemini.processStep(step, code)`: a model call that either yields text
      or throws (`Err`). */
  type AiCall = (Step, string) -> Result<string, string>

  /** `JSON.parse` of the analysis text: `None` where it throws, `Some(None)`
      where the text is the JSON `null`, otherwise `Some(Some(report))`. */
  type AnalysisParser = string -> Option<Option<AnalysisSummary>>

  /** The descriptions a history entry can carry; `Text` spells each out. */
  datatype Description = Normalized | Decoded | ProcessSuccessful(of: Step) | Interrupted | RefinementComplete
  {
    function Text(): string {
      match this
      case Normalized => "Normalized indentation and braces."
      case Decoded => "Static literals recovered."
      case ProcessSuccessful(s) => "Process successful for " + Label(s) + "."
      case Interrupted => "Step interrupted by execution error."
      case RefinementComplete => "Iterative logic refinement complete."
    }
  }

  /** The description recorded for a successful step. */
  function SuccessDescription(e: Step): Description {
    match HandlerOf(e)
    case Stabilizer => Normalized
    case HexDecoder => Decoded
    case Oracle => ProcessSuccessful(e)
  }

  /** What a step yields on the working code: the local steps cannot throw. */
  function StepOutcome(kind: Step, working: string, ai: AiCall): (r: Result<string, string>)
    ensures HandlerOf(kind) != Oracle ==> r.Ok?
  {
    match HandlerOf(kind)
    case Stabilizer => Ok(Stabilize.Stabilized(working))
    case HexDecoder => Ok(HexDecode.DecodeHexEscapes(working))
    case Oracle => ai(kind, working)
  }

  /** `result || workingCode`: an empty result keeps the previous code. */
  function OrElse(result: string, working: string): (w: string)
    ensures w != "" <==> result != "" || working != ""
    ensures result != "" ==> w == result
  {
    if result != "" then result else working
  }

  // ------------------------------------------------- run specification

  /** The state the loop carries: history, analysis and view so far, the
      working code, and whether a step has thrown (the loop has broken out). */
  datatype Progress = Progress(
    history: seq<TransformationResult>, analysis: Option<AnalysisSummary>, view: ViewMode,
    working: string, stopped: bool)

  /** One iteration of the loop for table row `e`. */
  function Advance(p: Progress, e: Step, ai: AiCall, parse: AnalysisParser, now: nat): Progress {
    if p.stopped then p
    else
      match StepOutcome(e, p.working, ai)
      case Err(_) =>
        p.(history := p.history + [TransformationResult(e, p.working, Interrupted, Error, now)],
           stopped := true)
      case Ok(result) =>
        if e == ANALYZE then
          (match parse(result) case Some(a) => p.(analysis := a, view := Report) case None => p)
        else
          var w := OrElse(result, p.working);
          p.(working := w,
             history := p.history + [TransformationResult(e, w, SuccessDescription(e), Success, now)])
  }

  /** A step that yields text: ANALYZE sets the analysis and shows the
      report only when its text parses (to a report or to `null`); any other
      step records its result, or the previous code when the result is empty. */
  lemma AdvanceOk(p: Progress, e: Step, ai: AiCall, parse: AnalysisParser, now: nat, result: string)
    requires !p.stopped && StepOutcome(e, p.working, ai) == Ok(result)
    ensures e == ANALYZE ==>
      Advance(p, e, ai, parse, now) == (if parse(result).Some? then p.(analysis := parse(result).value, view := Report) else p)
    ensures e != ANALYZE ==>
      Advance(p, e, ai, parse, now) == p.(working := OrElse(result, p.working),
        history := p.history + [TransformationResult(e, OrElse(result, p.working), SuccessDescription(e), Success, now)])
  {
  }

  /** A step that throws records the unchanged working code and stops the run. */
  lemma AdvanceErr(p: Progress, e: Step, ai: AiCall, parse: AnalysisParser, now: nat)
    requires !p.stopped && StepOutcome(e, p.working, ai).Err?
    ensures Advance(p, e, ai, parse, now) == p.(
      history := p.history + [TransformationResult(e, p.working, Interrupted, Error, now)],
      stopped := true)
  {
  }

  /** A row only appends to the history, leaves a stopped run alone, and
      touches the analysis and the view only when it is ANALYZE. */
  lemma AdvanceBasics(p: Progress, e: Step, ai: AiCall, parse: AnalysisParser, now: nat)
    ensures p.history <= Advance(p, e, ai, parse, now).history
    ensures p.stopped ==> Advance(p, e, ai, parse, now) == p
    ensures e != ANALYZE ==> Advance(p, e, ai, parse, now).analysis == p.analysis
    ensures e != ANALYZE ==> Advance(p, e, ai, parse, now).view == p.view
  {
  }

  /** The state after the first `n` rows of the table. */
  function RunSteps(n: nat, input: string, ai: AiCall, parse: AnalysisParser, now: nat): Progress
    requires n <= |PipelineSteps|
  {
    if n == 0 then Progress([], None, Editor, input, false)
    else Advance(RunSteps(n - 1, input, ai, parse, now), PipelineSteps[n - 1], ai, parse, now)
  }

  /** Row `n` advances the state after the first `n` rows. */
  lemma RunStepsNext(n: nat, input: string, ai: AiCall, parse: AnalysisParser, now: nat)
    requires n < |PipelineSteps|
    ensures RunSteps(n + 1, input, ai, parse, now) == Advance(RunSteps(n, input, ai, parse, now), PipelineSteps[n], ai, parse, now)
  {
  }

  /** The state after the whole table. */
  function Run(input: string, ai: AiCall, parse: AnalysisParser, now: nat): Progress {
    RunSteps(|PipelineSteps|, input, ai, parse, now)
  }

  // ------------------------------------------------------ current code

  /** The history entries that carry code: all but the ANALYZE ones. */
  function CodeSteps(h: seq<TransformationResult>): (r: seq<TransformationResult>)
    ensures |r| <= |h|
    ensures forall k :: 0 <= k < |r| ==> r[k].step != ANALYZE && r[k] in h
  {
    if |h| == 0 then []
    else
      var e := h[|h| - 1];
      CodeSteps(h[..|h| - 1]) + (if e.step != ANALYZE then [e] else [])
  }

  /** `getCurrentCode`: the content of the last entry that is not ANALYZE,
      or the empty text. */
  function CurrentCode(h: seq<TransformationResult>): (c: string)
    ensures c != "" ==> exists k :: 0 <= k < |h| && h[k].step != ANALYZE && h[k].content == c
    ensures (forall k :: 0 <= k < |h| ==> h[k].step == ANALYZE) ==> c == ""
  {
    var codeSteps := CodeSteps(h);
    if |codeSteps| > 0 then
      assert codeSteps[|codeSteps| - 1] in h;
      codeSteps[|codeSteps| - 1].content
    else ""
  }

  /** Appending an entry makes it the current code unless it is ANALYZE. */
  lemma CurrentCodeAppend(h: seq<TransformationResult>, e: TransformationResult)
    ensures CurrentCode(h + [e]) == if e.step != ANALYZE then e.content else CurrentCode(h)
  {
    assert (h + [e])[..|h|] == h;
  }

  /** The current code is the content of the last entry that is not ANALYZE. */
  lemma {:induction false} CurrentCodeIsLastCodeEntry(h: seq<TransformationResult>, k: nat)
    requires k < |h| && h[k].step != ANALYZE
    requires forall j :: k < j < |h| ==> h[j].step == ANALYZE
    ensures CurrentCode(h) == h[k].content
  {
    if k < |h| - 1 {
      var g := h[..|h| - 1];
      CurrentCodeIsLastCodeEntry(g, k);
      assert h == g + [h[|h| - 1]];
      CurrentCodeAppend(g, h[|h| - 1]);
    } else {
      assert h == h[..|h| - 1] + [h[|h| - 1]];
      CurrentCodeAppend(h[..|h| - 1], h[|h| - 1]);
    }
  }

  // ------------------------------------------------- run properties

  /** Successful code entries, then at most one error entry, which ends the
      history. */
  ghost predicate SuccessesThenError(h: seq<TransformationResult>) {
    forall k :: 0 <= k < |h| ==>
      (h[k].status == Success && h[k].step != ANALYZE) || (h[k].status == Error && k == |h| - 1)
  }

  /** Once a step has thrown, later rows change nothing. */
  lemma {:induction false} StoppedStays(n: nat, m: nat, input: string, ai: AiCall, parse: AnalysisParser, now: nat)
    requires n <= m <= |PipelineSteps| && RunSteps(n, input, ai, parse, now).stopped
    ensures RunSteps(m, input, ai, parse, now) == RunSteps(n, input, ai, parse, now)
    decreases m - n
  {
    if n < m {
      StoppedStays(n, m - 1, input, ai, parse, now);
      AdvanceBasics(RunSteps(m - 1, input, ai, parse, now), PipelineSteps[m - 1], ai, parse, now);
    }
  }

  /** The history after `n` rows: entry `k` belongs to row `k`; every entry
      is a success except possibly a last error entry, which is there
      exactly when a step threw; without one there is an entry for each
      row that is not ANALYZE; the last entry holds the working code. */
  ghost predicate Shaped(n: nat, p: Progress)
    requires n <= |PipelineSteps|
  {
    && SuccessesThenError(p.history)
    && |p.history| <= n
    && (forall k :: 0 <= k < |p.history| ==> p.history[k].step == PipelineSteps[k])
    && (p.stopped <==> |p.history| > 0 && p.history[|p.history| - 1].status == Error)
    && (!p.stopped ==> |p.history| == (if n == |PipelineSteps| then n - 1 else n))
    && (|p.history| > 0 ==> p.history[|p.history| - 1].content == p.working)
  }

  /** Each row keeps the history shaped. */
  lemma AdvanceShaped(n: nat, p: Progress, ai: AiCall, parse: AnalysisParser, now: nat)
    requires 0 < n <= |PipelineSteps| && Shaped(n - 1, p)
    ensures Shaped(n, Advance(p, PipelineSteps[n - 1], ai, parse, now))
  {
    var e := PipelineSteps[n - 1];
    var q := Advance(p, e, ai, parse, now);
    if !p.stopped {
      match StepOutcome(e, p.working, ai)
      case Ok(result) =>
        AdvanceOk(p, e, ai, parse, now, result);
        if e != ANALYZE {
          AppendShaped(n, p, q, TransformationResult(e, q.working, SuccessDescription(e), Success, now));
        }
      case Err(_) =>
        AdvanceErr(p, e, ai, parse, now);
        AppendShaped(n, p, q, TransformationResult(e, p.working, Interrupted, Error, now));
    }
  }

  /** Appending the entry of row `n - 1` to an unstopped shaped history. */
  lemma AppendShaped(n: nat, p: Progress, q: Progress, x: TransformationResult)
    requires 0 < n <= |PipelineSteps| && Shaped(n - 1, p) && !p.stopped
    requires q.history == p.history + [x] && x.step == PipelineSteps[n - 1] && x.content == q.working
    requires (x.status == Success && x.step != ANALYZE && !q.stopped) || (x.status == Error && q.stopped)
    ensures Shaped(n, q)
  {
    PipelineStepsShape();
    assert |p.history| == n - 1;
    forall k | 0 <= k < |q.history|
      ensures (q.history[k].status == Success && q.history[k].step != ANALYZE)
        || (q.history[k].status == Error && k == |q.history| - 1)
      ensures q.history[k].step == PipelineSteps[k]
    {
      if k < |p.history| {
        assert q.history[k] == p.history[k];
      }
    }
  }

  lemma {:induction false} RunStepsShape(n: nat, input: string, ai: AiCall, parse: AnalysisParser, now: nat)
    requires n <= |PipelineSteps|
    ensures Shaped(n, RunSteps(n, input, ai, parse, now))
  {
    if n > 0 {
      RunStepsShape(n - 1, input, ai, parse, now);
      AdvanceShaped(n, RunSteps(n - 1, input, ai, parse, now), ai, parse, now);
    }
  }

  /** No history entry and no working code is empty. */
  ghost predicate NoEmptyCode(p: Progress) {
    p.working != "" && forall k :: 0 <= k < |p.history| ==> p.history[k].content != ""
  }

  /** A row never empties the working code, and what it records is the
      working code it had or its new one. */
  lemma AdvanceKeepsCode(p: Progress, e: Step, ai: AiCall, parse: AnalysisParser, now: nat)
    requires NoEmptyCode(p)
    ensures NoEmptyCode(Advance(p, e, ai, parse, now))
  {
    var q := Advance(p, e, ai, parse, now);
    if !p.stopped {
      match StepOutcome(e, p.working, ai)
      case Ok(result) => AdvanceOk(p, e, ai, parse, now, result);
      case Err(_) => AdvanceErr(p, e, ai, parse, now);
    }
    forall k | 0 <= k < |q.history| ensures q.history[k].content != "" {
      if k < |p.history| {
        assert q.history[k] == p.history[k];
      }
    }
  }

  /** A run of non-empty input never empties the working code, so every
      history entry holds some code. */
  lemma {:induction false} RunStepsContentsNonEmpty(n: nat, input: string, ai: AiCall, parse: AnalysisParser, now: nat)
    requires n <= |PipelineSteps| && input != ""
    ensures RunSteps(n, input, ai, parse, now).working != ""
    ensures forall k :: 0 <= k < |RunSteps(n, input, ai, parse, now).history| ==>
      RunSteps(n, input, ai, parse, now).history[k].content != ""
  {
    if n > 0 {
      RunStepsContentsNonEmpty(n - 1, input, ai, parse, now);
      RunStepsNext(n - 1, input, ai, parse, now);
      AdvanceKeepsCode(RunSteps(n - 1, input, ai, parse, now), PipelineSteps[n - 1], ai, parse, now);
    }
  }

  /** The first two rows run locally and cannot throw: every run records a
      success entry for STABILIZE holding the normalised input (or the input
      itself when that is empty) and one for LITERAL_DECODE holding its
      decoding (or the previous code when that is empty). */
  lemma FirstTwoEntries(input: string, ai: AiCall, parse: AnalysisParser, now: nat)
    ensures |Run(input, ai, parse, now).history| >= 2
    ensures Run(input, ai, parse, now).history[0] == TransformationResult(
      STABILIZE, OrElse(Stabilize.Stabilized(input), input), Normalized, Success, now)
    ensures Run(input, ai, parse, now).history[1] == TransformationResult(
      LITERAL_DECODE,
      OrElse(HexDecode.DecodeHexEscapes(OrElse(Stabilize.Stabilized(input), input)), OrElse(Stabilize.Stabilized(input), input)),
      Decoded, Success, now)
  {
    LocalRows(input, ai, parse, now);
    RunStepsPrefix(2, |PipelineSteps|, input, ai, parse, now);
    PrefixEntries(RunSteps(2, input, ai, parse, now).history, Run(input, ai, parse, now).history);
  }

  /** The history after the two local rows. */
  lemma LocalRows(input: string, ai: AiCall, parse: AnalysisParser, now: nat)
    ensures |RunSteps(2, input, ai, parse, now).history| == 2
    ensures RunSteps(2, input, ai, parse, now).history[0] ==
      TransformationResult(STABILIZE, OrElse(Stabilize.Stabilized(input), input), Normalized, Success, now)
    ensures RunSteps(2, input, ai, parse, now).history[1] ==
      TransformationResult(LITERAL_DECODE,
        OrElse(HexDecode.DecodeHexEscapes(OrElse(Stabilize.Stabilized(input), input)), OrElse(Stabilize.Stabilized(input), input)),
        Decoded, Success, now)
  {
    var p1 := RunSteps(1, input, ai, parse, now);
    StabilizeRow(RunSteps(0, input, ai, parse, now), ai, parse, now);
    DecodeRow(p1, ai, parse, now);
  }

  /** The STABILIZE row on a running state. */
  lemma StabilizeRow(p: Progress, ai: AiCall, parse: AnalysisParser, now: nat)
    requires !p.stopped
    ensures Advance(p, STABILIZE, ai, parse, now) == p.(
      working := OrElse(Stabilize.Stabilized(p.working), p.working),
      history := p.history + [TransformationResult(STABILIZE, OrElse(Stabilize.Stabilized(p.working), p.working), Normalized, Success, now)])
  {
    AdvanceOk(p, STABILIZE, ai, parse, now, Stabilize.Stabilized(p.working));
  }

  /** The LITERAL_DECODE row on a running state. */
  lemma DecodeRow(p: Progress, ai: AiCall, parse: AnalysisParser, now: nat)
    requires !p.stopped
    ensures Advance(p, LITERAL_DECODE, ai, parse, now) == p.(
      working := OrElse(HexDecode.DecodeHexEscapes(p.working), p.working),
      history := p.history + [TransformationResult(LITERAL_DECODE, OrElse(HexDecode.DecodeHexEscapes(p.working), p.working), Decoded, Success, now)])
  {
    AdvanceOk(p, LITERAL_DECODE, ai, parse, now, HexDecode.DecodeHexEscapes(p.working));
  }

  lemma PrefixEntries(g: seq<TransformationResult>, h: seq<TransformationResult>)
    requires g <= h
    ensures |g| <= |h| && forall k :: 0 <= k < |g| ==> h[k] == g[k]
  {
  }

  /** Later rows only append to the history. */
  lemma {:induction false} RunStepsPrefix(n: nat, m: nat, input: string, ai: AiCall, parse: AnalysisParser, now: nat)
    requires n <= m <= |PipelineSteps|
    ensures RunSteps(n, input, ai, parse, now).history <= RunSteps(m, input, ai, parse, now).history
    decreases m - n
  {
    if n < m {
      RunStepsPrefix(n, m - 1, input, ai, parse, now);
      AdvanceBasics(RunSteps(m - 1, input, ai, parse, now), PipelineSteps[m - 1], ai, parse, now);
    }
  }

  /** After a whole run the history has the shape above, with exactly five
      success entries when no step threw. */
  lemma RunShape(input: string, ai: AiCall, parse: AnalysisParser, now: nat)
    ensures SuccessesThenError(Run(input, ai, parse, now).history)
    ensures !Run(input, ai, parse, now).stopped ==> |Run(input, ai, parse, now).history| == 5
    ensures Run(input, ai, parse, now).stopped ==>
      |Run(input, ai, parse, now).history| > 0
      && Run(input, ai, parse, now).history[|Run(input, ai, parse, now).history| - 1].status == Error
  {
    RunStepsShape(|PipelineSteps|, input, ai, parse, now);
  }

  /** After a whole run the current code is the final working code: after
      an abort, the last code that was produced. */
  lemma RunCurrentCode(input: string, ai: AiCall, parse: AnalysisParser, now: nat)
    ensures CurrentCode(Run(input, ai, parse, now).history) == Run(input, ai, parse, now).working
  {
    PipelineStepsShape();
    var r := Run(input, ai, parse, now);
    var p5 := RunSteps(5, input, ai, parse, now);
    RunStepsShape(|PipelineSteps|, input, ai, parse, now);
    RunStepsShape(5, input, ai, parse, now);
    if p5.stopped {
      assert r == p5;
      CurrentCodeIsLastCodeEntry(r.history, |r.history| - 1);
    } else {
      CurrentCodeIsLastCodeEntry(p5.history, 4);
      match StepOutcome(ANALYZE, p5.working, ai)
      case Ok(result) =>
        AdvanceOk(p5, PipelineSteps[5], ai, parse, now, result);
      case Err(_) =>
        AdvanceErr(p5, PipelineSteps[5], ai, parse, now);
        CurrentCodeAppend(p5.history, r.history[5]);
    }
  }

  /** The report view is shown exactly when the run reached the ANALYZE
      row without throwing and its text parsed; the analysis is then what
      the text parsed to (possibly `null`), and otherwise it stays unset. */
  lemma RunReport(input: string, ai: AiCall, parse: AnalysisParser, now: nat)
    ensures Run(input, ai, parse, now).view == Report <==>
      && !Run(input, ai, parse, now).stopped
      && ai(ANALYZE, Run(input, ai, parse, now).working).Ok?
      && parse(ai(ANALYZE, Run(input, ai, parse, now).working).value).Some?
    ensures Run(input, ai, parse, now).view == Report ==>
      Run(input, ai, parse, now).analysis == parse(ai(ANALYZE, Run(input, ai, parse, now).working).value).value
    ensures Run(input, ai, parse, now).view == Editor ==> Run(input, ai, parse, now).analysis == None
  {
    var r := Run(input, ai, parse, now);
    var p5 := RunSteps(5, input, ai, parse, now);
    RunStepsNoAnalysisBefore(5, input, ai, parse, now);
    if !p5.stopped {
      match StepOutcome(ANALYZE, p5.working, ai)
      case Ok(result) => AdvanceOk(p5, PipelineSteps[5], ai, parse, now, result);
      case Err(_) => AdvanceErr(p5, PipelineSteps[5], ai, parse, now);
    }
  }

  /** Only the ANALYZE row sets the analysis or shows the report. */
  lemma {:induction false} RunStepsNoAnalysisBefore(n: nat, input: string, ai: AiCall, parse: AnalysisParser, now: nat)
    requires n <= 5
    ensures RunSteps(n, input, ai, parse, now).analysis.None? && RunSteps(n, input, ai, parse, now).view == Editor
  {
    if n > 0 {
      RunStepsNoAnalysisBefore(n - 1, input, ai, parse, now);
      PipelineStepsShape();
      AdvanceBasics(RunSteps(n - 1, input, ai, parse, now), PipelineSteps[n - 1], ai, parse, now);
    }
  }

  // ---------------------------------------------------------- refinement

  /** The history after `handleRefine`: nothing happens without current
      code or while a run is in progress, or when the model call throws;
      otherwise the refined text is appended verbatim. */
  function Refined(h: seq<TransformationResult>, busy: bool, ai: AiCall, now: nat): seq<TransformationResult> {
    var code := CurrentCode(h);
    if code == "" || busy then h
    else
      match ai(REFINE, code)
      case Err(_) => h
      case Ok(refined) => h + [TransformationResult(REFINE, refined, RefinementComplete, Success, now)]
  }

  /** Refinement only ever appends one success entry; when it does, the
      refined text (even an empty one) becomes the current code. */
  lemma RefinedAppendsOnly(h: seq<TransformationResult>, busy: bool, ai: AiCall, now: nat)
    ensures Refined(h, busy, ai, now) == h
      || (&& !busy && CurrentCode(h) != "" && ai(REFINE, CurrentCode(h)).Ok?
          && Refined(h, busy, ai, now) == h + [TransformationResult(REFINE, ai(REFINE, CurrentCode(h)).value, RefinementComplete, Success, now)])
    ensures |Refined(h, busy, ai, now)| > |h| ==> CurrentCode(Refined(h, busy, ai, now)) == ai(REFINE, CurrentCode(h)).value
    ensures (busy || CurrentCode(h) == "") ==> Refined(h, busy, ai, now) == h
  {
    var code := CurrentCode(h);
    if code != "" && !busy && ai(REFINE, code).Ok? {
      CurrentCodeAppend(h, TransformationResult(REFINE, ai(REFINE, code).value, RefinementComplete, Success, now));
    }
  }

  // ---------------------------------------------------------- component

  /** The component's state: the six `useState` hooks. */
  class App {
    var inputCode: string
    var history: seq<TransformationResult>
    var isProcessing: bool
    var activeStepIndex: int
    var analysis: Option<AnalysisSummary>
    var viewMode: ViewMode

    constructor()
      ensures inputCode == "" && history == [] && !isProcessing
      ensures activeStepIndex == -1 && analysis == None && viewMode == Editor
    {
      inputCode := "";
      history := [];
      isProcessing := false;
      activeStepIndex := -1;
      analysis := None;
      viewMode := Editor;
    }

    /** `runPipeline`. */
    method RunPipeline(ai: AiCall, parse: AnalysisParser, now: nat)
      modifies this
      ensures old(inputCode) == "" ==> unchanged(this)
      ensures old(inputCode) != "" ==>
        && inputCode == old(inputCode)
        && history == Run(inputCode, ai, parse, now).history
        && analysis == Run(inputCode, ai, parse, now).analysis
        && viewMode == Run(inputCode, ai, parse, now).view
        && !isProcessing && activeStepIndex == -1
    {
      if inputCode == "" {
        return;
      }
      isProcessing := true;
      history := [];
      analysis := None;
      viewMode := Editor;
      RunRows(ai, parse, now);
      isProcessing := false;
      activeStepIndex := -1;
    }

    /** The `for` loop of `runPipeline`, from the cleared state: runs the
        table row by row and breaks out after the first row that throws. */
    method RunRows(ai: AiCall, parse: AnalysisParser, now: nat)
      modifies this
      requires history == [] && analysis == None && viewMode == Editor
      ensures history == Run(inputCode, ai, parse, now).history
      ensures analysis == Run(inputCode, ai, parse, now).analysis
      ensures viewMode == Run(inputCode, ai, parse, now).view
      ensures inputCode == old(inputCode) && isProcessing == old(isProcessing)
    {
      var workingCode := inputCode;
      var i := 0;
      while i < |PipelineSteps|
        invariant 0 <= i <= |PipelineSteps| && inputCode == old(inputCode) && isProcessing == old(isProcessing)
        invariant RunSteps(i, inputCode, ai, parse, now) == Progress(history, analysis, viewMode, workingCode, false)
      {
        activeStepIndex := i;
        var threw;
        workingCode, threw := RunRow(i, workingCode, ai, parse, now);
        if threw {
          StoppedStays(i + 1, |PipelineSteps|, inputCode, ai, parse, now);
          break;
        }
        i := i + 1;
      }
    }

    /** Row `i` of the loop: advances the state after `i` rows to the state
        after `i + 1`. */
    method RunRow(i: nat, workingCode: string, ai: AiCall, parse: AnalysisParser, now: nat)
      returns (newWorking: string, threw: bool)
      modifies this
      requires i < |PipelineSteps|
      requires RunSteps(i, inputCode, ai, parse, now) == Progress(history, analysis, viewMode, workingCode, false)
      ensures RunSteps(i + 1, inputCode, ai, parse, now) == Progress(history, analysis, viewMode, newWorking, threw)
      ensures inputCode == old(inputCode) && isProcessing == old(isProcessing)
      ensures activeStepIndex == old(activeStepIndex)
    {
      newWorking, threw := RunStep(PipelineSteps[i], workingCode, ai, parse, now);
      RunStepsNext(i, inputCode, ai, parse, now);
    }

    /** One pass of the loop body, its `try` block and its `catch`: runs
        `step` on the working code and records what it yields. */
    method RunStep(step: Step, workingCode: string, ai: AiCall, parse: AnalysisParser, now: nat)
      returns (newWorking: string, threw: bool)
      modifies this
      ensures Advance(Progress(old(history), old(analysis), old(viewMode), workingCode, false), step, ai, parse, now)
        == Progress(history, analysis, viewMode, newWorking, threw)
      ensures inputCode == old(inputCode) && isProcessing == old(isProcessing)
      ensures activeStepIndex == old(activeStepIndex)
    {
      ghost var before := Progress(history, analysis, viewMode, workingCode, false);
      newWorking, threw := workingCode, false;
      var outcome: Result<string, string>;
      var description: Description;
      if step == STABILIZE {
        var result := Stabilize.StabilizeCode(workingCode);
        outcome := Ok(result);
        description := Normalized;
      } else if step == LITERAL_DECODE {
        outcome := Ok(HexDecode.DecodeHexEscapes(workingCode));
        description := Decoded;
      } else {
        outcome := ai(step, workingCode);
        description := ProcessSuccessful(step);
      }
      assert outcome == StepOutcome(step, workingCode, ai);
      if outcome.Err? {
        AdvanceErr(before, step, ai, parse, now);
        history := history + [TransformationResult(step, workingCode, Interrupted, Error, now)];
        threw := true;
        return;
      }
      var result := outcome.value;
      AdvanceOk(before, step, ai, parse, now, result);
      if step == ANALYZE {
        var parsed := parse(result);
        if parsed.Some? {
          analysis := parsed.value;
          viewMode := Report;
        }
      } else {
        newWorking := if result != "" then result else workingCode;
        history := history + [TransformationResult(step, newWorking, description, Success, now)];
      }
    }

    /** `handleRefine`. */
    method HandleRefine(ai: AiCall, now: nat)
      modifies this
      ensures history == Refined(old(history), old(isProcessing), ai, now)
      ensures isProcessing == old(isProcessing)
      ensures inputCode == old(inputCode) && activeStepIndex == old(activeStepIndex)
      ensures analysis == old(analysis) && viewMode == old(viewMode)
    {
      var code := CurrentCode(history);
      if code == "" || isProcessing {
        return;
      }
      isProcessing := true;
      var outcome := ai(REFINE, code);
      if outcome.Ok? {
        history := history + [TransformationResult(REFINE, outcome.value, RefinementComplete, Success, now)];
      }
      isProcessing := false;
    }
  }
}
