/** The deobfuscation steps as App.tsx names them, the `steps` table the
    pipeline runs (App.tsx), and which handler each step goes to. */
module Steps {

  /** Step kinds under the names App.tsx uses. */
  datatype Step = STABILIZE | LITERAL_DECODE | DECOMPILE | REFERENCE_RESOLVE | SEMANTIC_CLEANUP | ANALYZE | REFINE

  /** The `steps` table, in the order the pipeline runs it; each row's
      label is `Label` of its type. */
  const PipelineSteps: seq<Step> := [STABILIZE, LITERAL_DECODE, DECOMPILE, REFERENCE_RESOLVE, SEMANTIC_CLEANUP, ANALYZE]

  /** The `label` of a table row. */
  function Label(s: Step): string {
    match s
    case STABILIZE => "Normalize Structure"
    case LITERAL_DECODE => "Static Literal Decoding"
    case DECOMPILE => "VM / Bytecode Decompilation"
    case REFERENCE_RESOLVE => "Reference Pool Inlining"
    case SEMANTIC_CLEANUP => "Semantic Reconstruction"
    case ANALYZE => "Forensic Intelligence"
    case REFINE => ""  // REFINE has no row
  }

  /** Who produces a step's result: the local normaliser, the local hex
      decoder, or the remote model. */
  datatype Handler = Stabilizer | HexDecoder | Oracle

  /** The `if / else if / else` dispatch of the pipeline loop. */
  function HandlerOf(s: Step): (h: Handler)
    ensures h == Stabilizer <==> s == STABILIZE
    ensures h == HexDecoder <==> s == LITERAL_DECODE
  {
    if s == STABILIZE then Stabilizer
    else if s == LITERAL_DECODE then HexDecoder
    else Oracle
  }

  /** The table runs every step except REFINE exactly once, ANALYZE last,
      and only its first two rows are handled locally. */
  lemma {:induction false} PipelineStepsShape()
    ensures |PipelineSteps| == 6 && PipelineSteps[5] == ANALYZE
    ensures forall i, j :: 0 <= i < j < |PipelineSteps| ==> PipelineSteps[i] != PipelineSteps[j]
    ensures forall i :: 0 <= i < |PipelineSteps| ==> PipelineSteps[i] != REFINE
    ensures forall i :: 0 <= i < |PipelineSteps| ==> (HandlerOf(PipelineSteps[i]) == Oracle <==> 2 <= i)
  {
    forall i, j | 0 <= i < j < |PipelineSteps| ensures PipelineSteps[i] != PipelineSteps[j] {
      assert i in {0, 1, 2, 3, 4} && j in {1, 2, 3, 4, 5};
    }
  }

  // ------------------------------------------------ run-time step tags

  /** What a `DeobfuscationStep.X` member expression evaluates to when the
      bundle is built without type checking: the enum declared in types.ts
      has the members below, and any other member reads as `undefined`. */
  datatype Tag = Member(name: string) | Undefined

  const DeclaredMembers: seq<string> := ["STABILIZE", "HEX_DECODE", "VM_LIFTING", "STRING_RESOLVE", "CLEANUP", "ANALYZE"]

  function EnumMember(name: string): (t: Tag)
    ensures t.Member? <==> name in DeclaredMembers
  {
    if name in DeclaredMembers then Member(name) else Undefined
  }

  function StepName(s: Step): string {
    match s
    case STABILIZE => "STABILIZE"
    case LITERAL_DECODE => "LITERAL_DECODE"
    case DECOMPILE => "DECOMPILE"
    case REFERENCE_RESOLVE => "REFERENCE_RESOLVE"
    case SEMANTIC_CLEANUP => "SEMANTIC_CLEANUP"
    case ANALYZE => "ANALYZE"
    case REFINE => "REFINE"
  }

  /** The dispatch as written, comparing run-time tags with `===`. */
  function HandlerOfTagAsWritten(t: Tag): Handler {
    if t == EnumMember("STABILIZE") then Stabilizer
    else if t == EnumMember("LITERAL_DECODE") then HexDecoder
    else Oracle
  }

  /** As written, the three model-driven steps carry the tag `undefined`,
      which equals `DeobfuscationStep.LITERAL_DECODE` (also `undefined`):
      each runs the hex decoder again instead of the model, while the
      intended dispatch sends them to the model. */
  lemma UndefinedStepsDecodeHex()
    ensures forall s :: s in [DECOMPILE, REFERENCE_RESOLVE, SEMANTIC_CLEANUP] ==>
      HandlerOfTagAsWritten(EnumMember(StepName(s))) == HexDecoder && HandlerOf(s) == Oracle
  {
    assert "LITERAL_DECODE" !in DeclaredMembers;
    assert "DECOMPILE" !in DeclaredMembers;
    assert "REFERENCE_RESOLVE" !in DeclaredMembers;
    assert "SEMANTIC_CLEANUP" !in DeclaredMembers;
  }

  /** The steps whose names types.ts does declare are dispatched as intended. */
  lemma DeclaredStepsDispatchAsIntended()
    ensures forall s :: s in [STABILIZE, ANALYZE] ==>
      HandlerOfTagAsWritten(EnumMember(StepName(s))) == HandlerOf(s)
  {
    assert "LITERAL_DECODE" !in DeclaredMembers;
  }
}
