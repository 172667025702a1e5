/** The deterministic part of `GptService.processStep`
    (services/gptService.ts): the API-key guard, the lookup of the step's
    prompt, the check of the response's `error` field, the defaulting of a
    missing message content, and the removal of markdown code fences around
    every non-ANALYZE answer. The request itself is the parameter `send`. */
module GptClient {
  import opened Wrappers
  import opened Text
  import opened Steps

  datatype ApiError = ApiError(message: string)

  /** One entry of `choices`: its `message.content`, which may be `null`. */
  datatype Choice = Choice(content: Option<string>)

  /** The parsed body of the chat-completions response. */
  datatype ChatResponse = ChatResponse(error: Option<ApiError>, choices: seq<Choice>)

  /** Why `processStep` throws. */
  datatype Failure =
    | MissingApiKey     // 'OpenAI API Key not configured in environment.'
    | ApiFailure(message: string)
    | NoPrompt          // the prompt table has no entry for the step
    | NoChoice          // `data.choices[0]` is undefined

  const MissingKeyMessage: string := "OpenAI API Key not configured in environment."

  /** The steps the prompt table (services/aiService.ts) has a prompt for;
      building the request for any other step calls `undefined` and throws. */
  const PromptSteps: set<Step> := {DECOMPILE, REFERENCE_RESOLVE, SEMANTIC_CLEANUP, REFINE, ANALYZE}

  /** Three backticks, the markdown code fence. */
  const Fence: string := "```"

  /** The key guard: the key is unset or empty. */
  predicate KeyMissing(apiKey: Option<string>) {
    apiKey.None? || apiKey == Some("")
  }

  /** The text of the first choice, or the empty string when its content is
      `null`. */
  function ContentText(c: Choice): (text: string)
    ensures c.content.Some? ==> text == c.content.value
    ensures c.content.None? ==> text == ""
  {
    match c.content
    case Some(t) => t
    case None => ""
  }

  /** The clean-up chain for non-ANALYZE steps: three global removals, then
      `trim()`. */
  function StripFences(text: string): string {
    Trim(RemoveAll(RemoveAll(RemoveAll(text, "```javascript"), "```js"), Fence))
  }

  /** `processStep`, with the request made by `send`. */
  function ProcessStep(step: Step, code: string, apiKey: Option<string>, send: (Step, string) -> ChatResponse)
    : (r: Result<string, Failure>)
    ensures KeyMissing(apiKey) ==> r == Err(MissingApiKey)
    ensures !KeyMissing(apiKey) && step !in PromptSteps ==> r == Err(NoPrompt)
    ensures !KeyMissing(apiKey) && step in PromptSteps && send(step, code).error.Some? ==>
      r == Err(ApiFailure(send(step, code).error.value.message))
    ensures !KeyMissing(apiKey) && step in PromptSteps && send(step, code).error.None? && |send(step, code).choices| == 0 ==>
      r == Err(NoChoice)
    ensures r.Ok? ==>
      !KeyMissing(apiKey) && step in PromptSteps && send(step, code).error.None? && |send(step, code).choices| > 0
    ensures r.Ok? && step == ANALYZE ==> r.value == ContentText(send(step, code).choices[0])
    ensures r.Ok? && step != ANALYZE ==> r.value == StripFences(ContentText(send(step, code).choices[0]))
  {
    if KeyMissing(apiKey) then Err(MissingApiKey)
    else if step !in PromptSteps then Err(NoPrompt)
    else
      var data := send(step, code);
      if data.error.Some? then Err(ApiFailure(data.error.value.message))
      else if |data.choices| == 0 then Err(NoChoice)
      else
        var text := ContentText(data.choices[0]);
        Ok(if step != ANALYZE then StripFences(text) else text)
  }

  /** Without a key no request matters: the outcome is the same whatever
      `send` would answer. */
  lemma MissingKeyIgnoresSend(step: Step, code: string, apiKey: Option<string>,
                              send1: (Step, string) -> ChatResponse, send2: (Step, string) -> ChatResponse)
    requires KeyMissing(apiKey)
    ensures ProcessStep(step, code, apiKey, send1) == ProcessStep(step, code, apiKey, send2)
  {
  }

  // ----------------------------------------------------- fence removal

  predicate HasFence(s: string) {
    exists i :: 0 <= i <= |s| && OccursAt(s, Fence, i)
  }

  /** Removal keeps the first character when it is not a backtick. */
  lemma RemoveFenceHead(s: string)
    requires |s| > 0 && s[0] != '`'
    ensures RemoveAll(s, Fence) == [s[0]] + RemoveAll(s[1..], Fence)
  {
  }

  /** Text that does not start with two backticks still does not after
      the removal. */
  lemma NoDoubleTickStart(s: string)
    requires !StartsWith(s, "``")
    ensures !StartsWith(RemoveAll(s, Fence), "``")
  {
    if |s| > 0 && s[0] == '`' {
      assert !StartsWith(s, Fence) by {
        if |s| >= 3 {
          assert s[..3][..2] == s[..2];
        }
      }
      var r := RemoveAll(s, Fence);
      assert r == [s[0]] + RemoveAll(s[1..], Fence);
      if |s| > 1 {
        RemoveFenceHead(s[1..]);
        assert r[1] == s[1];
      }
    } else if |s| > 0 {
      RemoveFenceHead(s);
    }
  }

  /** Removing every fence leaves none behind: a removal cannot bring two
      backtick runs together into a new fence. */
  lemma {:induction false} RemoveFencesLeavesNone(s: string)
    ensures !HasFence(RemoveAll(s, Fence))
  {
    if |s| > 0 {
      if StartsWith(s, Fence) {
        RemoveFencesLeavesNone(s[3..]);
      } else {
        RemoveFencesLeavesNone(s[1..]);
        var t := RemoveAll(s[1..], Fence);
        var r := RemoveAll(s, Fence);
        assert r == [s[0]] + t;
        if s[0] == '`' {
          assert !StartsWith(s[1..], "``") by {
            if |s| >= 3 {
              assert s[..3] == [s[0]] + s[1..][..2];
            }
          }
          NoDoubleTickStart(s[1..]);
        }
        forall i | 0 <= i <= |r| ensures !OccursAt(r, Fence, i) {
          if i > 0 && i + 3 <= |r| {
            assert r[i..i + 3] == t[i - 1..i + 2];
            assert !OccursAt(t, Fence, i - 1);
          } else if i == 0 && 3 <= |r| {
            assert r[..3] == [s[0]] + t[..2];
            if s[0] == '`' {
              assert t[..2] != "``";
            }
          }
        }
      }
    }
  }

  /** A piece of fence-free text is fence-free. */
  lemma SliceHasNoFence(s: string, a: nat, b: nat)
    requires a <= b <= |s| && !HasFence(s)
    ensures !HasFence(s[a..b])
  {
    var u := s[a..b];
    forall i | 0 <= i <= |u| ensures !OccursAt(u, Fence, i) {
      if i + 3 <= |u| {
        var x, y := u[i..i + 3], s[a + i..a + i + 3];
        forall m | 0 <= m < 3 ensures x[m] == y[m] {
          assert u[i + m] == s[a + i + m];
        }
        assert x == y;
        assert !OccursAt(s, Fence, a + i);
      }
    }
  }

  /** The clean-up result has no fence and no white space at either end. */
  lemma StripFencesClean(text: string)
    ensures !HasFence(StripFences(text))
    ensures |StripFences(text)| > 0 ==>
      !IsWhitespace(StripFences(text)[0]) && !IsWhitespace(StripFences(text)[|StripFences(text)| - 1])
  {
    var s := RemoveAll(RemoveAll(RemoveAll(text, "```javascript"), "```js"), Fence);
    RemoveFencesLeavesNone(RemoveAll(RemoveAll(text, "```javascript"), "```js"));
    var a, b := TrimIsSlice(s);
    SliceHasNoFence(s, a, b);
  }

  /** A longer pattern that starts with a fence cannot occur in fence-free text. */
  lemma NoFencedPattern(s: string, p: string)
    requires !HasFence(s) && StartsWith(p, Fence)
    ensures forall i :: 0 <= i <= |s| ==> !OccursAt(s, p, i)
  {
    forall i | 0 <= i <= |s| ensures !OccursAt(s, p, i) {
      if i + |p| <= |s| {
        assert s[i..i + |p|][..3] == s[i..i + 3];
        assert !OccursAt(s, Fence, i);
      }
    }
  }

  /** Cleaning up a cleaned-up answer changes nothing. */
  lemma StripFencesIdempotent(text: string)
    ensures StripFences(StripFences(text)) == StripFences(text)
  {
    var c := StripFences(text);
    StripFencesClean(text);
    NoFencedPattern(c, "```javascript");
    RemoveAllAbsent(c, "```javascript");
    NoFencedPattern(c, "```js");
    RemoveAllAbsent(c, "```js");
    NoFencedPattern(c, Fence);
    RemoveAllAbsent(c, Fence);
    TrimIdempotent(RemoveAll(RemoveAll(RemoveAll(text, "```javascript"), "```js"), Fence));
  }

  /** An answer for a code step has no fence and no surrounding white
      space, and is unchanged by a second clean-up; an ANALYZE answer is the
      content exactly as received. */
  lemma ProcessStepResult(step: Step, code: string, apiKey: Option<string>, send: (Step, string) -> ChatResponse)
    ensures ProcessStep(step, code, apiKey, send).Ok? && step != ANALYZE ==>
      && !HasFence(ProcessStep(step, code, apiKey, send).value)
      && StripFences(ProcessStep(step, code, apiKey, send).value) == ProcessStep(step, code, apiKey, send).value
  {
    if ProcessStep(step, code, apiKey, send).Ok? && step != ANALYZE {
      var text := ContentText(send(step, code).choices[0]);
      StripFencesClean(text);
      StripFencesIdempotent(text);
    }
  }
}
