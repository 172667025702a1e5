# JSDeobfuscator core, modelled in Dafny

JSDeobfuscator is a browser tool for forensic analysts. It takes obfuscated
JavaScript and runs it through a fixed pipeline of steps:

- Two steps are local and deterministic. `stabilizeCode` breaks the code into
  lines and re-indents them. `decodeHexEscapes` turns `\xHH` escapes into
  characters.
- The other steps are delegated to a language model: decompilation,
  reference inlining, semantic clean-up, and a final ANALYZE step whose JSON
  answer becomes the forensic report.

The pipeline is modelled with the dispatch its authors evidently intended.
As written, the three model steps also run the hex decoder (see Findings).

Each step's result is recorded in a history, and the pipeline stops at the
first step that throws. A "refine" action sends the current code through the
model once more.

Beside the pipeline sit three more pieces:

- Static helpers: an array-rotation resolver, a string-pool extractor and a
  signature-based indicator-of-compromise (IoC) scanner.
- A small registry of model providers.
- The GPT client. It guards on the API key, checks the response for an error
  and strips markdown code fences from the answer.

The project models these pieces and proves what each of them promises.

| file | module | models |
|---|---|---|
| `wrappers.dfy` | `Wrappers` | `Option` / `Result` |
| `text.dfy` | `Text` | JavaScript string operations the core relies on: `trim` with the ECMAScript white-space set, `split`/`join`, literal `replace` (first occurrence and global), `indexOf`, `startsWith`/`endsWith` |
| `stabilize.dfy` | `Stabilize` | `stabilizeCode` |
| `hex_decode.dfy` | `HexDecode` | `decodeHexEscapes` |
| `rotation.dfy` | `ArrayRotation` | `resolveArrayRotations`, `extractStringPool` |
| `ioc_scan.dfy` | `IocScan` | `staticIocScan` |
| `steps.dfy` | `Steps` | the `steps` table of `App.tsx` and its dispatch |
| `pipeline.dfy` | `Pipeline` | `runPipeline`, `getCurrentCode`, `handleRefine` and the component state they update (class `App`) |
| `ai_factory.dfy` | `AiFactory` | the `services` registry and the `activeId` state (class `Factory`) |
| `gpt_service.dfy` | `GptClient` | `GptService.processStep` |

Each kind of code is modelled in its own form:

- Pure string code is modelled as functions.
- Code that works through a mutable counter or array is modelled as a method
  with a loop: the re-indentation pass, the rotation loop, the
  de-duplication and push loops, and the pipeline loop. Each such method is
  proved equal to a specification function.
- The React state of `App` and the module state of `aiFactory` are classes
  whose methods update their fields.

## Model

| member | source | states |
|---|---|---|
| `Text.TrimIsSlice` | utils/deobfuscationLogic.ts:10 | `trim()` returns a contiguous piece of the line. Everything cut on either side is white space, and a non-empty result starts and ends with a non-white-space character. |
| `Text.ContentEnd` | utils/deobfuscationLogic.ts:10 | The end of a line's content: everything from it to the end of the range is white space, and the character just before it is not. |
| `Text.TrimIdempotent` | services/gptService.ts:43 | Trimming twice is trimming once. |
| `Text.Split` | utils/deobfuscationLogic.ts:9 | `split('\n')` yields at least one piece, and no piece contains the separator. |
| `Text.JoinSplit` | utils/deobfuscationLogic.ts:9-12 | Joining the pieces of a split with the same separator gives back the text. |
| `Text.SplitJoin` | utils/deobfuscationLogic.ts:15 | Splitting a join of separator-free pieces gives back the pieces. |
| `Text.IndexOfFrom` | utils/deobfuscationLogic.ts:85 | The index found is an occurrence at or after `from`, and there is no occurrence between `from` and it. `None` means no occurrence at all. |
| `Text.ReplaceFirst` | utils/deobfuscationLogic.ts:85 | A string-pattern `replace` splices the replacement over the leftmost occurrence. Without an occurrence the text is unchanged. |
| `Text.RemoveAllAbsent` | services/gptService.ts:43 | A global removal changes nothing in text where the pattern never occurs. |
| `Text.TrimKeepsNonWhitespace` | utils/deobfuscationLogic.ts:10 | Trimming removes no visible character. |
| `Text.JoinKeepsNonWhitespace` | utils/deobfuscationLogic.ts:12 | Joining lines with a line break adds no visible character. |
| `Text.ReplaceCharKeepsNonWhitespace` | utils/deobfuscationLogic.ts:5-8 | A global one-character replacement whose replacement has the same visible characters keeps the visible text. |
| `Stabilize.BreakLinesPerChar` | utils/deobfuscationLogic.ts:5-8 | The four chained global replacements act character by character. No replacement introduces a character that a later one rewrites. |
| `Stabilize.TrimAll` | utils/deobfuscationLogic.ts:10 | `map(line => line.trim())` keeps the number of lines. |
| `Stabilize.NonEmptyLines` | utils/deobfuscationLogic.ts:11 | The filter keeps only non-empty lines, each taken from the input. |
| `Stabilize.Reindented` | utils/deobfuscationLogic.ts:16-21 | Re-indentation keeps the number of lines. |
| `Stabilize.Reindent` | utils/deobfuscationLogic.ts:14-21 | The loop with the mutable `indent` counter computes `Reindented` of the lines. |
| `Stabilize.StabilizeCode` | utils/deobfuscationLogic.ts:2-24 | `stabilizeCode` computes `Stabilized(code)`: the pre-pass, then a split, the re-indentation and a join. |
| `Stabilize.StabilizeKeepsNonWhitespace` | utils/deobfuscationLogic.ts:2-24 | Normalisation changes layout only. The sequence of visible characters of the result equals that of the input. |
| `Stabilize.PrePassLinesWellFormed` | utils/deobfuscationLogic.ts:4-12 | Every line the pre-pass keeps is non-empty, trimmed and has no line break. A `}` stands alone on its line, and `{` or `;` can only end a line. |
| `Stabilize.StabilizeLayout` | utils/deobfuscationLogic.ts:2-24 | Code with no kept line normalises to `""`. Otherwise the result has exactly one line per kept line, and line k is `2 * Level(k)` spaces followed by that kept line. |
| `Stabilize.DepthCountsNesting` | utils/deobfuscationLogic.ts:14-21 | The `indent` counter is at least the number of opening lines minus closing lines seen so far. It equals that difference while no closing line is unmatched, which is where the `Math.max(0, …)` clamp matters. |
| `HexDecode.HexValue` | utils/deobfuscationLogic.ts:28 | `parseInt(d, 16)` of one hexadecimal digit is below 16. |
| `HexDecode.DecodeHexEscapes` | utils/deobfuscationLogic.ts:26-30 | Decoding never lengthens the text. |
| `HexDecode.NoEscapeUnchanged` | utils/deobfuscationLogic.ts:26-30 | Text without a `\xHH` escape comes back unchanged. |
| `HexDecode.DecodingIsNotRecursive` | utils/deobfuscationLogic.ts:27 | The global replace resumes after each match. So `\x5cx41` decodes to the text `\x41`, which is not decoded again. |
| `HexDecode.HexDigit` | utils/deobfuscationLogic.ts:28 | The digit written for a value below 16 is a hexadecimal digit that parses back to that value. |
| `HexDecode.DecodeEncode` | utils/deobfuscationLogic.ts:26-30 | Decoding inverts escaping. Every text of characters below 256, written entirely as `\xHH` escapes, decodes back to itself. |
| `ArrayRotation.NameEnd` | utils/deobfuscationLogic.ts:39 | The greedy name group, when it matches, is non-empty and lies within the code. |
| `ArrayRotation.MatchDeclAt` | utils/deobfuscationLogic.ts:39 | A declaration match found at `i` starts at `i` with the keyword `const`. |
| `ArrayRotation.DeclShape` | utils/deobfuscationLogic.ts:39 | A declaration match is a piece of the code. Its name is non-empty, and `_0x` plus hexadecimal digits for the `extractStringPool` pattern. Its literal is `[`, at least one non-`]` character, then `]`, and the match ends with that literal and `;`. |
| `ArrayRotation.HexNameShape` | utils/deobfuscationLogic.ts:129 | A name accepted by `(_0x[a-f0-9]+)` under the `i` flag is `_0x` or `_0X` followed by hexadecimal digits. |
| `ArrayRotation.FindDeclFrom` | utils/deobfuscationLogic.ts:39 | `code.match` returns the leftmost declaration match. No position before it matches. |
| `ArrayRotation.NoKeywordNoDecl` | utils/deobfuscationLogic.ts:39-40 | Code in which `const` never occurs has no pool declaration, so the resolver returns it as is. |
| `ArrayRotation.KeywordIsConst` | utils/deobfuscationLogic.ts:39 | The letter-by-letter keyword test used by the declaration search matches exactly where the text `const` occurs. |
| `ArrayRotation.ParseItems` | utils/deobfuscationLogic.ts:47 | A parsed array has at least one element, and every element is an escape-free string. |
| `ArrayRotation.ParsePool` | utils/deobfuscationLogic.ts:44-50 | `JSON.parse` of the requoted literal yields only escape-free strings. |
| `ArrayRotation.ParseStringify` | utils/deobfuscationLogic.ts:47 | `JSON.parse(JSON.stringify(pool))` is the pool, for every array of escape-free strings. The written-back declaration therefore reads back as the rotated pool. |
| `ArrayRotation.RotatedLeftAt` | utils/deobfuscationLogic.ts:70-80 | Element i of the pool turned left k times is element `(i + k) mod n` of the pool. |
| `ArrayRotation.RotateOnce` | utils/deobfuscationLogic.ts:78-79 | One `push(shift())` turns the rotated pool left by one more place. |
| `ArrayRotation.RotatePool` | utils/deobfuscationLogic.ts:70-80 | The `while (--internalCount)` loop, seeded with `offset + 1`, runs exactly `offset` times. It yields the pool turned left `offset` times, and leaves an empty pool as is. |
| `ArrayRotation.RotationExample` | utils/deobfuscationLogic.ts:77-80 | `["a","b","c","d"]` turned once is `["b","c","d","a"]`. |
| `ArrayRotation.ResolveArrayRotations` | utils/deobfuscationLogic.ts:36-91 | The code comes back unchanged when there is no declaration, the literal does not parse, or the rotation routine is missing. Otherwise the first occurrence of the declaration text is replaced by the declaration of the pool turned left by the offset. Then the first occurrence of the routine text is replaced by the marker comment naming the raw offset. |
| `ArrayRotation.ExtractStringPool` | utils/deobfuscationLogic.ts:128-140 | The result is `None` exactly when there is no `_0x…` declaration or its requoted literal does not parse. Otherwise it holds the declaration's `_0x`-hex name and exactly the parsed strings. |
| `IocScan.Rank` | utils/deobfuscationLogic.ts:100-107 | Every type has its place in the `patterns` table. |
| `IocScan.HashStarts` | utils/deobfuscationLogic.ts:104-106 | Every reported start is a match of `\b[a-fA-F0-9]{n}\b`, and starts are strictly increasing. |
| `IocScan.HashStartsComplete` | utils/deobfuscationLogic.ts:104-106 | Every match of `\b[a-fA-F0-9]{n}\b` at or after the scan start is reported. |
| `IocScan.HashMatchesSound` | utils/deobfuscationLogic.ts:104-106 | Every MD5/SHA1/SHA256 hit is exactly n hexadecimal digits. |
| `IocScan.HashMatchesComplete` | utils/deobfuscationLogic.ts:104-106 | Every word of exactly n hexadecimal digits in the code is among the hits. |
| `IocScan.Distinct` | utils/deobfuscationLogic.ts:113 | `[...new Set(xs)]` holds no value twice, and holds exactly the values of `xs`. |
| `IocScan.FirstIndex` | utils/deobfuscationLogic.ts:113 | The index returned holds the value, and no earlier index does. |
| `IocScan.DistinctInFirstOccurrenceOrder` | utils/deobfuscationLogic.ts:113 | The distinct values come in the order of their first occurrences, as a `Set` iterates. |
| `IocScan.DistinctIsCaseSensitive` | utils/deobfuscationLogic.ts:113 | De-duplication is exact: `A` and `a` are both kept. |
| `IocScan.Dedup` | utils/deobfuscationLogic.ts:113 | The de-duplication loop computes `Distinct`. |
| `IocScan.Tagged` | utils/deobfuscationLogic.ts:113-121 | The entries pushed for a pattern are at most its distinct matches. Their order is stated by `TaggedOrder`. |
| `IocScan.TaggedOrder` | utils/deobfuscationLogic.ts:113-121 | The DOMAIN filter keeps the order: values in first-occurrence order give entries in first-occurrence order. |
| `IocScan.TaggedEntries` | utils/deobfuscationLogic.ts:113-121 | Each pushed entry has the pattern's type and the `Static Signature Match` context, and holds a matched value that is reported. |
| `IocScan.TaggedComplete` | utils/deobfuscationLogic.ts:113-121 | Every reported matched value gets its entry. |
| `IocScan.TaggedDistinct` | utils/deobfuscationLogic.ts:113-121 | No value is pushed twice for one pattern. |
| `IocScan.PushEntries` | utils/deobfuscationLogic.ts:113-121 | The inner `forEach` appends exactly the tagged entries to the list. |
| `IocScan.StaticIocScan` | utils/deobfuscationLogic.ts:97-126 | The whole scan computes `StaticIocs(code)`: the patterns in table order, each contributing its tagged distinct matches. |
| `IocScan.ScanPatternsSound` | utils/deobfuscationLogic.ts:109-121 | Every entry is a reported match of its own type and carries the signature context. |
| `IocScan.ScanPatternsGrouped` | utils/deobfuscationLogic.ts:109-121 | Entries are grouped by type in table order, and within one type no value repeats. |
| `IocScan.ScanPatternsOrdered` | utils/deobfuscationLogic.ts:99-123 | Over patterns of increasing rank, the values of each type come in the order of their first occurrences among that type's matches. |
| `IocScan.StaticIocsShape` | utils/deobfuscationLogic.ts:97-126 | The result is grouped in table order and sound. Within a type it is duplicate-free, with values in the order of their first occurrences among the matches. No DOMAIN entry ends in `.length`, `.push`, `.shift`, `.slice`, `.join` or `.sort`, compared without case. |
| `IocScan.ScanPatternsComplete` | utils/deobfuscationLogic.ts:109-121 | Every reported match of a pattern in the list appears among the entries. |
| `IocScan.StaticIocsComplete` | utils/deobfuscationLogic.ts:97-126 | Every reported match of any of the six patterns is in the result. |
| `IocScan.MemberAccessIsDropped` | utils/deobfuscationLogic.ts:115-118 | A DOMAIN hit such as `items.Length` is dropped. |
| `Steps.HandlerOf` | App.tsx:105-114 | STABILIZE and only it goes to `stabilizeCode`. LITERAL_DECODE and only it goes to `decodeHexEscapes`. Every other step goes to the model. |
| `Steps.PipelineStepsShape` | App.tsx:38-45 | The table has six rows, all distinct, without REFINE and with ANALYZE last. Exactly the rows from the third on go to the model (intended dispatch). |
| `Steps.EnumMember` | types.ts:2-9 | A `DeobfuscationStep` member read at run time is a value exactly when types.ts declares it. |
| `Steps.UndefinedStepsDecodeHex` | App.tsx:105-114 | As written, DECOMPILE, REFERENCE_RESOLVE and SEMANTIC_CLEANUP dispatch to the hex decoder rather than the model. |
| `Steps.DeclaredStepsDispatchAsIntended` | App.tsx:105-114 | STABILIZE and ANALYZE, which types.ts declares, dispatch as intended. |
| `Pipeline.StepOutcome` | App.tsx:105-114 | The two local steps never throw (intended dispatch; see Findings). |
| `Pipeline.OrElse` | App.tsx:124 | `result \|\| workingCode` is the result when that is non-empty. It is non-empty exactly when one of the two is. |
| `Pipeline.AdvanceOk` | App.tsx:116-132 | After a step that yields text, ANALYZE only sets the analysis and shows the report, and only when its text parses (to a report or to `null`). Any other step replaces the working code with `result \|\| workingCode` and appends one success entry holding it. |
| `Pipeline.AdvanceErr` | App.tsx:133-141 | A step that throws appends one error entry with the unchanged working code and stops the loop. |
| `Pipeline.AdvanceBasics` | App.tsx:97-143 | A step only appends to the history, does nothing after a stop, and leaves the analysis and the view alone unless it is ANALYZE. |
| `Pipeline.CodeSteps` | App.tsx:49 | The filter keeps entries of the history that are not ANALYZE entries. |
| `Pipeline.CurrentCode` | App.tsx:47-51 | `getCurrentCode` returns `""` or the content of a non-ANALYZE entry, and `""` when there is no such entry. |
| `Pipeline.CurrentCodeAppend` | App.tsx:47-51 | Appending a non-ANALYZE entry makes its content the current code. Appending an ANALYZE entry leaves the current code as it was. |
| `Pipeline.CurrentCodeIsLastCodeEntry` | App.tsx:47-51 | The current code is the content of the last non-ANALYZE entry. |
| `Pipeline.StoppedStays` | App.tsx:141 | After `break`, later rows change nothing. |
| `Pipeline.RunStepsShape` | App.tsx:97-143 | After n rows the history follows the table order. It holds only success entries for code steps, except possibly a final error entry, which is there exactly when the loop stopped. |
| `Pipeline.RunStepsContentsNonEmpty` | App.tsx:124 | For non-empty input, neither the working code nor any recorded content is ever empty. |
| `Pipeline.AdvanceKeepsCode` | App.tsx:98-142 | One row never empties the working code or a recorded content that was non-empty before it. |
| `Pipeline.FirstTwoEntries` | App.tsx:105-110 | The first two entries are always the normalised code and the hex-decoded normalised code, each falling back to its input when empty. |
| `Pipeline.RunStepsPrefix` | App.tsx:97-143 | The history after n rows is a prefix of the history after any later row. |
| `Pipeline.RunShape` | App.tsx:97-143 | The history is successes then possibly one final error. A run without an error has exactly five entries, because ANALYZE adds none. A stopped run ends in an error entry. |
| `Pipeline.RunCurrentCode` | App.tsx:47-51 | After a run, `getCurrentCode` returns the pipeline's final working code. |
| `Pipeline.RunReport` | App.tsx:116-122 | The report view is shown exactly when no step threw and the ANALYZE answer on the final working code parsed. The analysis is then what it parsed to, which may be `null`. Otherwise the analysis stays unset. |
| `Pipeline.RunStepsNoAnalysisBefore` | App.tsx:92-93 | Before the ANALYZE row there is no analysis and the view is the editor. |
| `Pipeline.RefinedAppendsOnly` | App.tsx:53-71 | Refinement either leaves the history alone or appends exactly one success entry with the model's answer, which then becomes the current code. It does nothing while busy or without current code. |
| `Pipeline.App.constructor` | App.tsx:31-36 | The initial state: no input, an empty history, idle, step index -1, no analysis, editor view. |
| `Pipeline.App.RunPipeline` | App.tsx:88-146 | With empty input, nothing changes. Otherwise the history, analysis and view are those of `Run` on the input (intended dispatch; see Findings). The component ends idle with step index -1. |
| `Pipeline.App.RunRows` | App.tsx:97-143 | The loop, from a cleared history and analysis, leaves exactly the history, analysis and view of `Run` on the input, so it stops after the first row that throws. |
| `Pipeline.App.RunRow` | App.tsx:98-142 | If the component holds the state after the first `i` rows, one iteration leaves the state after `i + 1` rows and reports whether the row threw. |
| `Pipeline.App.RunStep` | App.tsx:98-142 | One loop iteration changes the history, analysis, view and working code exactly as `Advance` does, and reports whether it threw. |
| `Pipeline.App.HandleRefine` | App.tsx:53-71 | `handleRefine` sets the history to `Refined` of the old history and busy flag. Every other field ends as it started. |
| `AiFactory.ServiceIdsAreTheKeys` | services/aiFactory.ts:6-10 | The registry has three distinct ids, and they are exactly its keys. |
| `AiFactory.SetterAcceptsInheritedName` | services/aiFactory.ts:18 | As written, `setActiveService("toString")` makes `toString`, which is not a registered id, the active id. |
| `AiFactory.NextActive` | services/aiFactory.ts:17-19 | A registered id becomes active, and any other id leaves the active id as it was. |
| `AiFactory.NextActiveKeepsRegistered` | services/aiFactory.ts:17-19 | With the guard as intended, the active id stays registered whatever the setter is given. |
| `AiFactory.NextActiveIdempotent` | services/aiFactory.ts:17-19 | Setting the same id twice is setting it once. |
| `AiFactory.NextActiveAgrees` | services/aiFactory.ts:18 | The written and intended guards agree on every id other than an inherited `Object.prototype` name. |
| `AiFactory.Factory.constructor` | services/aiFactory.ts:12 | The active id starts at `gemini-pro`, a registered id. |
| `AiFactory.Factory.GetAvailableServices` | services/aiFactory.ts:15 | `Object.values(services)` lists the services in key order. |
| `AiFactory.Factory.GetActiveService` | services/aiFactory.ts:16 | Returns the service under the active id, which is always present while the id is registered. |
| `AiFactory.Factory.SetActiveService` | services/aiFactory.ts:17-19 | The active id becomes `NextActive(old, id)`, and stays registered (intended guard). |
| `AiFactory.Factory.GetActiveId` | services/aiFactory.ts:20 | Returns the active id. |
| `GptClient.ContentText` | services/gptService.ts:39 | `content \|\| ''` is the content when present, and `""` for `null`. |
| `GptClient.ProcessStep` | services/gptService.ts:10-47 | With no key, or an empty one, the call fails with the key message. A response with `error` fails with its message. No choice fails. With a key, STABILIZE and LITERAL_DECODE fail before any request, because the prompt table has no entry for them. Otherwise ANALYZE returns the content as received, and every other step returns it fence-stripped and trimmed. |
| `GptClient.MissingKeyIgnoresSend` | services/gptService.ts:11-13 | Without a key the outcome does not depend on the response, because no request matters. |
| `GptClient.RemoveFencesLeavesNone` | services/gptService.ts:43 | Removing every three-backtick fence leaves no fence. A removal cannot join backticks into a new fence. |
| `GptClient.StripFencesClean` | services/gptService.ts:43 | The cleaned answer has no fence and no white space at either end. |
| `GptClient.NoFencedPattern` | services/gptService.ts:43 | `` ```javascript `` and `` ```js `` cannot occur in fence-free text. |
| `GptClient.StripFencesIdempotent` | services/gptService.ts:43 | Cleaning an already cleaned answer changes nothing. |
| `GptClient.ProcessStepResult` | services/gptService.ts:42-46 | A successful answer for a code step has no fence and is a fixed point of the clean-up. |

## Left out

- Characters: JavaScript strings are UTF-16 code units, and Dafny's `char` is a Unicode scalar value. Lone surrogates are not representable, and `parseInt`/`fromCharCode` are modelled on values below 256 for the decoder's round trip.
- `ArrayRotation.ParsePool`: models `JSON.parse` only for arrays of strings without escapes. Escapes, numbers, nested values and other JSON count as a parse failure, so the resolver returns the code unchanged where the source might parse. Because the single quotes are rewritten globally, an apostrophe inside a string breaks the parse in both the source and the model.
- `ArrayRotation.ResolveArrayRotations`: the replacement strings are inserted literally. The `$` substitution patterns of `String.prototype.replace` (`$&`, `$1`, …) are not modelled, although they could fire in the source if a pool string or the array name contained `$`. For example, a `$$` in the name becomes `$` in the rewritten declaration.
- `ArrayRotation.ResolveArrayRotations`: the rotation-routine pattern is a parameter returning the first match's text and offset literal. Its lazy `[\s\S]+?` search and the unescaped interpolation of the array name into a `RegExp` are not modelled.
- `ArrayRotation.OffsetValue`: `parseInt` is exact. The loss of precision for offsets above 2^53 is not modelled.
- `IocScan.Matches`: the IP, URL and DOMAIN regular expressions are parameters that list their matches. Only the three hash patterns are modelled concretely.
- `Text.ToLowerAscii`: `toLowerCase` is modelled on ASCII letters only. The member suffixes it is compared with are ASCII.
- `Pipeline.App.RunPipeline`: all history entries get one timestamp `now` instead of successive `Date.now()` calls. React's asynchronous state batching and the intermediate `isProcessing`/`activeStepIndex` values seen during the run are not modelled. Like the source, the method has no busy guard.
- `Pipeline.Advance`: the model call (`gemini.processStep`) is the parameter `ai`, and `JSON.parse` of the analysis is the parameter `parse`, which tells a throw, a JSON `null` and a report apart. Other JSON values that are not a report are not told apart.
- History descriptions are kept as the `Description` datatype. `Description.Text` spells out each string. `Label(REFINE)` is `""` because REFINE has no row in the table.
- `GptClient.ProcessStep`: the HTTP request, its headers and the prompt texts are the parameter `send`. Only the keys of the prompt table are modelled, as `PromptSteps`, under the intended step names. Under the enum as written, the three model steps' keys all read `undefined` (see Findings). `NoChoice` stands for the `TypeError` thrown when `choices` is empty. A missing `message` object is not modelled.
- Gemini registry entries: `GeminiService` ignores the id, name and model passed to it, so both Gemini entries are the same value here. The Gemini client itself (services/geminiService.ts) and services/aiService.ts, apart from the keys of its prompt table, are not part of this model.
- The user interface is not part of this model: rendering, file download, printing, the editor component and the console logging on failures.
- `stabilizeCode` is not idempotent: `{` gains a leading space again, and `,` gains another trailing space (`a, b` becomes `a,  b`). The model states no idempotence for it.

## Findings

| source | as written | input that shows it | evidently intended | confidence | as-written member | corrected member |
|---|---|---|---|---|---|---|
| App.tsx:105-114 with types.ts:2-9 | `DeobfuscationStep` declares no LITERAL_DECODE, DECOMPILE, REFERENCE_RESOLVE or SEMANTIC_CLEANUP, so each reads as `undefined`. `undefined === DeobfuscationStep.LITERAL_DECODE` holds, and the three model steps run `decodeHexEscapes` instead of the model. | any non-empty input, at row 'VM / Bytecode Decompilation' | only LITERAL_DECODE runs the hex decoder, and the other steps go to the model | not executed; assumes a build that does not type-check | `Steps.UndefinedStepsDecodeHex` | `Steps.HandlerOf` |
| services/aiFactory.ts:18 | `if (services[id])` is truthy for names inherited from `Object.prototype` | `setActiveService("toString")` | only registered ids become active | not executed | `AiFactory.SetterAcceptsInheritedName` | `AiFactory.NextActiveKeepsRegistered` |
