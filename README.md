# Travel plan route: prompt rendering and reply normalisation

This project models the text pipeline of the plan-generation endpoint
`POST /api/generatePlanWithSummary`, written in Dafny. The endpoint does four things:

1. It renders a trip request into a prompt: a fixed template with eight
   `{placeholder}` markers, replaced in order by JavaScript `String.replace` calls.
2. It hands the prompt to a text-generation provider.
3. It cleans the provider's reply: trim, strip a code fence, trim again.
4. It parses the reply as JSON. If that fails, it removes trailing commas and
   parses once more. On success it answers with the plan and a one-line summary.

The modules are:

- `Common`: `Option` and `Result`.
- `JsStrings`: the JavaScript string operations the route relies on, with their
  ECMAScript semantics.
  - `trim` uses the ECMAScript white-space and line-terminator set.
  - `startsWith`, `endsWith`, `indexOf` and `Array.prototype.join` are modelled.
  - `String.prototype.replace` with a string pattern replaces the first
    occurrence only. It also expands the replacement's `$$`, `$&`, `` $` `` and
    `$'` patterns.
- `JsonValue`: parsed JSON values. It also models how a template literal turns a
  property of the parsed plan into text. A missing property gives `undefined`.
  Reading a property of `null` throws. Converting an object that has its own
  `toString` field throws too, because that field is not callable and the
  inherited `valueOf` returns the object itself. An array holding such an
  object throws as well.
- `PlanRoute`: the handler.
  - `RenderPrompt`: the template and its substitution chain.
  - `CleanResponse`: reply cleanup.
  - `RepairTrailingCommas`: the global `,}` and `,]` rewrite.
  - `ParseWithRepair`: parse, then repair and parse once more.
  - `Summary`: the summary line.
  - `Outcome`: the response for a parsed reply.
  - `HandlePost`: the whole handler.
  - The provider and `JSON.parse` are function parameters (`generate`, `parse`).
    Every outcome is therefore stated for every provider and every parser.

Points worth knowing about the code:

- The first candidate text is trimmed before fence detection (route.ts:63) and
  again after it (route.ts:74). A reply with whitespace before its fence is
  therefore still unfenced.
- Fence stripping is a single pass. It is the identity exactly on trimmed text
  that neither starts nor ends with three backticks (`StripFencesIdentityIff`).
  It is not idempotent in general: a doubled opening fence loses only one layer
  (`StripFencesOnePass`).
- The repair removes every comma that directly precedes `}`, and then every
  comma that directly precedes `]`. It does not remove just one comma. Each pass
  scans left to right without overlap, so `,,]` becomes `,]` (`RepairSinglePass`).
- Substitution is not escaping.
  - A value containing `{` can capture a later placeholder.
  - A value containing `$` is expanded by `String.replace`.
  - The clean interleaving theorem (the contract of `RenderPrompt`) is stated
    for requests free of both. The `$` behaviour itself is modelled and proved (`DollarPatterns`).
- For a plain request (no `$` in any value, no `{` in any value but the last),
  every value appears in the rendered prompt. Outside that case it need not: a
  value `$&` leaves the placeholder in place, and a destination `a{duration}`
  loses its `{duration}` part to the next replacement. Even for a plain request
  a value need not appear only once as a substring, because the template text
  itself holds words such as `travel` and `accommodation`. `RenderPrompt`'s contract states the exact text
  instead: template pieces and values interleaved in order.
- Whatever the other fields hold, a value appears in the prompt when it has no
  brace and no `$` and is not part of a later placeholder's name
  (`ValueInPrompt`). Its placeholder survives the earlier replacements, it goes
  in literally, and no later replacement can cut into it.

## Model

| member | source | states |
|---|---|---|
| JsStrings.Trim | app/api/generatePlanWithSummary/route.ts:63 | the result has no leading or trailing white space, is no longer than the input, and occurs inside it |
| JsStrings.TrimStart | app/api/generatePlanWithSummary/route.ts:63 | the result is a suffix of the input, everything removed is white space, and the result does not start with white space |
| JsStrings.TrimEnd | app/api/generatePlanWithSummary/route.ts:74 | the result is a prefix of the input, everything removed is white space, and the result does not end with white space |
| JsStrings.TrimUnique | app/api/generatePlanWithSummary/route.ts:74 | trimming white space + trimmed body + white space gives exactly the body |
| JsStrings.TrimFixedIff | app/api/generatePlanWithSummary/route.ts:74 | trim leaves a string unchanged if and only if it has no leading or trailing white space |
| JsStrings.IndexOf | app/api/generatePlanWithSummary/route.ts:47 | the index found is an occurrence of the pattern, and no occurrence lies before it |
| JsStrings.StartsWithIff | app/api/generatePlanWithSummary/route.ts:66-68 | `startsWith` holds exactly when the text is the prefix followed by some rest |
| JsStrings.EndsWithIff | app/api/generatePlanWithSummary/route.ts:71 | `endsWith` holds exactly when the text is some front followed by the suffix |
| JsStrings.Substitution | app/api/generatePlanWithSummary/route.ts:47-54 | GetSubstitution: a replacement string without `$` is inserted literally |
| JsStrings.ReplaceFirst | app/api/generatePlanWithSummary/route.ts:46-54 | replacing a pattern that does not occur returns the text unchanged |
| JsStrings.FirstOccurrence | app/api/generatePlanWithSummary/route.ts:46-54 | in a + pat + b, with no occurrence inside a, the first occurrence is at index &#124;a&#124; |
| JsStrings.ReplaceFirstAt | app/api/generatePlanWithSummary/route.ts:46-54 | only the first occurrence is replaced: a + pat + b becomes a + (expanded replacement) + b, and b is kept verbatim even if it holds the pattern again |
| JsStrings.ReplaceFirstSplit | app/api/generatePlanWithSummary/route.ts:46-54 | with a `$`-free replacement, a + pat + b becomes exactly a + replacement + b |
| JsStrings.SubstitutionDollars | app/api/generatePlanWithSummary/route.ts:46-54 | the replacement `$$` expands to `$`, `$&` to the matched text, `` $` `` to the text before the match and `$'` to the text after it |
| JsStrings.ReplaceKeepsDisjoint | app/api/generatePlanWithSummary/route.ts:46-54 | text lying wholly before or wholly after the first occurrence of the pattern is still in the text after the replacement |
| JsStrings.ReplaceInserts | app/api/generatePlanWithSummary/route.ts:46-54 | when the pattern occurs, a `$`-free replacement is in the result |
| JsStrings.DollarPatterns | app/api/generatePlanWithSummary/route.ts:46-54 | a value `$$` puts a single `$` in the prompt; a value `$&` leaves the placeholder text in place |
| JsStrings.JoinTwo | app/api/generatePlanWithSummary/route.ts:51 | joining [a, b] with a separator gives a + sep + b, so ["hiking", "food"] joined with ", " is "hiking, food" |
| JsStrings.JoinLength | app/api/generatePlanWithSummary/route.ts:51 | a joined list is as long as its elements plus one separator between each neighbouring pair |
| JsStrings.JoinEnds | app/api/generatePlanWithSummary/route.ts:51 | a joined non-empty list starts with its first element and ends with its last |
| PlanRoute.SpecialRequestsText | app/api/generatePlanWithSummary/route.ts:54 | an absent or empty special request renders as "None"; any other value renders as itself |
| PlanRoute.PromptValues | app/api/generatePlanWithSummary/route.ts:47-54 | eight values, one per placeholder; the fifth (interests) is the ", "-join of the interests and the eighth the defaulted special-requests text |
| PlanRoute.ReplaceInOrder | app/api/generatePlanWithSummary/route.ts:46-54 | a text in which none of the placeholders occurs comes out of the replace chain unchanged |
| PlanRoute.JoinAvoids | app/api/generatePlanWithSummary/route.ts:51 | a character absent from every interest and from the separator is absent from the joined interests |
| PlanRoute.TemplateShape | app/api/generatePlanWithSummary/route.ts:7-40 | the template is nine pieces around the eight placeholders; the first eight pieces hold no `{` and every placeholder starts with `{` |
| PlanRoute.ReplaceInOrderInterleave | app/api/generatePlanWithSummary/route.ts:46-54 | replacing placeholders in order in pieces interleaved with placeholders gives the pieces interleaved with the values, when no value but the last has `{` and none has `$` |
| PlanRoute.FillTemplate | app/api/generatePlanWithSummary/route.ts:7-54 | the eight-step replace chain on the template yields template pieces and values interleaved in order |
| PlanRoute.PlainValues | app/api/generatePlanWithSummary/route.ts:46-54 | a plain request gives `$`-free values, and the first seven are brace-free |
| PlanRoute.RenderPrompt | app/api/generatePlanWithSummary/route.ts:7-54 | for a plain request the prompt is exactly the template pieces interleaved with the destination, duration, budget, travel style, the ", "-joined interests, accommodation, transportation and the defaulted special requests, in that order |
| PlanRoute.InterleaveContains | app/api/generatePlanWithSummary/route.ts:46-54 | every value occurs in pieces interleaved with values |
| PlanRoute.RenderedPromptHoldsValues | app/api/generatePlanWithSummary/route.ts:46-54 | for a plain request the prompt contains every field's text, the joined interests and the special-requests text |
| PlanRoute.PlaceholdersDelimited | app/api/generatePlanWithSummary/route.ts:47-54 | each of the eight placeholders is `{`, a brace-free name and `}`, and no two are alike |
| PlanRoute.ReplaceKeepsText | app/api/generatePlanWithSummary/route.ts:46-54 | brace-free text that is no part of a placeholder survives the replacement of that placeholder |
| PlanRoute.ReplaceKeepsHole | app/api/generatePlanWithSummary/route.ts:46-54 | a placeholder survives the replacement of a different placeholder |
| PlanRoute.ChainKeepsText | app/api/generatePlanWithSummary/route.ts:46-54 | brace-free text that is no part of any placeholder survives the whole replace chain |
| PlanRoute.ChainPlacesValue | app/api/generatePlanWithSummary/route.ts:46-54 | the k-th value is in the result of the chain when its placeholder is in the text and differs from the earlier ones, and the value has no brace or `$` and is no part of a later placeholder |
| PlanRoute.ValueInPrompt | app/api/generatePlanWithSummary/route.ts:7-54 | for every request, a value with no brace or `$` that is no part of a later placeholder is in the prompt, whatever the other fields hold |
| PlanRoute.HikingFoodInPrompt | app/api/generatePlanWithSummary/route.ts:51 | for every request whose interests are ["hiking", "food"], whatever its other fields hold, "hiking, food" is in the prompt |
| PlanRoute.FirstCandidateText | app/api/generatePlanWithSummary/route.ts:62-63 | an absent first candidate text gives ""; a present one is trimmed, no longer than the original and inside it |
| PlanRoute.StripOpeningFence | app/api/generatePlanWithSummary/route.ts:66-70 | a leading ```` ```json ```` drops 7 characters, otherwise a leading ```` ``` ```` drops 3, otherwise nothing changes |
| PlanRoute.OpeningFenceGoes | app/api/generatePlanWithSummary/route.ts:66-70 | a fence followed by text not starting with `j` (or a `json` fence) is removed exactly |
| PlanRoute.StripClosingFence | app/api/generatePlanWithSummary/route.ts:71-73 | a trailing ```` ``` ```` drops the last 3 characters, otherwise nothing changes |
| PlanRoute.ClosingFenceGoes | app/api/generatePlanWithSummary/route.ts:71-73 | text followed by a closing fence loses exactly the fence |
| PlanRoute.StripFences | app/api/generatePlanWithSummary/route.ts:66-74 | the result is trimmed, never longer than the input, and a substring of it |
| PlanRoute.FencesInside | app/api/generatePlanWithSummary/route.ts:66-73 | what remains after removing the fences is a substring of the input |
| PlanRoute.CleanResponse | app/api/generatePlanWithSummary/route.ts:62-74 | an absent reply gives ""; otherwise the cleaned text is trimmed, never longer than the reply, and a substring of it |
| PlanRoute.CleanTrimmed | app/api/generatePlanWithSummary/route.ts:63 | the first trim changes nothing on text that is already trimmed |
| PlanRoute.StripFencesIdentityIff | app/api/generatePlanWithSummary/route.ts:66-74 | fence stripping leaves text unchanged if and only if it is trimmed and neither starts nor ends with a fence |
| PlanRoute.CleanResponseIdentityIff | app/api/generatePlanWithSummary/route.ts:62-74 | the whole cleanup leaves a reply unchanged if and only if it is trimmed and neither starts nor ends with a fence |
| PlanRoute.FencesGo | app/api/generatePlanWithSummary/route.ts:66-74 | a fence, a newline-led body and a closing fence clean to the trimmed body |
| PlanRoute.NewlinesTrimmed | app/api/generatePlanWithSummary/route.ts:74 | a trimmed body between two newlines trims back to the body |
| PlanRoute.FencedRoundTrip | app/api/generatePlanWithSummary/route.ts:62-74 | wrapping a trimmed body in a ```` ```json ```` or ```` ``` ```` fence block and cleaning it gives the body back |
| PlanRoute.StripFencesOnePass | app/api/generatePlanWithSummary/route.ts:66-74 | one `json` fence is stripped exactly; a doubled one loses only one layer, so stripping is not idempotent |
| PlanRoute.OpenedUnfenced | app/api/generatePlanWithSummary/route.ts:66-74 | a `json` fence before trimmed text that does not end in a backtick is the only thing removed |
| PlanRoute.DropCommasBefore | app/api/generatePlanWithSummary/route.ts:80 | one global rewrite pass never lengthens the text |
| PlanRoute.RepairTrailingCommas | app/api/generatePlanWithSummary/route.ts:80 | the repair never lengthens the text |
| PlanRoute.DropKeepsOthers | app/api/generatePlanWithSummary/route.ts:80 | one rewrite pass deletes only commas: with commas set aside, the text is unchanged |
| PlanRoute.DropUnchanged | app/api/generatePlanWithSummary/route.ts:80 | a pass over text without the comma-bracket pair changes nothing |
| PlanRoute.DropShrinks | app/api/generatePlanWithSummary/route.ts:80 | a pass over text with the pair makes it strictly shorter |
| PlanRoute.RepairIdentityIff | app/api/generatePlanWithSummary/route.ts:80 | the repair leaves text unchanged if and only if it contains neither `,}` nor `,]` |
| PlanRoute.RepairKeepsOthers | app/api/generatePlanWithSummary/route.ts:80 | the repair deletes only commas; every other character keeps its order |
| PlanRoute.DropAppend | app/api/generatePlanWithSummary/route.ts:80 | a pass distributes over a concatenation whose left part does not end in a comma |
| PlanRoute.RepairFinalComma | app/api/generatePlanWithSummary/route.ts:80 | for any text with no `,}` or `,]` that does not end in a comma (such as a multi-member object `{"a":1,"b":2`), appending `,}` or `,]` and repairing loses exactly that comma |
| PlanRoute.RepairSinglePass | app/api/generatePlanWithSummary/route.ts:80 | `,,]` after such a text becomes `,]`: each pass removes one comma per bracket and is not repeated |
| PlanRoute.ParseWithRepair | app/api/generatePlanWithSummary/route.ts:76-82 | a successful first parse is the result; otherwise the result is the parse of the repaired text, with no third attempt |
| PlanRoute.ParseConsultsTwoTexts | app/api/generatePlanWithSummary/route.ts:76-82 | the outcome depends only on the parser's answers for the cleaned text and, if that fails, for the repaired text |
| PlanRoute.WorkedExample | app/api/generatePlanWithSummary/route.ts:62-82 | the fenced reply with `{"a":1,}` cleans to `{"a":1,}` and repairs to `{"a":1}` |
| JsonValue.PropertyText | app/api/generatePlanWithSummary/route.ts:86 | reading `total_estimated_cost` succeeds exactly when the plan is not null and the field, if present, can be converted; a null plan fails with the property-read TypeError; an unconvertible field fails with the conversion TypeError; a string field gives its text; a missing field or a non-object plan gives "undefined" |
| JsonValue.ToText | app/api/generatePlanWithSummary/route.ts:86 | `String()` returns exactly when the value holds no object with its own "toString" field at any array depth; a string gives the string, a number its text, `[]` the empty text, and a one-element array with a non-null element the text of that element |
| JsonValue.ToStringFieldThrows | app/api/generatePlanWithSummary/route.ts:86 | an object with its own "toString" field cannot be converted, nor can an array holding one; an object without it gives "[object Object]" |
| JsonValue.NestedArrayText | app/api/generatePlanWithSummary/route.ts:86 | `String([[1,2],null,"x"])` is "1,2,,x": the inner array is joined with commas and the null element gives the empty text |
| PlanRoute.Summary | app/api/generatePlanWithSummary/route.ts:86 | the summary is "Trip to ", the destination, " for ", the duration, " days. Estimated budget: ", the cost and ".": each field and each connecting text at its fixed position, and nothing else (length = fields + 39) |
| PlanRoute.Outcome | app/api/generatePlanWithSummary/route.ts:84-89 | success exactly when parsing succeeded with a non-null plan whose total_estimated_cost converts to text; a parse error passes its message through; a null plan fails with the property-read TypeError and an unconvertible cost with the conversion TypeError; on success the summary uses the plan's cost text |
| PlanRoute.UnconvertibleCostFails | app/api/generatePlanWithSummary/route.ts:84-89 | a plan whose total_estimated_cost is an object with its own "toString" field, or an array holding one, fails with "Cannot convert object to primitive value" |
| PlanRoute.StringCostSummary | app/api/generatePlanWithSummary/route.ts:84-87 | a plan whose total_estimated_cost is a string answers with the plan and the summary holding that string |
| PlanRoute.MissingCostSummary | app/api/generatePlanWithSummary/route.ts:84-87 | a plan without total_estimated_cost answers with "undefined" in the summary |
| PlanRoute.ParisText | app/api/generatePlanWithSummary/route.ts:86 | destination "Paris", duration "5" and cost "$2000" give "Trip to Paris for 5 days. Estimated budget: $2000." |
| PlanRoute.ParisSummary | app/api/generatePlanWithSummary/route.ts:84-87 | a parsed plan whose total_estimated_cost is "$2000", for a trip to Paris of 5 days, is answered with that plan and the summary "Trip to Paris for 5 days. Estimated budget: $2000." |
| PlanRoute.Answer | app/api/generatePlanWithSummary/route.ts:76-89 | the answer to a cleaned reply succeeds exactly when parse-with-repair yields a non-null plan whose cost converts to text, returns exactly that plan with its summary, and when both parses fail carries the second parser message |
| PlanRoute.HandlePost | app/api/generatePlanWithSummary/route.ts:42-90 | a provider failure fails the request with its message; after a provider reply, the request succeeds exactly when the cleaned reply parses (with one repair) to a non-null plan whose cost converts to text, returns exactly that plan and the summary of its cost, and fails with the second parser message when both parses fail |
| PlanRoute.HandlePostAsksOnce | app/api/generatePlanWithSummary/route.ts:56-60 | the handler depends only on the provider's answer to the rendered prompt |
| PlanRoute.FencedTrailingCommaReply | app/api/generatePlanWithSummary/route.ts:62-82 | a ```` ```json ```` fenced object ending in `,}` (any number of members) cleans to that object, and when it fails to parse the answer is the parse of the object without that comma |
| PlanRoute.UnrepairableReply | app/api/generatePlanWithSummary/route.ts:76-89 | any provider reply whose cleaned text and its repair both fail to parse fails the request with the second parser message and no plan; when the repair removed nothing, that is the first parser message |

## Left out

- The Gemini SDK client, its model name and the `generateContent` call (route.ts:2-5, 56-60) are a foreign library and network I/O. They are the `generate` parameter. The optional chain over candidates and parts is collapsed to one optional text.
- `JSON.parse` (route.ts:78, 81) is a library parser. It is the `parse` parameter. Its error message is an opaque string.
- `req.json()`, `NextResponse.json` and the status codes 200 and 500 (route.ts:44, 84-89) are framework plumbing. The handler returns a `Result` holding either the plan and summary or the error message.
- Reading `GEMINI_API_KEY` from the environment (route.ts:4) is configuration.
- Request fields are dynamically typed in the source. The model treats every field as text and `interests` as a sequence of text. The TypeError thrown when `interests` is missing or not an array is not modelled, and neither is `String()` coercion of non-string fields.
- A JSON number carries the text `Number.prototype.toString` gives for it (so `2000.0` is carried as "2000"). The formatting algorithm itself is not modelled.
- Strings are sequences of Unicode scalar values, not UTF-16 code units.
- The UI pages (app/page.tsx, app/landing_page/page.tsx, app/user_profile/page.tsx) are presentation state and are not part of this model.
- PlanRoute.RenderPrompt: the exact prompt is stated only for plain requests. Those have no `$` in any value and no `{` in the first seven values. Outside that case `DollarPatterns` and `ReplaceFirstAt` describe what happens.
- PlanRoute.RenderedPromptHoldsValues: containment of all eight values at once is stated for plain requests only, because a `$&` value or a value holding a placeholder changes the later text. `ValueInPrompt` states it for one value at a time, for any request.
