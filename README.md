# Looker Query Insights — a verified model of its data-to-prompt core

Looker Query Insights is a Looker extension. It takes the result set of an
Explore query and sends the result to a Vertex AI text model through BigQuery
`ML.GENERATE_TEXT`. It then shows the model's summary. The repository
has two copies of the extension: `query-insights-extension/` and the older
`src/`. This project models the part of both that turns data into text and
back:

- the flattening of a Looker result row into `label:value` strings
  (`extractNestedValuesGenerator` / `extractValues`);
- the string hash (`stringToHash`);
- the row sampler that keeps a result set under a token budget
  (`truncateDataForLLM`, `estimateTokens`);
- the prompt escapes (`escapeBreakLine`, `escapeSpecialCharacter`,
  `escapeQueryAll`, both copies);
- the rows-to-prompt formatter (`formatValuesToString`) and the BigQuery
  statement built around the escaped prompt (`generateSQL`, both copies);
- the cleaning of the model's answer (the `replace`/`trim` chain and
  `UtilsHelper.cleanResult`);
- the remaining `UtilsHelper` helpers of the `src` copy (`firstElement`,
  `removeDuplicates`, `getQueryFromPrompt`).

Files, one module each:

- `js_semantics.dfy` (`JsSemantics`): the ECMAScript operations the source
  relies on. These are `ToInt32`/`ToUint32`, `<<` and `&` on 32-bit
  integers, `slice`, `splice`, `indexOf`, `replace`, `split`, `join` and
  `trim`.
- `escaping.dfy` (`Escaping`): the three escapes. It also has `ReadLiteral`,
  a reader for a GoogleSQL quoted string literal (the lexical rules for
  string literals in the GoogleSQL reference). The reader is used to state
  what the escaped prompt means to BigQuery.
- `vertex_message.dfy` (`VertexMessage`): `formatValuesToString`,
  `generateSQL` (one `Template` value per copy), the answer cleaners and the
  `UtilsHelper` list helpers.
- `sampler.dfy` (`Sampler`): `estimateTokens` and `truncateDataForLLM`,
  imperative, with the loop proved against the function `Truncate`.
- `string_hash.dfy` (`StringHash`): `stringToHash`, imperative, proved
  against `Hash`. `Hash` is shown to be the base-31 polynomial of the code
  units, wrapped to 32 bits.
- `nested_values.dfy` (`NestedValues`): `extractValues` and the generator,
  imperative, proved against `Extraction`. `Extraction` is shown to be the
  rendering of the row's leaves.

Where a paragraph below says "QI", it means
`query-insights-extension/src/composables/useLookerVertexMessage.js`.

These behaviours of the source show up as proved facts:

- `truncateDataForLLM` does not return on some inputs. With more than
  `maxRows` rows, `halfMax = floor(maxRows / 2)` greater than 2, and the
  first `halfMax` rows alone over the token limit, the loop ends up calling
  `splice(halfMax, 1)` on an array of exactly `halfMax` rows. That removes
  nothing, so the loop never ends. `Sampler.TruncateReturnsIff` states
  exactly when the loop returns. The method is specified on that domain.
- `escapeQueryAll` does not escape backslashes. A `\'` that follows text
  free of backslashes and carriage returns therefore ends the BigQuery
  string literal early, and the rest of the prompt lands in the statement
  text (`Escaping.BackslashQuoteClosesLiteral`; for the prompt `\'x`,
  `Escaping.BackslashClosesLiteralEarly` and
  `VertexMessage.GenerateSqlBackslashEndsLiteral`). A `\'` after other
  backslashes need not do so: the prompt `\\'` gives a literal that closes
  at the quote `generateSQL` adds, though it reads as `\'`
  (`Escaping.BackslashPairKeepsLiteralOpen`).
- `escapeBreakLine` escapes line feeds but not carriage returns, and a
  GoogleSQL quoted literal may hold neither raw. A backslash-free prompt
  that contains a carriage return therefore gives a statement whose prompt
  literal is invalid (`Escaping.CarriageReturnBreaksLiteral`,
  `VertexMessage.GenerateSqlCarriageReturnBreaksLiteral`).
- `sendMessage` escapes the user's context once when it builds the
  prompt, and `generateSQL` escapes the whole prompt again. A quote at the
  start of the context, after prompt text with no backslash or carriage
  return, becomes backslash, backslash, quote, and BigQuery ends the prompt
  literal there
  (`VertexMessage.ContextQuoteEndsPromptLiteral`).
- For prompts with neither a backslash nor a carriage return, the literal
  reads back as the prompt itself (`VertexMessage.GenerateSqlPromptReadsBack`).

## Model

| member | source | states |
|---|---|---|
| Escaping.EscapeBreakLine | query-insights-extension/src/composables/useLookerVertexMessage.js:26-28 | defined as the global replacement of every line feed by a backslash and n |
| Escaping.EscapeSpecialCharacter | query-insights-extension/src/composables/useLookerVertexMessage.js:35-37 | defined as the global replacement of every quote by a backslash and a quote |
| Escaping.EscapeQueryAll | query-insights-extension/src/composables/useLookerVertexMessage.js:44-46 | defined as the line-feed escape followed by the quote escape |
| Escaping.EscapeBreakLineFacts | query-insights-extension/src/composables/useLookerVertexMessage.js:26-28 | escapeBreakLine leaves no line feed, adds exactly one character per line feed, and keeps the number of quotes (the src copy at src/composables/useLookerVertexMessage.js:10-12 is the same) |
| Escaping.EscapeSpecialCharacterFacts | src/composables/useLookerVertexMessage.js:23-27 | after escapeSpecialCharacter every quote is preceded by a backslash; the length grows by the number of quotes; line feeds are neither added nor removed (the QI copy at lines 35-37 is the same) |
| Escaping.EscapeQueryAllPerCharacter | query-insights-extension/src/composables/useLookerVertexMessage.js:44-46 | the composition of the two global replaces equals the escape applied character by character |
| Escaping.EscapeQueryAllFacts | query-insights-extension/src/composables/useLookerVertexMessage.js:44-46 | the fully escaped prompt has no line feed, every quote in it is backslash-escaped, and its length is the input's plus its line feeds plus its quotes |
| Escaping.EscapeQueryAllNotInjective | src/composables/useLookerVertexMessage.js:14-16 | two different prompts (a line feed, and a backslash followed by n) escape to the same text |
| Escaping.ReadLiteralStopsAtUnescapedQuote | src/composables/useLookerVertexMessage.js:100-101 | a successful read of a GoogleSQL quoted literal ends at a quote; every earlier quote is the second half of a backslash pair, and no raw line feed or carriage return comes before it |
| Escaping.EscapedPromptReadsBack | query-insights-extension/src/composables/useLookerVertexMessage.js:110-111 | for a prompt without a backslash or carriage return, the escaped prompt followed by a quote is read by BigQuery as a literal whose content is exactly the prompt, closing right after the escaped text |
| Escaping.EscapedStringReadsBack | query-insights-extension/src/composables/useLookerVertexMessage.js:44-46 | the per-character escape of a prompt without backslash or carriage return reads back as that prompt, whatever follows the closing quote |
| Escaping.CarriageReturnBreaksLiteral | query-insights-extension/src/composables/useLookerVertexMessage.js:26-28 | escapeBreakLine leaves carriage returns raw, so the escaped form of a backslash-free prompt holding one, closed by a quote, is not a valid GoogleSQL literal |
| Escaping.BackslashClosesLiteralEarly | query-insights-extension/src/composables/useLookerVertexMessage.js:44-46 | the escape turns the prompt backslash-quote-x into two backslashes, a quote and x, which BigQuery reads as a literal holding only a backslash, ending at the prompt's own quote |
| Escaping.BackslashPairKeepsLiteralOpen | query-insights-extension/src/composables/useLookerVertexMessage.js:44-46 | the prompt of two backslashes and a quote escapes to three backslashes and a quote, which BigQuery reads as a literal holding a backslash and a quote, closing at the quote generateSQL adds |
| Escaping.BackslashQuoteClosesLiteral | query-insights-extension/src/composables/useLookerVertexMessage.js:44-46 | for any prompt in which a backslash and a quote follow text with no backslash or carriage return, the escaped prompt closed by a quote reads as a literal holding only that text and a backslash |
| Escaping.ContextQuoteClosesLiteral | query-insights-extension/src/composables/useLookerVertexMessage.js:44-46 | when a quote-led text escaped once follows a plain text with no backslash or carriage return, escaping the whole again and closing it with a quote reads as a literal holding only the plain text and a backslash |
| VertexMessage.FormatValuesRoundTrip | query-insights-extension/src/composables/useLookerVertexMessage.js:54-57 | splitting the formatted text at line feeds gives back the rows, when no row has a line feed of its own (src copy at src/composables/useLookerVertexMessage.js:81-83) |
| VertexMessage.FormatValuesToString | query-insights-extension/src/composables/useLookerVertexMessage.js:54-57 | defined as the rows joined with line feeds |
| VertexMessage.GenerateSql | query-insights-extension/src/composables/useLookerVertexMessage.js:109-127 | defined as a template filled with the model id, the subselect of the escaped prompt and the temperature text; QI_TEMPLATE holds the text of this copy and SRC_TEMPLATE that of src/composables/useLookerVertexMessage.js:94-121 |
| VertexMessage.ContextQuoteEndsPromptLiteral | query-insights-extension/src/composables/useLookerVertexMessage.js:193 | for a prompt whose context, escaped once by sendMessage, starts with a quote, and whose text before the context has no backslash or carriage return, the statement's prompt literal holds only that text and a backslash |
| VertexMessage.GetQueryFromPrompt | src/composables/useLookerVertexMessage.js:69-77 | defined as the remote-function call when useNativeBQ is false, the plain subselect otherwise |
| VertexMessage.CleanGeneratedContent | query-insights-extension/src/composables/useLookerVertexMessage.js:149 | defined as removing every json fence, then every triple backtick, then trimming |
| VertexMessage.CleanResult | src/composables/useLookerVertexMessage.js:44-50 | defined as removing the first json fence, then the first JSON fence, then the first triple backtick |
| VertexMessage.CleanResultWithoutBacktick | src/composables/useLookerVertexMessage.js:44-50 | a response with no backtick passes through cleanResult unchanged |
| VertexMessage.GenerateSqlPromptReadsBack | query-insights-extension/src/composables/useLookerVertexMessage.js:109-127 | in the statement, for any template and a prompt without a backslash or carriage return, the literal starting at the subselect reads back as the prompt, followed by " AS prompt" |
| VertexMessage.GenerateSqlPromptOnlyInLiteral | src/composables/useLookerVertexMessage.js:94-121 | two statements built from different prompts agree on all text before and after the literal's body |
| VertexMessage.GenerateSqlCarriageReturnBreaksLiteral | src/composables/useLookerVertexMessage.js:94-121 | for a backslash-free prompt that holds a carriage return, the text at the prompt subselect does not read as a GoogleSQL literal: the statement is invalid |
| VertexMessage.GenerateSqlBackslashEndsLiteral | query-insights-extension/src/composables/useLookerVertexMessage.js:109-127 | for the prompt backslash-quote-x, the literal in the statement holds only a backslash: the prompt escapes the literal |
| VertexMessage.GenerateSqlUsesPromptSubselect | src/composables/useLookerVertexMessage.js:69-77 | the subselect that generateSQL embeds is exactly getQueryFromPrompt of the escaped prompt with useNativeBQ true |
| VertexMessage.GetQueryFromPromptReadsBack | src/composables/useLookerVertexMessage.js:69-77 | in both forms (remote-function call and plain subselect), an escaped prompt without backslash or carriage return reads back from its literal |
| VertexMessage.CleanedHasNoFence | query-insights-extension/src/composables/useLookerVertexMessage.js:149 | after removing all json fences, all fences and trimming, no three consecutive backticks remain |
| VertexMessage.RemoveFencesLeavesNone | src/composables/useLookerVertexMessage.js:142-145 | a global removal of triple backticks leaves no triple backticks, even where a removal joins backticks from both sides |
| VertexMessage.CleanGeneratedContentFacts | query-insights-extension/src/composables/useLookerVertexMessage.js:149 | the cleaned answer contains no code fence and neither starts nor ends with whitespace |
| VertexMessage.CleanGeneratedContentIdempotent | src/composables/useLookerVertexMessage.js:142-145 | cleaning an already cleaned answer changes nothing |
| VertexMessage.CleanGeneratedContentFencedJson | query-insights-extension/src/composables/useLookerVertexMessage.js:149 | an answer wrapped as a json code block, whose body has no backtick, cleans to the trimmed body |
| VertexMessage.CleanResultFencedJson | src/composables/useLookerVertexMessage.js:44-50 | cleanResult unwraps a json code block whose body has no backtick to exactly the body |
| VertexMessage.CleanersDifferOnRepeatedFences | src/composables/useLookerVertexMessage.js:44-50 | cleanResult removes only the first fence, so six backticks keep three; the response cleaner removes all of them |
| VertexMessage.FirstElement | src/composables/useLookerVertexMessage.js:34-37 | the result is absent (undefined) exactly for an empty array, and is the array's first element otherwise |
| VertexMessage.RemoveDuplicates | src/composables/useLookerVertexMessage.js:57-59 | the result holds the same elements as the input, holds each only once, and is no longer than the input |
| VertexMessage.RemoveDuplicatesKeepsFirstAppearanceOrder | src/composables/useLookerVertexMessage.js:57-59 | elements come out in the order of their first appearance in the input, as a Set iterates |
| VertexMessage.RemoveDuplicatesOfDistinct | src/composables/useLookerVertexMessage.js:57-59 | an array without duplicates comes out unchanged |
| VertexMessage.RemoveDuplicatesIdempotent | src/composables/useLookerVertexMessage.js:57-59 | removing duplicates twice equals removing them once |
| VertexMessage.FirstElementOfRemoveDuplicates | src/composables/useLookerVertexMessage.js:34-37 | removing duplicates keeps the first element |
| Sampler.EstimateTokens | query-insights-extension/src/composables/useLookerVertexMessage.js:84-86 | defined as the left fold summing the per-row cost |
| Sampler.InitialSample | query-insights-extension/src/composables/useLookerVertexMessage.js:73-74 | defined as the first halfMax rows followed by slice(-halfMax), with halfMax = floor(maxRows / 2) |
| Sampler.OverBudget | query-insights-extension/src/composables/useLookerVertexMessage.js:76 | defined as the loop condition: the estimate is over the token limit and more than two rows remain |
| Sampler.RemoveIndex | query-insights-extension/src/composables/useLookerVertexMessage.js:77 | defined as the last index when more than halfMax rows remain, and halfMax otherwise |
| Sampler.Shrink | query-insights-extension/src/composables/useLookerVertexMessage.js:76-79 | defined as what the loop returns from a start array, or none when an iteration's splice removes nothing while still over budget |
| Sampler.Truncate | query-insights-extension/src/composables/useLookerVertexMessage.js:67-82 | defined as the input when it has at most maxRows rows, and otherwise Shrink of the initial sample |
| Sampler.EstimateTokensConcat | query-insights-extension/src/composables/useLookerVertexMessage.js:84-86 | the estimate is additive over concatenation |
| Sampler.EstimateTokensPrefix | query-insights-extension/src/composables/useLookerVertexMessage.js:84-86 | a prefix never costs more than the whole array |
| Sampler.EstimateTokensSplice | query-insights-extension/src/composables/useLookerVertexMessage.js:76-79 | removing one element with splice never raises the estimate |
| Sampler.TruncateDataForLLM | query-insights-extension/src/composables/useLookerVertexMessage.js:67-82 | the method returns what Truncate specifies: the input itself when it has at most maxRows rows; otherwise a prefix of the first-and-last-halfMax sample that is within the token limit or has at most two rows |
| Sampler.ShrinkPrefixes | query-insights-extension/src/composables/useLookerVertexMessage.js:76-79 | started on a prefix of the sample, the loop diverges exactly when it would have to shrink below halfMax rows; otherwise it returns the longest prefix not over budget |
| Sampler.StuckIterationIsNoOp | query-insights-extension/src/composables/useLookerVertexMessage.js:77-78 | once the array has at most halfMax rows, the splice removes nothing, so the loop returns only if it is already within budget |
| Sampler.InitialSampleShape | query-insights-extension/src/composables/useLookerVertexMessage.js:73-74 | with more than maxRows rows, the sample is the first and last halfMax rows, or the whole input when halfMax is 0 (slice(-0) is the whole array) |
| Sampler.NegativeMaxRowsOverlaps | query-insights-extension/src/composables/useLookerVertexMessage.js:73-74 | a negative maxRows makes the two slices overlap and duplicate a row |
| Sampler.TruncateReturnsIff | query-insights-extension/src/composables/useLookerVertexMessage.js:67-82 | truncateDataForLLM returns if and only if the input has at most maxRows rows, or halfMax is at most 2, or the first halfMax rows fit the token limit |
| Sampler.SendMessageTruncationReturnsIff | query-insights-extension/src/composables/useLookerVertexMessage.js:96-97 | with the budgets sendMessage passes (500 rows, 1,000,000 tokens), truncation returns exactly when the data has at most 500 rows or its first 250 rows fit 1,000,000 tokens |
| Sampler.TruncateLongestWithinBudget | query-insights-extension/src/composables/useLookerVertexMessage.js:76-79 | with more than maxRows rows, the result is the longest prefix of the sample that is not over budget: every longer prefix is over budget |
| Sampler.TruncateLength | query-insights-extension/src/composables/useLookerVertexMessage.js:67-82 | for 0 <= maxRows < the input's length: the result has at most as many rows as the input, and at least two when the input has two. When halfMax is at least 1, it has at most 2·halfMax <= maxRows rows. When halfMax exceeds 2, it has at least halfMax rows. For maxRows 0 or 1, halfMax is 0 and slice(-0) is the whole array, so the result can be longer than maxRows |
| Sampler.TruncateShape | query-insights-extension/src/composables/useLookerVertexMessage.js:72-79 | the result is a leading run of the head block followed by a leading run of the tail block |
| Sampler.TruncateIsSubsequence | query-insights-extension/src/composables/useLookerVertexMessage.js:67-82 | for a non-negative maxRows, every returned row comes from the input, in input order |
| Sampler.TruncateMonotoneInLimit | query-insights-extension/src/composables/useLookerVertexMessage.js:76 | raising the token limit never returns fewer rows |
| Sampler.HeadAndTailWhenWithinLimit | query-insights-extension/src/composables/useLookerVertexMessage.js:72-74 | when the first and last halfMax rows already fit the limit, exactly those rows are returned |
| StringHash.Hash | query-insights-extension/src/utils.js:7-16 | the hash is always a signed 32-bit integer |
| StringHash.IterationIsPolynomialStep | query-insights-extension/src/utils.js:12-13 | one iteration (a shift by 5, minus the hash, plus the code unit, then hash & hash) equals 31·hash + code wrapped to 32 bits |
| StringHash.StringToHash | query-insights-extension/src/utils.js:7-16 | the loop computes Hash of the whole string, a signed 32-bit integer (0 for the empty string; src copy at src/utils.js:5-17) |
| StringHash.HashIsWrappedPolynomial | query-insights-extension/src/utils.js:7-16 | the hash is the base-31 polynomial of the code units, wrapped to a signed 32-bit integer |
| NestedValues.HasValue | query-insights-extension/src/utils.js:38 | defined as: the object has a "value" property (the first such entry) that is not null |
| NestedValues.ToText | query-insights-extension/src/utils.js:40 | defined as the template-literal text of the value: a primitive's own text, "[object Object]" for an object, "null" for null |
| NestedValues.PivotLabel | query-insights-extension/src/utils.js:39 | the label is the key when the prefix is empty; otherwise the prefix's second dot-part (or "undefined" when it has no dot), a space and the key |
| NestedValues.Contribution | query-insights-extension/src/utils.js:36-44 | defined as what one loop iteration appends: the label:value string of a value-bearing object, the recursive extraction of another non-empty object, nothing otherwise |
| NestedValues.EntriesExtraction | query-insights-extension/src/utils.js:34-47 | defined as the contributions of the entries concatenated in for…in order |
| NestedValues.Extraction | query-insights-extension/src/utils.js:32-49 | defined as the extraction of an object's entries, and nothing for a primitive or null |
| NestedValues.ExtractValues | query-insights-extension/src/utils.js:32-49 | the for…in loop returns Extraction: a label:value string for each value-bearing object, with the nested results spliced in for every other non-empty object (src copy at src/utils.js:24-41) |
| NestedValues.ExtractNestedValuesGenerator | query-insights-extension/src/utils.js:24-52 | the generator's single yield is the extracted strings joined by commas |
| NestedValues.ExtractionIsRenderedLeaves | query-insights-extension/src/utils.js:32-49 | extracting a row yields one string per leaf (a value-bearing object), in for…in order, rendered with its parent's key as pivot prefix |
| NestedValues.EntriesExtractionConcat | query-insights-extension/src/utils.js:34-47 | extraction over a row's entries is additive over concatenation of entries |
| NestedValues.RenderedNonEmpty | query-insights-extension/src/utils.js:40 | every extracted string contains the label/value separator colon |
| NestedValues.GeneratorYieldsEmptyIff | query-insights-extension/src/utils.js:51 | the yielded text is empty if and only if the row has no value-bearing object |
| NestedValues.NestedContributionIgnoresPrefix | src/utils.js:34-36 | a nested object's strings do not depend on the prefix of its parent: the recursive call passes only the key |
| NestedValues.PivotedCell | query-insights-extension/src/utils.js:39-43 | a pivoted cell {k: {pk: {value: v}}} is reported as the second dot-part of k, a space, pk, a colon and v |
| NestedValues.TopLevelCell | query-insights-extension/src/utils.js:39-40 | a top-level cell {k: {value: v}} is reported as k, a colon and v |
| NestedValues.DotlessParentLabel | src/utils.js:31-32 | a cell {k: {pk: {value: v}}} whose k has no dot is reported as "undefined", a space, pk, a colon and v |
| JsSemantics.Slice | query-insights-extension/src/composables/useLookerVertexMessage.js:74 | defined as `slice(start, end)`: both indices made relative to the end when negative and clamped to [0, length], empty when start passes end |
| JsSemantics.SliceFrom | query-insights-extension/src/composables/useLookerVertexMessage.js:74 | defined as `slice(start)`: Slice up to the length |
| JsSemantics.SpliceOne | query-insights-extension/src/composables/useLookerVertexMessage.js:78 | defined as the array `splice(start, 1)` leaves: the start is clamped, and a start at or past the end removes nothing |
| JsSemantics.ReplaceAll | query-insights-extension/src/composables/useLookerVertexMessage.js:27 | defined as a global regular-expression replace of a literal pattern: leftmost, non-overlapping matches, replacement taken literally |
| JsSemantics.ReplaceFirst | src/composables/useLookerVertexMessage.js:46-48 | defined as a string-pattern replace: only the first occurrence found by indexOf is replaced |
| JsSemantics.Split | query-insights-extension/src/utils.js:39 | split at a one-character separator: at least one part, and no part holds the separator |
| JsSemantics.Join | query-insights-extension/src/composables/useLookerVertexMessage.js:56 | defined as the parts with the separator between each pair; the empty array joins to "" |
| JsSemantics.Trim | query-insights-extension/src/composables/useLookerVertexMessage.js:149 | defined as removing ECMAScript white space and line terminators from both ends |
| JsSemantics.ShiftLeft | query-insights-extension/src/utils.js:12 | defined as `x << n`: both operands converted to 32 bits, the shift count taken modulo 32, the result wrapped to a signed 32-bit integer |
| JsSemantics.BitAnd | query-insights-extension/src/utils.js:13 | defined as `a & b` on the 32-bit two's-complement forms, read back as a signed 32-bit integer |
| JsSemantics.BitAndSelf | query-insights-extension/src/utils.js:13 | hash & hash converts the hash to a signed 32-bit integer and changes nothing else |
| JsSemantics.ShiftLeftFive | query-insights-extension/src/utils.js:12 | for a 32-bit hash, hash << 5 is 32·hash wrapped to 32 bits |
| JsSemantics.SplitAtFirstSeparator | query-insights-extension/src/utils.js:39 | splitting at a separator gives the text before its first occurrence, then the split of the rest |

## Left out

- I/O is not modelled: the Looker SDK calls (`create_sql_query`, `run_sql_query`), the Vue refs `loading` and `results`, `console.log` and `process.env`. They only carry values into and out of the modelled functions.
- The prompt that `sendMessage` builds is not modelled as a whole (query-insights-extension/src/composables/useLookerVertexMessage.js:165-222, src/composables/useLookerVertexMessage.js:159-229). Besides fixed prose, it holds `${type}` (QI line 183, src line 174), `JSON.stringify(fields)` (QI 188, src 179), `UtilsHelper.escapeQueryAll(additionalContext)` (QI 193, src 184) and `formatValuesToString(...)` of the data (QI 198, src 189). The data gets no escape of its own; the context is escaped here and then again by `generateSQL`. So a quote at the start of the context, after prompt text with no backslash or carriage return, ends the prompt literal early (`ContextQuoteEndsPromptLiteral`); quotes elsewhere in the context are not covered by a lemma. The backslashes that `JSON.stringify` writes before `"` and `\`, and any backslash in the data or the type, also put backslashes into the prompt. The read-back lemmas (`GenerateSqlPromptReadsBack`, `GetQueryFromPromptReadsBack`) require a prompt without backslashes, so they do not cover such prompts.
- `temperature` is carried as the text its template conversion produces. Number formatting is not modelled.
- `isNumber` and `enumToArray` (src/composables/useLookerVertexMessage.js:61-67) are not modelled. They depend on `Number` parsing of property keys and on enum objects from outside the model.
- Sampler.EstimateTokens: `JSON.stringify(item).length` is abstracted as a per-row cost function `len`. The JSON serialiser is not modelled.
- Sampler.TruncateDataForLLM: requires `Returns`, because on the remaining inputs the source's loop never ends. `TruncateReturnsIff` characterises that domain exactly. `maxRows` is an integer; a non-integer `maxRows` is not modelled.
- Sampler.TruncateDataForLLM: `data` is a sequence value and `result` a local sequence. `Array.from` over a generator and in-place `splice` aliasing are not modelled (the array is local to the call).
- NestedValues.ExtractValues: rows are JSON values, so arrays inside rows, `undefined`, inherited properties and number-like keys (which for…in visits first) are not modelled. for…in order is the entries' order.
- StringHash.StringToHash: the input is the string's UTF-16 code units (`charCodeAt`). The decoding of text into code units is not modelled.
- Escaping.ReadLiteral: reads the simple one-character GoogleSQL escapes and rejects raw line feeds and carriage returns. Octal, hex and Unicode escapes are read as a failure.
- Strings in the text helpers (escapes, cleaners, `Trim`, `Split`, labels) are Dafny strings of Unicode scalar values, not UTF-16 code units. Lone surrogates cannot be represented, and a character outside the Basic Multilingual Plane counts once in a length.
- NestedValues.Lookup: a `JsValue` object may list a key twice, which no JavaScript object does; `Lookup` then takes the first entry.
- VertexMessage.RemoveDuplicates: the element type's `==` stands for the SameValueZero comparison of `Set`. JavaScript compares objects by identity; Dafny compares datatype values by value.
- VertexMessage.GetQueryFromPrompt: `useNativeBQ` is a boolean. The loose comparison `== false` with a non-boolean argument (`0`, `''`) is not modelled.
- The model id from the environment is the parameter `modelId`. The connection name (`VERTEX_BIGQUERY_LOOKER_CONNECTION_NAME`, query-insights-extension/src/composables/useLookerVertexMessage.js:99) feeds only the SDK call and is not modelled.
- The builds, the extension entry points and the shared context are not part of this model (`src/static/context.js`, `src/composables/fetch.js`, `query-insights-extension/src/constants.js`, `webpack.config.js`, the two `index.js` files).
