# Jeopardy question generator: request pipeline model

This project models the request pipeline of the question-generator backend
(`server.js`). The backend has two POST routes. `/generate-questions-old` is
the legacy route and `/generate-questions` is the current one. Each route
does the same four things:

1. It checks the `categories` field of the request body. A missing,
   non-array or empty value gets a 400 answer, and the completion service is
   not called.
2. It sends one prompt to a text-completion service.
3. It cleans the returned text.
   - The legacy route only trims it.
   - The current route trims it, deletes every "```json" and "```" marker,
     trims again, and appends "]" when the text does not end with one.
4. It makes one `JSON.parse` attempt and maps the outcome to a response:
   - 200 `{jeopardyData}` when the text parses;
   - 500 `{error, rawOutput}` when it does not;
   - 500 `{error}` when the completion call itself failed.

Two things are parameters of the model, not parts of it:

- the completion service, `complete: Prompt -> Upstream`, which either
  fails or returns text;
- `JSON.parse`, `parse: string -> Option<V>`.

The handler is generic in the parsed value's type `V`. So it cannot inspect
that value: whatever parses is passed through without any schema check,
which is what the source does.

Modules, one per piece of the pipeline:

- `Strings` (`strings.dfy`): JavaScript `trim` over the ECMAScript
  whitespace set, `startsWith`/`endsWith`, `join`, `split` on one
  character, and decimal rendering.
- `JsValues` (`jsvalues.dfy`): the JSON values a `categories` field can hold,
  their JavaScript truthiness, and `String(v)` as template interpolation
  uses it.
- `Fences` (`fences.dfy`): the global replace of `/```json|```/g`. It has a
  specification function (`StripFences`), a left-to-right scanning method
  (`RemoveFences`), and an independent description of the match as a
  "greedy segmentation" of the text. A segmentation splits the text into
  deleted fences and kept characters.
- `Cleanup` (`cleanup.dfy`): the current route's cleanup, as a function
  (`Cleaned`) and as the step-by-step method the handler runs
  (`CleanOutput`).
- `NumberedList` (`numbered.dfy`): the legacy prompt's numbered list.
- `Handler` (`handler.dfy`): the guard, the prompt variants, the two routes
  and the outcome table.

Two results go beyond the bare definitions:

- Fence deletion never leaves a "```" behind. A backtick the scan keeps is
  never followed by two more, and a deleted fence is never preceded by a
  kept backtick. So the whole cleanup is idempotent (`Fences.StripNoPlain`,
  `Cleanup.CleanedIdempotent`). Single or double backticks can still
  survive.
- Fence markers are deleted wherever they occur, not only around the text.

## Model

| member | source | states |
|---|---|---|
| `Strings.EndsWith` | server.js:148 | Every text ends with the empty suffix, none ends with a longer one, and a text that ends with a non-empty suffix shares its last character. |
| `Strings.Trim` | server.js:141 | The result has no whitespace at either end and is no longer than the input. |
| `Strings.TrimCharacterized` | server.js:141 | Trim keeps the piece `s[i..j]` of the input where everything before `i` and from `j` on is whitespace, and the kept piece, when non-empty, starts and ends with a non-whitespace character. |
| `Strings.TrimUnique` | server.js:141 | Any cut of the text with those properties yields `Trim` of it, so the characterisation determines trim completely. |
| `Strings.TrimNoop` | server.js:145 | Text with no whitespace at either end is unchanged by trim. |
| `Strings.TrimIdempotent` | server.js:145 | Trimming twice is trimming once, so the second `trim` acts only on what fence deletion exposed. |
| `Strings.Join` | server.js:56 | A non-empty join starts with its first part. |
| `Strings.JoinSnoc` | server.js:56 | Joining one more part adds the separator and the part at the end, with no trailing separator. |
| `Strings.SplitJoin` | server.js:56 | When no part contains the separator, splitting a join on it returns exactly the parts. |
| `Strings.JoinSplit` | server.js:56 | Joining the pieces of a split on the same character restores the text. |
| `Strings.Decimal` | server.js:56 | The number `i + 1` is rendered as at least one digit, with no leading zero. |
| `Strings.DecimalRoundTrip` | server.js:56 | Reading the decimal rendering of `n` back gives `n`. |
| `Strings.IntText` | server.js:56 | An integer's text starts with "-" exactly when the integer is negative. The rest is decimal digits that read back as the integer's magnitude. |
| `Fences.StripFences` | server.js:145 | The regular expression replace never lengthens the text. Its other properties are the lemmas below. |
| `Fences.RemoveFences` | server.js:145 | The left-to-right scan tries "```json" first, then "```", and otherwise keeps one character. It returns exactly `StripFences` of its input. |
| `Fences.SegmentCovers` | server.js:145 | The scan's segmentation covers the input exactly. It is greedy: "```" counts as a plain fence only where "```json" does not match, and a character is kept only where no fence starts. |
| `Fences.StripKeepsUnmatched` | server.js:145 | For every greedy segmentation, stripping leaves exactly its kept characters, in their original order. Only whole fence occurrences are deleted. |
| `Fences.GreedyUnique` | server.js:145 | A text has only one greedy segmentation, so the deletions are determined. |
| `Fences.StripLength` | server.js:145 | The text has exactly the kept characters plus seven per "```json" and three per "```". |
| `Fences.PieceFacts` | server.js:145 | At a "```json" the scan deletes seven characters, at a plain "```" three, and one that is followed by "json" is a "```json"; at a kept character it moves on by one. Wherever "```json" matches, "```" matches too. |
| `Fences.FencesOnlyGreedy` | server.js:145 | A sequence of fence markers alone is segmented greedily into those markers, and nothing of it is kept. |
| `Fences.StripNoTickPrefix` | server.js:145 | A backtick-free prefix is copied unchanged ahead of the stripped rest. |
| `Fences.StripNoTick` | server.js:145 | Text without a backtick passes through fence deletion unchanged. |
| `Fences.KeptStartsNoPlain` | server.js:145 | A kept character never begins a "```" in the stripped text. |
| `Fences.StripNoPlain` | server.js:145 | No "```" remains after fence deletion. |
| `Fences.StripIdentityOnNoPlain` | server.js:145 | Text containing no "```" is left unchanged by fence deletion. This covers surviving single and double backticks. |
| `Fences.StripIdempotent` | server.js:145 | Deleting fences twice is deleting them once. |
| `Cleanup.Repair` | server.js:148-150 | The result ends with "]". It keeps the text as a prefix and adds at most one character. It adds nothing exactly when the text already ends with "]". |
| `Cleanup.Cleaned` | server.js:141-150 | The text handed to the parser on the current route always ends with "]". It is at most one character longer than the completion text. |
| `Cleanup.CleanOutput` | server.js:141-150 | Reassigning `output` step by step (trim, scan, trim, conditional append) yields `Cleaned(content)`, which ends with "]". |
| `Cleanup.PassThrough` | server.js:141-150 | Text with no backtick and no whitespace at either end passes through trim, fence deletion and trim unchanged. Cleanup then only appends "]" where it is missing. |
| `Cleanup.JsonBeforeFence` | server.js:145 | Backtick-free text followed by "```" starts with "json" only if the text on its own does. |
| `Cleanup.StripWrapped` | server.js:145 | Deleting the fences around backtick-free text leaves that text. For plain fences this holds only when the text does not start with "json". |
| `Cleanup.FencedLikeUnfenced` | server.js:141-150 | A completion wrapped in "```json … ```" is cleaned exactly as the bare text. So is one wrapped in plain fences, unless the text starts with "json". |
| `Cleanup.CleanedIdempotent` | server.js:141-150 | Cleaning already-cleaned text changes nothing. |
| `Cleanup.CleanedEmpty` | server.js:148-150 | An empty completion is cleaned to a lone "]". |
| `Cleanup.CleanedFencesOnly` | server.js:141-150 | A completion made only of fence markers, such as "```json```", is cleaned to a lone "]". |
| `NumberedList.Line` | server.js:56 | A line holds a line break exactly when its category's text does. |
| `NumberedList.Render` | server.js:56 | The list is empty exactly when there are no categories; otherwise it starts with "1. ". |
| `NumberedList.LineShape` | server.js:56 | Line `i` is the decimal number `i + 1`, then ". ", then the category's text. |
| `NumberedList.OneLinePerCategory` | server.js:56 | When no category text contains a line break, splitting the list at "\n" gives one line per category, in input order. |
| `NumberedList.RenderAppend` | server.js:56 | One category gives one line with no separator. Each further category adds "\n" and its own line at the end, never a trailing separator. |
| `JsValues.Truthy` | server.js:24 | Every array and every object is truthy; `undefined` and `null` are falsy. |
| `JsValues.Text` | server.js:56 | Only a string or an array can print as nothing. |
| `JsValues.ArrayTextSplits` | server.js:56 | A string prints as itself. An array prints as its elements' texts joined by ",", with `null` and `undefined` printed as nothing, so splitting at "," gives one text per element when none contains a comma. |
| `Handler.GuardMessage` | server.js:92-93 | Each route's 400 message ("Categories array is required" on the legacy route, line 25) is non-empty and differs from both 500 messages. |
| `Handler.Accepts` | server.js:91-94 | The guard passes exactly when `categories` is an array with at least one element. Arrays are always truthy, so `!categories` removes nothing further. The legacy guard at lines 22-26 is the same test. |
| `Handler.BuildPrompt` | server.js:54-59 | Only the legacy route builds the numbered-list prompt. It has one line per category when no category's text holds a line break. The current prompt carries the categories as given (line 129). |
| `Handler.ParserInput` | server.js:72-150 | The current route's parser input ends with "]" and is at most one character longer than the completion. The legacy route's is no longer than the completion and has no whitespace at either end. |
| `Handler.Outcome` | server.js:72-87 | A completion outcome always answers 200 or 500, and there is one parse attempt exactly when the completion call succeeded. |
| `Handler.Handle` | server.js:21-88 | At most one prompt is sent and at most one text is parsed per request, and it is answered 400 exactly when no prompt is sent. |
| `Handler.Rejected` | server.js:91-94 | Status is 400 exactly when the guard fails. Then no prompt is sent, nothing is parsed, and the body is the route's error string: "A list of categories is required" on the current route, "Categories array is required" on the legacy route (line 25). |
| `Handler.AcceptedSendsOnePrompt` | server.js:54-70 | An accepted request sends exactly one prompt. On the legacy route that prompt carries the numbered category list. |
| `Handler.UpstreamFailure` | server.js:165-167 | A failed completion call gives 500 with `error` "AI request failed" and no `rawOutput`. Nothing is parsed. |
| `Handler.ParseFailure` | server.js:152-162 | Text that does not parse gives 500 with `error` "AI returned invalid JSON" and `rawOutput` equal to the text handed to the parser. There is no retry. Lines 76-81 of the legacy route behave the same way. |
| `Handler.Success` | server.js:164 | Text that parses gives 200 with `jeopardyData` equal to the parsed value, passed through unchecked. |
| `Handler.OutcomesPartition` | server.js:152-167 | Every request ends in status 200, 400 or 500. Data appears exactly on 200, `rawOutput` exactly on a parse failure, and 500 exactly on an upstream or parse failure. There is at most one prompt and at most one parse. |
| `Handler.CurrentParsesBracketed` | server.js:148-162 | On the current route, every parser input and every `rawOutput` ends with "]". |
| `Handler.LegacyOnlyTrims` | server.js:72-81 | An accepted legacy request parses exactly the trimmed completion, and a parse failure reports that same text. Text without whitespace at its ends reaches the parser unchanged, so no fence is deleted and no "]" is added. |
| `Handler.RoutesDifferOnTruncation` | server.js:72-150 | The truncated text "[1" reaches the legacy parser unchanged and the current parser as "[1]". |
| `Handler.RoutesDifferOnFences` | server.js:72-150 | "```json[1```" reaches the legacy parser with its fences and unclosed, and the current parser as "[1]". |

## Left out

- Express, cors and body-parser setup, dotenv, `app.listen` and the port default (lines 1-14, 171-174) are framework plumbing.
- Destructuring `req.body` is not modelled: the model takes the value of the `categories` field directly, `Undefined` when it is absent.
- The Groq SDK call and its model name, temperature and token budget are left out because they are a foreign network call. The call is only a success with text or a failure. A response without `choices[0].message.content` throws inside the same `try`, so it counts as a failure.
- The fixed prompt prose is literal text with no behaviour. The `Prompt` datatype keeps only what varies: the numbered list (line 56) and the categories passed to `JSON.stringify` (line 129), whose rendering stays abstract.
- The JSON grammar is left out: `JSON.parse` is the `parse` parameter.
- JavaScript numbers are modelled as integers. NaN, -0 and fractions, and their `String()` forms, are not represented. For the guard this changes nothing, because a number is never an array. Object properties are not represented either.
- `Strings.IntText`: JavaScript prints integers of magnitude 10^21 and above in exponent form ("1e+21"), and `JSON.parse` rounds integers beyond 2^53. The model prints every integer in plain decimal digits.
- `JsValues.Text`: an object from the request body prints as "[object Object]" only while it has no own `toString` key. Interpolation calls `toString` first; if that key holds a non-function, it falls back to `valueOf`, which returns the object itself, and the conversion throws. With `categories: [{"toString": 1}]` the guard passes, and then the interpolation on line 56 throws a TypeError. That happens before the `try` on line 61, so the handler's promise rejects and no response is sent. The model prints every object as "[object Object]" and answers the request. `Handler.OutcomesPartition`'s "every request ends in 200, 400 or 500" therefore excludes this unanswered request. The same applies to an array element that is such an object.
- JavaScript strings are sequences of UTF-16 code units and may hold lone surrogates, which a Dafny `char` cannot. For well-formed text nothing modelled here changes.
- The whitespace set of `trim` is the ECMAScript set with the Zs category of current Unicode, written out as a fixed set.
- `difficultyMapping` (lines 96-102) is never used. The difficulty wording in the prompts is prose.
- `console.error` and `console.log` logging is output only.
- Schema checks on questions, options or answers are left out because the source performs none.
- Each route makes exactly one completion call for all its categories. `server.js` has no per-category variant and no random framing in its prompts, so there is nothing of that kind to model.
- Concurrency between requests is left out. Requests share no mutable state, and each handler makes one sequential pass.
