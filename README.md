# US Live Flight Tracker — response extraction, in Dafny

The dashboard asks a search-grounded generative model for ten live US flights and turns
its free-form reply into flight records plus citation sources. This project models the
part of that which is logic rather than I/O or rendering:

- `extractJson` (services/geminiService.ts), which recovers a JSON value from untrusted
  text with an ordered fallback chain: the first ```` ```json ```` fenced block, then the
  text from the first `[` to the last `]`, then the whole text, then one fixed error;
- the post-processing inside `fetchFlightData`, from the moment the API call settles:
  citation sources filtered from the first candidate's grounding chunks, the array-shape
  check, and the wrapping of every failure into one message;
- `getStatusColor` (components/FlightCard.tsx), which lower-cases a free-text status and
  picks one of five colour classes by keyword, in priority order.

Everything is pure, as in the source: datatypes, functions and lemmas.

Modules:

- `Wrappers` — `Option`, and `Result` whose `Failure` stands for a thrown `Error`.
- `Json` — the JSON values `JSON.parse` produces.
- `Strings` — `indexOf`, `lastIndexOf`, `includes` and the ASCII whitespace class used for
  `\s`, each with a contract saying what it finds.
- `GeminiService` — the fence pattern, `ExtractJson`, and `FetchFlightData`.
- `FlightCard` — `StatusColor`.

How the source's pieces are represented:

- `JSON.parse` is a parameter `parse: string -> Option<Json>` of every operation that
  parses; `None` stands for a `SyntaxError`. No JSON grammar is modelled, so every
  property holds for whatever parser is supplied.
- The regular expression ```` /```json\s*([\s\S]*?)\s*```/ ```` is given twice. `Matches`
  and `Precedes` define its meaning independently of any search: a match is a split of
  the text into the opening fence, a whitespace run, the capture, a whitespace run and the
  closing fence. A backtracking matcher reports the first split it tries: leftmost start,
  then the longest leading run (greedy), the shortest capture (lazy), the longest
  trailing run. `FindFence` is the hand-coded search. `FindFenceIsReportedMatch` proves
  that the search returns exactly that reported match, and returns nothing exactly when
  no split exists. The capture is therefore the text after the first ```` ```json ````
  up to the first ```` ``` ```` that follows, with whitespace trimmed at both ends.
- The network call's outcome is an input, `Reply`: either a `Response` (text plus the
  optional candidates) or a thrown value. The thrown value is either an `Error` with its
  message or anything else, so both branches of the `catch` clause are modelled.
- Flights stay JSON values: the source casts the parsed array to `Flight[]` without
  checking any field.

`ExtractJson` and `FetchFlightData` are Dafny functions. Identical text therefore gives an
identical outcome by construction, and no separate lemma states it.

The extraction error carries only the fixed message; the raw text is only logged
(services/geminiService.ts:42-46). `ExtractJson` fails with exactly that message.

## Model

| member | source | states |
|---|---|---|
| `Strings.IndexOf` | services/geminiService.ts:27 | the result is -1 when the character is absent, else the index of its first occurrence |
| `Strings.LastIndexOf` | services/geminiService.ts:28 | the result is -1 when the character is absent, else the index of its last occurrence |
| `Strings.FindFrom` | services/geminiService.ts:15 | the first index at or after `from` where a pattern occurs; `None` exactly when it occurs nowhere there |
| `Strings.SkipSpaces` | services/geminiService.ts:15 | a greedy `\s*` consumes the whole whitespace run and stops at a non-space or at the end |
| `Strings.SpaceRunStart` | services/geminiService.ts:15 | the start of the whitespace run ending at a position, so the lazy capture ends just before it |
| `Strings.Includes` | components/FlightCard.tsx:39-50 | `includes` is true exactly when the keyword occurs at some index |
| `GeminiService.FindFence` | services/geminiService.ts:15 | whatever the search returns is a match of the fence pattern |
| `GeminiService.FindFenceIsReportedMatch` | services/geminiService.ts:15 | the search returns the match a backtracking matcher reports (first fence, greedy, lazy, greedy), and nothing exactly when the pattern cannot match |
| `GeminiService.ReportedMatchIsFound` | services/geminiService.ts:15 | the reported match is unique, and the search finds it |
| `GeminiService.FenceCandidate` | services/geminiService.ts:15-16 | the stage-1 candidate is the capture of the reported match when that capture is non-empty (`markdownMatch && markdownMatch[1]`), and nothing when the capture is empty or the pattern does not match |
| `GeminiService.BracketCandidate` | services/geminiService.ts:27-30 | with the first `[` at i and the last `]` at j, the stage-2 candidate is the text from i to j, both included, exactly when i < j; with no `[` or no `]` there is none |
| `GeminiService.ExtractJson` | services/geminiService.ts:13-47 | a failure carries exactly "Could not find or parse a valid JSON object in the response."; a success is the parse of some substring of the text (the raw text is not carried) |
| `GeminiService.FenceStageFailsIff` | services/geminiService.ts:15-23 | stage 1 yields nothing exactly when there is no match, the capture is empty, or the capture does not parse |
| `GeminiService.BracketStageFailsIff` | services/geminiService.ts:27-37 | stage 2 yields nothing exactly when there is no `[`, the last `]` is not after the first `[`, or that substring does not parse |
| `GeminiService.FenceStageWins` | services/geminiService.ts:15-18 | a non-empty capture of the reported fence that parses is the result, even when a bracket substring or the whole text would also parse |
| `GeminiService.BracketStageWins` | services/geminiService.ts:16-32 | once stage 1 fails, the text from the first `[` to the last `]`, both included, is the candidate, and its parse is the result |
| `GeminiService.WholeTextStage` | services/geminiService.ts:27-46 | when stages 1 and 2 fail, the unmodified whole text is parsed; if that fails, the fixed error is raised |
| `GeminiService.ExtractionFailsExactly` | services/geminiService.ts:13-47 | extraction fails exactly when all three stages fail, and then with the fixed message |
| `GeminiService.PlainTextIsParsedWhole` | services/geminiService.ts:15-30 | text with no backtick and no `[` skips both stages 1 and 2 |
| `GeminiService.IsCitation` | services/geminiService.ts:93-94 | a chunk is kept exactly when its `web` object is present and its `uri` and `title` are present and non-empty (truthy) |
| `GeminiService.Citation` | services/geminiService.ts:93-94 | the source kept for a chunk carries that chunk's `web` uri and title unchanged, both non-empty |
| `GeminiService.CollectSources` | services/geminiService.ts:92-94 | every source is the `web` object of a chunk whose `uri` and `title` are present and non-empty, every such chunk contributes, and there are no more sources than chunks |
| `GeminiService.CollectSourcesAppend` | services/geminiService.ts:92-94 | filtering keeps the original order: the sources of a concatenation are the concatenated sources |
| `GeminiService.CollectSourcesExample` | services/geminiService.ts:92-94 | of a chunk with uri and title, one with no uri, one with a null `web` and an empty one, only the first is kept |
| `GeminiService.ResponseSources` | services/geminiService.ts:91-94 | a missing or empty candidate list, a missing `groundingMetadata` or missing `groundingChunks` on the first candidate each give an empty source list, not an error; otherwise the sources are the filtered chunks of the first candidate |
| `GeminiService.Wrap` | services/geminiService.ts:102-108 | an `Error` becomes "Failed to fetch flight data: " followed by its message; any other thrown value becomes the fixed generic message |
| `GeminiService.FetchFlightData` | services/geminiService.ts:89-108 | every failure message starts with the fixed prefix or is the generic one; a success happens exactly when extraction, by any of its three stages, gives an array, and then the flights are that array's elements, unchanged, and the sources those of the first candidate |
| `GeminiService.FetchFailures` | services/geminiService.ts:89-107 | a thrown call, an extraction failure and a non-array value each give their own wrapped message |
| `GeminiService.FencedArrayIsFetched` | services/geminiService.ts:89-101 | a reply whose reported fence holds a parseable array yields that array's elements as flights, with the first candidate's citations as sources |
| `GeminiService.ProseReplyFails` | services/geminiService.ts:40-46 | a prose refusal that the parser rejects ends in "Failed to fetch flight data: " followed by the extraction error |
| `FlightCard.LowerChar` | components/FlightCard.tsx:38 | ASCII upper-case letters map to lower case, other characters are unchanged, and no upper-case letter remains |
| `FlightCard.ToLower` | components/FlightCard.tsx:38 | lower-casing keeps the length and lower-cases each character in place |
| `FlightCard.StatusColor` | components/FlightCard.tsx:37-52 | green exactly when "en route" or "on time" occurs; yellow exactly when "delayed" occurs without those; blue for "landed", red for "cancelled", each only when no earlier keyword occurs; gray exactly when no keyword occurs |
| `FlightCard.StatusColorIsOneOfFive` | components/FlightCard.tsx:37-52 | the result is always one of the five class strings |
| `FlightCard.StatusColorIgnoresCase` | components/FlightCard.tsx:38 | statuses that differ only in ASCII case get the same colour |
| `FlightCard.ToLowerIdempotent` | components/FlightCard.tsx:38 | lower-casing a lower-cased status changes nothing |
| `FlightCard.StatusColorOfLowered` | components/FlightCard.tsx:38 | the colour depends only on the lower-cased status |
| `FlightCard.CanceledIsGray` | components/FlightCard.tsx:48-51 | the single-l spelling "Canceled" matches no keyword and is gray |

## Left out

- The API key check and client construction at module load (services/geminiService.ts:4-10): process environment and start-up side effects.
- The prompt text and the network call itself (services/geminiService.ts:52-87): foreign asynchronous I/O. Its outcome is the `Reply` input.
- An absent `response.text`: the model's `Response` always has a text. In the source, an absent text makes `text.match` throw a runtime `TypeError`, whose message comes from the JavaScript engine.
- `console.error` logging (services/geminiService.ts:20, 34, 44, 103): no observable effect on the result.
- `JSON.parse` itself: it is a parameter. `Json` numbers are integers, so floating-point numbers are not modelled.
- `Strings.IsSpace`: `\s` covers only ASCII space, tab, line feed, vertical tab, form feed and carriage return, not the Unicode spaces JavaScript also includes.
- `FlightCard.LowerChar`: `toLowerCase` is modelled for ASCII letters only; Unicode case mapping is not modelled.
- Strings are sequences of characters, not of UTF-16 code units, so indices differ from JavaScript's for characters outside the Basic Multilingual Plane.
- The rest of components/FlightCard.tsx (icons, layout, progress-bar width), components/SourceLink.tsx, App.tsx (React state, loading flag, rendering) and types.ts (declarations only): presentational or declarative, with no logic to verify.
