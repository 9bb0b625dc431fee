# Hacker terminal: a Dafny model of its state logic

The page is a decorative "hacker terminal". Four parts of it are exact once the
random numbers, the clock and the text-generation service are taken as inputs,
and this project models those four:

- **The log feed** (`App.tsx`). `addLog` builds a `LogMessage` and replaces the
  feed with `[...prev.slice(-49), newLog]`. This is a sliding window of at most
  50 entries, oldest first. `App.Appended` is that updater. `App.AppState`
  holds the page's state cells (`logs`, `activeUser`, `manifesto`, `loading`,
  `breachLevel`) and has one method per state change.
- **The breach probe** (`App.tsx`). Clicking a target resets the state and logs
  a warning. A 300 ms interval then raises the progress by a random 5..19 until
  a tick finds it at 100 or more; that tick clamps it to 100 and stops. Once
  both service calls have resolved, line `idx` of the intelligence is logged
  after `idx * 800` ms. The report completes after `n * 800 + 500` ms.
  `App.Schedule` gives these timers. `App.AppState.RunReport` fires them in
  the order of their delays.
- **The scramble effect** (`components/HackerText.tsx`). While the element is
  hovered, each 30 ms tick redraws the text. A position left of a reveal cursor
  shows its true character. Every other position shows a random symbol from
  `ABCDEFGHIJKLMNOPQRSTUVWXYZ#@$%&*0123456789`. The cursor grows by 1/3 per
  tick. Here it is an integer tick count `k`, so the cursor is `k/3` and
  "index < cursor" is `3 * i < k`. `HackerText.ScrambleState` is the element's
  state. Its `Tick` and `Hover` methods are the interval.
- **Response post-processing** (`services/geminiService.ts`). The
  intelligence text is split on `'\n'`. Lines whose `trim()` is empty are
  dropped, and at most five lines are kept. A failed call gives five canned
  lines. The manifesto is the answer text, or one canned text when the answer
  is empty, or another when the call fails. A service answer is
  `GeminiService.Response`: the call failed, or it answered with a text that
  may be undefined.

Inputs that stand in for the environment:
- `Stamp` holds the random id (`Math.random().toString(36)`) and the locale
  time string of one new entry.
- `App.Increment` is the random progress step, in 5..19.
- `HackerText.SymbolIndex` is the random symbol index, in 0..41.

Three behaviours of the code are easy to misread, and the model follows the
code in each:
- Progress can exceed 100. The updater checks `prev >= 100` on the previous
  value (App.tsx:47) and otherwise adds the step without a further check
  (App.tsx:51). So the bar can reach 99 + 19 = 118, and the next tick sets it
  back to 100. `App.BreachBounded` proves the bound of 118 and `App.BreachStep`
  proves the drop to 100.
- The reveal compares `index < iterations` against the fractional cursor
  (components/HackerText.tsx:26). So at tick count k, ceil(k/3) positions are
  revealed, not floor(k/3) (`HackerText.RevealedCount`).
- An answer with an empty or missing text gives no intelligence lines at all.
  The canned lines are used only when the call throws.

## Model

| member | source | states |
|---|---|---|
| Types.MakeLog | App.tsx:18-23 | the entry `addLog` builds carries the given text and level, and the supplied id and timestamp |
| App.Appended | App.tsx:24 | after any append the feed has at most 50 entries; the new entry is last; the entries before it are the last min(n,49) old entries in order; below 50 entries nothing is evicted |
| App.AppendedIsWindow | App.tsx:24 | one append equals the last 50 of old feed plus new entry, whatever the old length |
| App.AppendAll | App.tsx:24 | a batch of appends leaves at most 50 entries, ends with the batch's last entry, and leaves a feed of at most 50 unchanged when the batch is empty |
| App.AppendAllFirst | App.tsx:24 | appending a batch is one `Appended` of its first entry followed by the rest, so the window is what the appends produce one by one |
| App.AppendAllSnoc | App.tsx:24 | appending a batch and then one more entry is one `Appended` on top of the batch's feed |
| App.AppendAllEndsWith | App.tsx:24 | appending at most 50 entries leaves the feed ending with exactly those entries |
| App.FiftyTwoAppends | App.tsx:24 | appending m0..m51 to an empty feed leaves exactly m2..m51 |
| App.NextBreach | App.tsx:46-52 | a tick at 100 or more yields exactly 100; below 100 it adds between 5 and 19 |
| App.BreachAfter | App.tsx:41-52 | progress is 0 exactly when no tick has run, and at least 5 after any tick |
| App.BreachBounded | App.tsx:41-52 | starting from 0, progress always stays between 0 and 118 |
| App.BreachStep | App.tsx:46-52 | below 100 a tick strictly raises progress; at 100 or more it sets exactly 100 |
| App.BreachProgresses | App.tsx:41-52 | after n ticks progress is at least 5n or has reached 100 |
| App.BreachReachesFull | App.tsx:41-52 | after 20 ticks progress is at least 100 |
| App.Schedule | App.tsx:61-70 | one timer per intelligence line, in array order, then the completion timer last |
| App.ScheduleFiresInOrder | App.tsx:61-70 | the delays idx*800 strictly increase and n*800+500 exceeds them all, so lines fire in array order before the completion |
| App.ScheduleWithinBudget | App.tsx:70 | with at most five lines the report completes within 4500 ms |
| App.ProbeNotice | App.tsx:42 | the warning is a fixed 33-character lead followed by the target's name |
| App.CompletionNotice | App.tsx:67 | the completion notice holds the target's name after a fixed 24-character lead, 34 characters longer than the name |
| App.NoticesNameTheTarget | App.tsx:42-67 | each notice determines the name it was built from, and no warning equals a completion notice |
| App.ReportEntries | App.tsx:61-67 | the report logs each line at info level and then the completion notice at success level |
| App.ReportTexts | App.tsx:61-67 | the report's texts are the lines in array order followed by "Intelligence Report for <name> Complete." |
| App.ProbeEntries | App.tsx:42-67 | a probe logs one entry per stamp, the first being the warning announcing the target |
| App.ProbeFeedEnds | App.tsx:38-70 | after a probe the feed ends with the intelligence lines followed by the completion notice |
| App.FailedProbeOfMnb | App.tsx:38-70 | a probe of MNB with both calls failing ends the feed with the five canned lines and the completion notice, and stores the failure manifesto |
| App.AppState.constructor | App.tsx:10-30 | the page starts with no target, no manifesto, not loading, progress 0, and the two mount entries in the feed |
| App.AppState.AddLog | App.tsx:17-25 | the feed becomes the capped append of the new entry; the 50-entry bound is kept |
| App.AppState.StartProbe | App.tsx:39-53 | target set to the name, loading on, progress 0, the interval running, exactly one warning appended |
| App.AppState.BreachTick | App.tsx:45-53 | a running interval applies the clamp-or-increment and stops once it finds 100 or more; a stopped one changes nothing |
| App.AppState.CompleteProbe | App.tsx:65-70 | manifesto stored, success entry appended, loading off, progress forced to 100 |
| App.AppState.Fire | App.tsx:61-70 | firing timer t appends report entry t and leaves the progress interval as it was; the last timer also completes the report |
| App.AppState.RunReport | App.tsx:61-70 | firing the timers in delay order appends every report entry in order, then leaves loading off and progress at 100, the progress interval untouched |
| App.AppState.Probe | App.tsx:38-70 | a whole probe appends the warning, the lines and the completion, selects the target, stores the manifesto, and ends with loading off, progress 100 and the progress interval still scheduled |
| HackerText.RevealedCount | components/HackerText.tsx:26-38 | the revealed count at tick count k is ceil(k/3): the least r with 3r >= k |
| HackerText.IsRevealed | components/HackerText.tsx:26 | position i is revealed at tick count k exactly when i < RevealedCount(k) |
| HackerText.Scramble | components/HackerText.tsx:23-31 | a tick keeps the display's length; revealed positions show the text's character and the rest show alphabet symbols |
| HackerText.ScrambleAtEnd | components/HackerText.tsx:26-36 | at the tick where the cursor reaches the text length the display equals the text exactly |
| HackerText.RevealedPrefixGrows | components/HackerText.tsx:26-38 | the revealed count never shrinks, and a revealed position keeps its character at every later tick |
| HackerText.ScrambleState.constructor | components/HackerText.tsx:10-12 | a mounted element shows its text, unhovered, with no interval |
| HackerText.ScrambleState.MouseEnter | components/HackerText.tsx:21-22 | a new hover restarts the cursor at 0 and starts the interval; entering again while hovered changes nothing |
| HackerText.ScrambleState.MouseLeave | components/HackerText.tsx:16-18 | ending the hover stops the interval and shows the text exactly |
| HackerText.ScrambleState.Tick | components/HackerText.tsx:22-39 | a running tick redraws with the cursor at iterations/3, stops once the cursor reaches the length, then advances; a cleared interval changes nothing |
| HackerText.ScrambleState.Hover | components/HackerText.tsx:21-41 | a hover lasting more than 3*len ticks ends with the text shown and the interval cleared; a shorter one is still running with cursor at ticks/3 |
| GeminiService.TextOrEmpty | services/geminiService.ts:19 | an undefined answer text reads as the empty string |
| GeminiService.TrimStart | services/geminiService.ts:20 | strips exactly the leading whitespace: what is removed is whitespace and what remains starts with non-whitespace |
| GeminiService.TrimEnd | services/geminiService.ts:20 | strips exactly the trailing whitespace |
| GeminiService.LeadingSpace | services/geminiService.ts:20 | counts the leading whitespace: everything before it is whitespace and the character at it is not |
| GeminiService.Trim | services/geminiService.ts:20 | the result is the slice of the line right after its leading whitespace, the rest of the line after it is whitespace, the result neither starts nor ends with whitespace, and it is empty exactly when the line is all whitespace |
| GeminiService.NonBlank | services/geminiService.ts:20 | a line passes the filter exactly when it is not all leading whitespace, i.e. some character is not whitespace |
| GeminiService.Lines | services/geminiService.ts:20 | splitting on newline gives at least one piece, and no piece contains a newline |
| GeminiService.JoinLinesOfLines | services/geminiService.ts:20 | joining the pieces with newlines gives back the text |
| GeminiService.LinesOfJoinLines | services/geminiService.ts:20 | splitting newline-free pieces joined by newlines gives back the pieces |
| GeminiService.NonBlankLines | services/geminiService.ts:20 | the filter keeps only non-blank lines of the input and drops none of them |
| GeminiService.NonBlankLinesCounts | services/geminiService.ts:20 | every non-blank line is kept exactly as many times as it occurs, and no blank line is kept |
| GeminiService.NonBlankLinesInOrder | services/geminiService.ts:20 | the filter keeps its lines in their original order |
| GeminiService.ParseIntel | services/geminiService.ts:20 | at most five lines, each free of newlines and with a non-whitespace character (which five: `ParseIntelFirstFive`) |
| GeminiService.ParseIntelFirstFive | services/geminiService.ts:20 | the parsed lines are a prefix of the filtered lines, of length min(5, number of non-blank lines) |
| GeminiService.ParseIntelInOrder | services/geminiService.ts:20 | the parsed lines are untrimmed lines of the answer, in their order |
| GeminiService.ParseIntelComplete | services/geminiService.ts:20 | fewer than five lines come back only when the answer has fewer than five non-blank lines, and then all of them come back |
| GeminiService.ParseIntelBlank | services/geminiService.ts:19-20 | an empty or all-whitespace answer parses to no lines |
| GeminiService.FallbackIntel | services/geminiService.ts:23-29 | the failure result is five lines, the first naming the target |
| GeminiService.GenerateIntel | services/geminiService.ts:19-29 | at most five lines; a failed call gives the canned lines; an answer gives its parsed lines |
| GeminiService.EmptyAnswerGivesNoIntel | services/geminiService.ts:19-20 | a missing or empty answer gives an empty list, not the canned lines |
| GeminiService.GetManifesto | services/geminiService.ts:43-45 | never empty; failure gives the failure text; an empty answer gives the default text; otherwise the answer |
| GeminiService.ManifestoPassesAnswer | services/geminiService.ts:43 | an answer text comes back unchanged exactly when it is non-empty |

## Left out

- Rendering: JSX, CSS classes, icons, the matrix background and the auto-scroll effect (App.tsx:32-36, 78-214). They only draw the state.
- The text-generation client and its `generateContent` calls (services/geminiService.ts:2-18, 35-42). This is a foreign network library. Its outcome is the `Response` input, and logging the error to the console is not modelled.
- `Math.random` and `toLocaleTimeString`. They are inputs constrained to their ranges. Ids are not claimed unique.
- The floating-point sum `iterations += 1/3` (components/HackerText.tsx:38). It is an exact integer tick count. In doubles, fifteen additions of 1/3 give 4.999999999999999, not 5. So for a five-letter text such as "NIZAR", the check `iterations >= text.length` fails at the sixteenth firing, and the interval is cleared one firing later than in the model. That extra firing redraws with every position revealed, so the final display is the same.
- HackerText.Scramble: counts characters as Unicode scalar values, while JavaScript's `split("")`, `length` and indexing count UTF-16 code units. A character outside the Basic Multilingual Plane would be scrambled as two surrogate halves and need three more ticks to reveal. The texts the page passes ("MNB", "NIZAR") are ASCII, where the two counts agree.
- When React runs the `setDisplayText` updater. `Tick` applies it with the cursor of the current firing, before the cursor advances.
- Timer interleaving, `Promise.all` and overlapping probes. A second probe started before the first completes leaves the first one's timers running. The model replays one probe's timers in delay order. `AppState.Probe` does not replay the progress interval's firings. They touch neither the feed nor the flags, and `BreachTick` models them on their own.
- The `catch` branch of `handleNameClick` (App.tsx:72-75). Both service functions catch their own errors, so it is not reached.
- `HackerProfile` (types.ts:9-14). It is unused.
- HackerText.Scramble: requires the display to have the text's length. A change of the `text` prop while hovered, which would break this, is not modelled.
