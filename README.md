# AI BookSmith: the book wizard, modelled in Dafny

AI BookSmith is a four-step React wizard that writes a book. The steps are:

1. INPUT: the user types a topic.
2. OUTLINE: a title, an audience and a chapter list are generated and shown.
3. GENERATING: each chapter's text and a cover image are generated.
4. RESULT: the finished book is shown.

This project models the wizard's state and handlers and the three service adapters they call. It proves what they promise.

Modules:

- `Types` (`types.dfy`): the records. `Chapter`, `Partial<BookData>` (`PartialBook`, where every key may be missing), the closed four-valued `WizardStep` and `GenerationProgress`. It also holds object spread (`Merge`).
- `GeminiService` (`gemini_service.dfy`): the adapters around the content-generation service.
  - An outline with an empty response is an error, and every error is rethrown.
  - Chapter text falls back to `""` or to a fixed error text.
  - The cover is the first response part that carries image data.

  The service call itself is not modelled. Each adapter receives the call's outcome: a returned value or a thrown error (`Reply`).
- `Production` (`production.dfy`): what one run of `handleStartGeneration` produces, as pure functions of the outline and of the outcomes of its awaited calls:
  - the written chapters (`Fill`)
  - the log lines (`RunLog`)
  - the progress snapshots (`RunSnapshots`)
  - the committed book (`Committed`)

  Lemmas state ordering, bounds, monotonicity and the all-or-nothing commit about these functions.
- `App` (`app.dfy`): the component as the class `BookSmith`.
  - Its fields are `step`, `isLoading`, `bookData`, `progress` and `logs`.
  - Two ghost fields record every step set (`steps`) and every progress record published (`snapshots`).
  - Every handler is proved to produce exactly the state its contract describes: `HandleStartGeneration` in terms of the `Production` functions, `HandleInputSubmit` in terms of the outline adapter and object spread, and `HandleReset` as the empty state.
  - The class invariant `Valid` says four things:
    - the step history only takes the wizard's moves
    - the current progress is the last snapshot
    - its count stays within its total
    - at RESULT every chapter has content.

How a production run's outside world enters the model:

- `service` gives the outcome of each chapter call.
- `coverReply` is the outcome of the cover call. Its result is fixed when the run launches and is consumed after the chapter loop.
- `coverSlot` says during which await the cover promise settles, which decides where its log line falls:
  - `coverSlot == i` means during chapter `i`'s await.
  - `coverSlot` at or past the number of chapters means at the final join.
- `fault` says which await, if any, throws an exception that the adapters do not absorb: a chapter's await or the cover join.

The chapter adapter never throws, so `ChapterFault` only covers errors outside the adapters.

Edge cases of the code that the model keeps as they are:

- The generation guard accepts an empty `chapters` array, because an empty array is truthy. The run then has one operation, the cover (`EmptyOutlineRun`).
- A chapter whose response has no text is committed with `""` as its content. It is not reported as a failure.
- A failed run commits nothing and leaves the outline in `bookData` as it was. Nothing is reverted, because nothing was written.
- An outline failure leaves `bookData` as `{ topic }`. The earlier `setBookData({ topic })` is not undone.
- The outline is whatever the JSON decoder returns, taken as `Partial<BookData>`. Nothing checks it against the schema.

## Model

| member | source | states |
|---|---|---|
| Types.TopicOnly | App.tsx:29 | the book that submitting a topic starts from has that topic and no other key |
| Types.Merge | App.tsx:34 | object spread: each key the outline carries replaces the current one; each key it lacks keeps the current value |
| Types.MergeOntoTopic | App.tsx:34 | spreading an outline over `{ topic }` takes every key the outline carries and keeps the topic only when the outline has none |
| GeminiService.GenerateBookOutline | services/geminiService.ts:45-52 | a thrown error is rethrown unchanged; an empty or missing text fails with "No response from Gemini"; otherwise the result is the decoder's; success implies a non-empty text |
| GeminiService.GenerateChapterContent | services/geminiService.ts:70-80 | never throws: the text when non-empty, `""` when the response has none, the fixed error text when the call failed; `""` only comes from a successful call |
| GeminiService.PartsOf | services/geminiService.ts:101 | the optional chain yields parts exactly when there is a first candidate with content and parts, and then it yields exactly that candidate's `content.parts` |
| GeminiService.CarriesData | services/geminiService.ts:104 | a part carries image data exactly when `inlineData` is present and its `data` is present and non-empty |
| GeminiService.DataOf | services/geminiService.ts:105 | the data returned for such a part is that part's non-empty `inlineData.data` |
| GeminiService.FirstData | services/geminiService.ts:103-108 | a found cover is non-empty and is the data of some part that carries data |
| GeminiService.FirstDataIsFirst | services/geminiService.ts:102-109 | the scan finds nothing exactly when no part carries data; otherwise it returns the non-empty data of the first part, in order, that carries any |
| GeminiService.GenerateCoverImage | services/geminiService.ts:94-114 | the loop with its early return yields the first part's data, and no cover when the call threw, the parts are absent or none has data |
| GeminiService.CoverImageOf | services/geminiService.ts:94-114 | a call that threw gives no cover; a cover is non-empty and comes from a returned response whose parts are present |
| GeminiService.CoverImageOfSpec | services/geminiService.ts:101-113 | no cover exactly when the call threw, the parts are absent or no part carries data; otherwise the cover is the non-empty data of the first part with data |
| Production.Ready | App.tsx:47 | the guard passes exactly when `chapters` is present (even empty) and title and topic are present and non-empty |
| Production.Audience | App.tsx:85 | the audience passed to each chapter call is the outline's when non-empty, otherwise "General Audience"; it is never empty |
| Production.Written | App.tsx:88 | a written chapter has content, and apart from `content` it is the outline's chapter |
| Production.Fill | App.tsx:76-91 | after `k` turns `filledChapters` holds `k` chapters |
| Production.WrittenSpec | App.tsx:88 | a written chapter keeps title, description, `isGenerating` and `isDone`; only `content` is set, to that chapter's call result |
| Production.FillSpec | App.tsx:76-91 | after `k` turns `filledChapters` has length `k` and entry `i` is chapter `i` as written, in array order |
| Production.FailedChapterIsDegraded | App.tsx:82-88 | a chapter whose call fails is committed with the fixed error text, and the run still fills every chapter |
| Production.Committed | App.tsx:98-102 | the commit sets chapters, of the outline's length, and the cover as given, and leaves every other key of the book as it was |
| Production.CommittedBook | App.tsx:98-102 | the committed book has every outline chapter in order, each with content, plus the cover's result even when absent; title, topic and audience are unchanged |
| Production.TotalOps | App.tsx:50 | `totalOps` is the chapter count plus one for the cover, so never zero |
| Production.Request | App.tsx:82-86 | each chapter call gets the book's title, that chapter and the defaulted audience, none of the strings empty |
| Production.CoverLine | App.tsx:69-71 | the cover promise logs "Cover art generated." exactly when there is a cover, otherwise "Cover art skipped (unavailable)." |
| Production.WritingLineTitle | App.tsx:80 | `WritingLine`: the chapter's title reads back from its "Writing" line, so chapters with distinct titles log distinct lines |
| Production.WritingTaskParts | App.tsx:79 | `WritingTask`: the task names chapter `i+1` in decimal and ends with the chapter's title |
| Production.NatToStringValue | App.tsx:90 | `NatToString`: the number printed by the template literal is digits only, without leading zero, and reads back as the number |
| Production.ChapterDoneLineInjective | App.tsx:90 | `ChapterDoneLine`: distinct chapters log distinct "Chapter N completed." lines |
| Production.RunLog | App.tsx:62-111 | a run's log lines start with "Starting creative process..."; they are built from the loop's lines (`LoopLog`, one `Window` per finished chapter, up to `Stop`) and the outcome's tail (`RunTail`), with `Aborts` deciding the outcome |
| Production.RunSnapshots | App.tsx:53-111 | a run's first snapshot is "Designing cover art..." at 0 done of chapters plus one; then one per chapter reached (`LoopSnapshots`) and the closing ones (`Closing`) |
| Production.PercentBounds | App.tsx:53-59 | `Snapshot` publishes the given task, count and total, and its `Percent` lies in 0..100 and is 100 exactly when completed equals total |
| Production.LoopSnapshotsAt | App.tsx:79 | the snapshot announcing chapter `i` shows `i` operations done of chapters plus one |
| Production.AbortedRunSnapshots | App.tsx:62-111 | a run a chapter's error ends publishes the opening snapshot and one per chapter reached, nothing after |
| Production.FinishedRunSnapshots | App.tsx:62-104 | a run that finishes its loop publishes the opening snapshot, one per chapter, then "Finalizing" and, unless the cover join throws, "Done!" |
| Production.RunSnapshotsShape | App.tsx:53-104 | on every path: the opening snapshot shows 0; chapter `i` shows `i`; "Finalizing" shows the chapter count; "Done!" shows chapters plus one; the length per outcome |
| Production.RunSnapshotsMonotone | App.tsx:53-59 | within a run `completedChapters` never decreases and stays within a total of chapters plus one, and the percentage stays in 0..100 |
| Production.RunSnapshotsFinish | App.tsx:94-104 | a run that is not aborted ends with "Finalizing" at the chapter count and "Done!" at completed = total with percentage 100 |
| Production.WindowShape | App.tsx:80-90 | the lines of one turn open with the chapter's "Writing" line and close with its "completed" line |
| Production.LoopLogAt | App.tsx:77-91 | in the loop's lines, chapter `i`'s "Writing" line comes before its "Chapter i+1 completed." line, at the bounds of its window |
| Production.RunLogPrefix | App.tsx:65-91 | after "Starting creative process..." the run log repeats the loop's lines |
| Production.RunLogWritingAt | App.tsx:80 | every chapter the loop reaches, including the one whose await throws, has its "Writing" line where its window starts |
| Production.RunLogDoneAt | App.tsx:90 | every chapter the loop finishes has its "completed" line at the end of its window |
| Production.RunLogOrder | App.tsx:65-91 | "Starting creative process..." is first; chapter `i`'s "Writing" line precedes its "completed" line, and the next chapter's "Writing" line follows at once |
| Production.AbortedRunLogsCritical | App.tsx:107-109 | an aborted run's log starts with the opening line and ends with "Critical error during generation." |
| Production.EmptyOutlineRun | App.tsx:47-50 | an empty chapter array passes the guard; the run has one operation and publishes designing, finalizing and done snapshots only |
| App.AnalyzingLineTopic | App.tsx:30 | `AnalyzingLine`: the topic reads back from its "Analyzing topic" line, so distinct topics log distinct lines |
| App.TrimStart | components/StepInput.tsx:14 | the front cut consists of white space only, and what is left is a suffix of the input that does not start with white space |
| App.TrimEnd | components/StepInput.tsx:14 | the back cut consists of white space only, and what is left is a prefix of the input that does not end with white space |
| App.Trim | components/StepInput.tsx:14-15 | the trimmed string is a slice `s[i..j]` of the input, everything outside the slice is white space, and the slice is empty or starts and ends with a non-space character |
| App.SubmittableIsTrimmed | components/StepInput.tsx:12-16 | `Submittable`: the form submits exactly the non-empty topics that trimming leaves unchanged |
| App.Edge | App.tsx:35-118 | the wizard's moves, by target: INPUT from every step (reset, App.tsx:118); OUTLINE only from INPUT (App.tsx:35) or GENERATING (App.tsx:111); GENERATING only from OUTLINE (App.tsx:49); RESULT only from GENERATING (App.tsx:105) |
| App.StepTraceExtend | App.tsx:35-118 | `StepTrace`: a step history starts at INPUT and takes only the wizard's moves; extending one by a move gives a history again |
| App.EdgeShape | App.tsx:35-118 | reads three facts off the wizard's moves: RESULT is left only by reset, a run is only entered from OUTLINE, and RESULT is only reached from GENERATING |
| App.TraceShape | App.tsx:35-118 | along every step history the class invariant admits, each RESULT follows GENERATING, each GENERATING follows OUTLINE, and RESULT is followed only by INPUT; `Valid` keeps this history a `StepTrace` through every handler |
| App.BookSmith.constructor | App.tsx:11-20 | the initial state: step INPUT, not loading, `{}`, zeroed progress, no logs |
| App.BookSmith.AddLog | App.tsx:22-24 | appends exactly the one message to the log |
| App.BookSmith.SetStep | App.tsx:11 | sets the step and records it in the step history |
| App.BookSmith.UpdateProgress | App.tsx:53-60 | publishes the snapshot of the task with the given count, total and percentage |
| App.BookSmith.HandleInputSubmit | App.tsx:27-43 | the book becomes `{ topic }`, then `{ topic }` spread with the outline and step OUTLINE on success; on failure the step stays and the error line is logged; loading is off |
| App.BookSmith.HandleStartGeneration | App.tsx:46-113 | a guard failure changes nothing; otherwise the log, the snapshots, the step history and the book are those of the run; commit on success, OUTLINE with the outline kept on abort |
| App.BookSmith.Produce | App.tsx:49-112 | the run phase by phase: opening, loop up to where it stops, tail, with the commit only when nothing aborts |
| App.BookSmith.Launch | App.tsx:49-68 | step GENERATING, log "Starting creative process...", snapshot "Designing cover art..." at 0 of chapters plus one |
| App.BookSmith.WriteChapters | App.tsx:76-91 | the loop writes chapters in order into `filledChapters` with `completedOps` equal to the chapters done; it ends when all are written or at the first fatal await, logging the error and going to OUTLINE |
| App.BookSmith.WriteChapter | App.tsx:77-90 | one turn: the chapter's snapshot at count `i`, its "Writing" line, the cover line if it settles now, then the error path or the written chapter and its "completed" line |
| App.BookSmith.AnnounceChapter | App.tsx:78-80 | the start of chapter `i`'s turn: its snapshot at `i` done of chapters plus one, its "Writing" line, and the cover's line when the cover settles during this await |
| App.BookSmith.CoverRejected | App.tsx:94-111 | the cover join throws: "Finalizing" is published, the error is logged, the step returns to OUTLINE and nothing is committed |
| App.BookSmith.Commit | App.tsx:94-105 | "Finalizing" at the chapter count, the late cover line if due, chapters and cover committed in one update, "Done!" at chapters plus one, step RESULT |
| App.BookSmith.HandleReset | App.tsx:115-120 | an empty book, no logs, zeroed progress and step INPUT, from any state |

## Left out

- The service SDK, the response schema, the prompt text and `JSON.parse`. Each awaited call is a parameter holding its outcome, and the decoder is an oracle function.
- The concurrency of the cover promise. Its settling point is the parameter `coverSlot`, and the settled value is fixed at launch.
- App.BookSmith.HandleStartGeneration: when a run aborts at a chapter's await before the cover promise settles, the cover promise still logs its line later, after the error line. The model does not log that late line; it ends the log at the error line.
- App.BookSmith.UpdateProgress: `progressPercent` is an exact real `(completed / total) * 100`. Floating-point rounding is not modelled. The display's `Math.round` and `strokeDashoffset` (components/StepGenerating.tsx) are not part of this model.
- App.BookSmith.Commit: the one-second `setTimeout` before RESULT is modelled as an immediate step change. A reset made during that second is therefore not modelled.
- App.EdgeShape, App.TraceShape, App.BookSmith.HandleStartGeneration, App.BookSmith.HandleInputSubmit: each handler is modelled as one atomic update, so a reset during one of its awaits is not modelled. The header logo calls `handleReset` at every step (App.tsx:127). In the code, a run interrupted that way keeps going with the book it captured, appends its lines to the cleared log, commits its chapters and cover onto `{}` or onto a newer outline, and then sets RESULT from INPUT or OUTLINE through its timer, or OUTLINE from INPUT through its catch. When the run commits onto `{}`, the result screen shows nothing, because it needs `bookData.title` (App.tsx:161). When the user has meanwhile submitted a new topic and its outline has arrived, the run commits onto that outline, and the result screen shows the new title and topic with the old run's chapters and cover (App.tsx:161-162). An outline that arrives after a reset is spread over `{}`, so the topic is lost, the step becomes OUTLINE, and the generation guard then refuses to start.
- The cast `as Partial<BookData>` on the decoded outline is trusted. A key the JSON holds as `null` is copied over the current value by the spread, but `Merge` reads a missing key as keeping the current value, and the model has no way to express a key that is present with the value `null`. It also has no way to express a chapter without `title`.
- The cast `bookData as BookData` on the result screen (App.tsx:162) is not modelled. `BookData` has no counterpart here. At RESULT `Valid` gives the chapters, each with content. A missing `targetAudience` can pass the generation guard (App.tsx:47) and reach the result screen.
- `alert` and `console.error`: they have no effect on the state.
- React rendering and the components. Two rules from them appear as preconditions instead:
  - `handleInputSubmit` is called only at INPUT, with a trimmed non-empty topic.
  - `handleStartGeneration` is called only at OUTLINE.
- App.IsSpace: trimming is modelled with the common whitespace characters, not the full Unicode set that `String.prototype.trim` removes.
- Unexpected exceptions are modelled only at the two awaits where the code can meet them (`fault`), not at every statement.
- PDF packaging: `createBookPDF` is not part of this model.
