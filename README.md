# prompt-optimizer-ui: speech session and missing-information card, in Dafny

This project models the logic core of prompt-optimizer-ui, a React front end that turns a
user's prompt into an optimised one. The model covers three parts:

- **The speech-recognition session** (`src/utils/speechRecognitionService.js`).
  - A class wraps the platform's recognition engine.
  - The session configures the engine for continuous Chinese (`zh-CN`) recognition with
    interim results.
  - It builds the transcript from the engine's result list: every final phrase in order,
    then the latest interim phrase. That is the intended handler; the code as written reads
    the final flag from the wrong object (first row of "## Findings").
  - It reports events to registered callbacks.
  - After a `network` error it aborts the engine when listening, and re-initialises after a
    1000 ms timer.
- **The missing-information card** (`src/components/MissingInfoCard.jsx`).
  - It reads the bullet items out of the analysis text. The page builds that text as
    `缺失信息:\n• a\n• b` (src/App.jsx:624-626).
  - It keeps one answer per item under the key `item_<index>`.
  - Enter (without Shift) in a field submits when every item is answered, nothing is being submitted and
    an `onSubmit` handler is given. Otherwise it looks up the first unanswered item's field
    by its `aria-label`; the intended effect is to focus that field (see Findings for a label
    the lookup cannot find).
  - The submit button is disabled while submitting or while an item is unanswered.
- **The helper functions the card's function-level test defines for itself**
  (`src/components/__tests__/MissingInfoCard.functions.test.js`).
  - A parser splits a text into plain parts and numbered `[...]` placeholders.
  - An answer-map updater.
  - An Enter handler walks from one input to the next and submits at the last one.
  - `shouldDisableSubmit` checks an answer object.

Files:

- `js_text.dfy` (module `JsText`): the JavaScript string operations the core relies on:
  `trim`, `startsWith`, `includes`, `indexOf`, `slice`, `split`, `join`, and number-to-string.
- `speech_recognition_service.dfy` (module `SpeechRecognition`): the service as a class.
  - Calls into the engine and invocations of callbacks are recorded, in order, in a ghost
    effect log.
  - The reconnect timer is a counter of pending timers plus a method for its body.
- `missing_info_card.dfy` (module `MissingInfoCard`): the card's parser, a `for` loop proved
  against a specification function, and its answer, key and disabled logic.
- `missing_info_functions.dfy` (module `MissingInfoFunctions`): the test file's helpers.
  The bracket parser is a `while` loop proved against an accumulator specification.

## Model

| member | source | states |
|---|---|---|
| JsText.Trim | src/components/MissingInfoCard.jsx:134-135 | `trim()` returns a string that neither starts nor ends with whitespace and is no longer than its argument |
| JsText.TrimIsWhitespaceBoundedInfix | src/components/MissingInfoCard.jsx:134-135 | the result of `trim()` is a contiguous part of its argument, with only whitespace cut off on each side |
| JsText.BlankIffAllWhitespace | src/components/MissingInfoCard.jsx:162 | a string trims to `''` exactly when all of its characters are whitespace |
| JsText.HasTextIffNotBlank | src/components/MissingInfoCard.jsx:231 | `s.trim()` is truthy exactly when `s` has a non-whitespace character |
| JsText.IndexOfIsFirst | src/components/__tests__/MissingInfoCard.functions.test.js:12-13 | `indexOf` skips no occurrence: nothing between `from` and the result is the wanted character |
| JsText.IndexOfFindsFirst | src/components/__tests__/MissingInfoCard.functions.test.js:12-13 | the first occurrence at or after `from` is what `indexOf` returns |
| JsText.SliceIsSubsequence | src/components/__tests__/MissingInfoCard.functions.test.js:21 | `slice(from, to)` is the characters from `from` up to but not including `to` |
| JsText.SplitPiecesLackSeparator | src/components/MissingInfoCard.jsx:131 | no piece of `split('\n')` contains a line break |
| JsText.JoinSplit | src/components/MissingInfoCard.jsx:131 | joining the pieces of a split with the same separator rebuilds the text |
| JsText.SplitJoin | src/App.jsx:624-626 | splitting a join of separator-free parts gives the parts back |
| JsText.NatToStringInjective | src/components/MissingInfoCard.jsx:150 | different numbers have different decimal numerals |
| SpeechRecognition.CheckSupport | src/utils/speechRecognitionService.js:21-25 | recognition is supported exactly when the standard or the webkit constructor exists |
| SpeechRecognition.Segments | src/utils/speechRecognitionService.js:62-63 | one segment per entry of the result list |
| SpeechRecognition.Transcript | src/utils/speechRecognitionService.js:57-69 | the transcript a result event produces: the final texts in order followed by the latest interim text |
| SpeechRecognition.TranscriptAsWritten | src/utils/speechRecognitionService.js:57-69 | the handler as written: the same computation, with each result's flag read from its first alternative, a missing flag counting as not final |
| SpeechRecognition.FinalTextIsConcatOfFinals | src/utils/speechRecognitionService.js:62-69 | the loop's accumulation of final texts equals the final texts concatenated in order |
| SpeechRecognition.LastInterimIsLatest | src/utils/speechRecognitionService.js:66-68 | the interim part is the text of the last result that is not final, or empty when all are final |
| SpeechRecognition.PromotingInterimKeepsTranscript | src/utils/speechRecognitionService.js:57-72 | when the engine finalises the trailing interim phrase, the transcript does not change |
| SpeechRecognition.AppendingFinalExtendsTranscript | src/utils/speechRecognitionService.js:57-72 | a new final phrase after an all-final history extends the transcript by exactly its text |
| SpeechRecognition.TranscriptExamples | src/utils/__tests__/speechRecognitionService.test.js:96-236 | the transcripts the service's tests expect: `你好`, `你好世界`, `最终结果中间`, `你` |
| SpeechRecognition.AsWrittenAgreesWhenFlagCopied | src/utils/speechRecognitionService.js:62-64 | when the engine copies `isFinal` onto the alternative, as the tests' mock does, reading it there changes nothing |
| SpeechRecognition.AsWrittenKeepsOnlyLastResult | src/utils/speechRecognitionService.js:62-72 | with a standard engine, the handler as written keeps only the last result's text |
| SpeechRecognition.AsWrittenLosesFinalPhrase | src/utils/speechRecognitionService.js:62-72 | a final `你好` then an interim `世界` gives `世界` as written but `你好世界` as intended |
| SpeechRecognition.SpeechRecognitionService.constructor | src/utils/speechRecognitionService.js:7-16 | a new session has no engine, is not listening, has an empty transcript and no callbacks, and records support |
| SpeechRecognition.SpeechRecognitionService.SetupEventListeners | src/utils/speechRecognitionService.js:53-109 | installs the handlers on the current engine, if there is one, and leaves its configuration alone |
| SpeechRecognition.SpeechRecognitionService.Init | src/utils/speechRecognitionService.js:30-48 | succeeds exactly on a supported platform; then the engine is new and configured (continuous, interim results, `zh-CN`, one alternative, handlers attached); otherwise the engine is unchanged |
| SpeechRecognition.SpeechRecognitionService.Start | src/utils/speechRecognitionService.js:114-127 | creates the engine on first use and asks it to start; reports success exactly when supported and the engine does not throw; an existing engine is kept |
| SpeechRecognition.SpeechRecognitionService.Stop | src/utils/speechRecognitionService.js:147-158 | asks the engine to stop only when there is one and the session is listening; succeeds exactly then and when the engine does not throw |
| SpeechRecognition.SpeechRecognitionService.Abort | src/utils/speechRecognitionService.js:163-174 | the same guard and result as stop, with an abort request |
| SpeechRecognition.SpeechRecognitionService.Reconnect | src/utils/speechRecognitionService.js:132-137 | aborts when listening and schedules one more reconnect timer |
| SpeechRecognition.SpeechRecognitionService.FireReconnectTimer | src/utils/speechRecognitionService.js:138-141 | the timer body drops the engine and initialises again: a new engine on a supported platform, none otherwise |
| SpeechRecognition.SpeechRecognitionService.HandleResult | src/utils/speechRecognitionService.js:57-78 | the transcript becomes the final texts in order followed by the latest interim text, and it is reported to the result callback when one is set |
| SpeechRecognition.SpeechRecognitionService.HandleStart | src/utils/speechRecognitionService.js:81-87 | the session is listening with an empty transcript; the start callback runs when set |
| SpeechRecognition.SpeechRecognitionService.HandleEnd | src/utils/speechRecognitionService.js:90-95 | the session is no longer listening; the end callback runs when set |
| SpeechRecognition.SpeechRecognitionService.HandleError | src/utils/speechRecognitionService.js:98-108 | the error callback receives the code; a `network` code also aborts when listening and schedules a reconnect; any other code changes nothing more |
| SpeechRecognition.SpeechRecognitionService.SetCallbacks | src/utils/speechRecognitionService.js:179-184 | all four callback slots are replaced at once, a missing one becoming empty |
| SpeechRecognition.SpeechRecognitionService.GetStatus | src/utils/speechRecognitionService.js:189-195 | the status holds support, listening and transcript as they are |
| MissingInfoCard.ParseMissingInfo | src/components/MissingInfoCard.jsx:125-141 | no items for a missing, non-string or empty prop or for text without the `缺失信息:` header; otherwise the trimmed text after the bullet of every bullet line, in line order |
| MissingInfoCard.BulletItemsAppend | src/components/MissingInfoCard.jsx:133-138 | the items of a text are the items of its first lines followed by those of the rest |
| MissingInfoCard.ParsedItemsAreTrimmedLines | src/components/MissingInfoCard.jsx:131-137 | every parsed item is trimmed and has no line break |
| MissingInfoCard.BulletJoin | src/App.jsx:624-626 | `'• ' + items.join('\n• ')` is the items' bullet lines joined by line breaks |
| MissingInfoCard.ItemOfBulletLine | src/components/MissingInfoCard.jsx:134-135 | the line `• item` is a bullet line and carries `item` back when `item` is trimmed |
| MissingInfoCard.BulletItemsOfBulletLines | src/components/MissingInfoCard.jsx:133-137 | parsing the bullet lines of trimmed items gives the items back |
| MissingInfoCard.FormatMissingInfo | src/App.jsx:624-626 | the text the page builds contains the header exactly when the items joined with `\n• ` are not empty; otherwise it is the nothing-missing message |
| MissingInfoCard.ParseFormatRoundTrip | src/components/MissingInfoCard.jsx:125-141 | parsing the text the page builds from a list of trimmed one-line items gives that list back; when the join is empty, the page shows the nothing-missing message, which parses to no items |
| MissingInfoCard.HeaderIsNotABulletLine | src/components/MissingInfoCard.jsx:129-134 | the header line contributes no item |
| MissingInfoCard.NothingMissingLacksHeader | src/App.jsx:626 | the nothing-missing message does not contain the header, so the card shows no inputs for it |
| MissingInfoCard.FormattedLines | src/App.jsx:624-626 | the page's text contains the header, and it splits into the header line and one bullet line per item |
| MissingInfoCard.ItemKeyInjective | src/components/MissingInfoCard.jsx:150 | different items never share an answer key `item_<index>` |
| MissingInfoCard.InputChange | src/components/MissingInfoCard.jsx:146-153 | with a setter, the answer under `item_<index>` becomes the value and every other answer stays; without a setter nothing changes |
| MissingInfoCard.InputChangeAffectsOnlyItsItem | src/components/MissingInfoCard.jsx:146-153 | typing into one field changes whether that item is filled and no other item |
| MissingInfoCard.FirstEmptyFrom | src/components/MissingInfoCard.jsx:168-170 | the first unanswered item from a position on, or -1, and every item before it is answered |
| MissingInfoCard.FirstEmptyIndex | src/components/MissingInfoCard.jsx:161-170 | `findIndex` returns -1 exactly when `every` holds; otherwise it returns an unanswered item, and all before it are answered |
| MissingInfoCard.FirstLabelledFrom | src/components/MissingInfoCard.jsx:172 | the first item from a position on whose text equals the wanted one |
| MissingInfoCard.FirstWithLabel | src/components/MissingInfoCard.jsx:172 | the label lookup finds the first item with the same text as the wanted item, never a later one |
| MissingInfoCard.SubmitDisabled | src/components/MissingInfoCard.jsx:230-231 | the button is disabled while submitting or while `some` item is unanswered, which is exactly when the handler's `findIndex` finds an unanswered item |
| MissingInfoCard.KeyDownAsWritten | src/components/MissingInfoCard.jsx:156-177 | handleKeyDown as written: only a plain Enter is handled; it submits exactly when the button is enabled and a handler is given; a plain Enter with an unanswered item either focuses or queries a raw selector; when the first unanswered item holds a quote, backslash, line break, form feed or NUL, it queries a selector built from that item's raw text; otherwise it focuses the first field in document order whose item has the same text as the first unanswered item; it only prevents the default when every item is answered but it is submitting or has no handler |
| MissingInfoCard.KeyDown | src/components/MissingInfoCard.jsx:156-177 | handleKeyDown as intended: it submits exactly when the button is enabled and a handler is given; a plain Enter with an unanswered item focuses, and a field it focuses is the first unanswered item |
| MissingInfoCard.AsWrittenQuotedItemQueriesRawSelector | src/components/MissingInfoCard.jsx:172 | the item `a"b` makes the handler as written build a selector that does not name its label, while the intended handler focuses its field |
| MissingInfoCard.KeyDownOutcomes | src/components/MissingInfoCard.jsx:156-177 | any key other than a plain Enter is ignored; Enter submits all items, or focuses the first unanswered item, or only prevents the default when everything is answered but submitting or without a handler |
| MissingInfoCard.AsWrittenAgreesOnDistinctItems | src/components/MissingInfoCard.jsx:168-173 | with distinct item texts, the label lookup focuses the intended field |
| MissingInfoCard.AsWrittenFocusesAnsweredDuplicate | src/components/MissingInfoCard.jsx:168-173 | two items named `姓名`, the first answered: the lookup as written focuses the answered field, the intended behaviour focuses the empty one |
| MissingInfoFunctions.Scan | src/components/__tests__/MissingInfoCard.functions.test.js:11-41 | the segments after `lastIndex`: at the first `[` and the first `]` after it, the text before (if any) is a text part and the text between is the placeholder numbered `index`; without such a pair the rest (if any) is one text part |
| MissingInfoFunctions.Parsed | src/components/__tests__/MissingInfoCard.functions.test.js:2-47 | nothing for a falsy or non-string argument, otherwise the scan of the whole text from position 0 and number 0 |
| MissingInfoFunctions.ParseSegments | src/components/__tests__/MissingInfoCard.functions.test.js:2-47 | the parser's loop computes the accumulator specification `Parsed`: nothing for a falsy or non-string input, otherwise the scan of text parts and `[...]` placeholders |
| MissingInfoFunctions.ScanCase | src/components/__tests__/MissingInfoCard.functions.test.js:11-41 | one pass of the loop: either it stops and the pushed rest writes back the remaining text, adds no placeholder and keeps the parts tidy; or it continues after the closing bracket, having written back the text up to it, pushed placeholder number `k` and kept the parts tidy |
| MissingInfoFunctions.ScanRenders | src/components/__tests__/MissingInfoCard.functions.test.js:11-41 | from any position on, the segments the scan adds render to exactly the rest of the text |
| MissingInfoFunctions.ScanNumbers | src/components/__tests__/MissingInfoCard.functions.test.js:25-30 | if the placeholders pushed so far are numbered 0 to k-1, all placeholders the scan returns are numbered in order |
| MissingInfoFunctions.ScanTidy | src/components/__tests__/MissingInfoCard.functions.test.js:15-41 | if the parts pushed so far are tidy, so are all parts the scan returns |
| MissingInfoFunctions.ParsedRoundTrip | src/components/__tests__/MissingInfoCard.functions.test.js:2-47 | writing the segments back, with brackets around placeholders, gives the input text: the parser loses and invents nothing |
| MissingInfoFunctions.ParsedNumbersInOrder | src/components/__tests__/MissingInfoCard.functions.test.js:29 | the placeholders are numbered 0, 1, 2, … in order |
| MissingInfoFunctions.ParsedTidy | src/components/__tests__/MissingInfoCard.functions.test.js:15-28 | no text part is empty and no placeholder contains `]` |
| MissingInfoFunctions.ParsedEmptyIff | src/components/__tests__/MissingInfoCard.functions.test.js:4 | the result is empty exactly for null, undefined, a non-string or the empty string |
| MissingInfoFunctions.ParsedPlainText | src/components/__tests__/MissingInfoCard.functions.test.js:139-145 | text without `[` comes back as one text part |
| MissingInfoFunctions.PropertyKey | src/components/__tests__/MissingInfoCard.functions.test.js:52-55 | the computed key `[id]` is `String(id)`: `"null"`, `"undefined"`, the decimal numeral with a leading `-` for a negative safe integer (\|n\| ≤ 2^53 − 1), or the string itself |
| MissingInfoFunctions.InputChange | src/components/__tests__/MissingInfoCard.functions.test.js:49-59 | the updater holds the value under `String(id)` and keeps every other entry |
| MissingInfoFunctions.NumberKeysInjective | src/components/__tests__/MissingInfoCard.functions.test.js:53 | different numeric ids (safe integers), negative ones included, never name the same entry |
| MissingInfoFunctions.InputChangesCommute | src/components/__tests__/MissingInfoCard.functions.test.js:49-59 | updates under different keys commute |
| MissingInfoFunctions.ApplyChangesLastWriteWins | src/components/__tests__/MissingInfoCard.functions.test.js:49-59 | after a series of updates, each key holds the last value written under it, or its old value when no update touched it |
| MissingInfoFunctions.InputChangeExamples | src/components/__tests__/MissingInfoCard.functions.test.js:150-263 | two writes under `'0'` leave the second; a null id files under `"null"`; the id `0` and the id `'0'` name the same entry |
| MissingInfoFunctions.ShouldDisableSubmit | src/components/__tests__/MissingInfoCard.functions.test.js:82-101 | disabled for a non-object, for an object without keys, and for one where `some` value is falsy or a string that trims to `''` |
| MissingInfoFunctions.UnansweredIffNotAnswered | src/components/__tests__/MissingInfoCard.functions.test.js:92-95 | a value fails the `some` test exactly when it is not an answer: not a string with text, not `true`, not a non-zero number, not an object |
| MissingInfoFunctions.SubmitDisabledIffNotReady | src/components/__tests__/MissingInfoCard.functions.test.js:82-101 | submission is disabled exactly when the argument is not an object with at least one entry, all of them answered |
| MissingInfoFunctions.AnsweringKeepsReady | src/components/__tests__/MissingInfoCard.functions.test.js:82-101 | storing an answer in a ready map keeps submission enabled |
| MissingInfoFunctions.AnsweringLastGapEnables | src/components/__tests__/MissingInfoCard.functions.test.js:82-101 | answering the only open entry enables submission |
| MissingInfoFunctions.ClearingDisables | src/components/__tests__/MissingInfoCard.functions.test.js:82-101 | storing a non-answer under any key disables submission |
| MissingInfoFunctions.SubmitDisabledExamples | src/components/__tests__/MissingInfoCard.functions.test.js:202-228 | null, `{}`, `{'0': ''}`, `{'0': '   '}` and a partly empty map keep the button disabled |
| MissingInfoFunctions.SubmitEnabledExamples | src/components/__tests__/MissingInfoCard.functions.test.js:222-233 | `{'0': 'test'}` and three filled entries enable it |
| MissingInfoFunctions.HandleKeyDown | src/components/__tests__/MissingInfoCard.functions.test.js:61-80 | a key other than a plain Enter is ignored; otherwise, when the list has an entry after the current one, it is focused if it can take focus; when it has none, `onSubmit` runs if it is a function; everything else only prevents the default |
| MissingInfoFunctions.KeyDownOutcomes | src/components/__tests__/MissingInfoCard.functions.test.js:61-80 | the default is prevented exactly on a plain Enter; focus moves only to the entry after the current one, and only when that entry can take focus; submission happens exactly when there is no later entry and a handler is given |
| MissingInfoFunctions.EnterWalksToSubmit | src/components/__tests__/MissingInfoCard.functions.test.js:68-76 | when every entry can take focus, repeated Enter visits each later entry in turn and then submits |
| MissingInfoFunctions.KeyDownExamples | src/components/__tests__/MissingInfoCard.functions.test.js:174-271 | Tab and Shift+Enter are ignored, Enter prevents the default, Enter on the first of two entries focuses the second, and Enter with no input list submits |

## Left out

- `src/components/SpeechInputButton.jsx`, the audio-level monitor and the wiring in `src/App.jsx` are not part of this model. Only the text format at `src/App.jsx:624-626` is modelled.
- Logging through `console.error` is left out. It has no effect on state.
- The platform engine is an opaque handle.
  - Its start/stop/abort requests are entries of a ghost log.
  - Whether a request throws is a parameter.
  - When the engine fires its events is up to the caller of the handler methods.
- Callbacks are opaque identities. A callback that calls back into the service, or that throws, is not modelled.
- Handlers left on an old engine after a reconnect are not modelled: a handler method can be called whatever engine fired it.
- The 1000 ms delay is not modelled. The timer cannot be cancelled, and `FireReconnectTimer` may run at any time after it was scheduled.
- Strings are sequences of code points. JavaScript strings are UTF-16, so after a character outside the Basic Multilingual Plane the numbers `indexOf` returns are larger than the model's by one per such character. Every character the core looks for is in the Basic Multilingual Plane, so every comparison the parsers make and every piece they slice out agree with the model; only the raw positions differ.
- Numbers are integers. NaN, infinities, fractions and `-0` are left out of `Value`, `Id` and the `currentIndex` of the Enter handler. A numeric `Id` stands for a safe integer (|n| ≤ 2^53 − 1): beyond that JavaScript numbers lose precision, and `String(n)` switches to exponent form from 1e21, neither of which `PropertyKey` models.
- `MissingInfoFunctions.ParseSegments` handles strings only. An array passed to the test parser has its own `indexOf` and is not modelled. Any other truthy non-string throws inside the `try`, and the model returns nothing for it.
- `MissingInfoFunctions.HandleKeyDown`: `inputs` is either a list of entries or no list. A truthy non-array without a numeric `length` behaves like no list and is modelled that way. A `focus` method that throws is not modelled.
- `MissingInfoFunctions.InputChange` models the updater passed to the setter. The setter being called once per call, and a setter that is not a function throwing and being caught, are not stated.
- `MissingInfoCard.IsFilled` and `MissingInfoFunctions.Answered` use "has a non-whitespace character" in place of "trims to a non-empty string". `JsText.HasTextIffNotBlank` proves the two equal.
- MissingInfoCard.KeyDownAsWritten: the label lookup is modelled only for an unanswered item whose text a CSS string reads literally (`LabelSafe`: no `"`, `\`, line break, form feed or NUL). For any other item the selector is built from raw text, and whether `querySelector` throws, finds nothing or finds another field depends on CSS tokenising (escapes, quotes, comments). The model returns `RawLabelQuery` there instead of a focus target.
- Rendering (styled components, labels, placeholders, the spinner) is left out. So is React's scheduling of state updates.

## Findings

| source | as written | input that shows it | evidently intended | confidence | as-written member | corrected member |
|---|---|---|---|---|---|---|
| src/utils/speechRecognitionService.js:63-64 | `isFinal` is read from the first alternative (`event.results[i][0]`); in the Web Speech API the flag lives on the result, so every phrase reads as interim and the transcript keeps only the last result | a final result `你好` followed by an interim `世界` | read the flag from the result, giving `你好世界` | not executed | SpeechRecognition.AsWrittenLosesFinalPhrase | SpeechRecognition.SpeechRecognitionService.HandleResult |
| src/components/MissingInfoCard.jsx:172-173 | the field to focus is looked up by its `aria-label`, which is built from the item text, so two items with the same text make Enter focus the first of them even when it is already answered | items `姓名`, `姓名` with the first answered | focus the first unanswered field itself | not executed | MissingInfoCard.AsWrittenFocusesAnsweredDuplicate | MissingInfoCard.KeyDownOutcomes |
