# Exam-practice simulator: session, navigation and marking, in Dafny

This project models the logic of the simulator page of a browser-based
practice simulator for an office-productivity certification exam
(`app/simulator/page.js`). A session is built once when the page opens:
the projects of the chosen mode (`practice`, `challenges` or `exam`), each
with one randomly chosen phrasing per question. The user then moves between
questions, marks them completed or for review, submits projects (which
downloads the next project's workbook) and ends on a summary screen, while
a 50-minute countdown runs on its own.

Modules, one per concern of the page:

- `Session` (session.dfy): the dataset, the `mode` query parameter, `pickRandomVariant` and `buildSession`. The random draw is an explicit index per question (`picks`).
- `TimeFormat` (time_format.dfy): `formatTime`, with `String(n)` and `padStart` written out.
- `Markup` (markup.dfy): the `*x*` split of `QuestionText` and the classification of its parts.
- `Download` (download.dfy): the link target and file name computed by `downloadFile`.
- `Marks` (marks.dfy): the two tags, the per-question key and `toggleState`'s update of the mark map.
- `Summary` (summary.dfy): the total and the two counts of the summary screen.
- `Simulator` (simulator.dfy): `SimulatorContent` as a class whose fields are the page's state (`projectIdx`, `questionIdx`, `questionStates`, `secondsLeft`, `showSummary`). Each button and the timer tick is a method. A ghost log records the download requests.

Behaviour worth knowing, as the code has it:

- Toggling the same tag twice restores the marks only when the question was unmarked or already held that tag. When it held the other tag, the first toggle overwrites it and the second removes it (`Marks.ToggleTwice`).
- Reaching zero on the countdown stops the countdown and nothing else: no method is guarded by the time left.
- The mark key `${projectId}-${questionIdx}` is modelled as the pair `MarkKey(projectId, questionIdx)`. The index is all digits after the last '-', so distinct pairs give distinct strings and the pair loses nothing.

## Model

| member | source | states |
|---|---|---|
| `Session.ParseMode` | app/simulator/page.js:133-134 | the mode is Challenges exactly for "challenges", Exam exactly for "exam", and Practice for every other value, a missing parameter included |
| `Session.ParseModeName` | app/simulator/page.js:134 | each mode's own name is read back as that mode |
| `Session.ProjectsFor` | app/simulator/page.js:14 | `questionsData[mode]`: the projects of the mode, used by `Session.BuildSession` and the constructor (no contract of its own) |
| `Session.PickVariant` | app/simulator/page.js:9-11 | the chosen text is one of the question's variants, for any in-range draw |
| `Session.ResolveQuestions` | app/simulator/page.js:16-19 | one resolved question per question, in order, with the same id and a text among that question's variants |
| `Session.ResolveProject` | app/simulator/page.js:14-20 | the session entry keeps the project's id, name, file and questions, and adds the resolved questions |
| `Session.BuildSession` | app/simulator/page.js:13-21 | one entry per project of the mode, in order, fields copied, every question resolved to one of its variants; a well-formed dataset gives a session with a question in every project |
| `Session.SessionReachable` | app/simulator/page.js:9-21 | every session of that shape is the outcome of some random draw, so the draw can produce exactly the sessions `BuildSession` promises |
| `Session.PicksExist` | app/simulator/page.js:10 | a dataset whose questions all have variants admits a draw |
| `TimeFormat.NatToString` | app/simulator/page.js:26 | `String(n)` is at least one decimal digit, without leading zero, one digit below 10 and at most two below 100 |
| `TimeFormat.ParseNatToString` | app/simulator/page.js:26 | the decimal digits of `n` read back as `n` |
| `TimeFormat.PadStart` | app/simulator/page.js:26 | `padStart` gives the requested width or the string's own, ends with the string, and fills the front with the pad character |
| `TimeFormat.TwoDigits` | app/simulator/page.js:26 | a padded field is all digits, at least two long, and exactly two long below 100 |
| `TimeFormat.TwoDigitsReadsBack` | app/simulator/page.js:26 | a zero-padded field reads back as its number |
| `TimeFormat.FormatTime` | app/simulator/page.js:23-27 | the display is a digit field of at least two characters, ':', and a two-digit seconds field; its value is stated by `TimeFormat.FormatTimeReadsBack` |
| `TimeFormat.FormatTimeReadsBack` | app/simulator/page.js:23-27 | for every count of seconds, the minutes field times 60 plus the seconds field gives the count back |
| `TimeFormat.FormatTimeShape` | app/simulator/page.js:23-27 | below 6000 seconds the display is 5 characters with ':' at index 2, a seconds field below 60, and minutes * 60 + seconds equal to the count |
| `TimeFormat.InitialDisplay` | app/simulator/page.js:23-27 | 3000 seconds show as "50:00" |
| `Markup.NextStar` | app/simulator/page.js:43 | the first '*' at or after a position, with no '*' before it |
| `Markup.MatchAt` | app/simulator/page.js:43 | a match of `\*[^*]+\*` at a position is found exactly when one exists there, and it is the only one |
| `Markup.Split` | app/simulator/page.js:43 | an odd number of parts, and every odd-indexed part is a `*x*` match; `Markup.SplitIsLeftmost` pins it down |
| `Markup.SplitFrom` | app/simulator/page.js:43 | the split gives an odd number of parts, gaps and matches alternating, and every match is a `*x*` segment |
| `Markup.SplitConcat` | app/simulator/page.js:43 | joining the parts gives back the text |
| `Markup.SplitIsLeftmost` | app/simulator/page.js:43 | the split is the leftmost-first cut of the text, and the only sequence of parts that is |
| `Markup.EmphasisEnd` | app/simulator/page.js:43 | a match ends just after the first '*' following its opening one |
| `Markup.Inner` | app/simulator/page.js:49 | `slice(1, -1)`: a part of two or more characters is its first character, the result and its last character; a shorter part gives "" |
| `Markup.Classify` | app/simulator/page.js:47-53 | a part is emphasised exactly when it starts and ends with '*'; a plain part is shown as it is; a part of two or more characters reads back from its segment, and "*" becomes an empty emphasis |
| `Markup.QuestionSegments` | app/simulator/page.js:43-53 | as written: one shown segment per split part, emphasised exactly when the part starts and ends with '*' (a gap of stars included) and then showing the part's `slice(1, -1)`, so a one-star gap shows ""; a plain part is shown as it is, and a part of two or more characters reads back from its segment |
| `Markup.MatchShownEmphasised` | app/simulator/page.js:46-50 | a matched `*x*` part is shown emphasised as `x`, non-empty and free of '*' |
| `Markup.NoStarIsPlain` | app/simulator/page.js:43-53 | text without '*' is one plain part equal to the text |
| `Markup.LoneStarEmphasised` | app/simulator/page.js:47-49 | as written, the texts "*" and "**" are each one unmatched part yet are shown as an empty emphasis |
| `Markup.TrailingStarEmphasised` | app/simulator/page.js:43-49 | as written, "*a**" splits into "", the match "*a*" and a one-star gap "*", and that gap is shown as an empty emphasis, so the displayed text loses a star |
| `Markup.QuestionSegmentsIntended` | app/simulator/page.js:43-53 | one shown segment per split part, emphasised exactly when it is a match (odd index), and each segment reads back as its part |
| `Markup.IntendedRoundTrip` | app/simulator/page.js:43-53 | as intended, the shown segments give back the text exactly |
| `Markup.WrittenAgreesWithIntended` | app/simulator/page.js:47-53 | the two renderings differ only on gaps that start and end with '*' |
| `Download.IndexOfChar` | app/simulator/page.js:34 | the first position of the separator, with none before it |
| `Download.Href` | app/simulator/page.js:31 | `replace(/^\.\//, '/')`: a target starting with "./" loses only its leading '.', so it starts with '/' and keeps the rest of the path; any other target is unchanged |
| `Download.SplitOn` | app/simulator/page.js:34 | `split('/')` gives at least one segment and no segment holds '/' |
| `Download.SplitOnJoin` | app/simulator/page.js:34 | joining the segments with the separator gives back the string |
| `Download.DownloadName` | app/simulator/page.js:34 | `href.split('/').pop()`; stated by `Download.DownloadNameIsLastSegment` (no contract of its own) |
| `Download.RequestFor` | app/simulator/page.js:30-34 | the link target of `filePath` and the name it suggests; used by `Simulator.SimulatorContent.DownloadFile` (no contract of its own) |
| `Download.DownloadNameIsLastSegment` | app/simulator/page.js:34 | the download name holds no '/', ends the target, and is the whole target or follows a '/' |
| `Download.HrefIdempotent` | app/simulator/page.js:31 | the rewritten target never starts with "./", so rewriting it again changes nothing |
| `Download.HrefKeepsName` | app/simulator/page.js:31-34 | rewriting "./" to "/" keeps the suggested file name |
| `Marks.Toggle` | app/simulator/page.js:162-168 | the key holds the tag afterwards exactly when it did not before, and no other key changes |
| `Marks.ToggleTwice` | app/simulator/page.js:162-168 | two toggles of one tag restore the marks from unmarked or the same tag, and unmark the key from the other tag |
| `Marks.ToggleOverwrites` | app/simulator/page.js:162-168 | toggling one tag then the other leaves the key holding the second |
| `Marks.QuestionKeys` | app/simulator/page.js:147 | the keys of a project's first n questions are exactly those with its id and an index below n, n of them |
| `Marks.SessionKeys` | app/simulator/page.js:147 | every question position of the session has its key, and every key in the set names a position of the session |
| `Marks.ToggleInBounds` | app/simulator/page.js:147-168 | toggling the key of a position keeps every mark on a position of the session |
| `Summary.TotalQuestions` | app/simulator/page.js:62 | the `reduce` sum is at least the size of every project; `Summary.TotalAppend` states that it adds up |
| `Summary.CountTag` | app/simulator/page.js:63-64 | the number of keys holding a tag never exceeds the number of marked keys |
| `Summary.CountsPartitionMarks` | app/simulator/page.js:63-64 | completed count plus review count is the number of marked keys |
| `Summary.SessionKeysBound` | app/simulator/page.js:62 | the session has no more question positions than the total |
| `Summary.CountsWithinTotal` | app/simulator/page.js:62-64 | with every mark on a position of the session, the two counts add up to the marked keys and never exceed the total |
| `Summary.TotalAppend` | app/simulator/page.js:62 | the total of two sessions put together is the sum of their totals |
| `Simulator.TimerStep` | app/simulator/page.js:155-159 | one tick takes one second off, or stays at zero |
| `Simulator.TicksSaturate` | app/simulator/page.js:155-159 | after n ticks from s the countdown is s - n, or 0 once n reaches s: it never goes negative |
| `Simulator.SimulatorContent.Valid` | app/simulator/page.js:130-147 | the invariant every method keeps: a project and a question to show, every project's questions resolved to one of their variants, and every mark on a position of the session (a predicate, no contract of its own) |
| `Simulator.SimulatorContent.constructor` | app/simulator/page.js:130-141 | the page starts on question 0 of project 0 of the built session, with no marks, 3000 seconds, no summary and no download |
| `Simulator.SimulatorContent.QuestionCount` | app/simulator/page.js:145 | the current project has more questions than the current index |
| `Simulator.SimulatorContent.CurrentQuestion` | app/simulator/page.js:146 | the question on screen has the id of the current project's question at the current index, and its text is one of that question's variants |
| `Simulator.SimulatorContent.StateKey` | app/simulator/page.js:147 | the current key is the current project's id paired with the current question index, and names a position of the session |
| `Simulator.SimulatorContent.DownloadFile` | app/simulator/page.js:30-38 | one request with the rewritten target and its file name is added to the log |
| `Simulator.SimulatorContent.Prev` | app/simulator/page.js:281-282 | back by one, except at 0 where nothing changes; only the question index may change |
| `Simulator.SimulatorContent.Next` | app/simulator/page.js:318-319 | forward by one, except on the last question where nothing changes; only the question index may change |
| `Simulator.SimulatorContent.SelectQuestion` | app/simulator/page.js:291-298 | a pill sets the question index to its own; nothing else changes |
| `Simulator.SimulatorContent.ToggleState` | app/simulator/page.js:162-168 | the marks become the toggle of the current key; only the marks change |
| `Simulator.SimulatorContent.Submit` | app/simulator/page.js:171-180 | before the last project: the next project's workbook is downloaded and the position moves to its question 0; on the last: the summary is shown, with no download and no move; marks kept |
| `Simulator.SimulatorContent.DownloadCurrent` | app/simulator/page.js:259 | the current project's workbook is requested |
| `Simulator.SimulatorContent.Restart` | app/simulator/page.js:245 | position (0, 0) and no marks, whatever the state before |
| `Simulator.SimulatorContent.GoToSummary` | app/simulator/page.js:222 | the summary is shown, from any position |
| `Simulator.SimulatorContent.Tick` | app/simulator/page.js:155-159 | the countdown takes one step and nothing else changes |
| `Simulator.SimulatorContent.Figures` | app/simulator/page.js:61-64 | the total is the sum of the project sizes, the second figure counts the 'completed' marks and the third the 'review' marks, and together they are the number of marked questions, never above the total |

## Findings

| source | as written | input that shows it | evidently intended | confidence | as-written member | corrected member |
|---|---|---|---|---|---|---|
| app/simulator/page.js:47-49 | every split part that starts and ends with '*' is shown emphasised, the gaps between matches included | the text "*" (or "**", or "*a**" whose trailing "*" is a gap, or "*a***" whose trailing "**" is) | only the matched `*x*` parts are emphasised; stars that match nothing stay visible as plain text | medium, not executed | `Markup.QuestionSegments`, shown by `Markup.LoneStarEmphasised` and `Markup.TrailingStarEmphasised` | `Markup.QuestionSegmentsIntended`, proved by `Markup.IntendedRoundTrip` |

## Left out

- The JSX markup, Tailwind classes, colours and the warning style under 300 seconds (app/simulator/page.js:211): display only.
- The DOM work of `downloadFile` (app/simulator/page.js:32-37): the browser's anchor element and click. A ghost log of requests stands for it.
- The `setInterval`/`clearInterval` scheduling of the timer effect: `Tick` is one callback. How often it fires and its cancellation on unmount are event-loop plumbing.
- `Math.random` and `Math.floor` (app/simulator/page.js:10): the draw is the index `picks[i][j]`, which is always below the number of variants.
- `window.location.reload`, `router.push`, `window.close` and `window.opener` (app/simulator/page.js:76-81, 188-189). Restarting from the summary reloads the page, which is a new `SimulatorContent`. Going home leaves the page.
- The "Mark for Feedback" button (app/simulator/page.js:378-383) has no handler.
- app/page.js (landing page, popup geometry), app/layout.js and tailwind.config.js: page shell and configuration.
- data/questions.json is not part of this model. The dataset is an input. `Session.WellFormed` states what the page needs of it: a project, a question in every project, a variant for every question. The page indexes without checks.
- `TimeFormat.ParseTime`, `Markup.Source`, `Markup.Unrender` and `Download.Join` do not model anything in the page. They read a display, a rendering or a split back so that the round trips can be stated.
- The in-session buttons are not drawn while the summary is shown. The methods do not require `!showSummary`, so the model also lets them run behind the summary. The timer does keep ticking there.
- Characters are Unicode scalar values (Dafny's `char`), while the page's strings are UTF-16 code units. A character outside the Basic Multilingual Plane is one `char` here and two code units there, and lone surrogates cannot be represented. No modelled result depends on this, because every cut point is the ASCII character '*', '/' or ':', or a digit.
- `secondsLeft` is a `nat`: it starts at 3000 and only decreases while positive, so `formatTime` of a negative count is not modelled.
