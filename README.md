# Exam builder: a verified model of its request handling

The system is a small web application for writing exam questions and assembling exams. A PHP
back end stores subjects, questions (single choice `SCQ`, multiple choice `MCQ`, true/false `TF`,
short answer `SA`, long answer `LA`) with their options, and exams. An exam is a header row plus
link rows that list its questions by position. Browser scripts build the requests.

This project models:

- **Exams** (`exam_controller.dfy`, with its pure rules in `exam_rules.dfy`): the exam handlers.
  - `list`: the exams of a subject, newest first.
  - `show`: the linked questions in position order, with the easy/medium/hard tally.
  - `createManual`: validates the body, checks that the ids are the subject's questions with one `COUNT(*)`, and writes.
  - `createAuto`: draws a random stratified sample (`ORDER BY RAND() LIMIT n` per difficulty, then `shuffle`) and writes it.
  - `update`: rewrites an exam from an explicit id list or a fresh sample.
  - `delete`.
- **Questions** (`question_controller.dfy`): the question handlers.
  - The per-type option validator that `create` and `update` share.
  - Storing option rows with `idx` 0..n-1.
  - The `LEFT JOIN` grouping loop of `list` and `show`.
  - `update`'s not-found re-check, and `delete`.
- **Store** (`store.dfy`): the tables as one `Database` object.
  - A transaction computes its rows and then commits them by assigning the fields.
  - A `fault` parameter stands for a storage failure, which rolls back.
  - Auto-increment counters are not rolled back.
- **Router** (`router.dfy`): `Router::dispatch`.
  - The branch order of the fixed routes and the two `{digits}` patterns.
  - PCRE's `$` matching before a final newline.
  - PHP's saturating `(int)` cast of the captured digits.
- **Text** (`text.dfy`): PHP `trim`, JavaScript `trim` and `parseInt`. The two trims differ: PHP strips NUL, JavaScript strips Unicode spaces.
- **HtmlEscape** (`html_escape.dfy`): the browser's `escapeHtml`. Proved: it is a per-character substitution that leaves no markup character and can be undone.
- **Browser, QuestionsPage, ExamsPage, LegacyApp** (`browser.dfy`, `questions_page.dfy`, `exams_page.dfy`, `legacy_app.dfy`): the request builders, their guards, and the edit state of the three scripts. Cross-file lemmas show:
  - what the server does with each request;
  - that each request is routed to the handler it is meant for;
  - which client guards already imply the server's checks.

`backend/public/api.php:2-6` loads the router and the subject and question controllers. It never
loads `ExamController.php`, so every exam route dispatched at `backend/Router.php:66-108` would
fail at run time with an undefined class. The model treats the exam controller as loaded.

## Model

| member | source | states |
|---|---|---|
| Text.PhpTrimEmptyIff | backend/controllers/QuestionController.php:74-76 | a PHP-trimmed text is empty exactly when every character is one of space, tab, LF, CR, NUL, VT |
| Text.JsTrimEmptyIff | frontend/js/questions.js:292 | a JavaScript-trimmed text is empty exactly when every character is ECMAScript whitespace |
| Text.DropLeadingFacts | backend/controllers/QuestionController.php:74 | trimming the front removes only strippable characters and keeps a suffix of the input |
| Text.DropTrailingFacts | backend/controllers/QuestionController.php:74 | trimming the back removes only strippable characters and keeps a prefix of the input |
| Text.PhpTrim | backend/controllers/QuestionController.php:74 | PHP `trim`: never longer than its input, and no space, tab, LF, CR, NUL or VT is left at either end |
| Text.JsTrim | frontend/js/questions.js:292 | JavaScript `trim`: never longer than its input, and no ECMAScript whitespace or line terminator is left at either end |
| Text.ParseInt | frontend/js/questions.js:291 | `parseInt(s, 10)`: a text without any digit is NaN, and a text that starts with a digit reads as the decimal value of its leading digit run |
| Text.PhpBlankAfterJsTrim | frontend/js/questions.js:292-304 | a text the browser sends as non-blank but the server sees as blank is made of PHP-space characters and starts and ends with NUL |
| Text.NulPassesJsTrimOnly | frontend/js/questions.js:292-304 | the concrete gap: a lone NUL survives JavaScript trim and is blank to PHP trim |
| Text.DigitPrefix | frontend/js/questions.js:291 | `parseInt` reads the longest run of leading ASCII digits and stops at the first non-digit |
| Text.DecimalString | frontend/js/exams.js:247-255 | a count written into an input is a non-empty string of digits |
| Text.DigitsValueOfDecimalString | backend/Router.php:39 | the decimal value of a number's digits is that number |
| Text.ParseIntOfDecimalString | frontend/js/exams.js:91-93 | `parseInt` reads back a number written in decimal |
| Text.DigitPrefixAllDigits | frontend/js/exams.js:164 | on an all-digit text, `parseInt` reads every character |
| Store.LinkedIds | backend/controllers/ExamController.php:68-73 | the ids of an exam's link rows, in position order |
| Store.Positioned | backend/controllers/ExamController.php:440-451 | the link rows written for an id list hold id k at position k+1 |
| Store.PositionedIsContiguous | backend/controllers/ExamController.php:447-450 | written link rows have positions 1..n and read back as the same id list |
| Store.PositionedOfLinkedIds | backend/controllers/ExamController.php:351-354 | deleting contiguous link rows and re-inserting their ids restores them |
| Store.FindQuestion | backend/controllers/QuestionController.php:379-381 | the lookup by id finds a row with that id, or reports that no row has it |
| Store.FindQuestionAt | backend/controllers/QuestionController.php:240-242 | with ascending ids, looking up a row's id finds that row |
| ExamRules.Normalize | backend/controllers/ExamController.php:206-210 | definition without a contract: the `counts` array rebuilt from an object, a missing key becoming 0; what the handlers do with it is stated by `ExamRules.AutoErrorsFields`, `ExamRules.UpdateErrorsFields` and `ExamRules.AutoErrorsEmpty` |
| ExamRules.FieldKeysInjective | backend/controllers/ExamController.php:107-125 | different field errors are reported under different keys |
| ExamRules.Keys | backend/controllers/ExamController.php:124-126 | the `fields` list of a 422 is the error keys, in append order |
| ExamRules.ManualErrors | backend/controllers/ExamController.php:107-122 | createManual reports `subject_id` iff the id is not positive, `name` iff the trimmed name is empty, `question_ids` iff no non-empty list is given, and nothing else |
| ExamRules.NegativeCountErrors | backend/controllers/ExamController.php:211-215 | one `counts.<key>` per negative count, and only those |
| ExamRules.AutoErrors | backend/controllers/ExamController.php:190-225 | createAuto never reports `question_ids` nor `question_ids_or_counts_required`; the fields it does report, each under its condition, are stated by `ExamRules.AutoErrorsFields` |
| ExamRules.AutoErrorsFields | backend/controllers/ExamController.php:190-221 | createAuto reports `subject_id`, `name`, `counts`, `counts.<key>` and `counts.total` under exactly their conditions; a non-object `counts` gives both `counts` and `counts.total` |
| ExamRules.AutoErrorsObjectFields | backend/controllers/ExamController.php:190-221 | with an object `counts`: `counts` is never reported, `counts.<key>` exactly for each negative count, `counts.total` exactly when the total is not positive |
| ExamRules.AutoErrorsNonObjectFields | backend/controllers/ExamController.php:190-221 | with a non-object `counts`: both `counts` and `counts.total` are reported and no per-difficulty key is |
| ExamRules.AutoErrorsEmpty | backend/controllers/ExamController.php:206-242 | an accepted body has a positive subject, no negative count and a positive total, which is the number of questions drawn |
| ExamRules.UpdateRequestErrors | backend/controllers/ExamController.php:275-285 | update reports `name` iff a given name trims to empty, and `question_ids_or_counts_required` iff neither ids nor counts are truthy |
| ExamRules.UpdateErrors | backend/controllers/ExamController.php:275-327 | update never reports `subject_id` nor `counts`; the fields it does report, each under its condition, are stated by `ExamRules.UpdateErrorsFields` |
| ExamRules.UpdateErrorsFields | backend/controllers/ExamController.php:275-327 | update's fields under exactly their conditions; counts are checked only on the sampling path, and `question_ids` only off it |
| ExamRules.UpdateSourcePrecedence | backend/controllers/ExamController.php:297-323 | a non-empty id list wins over counts; an accepted body either carries a non-empty list or asks for a positive, non-negative sample |
| ExamRules.PoolMember | backend/controllers/ExamController.php:407-413 | an id is in a difficulty's pool iff some question of the subject with that difficulty has it |
| ExamRules.PoolDistinct | backend/controllers/ExamController.php:407-418 | a pool lists no id twice |
| ExamRules.PoolMemberFacts | backend/controllers/ExamController.php:410 | a pool member belongs to the subject and has the pool's difficulty |
| ExamRules.DrawCounts | backend/controllers/ExamController.php:402-428 | a draw for one difficulty counts fully towards it and not at all towards the others |
| ExamRules.DrawsDistinct | backend/controllers/ExamController.php:402-428 | the three draws together list no id twice |
| ExamRules.DrawsCount | backend/controllers/ExamController.php:402-428 | each difficulty appears in the merged draws exactly as often as requested, a count of zero or less giving none |
| ExamRules.StratifiedSampleFacts | backend/controllers/ExamController.php:398-435 | a sample has the requested total, is duplicate-free, lies in the subject and holds each difficulty exactly as often as requested |
| ExamRules.DrawsInSubject | backend/controllers/ExamController.php:407-428 | every id of a permutation of the three draws belongs to a question of the subject |
| ExamRules.MatchingIdsFacts | backend/controllers/ExamController.php:129-137 | the rows the membership query counts are the distinct listed ids of the subject's questions |
| ExamRules.ManualMembership | backend/controllers/ExamController.php:137-141 | the `COUNT(*) == count(ids)` check passes iff the ids are distinct and all belong to the subject |
| ExamRules.JoinedView | backend/controllers/ExamController.php:53-76 | show lists at most one row per link |
| ExamRules.JoinedViewComplete | backend/controllers/ExamController.php:68-73 | when every linked question exists, show lists exactly the linked ids with their positions |
| ExamRules.JoinedViewOrdered | backend/controllers/ExamController.php:72-73 | show's rows come in strictly ascending position, each at some link's position |
| ExamRules.JoinedViewTally | backend/controllers/ExamController.php:78-90 | the tally of show's rows counts the linked ids of that difficulty; a link to a deleted question is neither listed nor counted |
| ExamRules.SampledExamTally | backend/controllers/ExamController.php:78-90 | for an exam written from a sample, show's tally per difficulty is the requested count |
| ExamRules.HeadersOfSubject | backend/controllers/ExamController.php:18-25 | the subject's exams, newest first, each one exactly once |
| Exams.Shuffle | backend/controllers/ExamController.php:432 | `shuffle` permutes the array |
| Exams.ShuffledCopy | backend/controllers/ExamController.php:432 | shuffling the merged id list gives a permutation of it |
| Exams.RandomOrderLimit | backend/controllers/ExamController.php:407-418 | `ORDER BY RAND() LIMIT n` returns min(n, pool size) rows drawn from the pool |
| Exams.ExamController.List | backend/controllers/ExamController.php:11-28 | 422 iff the subject id is missing or not positive; otherwise exactly the subject's exams, newest first |
| Exams.ExamController.Show | backend/controllers/ExamController.php:34-97 | 400 iff id ≤ 0, 404 iff no such exam; else the header, the joined rows, and a tally equal to the per-difficulty counts of those rows |
| Exams.ExamController.DrawDifficulty | backend/controllers/ExamController.php:402-426 | short exactly when the pool is smaller than a positive count; otherwise a valid draw |
| Exams.ExamController.PickQuestionsForCounts | backend/controllers/ExamController.php:398-435 | drawn iff every pool suffices, and then a stratified sample; otherwise the first short difficulty with requested and available |
| Exams.DrawnSoFarStep | backend/controllers/ExamController.php:401-428 | one more difficulty with a large enough pool and a draw from it extends the merged list by that draw |
| Exams.DrawnSoFarDone | backend/controllers/ExamController.php:401-435 | after all three difficulties, every pool was large enough and a permutation of the merged list is a stratified sample |
| Exams.DrawnSoFarShort | backend/controllers/ExamController.php:420-426 | the first pool found too small means not every pool sufficed, while every earlier difficulty's did |
| Exams.DrawsMakeSample | backend/controllers/ExamController.php:401-435 | one valid draw per difficulty, merged in easy/medium/hard order and shuffled, is a stratified sample |
| Exams.ExamController.InsertExamQuestions | backend/controllers/ExamController.php:440-451 | the exam's links become the ids at positions 1..n; nothing else changes |
| Exams.ExamController.InsertExam | backend/controllers/ExamController.php:229-253 | a new header under the next id with the given count and links; on a fault, 500 and the tables unchanged |
| Exams.ExamController.CreateManual | backend/controllers/ExamController.php:104-176 | 422 with the fields, or 422 for foreign or repeated ids, or 201 with the trimmed name and links in list order, or 500 with rollback |
| Exams.ExamController.CreateFromCounts | backend/controllers/ExamController.php:227-253 | 422 iff some pool is short, before any write; else the exam holds a stratified sample and its count is the total |
| Exams.ExamController.CreateAuto | backend/controllers/ExamController.php:187-254 | 422 with the fields iff the body fails validation; 422 for a short difficulty iff the body is valid and some pool is too small; 500 iff the body is valid, every pool suffices and the write fails; else 201 with a stratified sample |
| Exams.ExamController.ReplaceContent | backend/controllers/ExamController.php:329-362 | name (if given) and count set; links replaced by the new list; other exams untouched; rollback on a fault |
| Exams.ExamController.Update | backend/controllers/ExamController.php:266-363 | 400 iff id ≤ 0, then 404 iff no such exam, before validation; then the fields; 422 for a short difficulty iff a valid body samples and some pool is too small, naming that difficulty with the requested count and the smaller pool size; 500 iff a valid body meets a fault; 200 iff it does not, with an accepted list written as the links verbatim or an accepted sample stratified; subject and mode unchanged |
| Exams.ExamController.Delete | backend/controllers/ExamController.php:368-388 | 204 and header and links removed iff the exam existed; otherwise 400, 404 or 500 with nothing changed |
| Questions.RequiredOptionCount | backend/controllers/QuestionController.php:99-116 | two options for TF, one for SA and LA, four otherwise |
| Questions.TypeOf | backend/controllers/QuestionController.php:88 | definition without a contract: an absent type means `SCQ`; used as stated by `LegacyApp.LegacySentAsSingleChoice` and `QuestionsPage.SentTypeIsKnown` |
| Questions.Keys | backend/controllers/QuestionController.php:157-159 | the `fields` list of a 422 is the error keys, in append order |
| Questions.BlankOptionErrors | backend/controllers/QuestionController.php:148-152 | one `option text` entry per option whose trimmed text is empty |
| Questions.FieldErrors | backend/controllers/QuestionController.php:74-92 | `text`, `difficulty`, `subject_id` and `type` are each reported iff their check fails |
| Questions.OptionErrors | backend/controllers/QuestionController.php:95-153 | definition without a contract: the option checks in append order; their contents are stated by `Questions.OptionErrorsFields`, `Questions.OptionErrorsEmptyIff` and `Questions.OptionTextErrorCount` |
| Questions.BodyErrors | backend/controllers/QuestionController.php:72-156 | `options` is reported exactly when the member is not an array; the body is accepted iff it is well formed (`Questions.BodyErrorsEmptyIff`) |
| Questions.OptionErrorsEmptyIff | backend/controllers/QuestionController.php:95-153 | the option checks pass iff the list has the type's length, meets the type's correctness rule and has no blank text |
| Questions.BodyErrorsEmptyIff | backend/controllers/QuestionController.php:72-159 | a body is accepted iff it is well formed, field by field |
| Questions.OptionErrorsFields | backend/controllers/QuestionController.php:99-146 | the count error, `at least one` (MCQ) and `exactly one` (other types) are each reported iff their condition holds |
| Questions.OptionTextErrorCount | backend/controllers/QuestionController.php:148-152 | the number of `option text` entries is the number of blank options |
| Questions.StoredOptions | backend/controllers/QuestionController.php:174-181 | definition without a contract: the option rows the insert loop writes for a list; stated by `Questions.StoredOptionsFacts` and `Questions.StoredCorrectCount` |
| Questions.StoredOptionsFacts | backend/controllers/QuestionController.php:174-181 | for options sent as a JSON list, the stored rows are one per option with `idx` 0..n-1 and 0/1 flags; they keep the correct count, and a non-blank list gives non-empty texts |
| Questions.StoredCorrectCount | backend/controllers/QuestionController.php:174-181 | the stored 0/1 flags mark as many rows correct as the submitted options marked correct |
| Questions.ReplaceRow | backend/controllers/QuestionController.php:369-374 | `UPDATE ... WHERE id` replaces exactly the rows with that id |
| Questions.RemoveRow | backend/controllers/QuestionController.php:202-203 | `DELETE ... WHERE id` keeps exactly the other rows |
| Questions.RemoveRowAscending | backend/controllers/QuestionController.php:202-203 | deleting a row keeps the ids ascending |
| Questions.RemoveRowBounds | backend/controllers/QuestionController.php:202-203 | deleting a row keeps every remaining id within the allocated range and leaves no row with the deleted id |
| Questions.ReplaceRowFacts | backend/controllers/QuestionController.php:369-374 | updating a row keeps the ids, and a lookup then finds the new row |
| Questions.AppendAscending | backend/controllers/QuestionController.php:163-168 | inserting under the next auto-increment id keeps the ids ascending |
| Questions.RowsOfQuestion | backend/controllers/QuestionController.php:240-243 | a question yields at least one join row, every row carrying its columns |
| Questions.RowsOfSubject | backend/controllers/QuestionController.php:18-34 | the `list` query returns only join rows of questions in the table whose subject is the requested one |
| Questions.Dedup | backend/controllers/QuestionController.php:40-48 | the question ids in order of first appearance, each once |
| Questions.FirstRowOfSome | backend/controllers/QuestionController.php:252-260 | a question has a first join row iff it has a row, and that row carries its id |
| Questions.GroupStep | backend/controllers/QuestionController.php:37-58 | one more join row either opens a new question or adds its option to an existing one |
| Questions.GroupStepAt | backend/controllers/QuestionController.php:37-58 | for one question id, a new row becomes its first row only when it had none, and the row's non-null option joins its options |
| Questions.OptionsInRowsAbsent | backend/controllers/QuestionController.php:50-57 | a question without rows collects no options |
| Questions.AddRow | backend/controllers/QuestionController.php:38-57 | one loop turn keeps the grouping invariant |
| Questions.OpenEntry | backend/controllers/QuestionController.php:40-48 | the first row of a question opens a new entry at the end |
| Questions.ExtendEntry | backend/controllers/QuestionController.php:50-57 | a later row appends its non-null option to its question's entry |
| Questions.GroupRows | backend/controllers/QuestionController.php:36-61 | the loop groups the join rows: one entry per id in first-appearance order, with that id's first row and its non-null options in row order |
| Questions.QuestionController.InsertOptions | backend/controllers/QuestionController.php:170-181 | the options of the question become the stored rows; the option counter advances by the list length |
| Questions.QuestionController.Create | backend/controllers/QuestionController.php:68-185 | 422 with the fields iff the body is not well formed; else a new row with the trimmed text and its options |
| Questions.QuestionController.InsertQuestion | backend/controllers/QuestionController.php:161-181 | the row is appended under the next id and the options are stored under it, numbered from the next option id |
| Questions.QuestionController.Update | backend/controllers/QuestionController.php:278-412 | 400 iff id ≤ 0; 422 with the fields iff the body is not well formed; 200 iff the body is well formed, the question exists and no fault occurs, and then the row and options are rewritten; 404 iff a well-formed body names a missing question; 500 iff it names an existing one and a fault occurs, with rollback |
| Questions.QuestionController.Rewrite | backend/controllers/QuestionController.php:365-411 | the transaction: 404 with rollback when no row has the id, even when the update changed no row; else the row and options are replaced |
| Questions.QuestionController.ReplaceOptions | backend/controllers/QuestionController.php:388-410 | the options are replaced and committed with 200, or on a fault the row and options are rolled back with 500 |
| Questions.QuestionController.Delete | backend/controllers/QuestionController.php:190-217 | options and row removed in one transaction; 204 iff the row existed, 404 otherwise, 500 with rollback on a fault |
| Questions.QuestionController.RemoveQuestion | backend/controllers/QuestionController.php:197-204 | the question's options and row are removed; the row count says whether the row existed, and no row with that id is left |
| Questions.QuestionController.Show | backend/controllers/QuestionController.php:223-273 | 400 iff id ≤ 0, 404 iff no row; the question is returned iff id > 0 and the row exists, with its columns and its stored options in `idx` order |
| Questions.QuestionController.List | backend/controllers/QuestionController.php:11-63 | 422 iff no positive subject; else the subject's questions newest first, each with its options |
| Router.IntCast | backend/Router.php:39 | the `(int)` of captured digits is their value, saturated at PHP_INT_MAX |
| Router.IdCapture | backend/Router.php:38 | a capture is a non-empty digit run that makes up the rest of the path, optionally followed by one final newline |
| Router.Dispatch | backend/Router.php:7-115 | a question or exam id handler is reached only when its pattern captures, with an id in 0..PHP_INT_MAX, and show, update and delete only under GET, PUT and DELETE; a 404 echoes the path |
| Router.LiteralRoutes | backend/Router.php:14-81 | each fixed method/path pair reaches its handler |
| Router.NoIdCapture | backend/Router.php:38 | a path shorter than the prefix captures nothing |
| Router.IdCaptureOf | backend/Router.php:38 | prefix + digits (+ one newline) captures exactly those digits |
| Router.NotFoundIff | backend/Router.php:110-114 | 404 exactly when no fixed pair matches and neither pattern captures; the path is echoed |
| Router.CaptureHasPrefix | backend/Router.php:38 | a capture implies the path starts with the prefix |
| Router.ExamPathsAreNotQuestionIds | backend/Router.php:38-85 | no exam path is captured by the question pattern |
| Router.MethodNotAllowedIff | backend/Router.php:38-108 | 405 exactly when a pattern captures and the method is not GET, PUT or DELETE |
| Router.ExamIdPath | backend/Router.php:85 | `/api/exams/<n>` matches no fixed route and no question id, and captures the decimal of n |
| Router.DigitAfterExamsPrefix | backend/Router.php:14-85 | a path starting `/api/exams/` then a digit equals no fixed route and is not captured by the question-id pattern |
| Router.QuestionIdPath | backend/Router.php:38 | `/api/questions/<n>` matches no fixed route and captures the decimal of n |
| Router.ExamIdRoutes | backend/Router.php:85-108 | GET, PUT, DELETE on `/api/exams/<n>` reach show, update, delete with id n; other methods get 405 |
| Router.QuestionIdRoutes | backend/Router.php:38-61 | the same for `/api/questions/<n>` |
| Router.ExamsAutoOnlyUnderPost | backend/Router.php:72-85 | `/api/exams/auto` and `/manual` under any other method fall through to 404 |
| Router.ExamZeroIsRouted | backend/Router.php:85-91 | `GET /api/exams/0` reaches show with id 0, which show then rejects |
| Router.LeadingZerosIgnored | backend/Router.php:85-101 | `DELETE /api/exams/007` reaches delete with id 7 |
| HtmlEscape.ReplaceCharAppend | frontend/js/helpers.js:24 | a global one-character replace distributes over concatenation |
| HtmlEscape.ReplaceCharAbsent | frontend/js/helpers.js:24 | replacing a character that does not occur changes nothing |
| HtmlEscape.ReplaceChar | frontend/js/helpers.js:24 | after `replace(/c/g, rep)` every character comes from `rep` or is a character of the input other than `c`; a non-empty `rep` never shortens the text |
| HtmlEscape.EscapeHtml | frontend/js/helpers.js:22-29 | the result contains no `<`, `>`, `"` or `'` and is never shorter than the input |
| HtmlEscape.EscapeHtmlChar | frontend/js/helpers.js:22-29 | on one character the five replaces give that character's entity (or the character) |
| HtmlEscape.EscapeHtmlIsPerCharacter | frontend/js/helpers.js:22-29 | escaping equals escaping each character independently |
| HtmlEscape.AmpersandsStartEntities | frontend/js/helpers.js:22-29 | every `&` in the result starts one of the five entities |
| HtmlEscape.UnchangedWithoutSpecials | frontend/js/helpers.js:22-29 | a text without special characters is returned unchanged |
| HtmlEscape.LengthNondecreasing | frontend/js/helpers.js:22-29 | each special character adds between 3 and 5 characters |
| HtmlEscape.UnescapeEscape | frontend/js/helpers.js:22-29 | decoding the entities restores the input |
| HtmlEscape.EscapeInjective | frontend/js/helpers.js:22-29 | different texts are escaped to different strings |
| Browser.UncheckedIsNaN | frontend/js/questions.js:301-302 | an unchecked radio group parses to NaN |
| Browser.IntString | frontend/js/questions.js:382 | a non-negative id is written in decimal in the URL |
| Browser.ServerBody | frontend/js/questions.js:372-378 | the server reads the payload's text, difficulty and type, a NaN subject as 0, and each option's text and flag |
| Browser.QuestionTargetRoutes | frontend/js/questions.js:382-388 | a save of the edited question reaches update with its id; any other save reaches create |
| Browser.EditTargetRoutes | frontend/js/questions.js:382-383 | `PUT /questions/<id>` for an edited question reaches update with that id |
| Browser.CreateTargetRoutes | frontend/js/questions.js:382-383 | `POST /questions` without an edited question reaches create |
| Browser.PayloadOptionsAccepted | frontend/js/questions.js:372-378 | options with the type's length and non-empty NUL-free trimmed texts pass the server's option checks iff the correct count meets the type's rule |
| Browser.NoNulNotBlank | frontend/js/questions.js:292-304 | a NUL-free text the browser sees as non-blank is non-blank to the server |
| Browser.JsTrimInside | frontend/js/questions.js:300 | trimming introduces no characters |
| Browser.ServerCorrectCount | frontend/js/questions.js:311-314 | the server counts the options the payload marks correct |
| Browser.ServerSeesNoBlankOption | frontend/js/questions.js:299-304 | NUL-free options the browser checked as non-blank are not blank to the server |
| QuestionsPage.TrimAll | frontend/js/questions.js:300 | each option input, trimmed, in order |
| QuestionsPage.BuildPayload | frontend/js/questions.js:283-378 | definition without a contract: the body `onSubmitQuestion` sends; its guards and the server's acceptance are stated per type by the `QuestionsPage` lemmas below |
| QuestionsPage.SentTypeIsKnown | frontend/js/questions.js:294-370 | only the five known types are sent, and the server validates under the same type |
| QuestionsPage.ScqGuard | frontend/js/questions.js:298-309 | single choice sends nothing iff the text or an option is blank or no radio is checked |
| QuestionsPage.ScqPayloadAccepted | frontend/js/questions.js:298-314 | with four NUL-free inputs and a checked index among them, the server's option checks pass |
| QuestionsPage.ScqIndexOutOfRangeRejected | frontend/js/questions.js:311-314 | a radio value that is no input's index marks nothing correct, and the server reports `exactly one` |
| QuestionsPage.McqPayloadAccepted | frontend/js/questions.js:315-333 | an option is correct iff its index is among the checked values; with four NUL-free inputs the server accepts iff some checked value is an index |
| QuestionsPage.MarkedAtChecked | frontend/js/questions.js:330-333 | at least one option is marked correct iff some checked value is an option index |
| QuestionsPage.TfPayloadAccepted | frontend/js/questions.js:334-346 | with the radio at true or false, the pair True/False has exactly one correct option and passes the option checks |
| QuestionsPage.TfSendsBlankText | frontend/js/questions.js:334-346 | the TF branch does not check the text; a blank text is sent and the server reports `text` |
| QuestionsPage.AnswerPayloadAccepted | frontend/js/questions.js:347-366 | a short or long answer becomes one correct option that passes the option checks |
| QuestionsPage.AnswerGuard | frontend/js/questions.js:347-366 | SA/LA send nothing iff the text is blank or the answer is missing or blank |
| QuestionsPage.UnknownTypeNotSent | frontend/js/questions.js:367-370 | an unknown type sends nothing |
| QuestionsPage.QuestionEditor.SetEditMode | frontend/js/questions.js:406-411 | leaving edit mode forgets the edited id; entering keeps it |
| QuestionsPage.QuestionEditor.CancelEditMode | frontend/js/questions.js:413-417 | no question is being edited afterwards |
| QuestionsPage.QuestionEditor.OnQuestionLoaded | frontend/js/questions.js:218-277 | a loaded question becomes the edited one; a failed load changes nothing |
| QuestionsPage.QuestionEditor.OnQuestionDeleted | frontend/js/questions.js:209-215 | deleting the edited question ends edit mode; other deletions and failures change nothing |
| QuestionsPage.QuestionEditor.Submit | frontend/js/questions.js:283-401 | the request is the payload to the edit-dependent target, sent iff the guard passes; a successful save ends edit mode |
| ExamsPage.CountValueOfDecimal | frontend/js/exams.js:91-93 | a count written in decimal reads back as itself |
| ExamsPage.CountValue | frontend/js/exams.js:91-93 | an empty or non-numeric count field counts as 0 |
| ExamsPage.ExamName | frontend/js/exams.js:320 | the name sent is never empty, and is the trimmed input when that is not blank |
| ExamsPage.ExamNameAccepted | frontend/js/exams.js:320 | for a NUL-free input the server never reads the sent name as blank |
| ExamsPage.SaveRequest | frontend/js/exams.js:313-345 | definition without a contract: the request `createOrUpdateExam` sends; stated by `ExamsPage.SaveRequestGuards` and `ExamsPage.AutoRequestAccepted` |
| ExamsPage.SaveRequestGuards | frontend/js/exams.js:319-345 | in edit mode the captured ids are always sent under the edited id; in create mode a request is sent iff the subject is non-zero and the total positive |
| ExamsPage.AutoRequestAccepted | frontend/js/exams.js:331-345 | a create request passes createAuto's validation iff the subject id is positive and no count is negative |
| ExamsPage.EmptyResaveRejected | frontend/js/exams.js:224-226 | resaving an exam that shows no questions is refused by update, whatever the name |
| ExamsPage.ResaveAccepted | frontend/js/exams.js:340-345 | a resave with captured ids and a non-blank name passes update's validation on the explicit-list path |
| ExamsPage.ShownIds | frontend/js/exams.js:224-226 | the captured ids are show's row ids, in order |
| ExamsPage.ResaveKeepsLinks | frontend/js/exams.js:224-226 | when no linked question is gone, resaving writes back exactly the exam's link rows |
| ExamsPage.EditTargetRoutes | frontend/js/exams.js:340-341 | an edit reaches update with the edited exam's id |
| ExamsPage.AutoTargetRoutes | frontend/js/exams.js:340-341 | a create reaches createAuto |
| ExamsPage.CardId | frontend/js/exams.js:164-165 | a card yields an id only when its `data-id` parses to a non-zero number, and then that number |
| ExamsPage.CardIdOfExam | frontend/js/exams.js:164-165 | a card rendered with a positive exam id yields that id |
| ExamsPage.TallyPartition | frontend/js/exams.js:237-244 | when every difficulty is easy, medium or hard, the three tallies sum to the number of questions |
| ExamsPage.TallyDifficulties | frontend/js/exams.js:237-244 | the loop counts each of easy, medium and hard and skips any other difficulty |
| ExamsPage.ExamEditor.UpdateExamTotal | frontend/js/exams.js:90-95 | the shown total is the sum of the three fields, each non-numeric or empty field counting 0 |
| ExamsPage.ExamEditor.EditCount | frontend/js/exams.js:62-64 | typing into a count field keeps the shown total in step |
| ExamsPage.ExamEditor.StartExamEdit | frontend/js/exams.js:210-279 | a loaded exam becomes the edited one; its ids are captured in order; the name is filled in; each count field shows the per-difficulty count; a failed load changes nothing |
| ExamsPage.ExamEditor.ShowCounts | frontend/js/exams.js:246-257 | the count fields show the three counts in decimal and the total shown is their sum |
| ExamsPage.ExamEditor.CancelExamEditMode | frontend/js/exams.js:281-308 | no exam is edited, no ids are captured, and the form is back at its defaults |
| ExamsPage.ExamEditor.OnExamDeleted | frontend/js/exams.js:167-193 | deleting the edited exam ends edit mode; other deletions and failures change nothing |
| ExamsPage.ExamEditor.CreateOrUpdateExam | frontend/js/exams.js:313-390 | the request is the one the guards allow; after a successful save an edit ends, and a create clears the name |
| LegacyApp.ReplaceAll | frontend/js/app.js:245-249 | `replaceAll` with a one-character pattern is the global replace of that character |
| LegacyApp.LegacyEscapeHtml | frontend/js/app.js:243-250 | the `replaceAll` copy of `escapeHtml` gives the same string as the regular-expression one for every input |
| LegacyApp.LegacyUnescape | frontend/js/app.js:243-250 | the legacy escape can be undone |
| LegacyApp.LegacyPayload | frontend/js/app.js:162-186 | definition without a contract: the body the legacy `onSubmit` sends; stated by `LegacyApp.LegacySentAsSingleChoice`, `LegacyApp.LegacyMatchesSingleChoiceForm` and `LegacyApp.LegacyPayloadAccepted` |
| LegacyApp.LegacySentAsSingleChoice | frontend/js/app.js:181-186 | the payload has no type, so the server validates it as single choice |
| LegacyApp.LegacyMatchesSingleChoiceForm | frontend/js/app.js:165-186 | the legacy form sends what the newer form's single-choice branch sends for the same inputs, except for the type member |
| LegacyApp.LegacyPayloadAccepted | frontend/js/app.js:169-186 | with four NUL-free inputs and a checked index among them, the server's option checks pass |
| LegacyApp.LegacyEditor.SetEditMode | frontend/js/app.js:212-217 | leaving edit mode forgets the edited id |
| LegacyApp.LegacyEditor.CancelEditMode | frontend/js/app.js:219-223 | no question is being edited afterwards |
| LegacyApp.LegacyEditor.OnQuestionLoaded | frontend/js/app.js:136-158 | a loaded question becomes the edited one; a failed load changes nothing |
| LegacyApp.LegacyEditor.OnQuestionDeleted | frontend/js/app.js:127-133 | deleting the edited question ends edit mode |
| LegacyApp.LegacyEditor.Submit | frontend/js/app.js:162-209 | the request is the legacy payload to the edit-dependent target, sent iff the guard passes; a successful save ends edit mode |

## Left out

- Clocks:
  - `created_at` is not stored. "Newest first" is modelled by auto-increment id order.
  - `base_difficulty` is not stored, because it is always null.
- The SQL engine:
  - `JSON_ARRAYAGG` and the options array of exam `show` are left out.
  - `show` returns a question's columns, its position and the tally.
- Randomness: `ORDER BY RAND()` and `shuffle` are modelled as "some permutation" via nondeterministic choice. The distribution is not modelled.
- Storage failures are a `fault` parameter.
  - Question `create` has no `try`/`catch`. A failing insert there is an uncaught exception, which the model leaves out: `Questions.QuestionController.Create` has no fault path.
- Route ids above PHP_INT_MAX:
  - `Router.IntCast` models the saturation itself.
  - The route lemmas assume ids up to PHP_INT_MAX.
- `parse_url` returning null for a malformed URI is left out; the path is a given string.
- `backend/public/api.php`, `bootstrap.php`, `db.php`, `SubjectController.php` and `main.js` are not part of this model. They cover loading, the connection, CORS and the preflight, subjects, and view switching.
- The missing load of `ExamController.php` in `api.php` is described above. The model treats the exam controller as loaded.
- Exam `update` on the id-list path does not check that the ids belong to the exam's subject, and does not check that they are distinct. The model states what is written and adds no such check.
- Browser-only behaviour is not modelled:
  - the DOM, `fetch`, `async` ordering, alerts, button labels and `disabled` flags;
  - list rendering;
  - filling the form from a loaded question, including the TF radio choice by the first letter of the correct option;
  - the exam details panel.
- The scripts' responses become parameters:
  - a `saved` flag for `res.ok` after a save;
  - the server `Response` for loads and deletes.
- `Number()` of a checkbox value is abstracted to an optional integer. This is exact for the `includes(i)` test.
- `form.reset()` restores defaults that are parameters of the `ExamEditor` constructor.
- The exam subject select is a parameter of `CreateOrUpdateExam`. `StartExamEdit` setting it is not modelled, because the edit path does not read it.
- Option texts containing NUL: the browser and the server disagree on them, so the acceptance lemmas require NUL-free inputs. `Text.PhpBlankAfterJsTrim` characterises the gap.
- Questions.StoredOptions: options sent as a JSON object are not modelled. The model stores `idx` as the list position 0..n-1, while the source stores the array key (`{"7": …}` stores idx 7, and a non-numeric key makes the insert fail). The same holds for `Questions.StoredOptionsFacts`, `Questions.QuestionController.InsertOptions`, `Create`, `Update`, `ReplaceOptions` and the `Indexed` invariant of `Store.Database.Valid`.
