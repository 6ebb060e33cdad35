# Quiz application front end: quiz taking, authoring and administration

This project models the logic of three screens of a React quiz application and
proves properties of that model:

- **Taking a quiz** (`TakeQuiz`, `take_quiz.dfy`). A student records answers
  question by question and moves a cursor back and forth. On the last
  question they submit. The scorer judges each answer and turns the count of
  right answers into a two-decimal percentage. A quiz is passed at 60.
  Re-attempting clears everything. A passed quiz offers a certificate whose
  file name is built from the user name and the quiz title.
- **Authoring a quiz** (`Authoring`, `quiz_form.dfy`). An administrator edits
  a list of draft questions. Options and correct answers are typed as
  comma-separated text. On submission they are cut into trimmed, non-empty
  lists. In edit mode a stored quiz is loaded back into drafts, with its
  lists joined by `", "`.
- **The administrator's panel** (`Admin`, `admin_panel.dfy`). This covers:
  - the quiz list, with the number of students who attempted each quiz;
  - the list updates after a quiz is toggled or deleted;
  - the file name of a downloaded results sheet;
  - the rule that a quiz counts as active unless its flag is `false`.

The supporting modules are:

- `QuizData` (`quiz_data.dfy`): the records exchanged with the server.
- `JsText` (`js_text.dfy`): the JavaScript string and array primitives the
  screens rely on, written out. These are `trim` with the ECMAScript
  white-space set, `split(',')`, `join`, and the `filter` calls.
- `StringOrder` (`string_order.dfy`): the default `sort()` order on strings.
  It proves that comparing sorted copies means comparing multisets.

Each screen's state is a class. `TakeQuiz.QuizSession` holds the answers map,
the cursor, the score and the result flag. `Authoring.QuizForm` holds the
title, the draft list and the edit flag. `Admin.AdminPanel` holds the quiz
list. The methods of each class change exactly the fields the screen's
handlers change. The scorer is a loop, proved against the specification
function `ScoreOf`.

Modelling choices:
- **Scores.** A score is kept as integer hundredths of a percent.
  `Hundredths(c, t)` is the exact percentage `100c/t` rounded to the nearest
  hundredth, with halves going up. This is what `toFixed(2)` shows for it.
- **Where the code and the design description disagree, the model follows
  the code:**
  - a multi_select answer is right when the ticked list and the correct list
    are equal as multisets, not merely as sets: duplicates count;
  - the certificate name turns every run of white space into one `_`, not
    every single space;
  - an unanswered non-multi_select question is compared as the text
    `"undefined"`.

## Model

| member | source | states |
|---|---|---|
| JsText.Trim | src/components/TakeQuiz.js:62 | `trim` leaves a text with no ECMAScript white space or line terminator at either end |
| JsText.TrimIsSlice | src/components/TakeQuiz.js:62 | what `trim` returns is the part of the text between a white-space prefix and a white-space suffix |
| JsText.TrimmedIsFixed | src/components/QuizForm.js:52 | trimming an already trimmed answer changes nothing |
| JsText.TrimIgnoresSurroundingSpace | src/components/TakeQuiz.js:62 | white space added around a text never changes its trimmed form |
| JsText.TrimKeepsOut | src/components/QuizForm.js:49 | trimming never brings in a character, so trimmed comma-free pieces stay comma-free |
| JsText.TrimAllAt | src/components/QuizForm.js:49 | `map(o => o.trim())` puts the trimmed entry at the same place |
| JsText.TrimAll | src/components/QuizForm.js:49 | `map(o => o.trim())` gives one entry per piece |
| JsText.Split | src/components/QuizForm.js:49 | `split(',')` yields at least one piece and no piece holds a comma |
| JsText.JoinSplit | src/components/TakeQuiz.js:60 | joining the pieces of `split(',')` with a comma gives the text back |
| JsText.SplitJoin | src/components/TakeQuiz.js:60 | splitting a non-empty list of comma-free pieces joined by commas gives the list back |
| JsText.Join | src/components/QuizForm.js:22-23 | `join` of no entries is the empty text, and a joined text is never shorter than its first entry |
| JsText.JoinStartsWithFirst | src/components/QuizForm.js:22-23 | a joined text starts with the first entry |
| JsText.DropEmpty | src/components/QuizForm.js:49 | `filter(o => o)` keeps only non-empty strings, with every non-empty one kept as often as it occurred |
| JsText.DropEmptyKeepsNonEmpty | src/components/QuizForm.js:49 | the filter changes nothing on a list without empty strings |
| JsText.DropEmptyAppend | src/components/QuizForm.js:49 | the filter works entry by entry: filtering two lists joined is joining the filtered lists, so the kept entries stay in order |
| JsText.Without | src/components/TakeQuiz.js:34 | `filter(v => v !== option)` removes every copy of the option and keeps all other entries with their multiplicities |
| JsText.WithoutAbsent | src/components/TakeQuiz.js:34 | removing an option that is not ticked changes nothing |
| StringOrder.LeTotal | src/components/TakeQuiz.js:57-60 | any two strings are ordered one way or the other by the default sort order |
| StringOrder.LeAntisymmetric | src/components/TakeQuiz.js:57-60 | two strings that each sort no later than the other are equal |
| StringOrder.LeTransitive | src/components/TakeQuiz.js:57-60 | the default sort order is transitive |
| StringOrder.Insert | src/components/TakeQuiz.js:57-60 | inserting into a sorted list keeps it sorted and adds exactly the one element |
| StringOrder.Sort | src/components/TakeQuiz.js:57-60 | `sort()` yields a sorted permutation of the list |
| StringOrder.SortedUnique | src/components/TakeQuiz.js:57-61 | two sorted lists with the same elements and multiplicities are the same list |
| StringOrder.SortEqualIff | src/components/TakeQuiz.js:57-61 | the sorted copies of two lists are equal if and only if the lists are equal as multisets |
| TakeQuiz.MultiSelectJudgement | src/components/TakeQuiz.js:56-61 | a multi_select answer is right if and only if the ticked list and the correct list hold the same strings equally often |
| TakeQuiz.TextJudgementIgnoresSpace | src/components/TakeQuiz.js:62-64 | any other answer is right if and only if its trimmed text equals the trimmed correct text, whatever white space surrounds it |
| TakeQuiz.UnansweredJudgement | src/components/TakeQuiz.js:53-62 | an unanswered question is judged as the empty list (multi_select) or as the text "undefined" (other types) |
| TakeQuiz.IsCorrect | src/components/TakeQuiz.js:56-64 | the per-question judgement: sorted ticked and correct lists equal for multi_select, trimmed texts equal otherwise; its meaning is stated by the three judgement lemmas above |
| TakeQuiz.TickOrderIrrelevant | src/components/TakeQuiz.js:57-61 | two ticked lists with the same options equally often are judged alike, whatever the order of ticking |
| TakeQuiz.CountTrue | src/components/TakeQuiz.js:51-65 | the `correct` counter never exceeds the number of questions counted |
| TakeQuiz.CountAllTrue | src/components/TakeQuiz.js:51-65 | the counter equals the number of questions if and only if every question is right |
| TakeQuiz.CountNoneTrue | src/components/TakeQuiz.js:51-65 | the counter is 0 if and only if no question is right |
| TakeQuiz.Hundredths | src/components/TakeQuiz.js:67-68 | the score is at most 100.00, 0 for a quiz without questions, and the exact percentage rounded to the nearest hundredth with halves going up |
| TakeQuiz.ScoreOf | src/components/TakeQuiz.js:50-68 | the score of a set of answers is the rounded percentage of right ones: never above 100.00, and 0.00 for a quiz with no questions |
| TakeQuiz.PassedScore | src/components/TakeQuiz.js:139 | a score passes when it is at least the passing mark of 60, compared in hundredths |
| TakeQuiz.HundredthsMonotone | src/components/TakeQuiz.js:67-68 | more right answers never give a lower score |
| TakeQuiz.PassAtMark | src/components/TakeQuiz.js:139 | an exact percentage of at least the passing mark of 60 always passes |
| TakeQuiz.PassNearMark | src/components/TakeQuiz.js:139 | a pass means the quiz has questions and the exact percentage is at least 59.995, because the rounded score is what is compared |
| TakeQuiz.FullScore | src/components/TakeQuiz.js:50-68 | with 1 to 19999 questions, the score is 100.00 if and only if every answer is right |
| TakeQuiz.ZeroScore | src/components/TakeQuiz.js:50-68 | with at most 20000 questions, the score is 0.00 if and only if no answer is right |
| TakeQuiz.Toggled | src/components/TakeQuiz.js:29-36 | ticking adds one copy of the option; unticking removes all its copies and keeps the rest |
| TakeQuiz.WithoutKeepsNoDuplicates | src/components/TakeQuiz.js:34 | unticking keeps a duplicate-free list duplicate-free |
| TakeQuiz.ToggleKeepsNoDuplicates | src/components/TakeQuiz.js:214-215 | since a checkbox ticks only an option the list lacks, the ticked list never holds a duplicate |
| TakeQuiz.DisplayName | src/components/TakeQuiz.js:16 | the user name is the stored one when it is non-empty, otherwise "Student"; it is never empty |
| TakeQuiz.UnderscoreSpaces | src/components/TakeQuiz.js:126 | `replace(/\s+/g, '_')` leaves no white space, never lengthens the title, and keeps a title without white space as it is |
| TakeQuiz.UnderscoreSpacesVisible | src/components/TakeQuiz.js:126 | apart from white space and `_`, the title's characters all survive, in order |
| TakeQuiz.UnderscoreSpacesRun | src/components/TakeQuiz.js:126 | a maximal run of white space between two pieces of text becomes exactly one `_`, with each piece rewritten on its own |
| TakeQuiz.CertificateFileName | src/components/TakeQuiz.js:126 | the file name is "Certificate_", the shown user name, `_`, the title with its white-space runs replaced, and ".pdf", in that order |
| TakeQuiz.CertificateFileNameNoSpace | src/components/TakeQuiz.js:126 | the file name holds white space only if the stored user name does |
| TakeQuiz.QuizSession.constructor | src/components/TakeQuiz.js:9-13 | a session starts at the first question, with no answers, no score and no result shown |
| TakeQuiz.QuizSession.AttemptedCount | src/components/TakeQuiz.js:78 | the attempted count is the number of recorded entries, never more than the number of questions |
| TakeQuiz.QuizSession.HandleChange | src/components/TakeQuiz.js:25-27 | records the value for the shown question, replacing any earlier entry; the attempted count grows by one only for a first answer |
| TakeQuiz.QuizSession.HandleMultiSelect | src/components/TakeQuiz.js:29-36 | stores the toggled list of ticked options for the shown question; the entry stays even when it becomes empty |
| TakeQuiz.QuizSession.GoNext | src/components/TakeQuiz.js:38-42 | moves to the next question unless the shown one is the last |
| TakeQuiz.QuizSession.GoPrev | src/components/TakeQuiz.js:44-48 | moves to the previous question unless the shown one is the first |
| TakeQuiz.QuizSession.CalculateScore | src/components/TakeQuiz.js:50-69 | the loop's result is the rounded percentage of right answers (`ScoreOf`) |
| TakeQuiz.QuizSession.SubmitQuiz | src/components/TakeQuiz.js:71-76 | from the last question, stores that score and shows the result, leaving the answers and the cursor alone |
| TakeQuiz.QuizSession.CanSubmit | src/components/TakeQuiz.js:254-258 | the submit button is offered only on the last question, so only for a quiz that has questions |
| TakeQuiz.QuizSession.Passed | src/components/TakeQuiz.js:139 | the result screen shows a pass when the stored score passes |
| TakeQuiz.QuizSession.ReattemptQuiz | src/components/TakeQuiz.js:129-134 | from any state, returns to no answers at the first question with no score and no result |
| Authoring.Apply | src/components/QuizForm.js:33-37 | an edit sets the one field it names and leaves the other three as they were |
| Authoring.RemoveAt | src/components/QuizForm.js:41 | removing index `i` shifts the later drafts down by one; an index past the end removes nothing |
| Authoring.ParseList | src/components/QuizForm.js:49 | every parsed entry is non-empty, comma-free and trimmed |
| Authoring.ParseOptions | src/components/QuizForm.js:49 | the parsed option list holds only clean entries, and empty option text gives no options |
| Authoring.ParseOptionsIsParseList | src/components/QuizForm.js:49 | the falsy check on empty option text gives the same list as parsing it |
| Authoring.Format | src/components/QuizForm.js:47-53 | a formatted question keeps its text and type, always has an option list, and has a list answer exactly when it is multi_select; all entries are clean |
| Authoring.FormatAll | src/components/QuizForm.js:47-53 | the submitted quiz has one formatted question per draft, in the same order |
| Authoring.Load | src/components/QuizForm.js:19-24 | a loaded draft keeps the question's text and type, shows absent options as empty text and a text answer as it is |
| Authoring.LoadAll | src/components/QuizForm.js:19-24 | edit mode turns each stored question into one draft, in order |
| Authoring.ParseJoin | src/components/QuizForm.js:22-23 | a clean list joined with ", " parses back to the same list |
| Authoring.FormatLoad | src/components/QuizForm.js:19-53 | loading a formatted question into the form and saving it unchanged stores the same question |
| Authoring.FormatIdempotent | src/components/QuizForm.js:19-53 | saving, reopening and saving again stores what the first save stored |
| Authoring.QuizForm.constructor | src/components/QuizForm.js:8-10 | a new form has an empty title and one blank single_select draft, and is not in edit mode |
| Authoring.QuizForm.LoadForEdit | src/components/QuizForm.js:15-24 | edit mode takes the stored title and the loaded drafts |
| Authoring.QuizForm.AddQuestion | src/components/QuizForm.js:29-31 | appends one blank draft and leaves the others alone |
| Authoring.QuizForm.UpdateQuestion | src/components/QuizForm.js:33-37 | changes one field of draft `i` and nothing else |
| Authoring.QuizForm.RemoveQuestion | src/components/QuizForm.js:39-43 | removes draft `i` unless it is the only one, so a non-empty list stays non-empty |
| Authoring.QuizForm.Submission | src/components/QuizForm.js:47-59 | the body sent on submit carries the title and one formatted question per draft, in order |
| Admin.AttemptCount | src/components/AdminPanel.js:21-27 | a quiz's attempt count is the number of users with a truthy entry for it, never more than the number of users |
| Admin.CountAttempts | src/components/AdminPanel.js:22-25 | the counting loop over the users yields that count |
| Admin.AttemptsOrEmpty | src/components/AdminPanel.js:17-19 | a failed attempts fetch is read as the empty map; a successful one is used as it is |
| Admin.FailedFetchCountsZero | src/components/AdminPanel.js:17-19 | when the attempts fetch fails, every quiz shows 0 attempts |
| Admin.IsActive | src/components/AdminPanel.js:88-89 | the status badge shows active unless the flag is exactly `false` |
| Admin.ActiveUnlessFalse | src/components/AdminPanel.js:88-89 | a quiz shows as active unless its flag is exactly `false` |
| Admin.ToggleRequest | src/components/AdminPanel.js:33 | the request sends the negated flag, and `true` when the quiz has no flag |
| Admin.ToggleRequestKeepsUnflaggedActive | src/components/AdminPanel.js:33 | as written, a quiz without the flag shows "Deactivate" but the request stores `true`, so the quiz stays active |
| Admin.ToggleRequestFixedFlips | src/components/AdminPanel.js:33 | the corrected request always flips the shown status |
| Admin.SanitizeTitle | src/components/AdminPanel.js:53 | every UTF-16 code unit outside `[A-Za-z0-9]` becomes `_`, one output character per code unit |
| Admin.SanitizeChar | src/components/AdminPanel.js:53 | an ASCII letter or digit is kept, any other character of the basic plane becomes one `_`, and a character beyond it becomes `__` |
| Admin.SanitizeAppend | src/components/AdminPanel.js:53 | the replacement works character by character: sanitising two texts joined is joining the sanitised texts |
| Admin.ResultsFileName | src/components/AdminPanel.js:53 | the results file name is the sanitised title followed by "_Results.xlsx", and holds only ASCII letters, digits and `_` before the extension |
| Admin.RemoveById | src/components/AdminPanel.js:40 | the filtered list holds exactly the entries whose id differs and is never longer |
| Admin.RemoveByIdAppend | src/components/AdminPanel.js:40 | the filter keeps the order of the entries it keeps |
| Admin.RemoveByIdAbsent | src/components/AdminPanel.js:40 | deleting an id that is not listed changes nothing |
| Admin.AdminPanel.constructor | src/components/AdminPanel.js:6 | the panel starts with no quizzes |
| Admin.AdminPanel.FetchQuizzes | src/components/AdminPanel.js:12-30 | lists every fetched quiz in order, unchanged, with its attempt count |
| Admin.AdminPanel.ToggleActive | src/components/AdminPanel.js:32-35 | sends `!quiz.active` as written (`ToggleRequest`, see Findings); replaces exactly the entries with the toggled id by the server's answer with the old attempt count; the others stay in place |
| Admin.AdminPanel.DeleteQuiz | src/components/AdminPanel.js:37-41 | once confirmed, removes the entries with that id; otherwise changes nothing |

## Left out

- The HTTP calls are not modelled: fetching a quiz, posting an attempt, and
  the server's PUT and DELETE. What they return is a parameter (the fetched
  quiz, the attempts map, the toggled quiz). A PUT or DELETE that fails
  leaves the list unchanged in the source; the model has no path for that.
- `localStorage` is not read; the stored user name is a parameter.
- The certificate drawing (jsPDF), the date text and every other piece of
  rendering are not modelled. Only the file name passed to `doc.save` is.
- Floating point is not modelled: the score is the exact ratio rounded to
  hundredths. IEEE rounding of `correct / total * 100` before `toFixed`
  could differ from that in the last digit.
- `sort()` sorts in place, so the scorer reorders the stored answer and
  correct lists. The model compares sorted copies and leaves the stored
  lists as they were.
- `updateQuestion` writes `newQ[i][field]` into the object shared with the
  previous state. The model treats drafts as values.
- React's asynchronous state updates and stale closures are not modelled.
  Each handler runs on the state it was given.
- The loading screen before a quiz arrives is not modelled.
- Questions whose stored `correct` field is missing are not modelled.
- Question types other than the four the form offers are not modelled.
- Strings are sequences of Unicode scalar values. The default `sort()` order
  is modelled by character, not by UTF-16 code unit. This cannot change the
  equality of two sorted lists, which is all the scorer uses.
- Values in the attempts map are modelled only by their truthiness.
- TakeQuiz.QuizSession.HandleChange: requires a question that is not
  multi_select, because only the radio, number and text inputs call it.
- TakeQuiz.QuizSession.HandleMultiSelect: requires a multi_select question,
  because only its checkboxes call it. Together these two keep every
  multi_select answer a list, so the scorer never sorts a string.
- TakeQuiz.FullScore: holds only below 20000 questions. From 20000 questions
  on, a single wrong answer rounds up to 100.00.
- TakeQuiz.ZeroScore: holds only up to 20000 questions. Above that, a single
  right answer rounds down to 0.00.
- Authoring.QuizForm.LoadForEdit: loading a stored quiz with no questions
  empties the draft list. Only add, update and remove keep it non-empty.

## Findings

| source | as written | input that shows it | evidently intended | confidence | as-written member | corrected member |
|---|---|---|---|---|---|---|
| src/components/AdminPanel.js:33 | `toggleActive` sends `active: !quiz.active` | a quiz stored without an `active` field: it shows "Active" with a "Deactivate" button, but the request stores `active: true` and the quiz stays active | send the negation of the shown status, `active: quiz.active === false` | medium, not executed; it needs the server to store a quiz without the flag | Admin.ToggleRequestKeepsUnflaggedActive | Admin.ToggleRequestFixedFlips |
