# EACTS consensus survey — a verified model of its core

The EACTS consensus survey is a Flask application. Administrators upload or type in
surveys made of numbered sections of numbered questions. Respondents answer the survey
section by section, answering Yes, No or Abstain with an optional comment. They can
save their progress and come back later through a resume link. Administrators then see,
per question, whether at least 75.0% of the Yes/No answers were Yes, and export the
results as a spreadsheet or a PDF report.

This project models the sequential logic under the web plumbing, in Dafny:

- `text.dfy` (module `Text`): Python's `str.strip`, `lower`, `replace` with one
  character, and `' | '.join`, as used by the routes.
- `schema.dfy` (module `Schema`): the records of `data_tables/` and the
  `question.answers` relation over one answer table.
- `ordering.dfy` (module `Ordering`): Python's stable `sorted(..., key=...)`. It is a
  stable insertion sort, with its sortedness, permutation and stability proved.
- `statistics.dfy` (module `Statistics`): `Question.calculate_statistics`. Percentages
  are integer tenths of a percent, so 75.0% is `750`.
- `aggregate.dfy` (module `Aggregate`): `Survey.get_all_questions` and
  `Survey.get_all_statistics`, which define the canonical question order.
- `workflow.dfy` (module `Workflow`): the respondent routes of `routes/take_survey.py`
  and the `toggle_survey` flip.
  - The class `SurveyApp` holds the survey map, the response table, the answer table
    and the session, and its methods update them in place.
  - Each method is proved equal to a pure step function of the old state
    (`ShowSectionStep`, `TakeSurveyStep`, `SaveSection`, `ToggleStep`).
  - A response's id is its position in the response table.
- `workflow_props.dfy` (module `WorkflowProperties`): what the respondent routes
  promise. This covers the guards, the action dispatch, section replacement, the
  uniqueness of resume tokens, and the save-then-resume round trip.
- `admin.dfy` (module `Admin`): the administrator's form loops (create and edit). It
  also covers the pass/fail tallies, `no_pct`, comment gathering, the PDF partition,
  the spreadsheet rows, HTML escaping and `safe_title`.
- `upload.dfy` (module `Upload`): `check_if_excel_file`, the first-column filter of
  `process_excel_file`, and the single-section survey that `upload_survey` builds.

Request data comes in as explicit parameters:

- A respondent form is a record of the submitted action, email, choices and
  elaborations, keyed by question id.
- An administrator form is a map from typed keys to strings. There is one key kind per
  f-string field name (`section_{i}_title`, `section_{i}_question_{j}`, ...).
- The random resume token is a parameter `newToken`. Lemmas that need uniqueness
  require that it is not already in use.
- The outcome of sending the resume e-mail is a parameter `emailSent`.

Two behaviours of the code may be unexpected; the model follows the code:

- A `submit` from a session without a resume token creates two responses, not one.
  The section save first creates an incomplete response with a token and the answers.
  The submit branch then creates a second, complete response that has no answers.
- The token lookup in `show_section` does not filter by survey or by completion.

## Model

| member | source | states |
|---|---|---|
| Text.StripSpec | routes/take_survey.py:182 | `strip` gives a result with no leading or trailing whitespace; it is an infix of the input with only whitespace cut on both sides |
| Text.StripIdempotent | routes/admin.py:737 | stripping twice is stripping once |
| Text.Lower | utils/excel_upload.py:56 | the lower-cased string has the same length; each character is lower-cased on its own |
| Text.JoinLength | routes/admin.py:391 | a join of n parts is as long as the parts together plus n-1 separators |
| Text.JoinAppend | routes/admin.py:391 | joining one more part appends the separator and then that part, so the parts appear in order with one separator between neighbours |
| Schema.AnswersFor | data_tables/question.py:14 | a question's answers are exactly the rows of the answer table with its id, each kept as many times as it occurs there and no other row, so no more rows than the table |
| Ordering.SortBySorted | data_tables/survey.py:29 | `sorted` output is ordered by the key |
| Ordering.SortByPermutation | data_tables/survey.py:29 | `sorted` output is a permutation of its input |
| Ordering.SortByStable | data_tables/survey.py:32 | elements with equal keys keep their relative order |
| Ordering.SortByIgnoresStorageOrder | data_tables/survey.py:29 | when keys identify elements, sorting two orderings of the same multiset gives the same sequence |
| Statistics.CountChoice | data_tables/question.py:50-56 | a choice is counted at most once per answer |
| Statistics.PercentTenthsSpec | data_tables/question.py:64 | the rounded percentage lies within half a tenth of the exact 100·yes/(yes+no), and at most 100.0 |
| Statistics.CalculateStatistics | data_tables/question.py:19-80 | the tallying loop computes the statistics record of the question and its answers |
| Statistics.NoAnswers | data_tables/question.py:31-43 | with no answers every count and the percentage are 0, the threshold is not met, number and text are copied |
| Statistics.StatsOf | data_tables/question.py:31-80 | for every answer list, the record copies the question's number and text and counts every answer in the total |
| Statistics.TalliesWithinTotal | data_tables/question.py:50-56 | yes+no+abstain never exceeds the number of answers, with equality iff every choice is one of the three |
| Statistics.YesPercentageSpec | data_tables/question.py:58-64 | with no Yes/No answers the percentage is 0 and the threshold fails; otherwise it is 100·yes/(yes+no) to the nearest tenth, within [0, 100.0] |
| Statistics.ThresholdOfTenths | data_tables/question.py:64-69 | the rounded percentage reaches 75.0 exactly when 2000·yes ≥ 1499·(yes+no) |
| Statistics.ThresholdExact | data_tables/question.py:58-69 | `meets_threshold` holds iff there is a Yes/No answer and 2000·yes ≥ 1499·(yes+no) |
| Statistics.ThreeQuartersPass | data_tables/question.py:66-69 | at least three quarters Yes among Yes/No always passes |
| Statistics.CountIsMultiplicity | data_tables/question.py:50-56 | a tally is the multiplicity of the exact choice string among the answers |
| Statistics.OrderIndependent | data_tables/question.py:50-56 | the statistics depend only on the multiset of choices, not on answer order |
| Statistics.NonPositionIgnored | data_tables/question.py:50-64 | an extra Abstain or unknown answer leaves Yes, No, percentage and threshold unchanged and adds one to the total |
| Statistics.ScenarioPassesAtBoundary | data_tables/question.py:50-69 | 3 Yes, 1 No, 2 Abstain gives 75.0% and passes |
| Statistics.ScenarioFails | data_tables/question.py:50-69 | 1 Yes and 3 No gives 25.0% and fails |
| Aggregate.GetAllQuestions | data_tables/survey.py:25-35 | the extend loop over sorted sections yields the canonical order |
| Aggregate.EveryQuestionOnce | data_tables/survey.py:27-35 | every stored question appears exactly as often as stored; the length is the sum of the sections' question counts |
| Aggregate.LayoutBounds | data_tables/survey.py:31-34 | every slot's block lies within the sections, its section-number tag is that block's section number, and its question is one of that block section's own questions |
| Aggregate.LayoutOrdered | data_tables/survey.py:31-34 | section positions never decrease, and question numbers never decrease inside a section's block |
| Aggregate.LayoutSectionOrder | data_tables/survey.py:29-34 | for sections sorted by number, section numbers never decrease along the layout |
| Aggregate.CanonicalOrder | data_tables/survey.py:29-34 | the canonical order lists the questions of the slots; section numbers never decrease along it, each block is in question-number order, and each slot's question is one of the questions of the section at its block, so smaller-numbered sections' questions come first |
| Aggregate.StorageOrderIrrelevant | data_tables/survey.py:29 | with distinct section keys, the order depends only on which sections exist, not on storage order |
| Aggregate.GetAllStatistics | data_tables/survey.py:37-46 | same length as the canonical order; entry i is the statistics of question i over its answers |
| Workflow.FirstMatch | routes/take_survey.py:64 | `.first()`: the lowest matching id, or none when no row matches |
| Workflow.CurrentResponse | routes/take_survey.py:60-64 | the response found by the session token is an existing row |
| Workflow.SurveyApp.InsertRows | routes/take_survey.py:179-190 | the insert loop appends exactly `SectionRows`: one row per question with a non-empty choice, in storage order, carrying the stripped elaboration; surveys, responses and session are untouched |
| Workflow.SurveyApp.SaveSectionAnswers | routes/take_survey.py:162-193 | tables and session become `SaveSection` of the old state: a fresh response and token when none is given, then the section's answers are replaced |
| Workflow.SurveyApp.ShowSection | routes/take_survey.py:40-159 | the route's new state and page are `ShowSectionStep` of the old state |
| Workflow.SurveyApp.SaveForLaterPost | routes/take_survey.py:70-122 | the `save` branch's new state and page are `SaveForLater` of the old state |
| Workflow.SurveyApp.NavigatePost | routes/take_survey.py:124-150 | the next/previous/submit branch's new state and page are `Navigate` of the old state |
| Workflow.SurveyApp.TakeSurvey | routes/take_survey.py:10-37 | the route's new state and page are `TakeSurveyStep` of the old state |
| Workflow.SurveyApp.ToggleSurvey | routes/admin.py:612-625 | reports whether the survey exists and flips only its active flag |
| WorkflowProperties.SectionRowsShape | routes/take_survey.py:180-191 | every inserted row belongs to the response and to a question of the section, carries the submitted choice and the stripped elaboration |
| WorkflowProperties.SectionRowsCount | routes/take_survey.py:180-191 | with distinct question ids, a question gets one inserted row iff a non-empty choice was submitted for it |
| WorkflowProperties.OneRowPerAnsweredQuestion | routes/take_survey.py:172-191 | after a section save each question of the section has exactly one answer for the response if chosen, else none, and those rows carry the form's values |
| WorkflowProperties.UnaffectedMembers | routes/take_survey.py:173-177 | the bulk delete keeps exactly the rows of other responses or other questions |
| WorkflowProperties.UnaffectedTwice | routes/take_survey.py:173-177 | deleting twice is deleting once |
| WorkflowProperties.OthersUntouched | routes/take_survey.py:173-177 | rows of other responses and of questions outside the section are the same, in the same order, after a section save |
| WorkflowProperties.ReplaceIdempotent | routes/take_survey.py:172-191 | saving the same form twice leaves the same answer table as saving once |
| WorkflowProperties.ElaborationOfSpec | routes/take_survey.py:182-189 | the stored elaboration is none iff the submitted text is all whitespace, else the stripped non-empty infix |
| WorkflowProperties.RouteGuards | routes/take_survey.py:44-55 | an unknown survey, a closed survey or an out-of-range section number gives 404 / home / entry redirect and changes nothing |
| WorkflowProperties.GetChangesNothing | routes/take_survey.py:152-159 | showing a section changes no table and no session key |
| WorkflowProperties.BlankEmailRefused | routes/take_survey.py:70-82 | `save` with an email that is blank after stripping changes nothing and re-renders with the error and no resume link |
| WorkflowProperties.SaveForLaterRecords | routes/take_survey.py:84-122 | `save` records the stripped email on the existing or a new tokened response and in the session, replaces the section's answers, leaves other responses alone and shows the resume link |
| WorkflowProperties.NextAndPrevious | routes/take_survey.py:124-136 | `next`/`previous` save the section and redirect to section ±1 |
| WorkflowProperties.SubmitCompletes | routes/take_survey.py:138-150 | `submit` with a known response marks exactly that response complete, saves the section and removes both resume keys from the session |
| WorkflowProperties.FreshSubmitMakesTwoResponses | routes/take_survey.py:124-170 | `submit` without a token appends an incomplete tokened response holding the answers and a second, complete, answer-less response |
| WorkflowProperties.OtherActionRerenders | routes/take_survey.py:124-159 | any other action saves the section and falls through to the plain section page |
| WorkflowProperties.FindByTokenUnique | routes/take_survey.py:63-64 | with unique tokens the lookup finds the one response holding the token |
| WorkflowProperties.TokenLookupIgnoresSurvey | routes/take_survey.py:60-64 | the section route saves into the response holding the session's token, whatever survey it belongs to |
| WorkflowProperties.TokensStayUnique | routes/take_survey.py:84-170 | with a fresh token, every section request keeps resume tokens unique |
| WorkflowProperties.ResumeSpec | routes/take_survey.py:21-37 | the resume link restores token and email of the first incomplete response of that survey with the token, changes nothing otherwise, and redirects to the section (default 1) |
| WorkflowProperties.SaveThenResume | routes/take_survey.py:84-122 | a save from a fresh session returns a link whose token, in any later session, restores the response and shows its section with the saved email |
| WorkflowProperties.SubmittedLinkExpires | routes/take_survey.py:138-150 | after submit, the old resume link no longer restores a token into the session |
| WorkflowProperties.RepeatedSaveIsIdempotent | routes/take_survey.py:124-131 | posting the same `next` form twice leaves the state of the first post |
| WorkflowProperties.ToggleTwiceRestores | routes/admin.py:619 | toggling twice restores the whole application state |
| WorkflowProperties.DeactivatingCloses | routes/take_survey.py:46-48 | after deactivating an open survey, both respondent routes redirect non-administrators home and change nothing |
| WorkflowProperties.ActivatingOpens | routes/take_survey.py:17-19 | after activating a closed survey, nobody is turned away |
| Admin.ParseQuestions | routes/admin.py:308-326 | the question loop reads `section_s_question_j` for j = 1, 2, … until the first absent key, keeping stripped non-blank texts numbered by j |
| Admin.CreateManualSurvey | routes/admin.py:264-338 | a missing or blank title is refused, zero questions is refused, otherwise the created sections and questions |
| Admin.UpdateSurveyFromForm | routes/admin.py:694-750 | title defaults to the old one, description to empty, every section is rebuilt from the form |
| Admin.QuestionsFromMembers | routes/admin.py:308-326 | a question is kept iff every earlier index is present, its field strips to its non-empty text and its number is its index |
| Admin.QuestionsFromIncreasing | routes/admin.py:308-326 | kept question numbers strictly increase from the first index |
| Admin.CreateIsTidiedUpdate | routes/admin.py:283-328 | creating gives the sections editing would give, minus blank-titled ones, with titles stripped |
| Admin.CreatedSurveySpec | routes/admin.py:267-333 | creation succeeds iff the title is non-blank and some question survives; the title is kept as submitted and section numbers increase |
| Admin.CreatedSectionsShape | routes/admin.py:283-328 | created section numbers strictly increase from the first index and their titles are stripped and non-empty |
| Admin.CreatedSectionsMembers | routes/admin.py:280-328 | a section is created iff every title field up to its index is present and its own title strips to non-empty text; it is numbered by its index and carries the stripped title, the description field (empty when absent) and that index's questions |
| Admin.UpdatedSectionsMembers | routes/admin.py:707-748 | a section is rebuilt iff every title field up to its index is present; it is numbered by its index and carries the title as submitted, the description field (empty when absent) and that index's questions |
| Admin.PassedPlusFailed | routes/admin.py:178-179 | passed plus failed is the number of statistics |
| Admin.ResultsPageStatistics | routes/admin.py:172-179 | the list `get_all_statistics` gives the results page is the statistics list that the pass/fail counts and the report partition are proved about |
| Admin.ComplementTenths | routes/admin.py:379-383 | rounded percentages of part and whole−part add up to 100.0 |
| Admin.YesPlusNo | routes/admin.py:379-383 | whenever there is a Yes/No answer, yes % + no % = 100.0 |
| Admin.CommentsSpec | routes/admin.py:386-390 | comments are exactly the stripped non-empty elaborations, stripped, no more than the answers |
| Admin.CommentsAppend | routes/admin.py:386-390 | comments keep answer order |
| Admin.CommentsTextLength | routes/admin.py:391 | the comments cell is empty without comments, else all comments plus 3 characters per separator |
| Admin.PartitionReport | routes/admin.py:526-553 | the PDF loop builds the failed and passed entry lists in question order |
| Admin.PartitionCounts | routes/admin.py:547-553 | the two lists have the passed and failed counts as lengths, and together hold every question |
| Admin.EntriesMembers | routes/admin.py:529-550 | an entry is in a list iff it is the entry of a question with that pass/fail outcome |
| Admin.EntriesAppend | routes/admin.py:526-553 | the entries of two question lists are the two entry lists one after the other, so each list keeps question order |
| Admin.ExportRows | routes/admin.py:375-402 | one spreadsheet row per question in canonical order, each built by `SlotRow` under the title of the section the question belongs to |
| Admin.RowsOfSlots | routes/admin.py:375-402 | the row loop maps each placed question to its row |
| Admin.EscapeIsPerCharacter | routes/admin.py:583 | the three chained replaces escape each character on its own, so nothing is escaped twice |
| Admin.UnescapeEscape | routes/admin.py:583 | escaping loses nothing: decoding the entities gives back the comment |
| Admin.EscapedHasNoBrackets | routes/admin.py:583 | an escaped comment contains no `<` or `>` |
| Admin.SafeTitleSpec | routes/admin.py:418 | `safe_title` keeps the length and maps exactly ' ' and '/' to '_' |
| Admin.ToggleSpec | routes/admin.py:619 | the flip negates only the active flag and is its own inverse |
| Upload.AfterLastDot | utils/excel_upload.py:56 | `rsplit('.', 1)[1]` is the dot-free text after the last dot |
| Upload.IsExcelFileSpec | utils/excel_upload.py:51-62 | a name passes iff some dot is followed by a dot-free extension that lower-cases to `xlsx` or `xls` |
| Upload.ExcelAccepted | utils/excel_upload.py:56-62 | `Data.XLSX` and `old.Xls` pass |
| Upload.ExcelRejected | utils/excel_upload.py:51-62 | `data.xlsx.zip`, `name.` and a name without a dot fail |
| Upload.ProcessRows | utils/excel_upload.py:24-38 | the row loop yields the kept questions |
| Upload.KeptQuestionsSpec | utils/excel_upload.py:26-36 | a text is kept iff some non-missing cell strips to it and it is neither empty nor `nan`; kept texts are stripped; no more of them than rows |
| Upload.KeptQuestionsAppend | utils/excel_upload.py:24-36 | kept questions follow row order |
| Upload.NumberQuestions | routes/admin.py:144-149 | the enumerate loop numbers the questions 1, 2, 3, … |
| Upload.UploadSpec | routes/admin.py:91-149 | upload succeeds iff a named Excel file yields a question; the survey then has one section "Questions" numbered 1 holding the kept texts numbered from 1, titled "EACTS Consensus Survey" by default |

## Left out

- Flask routing, templates, `flash` messages and URL building are left out. A route's
  outcome is an abstract `Page` value or a `CreateOutcome`/`UploadOutcome` value.
- SQLAlchemy sessions, `flush`/`commit`/`rollback`, exceptions and cascade deletes
  are left out. Tables are in-memory sequences, and a rolled-back creation is a refusal
  outcome.
- Database identifiers are left out. A response's id is its position in the response
  table, and created surveys are drafts without ids.
- `survey_id` and `survey.id` are kept apart. The model allows them to differ; the
  save-then-resume lemma requires they agree.
- Sending the resume e-mail is network I/O. Its result is the `emailSent` parameter.
- `secrets.token_urlsafe` is randomness. Its result is the `newToken` parameter, and
  uniqueness is a precondition where needed.
- openpyxl and reportlab layout, fonts, widths and byte streams are left out. Only the
  values that go into the cells and paragraphs are modelled.
- `pd.read_excel`, saving and removing the temporary file, and `secure_filename` are
  I/O. The first column arrives as a list of cells. A non-text cell is represented by
  the text `str()` gives for it. `pd.read_excel` takes the sheet's first row as the
  column headers, so that row is never a question: the list of cells stands for the
  rows below the header.
- The login route, the `before_request` login check, `logout`, `dashboard`,
  `view_responses`, `delete_survey`, `delete_response` and `edit_survey` are left out.
  They are session or persistence plumbing with no logic of their own.
- The elaboration listing of `view_results` and the `submitted_at` timestamps are
  display-only.
- Races between concurrent requests that share a token are left out.
- `participant_name` is never written by the routes modelled here.
- The column lengths of the schema (`String(10)`, `String(200)`) are not enforced.
- Statistics.CalculateStatistics: `yes_percentage` is the exact ratio rounded half to
  even to a tenth. Python's `round` on a binary float is not modelled. When the exact
  percentage is a half-tenth, the float can lie on either side of it and round the
  other way. For example, 49 Yes out of 80 Yes/No is exactly 61.25. The float
  `(49/80)*100` is 61.25000000000001, which Python rounds to 61.3, while the model gives
  612 tenths (61.2). In the other direction, 23/80 gives 28.749999999999996 and 28.7.
- Admin.YesPlusNo: it holds for exact rounding only. `no_pct` goes through the same
  float `round`, which can land on either side of an exact half-tenth (49 Yes out of 80
  gives 61.3 in Python where the model gives 61.2), so with Python floats the two
  rounded percentages can miss 100.0 by a tenth.
- Text.Lower: only ASCII letters are lower-cased. Python also lower-cases other scripts.
