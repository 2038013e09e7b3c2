# Smart Study Planner — a verified model

The Smart Study Planner has two halves:

- A React front end (`src/App.js`, component `StudyPlanner`). The user edits a list of subjects, each with a name, an exam date and a list of chapter inputs, and enters the hours they can study each day. On "Generate Study Plan" the component cleans and validates the form before posting it. It then shows the returned timetable with its dates in ascending order, and each task's hours as `hr` or `hrs`.
- A Flask back end (`app.py`, `create_plan`). It spreads the chapters of every subject over the days before the exam, `chapters_per_day` at a time, starting tomorrow.

The model has these modules:

- `Form` (form.dfy): the form state as values. A `Subject` datatype, one pure transition per edit handler (`Apply` over an `Edit` datatype), the button guards (`Enabled`), and the invariant those guards keep (`WellFormed`: at least one subject, at least one chapter input each).
- `StudyPlanner` (planner.dfy): class `Planner`, whose fields are the component's state (`subjects`, `dailyHours`, `schedule`, `error`). Its methods perform the handlers in place. Each method's contract ties the new state to the `Form` transition, so the `Form` lemmas apply to every call.
- `Submission` (submission.dfy): the clean-and-validate part of `submitPlan`. It is the filter / map / filter chain `Clean` and the two-step `Validate`, with the exact error texts.
- `ScheduleView` (schedule_view.dfy): `sortedDates` and the `hr`/`hrs` label.
- `Scheduler` (scheduler.dfy): `create_plan` as a method with the same nested loop and the same mutable `day` and `chapter_index` counters. It is proved equal to a closed-form plan `Plan`, in which entry `k` falls on day `k / chapters_per_day + 1`.
- `PlanFacts` (plan_facts.dfy): what that closed form guarantees. It covers the length of the plan, its grouping and labels, the first day, day order, day capacity and filled days.
- Supporting modules:
  - `Text` (text.dfy): trimming, over the JavaScript `trim` and Python `strip` whitespace sets, and decimal rendering.
  - `Seqs` (seqs.dfy): `filter`, `map` and delete-by-position.
  - `Results` (results.dfy): `Option` and `Result`.

Dates on the back end are whole-day offsets from today (today is 0; tomorrow is 1). The number of days left is an input.

Front-end dates are `YYYY-MM-DD` strings, which are full-dates as defined in section 5.6 of RFC 3339. Section 5.1 of RFC 3339 notes that such strings sort by date when sorted as strings. So `sortedDates`, which compares `new Date(a) - new Date(b)`, is modelled as a lexicographic sort.

The guards that stop the last subject or the last chapter from being removed are the `disabled` attributes of the buttons (`src/App.js:263`, `src/App.js:307`). They are not checks inside the handlers. So `removeSubject` and `removeChapter` accept any position. The guard appears as `Form.Enabled`, and as the condition under which `Planner.RemoveSubject` and `Planner.RemoveChapter` keep the form well formed.

## Model

| member | source | states |
|---|---|---|
| Form.InitialSubjects | src/App.js:6-8 | the form starts with exactly one subject, with an empty name and today's date, and it is well formed |
| Form.WithField | src/App.js:14-18 | editing a subject field changes only that field of that subject; the count, the other field, the chapters and every other subject are unchanged |
| Form.WithChapter | src/App.js:20-24 | editing a chapter changes only that chapter input; the other chapters keep their positions and values, and every other subject is unchanged |
| Form.WithSubjectAdded | src/App.js:26-31 | adding a subject appends exactly one `{name: "", exam_date: today, chapters: [""]}` and keeps the existing subjects in order |
| Form.WithChapterAdded | src/App.js:37-41 | adding a chapter appends one blank input to that subject only; its earlier chapters and the other subjects are unchanged |
| Form.WithoutChapter | src/App.js:43-49 | removing a chapter drops exactly that position from that subject, shifting the later chapters left; other subjects, the name and the date are unchanged |
| Form.Enabled | src/App.js:260-263 | the remove-subject button is enabled only for an existing row while more than one subject is listed, and the remove-chapter button (`src/App.js:305-307`) only for an existing chapter while its subject has more than one; every other control is enabled whenever its row exists |
| Form.Apply | src/App.js:14-49 | dispatches each edit to its handler's transition; adding a subject raises the count by one, removing one at an existing position lowers it by one, and every other handler keeps the number of subjects |
| Form.Click | src/App.js:260-263 | a click on an enabled control runs its handler and one on a disabled control leaves the list as it was; a well-formed form stays well formed |
| Form.Run | src/App.js:14-49 | the list after a sequence of clicks, one after the other; what it keeps is stated by `Form.RunPreservesWellFormed` |
| Form.ApplyPreservesWellFormed | src/App.js:14-49 | every handler reached through an enabled control keeps at least one subject and at least one chapter input per subject |
| Form.RemoveSubjectCount | src/App.js:33-35 | removing a subject through its enabled button lowers the count by exactly one and never below one |
| Form.RunPreservesWellFormed | src/App.js:14-49 | any sequence of clicks keeps the form well formed; disabled controls do nothing |
| Form.ReachableWellFormed | src/App.js:6-8 | every form reachable from the initial one has at least one subject and at least one chapter input per subject |
| Seqs.RemoveAt | src/App.js:34 | `filter((_, i) => i !== index)`: an out-of-range position changes nothing; an in-range one is removed and the later elements shift left |
| Seqs.Filter | src/App.js:57 | the filtered list keeps exactly the elements that satisfy the predicate, and is no longer than the input |
| Seqs.FilterConcat | src/App.js:57 | filtering distributes over concatenation, so relative order is kept |
| Seqs.FilterKeepsAll | src/App.js:63 | filtering a list whose elements all pass returns it unchanged |
| Seqs.Map | src/App.js:58-62 | `map` keeps the length and applies the function at every position |
| Seqs.MapConcat | src/App.js:58-62 | `map` distributes over concatenation |
| Text.Trim | src/App.js:59 | the trimmed string is empty exactly when the input is all whitespace, and otherwise starts and ends with a non-whitespace character |
| Text.TrimIsInfix | src/App.js:59 | the trimmed string is the part of the input between a whitespace prefix and a whitespace suffix |
| Text.TrimStartSpec | src/App.js:59 | dropping leading whitespace leaves the longest suffix that does not start with whitespace |
| Text.TrimEndSpec | src/App.js:59 | dropping trailing whitespace leaves the longest prefix that does not end with whitespace |
| Text.TrimIdempotent | src/App.js:59 | trimming twice is trimming once |
| Text.JsWhiteSpace | src/App.js:57 | the characters `String.prototype.trim` removes: the ECMAScript WhiteSpace and LineTerminator code points |
| Text.PyWhiteSpace | app.py:30 | the characters `str.strip()` with no argument removes: the code points Python's `str.isspace` accepts |
| Text.JsTrim | src/App.js:57-61 | `trim()` is `Text.Trim` over the JavaScript whitespace set, so its contract and lemmas apply to `s.name.trim()` and `c.trim()` |
| Text.PyStrip | app.py:30 | `strip()` is `Text.Trim` over the Python whitespace set, so its contract and lemmas apply to `subject.strip()` |
| Text.Decimal | app.py:31 | the f-string rendering of a number is a non-empty digit string, with no leading zero unless the number is 0, whose value is that number |
| Text.DecimalInjective | app.py:31 | different numbers render differently |
| Submission.Clean | src/App.js:56-63 | the cleaned list is no longer than the input, and every subject in it has a trimmed non-empty name, a non-empty date and only non-blank chapters, at least one |
| Submission.HasNameAndDate | src/App.js:57 | the first filter: the trimmed name is not empty and the exam date is not empty |
| Submission.IsNonBlank | src/App.js:61 | a chapter input is kept when it is not empty after trimming |
| Submission.Normalised | src/App.js:58-62 | the map step: the name is trimmed, the date kept, and the chapters are exactly the non-blank ones of the input, none added |
| Submission.HasChapters | src/App.js:63 | the last filter: at least one chapter is left |
| Submission.NormalisedSubmittable | src/App.js:58-62 | a subject that passes both filters is, after the map step, in the form a payload requires |
| Submission.CleanSingle | src/App.js:56-63 | a single subject is kept, normalised, exactly when its name is not blank, its date is not empty and one of its chapters is not blank |
| Submission.CleanConcat | src/App.js:56-63 | cleaning distributes over concatenation, so survivors keep their input order |
| Submission.CleanIsSurvivorsNormalised | src/App.js:56-63 | the three-step chain equals keeping the surviving subjects in input order and normalising each |
| Submission.CleanEmpty | src/App.js:56-65 | the cleaned list is empty exactly when no subject survives |
| Submission.CleanFixesSubmittable | src/App.js:56-63 | a list of subjects already in payload form is left unchanged by cleaning |
| Submission.CleanIdempotent | src/App.js:56-63 | cleaning a cleaned list returns it unchanged |
| Submission.Validate | src/App.js:65-72 | on success the payload is the cleaned list, non-empty and in payload form, with the given positive hours; on failure the message is one of the two texts |
| Submission.ValidateNoSurvivor | src/App.js:65-68 | with no surviving subject the subject message is reported, whatever the hours: the subject check comes first |
| Submission.ValidateBadHours | src/App.js:69-72 | with a surviving subject, missing, zero or negative hours give the hours message |
| Submission.ValidateAccepts | src/App.js:65-72 | with a surviving subject and positive hours the payload is the survivors, normalised and in order, with those hours |
| Submission.ValidateExample | src/App.js:56-72 | a subject with one real and one blank chapter is submitted with its real chapter only |
| Submission.ExampleSubject | src/App.js:58-62 | the example subject survives and loses its blank chapter |
| ScheduleView.Less | src/App.js:100 | the comparator `new Date(a) - new Date(b) < 0` on full-dates, as the lexicographic order of the strings; its order properties are the three lemmas below |
| ScheduleView.LessIrreflexive | src/App.js:100 | no date sorts before itself |
| ScheduleView.LessTransitive | src/App.js:100 | the date order is transitive |
| ScheduleView.LessTotal | src/App.js:100 | any two different dates are ordered one way or the other |
| ScheduleView.MinimumExists | src/App.js:100 | every non-empty set of dates has an earliest one |
| ScheduleView.SortedDates | src/App.js:99-101 | no schedule gives no dates; otherwise every date of the schedule appears once, in ascending order, and nothing else |
| ScheduleView.AscendingUnique | src/App.js:99-101 | two ascending lists of the same dates are equal, so the displayed order is fully determined |
| ScheduleView.SortedDatesExample | src/App.js:99-101 | three dates given out of order come out in calendar order |
| ScheduleView.HourUnit | src/App.js:359 | the label is `hrs` exactly when the hours exceed 1, and `hr` otherwise |
| Scheduler.FloorDiv | app.py:18 | Python's `//`: the quotient rounded towards negative infinity, for either sign of divisor |
| Scheduler.ChaptersPerDay | app.py:18 | `chapters_per_day` is at least 1, and is either 1 or `total // days_left` |
| Scheduler.Sum | app.py:17 | `sum(chapters)`, added up from the left; `Scheduler.EntriesBeforeIsSum` ties it to the entry count |
| Scheduler.EntriesBeforeIsSum | app.py:17 | with no negative counts, the first `n` subjects produce `sum(chapters[:n])` entries |
| Scheduler.SubjectSlots | app.py:25 | `range(chapters[i])` runs `chapters[i]` times, or not at all for a negative count |
| Scheduler.Slots | app.py:24-25 | the subjects in order produce as many entries as their chapter counts allow |
| Scheduler.ChapterLabel | app.py:31 | the label `Chapter ` followed by the decimal rendering of the chapter number; `Scheduler.ChapterLabelInjective` shows no two chapters share one |
| Scheduler.ChapterLabelInjective | app.py:31 | different chapter numbers get different `Chapter n` labels |
| Scheduler.Entries | app.py:26-32 | the closed form has one entry per slot |
| Scheduler.Plan | app.py:24-33 | the closed-form plan: the entries of all listed subjects in order, one per chapter their counts allow |
| Scheduler.CreatePlan | app.py:16-33 | no days left raises `ZeroDivisionError`; fewer counts than subjects raise `IndexError`; otherwise the result is the closed-form plan with `chapters_per_day` from the total of all counts |
| Scheduler.SchedulePlan | app.py:23-33 | the outer loop builds the closed-form plan, or raises `IndexError` at the first subject without a count |
| Scheduler.ScheduleSubject | app.py:25-33 | one subject's inner loop appends exactly that subject's entries, and the day counter stays equal to the days begun so far |
| Scheduler.LoopStep | app.py:26-33 | one iteration appends the next chapter's entry on the day the counter moves to |
| Scheduler.DaysStarted | app.py:26-27 | the `day` counter after `n` entries, stepping at each index that is a multiple of `chapters_per_day`: never more than `n`, and at least 1 once an entry exists |
| Scheduler.DaysStartedClosed | app.py:26-27 | after `n` entries the day counter equals `n` divided by `chapters_per_day`, rounded up |
| Scheduler.DayStep | app.py:26-27 | the counter moves on exactly when the chapter index is a multiple of `chapters_per_day`, and then reaches `index // chapters_per_day + 1` |
| PlanFacts.PlanLength | app.py:24-33 | with no negative counts and at least as many counts as subjects, the plan has `sum(chapters[:len(subjects)])` entries |
| PlanFacts.PlanEntry | app.py:24-31 | chapter `c+1` of subject `i` is entry `EntriesBefore(i) + c`: grouped by subject in input order, labelled `Chapter 1` onwards, with the subject name stripped |
| PlanFacts.PlanIgnoresExtraCounts | app.py:24-25 | chapter counts beyond the last subject add no entries; they only count towards the total |
| PlanFacts.FirstDayTomorrow | app.py:21-27 | the first entry is scheduled tomorrow |
| PlanFacts.DaysInOrder | app.py:26-27 | days never go backwards, and consecutive entries are at most one day apart |
| PlanFacts.DayCapacity | app.py:26-27 | no day holds more than `chapters_per_day` entries |
| PlanFacts.DaysFilled | app.py:26-27 | every day but the last holds exactly `chapters_per_day` entries |
| PlanFacts.LastDay | app.py:26-33 | the last entry falls on the day the loop's counter ends on |
| PlanFacts.OverrunExample | app.py:18 | as written, 5 chapters with 3 days left give 1 chapter a day and a last entry on day 5, after the exam |
| PlanFacts.FittedChaptersPerDay | app.py:18 | rounding `total / days_left` up gives at least 1 chapter a day, and enough that `days_left` days hold every chapter |
| PlanFacts.FittedPlanEndsByExam | app.py:18-33 | with the rounded-up rate and no negative counts, every entry falls between tomorrow and the exam day |
| StudyPlanner.Planner.constructor | src/App.js:6-12 | the component starts with one blank subject dated today, 4 daily hours, no schedule and no error |
| StudyPlanner.Planner.HandleSubjectChange | src/App.js:14-18 | the subject list becomes `WithField` of the old one; the other state is unchanged and the form stays well formed |
| StudyPlanner.Planner.HandleChapterChange | src/App.js:20-24 | the subject list becomes `WithChapter` of the old one; the other state is unchanged and the form stays well formed |
| StudyPlanner.Planner.AddSubject | src/App.js:26-31 | the subject list becomes `WithSubjectAdded` of the old one; the other state is unchanged and the form stays well formed |
| StudyPlanner.Planner.RemoveSubject | src/App.js:33-35 | the subject list loses the chosen position; when the button is enabled the form stays well formed |
| StudyPlanner.Planner.AddChapter | src/App.js:37-41 | the subject list becomes `WithChapterAdded` of the old one; the other state is unchanged and the form stays well formed |
| StudyPlanner.Planner.RemoveChapter | src/App.js:43-49 | the subject list becomes `WithoutChapter` of the old one; when the button is enabled the form stays well formed |
| StudyPlanner.Planner.SetDailyHours | src/App.js:253 | only the daily hours change |
| StudyPlanner.Planner.Submit | src/App.js:51-72 | the schedule is cleared; on a validation failure the error shows that message and nothing is sent; otherwise the error is cleared and the request is the validated payload |

## Left out

- Network submission is not modelled (`src/App.js:74-95`). This covers the `fetch` call, JSON encoding, response handling, the server and connection error messages, and the `loading` flag. It is asynchronous I/O, so `Planner.Submit` ends where the request would be sent, and `schedule` is never set by the model.
- Rendering is not modelled: the JSX markup and the CSS (`src/App.js:103-370`). Only the two display rules, the date order and the hour label, are kept.
- The Flask glue is not modelled: routing, CORS, `request.json`, `jsonify` and `app.run` (`app.py:1-10`, `app.py:35-38`).
- Clocks and date libraries are replaced by values:
  - `todayStr` (`src/App.js:3`) is the constructor's `today` string.
  - `datetime.today()`, `strptime` and `strftime` (`app.py:13`, `16`, `21`, `29`) are replaced by whole-day offsets, with the days left as an input.
  - Because `datetime.today()` includes the time of day, the real `days_left` is one less than the calendar difference. An exam tomorrow therefore already gives 0 days left. This is outside the model.
- Comma-string parsing is not modelled: `split(',')` and `int(...)` (`app.py:11-12`). `Scheduler.CreatePlan` takes the parsed lists. `daily_hours` is parsed but never used by the loop.
- `Planner.SetDailyHours` does not model fractional daily hours: `+e.target.value` (`src/App.js:253`) yields a floating-point number, and the model keeps an optional integer. An empty or invalid number field reads as `""`, and `+""` is 0, so that input is `Some(0)`. `None` stands only for `NaN` or `undefined`, which this input does not produce. `HourUnit` takes a real.
- `Text.Trim` does not model lone UTF-16 surrogates or Python's treatment of non-BMP code points. The whitespace sets are the listed code points of the two languages.
- The model treats the form state as values, so object aliasing is not captured. The edit handlers copy only the outer array and then mutate the inner subject objects, which React's previous state shares (`src/App.js:16`, `22`, `39`, `45`).
- `Form.WithField`, `Form.WithChapterAdded` and `Form.WithoutChapter` require an existing subject position, and so do `Planner.HandleSubjectChange`, `Planner.AddChapter` and `Planner.RemoveChapter`. For a position outside the list, `handleSubjectChange`, `addChapter` and `removeChapter` throw a `TypeError` (`src/App.js:16`, `39`, `45`); the rendered rows never pass one.
- `Planner.HandleChapterChange` requires an existing chapter position. JavaScript would extend the array for a position at or past its end, but the rendered inputs never pass one.
- The front end and the back end do not share a contract: the payload posted to `/api/schedule` is not what `/plan` reads. The two halves are modelled separately.
- `ScheduleView.SortedDates` does not model the `Date` comparator on malformed date strings, which gives `NaN`. Keys are assumed to be well-formed full-dates.
- `ScheduleView.SortedDates` specifies the result of `sort` rather than its algorithm, which is the JavaScript engine's.
- `Scheduler.ScheduleSubject` computes `subject.strip()` once per subject rather than once per chapter. The value is the same on every iteration.

## Findings

| source | as written | input that shows it | evidently intended | confidence | as-written member | corrected member |
|---|---|---|---|---|---|---|
| app.py:18 | `chapters_per_day = max(1, total_chapters // days_left)` rounds down, so the plan can continue past the exam date | one subject with 5 chapters and 3 days left: 1 chapter a day, last entry on day 5 | rounding up, `max(1, ceil(total_chapters / days_left))`, so every entry falls on or before the exam day | medium, not executed | PlanFacts.OverrunExample | PlanFacts.FittedPlanEndsByExam |
