# Internships SkillFactory bot: data-dependent rules of the handlers

A model of the rules in a Telegram bot for an internship programme that depend on data
rather than being constant text. The bot has these parts:

- the administrator's broadcast wizards: the per-course one in `admin_broadcast.py` and the
  older send-to-everyone one in `admin.py`;
- the paginated and searchable inline keyboards of `inline.py`;
- a user's course-change flow and course event list in `profile.py`;
- the specialization add, rename and delete wizards in `admin_specialization.py` and
  `admin_spec_course.py`;
- the statistics screens of `admin_stats.py`.

How the model stands for the bot's surroundings:

- A read-only query takes its table as a sequence of rows in storage order.
- A table a handler writes is a map field of a class: the specialization table (id to name)
  and the user table (Telegram id to row).
- Each chat's FSM context is a class holding a step enum and one field per draft value.
  Each handler is a method whose `requires` is the state filter aiogram routes by.
- The Telegram transport is a pure parameter `delivered(chat, send)`. It tells whether one
  send to one chat goes through.
- Within one recipient the sends are made in order. The first failure raises, so the later
  sends are not attempted, and the recipient counts once, as a failure.
- Printing and formatting a timestamp are parameters (`dateOf`) or are carried as the raw value.

Modules:

- `Wrappers`: the `Option` type.
- `Strings`: the Python string operations the handlers use, with lemmas about them:
  - `str.isdigit` with `int`/`str`;
  - `replace`, `strip`, `lower`, `split`/`join`;
  - `ilike` as case-insensitive substring;
  - truncation with "...";
  - the `<=` order on strings.
- `Sorting`: a stable insertion sort that stands for `ORDER BY` and `sorted`.
- `Records`: the rows and the lookups on them.
- `Keyboards`, `Broadcast`, `Profile`, `SpecializationAdmin` and `Stats`: one per source file,
  or per pair of closely related files.

## Model

| member | source | states |
|---|---|---|
| Broadcast.CaptionPlan | app/handlers/admin_broadcast.py:105-114 | With no text there is no plan. Otherwise there are one or two sends, carrying the text exactly once. The photo comes first exactly when there is a photo. A caption never exceeds 1024 characters. A text longer than that is sent as a bare photo followed by the text. |
| Broadcast.LegacyPlan | app/handlers/admin.py:65-70 | A photo is sent alone, captioned with the whole text. Without a photo the text alone is sent. With neither there is nothing to send. |
| Broadcast.LegacyPlanAgrees | app/handlers/admin.py:67-70 | When the text is present and within 1024 characters, the two wizards send the same thing. |
| Broadcast.LegacyPlanLongCaption | app/handlers/admin.py:67-68 | With a photo, a text over 1024 characters still becomes the caption: there is no length check. |
| Broadcast.Attempted | app/handlers/admin_broadcast.py:106-119 | The sends tried for one recipient form a prefix of the plan. Every send before the last one went through. The prefix is shorter than the plan only when its last send failed. |
| Broadcast.RecipientOkAttempted | app/handlers/admin_broadcast.py:105-119 | A recipient counts as a success exactly when every send of the plan is attempted and none of them fails. |
| Broadcast.Successes | app/handlers/admin_broadcast.py:104-119 | The success counter counts recipients whose try block completes, and never exceeds the number of recipients. |
| Broadcast.FanOut | app/handlers/admin_broadcast.py:104-119 | `success` and `fail` together count every recipient exactly once. `success` equals the specification count. The transport calls are the call log, recipient after recipient. |
| Broadcast.TryRecipient | app/handlers/admin_broadcast.py:106-119 | The plan's sends for one chat are made in order until the first failure. The method reports whether all of them went through. |
| Broadcast.NoPlanNoCalls | app/handlers/admin_broadcast.py:107-119 | Without a plan no call is made and every recipient fails. |
| Broadcast.CallLogBounds | app/handlers/admin_broadcast.py:105-119 | Each recipient receives at least one and at most plan-length transport calls. |
| Broadcast.AllDelivered | app/handlers/admin_broadcast.py:104-119 | A transport that never fails reaches every recipient with the whole plan, and nobody fails. |
| Broadcast.CallLogChats | app/handlers/admin_broadcast.py:105-119 | The chats in the call log are exactly the recipients. |
| Broadcast.Recipients | app/handlers/admin_broadcast.py:99-102 | A chat is a recipient exactly when some user with that Telegram id is enrolled in a selected course. |
| Broadcast.RecipientsDistinct | app/handlers/admin_broadcast.py:99-102 | Since Telegram ids are unique, no chat is a recipient twice. |
| Broadcast.AllRecipients | app/handlers/admin.py:60-61 | The older wizard's recipients are every user, in table order, with no course filter. |
| Broadcast.CourseOptions | app/handlers/admin_broadcast.py:59-63 | There is one `🎯 name` button per course, in table order, followed by the finish button. |
| Broadcast.CourseOptionRoundTrip | app/handlers/admin_broadcast.py:60-76 | Dropping the first two characters of a course button gives back the course's name. The finish button does not start with the mark. |
| Broadcast.SelectAfter | app/handlers/admin_broadcast.py:74-82 | The selection only grows. At most the named course's id is appended, and only when it is known and not yet selected. |
| Broadcast.SelectAfterDistinct | app/handlers/admin_broadcast.py:78-82 | A duplicate-free selection stays duplicate-free. |
| Broadcast.SelectAfterIdempotent | app/handlers/admin_broadcast.py:78-82 | Choosing the same course twice changes nothing the second time. |
| Broadcast.SelectAfterUnknown | app/handlers/admin_broadcast.py:78-82 | A name that no course carries leaves the selection unchanged. |
| Broadcast.BroadcastSession.Start | app/handlers/admin_broadcast.py:26-29 | Enters the text step from any state and keeps the draft. |
| Broadcast.BroadcastSession.ReceiveText | app/handlers/admin_broadcast.py:32-36 | Stores the message text verbatim and moves to the photo step. |
| Broadcast.BroadcastSession.ReceivePhoto | app/handlers/admin_broadcast.py:39-68 | A photo stores the file id of its last size, and `/skip` stores no photo; both move to course choice with an empty selection. Anything else re-prompts with the state and draft unchanged. |
| Broadcast.BroadcastSession.SelectCourse | app/handlers/admin_broadcast.py:71-83 | The selection becomes `SelectAfter` of the name after the mark. The reply confirms exactly when the selection changed. |
| Broadcast.BroadcastSession.Confirm | app/handlers/admin_broadcast.py:86-124 | An empty selection warns, sends nothing and keeps all state. Otherwise it fans out to the enrolled users, reports the fan-out's counts and clears the wizard. |
| Broadcast.BroadcastSession.Cancel | app/handlers/admin_broadcast.py:127-130 | In the confirmation state, clears the wizard. |
| Broadcast.LegacyBroadcastSession.Start | app/handlers/admin.py:32-35 | Enters the text step. |
| Broadcast.LegacyBroadcastSession.ReceiveText | app/handlers/admin.py:38-42 | Stores the text and moves to the photo step. |
| Broadcast.LegacyBroadcastSession.ReceivePhoto | app/handlers/admin.py:45-77 | A photo, or "нет" in any letter case, sends to every user, reports the counts and clears the wizard. Other text re-prompts and changes nothing. A message with neither photo nor text raises and changes nothing. |
| Keyboards.SpecializationRows | app/keyboards/inline.py:16-27 | There is one row per specialization, in table order. Each row is a single callback button with the specialization's name as its text, and its data starts with the prefix. |
| Keyboards.SpecializationRowsPayloads | app/keyboards/inline.py:16-27 | What follows the prefix in each button's data reads back as that row's specialization id. |
| Keyboards.CoursesOf | app/keyboards/inline.py:37 | A course is listed exactly when it belongs to the specialization. |
| Keyboards.PageSlice | app/keyboards/inline.py:33-39 | OFFSET/LIMIT yields at most `n` rows, the consecutive rows from `start`. The slice is full unless the end is reached, and empty exactly when `start` lies past the end. |
| Keyboards.PageSliceSorted | app/keyboards/inline.py:524-531 | A page of an ordered query is ordered. |
| Keyboards.CoursePage | app/keyboards/inline.py:31-82 | The result is None exactly when page 0 is empty. The page holds at most 4 course rows, row `i` being course `page*4+i`. There is a back button exactly when `page > 0`, encoding `page-1`. There is a forward button exactly when a course exists at `(page+1)*4`, encoding `page+1`. The navigation row is present only when non-empty. |
| Keyboards.CoursePageCovers | app/keyboards/inline.py:33-37 | Course `j` of the specialization appears as row `j % 4` of page `j / 4`. |
| Records.FindFirst | app/handlers/profile.py:153-155 | The result is a row that satisfies the condition, and no earlier row does. There is no result exactly when no row satisfies it. |
| Records.MatchingCourses | app/keyboards/inline.py:519-521 | Without a query every course is kept. With one, exactly the courses whose name contains it case-insensitively. |
| Keyboards.BrowserCoursesSpec | app/keyboards/inline.py:519-524 | The browser's rows are exactly the matching courses, as often as in the table, ordered by name. |
| Keyboards.CourseLabelMarksSelection | app/keyboards/inline.py:533-539 | A label starts with "✅ " followed by the course's name exactly when the course is selected, and always ends with the course's name. |
| Keyboards.Pairs | app/keyboards/inline.py:541 | `adjust(2)` keeps the buttons in order, two to a row. |
| Keyboards.SortedPage | app/keyboards/inline.py:526-531 | The second sort by name leaves the fetched page as it is. |
| Keyboards.BrowserNav | app/keyboards/inline.py:543-563 | There is a back button `bcpage_{page-1}_{query}` exactly when `page > 0`. There is a forward button `bcpage_{page+1}_{query}` exactly when more courses follow. |
| Keyboards.BroadcastCoursesKeyboard | app/keyboards/inline.py:507-576 | Button `i` is course `page*perPage+i` in name order, with its selection label and `bccourse_{id}`. The navigation follows `BrowserNav`. The last row is always search and finish. |
| Keyboards.ProjectDetailsKeyboard | app/keyboards/inline.py:130-176 | An unknown project raises. Otherwise there are six buttons in a fixed order: `about_project_{id}` titled with the project, `benefits_project_{id}`, `examples_project_{id}`, the events link, `available_to_me_project_{id}` and the way back to the list. Each of the four project payloads ends in `_{id}` and its last `_` field reads back as the project id. |
| Profile.ParseChangeSpecRoundTrip | app/handlers/profile.py:93-99 | Every specialization button of the course-change keyboard reads back as its id. |
| Profile.ParseChangeCourseRoundTrip | app/handlers/profile.py:133-137 | Every course button of the course-change keyboard reads back as its id. |
| Profile.ParseChangeCourseRejects | app/handlers/profile.py:133-137 | A payload with a non-digit anywhere after the prefix is refused, provided that remainder holds no `c` (so it cannot hide another copy of the prefix for `replace` to remove). |
| Profile.ParsePageRequest | app/handlers/profile.py:198-204 | A payload without exactly three `_` fields raises. A non-digit field is refused. Otherwise the two numbers are read. |
| Profile.ParsePageRequestRoundTrip | app/handlers/profile.py:198-204 | The `changepage_` parser inverts the encoder of the course-change navigation buttons. |
| Profile.EventsIdRoundTrip | app/handlers/profile.py:214-218 | The profile's events button reads back as the user's course id. |
| Profile.PaginateCourses | app/handlers/profile.py:196-211 | A malformed payload raises and bad numbers are refused. Otherwise the reply is the course-change page the payload names. |
| Profile.PaginateCoursesRoundTrip | app/handlers/profile.py:196-211 | Every navigation button of the course-change keyboard turns to the page it names. |
| Profile.RepromptKeyboardAsWritten | app/handlers/profile.py:114-118 | The re-prompt as written is the registration specialization keyboard. |
| Profile.RepromptAsWrittenUnanswered | app/handlers/profile.py:88-118 | None of that keyboard's buttons starts with `change_spec_`, the only prefix the waiting state accepts. |
| Profile.RepromptKeyboard | app/handlers/profile.py:112-118 | The corrected re-prompt is the course-change specialization keyboard. |
| Profile.RepromptKeyboardAnswered | app/handlers/profile.py:88-99 | Every corrected button starts with `change_spec_` and reads back as its specialization's id. |
| Profile.WithChoice | app/handlers/profile.py:147-151 | Only the specialization and course of the row change, and both change together. |
| Profile.RestoreUndoesChoice | app/handlers/profile.py:175-189 | Writing back the ids captured at the start undoes any choice. |
| Profile.ProfileFlow.StartChange | app/handlers/profile.py:57-78 | Captures the user's current ids when the user exists, and enters the specialization step. |
| Profile.ProfileFlow.ChangeSpecialization | app/handlers/profile.py:88-126 | A non-digit payload is refused with no change. A valid id is recorded. An unknown specialization gets an alert. A specialization with no course re-prompts with the registration keyboard, as written, and stays. Otherwise it shows page 0 and moves to course choice. |
| Profile.ProfileFlow.ChangeCourse | app/handlers/profile.py:129-168 | A non-digit payload is refused with no change. Otherwise the user's specialization and course are written together (an unknown user is untouched) and the flow clears: the step is idle and the captured and chosen ids are discarded. A course id that no row has raises after the write, leaving the step and every stored id as they were. |
| Profile.ProfileFlow.BackToMainMenu | app/handlers/profile.py:171-192 | During course choice, writes back exactly the captured ids. In other states the users are untouched. The flow always ends: the step is idle and the captured and chosen ids are discarded. |
| Profile.ListedOnly | app/handlers/profile.py:228-236 | Exactly the sent, active broadcasts linked to the course are kept. |
| Profile.ListedOnlyRows | app/handlers/profile.py:228-238 | The join does not remove duplicates: a broadcast appears as many times as it occurs in the table times the number of association rows linking it to the course, and not at all when it is not sent or not active. |
| Profile.CourseEventsSpec | app/handlers/profile.py:228-240 | The listed events are exactly those broadcasts, newest first. |
| Profile.CourseEventsRows | app/handlers/profile.py:228-240 | Ordering keeps every joined row: each broadcast is listed as often as the join yields it. |
| Profile.EventText | app/handlers/profile.py:251-259 | The title and the date are joined by ": ", and an empty or missing title is dropped. |
| Profile.EventLabel | app/handlers/profile.py:251-262 | A label never exceeds 53 characters. A title and date that fit in 50 characters are joined unchanged, as is a lone date that fits. A title longer than 50 characters is cut to 50 plus "...". |
| Profile.ViewCourseEvents | app/handlers/profile.py:214-288 | A non-numeric id, an unknown course and a course without events each get their alert. Otherwise there is one button per listed event, newest first, then the back button. |
| SpecializationAdmin.SpecializationTable.Insert | app/handlers/admin_specialization.py:127-132 | Adds exactly one row with the name under a fresh id. |
| SpecializationAdmin.SpecializationTable.Rename | app/handlers/admin_specialization.py:264-267 | Changes only that row's name. |
| SpecializationAdmin.SpecializationTable.Delete | app/handlers/admin_specialization.py:371-373 | Removes only that row. |
| SpecializationAdmin.ExactlyTakenIsTakenIgnoringCase | app/handlers/admin_specialization.py:91-95 | The case-insensitive rule refuses everything that the exact rule refuses. |
| SpecializationAdmin.CaseVariantPassesExactRule | app/handlers/admin_spec_course.py:42-47 | For every table and every stored name without edge blanks whose lower-case spelling no row carries, that spelling passes the exact rule and is refused by the case-insensitive rule. |
| SpecializationAdmin.StoredBlankEscapesCheck | app/handlers/admin_specialization.py:88-105 | For every table and every stored name with an edge blank, that row does not match the name typed without the blanks: the input is refused exactly when another row refuses it. |
| SpecializationAdmin.ParseSelectionRoundTrip | app/handlers/admin_specialization.py:204 | The last `_` field of a selection button reads back as its id. |
| SpecializationAdmin.EditAndDeletePayloads | app/handlers/admin_specialization.py:176-204 | The edit and delete buttons read back as their specialization's id. |
| SpecializationAdmin.SpecializationWizard.StartAdd | app/handlers/admin_specialization.py:76-81 | Enters the name step from any state. |
| SpecializationAdmin.SpecializationWizard.ReceiveName | app/handlers/admin_specialization.py:84-116 | A name whose stripped form is taken (ignoring case) is refused, and the state and table are unchanged. Otherwise the raw text becomes the pending name and the wizard asks for confirmation. |
| SpecializationAdmin.SpecializationWizard.ConfirmAdd | app/handlers/admin_specialization.py:119-137 | Inserts exactly one row with the pending name and clears the wizard. |
| SpecializationAdmin.SpecializationWizard.CancelAdd | app/handlers/admin_specialization.py:140-146 | Writes nothing and clears the wizard. |
| SpecializationAdmin.SpecializationWizard.StartEdit | app/handlers/admin_specialization.py:156-193 | Enters the selection step, even with an empty table. |
| SpecializationAdmin.SpecializationWizard.SelectEdit | app/handlers/admin_specialization.py:197-230 | An unreadable or unknown id keeps the selection step. A known one records the id and the current name and asks for the new name. |
| SpecializationAdmin.SpecializationWizard.ReceiveNewName | app/handlers/admin_specialization.py:234-240 | Keeps the text as typed, with no check, and asks for confirmation. |
| SpecializationAdmin.SpecializationWizard.ConfirmEdit | app/handlers/admin_specialization.py:244-275 | A missing choice or a vanished row clears the wizard without a change. Otherwise only the chosen row is renamed, and only if a new name was given. |
| SpecializationAdmin.SpecializationWizard.CancelEdit | app/handlers/admin_specialization.py:279-286 | Writes nothing and clears the wizard. |
| SpecializationAdmin.SpecializationWizard.StartDelete | app/handlers/admin_specialization.py:297-334 | With an empty table it replies that the list is empty and leaves the state as it was. Otherwise it enters the delete step. |
| SpecializationAdmin.SpecializationWizard.SelectDelete | app/handlers/admin_specialization.py:337-359 | An unreadable id raises. An unknown one keeps the state. A known one records the id and name and asks for confirmation. |
| SpecializationAdmin.SpecializationWizard.ConfirmDelete | app/handlers/admin_specialization.py:362-387 | Removes only the chosen row if it is still there; otherwise the table is unchanged. The wizard clears either way. |
| SpecializationAdmin.SpecializationWizard.CancelDelete | app/handlers/admin_specialization.py:390-402 | Writes nothing and clears the wizard. |
| SpecializationAdmin.SpecializationNameForm.Start | app/handlers/admin_spec_course.py:31-34 | Enters the name step. |
| SpecializationAdmin.SpecializationNameForm.Save | app/handlers/admin_spec_course.py:37-55 | The input is stripped. A name already present exactly is refused, and the state and table are unchanged. Otherwise exactly one row with the stripped name is inserted and the form clears. |
| Stats.UserCount | app/handlers/admin_stats.py:154-157 | The count is the number of users whose course is this one, and is 0 exactly when no user has it. |
| Stats.CourseStatsSpec | app/handlers/admin_stats.py:153-170 | Every matching course is listed with its exact count, zero included, and nothing else is. The rows are the matching courses' rows as a multiset. Rows are ordered by name when `sort_by` is "name" and by count descending otherwise. Without a search every course is listed. |
| Stats.MatchingEverything | app/handlers/admin_stats.py:159-160 | A missing or empty query filters nothing. |
| Stats.StatsSearch.StartSearch | app/handlers/admin_stats.py:240-244 | Enters the search step. |
| Stats.StatsSearch.ProcessSearch | app/handlers/admin_stats.py:247-291 | An empty result replies with the error and stays in the search step. Otherwise it replies with the per-course counts and clears. |
| Stats.SearchEmptyWhenNothingMatches | app/handlers/admin_stats.py:247-254 | The search is empty exactly when the query filters and no course name contains it. |
| Stats.LatestMailingsSpec | app/handlers/admin_stats.py:358-363 | At most five broadcasts are listed, all from the table and newest first. No broadcast left out is newer than a listed one. |
| Stats.ShortText | app/handlers/admin_stats.py:393 | A text of 125 characters or fewer is unchanged. Otherwise the result is its first 125 characters plus "...". |
| Stats.FormatCoursesLines | app/handlers/admin_stats.py:396-403 | With no courses the list is "Нет курсов". Otherwise it splits on newlines into one line per course, line `i` being `{i+1}) ` followed by the name. |
| Stats.LinkedCourseNames | app/handlers/admin_stats.py:374-381 | A name is listed exactly when a course with it is linked to the broadcast. |
| Stats.RecipientsCount | app/handlers/admin_stats.py:384-389 | The count is zero exactly when no user is on a course linked to the broadcast. |
| Stats.RecipientsCountPerUser | app/handlers/admin_stats.py:384-389 | The join's count equals the sum over users of the number of the broadcast's links that name the user's course. |
| Stats.RecipientsCountDistinct | app/handlers/admin_stats.py:384-389 | When the broadcast's links name distinct courses, the count is the number of users whose course is one of them. |
| Stats.MailingsStatistics | app/handlers/admin_stats.py:349-412 | The total is the number of broadcasts. There is one block per recent broadcast, in order, each with its course list, recipient count and short text. |
| Stats.CourseNameOf | app/handlers/admin_stats.py:302-304 | The outer join gives "" for a user without a course or with an unknown one, and otherwise the course's name. |
| Stats.ExportRowsSpec | app/handlers/admin_stats.py:297-316 | There is one row per user, in ascending id order. A missing name, username or course becomes "". |
| Strings.ParseNatToString | app/handlers/profile.py:94-99 | `int` of `str(n)` is `n`, and `isdigit` accepts it. |
| Strings.Strip | app/handlers/admin_spec_course.py:39 | Removes exactly the leading and trailing blanks. |
| Strings.SplitJoin | app/handlers/profile.py:198 | Splitting a join gives back the parts when none holds the separator. |
| Strings.LastSegmentAfter | app/handlers/profile.py:218 | The last `_` field is what follows the last separator. |
| Strings.Ellipsize | app/handlers/profile.py:262 | Text within the limit is unchanged. Otherwise it is cut to the limit plus "...". |
| Sorting.SortBySorted | app/keyboards/inline.py:524 | Sorting yields an ordered permutation of its input. |
| Sorting.SortBySortedInput | app/keyboards/inline.py:531 | Sorting an already ordered sequence changes nothing, because the sort is stable. |

## Left out

- The Telegram transport is a parameter. Only one outcome per send is modelled: no message text, HTML, retries or delivery.
- `async`/`await`, the aiogram dispatcher, middleware and FSM storage are not modelled. Each handler is one atomic method, and the state filter of its route is its `requires`.
- The text of replies and alerts is not modelled. Replies are a datatype naming the outcome and the data shown.
- Only the broadcast and keyboard rules that depend on data are modelled. The static menus of `inline.py` and `reply.py` are constant UI.
- `ilike` is modelled as case-insensitive substring (`%q%`) or equality. Its `%` and `_` wildcards are not interpreted.
- `LowerChar` lowers only A–Z, the Latin-1 capitals U+00C0–U+00DE (not U+00D7) and the Cyrillic capitals U+0400–U+042F. Python's `str.lower()` and the database's `ILIKE` lower every cased script (Greek, Latin Extended and others), and `lower()` can even change a string's length ('İ' becomes two characters). So `ToLower`, `EqualsIgnoreCase`, `ContainsIgnoreCase`, and through them the course search, the statistics search and the duplicate-name rules, treat other capitals as distinct from their lower-case forms.
- `scalar_one_or_none` raising on several matching rows is not modelled. The first matching row is used.
- Transactions and rollbacks are not modelled.
- Course ids are treated as the primary key: the model keeps one statistics row per course row.
- `str.isdigit` accepts only ASCII digits in the model. Python also accepts other Unicode digits.
- `int()`'s tolerance of surrounding blanks and a sign is not modelled.
- Timestamps are opaque integers. `strftime` is the `dateOf` parameter, and the summary carries the raw value.
- `Stats.MailingsStatistics` returns each block's data, not the HTML text of the block.
- The Excel file is not modelled: pandas, column widths and document sending. Only its rows are.
- `show_users_statistics`, its totals and its headings, and the screen menus of `admin_stats.py` are not modelled.
- The admin router's chat-type and admin filters are not modelled.
- In the admin wizards, a message without text (a sticker, say) raises on `.strip()`. Those wizards take the text as a plain string and do not model that case.
- `main.py` includes only the user-group, admin, profile and start routers. The routers of `admin_broadcast.py`, `admin_specialization.py`, `admin_spec_course.py` and `admin_stats.py` are never included, so of the two broadcast wizards only the one in `admin.py` is reachable. Each file's handlers are modelled as written, as if their router were included.
- `ORDER BY name` is modelled as code-point order on names (`StrLe`). The database orders by its collation. Ties keep table order through the stable sort, while SQL leaves them in no fixed order, so a tied course may land on another page than the model says.
- Rows of the course link table are not assumed unique. The course names, the recipient counts and the events list follow the join over every link row.
- `cancel_broadcast` is reached only from the confirmation state, which no handler of `admin_broadcast.py` enters. It is modelled as written.
- `database/models.py` does not declare the course, specialization, project or broadcast tables. The records hold only the columns the handlers use.

## Findings

| source | as written | input that shows it | evidently intended | confidence | as-written member | corrected member |
|---|---|---|---|---|---|---|
| app/handlers/profile.py:114-118 | When the chosen specialization has no course, the user is asked again with `specialization_keyboard`. Its buttons call back `spec_{id}`, but the flow stays in `waiting_for_specialization`, whose handler only accepts `change_spec_` callbacks. | Any specialization without courses, then pressing any button of the re-prompt: no handler in the flow answers it. | Re-prompt with `change_specialization_keyboard`, whose buttons the waiting handler accepts. | not executed | Profile.RepromptAsWrittenUnanswered | Profile.RepromptKeyboardAnswered |
