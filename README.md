# Homework bot core, modelled in Dafny

This project models the logic at the core of a Telegram bot (`bot_test.py`). The bot keeps a student's timetable and homework in their Google Calendar. Homework lives in a calendar event's description. The teacher's notes come first. Then come an optional group segment and an optional personal segment, each introduced by a configured tag. The event's summary carries a title tag while the event has homework.

The model covers:

- **Homework description engine** (`Homework`, `Merge`, `Event`):
  - `extract_homework_part`;
  - the in-memory half of `save_homework_to_event`: split the description, replace one segment, reassemble it in canonical order, de-duplicate attachments by `fileId`, and re-decide the title tag;
  - the event is a `CalendarEvent` class whose method rewrites its fields in place.
- **Parsers and chunkers** (`Dates`, `Pages`, `Messages`):
  - the `DD.MM` answer of the date handlers, checked as `datetime.date` checks it;
  - the page list of `summary_get_pages`;
  - `split_message`.
- **Lesson matching** (`Lessons`, `Dates`):
  - the two subject regular expressions, `^(.*?)\s*\(` and `^(.*?)\s\(`;
  - the first event of a subject and colour;
  - the subject menu of `get_hw_text` and the button mapping of `choose_hw_subject`;
  - the odd/even week of the semester.
- **Stateful pieces:**
  - the `DD.MM` step of the homework and file dialogs (`DateStep`);
  - calendar request batching in runs of 50 (`Batching`);
  - seminar reminders de-duplicated through `bot_data['scheduled_reminders']` (`Reminders`);
  - the group-homework fan-out `update_group_homework_blocking` and its accounting (`Fanout`);
  - the homework conversation's transition table (`Wizard`, over the states in `States`).
- **Python `str` operations** the rest is built on, with CPython's meaning (`Text`): `find`, `rfind`, `in`, `split`, `strip`, `lstrip`, `rstrip`, `replace(t, "")`, `join` and `int()`.

**Inputs the model takes as parameters.** Google Calendar, Drive and Telegram are outside the model, and so is `config.py`:

- the three tags (`Homework.Tags`);
- the colour map;
- the events a calendar lists;
- whether an update call goes through;
- the current year and instant.

**Assumptions about the tags** (`Homework.ValidTags`):

- each tag is non-empty;
- the two description tags are distinct, and neither occurs inside the other;
- no two tag occurrences can overlap;
- no tag contains a line break;
- no tag starts with whitespace.

Segment bodies are assumed to hold no tag (`Homework.TagFree`). A description is `Homework.WellFormed` when it is laid out the way the bot writes descriptions.

**What is not claimed.** The bot does not preserve descriptions byte for byte: a kept group segment keeps its trailing blank line, and another blank line goes in front of the next tag. So preservation is stated on extracted segments and stripped notes, not on raw strings.

The description engine, and everything that saves through it, splits descriptions the corrected way described under "## Findings". On a description whose personal tag follows its group tag, the code as written drops the teacher notes, so the notes are kept only in the corrected model.

## Model

| member | source | states |
|---|---|---|
| Text.FindFrom | bot_test.py:749 | `s.find(t, i)`: -1 exactly when `t` occurs nowhere at or after `i`; otherwise an occurrence with none between `i` and it |
| Text.Find | bot_test.py:749 | `s.find(t)`: -1 exactly when `t` never occurs; otherwise the first occurrence |
| Text.RFind | bot_test.py:2571 | `s.rfind(t, 0, end)`: -1 exactly when no occurrence fits in `s[:end]`; otherwise the last one that does |
| Text.LStrip | bot_test.py:2580 | `lstrip()` result is empty or starts with a non-space |
| Text.RStrip | bot_test.py:692 | `rstrip()` result is empty or ends with a non-space |
| Text.Strip | bot_test.py:756-759 | `strip()` result is no longer than the input, has no surrounding whitespace, and is empty exactly when the input is all whitespace |
| Text.StripSlice | bot_test.py:756-759 | what `strip()` keeps is a slice of the input with only whitespace cut on both sides |
| Text.StripIdempotent | bot_test.py:697 | stripping twice is stripping once |
| Text.RemoveAll | bot_test.py:713 | `replace(t, "")` never lengthens the text and leaves text without `t` unchanged |
| Text.SplitAll | bot_test.py:2486 | `split(sep)` gives at least one part; the parts hold no `sep` and joined with `sep` give the input back |
| Text.SplitAllJoin | bot_test.py:2486 | splitting a join on a one-character separator gives the parts back |
| Text.ParseIntOfNatToString | bot_test.py:792 | `int(str(n)) == n` |
| Homework.SplitOnce | bot_test.py:677 | `split(sep, 1)` when `sep` occurs: the text before the first `sep`, which holds no `sep`, and the text after it |
| Homework.EarliestOther | bot_test.py:743-753 | the running minimum of `extract_homework_part` is -1 exactly when no other tag occurs; otherwise it is the position of some other tag and no later than any of them |
| Homework.EarliestOtherIsFind | bot_test.py:741-753 | with the two configured tags, the running minimum is `find` of the other tag |
| Homework.ExtractBody | bot_test.py:736-756 | the raw text after the first target tag never contains the other tag |
| Homework.Extract | bot_test.py:726-759 | `""` without the target tag; the result never contains the other tag and has no surrounding whitespace |
| Homework.ExtractBodyIs | bot_test.py:736-759 | the raw text is what follows the first target tag, up to the first later occurrence of the other tag or to the end |
| Homework.ExtractTail | bot_test.py:757-759 | without a later other tag, the stripped rest of the description |
| Homework.ExtractUpTo | bot_test.py:755-756 | with a later other tag, the stripped text between the two tags |
| Homework.GroupHalves | bot_test.py:676-679 | the first split: before and after the first group tag, or the whole description and `""` |
| Homework.AsWrittenDropsOnlyTeacher | bot_test.py:676-685 | the split as written differs from the intended one only in the branch where the personal tag follows the group tag, and there only by empty teacher notes |
| Homework.SplitNoGroupIs | bot_test.py:678-685 | without a group tag: no group segment; the notes and the personal segment are cut at the first personal tag |
| Homework.SplitPersonalFirstIs | bot_test.py:680-681 | a personal tag before the group tag: notes before it, personal segment between the two tags, group segment after the group tag |
| Homework.SplitGroupOnlyIs | bot_test.py:676-685 | a group tag and no personal tag: notes before the group tag, group segment after it |
| Homework.SplitGroupThenPersonalIs | bot_test.py:682-683 | the personal tag after the group tag: group segment between the tags, personal segment after the personal tag |
| Homework.PersonalBeforeGroupEnd | bot_test.py:676-681 | a personal tag starting before the end of the first group tag lies wholly in the text before it |
| Homework.ExtractSplit | bot_test.py:676-759 | on a well-formed description, extracting either tag gives the stripped segment the split finds for it |
| Merge.AssembleRoundTrip | bot_test.py:692-697 | splitting an assembled description gives back every part up to surrounding whitespace; a tag is present exactly when its segment is non-blank; group comes before personal |
| Merge.NewSegmentFacts | bot_test.py:687-690 | the stored body `"\n" + text` (or nothing) strips back to the stripped text and stays tag-free |
| Merge.MergeSelected | bot_test.py:672-697 | after a merge, extracting the selected segment gives the stripped new text, and its tag is present exactly when that text is non-blank |
| Merge.MergeKeepsOther | bot_test.py:674-696 | a merge leaves the other segment's extracted text unchanged |
| Merge.MergeKeepsNotes | bot_test.py:674-697 | a merge keeps the stripped teacher notes, yields a well-formed description, and keeps group before personal |
| Merge.MergePersonalIntoNotes | bot_test.py:687-697 | personal text merged into bare notes gives notes, a blank line, the personal tag, a line break and the text |
| Merge.MergeTrimmed | bot_test.py:687-697 | the same for non-empty notes and text without surrounding whitespace |
| Merge.MergeExample | bot_test.py:687-697 | personal `"read ch.3"` merged into `"Lecturer: Smith"` gives `"Lecturer: Smith\n\n" + tag + "\nread ch.3"` |
| Merge.AsWrittenSplitOfFullLayout | bot_test.py:680-685 | a description holding notes, a group segment and a personal segment is split by the code as written with the notes emptied |
| Merge.AsWrittenMergeLosesNotes | bot_test.py:680-697 | merging into such a description as written loses the non-blank teacher notes, while the intended merge keeps them |
| Event.AddAttachmentKeeps | bot_test.py:699-711 | without data the list is unchanged; with data the list exists and holds the `fileId`, the old attachments stay first in order, and one is added exactly when the `fileId` is new |
| Event.AddAttachmentIdempotent | bot_test.py:706-709 | saving the same attachment twice equals saving it once |
| Event.AddAttachmentUnique | bot_test.py:706-709 | the attachment step keeps `fileId`s unique |
| Event.NewSummaryMarks | bot_test.py:713-717 | the saved summary carries the title tag exactly when the event has homework, its base is unchanged, and a second save only re-decides the tag |
| Event.MergeProperties | bot_test.py:672-697 | the merge guarantees gathered, with the corrected split of the Findings row: selected segment, other segment, notes, well-formedness |
| Event.CalendarEvent.constructor | bot_test.py:670-671 | an event with the given description, summary and attachments |
| Event.CalendarEvent.SaveHomework | bot_test.py:667-717 | the new description, attachments and summary are the merge, the attachment step and the re-decided title; on a well-formed description the selected segment extracts to the stripped text and the other segment is kept, and with the corrected split of the Findings row so are the notes |
| Event.CalendarEvent.ReplaceSegment | bot_test.py:674-697 | the description step alone, with the corrected split of the Findings row; summary and attachments unchanged |
| Event.CalendarEvent.RecordAttachment | bot_test.py:699-711 | the attachment step alone; description and summary unchanged |
| Event.CalendarEvent.RetagSummary | bot_test.py:713-717 | the summary step alone; description and attachments unchanged |
| Messages.CutPoint | bot_test.py:2571-2577 | the cut lies within `size`, and falls on whitespace unless it is `size` itself |
| Messages.CutAtParagraph | bot_test.py:2571 | with a paragraph break in the window, the cut is at the last one that fits |
| Messages.CutAtLine | bot_test.py:2572-2573 | with no paragraph break but a line break in the window, the cut is at the last line break |
| Messages.CutAtSpace | bot_test.py:2574-2575 | with no line break but a space in the window, the cut is at the last space |
| Messages.CutAtSize | bot_test.py:2576-2577 | with neither, the cut is at `size` |
| Messages.Chunks | bot_test.py:2570-2582 | the chunk sequence the loop builds: the text up to `CutPoint`, then the chunks of the rest with its leading whitespace stripped; a text that fits is the last chunk; never empty |
| Messages.ChunksFit | bot_test.py:2563-2583 | every chunk fits `size`, and the chunks read back to the text, losing only the whitespace stripped at the cuts |
| Messages.SplitMessage | bot_test.py:2563-2583 | the loop ends and returns exactly `Chunks(text, size)`, each chunk but the last cut at `CutPoint`; a short text is one chunk; every chunk fits `size`, and the chunks read back to the text, losing only the whitespace stripped at the cuts |
| Messages.ReassemblesKeepsVisible | bot_test.py:2579-2582 | chunks that read back to the text hold the same non-whitespace characters in the same order |
| Pages.Range | bot_test.py:2493 | `range(a, b)` has `b - a` elements (none when `a > b`), counting up from `a` |
| Pages.SortedUnique | bot_test.py:2499 | `sorted(list(set(xs)))` is ascending and holds exactly the elements of `xs` |
| Pages.IncreasingUnique | bot_test.py:2499 | an ascending list is determined by its elements, so `SortedUnique` is the only such result |
| Pages.PartPagesNatural | bot_test.py:2488-2496 | an accepted part names at least one page and no negative page |
| Pages.PartOfNumber | bot_test.py:2494-2496 | `str(n)` is accepted as the page `n` |
| Pages.PartOfRange | bot_test.py:2488-2493 | `a-b` names the pages `a` to `b` when `a <= b` and is rejected otherwise |
| Pages.PartOfNegative | bot_test.py:2488-2490 | a negative number is rejected, because its minus sign makes it a range with an empty start |
| Pages.Parts | bot_test.py:2486 | splitting at commas always gives at least one part |
| Pages.CollectRejectsIff | bot_test.py:2487-2496 | collecting fails exactly when some part is rejected |
| Pages.PagesOfRejects | bot_test.py:2484-2508 | the input is rejected exactly when some stripped part is |
| Pages.PagesOfMember | bot_test.py:2484-2499 | an accepted list holds exactly the pages some part names |
| Pages.PagesOfAccepted | bot_test.py:2484-2502 | an accepted list is ascending, duplicate-free, never empty, never negative, and holds exactly the named pages |
| Pages.ParsePages | bot_test.py:2484-2508 | the parsing loop, stopping at the first rejected part, returns the pages the input names, or the rejection |
| Pages.PagesRoundTrip | bot_test.py:2511-2512 | the confirmation text `", ".join(map(str, pages))` parses back to the pages it shows |
| Pages.SummaryRequest.constructor | bot_test.py:2511-2512 | a request with no stored pages |
| Pages.SummaryRequest.GetPages | bot_test.py:2478-2524 | a rejected input keeps the stored entries and stays in `GET_PAGE_NUMBERS`; an accepted one stores the pages and their rendering and moves to `CONFIRM_SUMMARY_GENERATION` |
| Dates.DaysInMonth | bot_test.py:906 | a month has 28 to 31 days |
| Dates.ParseDayMonth | bot_test.py:905-906 | a parsed date is a valid date of the given year |
| Dates.DayMonthRoundTrip | bot_test.py:905-909 | `DD.MM` typed for a real date gives that date; typed for a day the month does not have, it is rejected |
| Dates.NoThirtyFirstOfFebruary | bot_test.py:905-909 | `31.02` is rejected in every year |
| Dates.LeapDay | bot_test.py:905-906 | `29.02` is accepted exactly in leap years |
| Dates.YearLength | bot_test.py:374-376 | a year has 366 days exactly when it is a leap year |
| Dates.SemesterStartsFirst | bot_test.py:371-373 | every date falls on or after the first day of its semester |
| Dates.WeeksNonNegative | bot_test.py:374-376 | the week count is never negative and is the whole weeks between the two Mondays |
| Dates.FirstWeekOdd | bot_test.py:371-377 | the semester's first day is in an odd week |
| Dates.SameWeekSameKind | bot_test.py:374-377 | days of one Monday-to-Sunday week have the same kind |
| Dates.WeeksAlternate | bot_test.py:374-377 | within a semester, the date a week later is in a week of the other kind |
| Lessons.SpacedParenMatchIsLazy | bot_test.py:871 | the match of `^(.*?)\s*\(` is the shortest group 1 can be, and there is none exactly when no group can end anywhere |
| Lessons.SubjectSpaced | bot_test.py:871-872 | the subject read with `^(.*?)\s*\(` has no surrounding whitespace |
| Lessons.SpaceParenMatchIsLazy | bot_test.py:925 | the match of `^(.*?)\s\(` is the shortest group 1 can be, and there is none exactly when no group can end anywhere |
| Lessons.SubjectSingle | bot_test.py:925-926 | the subject read with `^(.*?)\s\(` has no surrounding whitespace |
| Lessons.SubjectsAgree | bot_test.py:871-926 | where `^(.*?)\s\(` matches so does `^(.*?)\s*\(`, and the two subjects agree unless the one-space subject holds a `(` |
| Lessons.SubjectOfSummary | bot_test.py:871-926 | a summary `subject (kind)` yields `subject` under both patterns |
| Lessons.IndexOf | bot_test.py:871 | the first `(` at or after `i`, or -1 when there is none |
| Lessons.FirstLessonIsFirst | bot_test.py:1098-1105 | the first-match search finds a lesson of the subject and colour with none before it, and finds nothing exactly when there is none |
| Lessons.FindLesson | bot_test.py:1098-1105 | the loop that stops at the first matching event returns the first-match index |
| Lessons.StrLessTransitive | bot_test.py:773 | Python's `<` on strings is transitive |
| Lessons.StrLessTotal | bot_test.py:773 | Python's `<` on strings orders any two different strings |
| Lessons.InsertStr | bot_test.py:777-778 | inserting into a sorted list keeps it sorted and adds exactly that element |
| Lessons.SortedSet | bot_test.py:773 | `sorted(list(set(xs)))` of strings is strictly ascending and holds exactly the elements of `xs` |
| Lessons.SubjectsMenuContents | bot_test.py:773-778 | the menu is sorted, offers every schedule subject plus the lab entry exactly when the theory course is scheduled, and repeats nothing unless the lab entry is itself a subject |
| Lessons.ChooseButton | bot_test.py:782-805 | pressing button `i` selects entry `i`, whatever the data's prefix |
| Lessons.ChosenSubjectScheduled | bot_test.py:792-805 | a selection names a schedule subject unless the lab entry is itself a subject; only the lab entry selects lab work, and then for the theory course |
| Lessons.ChooseSubjectPicks | bot_test.py:792-793 | every selection comes from some menu entry |
| Lessons.PickFrom | bot_test.py:793-805 | a successful pick reads a menu entry |
| DateStep.Outcome | bot_test.py:904-935 | a found lesson is the day's first event of the subject and colour |
| DateStep.StaysOrEnds | bot_test.py:896-961 | the step either keeps the dialog at the date question or ends it; it stays exactly when the user is authorized and the text is not a date or the day has no matching lesson; the homework and file handlers agree on this |
| DateStep.ThirtyFirstOfFebruaryAsksAgain | bot_test.py:904-909 | `31.02` keeps an authorized user at the date question whatever the calendar holds |
| DateStep.TitledLessonChosen | bot_test.py:922-935 | on a real date, an event titled `subject (…)` in the lesson type's colour is chosen when it is the day's first event |
| DateStep.UserData.constructor | bot_test.py:911-912 | the dialog's stored homework text, subject and lesson type |
| DateStep.UserData.Clear | bot_test.py:960 | `user_data.clear()` leaves no key |
| DateStep.UserData.ManualDateForHomework | bot_test.py:896-961 | the returned state is the step's outcome; asking again leaves the user data alone; ending clears it; an event is saved exactly when a lesson was found and there is homework text, and it is that lesson with the text in its personal segment, written with the corrected split of the Findings row |
| DateStep.SaveCopy | bot_test.py:950-951 | the found event is copied and given the personal homework text as `save_homework_to_event` writes it with the corrected split of the Findings row |
| Wizard.FirstMatchIsFirst | bot_test.py:2977-3051 | the handler picked belongs to the first route whose filter accepts the update, and nothing is picked exactly when no filter accepts it |
| Wizard.DispatchIsFirstMatch | bot_test.py:2977-3051 | dispatch tries the entry points outside the dialog, and inside it the state's handlers and then the fallbacks |
| Wizard.NoCommandRoute | bot_test.py:2982-3050 | no state's handler takes a bot command |
| Wizard.RoutesOrdinary | bot_test.py:2982-3050 | no state's filter takes a command or the `main_menu` callback |
| Wizard.StartAlwaysLeaves | bot_test.py:3051 | inside the dialog `/start` always reaches its fallback |
| Wizard.MainMenuAlwaysLeaves | bot_test.py:2942 | inside the dialog the main-menu button always reaches its fallback |
| Wizard.IdleIgnoresMessages | bot_test.py:2978-2981 | outside the dialog a text message or an upload starts nothing |
| Wizard.DateQuestionReadsText | bot_test.py:2998-3007 | while the dialog waits for a date, every plain text goes to the date handler |
| Batching.ChunksFlatten | bot_test.py:393-409 | the batches laid end to end are the requests in order |
| Batching.ChunksSizes | bot_test.py:396-403 | no batch is empty, every batch but the last holds exactly 50, and there are `ceil(n / 50)` batches |
| Batching.ChunksOfFull | bot_test.py:396-409 | full batches followed by a shorter remainder are the batches of what they hold |
| Batching.Batch.constructor | bot_test.py:515-516 | an empty open batch and nothing executed |
| Batching.Batch.Add | bot_test.py:518-528 | adding keeps the open batch below 50, executes it when it reaches 50, and loses no request |
| Batching.Batch.Finish | bot_test.py:530-533 | the partly filled batch is executed if it holds anything |
| Batching.SendAll | bot_test.py:515-533 | the executed batches are the runs of 50 of the requests, the last holding what is left |
| Reminders.SeminarsNextUser | bot_test.py:2839-2862 | gathering one more user adds that user's seminars, or nothing when their calendar did not answer |
| Reminders.GatherSeminars | bot_test.py:2837-2865 | the set holds every seminar with an end time listed for a user whose calendar answered |
| Reminders.GatherUser | bot_test.py:2850-2862 | the inner loop keeps the events of the seminar colour that have an end `dateTime` |
| Reminders.ReminderSubject | bot_test.py:2874-2875 | the reminder's subject has no surrounding whitespace |
| Reminders.ReminderSubjectOf | bot_test.py:2874-2875 | a summary `subject (room)` is reminded of by `subject`; one the pattern misses by itself, stripped |
| Reminders.ReminderBook.constructor | bot_test.py:2821-2822 | no job queued and no key remembered |
| Reminders.ReminderBook.Queue | bot_test.py:2877-2883 | the job is queued and its name remembered |
| Reminders.ReminderBook.Consider | bot_test.py:2869-2883 | a seminar is queued when it is due and its key is not remembered yet; otherwise nothing changes |
| Reminders.ReminderBook.ScheduleAll | bot_test.py:2868-2883 | the queue only grows and never holds a name twice; afterwards every due key is remembered; each new job is for a due seminar not remembered before; a second run queues nothing |
| Fanout.Found | bot_test.py:1697-1704 | the found event is the first of the subject and colour; none is found exactly when the subject is missing or no event matches |
| Fanout.Outcomes | bot_test.py:1674-1725 | one outcome per user, in the order of `user_ids` |
| Fanout.TallyAccounts | bot_test.py:1719-1725 | every user is counted once, as updated, failed or not found, and one event is sent per update |
| Fanout.TallyFailed | bot_test.py:1677-1678 | an id is in `failed_users` exactly when that user failed |
| Fanout.TallySent | bot_test.py:1715-1719 | an event is sent exactly when it is some user's update |
| Fanout.GroupEditLands | bot_test.py:1706-1719 | the update went through and keeps the colour; on a well-formed description the group homework reads as the final text and the personal homework is kept, and with the corrected split of the Findings row so are the notes |
| Fanout.DeleteTextClears | bot_test.py:1708 | deleting the text leaves no group tag and no group homework |
| Fanout.AttachmentOnlyKeepsText | bot_test.py:1708-1709 | changing only the attachment re-saves the group homework as it was |
| Fanout.DeleteAttachmentKeepsAttachments | bot_test.py:1712-1718 | deleting the attachment removes none: the updated event keeps its attachments |
| Fanout.NewAttachmentRecorded | bot_test.py:1712-1718 | a new attachment is among the updated event's attachments, the old ones kept |
| Fanout.EmptyAttachmentListFails | bot_test.py:1712-1725 | an empty attachment list raises `IndexError`, and the user is reported as failed |
| Fanout.UpdateUser | bot_test.py:1675-1725 | the loop body's outcome for one user, the description rewritten with the corrected split of the Findings row |
| Fanout.UpdateGroup | bot_test.py:1674-1727 | `updated_count`, `failed_users` and the events sent are the tally of every user's outcome, in order |

## Left out

- Google Calendar, Drive and Telegram traffic is not modelled. The listed events, the answer of `get_calendar_service`, and whether an update goes through are inputs. The update is the returned record or the new state of the event object.
- Replies, keyboards, `main_menu`, logging and the `job_queue` timer are not modelled. They are output only.
- `datetime.date.today()`, `datetime.now()` and time zones are parameters: a year, an instant, or a given `Moment`. `fromisoformat` is not modelled.
- `config.py` is not part of this model. The tags and the colour map are parameters.
- `int()` accepts surrounding whitespace, one sign and ASCII digits only. It does not accept underscores or non-ASCII digits.
- Regex `\s` is modelled as `str.isspace()` on a single character.
- `datetime.date` raises `OverflowError`, which the handlers do not catch, for a huge day or month. The model rejects such a date instead.
- Dates.WeeksIntoSemester: requires a semester start in year 1 or later, because `datetime.date` has no year 0.
- Messages.SplitMessage: requires `size >= 1`. With `chunk_size` 0 the loop in the source does not end on text that starts with a non-space.
- Homework.ValidTags: assumes more of the tags than non-empty and distinct. Occurrences cannot overlap, and no tag holds a line break or starts with whitespace. Without this, a tag could be formed across the blank line that joins two segments.
- Merge.MergeKeepsNotes: states preservation on stripped notes and extracted segments, not on the raw description. Blank lines accumulate, so a byte-for-byte repeat does not hold.
- Event.MergeProperties: models the corrected split of the Findings row, so it promises kept notes. On a description whose personal tag follows its group tag, the layout the bot writes once both segments exist, the code as written (bot_test.py:682-683) writes the description back without the teacher notes, as Merge.AsWrittenMergeLosesNotes shows.
- Event.CalendarEvent.SaveHomework: models the corrected split of the Findings row, so it promises kept notes. On a description whose personal tag follows its group tag, the layout the bot writes once both segments exist, the code as written (bot_test.py:682-683) writes the description back without the teacher notes, as Merge.AsWrittenMergeLosesNotes shows.
- Event.CalendarEvent.ReplaceSegment: models the corrected split of the Findings row, so the notes survive the rewrite. On a description whose personal tag follows its group tag, the layout the bot writes once both segments exist, the code as written (bot_test.py:682-683) writes the description back without the teacher notes, as Merge.AsWrittenMergeLosesNotes shows.
- DateStep.UserData.ManualDateForHomework: saves with the corrected split of the Findings row, so the saved event keeps its notes. On a description whose personal tag follows its group tag, the layout the bot writes once both segments exist, the code as written (bot_test.py:682-683) writes the description back without the teacher notes, as Merge.AsWrittenMergeLosesNotes shows.
- DateStep.SaveCopy: writes with the corrected split of the Findings row, so the copy keeps its notes. On a description whose personal tag follows its group tag, the layout the bot writes once both segments exist, the code as written (bot_test.py:682-683) writes the description back without the teacher notes, as Merge.AsWrittenMergeLosesNotes shows.
- Fanout.GroupEditLands: models the corrected split of the Findings row, so it promises kept notes. On a description whose personal tag follows its group tag, the layout the bot writes once both segments exist, the code as written (bot_test.py:682-683) writes the description back without the teacher notes, as Merge.AsWrittenMergeLosesNotes shows.
- Fanout.UpdateUser: rewrites with the corrected split of the Findings row, so the notes survive the update. On a description whose personal tag follows its group tag, the layout the bot writes once both segments exist, the code as written (bot_test.py:682-683) writes the description back without the teacher notes, as Merge.AsWrittenMergeLosesNotes shows.
- The `is_editing` branch of `get_manual_date_for_hw` (bot_test.py:937-948) is not modelled. It returns a state that is never defined.
- The shadowed first `edit_group_hw_get_date` is not modelled, and neither is `find_and_update_or_delete_group_hw_blocking`, which is called but defined nowhere.
- The file-saving step `save_file_to_event_logic`, with its Drive upload, is not modelled. `DateStep.FileNext` takes its result to end the dialog.
- The no-service branch of `get_manual_date_for_file` ends the dialog without clearing `user_data`. Only the returned state is modelled for the file handler.
- Exceptions other than the ones named in the contracts are not modelled. In the fan-out, a failing update call is the `accepted` flag, and a failing listing is `ListFailed`.
- The scan of the token directory for `user_ids` is not modelled. The users are an input.
- `failed_users` holds `str(user_id)`, but the model keeps the integer ids.
- The fan-out is given the lesson colour directly. It does not look the colour up from the class type.
- The conversation table keeps only the filters it uses: text, upload, exact callback and callback prefix. Telegram's command detection is an input field of the update, and python-telegram-bot's per-chat bookkeeping is not modelled.
- Only the homework conversation's table is modelled. The other conversations are not.
- A seminar without a `summary` is treated as having an empty summary. `re.search` on `None` would raise.
- Batch callbacks and the execution errors they log are not modelled. The model records which requests went into which executed batch.
- Reminders.ReminderBook.ScheduleAll: the set of seminars is visited in some unspecified order, as Python iterates it. The contracts hold for every order.

## Findings

| source | as written | input that shows it | evidently intended | confidence | as-written member | corrected member |
|---|---|---|---|---|---|---|
| bot_test.py:680-685 | when the personal tag is found only after the group tag (the `elif` branch), `teacher_part` keeps its initial `""`, so the teacher notes are dropped when the description is rewritten | a description `notes + "\n\n" + GROUP_TAG + "g" + "\n\n" + PERSONAL_TAG + "p"` with non-blank `notes`, saved with any new text | the notes before the group tag are kept (`teacher_part = main_part`), as in the other two branches | not executed | Merge.AsWrittenMergeLosesNotes | Merge.MergeKeepsNotes |
