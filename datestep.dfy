/**
 * The `DD.MM` step of the homework and file dialogs: `get_manual_date_for_hw` and
 * `get_manual_date_for_file`. The typed date is parsed, the day's lesson of the chosen
 * subject and type is looked up, and the dialog either asks again or ends.
 */
module DateStep {
  import opened Wrappers
  import opened Text
  import opened Homework
  import opened Merge
  import opened Event
  import opened Lessons
  import opened Dates
  import States

  /** What the date step found, before any reply is sent. */
  datatype DateOutcome =
    | NotAuthorized          // `get_calendar_service` gave nothing
    | BadDate                // the text is not a `DD.MM` date of this year
    | NoLesson               // no event of that day matches subject and colour
    | LessonAt(index: nat)   // the first matching event of that day

  /** `config.COLOR_MAP.get(user_data.get('hw_type', 'Семинар'))`. */
  function ColorOf(colors: map<string, string>, lessonType: Option<string>): Option<string> {
    var t := lessonType.GetOr(Seminar);
    if t in colors then Some(colors[t]) else None
  }

  /**
   * The branch the date step takes on the parsed date (`None` when the text is not a
   * date). `dayEvents` are the events the calendar lists for that date; a missing subject matches no event, since a subject read from a
   * summary is always a string.
   */
  function Outcome(authorized: bool, date: Option<Date>, dayEvents: seq<EventRecord>,
                   subject: Option<string>, lessonType: Option<string>, colors: map<string, string>): (r: DateOutcome)
    ensures r.LessonAt? ==>
      && r.index < |dayEvents| && subject.Some?
      && IsLesson(dayEvents[r.index], OneSpaceBeforeParen, subject.value, ColorOf(colors, lessonType))
      && forall j :: 0 <= j < r.index ==> !IsLesson(dayEvents[j], OneSpaceBeforeParen, subject.value, ColorOf(colors, lessonType))
  {
    if !authorized then NotAuthorized
    else if date.None? then BadDate
    else
      match subject
      case None => NoLesson
      case Some(s) =>
        var color := ColorOf(colors, lessonType);
        FirstLessonIsFirst(dayEvents, OneSpaceBeforeParen, s, color, 0);
        match FirstLesson(dayEvents, OneSpaceBeforeParen, s, color, 0)
        case None => NoLesson
        case Some(i) => LessonAt(i)
  }

  /**
   * The state `get_manual_date_for_hw` returns: it asks again after a bad date or a day
   * without the lesson, and ends the dialog otherwise (after saving, after the failed
   * authorization, and after the error raised by a missing homework text).
   */
  function HomeworkNext(o: DateOutcome): States.State {
    match o
    case BadDate => States.ChooseHwDateOption
    case NoLesson => States.ChooseHwDateOption
    case _ => States.End
  }

  /** The state `get_manual_date_for_file` returns; a found lesson is handed to the file-saving step, which ends the dialog. */
  function FileNext(o: DateOutcome): States.State {
    match o
    case BadDate => States.ChooseDateForFile
    case NoLesson => States.ChooseDateForFile
    case _ => States.End
  }

  /**
   * The date step keeps the dialog where it is exactly when the user is authorized and
   * the text is not a date of this year or that day holds no matching lesson; in every
   * other case it ends the dialog.
   */
  lemma StaysOrEnds(authorized: bool, date: Option<Date>, dayEvents: seq<EventRecord>,
                    subject: Option<string>, lessonType: Option<string>, colors: map<string, string>)
    ensures var o := Outcome(authorized, date, dayEvents, subject, lessonType, colors);
      && (HomeworkNext(o) == States.ChooseHwDateOption || HomeworkNext(o) == States.End)
      && (HomeworkNext(o) == States.ChooseHwDateOption <==> FileNext(o) == States.ChooseDateForFile)
      && (HomeworkNext(o) == States.ChooseHwDateOption <==>
           authorized && (date.None? || subject.None? ||
             forall j :: 0 <= j < |dayEvents| ==> !IsLesson(dayEvents[j], OneSpaceBeforeParen, subject.value, ColorOf(colors, lessonType))))
  {
    var o := Outcome(authorized, date, dayEvents, subject, lessonType, colors);
    assert HomeworkNext(o) == States.ChooseHwDateOption <==> o.BadDate? || o.NoLesson?;
    assert FileNext(o) == States.ChooseDateForFile <==> o.BadDate? || o.NoLesson?;
    if authorized && date.Some? && subject.Some? {
      var color := ColorOf(colors, lessonType);
      FirstLessonIsFirst(dayEvents, OneSpaceBeforeParen, subject.value, color, 0);
      assert o.NoLesson? <==> FirstLesson(dayEvents, OneSpaceBeforeParen, subject.value, color, 0).None?;
    }
  }

  /** `31.02` keeps an authorized user at the date question whatever the calendar holds. */
  lemma ThirtyFirstOfFebruaryAsksAgain(year: int, dayEvents: seq<EventRecord>,
                                        subject: Option<string>, lessonType: Option<string>, colors: map<string, string>)
    requires MinYear <= year <= MaxYear
    ensures HomeworkNext(Outcome(true, ParseDayMonth(TwoDigits(31) + "." + TwoDigits(2), year), dayEvents, subject, lessonType, colors))
      == States.ChooseHwDateOption
  {
    NoThirtyFirstOfFebruary(year);
  }

  /**
   * On a real date, an event titled `subject (…)` in the colour of the lesson type is
   * chosen when it is the day's first event.
   */
  lemma TitledLessonChosen(date: Date, dayEvents: seq<EventRecord>, subject: string, rest: string,
                           lessonType: Option<string>, colors: map<string, string>)
    requires subject != "" && Strip(subject) == subject
    requires forall q :: 0 <= q < |subject| ==> subject[q] != Paren && subject[q] != LineFeed
    requires |dayEvents| > 0 && dayEvents[0].summary == subject + " (" + rest
    requires dayEvents[0].colorId == ColorOf(colors, lessonType)
    ensures Outcome(true, Some(date), dayEvents, Some(subject), lessonType, colors) == LessonAt(0)
  {
    var color := ColorOf(colors, lessonType);
    TitledIsLesson(dayEvents[0], subject, rest, color);
    FirstLessonStep(dayEvents, OneSpaceBeforeParen, subject, color, 0, true);
  }

  /** An event titled `subject (…)` in colour `color` is a lesson of `subject` for the one-space pattern. */
  lemma TitledIsLesson(e: EventRecord, subject: string, rest: string, color: Option<string>)
    requires subject != "" && Strip(subject) == subject
    requires forall q :: 0 <= q < |subject| ==> subject[q] != Paren && subject[q] != LineFeed
    requires e.summary == subject + " (" + rest && e.colorId == color
    ensures IsLesson(e, OneSpaceBeforeParen, subject, color)
  {
    SubjectOfSummary(subject, rest);
  }

  // ---------------------------------------------------------------------------
  // `context.user_data`

  /** The keys of `context.user_data` the homework dialog fills before the date step. */
  class UserData {
    var homeworkText: Option<string>
    var subject: Option<string>
    var lessonType: Option<string>

    constructor (homeworkText: Option<string>, subject: Option<string>, lessonType: Option<string>)
      ensures this.homeworkText == homeworkText && this.subject == subject && this.lessonType == lessonType
    {
      this.homeworkText := homeworkText;
      this.subject := subject;
      this.lessonType := lessonType;
    }

    /** `context.user_data` holds none of the keys. */
    predicate Empty()
      reads this
    {
      homeworkText.None? && subject.None? && lessonType.None?
    }

    /** `context.user_data.clear()`. */
    method Clear()
      modifies this
      ensures Empty()
    {
      homeworkText, subject, lessonType := None, None, None;
    }

    /**
     * `get_manual_date_for_hw` (not editing): on the first matching lesson of the day the
     * homework text goes into the personal segment of a copy of that event, which is
     * returned as the update to send; the user data is cleared whenever the dialog ends
     * and untouched when it asks again.
     */
    method ManualDateForHomework(authorized: bool, input: string, year: int, dayEvents: seq<EventRecord>,
                                 tags: Tags, colors: map<string, string>) returns (next: States.State, saved: Option<CalendarEvent>)
      requires ValidTags(tags)
      modifies this
      ensures var o := Outcome(authorized, ParseDayMonth(input, year), dayEvents, old(subject), old(lessonType), colors);
        && next == HomeworkNext(o)
        && (next == States.ChooseHwDateOption ==>
              homeworkText == old(homeworkText) && subject == old(subject) && lessonType == old(lessonType))
        && (next == States.End ==> Empty())
        && (saved.Some? <==> o.LessonAt? && old(homeworkText).Some?)
      ensures saved.Some? ==>
        var o := Outcome(authorized, ParseDayMonth(input, year), dayEvents, old(subject), old(lessonType), colors);
        fresh(saved.value) && SavedAs(saved.value, dayEvents[o.index], tags, old(homeworkText).value)
    {
      var date := ParseDayMonth(input, year);
      var o := Outcome(authorized, date, dayEvents, subject, lessonType, colors);
      next, saved := HomeworkNext(o), None;
      if next == States.ChooseHwDateOption {
        return;
      }
      var text := homeworkText;
      Clear();
      // Without a homework text, `homework_text.strip()` raises before the event is touched.
      if o.LessonAt? && text.Some? {
        var event := SaveCopy(dayEvents[o.index], tags, text.value);
        saved := Some(event);
      }
    }
  }

  /**
   * `event` holds what `save_homework_to_event` writes into the listed event `e` for a
   * personal `text` without attachment: the merged description, the attachments as they
   * were, the re-decided title tag; on a well-formed description the personal segment
   * now reads as the stripped text and the group segment is kept.
   */
  predicate SavedAs(event: CalendarEvent, e: EventRecord, tags: Tags, text: string)
    requires ValidTags(tags)
    reads event
  {
    && event.description == MergeDescription(tags, e.description, Personal, text)
    && event.attachments == e.attachments
    && event.summary == NewSummary(e.summary, tags.title,
         HasHomework(Replace(SplitDescription(tags, e.description), Personal, text), e.attachments))
    && (WellFormed(tags, e.description) && TagFree(tags, text) ==>
          && Extract(tags, event.description, Personal) == Strip(text)
          && Extract(tags, event.description, Group) == Extract(tags, e.description, Group))
  }

  /** The listed event copied into a `CalendarEvent` and given the personal homework `text`. */
  method SaveCopy(e: EventRecord, tags: Tags, text: string) returns (event: CalendarEvent)
    requires ValidTags(tags)
    ensures fresh(event) && SavedAs(event, e, tags, text)
  {
    event := new CalendarEvent(e.description, e.summary, e.attachments);
    event.SaveHomework(tags, text, Personal, None);
  }
}
