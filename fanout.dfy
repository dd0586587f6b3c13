/**
 * `update_group_homework_blocking`: a group homework edit fanned out to every user
 * with a token. For each user the day's lesson of the subject and colour is looked
 * up; when found, its group segment and attachment are rewritten and the event is
 * sent back. Each user ends up updated, failed or not found, and the caller learns
 * the number updated and the ids that failed.
 */
module Fanout {
  import opened Wrappers
  import opened Text
  import opened Homework
  import opened Merge
  import opened Event
  import opened Lessons

  /** The keyword arguments `new_text`, `delete_text`, `new_attachment`, `delete_attachment`. */
  datatype Change = Change(newText: Option<string>, deleteText: bool, newAttachment: Option<Attachment>, deleteAttachment: bool)

  /** What is looked for: the subject, the colour `config.COLOR_MAP.get(class_type)`, and the change. */
  datatype Request = Request(subject: Option<string>, color: Option<string>, change: Change)

  /**
   * One user's calendar: no service, a listing that raised, or the listed events and
   * whether the `events().update` call goes through.
   */
  datatype UserCalendar = NoService | ListFailed | Listed(events: seq<EventRecord>, accepted: bool)

  datatype User = User(id: int, calendar: UserCalendar)

  /** Where a user ends up: updated with the event sent, in `failed_users`, or only logged as not found. */
  datatype UserResult = Updated(event: EventRecord) | Failed | NotFound

  /** `final_attachment`, or `NoFirst` when `attachments` is an empty list and `[0]` raises. */
  datatype AttachmentChoice = Chosen(data: Option<Attachment>) | NoFirst

  /** `final_text`: empty when deleting, the new text when given, else the event's current group homework. */
  function FinalText(tags: Tags, c: Change, e: EventRecord): string
    requires ValidTags(tags)
  {
    if c.deleteText then ""
    else if c.newText.Some? then c.newText.value
    else Extract(tags, e.description, Group)
  }

  /** `final_attachment`: none when deleting, the new one when given, else the event's first attachment. */
  function FinalAttachment(c: Change, e: EventRecord): AttachmentChoice {
    if c.deleteAttachment then Chosen(None)
    else if c.newAttachment.Some? then Chosen(c.newAttachment)
    else
      match e.attachments
      case None => Chosen(None)
      case Some(list) => if list == [] then NoFirst else Chosen(Some(list[0]))
  }

  /** The event `save_homework_to_event` sends for a group `text` and attachment `data`. */
  function Saved(tags: Tags, e: EventRecord, text: string, data: Option<Attachment>): EventRecord
    requires ValidTags(tags)
  {
    var attachments := AddAttachment(e.attachments, data);
    e.(description := MergeDescription(tags, e.description, Group, text),
       attachments := attachments,
       summary := NewSummary(e.summary, tags.title,
         HasHomework(Replace(SplitDescription(tags, e.description), Group, text), attachments)))
  }

  /**
   * `found_event`: the first listed event whose one-space subject and colour match; a
   * missing subject matches nothing, since a subject read from a summary is a string.
   */
  function Found(events: seq<EventRecord>, req: Request): (r: Option<nat>)
    ensures r.Some? ==>
      && req.subject.Some? && r.value < |events|
      && IsLesson(events[r.value], OneSpaceBeforeParen, req.subject.value, req.color)
      && forall j :: 0 <= j < r.value ==> !IsLesson(events[j], OneSpaceBeforeParen, req.subject.value, req.color)
    ensures r.None? <==> (req.subject.None? ||
      forall j :: 0 <= j < |events| ==> !IsLesson(events[j], OneSpaceBeforeParen, req.subject.value, req.color))
  {
    match req.subject
    case None => None
    case Some(s) =>
      FirstLessonIsFirst(events, OneSpaceBeforeParen, s, req.color, 0);
      FirstLesson(events, OneSpaceBeforeParen, s, req.color, 0)
  }

  /**
   * One pass of the loop body: no service or any exception puts the user in
   * `failed_users`; no matching event is only logged; otherwise the event is updated.
   */
  function ResultOf(tags: Tags, req: Request, cal: UserCalendar): UserResult
    requires ValidTags(tags)
  {
    match cal
    case NoService => Failed
    case ListFailed => Failed
    case Listed(events, accepted) =>
      match Found(events, req)
      case None => NotFound
      case Some(i) =>
        var e := events[i];
        match FinalAttachment(req.change, e)
        case NoFirst => Failed
        case Chosen(data) =>
          if accepted then Updated(Saved(tags, e, FinalText(tags, req.change, e), data)) else Failed
  }

  /** Each user's id with where that user ends up, in the order of `user_ids`. */
  function Outcomes(tags: Tags, req: Request, users: seq<User>, n: nat): (r: seq<(int, UserResult)>)
    requires ValidTags(tags) && n <= |users|
    ensures |r| == n
    ensures forall k :: 0 <= k < n ==> r[k] == (users[k].id, ResultOf(tags, req, users[k].calendar))
  {
    if n == 0 then []
    else Outcomes(tags, req, users, n - 1) + [(users[n - 1].id, ResultOf(tags, req, users[n - 1].calendar))]
  }

  /** `updated_count`, `failed_users`, the users only logged, and the events sent, in order. */
  datatype Tally = Tally(updated: nat, failed: seq<int>, notFound: nat, sent: seq<EventRecord>)

  function Count(t: Tally, id: int, r: UserResult): Tally {
    match r
    case Updated(e) => t.(updated := t.updated + 1, sent := t.sent + [e])
    case Failed => t.(failed := t.failed + [id])
    case NotFound => t.(notFound := t.notFound + 1)
  }

  /** The tally of a run of outcomes, counted in order. */
  function TallyOf(outcomes: seq<(int, UserResult)>): Tally
    decreases |outcomes|
  {
    if outcomes == [] then Tally(0, [], 0, [])
    else
      var last := outcomes[|outcomes| - 1];
      Count(TallyOf(outcomes[..|outcomes| - 1]), last.0, last.1)
  }

  lemma TallyAppend(outcomes: seq<(int, UserResult)>, x: (int, UserResult))
    ensures TallyOf(outcomes + [x]) == Count(TallyOf(outcomes), x.0, x.1)
  {
    assert (outcomes + [x])[..|outcomes|] == outcomes;
  }

  // ---------------------------------------------------------------------------
  // The accounting

  /** Every user is counted exactly once: updated, failed or not found; one event is sent per update. */
  lemma {:induction false} TallyAccounts(outcomes: seq<(int, UserResult)>)
    ensures var t := TallyOf(outcomes);
      t.updated + |t.failed| + t.notFound == |outcomes| && t.updated == |t.sent|
    decreases |outcomes|
  {
    if outcomes != [] {
      TallyAccounts(outcomes[..|outcomes| - 1]);
    }
  }

  /** An id is reported as failed exactly when a user with that id failed. */
  lemma {:induction false} TallyFailed(outcomes: seq<(int, UserResult)>)
    ensures forall id :: id in TallyOf(outcomes).failed <==>
      exists k :: 0 <= k < |outcomes| && outcomes[k] == (id, Failed)
    decreases |outcomes|
  {
    if outcomes != [] {
      var n := |outcomes| - 1;
      var before := outcomes[..n];
      TallyFailed(before);
      forall id | exists k :: 0 <= k < |outcomes| && outcomes[k] == (id, Failed)
        ensures id in TallyOf(outcomes).failed
      {
        var k :| 0 <= k < |outcomes| && outcomes[k] == (id, Failed);
        if k < n {
          assert before[k] == (id, Failed);
        }
      }
      forall id | id in TallyOf(outcomes).failed
        ensures exists k :: 0 <= k < |outcomes| && outcomes[k] == (id, Failed)
      {
        if id in TallyOf(before).failed {
          var k :| 0 <= k < |before| && before[k] == (id, Failed);
          assert outcomes[k] == (id, Failed);
        }
      }
    }
  }

  /** An event is sent exactly when it is the update of one of the users. */
  lemma {:induction false} TallySent(outcomes: seq<(int, UserResult)>)
    ensures forall e :: e in TallyOf(outcomes).sent <==>
      exists k :: 0 <= k < |outcomes| && outcomes[k].1 == Updated(e)
    decreases |outcomes|
  {
    if outcomes != [] {
      var n := |outcomes| - 1;
      var before := outcomes[..n];
      TallySent(before);
      forall e | exists k :: 0 <= k < |outcomes| && outcomes[k].1 == Updated(e)
        ensures e in TallyOf(outcomes).sent
      {
        var k :| 0 <= k < |outcomes| && outcomes[k].1 == Updated(e);
        if k < n {
          assert before[k].1 == Updated(e);
        }
      }
      forall e | e in TallyOf(outcomes).sent
        ensures exists k :: 0 <= k < |outcomes| && outcomes[k].1 == Updated(e)
      {
        if e in TallyOf(before).sent {
          var k :| 0 <= k < |before| && before[k].1 == Updated(e);
          assert outcomes[k].1 == Updated(e);
        }
      }
    }
  }

  // ---------------------------------------------------------------------------
  // What an update writes

  /**
   * On a well-formed description and a tag-free final text, the updated event's group
   * homework reads as the stripped final text, its personal homework and teacher notes
   * are kept, and it stays well-formed; its colour is unchanged.
   */
  lemma GroupEditLands(tags: Tags, req: Request, events: seq<EventRecord>, accepted: bool)
    requires ValidTags(tags)
    requires ResultOf(tags, req, Listed(events, accepted)).Updated?
    ensures var i := Found(events, req).value;
      var e, e' := events[i], ResultOf(tags, req, Listed(events, accepted)).event;
      var text := FinalText(tags, req.change, e);
      && accepted && e'.colorId == e.colorId
      && (WellFormed(tags, e.description) && TagFree(tags, text) ==>
            && Extract(tags, e'.description, Group) == Strip(text)
            && Extract(tags, e'.description, Personal) == Extract(tags, e.description, Personal)
            && Strip(SplitDescription(tags, e'.description).teacher) == Strip(SplitDescription(tags, e.description).teacher)
            && WellFormed(tags, e'.description))
  {
    var e := events[Found(events, req).value];
    var text := FinalText(tags, req.change, e);
    if WellFormed(tags, e.description) && TagFree(tags, text) {
      MergeProperties(tags, e.description, Group, text);
    }
  }

  /** Deleting the text leaves no group tag in a well-formed description, so no group homework. */
  lemma DeleteTextClears(tags: Tags, req: Request, events: seq<EventRecord>, accepted: bool)
    requires ValidTags(tags) && req.change.deleteText
    requires ResultOf(tags, req, Listed(events, accepted)).Updated?
    requires WellFormed(tags, events[Found(events, req).value].description)
    ensures var e' := ResultOf(tags, req, Listed(events, accepted)).event;
      !Contains(e'.description, tags.group) && Extract(tags, e'.description, Group) == ""
  {
    var d := events[Found(events, req).value].description;
    assert TagFree(tags, "");
    MergeSelected(tags, d, Group, "");
  }

  /** Changing only the attachment re-saves the group homework as it was. */
  lemma AttachmentOnlyKeepsText(tags: Tags, req: Request, events: seq<EventRecord>, accepted: bool)
    requires ValidTags(tags) && !req.change.deleteText && req.change.newText.None?
    requires ResultOf(tags, req, Listed(events, accepted)).Updated?
    requires WellFormed(tags, events[Found(events, req).value].description)
    ensures var e, e' := events[Found(events, req).value], ResultOf(tags, req, Listed(events, accepted)).event;
      Extract(tags, e'.description, Group) == Extract(tags, e.description, Group)
  {
    var d := events[Found(events, req).value].description;
    var g := SplitDescription(tags, d).group;
    ExtractSplit(tags, d);
    StripKeepsAbsent(g, tags.group);
    StripKeepsAbsent(g, tags.personal);
    MergeSelected(tags, d, Group, Strip(g));
    StripIdempotent(g);
  }

  /**
   * `delete_attachment` hands no attachment to `save_homework_to_event`, which never
   * removes one: the updated event keeps the attachments it had.
   */
  lemma DeleteAttachmentKeepsAttachments(tags: Tags, req: Request, events: seq<EventRecord>, accepted: bool)
    requires ValidTags(tags) && req.change.deleteAttachment
    requires ResultOf(tags, req, Listed(events, accepted)).Updated?
    ensures ResultOf(tags, req, Listed(events, accepted)).event.attachments == events[Found(events, req).value].attachments
  {
  }

  /** A new attachment ends up among the updated event's attachments, the old ones kept. */
  lemma NewAttachmentRecorded(tags: Tags, req: Request, events: seq<EventRecord>, accepted: bool, a: Attachment)
    requires ValidTags(tags) && !req.change.deleteAttachment && req.change.newAttachment == Some(a)
    requires ResultOf(tags, req, Listed(events, accepted)).Updated?
    ensures var e, e' := events[Found(events, req).value], ResultOf(tags, req, Listed(events, accepted)).event;
      && e'.attachments.Some? && a.fileId in FileIds(e'.attachments.value)
      && (e.attachments.Some? ==> e.attachments.value <= e'.attachments.value)
  {
    AddAttachmentKeeps(events[Found(events, req).value].attachments, Some(a));
  }

  /**
   * Without a new attachment and without deleting, a found event whose `attachments`
   * list is empty raises `IndexError`, and the user is reported as failed.
   */
  lemma EmptyAttachmentListFails(tags: Tags, req: Request, events: seq<EventRecord>, accepted: bool)
    requires ValidTags(tags) && !req.change.deleteAttachment && req.change.newAttachment.None?
    requires Found(events, req).Some? && events[Found(events, req).value].attachments == Some([])
    ensures ResultOf(tags, req, Listed(events, accepted)) == Failed
  {
  }

  // ---------------------------------------------------------------------------
  // The loops

  /** The body of the loop for one user, the calendar update being the one in `CalendarEvent`. */
  method UpdateUser(tags: Tags, req: Request, cal: UserCalendar) returns (r: UserResult)
    requires ValidTags(tags)
    ensures r == ResultOf(tags, req, cal)
  {
    if !cal.Listed? {
      return Failed;
    }
    var found: Option<nat> := None;
    if req.subject.Some? {
      found := FindLesson(cal.events, OneSpaceBeforeParen, req.subject.value, req.color);
    }
    assert found == Found(cal.events, req);
    if found.None? {
      return NotFound;
    }
    var e := cal.events[found.value];
    var text := FinalText(tags, req.change, e);
    var choice := FinalAttachment(req.change, e);
    if choice.NoFirst? {
      return Failed;
    }
    var event := new CalendarEvent(e.description, e.summary, e.attachments);
    event.SaveHomework(tags, text, Group, choice.data);
    if !cal.accepted {
      return Failed;
    }
    r := Updated(EventRecord(event.summary, e.colorId, event.description, event.attachments));
  }

  /**
   * The loop over `user_ids`: `updated_count`, `failed_users` and the events sent are
   * the tally of every user's outcome, in order.
   */
  method UpdateGroup(tags: Tags, req: Request, users: seq<User>) returns (updated: nat, failed: seq<int>, sent: seq<EventRecord>)
    requires ValidTags(tags)
    ensures var t := TallyOf(Outcomes(tags, req, users, |users|));
      updated == t.updated && failed == t.failed && sent == t.sent
  {
    updated, failed, sent := 0, [], [];
    for n := 0 to |users|
      invariant var t := TallyOf(Outcomes(tags, req, users, n));
        updated == t.updated && failed == t.failed && sent == t.sent
    {
      var r := UpdateUser(tags, req, users[n].calendar);
      TallyAppend(Outcomes(tags, req, users, n), (users[n].id, r));
      match r {
        case Updated(e) =>
          updated, sent := updated + 1, sent + [e];
        case Failed =>
          failed := failed + [users[n].id];
        case NotFound =>
      }
    }
  }
}
