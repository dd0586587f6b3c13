/**
 * The calendar event `save_homework_to_event` rewrites in place: its description, its
 * summary with the homework title tag, and its attachment list.
 */
module Event {
  import opened Wrappers
  import opened Text
  import opened Homework
  import opened Merge

  /** The four fields `save_homework_to_event` copies from `attachment_data`. */
  datatype Attachment = Attachment(fileUrl: string, title: string, mimeType: string, fileId: string)

  // ---------------------------------------------------------------------------
  // Attachments

  /** `{att.get('fileId') for att in attachments}`. */
  function FileIds(list: seq<Attachment>): set<string> {
    set i | 0 <= i < |list| :: list[i].fileId
  }

  /**
   * `event['attachments']` after the attachment step: unchanged without data; created
   * holding the new attachment when absent; otherwise extended by it unless an
   * attachment with its `fileId` is already there.
   */
  function AddAttachment(existing: Option<seq<Attachment>>, data: Option<Attachment>): Option<seq<Attachment>> {
    match data
    case None => existing
    case Some(a) =>
      match existing
      case None => Some([a])
      case Some(list) => if a.fileId in FileIds(list) then existing else Some(list + [a])
  }

  /** No two attachments share a `fileId`. */
  predicate UniqueIds(list: seq<Attachment>) {
    forall i, j :: 0 <= i < j < |list| ==> list[i].fileId != list[j].fileId
  }

  lemma FileIdsAppend(list: seq<Attachment>, a: Attachment)
    ensures FileIds(list + [a]) == FileIds(list) + {a.fileId}
  {
    var w := list + [a];
    assert w[|list|] == a;
    forall id | id in FileIds(list) ensures id in FileIds(w) {
      var i :| 0 <= i < |list| && list[i].fileId == id;
      assert w[i] == list[i];
    }
  }

  /**
   * With attachment data the list exists afterwards and holds its `fileId`; the old
   * attachments stay first and in order; one attachment is added exactly when no old
   * one has that `fileId`. Without data nothing changes.
   */
  lemma AddAttachmentKeeps(existing: Option<seq<Attachment>>, data: Option<Attachment>)
    ensures data.None? ==> AddAttachment(existing, data) == existing
    ensures data.Some? ==>
      && AddAttachment(existing, data).Some?
      && data.value.fileId in FileIds(AddAttachment(existing, data).value)
      && existing.GetOr([]) <= AddAttachment(existing, data).value
    ensures data.Some? ==>
      (|AddAttachment(existing, data).value| == |existing.GetOr([])| + 1
       <==> data.value.fileId !in FileIds(existing.GetOr([])))
    ensures data.Some? ==> |AddAttachment(existing, data).value| <= |existing.GetOr([])| + 1
  {
    if data.Some? {
      var a := data.value;
      var list := existing.GetOr([]);
      FileIdsAppend(list, a);
      assert [a][0] == a;
      assert a.fileId in FileIds([a]);
    }
  }

  /** Saving the same attachment twice is the same as saving it once. */
  lemma AddAttachmentIdempotent(existing: Option<seq<Attachment>>, data: Option<Attachment>)
    ensures AddAttachment(AddAttachment(existing, data), data) == AddAttachment(existing, data)
  {
    AddAttachmentKeeps(existing, data);
  }

  /** The attachment step keeps `fileId`s unique. */
  lemma AddAttachmentUnique(existing: Option<seq<Attachment>>, data: Option<Attachment>)
    requires UniqueIds(existing.GetOr([]))
    ensures UniqueIds(AddAttachment(existing, data).GetOr([]))
  {
    if data.Some? && existing.Some? && data.value.fileId !in FileIds(existing.value) {
      var list, a := existing.value, data.value;
      var w := list + [a];
      forall i, j | 0 <= i < j < |w| ensures w[i].fileId != w[j].fileId {
        if j == |list| {
          assert w[i] == list[i];
        } else {
          assert w[i] == list[i] && w[j] == list[j];
        }
      }
    }
  }

  // ---------------------------------------------------------------------------
  // Summary title tag

  /** `summary.replace(HOMEWORK_TITLE_TAG, "").strip()`. */
  function BaseSummary(summary: string, title: string): string {
    Strip(RemoveAll(summary, title))
  }

  /** `event['summary']` after a save: the base summary, with the title tag appended when the event has homework. */
  function NewSummary(summary: string, title: string, hasHomework: bool): string {
    if hasHomework then BaseSummary(summary, title) + title else BaseSummary(summary, title)
  }

  /** Whether the saved event counts as having homework: a non-blank segment or a non-empty attachment list. */
  predicate HasHomework(p: Parts, attachments: Option<seq<Attachment>>) {
    Strip(p.group) != "" || Strip(p.personal) != "" || (attachments.Some? && |attachments.value| > 0)
  }

  /** Removing every `t` from `x + t`, when no `t` starts inside `x`, leaves `x`. */
  lemma {:induction false} RemoveAllTrailing(x: string, t: string)
    requires t != ""
    requires forall k :: 0 <= k < |x| ==> !OccursAt(x + t, t, k)
    ensures RemoveAll(x + t, t) == x
    decreases |x|
  {
    var w := x + t;
    if x == "" {
      assert w == t && OccursAt(w, t, 0) && w[|t|..] == "";
    } else {
      assert !OccursAt(w, t, 0);
      var x' := x[1..];
      assert w[1..|w|] == x' + t;
      assert w == [w[0]] + (x' + t);
      ConcatOccurrences([w[0]], x' + t, t);
      RemoveAllTrailing(x', t);
      assert [w[0]] + x' == x;
    }
  }

  /** A title tag that cannot overlap itself, appended to text without it, starts no earlier occurrence. */
  lemma NoEarlierTitle(x: string, t: string)
    requires t != "" && NoOverhang(t, t) && !Contains(x, t)
    ensures forall k :: 0 <= k < |x| ==> !OccursAt(x + t, t, k)
  {
    var w := x + t;
    assert OccursAt(w, t, |x|) by {
      assert forall m :: 0 <= m < |t| ==> w[|x| + m] == t[m];
    }
    ConcatOccurrences(x, t, t);
    forall k | 0 <= k < |x| && OccursAt(w, t, k) ensures false {
      if k + |t| > |x| {
        OverlapShape(w, t, t, k, |x|);
        NoOverhangAt(t, t, 1, |x| - k);
      }
    }
  }

  /**
   * When the base summary holds no title tag, the saved summary holds one exactly when
   * the event has homework, its base is the old base, and saving again only re-decides
   * the tag: tags never pile up.
   */
  lemma NewSummaryMarks(summary: string, title: string, hasHomework: bool, again: bool)
    requires title != "" && NoOverhang(title, title) && !Contains(BaseSummary(summary, title), title)
    ensures Contains(NewSummary(summary, title, hasHomework), title) <==> hasHomework
    ensures BaseSummary(NewSummary(summary, title, hasHomework), title) == BaseSummary(summary, title)
    ensures NewSummary(NewSummary(summary, title, hasHomework), title, again) == NewSummary(summary, title, again)
  {
    var base := BaseSummary(summary, title);
    StripIdempotent(RemoveAll(summary, title));
    if hasHomework {
      var w := base + title;
      assert OccursAt(w, title, |base|) by {
        assert forall m :: 0 <= m < |title| ==> w[|base| + m] == title[m];
      }
      NoEarlierTitle(base, title);
      RemoveAllTrailing(base, title);
    }
  }

  /** What a merge into a well-formed description guarantees, gathered for `SaveHomework`. */
  lemma MergeProperties(tags: Tags, d: string, seg: Segment, text: string)
    requires ValidTags(tags) && WellFormed(tags, d) && TagFree(tags, text)
    ensures var m := MergeDescription(tags, d, seg, text);
      && Extract(tags, m, seg) == Strip(text)
      && Extract(tags, m, seg.Other()) == Extract(tags, d, seg.Other())
      && Strip(SplitDescription(tags, m).teacher) == Strip(SplitDescription(tags, d).teacher)
      && WellFormed(tags, m)
  {
    MergeSelected(tags, d, seg, text);
    MergeKeepsOther(tags, d, seg, text);
    MergeKeepsNotes(tags, d, seg, text);
  }

  // ---------------------------------------------------------------------------
  // The event

  /** An event as the bot holds it; a missing `description` or `summary` reads as `""`. */
  class CalendarEvent {
    var description: string
    var summary: string
    var attachments: Option<seq<Attachment>>

    constructor (description: string, summary: string, attachments: Option<seq<Attachment>>)
      ensures this.description == description && this.summary == summary && this.attachments == attachments
    {
      this.description := description;
      this.summary := summary;
      this.attachments := attachments;
    }

    /**
     * `save_homework_to_event` up to the calendar update: the selected segment replaced
     * by `text`, the description reassembled, the attachment recorded, the title tag
     * re-decided. On a well-formed description the selected segment now extracts to the
     * stripped text, the other segment and the stripped notes are kept, and the new
     * description is well-formed.
     */
    method SaveHomework(tags: Tags, text: string, seg: Segment, data: Option<Attachment>)
      requires ValidTags(tags)
      modifies this
      ensures description == MergeDescription(tags, old(description), seg, text)
      ensures attachments == AddAttachment(old(attachments), data)
      ensures summary == NewSummary(old(summary), tags.title,
        HasHomework(Replace(SplitDescription(tags, old(description)), seg, text), attachments))
      ensures WellFormed(tags, old(description)) && TagFree(tags, text) ==>
        && Extract(tags, description, seg) == Strip(text)
        && Extract(tags, description, seg.Other()) == Extract(tags, old(description), seg.Other())
        && Strip(SplitDescription(tags, description).teacher) == Strip(SplitDescription(tags, old(description)).teacher)
        && WellFormed(tags, description)
    {
      var parts := ReplaceSegment(tags, text, seg);
      RecordAttachment(data);
      RetagSummary(tags.title, HasHomework(parts, attachments));
    }

    /** The description step: split, replace the selected segment, reassemble; returns the new parts. */
    method ReplaceSegment(tags: Tags, text: string, seg: Segment) returns (parts: Parts)
      requires ValidTags(tags)
      modifies this
      ensures parts == Replace(SplitDescription(tags, old(description)), seg, text)
      ensures description == MergeDescription(tags, old(description), seg, text)
      ensures summary == old(summary) && attachments == old(attachments)
      ensures WellFormed(tags, old(description)) && TagFree(tags, text) ==>
        && Extract(tags, description, seg) == Strip(text)
        && Extract(tags, description, seg.Other()) == Extract(tags, old(description), seg.Other())
        && Strip(SplitDescription(tags, description).teacher) == Strip(SplitDescription(tags, old(description)).teacher)
        && WellFormed(tags, description)
    {
      parts := SplitDescription(tags, description);
      if seg == Group {
        parts := parts.(group := NewSegment(text));
      } else {
        parts := parts.(personal := NewSegment(text));
      }
      if WellFormed(tags, description) && TagFree(tags, text) {
        MergeProperties(tags, description, seg, text);
      }
      description := Assemble(tags, parts);
    }

    /** The attachment step: a new `fileId` is appended, the list created if absent. */
    method RecordAttachment(data: Option<Attachment>)
      modifies this
      ensures attachments == AddAttachment(old(attachments), data)
      ensures description == old(description) && summary == old(summary)
    {
      match data {
        case Some(a) =>
          match attachments {
            case Some(list) =>
              if a.fileId !in FileIds(list) {
                attachments := Some(list + [a]);
              }
            case None =>
              attachments := Some([a]);
          }
        case None =>
      }
    }

    /** The summary step: every title tag removed, the rest stripped, the tag appended when there is homework. */
    method RetagSummary(title: string, hasHomework: bool)
      modifies this
      ensures summary == NewSummary(old(summary), title, hasHomework)
      ensures description == old(description) && attachments == old(attachments)
    {
      var base := Strip(RemoveAll(summary, title));
      if hasHomework {
        summary := base + title;
      } else {
        summary := base;
      }
    }
  }
}
