/**
 * The description `save_homework_to_event` writes back: the stripped teacher notes,
 * then the group segment and the personal segment, each behind its tag and a blank
 * line, and the whole stripped.
 */
module Merge {
  import opened Text
  import opened Homework

  /** The blank line `save_homework_to_event` puts before each segment tag. */
  const Gap: string := "\n\n"

  /** The teacher notes as they open the new description: followed by a blank line unless empty. */
  function Lead(t: string): string {
    if t == "" then "" else t + Gap
  }

  /**
   * `new_description` of `save_homework_to_event`: the stripped teacher notes, then
   * each non-blank segment behind `"\n\n"` and its tag, group first, stripped.
   */
  function Assemble(tags: Tags, p: Parts): string {
    var d0 := Strip(p.teacher);
    var d1 := if Strip(p.group) != "" then d0 + Gap + tags.group + p.group else d0;
    var d2 := if Strip(p.personal) != "" then d1 + Gap + tags.personal + p.personal else d1;
    Strip(d2)
  }

  // ---------------------------------------------------------------------------
  // The shape of an assembled description

  /** The notes, the blank line and the tag regrouped as `Lead` puts them. */
  lemma LeadConcat(t: string, a: string, r: string)
    ensures t == "" ==> Lead(t) + a + r == a + r
    ensures t != "" ==> t + ((Gap + a) + r) == Lead(t) + a + r
  {
  }

  /** Regrouping a concatenation behind an empty prefix. */
  lemma Regroup(t: string, x: string, y: string, z: string)
    ensures t + x + y + z == "" + t + (x + y + z)
  {
  }

  /** Regrouping the second segment into the tail of the first. */
  lemma SuffixRegroup(x: string, g: string, n: string, a: string, q: string)
    ensures x + g + n + a + q == x + (g + n + a + q)
  {
  }

  /** Stripping notes, a blank line, a tag and a non-blank tail. */
  lemma StripLayout(t: string, a: string, tail: string)
    requires t == "" || (!IsSpace(t[0]) && !IsSpace(t[|t| - 1]))
    requires a != "" && !IsSpace(a[0]) && !AllSpace(tail)
    ensures Strip(t + Gap + a + tail) == Lead(t) + a + RStrip(tail)
  {
    var nl := Gap;
    assert AllSpace(nl) by {
      assert forall i :: 0 <= i < |nl| ==> nl[i] == '\n';
    }
    var rest := nl + a + tail;
    LeadConcat(t, a, RStrip(tail));
    if t == "" {
      assert t + nl + a + tail == rest;
      StripHeadTail(nl, a, tail);
    } else {
      Regroup(t, nl, a, tail);
      NonBlankAfter(nl + a, tail);
      StripHeadTail("", t, rest);
      RStripNonBlank(nl + a, tail);
    }
  }

  lemma AssembleBothIs(tags: Tags, p: Parts)
    requires tags.group != "" && !IsSpace(tags.group[0])
    requires Strip(p.group) != "" && Strip(p.personal) != ""
    ensures Assemble(tags, p)
      == Lead(Strip(p.teacher)) + tags.group + (p.group + Gap + tags.personal + RStrip(p.personal))
  {
    var head := p.group + Gap + tags.personal;
    var tail := head + p.personal;
    NonBlankAfter(head, p.personal);
    RStripNonBlank(head, p.personal);
    SuffixRegroup(Strip(p.teacher) + Gap + tags.group, p.group, Gap, tags.personal, p.personal);
    StripLayout(Strip(p.teacher), tags.group, tail);
  }

  lemma AssembleGroupIs(tags: Tags, p: Parts)
    requires tags.group != "" && !IsSpace(tags.group[0])
    requires Strip(p.group) != "" && Strip(p.personal) == ""
    ensures Assemble(tags, p) == Lead(Strip(p.teacher)) + tags.group + RStrip(p.group)
  {
    StripLayout(Strip(p.teacher), tags.group, p.group);
  }

  lemma AssemblePersonalIs(tags: Tags, p: Parts)
    requires tags.personal != "" && !IsSpace(tags.personal[0])
    requires Strip(p.group) == "" && Strip(p.personal) != ""
    ensures Assemble(tags, p) == Lead(Strip(p.teacher)) + tags.personal + RStrip(p.personal)
  {
    StripLayout(Strip(p.teacher), tags.personal, p.personal);
  }

  lemma AssembleNoneIs(tags: Tags, p: Parts)
    requires Strip(p.group) == "" && Strip(p.personal) == ""
    ensures Assemble(tags, p) == Strip(p.teacher)
  {
    StripIdempotent(p.teacher);
  }

  // ---------------------------------------------------------------------------
  // Finding the tags again

  /** Tag-free notes and a blank line hold no tag. */
  lemma LeadFree(tags: Tags, t: string)
    requires ValidTags(tags) && TagFree(tags, t)
    ensures TagFree(tags, Lead(t)) && (Lead(t) == "" || Lead(t)[|Lead(t)| - 1] == '\n')
  {
    if t != "" {
      var nl := Gap;
      assert forall i :: 0 <= i < |nl| ==> nl[i] == '\n';
      assert !Contains("", tags.group) && !Contains("", tags.personal);
      TagFreeWithNewlines(tags, t, nl, "");
      assert t + nl + "" == Lead(t);
    }
  }

  /** In `x + A + r`, with `x` tag-free and ending in a line break, `split(A, 1)` gives back `x` and `r`. */
  lemma SplitAtTag(tags: Tags, w: string, x: string, seg: Segment, r: string)
    requires ValidTags(tags) && TagFree(tags, x) && (x == "" || x[|x| - 1] == '\n')
    requires w == x + TagOf(tags, seg) + r
    ensures Contains(w, TagOf(tags, seg)) && Find(w, TagOf(tags, seg)) == |x|
    ensures SplitOnce(w, TagOf(tags, seg)) == (x, r)
    ensures forall q :: q < |x| + |TagOf(tags, seg)| ==> !OccursAt(w, TagOf(tags, seg.Other()), q)
    ensures Contains(w, TagOf(tags, seg.Other())) ==>
      Find(w, TagOf(tags, seg.Other())) >= |x| + |TagOf(tags, seg)|
  {
    var A := TagOf(tags, seg);
    FreeThenTag(tags, x, seg, r);
    FindIs(w, A, |x|);
    assert w[..|x|] == x && w[|x| + |A|..] == r;
    assert forall q :: q < |x| + |A| ==> !OccursAt(w, TagOf(tags, seg.Other()), q);
  }

  /** In `x + A + r`, with `x` and `r` tag-free, the other tag does not occur. */
  lemma OnlyTag(tags: Tags, w: string, x: string, seg: Segment, r: string)
    requires ValidTags(tags) && TagFree(tags, x) && (x == "" || x[|x| - 1] == '\n') && TagFree(tags, r)
    requires w == x + TagOf(tags, seg) + r
    ensures !Contains(w, TagOf(tags, seg.Other()))
  {
    var A, B := TagOf(tags, seg), TagOf(tags, seg.Other());
    SplitAtTag(tags, w, x, seg, r);
    assert !Contains(r, B) by {
      assert B == tags.group || B == tags.personal;
    }
    ConcatOccurrences(x + A, r, B);
    assert forall q :: !OccursAt(w, B, q);
  }

  // ---------------------------------------------------------------------------
  // Splitting an assembled description again

  /** A tag-free segment followed by the blank line before the next tag. */
  lemma GapFree(tags: Tags, g: string)
    requires ValidTags(tags) && TagFree(tags, g)
    ensures TagFree(tags, g + Gap) && (g + Gap)[|g + Gap| - 1] == '\n'
    ensures Strip(g + Gap) == Strip(g)
  {
    var nl := Gap;
    assert forall i :: 0 <= i < |nl| ==> nl[i] == '\n';
    assert AllSpace(nl) && AllSpace("");
    assert !Contains("", tags.group) && !Contains("", tags.personal);
    EmptyConcat(g, nl);
    TagFreeWithNewlines(tags, g, nl, "");
    StripPadded("", g, nl);
  }

  /** Concatenating the empty string. */
  lemma EmptyConcat(x: string, y: string)
    ensures x + y + "" == x + y && "" + x + y == x + y
  {
  }

  lemma SplitBothIs(tags: Tags, w: string, l: string, g: string, q: string)
    requires ValidTags(tags) && TagFree(tags, l) && (l == "" || l[|l| - 1] == '\n')
    requires TagFree(tags, g) && TagFree(tags, q)
    requires w == l + tags.group + (g + Gap + tags.personal + q)
    ensures SplitDescription(tags, w) == Parts(l, g + Gap, q)
    ensures GroupHalves(tags, w) == (l, g + Gap + tags.personal + q)
    ensures Contains(w, tags.group) && Find(w, tags.group) == |l|
    ensures Contains(w, tags.personal) && Find(w, tags.group) < Find(w, tags.personal)
  {
    var r1 := g + Gap + tags.personal + q;
    SplitAtTag(tags, w, l, Group, r1);
    GapFree(tags, g);
    SplitAtTag(tags, r1, g + Gap, Personal, q);
    OccursShift(w, l + tags.group, r1, tags.personal, |g + Gap|);
  }

  /** An occurrence in the tail of `u + v` is one in the whole, shifted by `|u|`; so `t` is found. */
  lemma OccursShift(w: string, u: string, v: string, t: string, k: int)
    requires w == u + v && OccursAt(v, t, k)
    ensures Contains(w, t) && Find(w, t) <= |u| + k
  {
    ConcatOccurrences(u, v, t);
  }

  lemma SplitOneIs(tags: Tags, w: string, l: string, seg: Segment, x: string)
    requires ValidTags(tags) && TagFree(tags, l) && (l == "" || l[|l| - 1] == '\n')
    requires TagFree(tags, x)
    requires w == l + TagOf(tags, seg) + x
    ensures SplitDescription(tags, w)
      == if seg == Group then Parts(l, x, "") else Parts(l, "", x)
    ensures Contains(w, TagOf(tags, seg)) && !Contains(w, TagOf(tags, seg.Other()))
  {
    SplitAtTag(tags, w, l, seg, x);
    OnlyTag(tags, w, l, seg, x);
    assert !Contains("", tags.personal);
  }

  lemma SplitNoneIs(tags: Tags, t: string)
    requires ValidTags(tags) && TagFree(tags, t)
    ensures SplitDescription(tags, t) == Parts(t, "", "")
  {
    assert !Contains("", tags.personal);
  }

  /** `rstrip` keeps a segment tag-free and does not change its stripped text. */
  lemma RStripFree(tags: Tags, s: string)
    requires TagFree(tags, s)
    ensures TagFree(tags, RStrip(s)) && Strip(RStrip(s)) == Strip(s)
  {
    TagFreeSlice(tags, s, 0, |RStrip(s)|);
    assert s[0..|RStrip(s)|] == RStrip(s);
    StripOfRStrip(s);
  }

  /** The stripped notes as they open the new description: tag-free, and stripping gives them back. */
  lemma LeadOfNotes(tags: Tags, t: string)
    requires ValidTags(tags) && TagFree(tags, t)
    ensures TagFree(tags, Strip(t))
    ensures TagFree(tags, Lead(Strip(t))) && (Lead(Strip(t)) == "" || Lead(Strip(t))[|Lead(Strip(t))| - 1] == '\n')
    ensures Strip(Lead(Strip(t))) == Strip(t)
  {
    var n := Strip(t);
    StripKeepsAbsent(t, tags.group);
    StripKeepsAbsent(t, tags.personal);
    LeadFree(tags, n);
    StripIdempotent(t);
    if n != "" {
      GapFree(tags, n);
    }
  }

  // ---------------------------------------------------------------------------
  // The round trip, one layout at a time

  lemma LayoutBoth(tags: Tags, t: string, g: string, q: string, w: string)
    requires ValidTags(tags) && TagFree(tags, t) && TagFree(tags, g) && TagFree(tags, q)
    requires w == Lead(Strip(t)) + tags.group + (g + Gap + tags.personal + RStrip(q))
    ensures WellFormed(tags, w)
    ensures Strip(SplitDescription(tags, w).teacher) == Strip(t)
    ensures Strip(SplitDescription(tags, w).group) == Strip(g)
    ensures Strip(SplitDescription(tags, w).personal) == Strip(q)
    ensures Contains(w, tags.group) && Contains(w, tags.personal)
    ensures Find(w, tags.group) < Find(w, tags.personal)
    ensures !Contains(GroupHalves(tags, w).0, tags.personal) && Contains(GroupHalves(tags, w).1, tags.personal)
  {
    LeadOfNotes(tags, t);
    RStripFree(tags, q);
    GapFree(tags, g);
    SplitBothIs(tags, w, Lead(Strip(t)), g, RStrip(q));
  }

  lemma LayoutGroup(tags: Tags, t: string, g: string, w: string)
    requires ValidTags(tags) && TagFree(tags, t) && TagFree(tags, g)
    requires w == Lead(Strip(t)) + tags.group + RStrip(g)
    ensures WellFormed(tags, w)
    ensures Strip(SplitDescription(tags, w).teacher) == Strip(t)
    ensures Strip(SplitDescription(tags, w).group) == Strip(g)
    ensures SplitDescription(tags, w).personal == ""
    ensures Contains(w, tags.group) && !Contains(w, tags.personal)
  {
    LeadOfNotes(tags, t);
    RStripFree(tags, g);
    SplitOneIs(tags, w, Lead(Strip(t)), Group, RStrip(g));
  }

  lemma LayoutPersonal(tags: Tags, t: string, q: string, w: string)
    requires ValidTags(tags) && TagFree(tags, t) && TagFree(tags, q)
    requires w == Lead(Strip(t)) + tags.personal + RStrip(q)
    ensures WellFormed(tags, w)
    ensures Strip(SplitDescription(tags, w).teacher) == Strip(t)
    ensures SplitDescription(tags, w).group == ""
    ensures Strip(SplitDescription(tags, w).personal) == Strip(q)
    ensures !Contains(w, tags.group) && Contains(w, tags.personal)
  {
    LeadOfNotes(tags, t);
    RStripFree(tags, q);
    SplitOneIs(tags, w, Lead(Strip(t)), Personal, RStrip(q));
  }

  lemma LayoutNone(tags: Tags, t: string, w: string)
    requires ValidTags(tags) && TagFree(tags, t) && w == Strip(t)
    ensures WellFormed(tags, w)
    ensures Strip(SplitDescription(tags, w).teacher) == Strip(t)
    ensures SplitDescription(tags, w).group == "" && SplitDescription(tags, w).personal == ""
    ensures !Contains(w, tags.group) && !Contains(w, tags.personal)
  {
    LeadOfNotes(tags, t);
    SplitNoneIs(tags, w);
    StripIdempotent(t);
    assert !Contains("", tags.group) && !Contains("", tags.personal);
  }

  /**
   * Splitting an assembled description gives back its parts up to surrounding
   * whitespace; a segment tag is present exactly when its segment is non-blank, and
   * the group tag comes first.
   */
  lemma AssembleRoundTrip(tags: Tags, p: Parts)
    requires ValidTags(tags) && TagFree(tags, p.teacher) && TagFree(tags, p.group) && TagFree(tags, p.personal)
    ensures WellFormed(tags, Assemble(tags, p))
    ensures Strip(SplitDescription(tags, Assemble(tags, p)).teacher) == Strip(p.teacher)
    ensures Strip(SplitDescription(tags, Assemble(tags, p)).group) == Strip(p.group)
    ensures Strip(SplitDescription(tags, Assemble(tags, p)).personal) == Strip(p.personal)
    ensures Contains(Assemble(tags, p), tags.group) <==> Strip(p.group) != ""
    ensures Contains(Assemble(tags, p), tags.personal) <==> Strip(p.personal) != ""
    ensures Contains(Assemble(tags, p), tags.group) && Contains(Assemble(tags, p), tags.personal)
      ==> Find(Assemble(tags, p), tags.group) < Find(Assemble(tags, p), tags.personal)
  {
    var w := Assemble(tags, p);
    if Strip(p.group) != "" && Strip(p.personal) != "" {
      AssembleBothIs(tags, p);
      LayoutBoth(tags, p.teacher, p.group, p.personal, w);
    } else if Strip(p.group) != "" {
      AssembleGroupIs(tags, p);
      LayoutGroup(tags, p.teacher, p.group, w);
      assert Strip("") == "";
    } else if Strip(p.personal) != "" {
      AssemblePersonalIs(tags, p);
      LayoutPersonal(tags, p.teacher, p.personal, w);
      assert Strip("") == "";
    } else {
      AssembleNoneIs(tags, p);
      LayoutNone(tags, p.teacher, w);
      assert Strip("") == "";
    }
  }

  // ---------------------------------------------------------------------------
  // Replacing one segment

  const NewLine: string := "\n"

  /** The body `save_homework_to_event` stores for the new text: a line break and the stripped text, or nothing. */
  function NewSegment(text: string): string {
    if Strip(text) != "" then NewLine + Strip(text) else ""
  }

  /** The stored body strips back to the stripped text and is tag-free when the text is. */
  lemma NewSegmentFacts(tags: Tags, text: string)
    requires ValidTags(tags) && TagFree(tags, text)
    ensures Strip(NewSegment(text)) == Strip(text)
    ensures TagFree(tags, NewSegment(text))
  {
    var t := Strip(text);
    StripKeepsAbsent(text, tags.group);
    StripKeepsAbsent(text, tags.personal);
    if t != "" {
      var nl := NewLine;
      assert forall i :: 0 <= i < |nl| ==> nl[i] == '\n';
      assert AllSpace(nl) && AllSpace("");
      assert !Contains("", tags.group) && !Contains("", tags.personal);
      TagFreeWithNewlines(tags, "", nl, t);
      EmptyConcat(nl, t);
      StripPadded(nl, t, "");
      StripIdempotent(text);
    }
  }

  /** The parts with the selected segment's body replaced (`is_group_hw` selects the group segment). */
  function Replace(p: Parts, seg: Segment, text: string): Parts {
    if seg == Group then p.(group := NewSegment(text)) else p.(personal := NewSegment(text))
  }

  /** `event['description']` after `save_homework_to_event`, with the split as evidently intended. */
  function MergeDescription(tags: Tags, d: string, seg: Segment, text: string): string
    requires Separators(tags)
  {
    Assemble(tags, Replace(SplitDescription(tags, d), seg, text))
  }

  /** `event['description']` after `save_homework_to_event` as written, teacher notes dropped in one branch. */
  function MergeDescriptionAsWritten(tags: Tags, d: string, seg: Segment, text: string): string
    requires Separators(tags)
  {
    Assemble(tags, Replace(SplitDescriptionAsWritten(tags, d), seg, text))
  }

  /** The teacher notes of any split hold no tag. */
  lemma SplitTeacherFree(tags: Tags, d: string)
    requires Separators(tags)
    ensures TagFree(tags, SplitDescription(tags, d).teacher)
  {
    var main := GroupHalves(tags, d).0;
    if Contains(main, tags.personal) {
      var k := Find(main, tags.personal);
      AbsentFromSlice(main, tags.group, 0, k);
      assert main[0..k] == SplitDescription(tags, d).teacher;
    }
  }

  /** Every part a merge assembles is tag-free. */
  lemma MergedPartsFree(tags: Tags, d: string, seg: Segment, text: string, p: Parts)
    requires ValidTags(tags) && WellFormed(tags, d) && TagFree(tags, text)
    requires p == Replace(SplitDescription(tags, d), seg, text)
    ensures TagFree(tags, p.teacher) && TagFree(tags, p.group) && TagFree(tags, p.personal)
    ensures Strip(if seg == Group then p.group else p.personal) == Strip(text)
  {
    SplitTeacherFree(tags, d);
    NewSegmentFacts(tags, text);
  }

  /**
   * After a merge, extracting the selected segment yields the stripped new text, and
   * the selected tag is present exactly when that text is non-blank.
   */
  lemma MergeSelected(tags: Tags, d: string, seg: Segment, text: string)
    requires ValidTags(tags) && WellFormed(tags, d) && TagFree(tags, text)
    ensures Extract(tags, MergeDescription(tags, d, seg, text), seg) == Strip(text)
    ensures Contains(MergeDescription(tags, d, seg, text), TagOf(tags, seg)) <==> Strip(text) != ""
  {
    var p := Replace(SplitDescription(tags, d), seg, text);
    var m := Assemble(tags, p);
    MergedPartsFree(tags, d, seg, text, p);
    AssembleRoundTrip(tags, p);
    ExtractSplit(tags, m);
  }

  /** A merge leaves the other segment's extracted text as it was. */
  lemma MergeKeepsOther(tags: Tags, d: string, seg: Segment, text: string)
    requires ValidTags(tags) && WellFormed(tags, d) && TagFree(tags, text)
    ensures Extract(tags, MergeDescription(tags, d, seg, text), seg.Other()) == Extract(tags, d, seg.Other())
  {
    var p := Replace(SplitDescription(tags, d), seg, text);
    var m := Assemble(tags, p);
    MergedPartsFree(tags, d, seg, text, p);
    AssembleRoundTrip(tags, p);
    ExtractSplit(tags, m);
    ExtractSplit(tags, d);
  }

  /**
   * A merge keeps the stripped teacher notes, yields a well-formed description, and
   * puts the group segment before the personal one.
   */
  lemma MergeKeepsNotes(tags: Tags, d: string, seg: Segment, text: string)
    requires ValidTags(tags) && WellFormed(tags, d) && TagFree(tags, text)
    ensures Strip(SplitDescription(tags, MergeDescription(tags, d, seg, text)).teacher)
      == Strip(SplitDescription(tags, d).teacher)
    ensures WellFormed(tags, MergeDescription(tags, d, seg, text))
    ensures var m := MergeDescription(tags, d, seg, text);
      Contains(m, tags.group) && Contains(m, tags.personal) ==> Find(m, tags.group) < Find(m, tags.personal)
  {
    var p := Replace(SplitDescription(tags, d), seg, text);
    MergedPartsFree(tags, d, seg, text, p);
    AssembleRoundTrip(tags, p);
  }

  /** Merging trimmed personal text into a description holding only trimmed notes. */
  lemma MergePersonalIntoNotes(tags: Tags, notes: string, text: string)
    requires ValidTags(tags) && TagFree(tags, notes)
    requires Strip(notes) == notes && text != "" && Strip(text) == text
    ensures MergeDescription(tags, notes, Personal, text) == Lead(notes) + tags.personal + (NewLine + text)
  {
    SplitNoneIs(tags, notes);
    assert TrimEnd(text, |text|) == |text|;
    NonBlankAfter(NewLine, text);
    RStripNonBlank(NewLine, text);
    assert Strip("") == "";
    AssemblePersonalIs(tags, Parts(notes, "", NewLine + text));
  }

  /** Merging personal `"read ch.3"` into a description holding only `"Lecturer: Smith"`. */
  lemma MergeExample(tags: Tags)
    requires ValidTags(tags) && TagFree(tags, "Lecturer: Smith")
    ensures MergeDescription(tags, "Lecturer: Smith", Personal, "read ch.3")
      == "Lecturer: Smith" + Gap + tags.personal + NewLine + "read ch.3"
  {
    MergeTrimmed(tags, "Lecturer: Smith", "read ch.3");
  }

  /** Personal text merged into non-empty notes, both without surrounding whitespace. */
  lemma MergeTrimmed(tags: Tags, notes: string, text: string)
    requires ValidTags(tags) && TagFree(tags, notes)
    requires notes != "" && !IsSpace(notes[0]) && !IsSpace(notes[|notes| - 1])
    requires text != "" && !IsSpace(text[0]) && !IsSpace(text[|text| - 1])
    ensures MergeDescription(tags, notes, Personal, text) == notes + Gap + tags.personal + NewLine + text
  {
    StripTrimmed(notes);
    StripTrimmed(text);
    MergePersonalIntoNotes(tags, notes, text);
    Assoc(Lead(notes) + tags.personal, NewLine, text);
  }

  lemma Assoc(x: string, y: string, z: string)
    ensures x + (y + z) == x + y + z
  {
  }

  // ---------------------------------------------------------------------------
  // The notes the as-written split drops

  /**
   * A description holding notes, a group segment and a personal segment, as `Assemble`
   * writes it, is split by the as-written code with the notes emptied.
   */
  lemma AsWrittenSplitOfFullLayout(tags: Tags, p: Parts)
    requires ValidTags(tags) && TagFree(tags, p.teacher) && TagFree(tags, p.group) && TagFree(tags, p.personal)
    requires Strip(p.group) != "" && Strip(p.personal) != ""
    ensures WellFormed(tags, Assemble(tags, p))
    ensures Strip(SplitDescription(tags, Assemble(tags, p)).teacher) == Strip(p.teacher)
    ensures SplitDescriptionAsWritten(tags, Assemble(tags, p))
      == SplitDescription(tags, Assemble(tags, p)).(teacher := "")
  {
    var d := Assemble(tags, p);
    AssembleBothIs(tags, p);
    LayoutBoth(tags, p.teacher, p.group, p.personal, d);
    AsWrittenDropsOnlyTeacher(tags, d);
  }

  /**
   * Merging into such a description as written leaves no teacher notes, while the
   * intended merge keeps them.
   */
  lemma AsWrittenMergeLosesNotes(tags: Tags, p: Parts, seg: Segment, text: string)
    requires ValidTags(tags) && TagFree(tags, p.teacher) && TagFree(tags, p.group) && TagFree(tags, p.personal)
    requires TagFree(tags, text)
    requires Strip(p.teacher) != "" && Strip(p.group) != "" && Strip(p.personal) != ""
    ensures Strip(SplitDescription(tags, MergeDescriptionAsWritten(tags, Assemble(tags, p), seg, text)).teacher) == ""
    ensures Strip(SplitDescription(tags, MergeDescription(tags, Assemble(tags, p), seg, text)).teacher) == Strip(p.teacher)
  {
    var d := Assemble(tags, p);
    AsWrittenSplitOfFullLayout(tags, p);
    MergeKeepsNotes(tags, d, seg, text);
    var full := Replace(SplitDescription(tags, d), seg, text);
    MergedPartsFree(tags, d, seg, text, full);
    var lost := full.(teacher := "");
    assert lost == Replace(SplitDescriptionAsWritten(tags, d), seg, text);
    assert !Contains("", tags.group) && !Contains("", tags.personal);
    AssembleRoundTrip(tags, lost);
    assert Strip("") == "";
  }
}
