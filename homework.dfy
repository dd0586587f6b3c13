/**
 * The homework part of a calendar event's description: teacher notes followed by an
 * optional group segment and an optional personal segment, each introduced by a tag.
 * `Extract` models `extract_homework_part`, `SplitDescription` and `Assemble` the
 * in-memory half of `save_homework_to_event`.
 */
module Homework {
  import opened Wrappers
  import opened Text

  /** The three marker strings the bot's configuration supplies. */
  datatype Tags = Tags(group: string, personal: string, title: string)

  /** Which homework segment an operation addresses (`is_group_hw`). */
  datatype Segment = Group | Personal {
    function Other(): Segment {
      if this == Group then Personal else Group
    }
  }

  function TagOf(tags: Tags, seg: Segment): string {
    if seg == Group then tags.group else tags.personal
  }

  predicate NoNewline(s: string) {
    forall i :: 0 <= i < |s| ==> s[i] != '\n'
  }

  /** No proper suffix of `a` is a prefix of `b`: an occurrence of `b` cannot start inside one of `a`. */
  predicate NoOverhang(a: string, b: string) {
    NoOverhangFrom(a, b, 1)
  }

  /** No suffix `a[k..]`, `a[k + 1..]`, ... short of the empty one is a prefix of `b`. */
  predicate NoOverhangFrom(a: string, b: string, k: nat)
    decreases |a| - k
  {
    k >= |a| || (!(a[k..] <= b) && NoOverhangFrom(a, b, k + 1))
  }

  lemma {:induction false} NoOverhangAt(a: string, b: string, k: nat, j: nat)
    requires NoOverhangFrom(a, b, k) && k <= j < |a|
    ensures !(a[j..] <= b)
    decreases j - k
  {
    if k < j {
      NoOverhangAt(a, b, k + 1, j);
    }
  }

  /**
   * What the model assumes of the configured tags: all non-empty, the two description
   * tags distinct with neither inside the other, tag occurrences unable to overlap, no
   * line break inside a tag and no whitespace at its start.
   */
  predicate ValidTags(tags: Tags) {
    tags.group != "" && tags.personal != "" && tags.title != ""
    && !Contains(tags.group, tags.personal) && !Contains(tags.personal, tags.group)
    && NoOverhang(tags.group, tags.group) && NoOverhang(tags.group, tags.personal)
    && NoOverhang(tags.personal, tags.group) && NoOverhang(tags.personal, tags.personal)
    && NoNewline(tags.group) && NoNewline(tags.personal)
    && !IsSpace(tags.group[0]) && !IsSpace(tags.personal[0])
  }

  /** The two description tags are usable as `split` separators. */
  predicate Separators(tags: Tags) {
    tags.group != "" && tags.personal != ""
  }

  /** Neither description tag occurs in `s`. */
  predicate TagFree(tags: Tags, s: string) {
    !Contains(s, tags.group) && !Contains(s, tags.personal)
  }

  // ---------------------------------------------------------------------------
  // Where tags can occur

  /** Two overlapping occurrences in `s`: either `b` lies inside `a`, or `a` ends with a prefix of `b`. */
  lemma OverlapShape(s: string, a: string, b: string, i: int, j: int)
    requires OccursAt(s, a, i) && OccursAt(s, b, j) && i <= j < i + |a|
    ensures |a| - (j - i) >= |b| ==> OccursAt(a, b, j - i)
    ensures |a| - (j - i) < |b| ==> a[j - i..] <= b
  {
    var k := j - i;
    assert forall m :: 0 <= m < |a| - k && m < |b| ==> a[k + m] == s[j + m] == b[m] by {
      assert forall m :: 0 <= m < |a| ==> s[i..i + |a|][m] == a[m];
      assert forall m :: 0 <= m < |b| ==> s[j..j + |b|][m] == b[m];
    }
    assert |a| - k >= |b| ==> a[k..k + |b|] == b;
    assert |a| - k < |b| ==> a[k..] == b[..|a| - k];
  }

  /** The tag facts `OccurrencesDisjoint` needs, for any pair of segments. */
  lemma TagPair(tags: Tags, a: Segment, b: Segment)
    requires ValidTags(tags)
    ensures forall k :: 0 < k < |TagOf(tags, a)| ==> !(TagOf(tags, a)[k..] <= TagOf(tags, b))
    ensures a != b ==> !Contains(TagOf(tags, a), TagOf(tags, b))
  {
    var A, B := TagOf(tags, a), TagOf(tags, b);
    assert NoOverhang(A, B);
    forall k | 0 < k < |A| ensures !(A[k..] <= B) {
      NoOverhangAt(A, B, 1, k);
    }
  }

  /** Two tag occurrences in one string never overlap unless they are the same occurrence. */
  lemma OccurrencesDisjoint(tags: Tags, s: string, a: Segment, b: Segment, i: int, j: int)
    requires ValidTags(tags)
    requires i <= j < i + |TagOf(tags, a)|
    ensures OccursAt(s, TagOf(tags, a), i) && OccursAt(s, TagOf(tags, b), j) ==> i == j && a == b
  {
    var A, B := TagOf(tags, a), TagOf(tags, b);
    var k := j - i;
    if OccursAt(s, A, i) && OccursAt(s, B, j) {
      OverlapShape(s, A, B, i, j);
      TagPair(tags, a, b);
      TagPair(tags, b, a);
      assert |A| - k < |B| ==> k == 0;
      assert |A| - k < |B| ==> OccursAt(B, A, 0);
    }
  }

  lemma TagFreeSlice(tags: Tags, s: string, i: nat, j: nat)
    requires i <= j <= |s| && TagFree(tags, s)
    ensures TagFree(tags, s[i..j])
  {
    AbsentFromSlice(s, tags.group, i, j);
    AbsentFromSlice(s, tags.personal, i, j);
  }

  /** A tag cannot occur across a line break. */
  lemma NewlineBlocks(tags: Tags, w: string, c: Segment, q: int, m: int)
    requires ValidTags(tags) && 0 <= q <= m < q + |TagOf(tags, c)| <= |w| && w[m] == '\n'
    ensures !OccursAt(w, TagOf(tags, c), q)
  {
    var T := TagOf(tags, c);
    assert T[m - q] != '\n';
  }

  /** Line breaks glue tag-free strings without creating a tag. */
  lemma TagFreeWithNewlines(tags: Tags, x: string, n: string, y: string)
    requires ValidTags(tags) && TagFree(tags, x) && TagFree(tags, y)
    requires n != "" && forall i :: 0 <= i < |n| ==> n[i] == '\n'
    ensures TagFree(tags, x + n + y)
  {
    var w := x + n + y;
    assert w == x + (n + y);
    forall c: Segment, q ensures !OccursAt(w, TagOf(tags, c), q) {
      var C := TagOf(tags, c);
      ConcatOccurrences(x, n + y, C);
      ConcatOccurrences(x + n, y, C);
      if 0 <= q && |x| < q + |C| <= |w| && q < |x| + |n| {
        var m := if q < |x| then |x| else q;
        assert w[m] == n[m - |x|];
        NewlineBlocks(tags, w, c, q, m);
      }
    }
    assert !Contains(w, tags.group) by {
      assert forall q :: !OccursAt(w, TagOf(tags, Group), q);
    }
    assert !Contains(w, tags.personal) by {
      assert forall q :: !OccursAt(w, TagOf(tags, Personal), q);
    }
  }

  /**
   * In `X + A + r`, with `X` tag-free and ending in a line break, the first tag
   * occurrence is `A` right after `X`.
   */
  lemma FreeThenTag(tags: Tags, x: string, seg: Segment, r: string)
    requires ValidTags(tags) && TagFree(tags, x) && (x == "" || x[|x| - 1] == '\n')
    ensures var w := x + TagOf(tags, seg) + r;
      OccursAt(w, TagOf(tags, seg), |x|)
      && forall c: Segment, q :: q < |x| + |TagOf(tags, seg)| && OccursAt(w, TagOf(tags, c), q) ==> q == |x| && c == seg
  {
    var A := TagOf(tags, seg);
    var w := x + A + r;
    assert OccursAt(w, A, |x|) by {
      assert forall m :: 0 <= m < |A| ==> w[|x| + m] == A[m];
    }
    assert w == x + (A + r);
    forall c: Segment, q | q < |x| ensures !OccursAt(w, TagOf(tags, c), q) {
      NoTagFromFree(tags, x, A + r, w, c, q);
    }
    forall c: Segment, q | |x| <= q < |x| + |A| && OccursAt(w, TagOf(tags, c), q) ensures q == |x| && c == seg {
      OccurrencesDisjoint(tags, w, seg, c, |x|, q);
    }
  }

  /** No tag starts inside tag-free text that is empty or ends in a line break. */
  lemma NoTagFromFree(tags: Tags, x: string, y: string, w: string, c: Segment, q: int)
    requires ValidTags(tags) && TagFree(tags, x) && (x == "" || x[|x| - 1] == '\n')
    requires w == x + y && q < |x|
    ensures !OccursAt(w, TagOf(tags, c), q)
  {
    ConcatOccurrences(x, y, TagOf(tags, c));
    if 0 <= q && |x| < q + |TagOf(tags, c)| <= |w| {
      NewlineBlocks(tags, w, c, q, |x| - 1);
    }
  }

  /** `find` in `pre + r` when `pre` holds no start of `t`: the position in `r`, shifted. */
  lemma FindAfterPrefix(w: string, pre: string, r: string, t: string)
    requires w == pre + r
    requires forall q :: q < |pre| ==> !OccursAt(w, t, q)
    ensures Find(w, t) == if Find(r, t) == -1 then -1 else |pre| + Find(r, t)
  {
    ConcatOccurrences(pre, r, t);
    var m := Find(r, t);
    if m != -1 {
      FindIs(w, t, |pre| + m);
    }
  }

  // ---------------------------------------------------------------------------
  // extract_homework_part

  /** `s.split(sep, 1)` when `sep in s` (Python rejects an empty `sep`): the text before the first `sep` and the text after it. */
  function SplitOnce(s: string, sep: string): (r: (string, string))
    requires sep != "" && Contains(s, sep)
    ensures |r.0| == Find(s, sep) && !Contains(r.0, sep)
    ensures r.0 == s[..Find(s, sep)] && r.1 == s[Find(s, sep) + |sep|..]
  {
    var k := Find(s, sep);
    var before, after := s[0..k], s[k + |sep|..];
    SliceOccurrences(s, sep, 0, k);
    assert forall q :: !OccursAt(before, sep, q);
    assert s[k..k + |sep|] == sep;
    assert before + s[k..k + |sep|] + after == s;
    (before, after)
  }

  /**
   * The running minimum of `extract_homework_part`: over the tags in `others` other than
   * `target`, the earliest position where one occurs in `after`, or -1.
   */
  function EarliestOther(after: string, others: seq<string>, target: string, best: int): (r: int)
    requires best == -1 || 0 <= best
    decreases |others|
    ensures r == -1 || 0 <= r
    ensures r == -1 <==> best == -1 && forall t :: t in others && t != target ==> !Contains(after, t)
    ensures best != -1 ==> r <= best
    ensures forall t :: t in others && t != target && Contains(after, t) ==> r <= Find(after, t)
    ensures r != -1 ==> r == best || exists t :: t in others && t != target && Find(after, t) == r
  {
    if others == [] then best
    else
      var tag := others[0];
      var best' :=
        if tag == target then best
        else
          var position := Find(after, tag);
          if position != -1 && (best == -1 || position < best) then position else best;
      assert forall t :: t in others ==> t == tag || t in others[1..];
      assert best' == -1 <==> best == -1 && (tag == target || !Contains(after, tag));
      EarliestOther(after, others[1..], target, best')
  }

  /** With two distinct tags the running minimum is just the position of the other tag. */
  lemma EarliestOtherIsFind(tags: Tags, after: string, seg: Segment)
    requires ValidTags(tags)
    ensures EarliestOther(after, [tags.group, tags.personal], TagOf(tags, seg), -1)
      == Find(after, TagOf(tags, seg.Other()))
  {
    var others := [tags.group, tags.personal];
    var B := TagOf(tags, seg.Other());
    assert tags.group != tags.personal by {
      assert OccursAt(tags.group, tags.group, 0);
    }
    assert B in others && B != TagOf(tags, seg);
    assert forall t :: t in others && t != TagOf(tags, seg) ==> t == B;
  }

  /**
   * The raw text `extract_homework_part` strips: what follows the first `tag`, cut at
   * the earliest later occurrence of the other tag.
   */
  function ExtractBody(tags: Tags, description: string, seg: Segment): (r: string)
    requires ValidTags(tags) && Contains(description, TagOf(tags, seg))
    ensures !Contains(r, TagOf(tags, seg.Other()))
  {
    var tag := TagOf(tags, seg);
    var after := SplitOnce(description, tag).1;
    var next := EarliestOther(after, [tags.group, tags.personal], tag, -1);
    EarliestOtherIsFind(tags, after, seg);
    AbsentBeforeFind(after, TagOf(tags, seg.Other()));
    if next != -1 then after[..next] else after
  }

  /**
   * `extract_homework_part(description, tag)`: the stripped text after the first `tag`,
   * up to the earliest later occurrence of the other tag, or to the end.
   */
  function Extract(tags: Tags, description: string, seg: Segment): (r: string)
    requires ValidTags(tags)
    ensures !Contains(description, TagOf(tags, seg)) ==> r == ""
    ensures !Contains(r, TagOf(tags, seg.Other()))
    ensures r == "" || (!IsSpace(r[0]) && !IsSpace(r[|r| - 1]))
  {
    if !Contains(description, TagOf(tags, seg)) then ""
    else
      var body := ExtractBody(tags, description, seg);
      StripKeepsAbsent(body, TagOf(tags, seg.Other()));
      Strip(body)
  }

  /** Occurrences in a suffix `d[s..]` are the occurrences in `d` at or after `s`, shifted. */
  lemma SuffixOccurrences(d: string, t: string, s: nat)
    requires s <= |d|
    ensures forall q :: OccursAt(d[s..], t, q) <==> q >= 0 && OccursAt(d, t, q + s)
  {
    forall q ensures OccursAt(d[s..], t, q) <==> q >= 0 && OccursAt(d, t, q + s) {
      if q >= 0 && q + |t| <= |d| - s {
        assert d[s..][q..q + |t|] == d[q + s..q + s + |t|];
      }
    }
  }

  /** The text of `after` up to the first `b`, or all of it. */
  function TextUntil(after: string, b: string): string {
    var n := Find(after, b);
    if n != -1 then after[..n] else after
  }


  /** The raw text with the running minimum replaced by `find` of the other tag. */
  lemma ExtractBodyIs(tags: Tags, d: string, seg: Segment, a: string, b: string)
    requires ValidTags(tags) && a == TagOf(tags, seg) && b == TagOf(tags, seg.Other())
    requires Contains(d, a)
    ensures ExtractBody(tags, d, seg) == TextUntil(d[Find(d, a) + |a|..], b)
  {
    var after := d[Find(d, a) + |a|..];
    assert SplitOnce(d, a).1 == after;
    EarliestOtherIsFind(tags, after, seg);
  }


  // ---------------------------------------------------------------------------
  // save_homework_to_event: splitting the old description

  /** Teacher notes, group segment and personal segment, as `save_homework_to_event` separates them. */
  datatype Parts = Parts(teacher: string, group: string, personal: string)

  /** The first split: the text before the group tag and the text after it (empty without the tag). */
  function GroupHalves(tags: Tags, d: string): (r: (string, string))
    requires Separators(tags)
    ensures r.0 <= d && !Contains(r.0, tags.group)
    ensures Contains(d, tags.group) ==>
      r.0 == d[..Find(d, tags.group)] && r.1 == d[Find(d, tags.group) + |tags.group|..]
    ensures !Contains(d, tags.group) ==> r == (d, "")
  {
    if Contains(d, tags.group) then SplitOnce(d, tags.group) else (d, "")
  }

  /**
   * The split of `save_homework_to_event` with the teacher notes kept in every branch
   * (the function as evidently intended; see `SplitDescriptionAsWritten`).
   */
  function SplitDescription(tags: Tags, d: string): (r: Parts)
    requires Separators(tags)
  {
    var halves := GroupHalves(tags, d);
    if Contains(halves.0, tags.personal) then
      var teacher := SplitOnce(halves.0, tags.personal);
      Parts(teacher.0, halves.1, teacher.1)
    else if Contains(halves.1, tags.personal) then
      var group := SplitOnce(halves.1, tags.personal);
      Parts(halves.0, group.0, group.1)
    else
      Parts(halves.0, halves.1, "")
  }

  /**
   * The split exactly as `save_homework_to_event` writes it: when the personal tag is
   * found after the group tag, `teacher_part` keeps its initial `""`.
   */
  function SplitDescriptionAsWritten(tags: Tags, d: string): (r: Parts)
    requires Separators(tags)
  {
    var (main, groupPart) := GroupHalves(tags, d);
    if Contains(main, tags.personal) then
      SplitDescription(tags, d)
    else if Contains(groupPart, tags.personal) then
      var (group, personal) := SplitOnce(groupPart, tags.personal);
      Parts("", group, personal)
    else
      Parts(main, groupPart, "")
  }

  /** The as-written split differs from the intended one only in the branch that drops the notes. */
  lemma AsWrittenDropsOnlyTeacher(tags: Tags, d: string)
    requires Separators(tags)
    ensures var (main, groupPart) := GroupHalves(tags, d);
      SplitDescriptionAsWritten(tags, d)
      == if !Contains(main, tags.personal) && Contains(groupPart, tags.personal)
         then SplitDescription(tags, d).(teacher := "")
         else SplitDescription(tags, d)
  {
  }

  /** A description whose segments hold no tag: the shape every description the bot writes has. */
  predicate WellFormed(tags: Tags, d: string)
    requires Separators(tags)
  {
    var parts := SplitDescription(tags, d);
    TagFree(tags, parts.group) && TagFree(tags, parts.personal)
  }

  /** A personal tag that starts before the end of the first group tag ends before that tag starts. */
  lemma PersonalEndsBeforeGroup(tags: Tags, d: string, q: int)
    requires ValidTags(tags) && Contains(d, tags.group)
    requires q < Find(d, tags.group) + |tags.group| && OccursAt(d, tags.personal, q)
    ensures q + |tags.personal| <= Find(d, tags.group)
  {
    var kG := Find(d, tags.group);
    if q + |tags.personal| > kG {
      if q <= kG {
        OccurrencesDisjoint(tags, d, Personal, Group, q, kG);
      } else {
        OccurrencesDisjoint(tags, d, Group, Personal, kG, q);
      }
    }
  }

  /** A personal tag that starts before the end of the first group tag lies wholly before it. */
  lemma PersonalBeforeGroupEnd(tags: Tags, d: string)
    requires ValidTags(tags) && Contains(d, tags.group)
    ensures forall q :: (q < Find(d, tags.group) + |tags.group| && OccursAt(d, tags.personal, q)
      ==> OccursAt(GroupHalves(tags, d).0, tags.personal, q))
  {
    var kG := Find(d, tags.group);
    var main := GroupHalves(tags, d).0;
    forall q | q < kG + |tags.group| && OccursAt(d, tags.personal, q)
      ensures OccursAt(main, tags.personal, q)
    {
      PersonalEndsBeforeGroup(tags, d, q);
      assert main[q..q + |tags.personal|] == d[q..q + |tags.personal|];
    }
  }

  /** The split when the description has no group tag. */
  lemma SplitNoGroupIs(tags: Tags, d: string)
    requires Separators(tags) && !Contains(d, tags.group)
    ensures SplitDescription(tags, d).group == ""
    ensures !Contains(d, tags.personal) ==> SplitDescription(tags, d).personal == ""
    ensures Contains(d, tags.personal) ==>
      SplitDescription(tags, d).teacher == d[..Find(d, tags.personal)] &&
      SplitDescription(tags, d).personal == d[Find(d, tags.personal) + |tags.personal|..]
  {
    assert !Contains("", tags.personal);
  }

  /** The split when a personal tag comes before the first group tag. */
  lemma SplitPersonalFirstIs(tags: Tags, d: string)
    requires Separators(tags) && Contains(d, tags.group)
    requires Contains(GroupHalves(tags, d).0, tags.personal)
    ensures 0 <= Find(d, tags.personal)
    ensures Find(d, tags.personal) + |tags.personal| <= Find(d, tags.group)
    ensures SplitDescription(tags, d).teacher == d[..Find(d, tags.personal)]
    ensures SplitDescription(tags, d).group == d[Find(d, tags.group) + |tags.group|..]
    ensures SplitDescription(tags, d).personal
      == d[Find(d, tags.personal) + |tags.personal|..Find(d, tags.group)]
  {
    var kG := Find(d, tags.group);
    FindInPrefix(d, tags.personal, kG);
  }

  /** With no personal tag before the first group tag, `find` of the personal tag is its position in the group half. */
  lemma PersonalAfterGroup(tags: Tags, d: string)
    requires ValidTags(tags) && Contains(d, tags.group)
    requires !Contains(GroupHalves(tags, d).0, tags.personal)
    ensures var s := Find(d, tags.group) + |tags.group|;
      var j0 := Find(GroupHalves(tags, d).1, tags.personal);
      Find(d, tags.personal) == if j0 == -1 then -1 else s + j0
  {
    var s := Find(d, tags.group) + |tags.group|;
    PersonalBeforeGroupEnd(tags, d);
    assert d == d[..s] + GroupHalves(tags, d).1;
    FindAfterPrefix(d, d[..s], GroupHalves(tags, d).1, tags.personal);
  }

  /** The split when the description has a group tag and no personal tag. */
  lemma SplitGroupOnlyIs(tags: Tags, d: string)
    requires Separators(tags) && Contains(d, tags.group) && !Contains(d, tags.personal)
    ensures var kG := Find(d, tags.group);
      SplitDescription(tags, d) == Parts(d[..kG], d[kG + |tags.group|..], "")
  {
    var (main, groupPart) := GroupHalves(tags, d);
    AbsentFromSlice(d, tags.personal, 0, |main|);
    assert main == d[0..|main|];
    AbsentFromSlice(d, tags.personal, |d| - |groupPart|, |d|);
    assert groupPart == d[|d| - |groupPart|..|d|];
  }

  /** The split when the first personal tag comes after the first group tag. */
  lemma SplitGroupThenPersonalIs(tags: Tags, d: string)
    requires Separators(tags) && Contains(d, tags.group)
    requires !Contains(GroupHalves(tags, d).0, tags.personal)
    requires Contains(GroupHalves(tags, d).1, tags.personal)
    requires Find(d, tags.personal)
      == Find(d, tags.group) + |tags.group| + Find(GroupHalves(tags, d).1, tags.personal)
    ensures SplitDescription(tags, d).group
      == d[Find(d, tags.group) + |tags.group|..Find(d, tags.personal)]
    ensures SplitDescription(tags, d).personal == d[Find(d, tags.personal) + |tags.personal|..]
  {
    SplitSecondBranch(tags, d);
    SplitOnceOfSuffix(d, Find(d, tags.group) + |tags.group|, GroupHalves(tags, d).1, tags.personal, Find(d, tags.personal));
  }

  /** The split when the personal tag follows the group tag: the group half is split at it. */
  lemma SplitSecondBranch(tags: Tags, d: string)
    requires Separators(tags)
    requires !Contains(GroupHalves(tags, d).0, tags.personal) && Contains(GroupHalves(tags, d).1, tags.personal)
    ensures var halves := GroupHalves(tags, d);
      SplitDescription(tags, d) ==
        Parts(halves.0, SplitOnce(halves.1, tags.personal).0, SplitOnce(halves.1, tags.personal).1)
  {
  }

  /** `split` of a suffix `x == d[s..]` at its first `sep`, which is at `e` in `d`. */
  lemma SplitOnceOfSuffix(d: string, s: nat, x: string, sep: string, e: nat)
    requires s <= |d| && x == d[s..] && sep != "" && Contains(x, sep) && e == s + Find(x, sep)
    ensures SplitOnce(x, sep) == (d[s..e], d[e + |sep|..])
  {
    SuffixSlices(d, s, x, Find(x, sep), |sep|, e);
  }

  /** Cutting a suffix `x` of `d` at `k` (position `e` in `d`) and after a separator of length `n`. */
  lemma SuffixSlices(d: string, s: nat, x: string, k: nat, n: nat, e: nat)
    requires s <= |d| && x == d[s..] && k + n <= |x| && e == s + k
    ensures x[..k] == d[s..e] && x[k + n..] == d[e + n..]
  {
  }

  /** `TextUntil` of a suffix that starts no later than the first `b`: the text up to it. */
  lemma TextUntilFound(d: string, b: string, s: nat, body: string)
    requires Contains(d, b) && s <= Find(d, b) && body == d[s..Find(d, b)]
    ensures body == TextUntil(d[s..], b)
  {
    var kB := Find(d, b);
    assert d == d[..s] + d[s..];
    FindAfterPrefix(d, d[..s], d[s..], b);
    assert d[s..][..kB - s] == d[s..kB];
  }

  /** `Extract` is the text up to the other tag, stripped. */
  lemma ExtractOfBody(tags: Tags, d: string, seg: Segment, a: string, b: string, body: string)
    requires ValidTags(tags) && a == TagOf(tags, seg) && b == TagOf(tags, seg.Other())
    requires Contains(d, a) && body == TextUntil(d[Find(d, a) + |a|..], b)
    ensures Extract(tags, d, seg) == Strip(body)
  {
    ExtractBodyIs(tags, d, seg, a, b);
  }

  /**
   * `Extract` when the other tag `b` does not occur after the target tag `a`: the rest
   * of the description, stripped.
   */
  lemma ExtractTail(tags: Tags, d: string, seg: Segment, a: string, b: string, body: string)
    requires ValidTags(tags) && a == TagOf(tags, seg) && b == TagOf(tags, seg.Other())
    requires Contains(d, a) && body == d[Find(d, a) + |a|..] && !Contains(body, b)
    ensures Extract(tags, d, seg) == Strip(body)
  {
    ExtractOfBody(tags, d, seg, a, b, body);
  }

  /**
   * `Extract` when the other tag `b` first occurs after the target tag `a`: the text
   * between them, stripped.
   */
  lemma ExtractUpTo(tags: Tags, d: string, seg: Segment, a: string, b: string, body: string)
    requires ValidTags(tags) && a == TagOf(tags, seg) && b == TagOf(tags, seg.Other())
    requires Contains(d, a) && Contains(d, b) && Find(d, a) + |a| <= Find(d, b)
    requires body == d[Find(d, a) + |a|..Find(d, b)]
    ensures Extract(tags, d, seg) == Strip(body)
  {
    TextUntilFound(d, b, Find(d, a) + |a|, body);
    ExtractOfBody(tags, d, seg, a, b, body);
  }

  lemma ExtractGroupNoGroup(tags: Tags, d: string)
    requires ValidTags(tags) && !Contains(d, tags.group)
    ensures Extract(tags, d, Group) == Strip(SplitDescription(tags, d).group)
  {
    SplitNoGroupIs(tags, d);
    assert Strip("") == "";
  }

  lemma ExtractPersonalNoGroup(tags: Tags, d: string)
    requires ValidTags(tags) && !Contains(d, tags.group)
    ensures Extract(tags, d, Personal) == Strip(SplitDescription(tags, d).personal)
  {
    SplitNoGroupIs(tags, d);
    if Contains(d, tags.personal) {
      var s := Find(d, tags.personal) + |tags.personal|;
      AbsentFromSlice(d, tags.group, s, |d|);
      assert d[s..|d|] == SplitDescription(tags, d).personal;
      ExtractTail(tags, d, Personal, tags.personal, tags.group, SplitDescription(tags, d).personal);
    } else {
      assert Strip("") == "";
    }
  }

  lemma ExtractGroupPersonalFirst(tags: Tags, d: string)
    requires ValidTags(tags) && Contains(d, tags.group)
    requires Contains(GroupHalves(tags, d).0, tags.personal)
    requires TagFree(tags, SplitDescription(tags, d).group)
    ensures Extract(tags, d, Group) == Strip(SplitDescription(tags, d).group)
  {
    SplitPersonalFirstIs(tags, d);
    ExtractTail(tags, d, Group, tags.group, tags.personal, SplitDescription(tags, d).group);
  }

  lemma ExtractPersonalPersonalFirst(tags: Tags, d: string)
    requires ValidTags(tags) && Contains(d, tags.group)
    requires Contains(GroupHalves(tags, d).0, tags.personal)
    ensures Extract(tags, d, Personal) == Strip(SplitDescription(tags, d).personal)
  {
    SplitPersonalFirstIs(tags, d);
    assert Contains(d, tags.personal);
    ExtractUpTo(tags, d, Personal, tags.personal, tags.group, SplitDescription(tags, d).personal);
  }

  lemma ExtractSplitGroupOnly(tags: Tags, d: string)
    requires ValidTags(tags) && Contains(d, tags.group) && !Contains(d, tags.personal)
    ensures Extract(tags, d, Group) == Strip(SplitDescription(tags, d).group)
    ensures Extract(tags, d, Personal) == Strip(SplitDescription(tags, d).personal)
  {
    var parts := SplitDescription(tags, d);
    SplitGroupOnlyIs(tags, d);
    var s := Find(d, tags.group) + |tags.group|;
    AbsentFromSlice(d, tags.personal, s, |d|);
    assert d[s..|d|] == parts.group;
    ExtractTail(tags, d, Group, tags.group, tags.personal, parts.group);
    assert Strip("") == "";
  }

  lemma ExtractGroupGroupFirst(tags: Tags, d: string)
    requires ValidTags(tags) && Contains(d, tags.group) && Contains(d, tags.personal)
    requires !Contains(GroupHalves(tags, d).0, tags.personal)
    requires Contains(GroupHalves(tags, d).1, tags.personal)
    requires Find(d, tags.personal)
      == Find(d, tags.group) + |tags.group| + Find(GroupHalves(tags, d).1, tags.personal)
    ensures Extract(tags, d, Group) == Strip(SplitDescription(tags, d).group)
  {
    var s, e := Find(d, tags.group) + |tags.group|, Find(d, tags.personal);
    var body := SplitDescription(tags, d).group;
    SplitGroupThenPersonalIs(tags, d);
    assert s <= e && body == d[s..e];
    ExtractUpTo(tags, d, Group, tags.group, tags.personal, body);
  }

  lemma ExtractPersonalGroupFirst(tags: Tags, d: string)
    requires ValidTags(tags) && Contains(d, tags.group) && Contains(d, tags.personal)
    requires !Contains(GroupHalves(tags, d).0, tags.personal)
    requires Contains(GroupHalves(tags, d).1, tags.personal)
    requires Find(d, tags.personal)
      == Find(d, tags.group) + |tags.group| + Find(GroupHalves(tags, d).1, tags.personal)
    requires TagFree(tags, SplitDescription(tags, d).personal)
    ensures Extract(tags, d, Personal) == Strip(SplitDescription(tags, d).personal)
  {
    SplitGroupThenPersonalIs(tags, d);
    ExtractTail(tags, d, Personal, tags.personal, tags.group, SplitDescription(tags, d).personal);
  }

  /**
   * Extracting a tag from a well-formed description yields the stripped segment the
   * split finds for it: `extract_homework_part` and `save_homework_to_event` agree on
   * where segments begin and end.
   */
  lemma ExtractSplit(tags: Tags, d: string)
    requires ValidTags(tags) && WellFormed(tags, d)
    ensures Extract(tags, d, Group) == Strip(SplitDescription(tags, d).group)
    ensures Extract(tags, d, Personal) == Strip(SplitDescription(tags, d).personal)
  {
    if !Contains(d, tags.group) {
      ExtractGroupNoGroup(tags, d);
      ExtractPersonalNoGroup(tags, d);
    } else if Contains(GroupHalves(tags, d).0, tags.personal) {
      ExtractGroupPersonalFirst(tags, d);
      ExtractPersonalPersonalFirst(tags, d);
    } else {
      PersonalAfterGroup(tags, d);
      if !Contains(d, tags.personal) {
        ExtractSplitGroupOnly(tags, d);
      } else {
        ExtractGroupGroupFirst(tags, d);
        ExtractPersonalGroupFirst(tags, d);
      }
    }
  }
}
