/**
 * Finding a lesson in a calendar: the subject read off an event summary by the two
 * regular expressions the handlers use, the first event of a subject and colour, the
 * subject menu offered to the user and the button that picks from it.
 */
module Lessons {
  import opened Wrappers
  import opened Text
  import opened Event

  const LineFeed: char := '\n'
  const Paren: char := '('

  /** `s[..j]` lies on the first line, where `.` can match it. */
  predicate OnFirstLine(s: string, j: nat)
    requires j <= |s|
  {
    forall q :: 0 <= q < j ==> s[q] != LineFeed
  }

  /** The first index at or after `i` holding `c`, or -1. */
  function IndexOf(s: string, c: char, i: nat): (r: int)
    requires i <= |s|
    decreases |s| - i
    ensures r == -1 || (i <= r < |s| && s[r] == c)
    ensures forall q :: i <= q < |s| && (r == -1 || q < r) ==> s[q] != c
  {
    if i == |s| then -1 else if s[i] == c then i else IndexOf(s, c, i + 1)
  }

  // ---------------------------------------------------------------------------
  // `^(.*?)\s*\(`

  /** Group 1 of `^(.*?)\s*\(` can end at `j`: the prefix is on the first line and only whitespace separates it from a `(`. */
  predicate SpacedParenAt(s: string, j: nat) {
    j <= |s| && OnFirstLine(s, j) && exists k :: j <= k < |s| && SpacesIn(s, j, k) && s[k] == Paren
  }

  /** Where the lazy group of `^(.*?)\s*\(` ends: before the whitespace preceding the first `(`, if that is on the first line. */
  function SpacedParenMatch(s: string): Option<nat> {
    var k := IndexOf(s, Paren, 0);
    if k == -1 then None
    else
      var j := TrimEnd(s, k);
      if OnFirstLine(s, j) then Some(j) else None
  }

  /** No group can end before the whitespace run ahead of the first `(`. */
  lemma SpacedParenNotBefore(s: string, j: nat)
    requires IndexOf(s, Paren, 0) != -1 && j < TrimEnd(s, IndexOf(s, Paren, 0))
    ensures !SpacedParenAt(s, j)
  {
    var k0 := IndexOf(s, Paren, 0);
    var j0 := TrimEnd(s, k0);
    forall k | j <= k < |s| && s[k] == Paren ensures !SpacesIn(s, j, k) {
      assert k0 <= k;
      assert !IsSpace(s[j0 - 1]);
    }
  }

  /**
   * `SpacedParenMatch` is the regular expression's lazy match: it names the smallest
   * `j` where group 1 can end, and there is no match exactly when no `j` can.
   */
  lemma SpacedParenMatchIsLazy(s: string)
    ensures SpacedParenMatch(s).Some? ==>
      SpacedParenAt(s, SpacedParenMatch(s).value) && forall j :: 0 <= j < SpacedParenMatch(s).value ==> !SpacedParenAt(s, j)
    ensures SpacedParenMatch(s).None? ==> forall j: nat :: !SpacedParenAt(s, j)
  {
    var k0 := IndexOf(s, Paren, 0);
    if k0 != -1 {
      var j0 := TrimEnd(s, k0);
      TrimEndTrims(s, k0);
      forall j: nat | j < j0 ensures !SpacedParenAt(s, j) {
        SpacedParenNotBefore(s, j);
      }
      if !OnFirstLine(s, j0) {
        forall j: nat | j0 <= j <= |s| ensures !OnFirstLine(s, j) {
          var q :| 0 <= q < j0 && s[q] == LineFeed;
          assert q < j;
        }
      }
    }
  }

  /** `match.group(1).strip() if match else event_summary.strip()` at bot_test.py:871-872. */
  function SubjectSpaced(summary: string): (r: string)
    ensures Strip(r) == r
  {
    match SpacedParenMatch(summary)
    case Some(j) => StripIdempotent(summary[..j]); Strip(summary[..j])
    case None => StripIdempotent(summary); Strip(summary)
  }

  // ---------------------------------------------------------------------------
  // `^(.*?)\s\(`

  /** Group 1 of `^(.*?)\s\(` can end at `j`: the prefix is on the first line and is followed by one whitespace character and `(`. */
  predicate SpaceParenAt(s: string, j: nat) {
    j + 1 < |s| && OnFirstLine(s, j) && IsSpace(s[j]) && s[j + 1] == Paren
  }

  /** The first index at or after `i` followed by whitespace and `(`, or -1. */
  function SpaceParenFrom(s: string, i: nat): (r: int)
    decreases |s| - i
    ensures r == -1 || (i <= r && r + 1 < |s| && IsSpace(s[r]) && s[r + 1] == Paren)
    ensures forall q :: i <= q && q + 1 < |s| && (r == -1 || q < r) ==> !(IsSpace(s[q]) && s[q + 1] == Paren)
  {
    if i + 1 >= |s| then -1
    else if IsSpace(s[i]) && s[i + 1] == Paren then i
    else SpaceParenFrom(s, i + 1)
  }

  /** Where the lazy group of `^(.*?)\s\(` ends: before the first whitespace-and-`(`, if that is on the first line. */
  function SpaceParenMatch(s: string): Option<nat> {
    var j := SpaceParenFrom(s, 0);
    if j == -1 || !OnFirstLine(s, j) then None else Some(j)
  }

  /** `SpaceParenMatch` is the regular expression's lazy match. */
  lemma SpaceParenMatchIsLazy(s: string)
    ensures SpaceParenMatch(s).Some? ==>
      SpaceParenAt(s, SpaceParenMatch(s).value) && forall j :: 0 <= j < SpaceParenMatch(s).value ==> !SpaceParenAt(s, j)
    ensures SpaceParenMatch(s).None? ==> forall j: nat :: !SpaceParenAt(s, j)
  {
    var j0 := SpaceParenFrom(s, 0);
    if j0 != -1 && !OnFirstLine(s, j0) {
      forall j: nat | j0 <= j <= |s| ensures !OnFirstLine(s, j) {
        var q :| 0 <= q < j0 && s[q] == LineFeed;
        assert q < j;
      }
    }
  }

  /** `match.group(1).strip() if match else ''` at bot_test.py:925-926 and its copies. */
  function SubjectSingle(summary: string): (r: string)
    ensures Strip(r) == r
  {
    match SpaceParenMatch(summary)
    case Some(j) => StripIdempotent(summary[..j]); Strip(summary[..j])
    case None => ""
  }

  /**
   * Where the one-space pattern matches, so does the other, and the two subjects agree
   * unless the one-space subject itself holds a `(`.
   */
  lemma SubjectsAgree(s: string)
    requires SpaceParenMatch(s).Some?
    ensures SpacedParenMatch(s).Some?
    ensures SubjectSpaced(s) == SubjectSingle(s) || exists q :: 0 <= q < SpaceParenMatch(s).value && s[q] == Paren
  {
    var j := SpaceParenMatch(s).value;
    var k0 := IndexOf(s, Paren, 0);
    assert k0 != -1 && k0 <= j + 1;
    if k0 == j + 1 {
      var j0 := TrimEnd(s, k0);
      TrimEndTrims(s, k0);
      assert j0 <= j;
      assert OnFirstLine(s, j0);
      assert SpacesIn(s, j0, j);
      StripOfSpaces(s, j0, j);
    }
  }

  /** Whitespace between `j0` and `j` does not change the stripped prefix. */
  lemma StripOfSpaces(s: string, j0: nat, j: nat)
    requires j0 <= j <= |s| && SpacesIn(s, j0, j)
    ensures Strip(s[..j]) == Strip(s[..j0])
  {
    var t := s[..j];
    assert t[..j0] == s[..j0] && t[j0..] == s[j0..j];
    assert t == t[..j0] + t[j0..];
    assert AllSpace(t[j0..]) && AllSpace("");
    StripPadded("", t[..j0], t[j0..]);
    assert "" + t[..j0] == t[..j0];
  }

  /**
   * A summary written as `subject (kind)` yields `subject` under both patterns, for a
   * stripped single-line subject holding no `(`.
   */
  lemma SubjectOfSummary(subject: string, rest: string)
    requires subject != "" && Strip(subject) == subject
    requires forall q :: 0 <= q < |subject| ==> subject[q] != Paren && subject[q] != LineFeed
    ensures SubjectSpaced(subject + " (" + rest) == subject
    ensures SubjectSingle(subject + " (" + rest) == subject
  {
    var s := subject + " (" + rest;
    var n := |subject|;
    SummaryPrefix(subject, rest);
    assert s[..n] == subject;
  }

  /** Both patterns end group 1 of `subject (rest)` right after `subject`. */
  lemma SummaryPrefix(subject: string, rest: string)
    requires subject != "" && Strip(subject) == subject
    requires forall q :: 0 <= q < |subject| ==> subject[q] != Paren && subject[q] != LineFeed
    ensures SpacedParenMatch(subject + " (" + rest) == Some(|subject|)
    ensures SpaceParenMatch(subject + " (" + rest) == Some(|subject|)
  {
    var s := subject + " (" + rest;
    var n := |subject|;
    assert s[n] == ' ' && s[n + 1] == Paren;
    assert forall q :: 0 <= q < n ==> s[q] == subject[q];
    assert !IsSpace(subject[n - 1]);
    assert IndexOf(s, Paren, 0) == n + 1;
    assert TrimEnd(s, n + 1) == n;
    assert SpaceParenFrom(s, 0) == n;
  }

  // ---------------------------------------------------------------------------
  // The first lesson

  /** An event as the calendar lists it; a missing summary reads as `""`, a missing colour as `None`. */
  datatype EventRecord = EventRecord(summary: string, colorId: Option<string>, description: string, attachments: Option<seq<Attachment>>)

  /** Which of the two patterns reads the subject. */
  datatype Pattern = SpacesBeforeParen | OneSpaceBeforeParen

  function SubjectOf(p: Pattern, summary: string): string {
    match p
    case SpacesBeforeParen => SubjectSpaced(summary)
    case OneSpaceBeforeParen => SubjectSingle(summary)
  }

  /** `event_subject == subject and event.get('colorId') == class_color_id`. */
  predicate IsLesson(e: EventRecord, p: Pattern, subject: string, colorId: Option<string>) {
    SubjectOf(p, e.summary) == subject && e.colorId == colorId
  }

  /** The index of the first lesson at or after `i`, if any. */
  function FirstLesson(events: seq<EventRecord>, p: Pattern, subject: string, colorId: Option<string>, i: nat): Option<nat>
    decreases |events| - i
  {
    if i >= |events| then None
    else if IsLesson(events[i], p, subject, colorId) then Some(i)
    else FirstLesson(events, p, subject, colorId, i + 1)
  }

  /**
   * `FirstLesson` from `i` finds a lesson with no lesson between `i` and it, and finds
   * none exactly when no event from `i` on is a lesson.
   */
  lemma {:induction false} FirstLessonIsFirst(events: seq<EventRecord>, p: Pattern, subject: string, colorId: Option<string>, i: nat)
    ensures var r := FirstLesson(events, p, subject, colorId, i);
      && (r.Some? ==> i <= r.value < |events| && IsLesson(events[r.value], p, subject, colorId)
                      && forall j :: i <= j < r.value ==> !IsLesson(events[j], p, subject, colorId))
      && (r.None? <==> forall j :: i <= j < |events| ==> !IsLesson(events[j], p, subject, colorId))
    decreases |events| - i
  {
    if i < |events| {
      var hit := IsLesson(events[i], p, subject, colorId);
      if !hit {
        FirstLessonIsFirst(events, p, subject, colorId, i + 1);
        var r := FirstLesson(events, p, subject, colorId, i + 1);
        assert FirstLesson(events, p, subject, colorId, i) == r;
        if r.Some? {
          forall j | i <= j < r.value ensures !IsLesson(events[j], p, subject, colorId) {
            if j > i {
              assert i + 1 <= j;
            }
          }
        } else {
          forall j | i <= j < |events| ensures !IsLesson(events[j], p, subject, colorId) {
            if j > i {
              assert i + 1 <= j;
            }
          }
        }
      }
    }
  }

  /** The loop over `events` that stops at the first lesson of `subject` in colour `colorId`. */
  method FindLesson(events: seq<EventRecord>, p: Pattern, subject: string, colorId: Option<string>) returns (found: Option<nat>)
    ensures found == FirstLesson(events, p, subject, colorId, 0)
  {
    for i := 0 to |events|
      invariant FirstLesson(events, p, subject, colorId, i) == FirstLesson(events, p, subject, colorId, 0)
    {
      var hit := IsLesson(events[i], p, subject, colorId);
      FirstLessonStep(events, p, subject, colorId, i, hit);
      if hit {
        return Some(i);
      }
    }
    return None;
  }

  /** One step of the search: a lesson at `i` is found there, otherwise the search goes on from `i + 1`. */
  lemma FirstLessonStep(events: seq<EventRecord>, p: Pattern, subject: string, colorId: Option<string>, i: nat, hit: bool)
    requires i < |events| && hit == IsLesson(events[i], p, subject, colorId)
    ensures FirstLesson(events, p, subject, colorId, i) == if hit then Some(i) else FirstLesson(events, p, subject, colorId, i + 1)
  {
  }

  // ---------------------------------------------------------------------------
  // String order and the subject menu

  /** Python's `<` on strings: code point by code point, a proper prefix first. */
  predicate StrLess(a: string, b: string)
    decreases |a|
  {
    if a == [] then b != []
    else if b == [] then false
    else if a[0] != b[0] then a[0] < b[0]
    else StrLess(a[1..], b[1..])
  }

  lemma {:induction false} StrLessIrreflexive(a: string)
    ensures !StrLess(a, a)
    decreases |a|
  {
    if a != [] {
      StrLessIrreflexive(a[1..]);
    }
  }

  lemma {:induction false} StrLessTransitive(a: string, b: string, c: string)
    requires StrLess(a, b) && StrLess(b, c)
    ensures StrLess(a, c)
    decreases |a|
  {
    if a != [] && b != [] && c != [] && a[0] == b[0] && b[0] == c[0] {
      StrLessTransitive(a[1..], b[1..], c[1..]);
    }
  }

  lemma {:induction false} StrLessTotal(a: string, b: string)
    ensures a == b || StrLess(a, b) || StrLess(b, a)
    decreases |a|
  {
    if a != [] && b != [] && a[0] == b[0] {
      StrLessTotal(a[1..], b[1..]);
      if a[1..] == b[1..] {
        assert a == [a[0]] + a[1..] && b == [b[0]] + b[1..];
      }
    }
  }

  /** Ascending, duplicates allowed. */
  predicate Sorted(r: seq<string>) {
    forall i, j :: 0 <= i < j < |r| ==> !StrLess(r[j], r[i])
  }

  /** Ascending without duplicates. */
  predicate SortedStrict(r: seq<string>) {
    forall i, j :: 0 <= i < j < |r| ==> StrLess(r[i], r[j])
  }

  lemma StrictIsSorted(r: seq<string>)
    requires SortedStrict(r)
    ensures Sorted(r)
  {
    forall i, j | 0 <= i < j < |r| ensures !StrLess(r[j], r[i]) {
      if StrLess(r[j], r[i]) {
        StrLessTransitive(r[i], r[j], r[i]);
        StrLessIrreflexive(r[i]);
      }
    }
  }

  /** `x` placed into the ascending `r` after the entries not above it, as a stable sort places it. */
  function InsertStr(r: seq<string>, x: string): (r': seq<string>)
    requires Sorted(r)
    ensures Sorted(r')
    ensures multiset(r') == multiset(r) + multiset{x}
    decreases |r|
  {
    if r == [] then [x]
    else if StrLess(x, r[0]) then
      BelowHead(r, x);
      [x] + r
    else
      var tail := InsertStr(r[1..], x);
      AboveHead(r, x, tail);
      [r[0]] + tail
  }

  /** A key below the head of a sorted list goes in front of it. */
  lemma BelowHead(r: seq<string>, x: string)
    requires Sorted(r) && r != [] && StrLess(x, r[0])
    ensures Sorted([x] + r)
  {
    forall i | 0 <= i < |r| ensures !StrLess(r[i], x) {
      if StrLess(r[i], x) {
        StrLessTransitive(r[i], x, r[0]);
        StrLessIrreflexive(r[0]);
      }
    }
  }

  /** The head of a sorted list stays in front of the tail with a key inserted further on. */
  lemma AboveHead(r: seq<string>, x: string, tail: seq<string>)
    requires Sorted(r) && r != [] && !StrLess(x, r[0])
    requires Sorted(tail) && multiset(tail) == multiset(r[1..]) + multiset{x}
    ensures Sorted([r[0]] + tail)
    ensures multiset([r[0]] + tail) == multiset(r) + multiset{x}
  {
    forall y | y in tail ensures !StrLess(y, r[0]) {
      assert y in multiset(tail);
      if y != x {
        assert y in r[1..];
      }
    }
    assert r == [r[0]] + r[1..];
  }

  /** Inserting a new string into a strictly ascending list keeps it strictly ascending. */
  lemma InsertStrStrict(r: seq<string>, x: string)
    requires SortedStrict(r) && x !in r
    ensures Sorted(r) && SortedStrict(InsertStr(r, x))
  {
    StrictIsSorted(r);
    var r' := InsertStr(r, x);
    forall i, j | 0 <= i < j < |r'| ensures StrLess(r'[i], r'[j]) {
      var y := r'[i];
      UniqueCount(r, y);
      assert multiset(r')[y] <= 1;
      TwiceCounted(r', i, j);
      StrLessTotal(r'[i], r'[j]);
    }
  }

  /** Equal entries at two places count twice. */
  lemma TwiceCounted(r: seq<string>, i: nat, j: nat)
    requires i < j < |r|
    ensures r[i] == r[j] ==> multiset(r)[r[i]] >= 2
  {
    var y := r[i];
    assert r == r[..i] + [y] + r[i + 1..j] + [r[j]] + r[j + 1..];
  }

  /** In a strictly ascending list every string occurs at most once. */
  lemma {:induction false} UniqueCount(r: seq<string>, y: string)
    requires SortedStrict(r)
    ensures multiset(r)[y] <= 1
    decreases |r|
  {
    if r != [] {
      UniqueCount(r[1..], y);
      assert r == [r[0]] + r[1..];
      if y == r[0] {
        forall i | 1 <= i < |r| ensures r[i] != y {
          StrLessIrreflexive(y);
        }
        assert y !in r[1..];
      }
    }
  }

  /** `sorted(list(set(xs)))` for strings. */
  function SortedSet(xs: seq<string>): (r: seq<string>)
    ensures SortedStrict(r)
    ensures forall y :: y in r <==> y in xs
    decreases |xs|
  {
    if xs == [] then []
    else
      var init := SortedSet(xs[..|xs| - 1]);
      var x := xs[|xs| - 1];
      assert forall y :: y in xs <==> y in xs[..|xs| - 1] || y == x by {
        assert xs == xs[..|xs| - 1] + [x];
      }
      if x in init then init
      else
        InsertStrStrict(init, x);
        var r := InsertStr(init, x);
        assert forall y :: y in r <==> y in multiset(r);
        r
  }

  const Theory: string := "Теоретические основы информатики"
  const Lab: string := "Лабораторная: " + Theory
  const Seminar: string := "Семинар"
  const LabWork: string := "Лабораторные работы"

  /** The subject buttons of `get_hw_text`: the distinct schedule subjects in order, plus the lab entry when the theory course is among them. */
  function SubjectsMenu(subjects: seq<string>): seq<string> {
    var base := SortedSet(subjects);
    if Theory in base then
      StrictIsSorted(base);
      InsertStr(base, Lab)
    else base
  }

  /**
   * The menu is ascending and offers every schedule subject, plus the lab entry exactly
   * when the theory course is scheduled; unless the lab entry is itself a schedule
   * subject, no button repeats.
   */
  lemma SubjectsMenuContents(subjects: seq<string>)
    ensures Sorted(SubjectsMenu(subjects))
    ensures forall y :: y in SubjectsMenu(subjects) <==> y in subjects || (y == Lab && Theory in subjects)
    ensures Lab !in subjects ==> SortedStrict(SubjectsMenu(subjects))
  {
    var base := SortedSet(subjects);
    var r := SubjectsMenu(subjects);
    StrictIsSorted(base);
    if Theory in base {
      assert forall y :: y in r <==> y in multiset(r);
      if Lab !in subjects {
        InsertStrStrict(base, Lab);
      }
    }
  }

  // ---------------------------------------------------------------------------
  // The chosen button

  /** What `choose_hw_subject` stores: `homework_subject` and `hw_type`. */
  datatype Selection = Selection(subject: string, lessonType: string)

  /** The lab entry stands for the theory course's lab work; any other entry for its seminar. */
  function SelectionOf(item: string): Selection {
    if item == Lab then Selection(Theory, LabWork) else Selection(item, Seminar)
  }

  /**
   * `choose_hw_subject`: the index after the last `_` of the button's data picks the
   * menu entry, counting from the end when negative as Python's indexing does; `None`
   * where the handler raises.
   */
  function ChooseSubject(menu: seq<string>, data: string): Option<Selection> {
    Pick(menu, ButtonIndex(data))
  }

  /** `int(query.data.split('_')[-1])`, or `None` where `int` raises. */
  function ButtonIndex(data: string): Option<int> {
    var pieces := SplitAll(data, "_");
    ParseInt(pieces[|pieces| - 1])
  }

  /** `subjects[index]` read as a selection, for the index parsed from the button (if any). */
  function Pick(menu: seq<string>, index: Option<int>): Option<Selection> {
    match index
    case None => None
    case Some(i) =>
      if 0 <= i < |menu| then Some(SelectionOf(menu[i]))
      else if -|menu| <= i < 0 then Some(SelectionOf(menu[|menu| + i]))
      else None
  }

  /** The callback data of button `i`: `f"{prefix}_{i}"`. */
  function ButtonData(prefix: string, i: nat): string {
    prefix + "_" + NatToString(i)
  }

  lemma {:induction false} JoinAppend(parts: seq<string>, sep: string, last: string)
    requires |parts| > 0
    ensures Join(parts + [last], sep) == Join(parts, sep) + sep + last
    decreases |parts|
  {
    if |parts| > 1 {
      assert (parts + [last])[1..] == parts[1..] + [last];
      JoinAppend(parts[1..], sep, last);
    } else {
      assert (parts + [last])[1..] == [last];
    }
  }

  /** Pressing button `i` of the menu selects entry `i`, whatever the data's prefix. */
  lemma ChooseButton(menu: seq<string>, prefix: string, i: nat)
    requires i < |menu|
    ensures ChooseSubject(menu, ButtonData(prefix, i)) == Some(SelectionOf(menu[i]))
  {
    var d := NatToString(i);
    var head := SplitAll(prefix, "_");
    DigitsPlain(d, "_");
    JoinAppend(head, "_", d);
    SplitAllJoin(head + [d], "_");
    ParseIntOfNatToString(i);
  }

  /**
   * A selection from the menu names a schedule subject (the theory course for the lab
   * entry) unless the lab entry is itself listed as a subject; only the lab entry selects
   * lab work.
   */
  lemma ChosenSubjectScheduled(subjects: seq<string>, data: string)
    requires ChooseSubject(SubjectsMenu(subjects), data).Some?
    ensures var sel := ChooseSubject(SubjectsMenu(subjects), data).value;
      && (Lab !in subjects ==> sel.subject in subjects)
      && (sel.lessonType == LabWork ==> sel.subject == Theory)
  {
    var menu := SubjectsMenu(subjects);
    SubjectsMenuContents(subjects);
    var item := ChooseSubjectPicks(menu, data);
  }

  /** A selection comes from some menu entry. */
  lemma ChooseSubjectPicks(menu: seq<string>, data: string) returns (item: string)
    requires ChooseSubject(menu, data).Some?
    ensures item in menu && ChooseSubject(menu, data).value == SelectionOf(item)
  {
    item := PickFrom(menu, ButtonIndex(data));
  }

  /** The entry a successful pick reads. */
  lemma PickFrom(menu: seq<string>, index: Option<int>) returns (item: string)
    requires Pick(menu, index).Some?
    ensures item in menu && Pick(menu, index).value == SelectionOf(item)
  {
    var i := index.value;
    item := if i >= 0 then menu[i] else menu[|menu| + i];
  }
}
