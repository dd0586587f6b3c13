/**
 * The page list typed in `summary_get_pages`: comma-separated page numbers and `a-b`
 * ranges, turned into the ascending, duplicate-free list of pages to summarise.
 */
module Pages {
  import opened Wrappers
  import opened Text
  import opened States

  const Comma: string := ","
  const Dash: string := "-"
  const ListSeparator: string := ", "

  // ---------------------------------------------------------------------------
  // Ascending, duplicate-free lists

  predicate Increasing(r: seq<int>) {
    forall i, j :: 0 <= i < j < |r| ==> r[i] < r[j]
  }

  /** `list(range(a, b))`. */
  function Range(a: int, b: int): (r: seq<int>)
    decreases b - a
    ensures |r| == if a <= b then b - a else 0
    ensures forall i :: 0 <= i < |r| ==> r[i] == a + i
  {
    if a >= b then [] else [a] + Range(a + 1, b)
  }

  /** `x` placed into the ascending list `r`, unless it is already there. */
  function Insert(r: seq<int>, x: int): (r': seq<int>)
    requires Increasing(r)
    ensures Increasing(r')
    ensures forall y :: y in r' <==> y in r || y == x
    decreases |r|
  {
    if r == [] then [x]
    else if x < r[0] then
      LeastFirst(r);
      IncreasingCons(x, r);
      [x] + r
    else if x == r[0] then r
    else
      var tail := Insert(r[1..], x);
      LeastFirst(r);
      IncreasingCons(r[0], tail);
      assert r == [r[0]] + r[1..];
      [r[0]] + tail
  }

  /** The first element of an ascending list is below every later one. */
  lemma LeastFirst(r: seq<int>)
    requires Increasing(r) && r != []
    ensures forall y :: y in r[1..] ==> r[0] < y
  {
    forall y | y in r[1..] ensures r[0] < y {
      var i :| 0 <= i < |r[1..]| && r[1..][i] == y;
      assert r[i + 1] == y;
    }
  }

  /** An element below every element of an ascending list can go in front. */
  lemma IncreasingCons(h: int, t: seq<int>)
    requires Increasing(t) && forall y :: y in t ==> h < y
    ensures Increasing([h] + t)
  {
    var w := [h] + t;
    forall i, j | 0 <= i < j < |w| ensures w[i] < w[j] {
      assert w[j] == t[j - 1];
      if i > 0 {
        assert w[i] == t[i - 1];
      } else {
        assert t[j - 1] in t;
      }
    }
  }

  /** `sorted(list(set(xs)))`. */
  function SortedUnique(xs: seq<int>): (r: seq<int>)
    ensures Increasing(r)
    ensures forall y :: y in r <==> y in xs
    decreases |xs|
  {
    if xs == [] then []
    else
      var r := Insert(SortedUnique(xs[..|xs| - 1]), xs[|xs| - 1]);
      assert forall y :: y in xs <==> y in xs[..|xs| - 1] || y == xs[|xs| - 1] by {
        assert xs == xs[..|xs| - 1] + [xs[|xs| - 1]];
      }
      r
  }

  /** An ascending list is fixed by its elements: the result of `sorted(list(set(..)))` is the only one. */
  lemma {:induction false} IncreasingUnique(r: seq<int>, r': seq<int>)
    requires Increasing(r) && Increasing(r')
    requires forall y :: y in r <==> y in r'
    ensures r == r'
    decreases |r|
  {
    if r != [] {
      assert r[0] in r;
    }
    if r' != [] {
      assert r'[0] in r';
    }
    if r != [] && r' != [] {
      assert r[0] == r'[0] by {
        assert r[0] in r' && r'[0] in r;
        var i :| 0 <= i < |r'| && r'[i] == r[0];
        var j :| 0 <= j < |r| && r[j] == r'[0];
        assert r'[0] <= r'[i] && r[0] <= r[j];
      }
      forall y ensures y in r[1..] <==> y in r'[1..] {
        if y in r[1..] {
          assert y in r' && y != r'[0];
        }
        if y in r'[1..] {
          assert y in r && y != r[0];
        }
      }
      IncreasingUnique(r[1..], r'[1..]);
      assert r == [r[0]] + r[1..] && r' == [r'[0]] + r'[1..];
    }
  }

  /** An ascending list is its own `sorted(list(set(..)))`. */
  lemma SortedUniqueOfIncreasing(r: seq<int>)
    requires Increasing(r)
    ensures SortedUnique(r) == r
  {
    IncreasingUnique(SortedUnique(r), r);
  }

  // ---------------------------------------------------------------------------
  // One comma-separated part

  /**
   * The pages one stripped part names: a part holding `-` must split into exactly two
   * integers `a <= b` and names `a` to `b`; any other part must be one integer. `None`
   * where the source raises `ValueError`.
   */
  function PartPages(part: string): Option<seq<int>> {
    if Contains(part, Dash) then
      var bounds := SplitAll(part, Dash);
      if |bounds| != 2 then None
      else PartOfTwo(ParseInt(bounds[0]), ParseInt(bounds[1]))
    else
      match ParseInt(part)
      case Some(v) => Some([v])
      case None => None
  }

  /** Whether an accepted `part` names page `p`. */
  predicate Names(part: string, p: int) {
    PartPages(part).Some? && p in PartPages(part).value
  }

  /** `int()` of text without a minus sign is not negative. */
  lemma ParseIntUnsigned(s: string)
    requires !Contains(s, Dash)
    ensures ParseInt(s).Some? ==> ParseInt(s).value >= 0
  {
    var t := Strip(s);
    StripKeepsAbsent(s, Dash);
    if |t| > 0 {
      assert !OccursAt(t, Dash, 0);
    }
  }

  /** Every accepted part names at least one page, and no page is negative: a `-` can only be a range. */
  lemma PartPagesNatural(part: string)
    ensures PartPages(part).Some? ==>
      |PartPages(part).value| > 0 && forall i :: 0 <= i < |PartPages(part).value| ==> PartPages(part).value[i] >= 0
  {
    if Contains(part, Dash) {
      var bounds := SplitAll(part, Dash);
      if |bounds| == 2 {
        RangeNatural(bounds[0], bounds[1]);
      }
    } else {
      ParseIntUnsigned(part);
    }
  }

  /** The pages of a range whose bounds hold no minus sign. */
  lemma RangeNatural(x: string, y: string)
    requires !Contains(x, Dash) && !Contains(y, Dash)
    ensures ParseInt(x).Some? && ParseInt(y).Some? && ParseInt(x).value <= ParseInt(y).value ==>
      var r := Range(ParseInt(x).value, ParseInt(y).value + 1);
      |r| > 0 && forall i :: 0 <= i < |r| ==> r[i] >= 0
  {
    ParseIntUnsigned(x);
  }

  /** `str(n)` is accepted as the single page `n`. */
  lemma PartOfNumber(n: nat)
    ensures PartPages(NatToString(n)) == Some([n])
  {
    DigitsPlain(NatToString(n), Dash);
    ParseIntOfNatToString(n);
  }

  /** `a-b` in decimal names the pages `a` to `b` when `a <= b` and is rejected otherwise. */
  lemma PartOfRange(a: nat, b: nat)
    ensures PartPages(NatToString(a) + Dash + NatToString(b)) ==
      if a <= b then Some(Range(a, b + 1)) else None
  {
    var x, y := NatToString(a), NatToString(b);
    DigitsPlain(x, Dash);
    DigitsPlain(y, Dash);
    ParseIntOfNatToString(a);
    ParseIntOfNatToString(b);
    PartOfValues(x, y, a, b);
  }

  /** A part `x-y` whose dash-free bounds read as `a` and `b`. */
  lemma PartOfValues(x: string, y: string, a: int, b: int)
    requires !Contains(x, Dash) && !Contains(y, Dash)
    requires ParseInt(x) == Some(a) && ParseInt(y) == Some(b)
    ensures PartPages(x + Dash + y) == if a <= b then Some(Range(a, b + 1)) else None
  {
    PartOfBounds(x, y);
  }

  /** A part `x-y` whose bounds hold no `-` is judged on the two bounds' `int()`. */
  lemma PartOfBounds(x: string, y: string)
    requires !Contains(x, Dash) && !Contains(y, Dash)
    ensures PartPages(x + Dash + y) == PartOfTwo(ParseInt(x), ParseInt(y))
  {
    var w := x + Dash + y;
    SplitAllHead(x, Dash, y);
    assert SplitAll(y, Dash) == [y];
    assert OccursAt(w, Dash, |x|);
    var bounds := SplitAll(w, Dash);
    assert |bounds| == 2 && bounds[0] == x && bounds[1] == y;
  }

  /** The verdict on a range from its two bounds' `int()`. */
  function PartOfTwo(a: Option<int>, b: Option<int>): Option<seq<int>> {
    match (a, b)
    case (Some(a), Some(b)) => if a > b then None else Some(Range(a, b + 1))
    case _ => None
  }

  /** A negative number is rejected: its minus sign makes the part a range with an empty start. */
  lemma PartOfNegative(n: nat)
    ensures PartPages(Dash + NatToString(n)) == None
  {
    var y := NatToString(n);
    var w := Dash + y;
    DigitsPlain(y, Dash);
    assert Join(["", y], Dash) == w;
    SplitAllJoin(["", y], Dash);
    assert OccursAt(w, Dash, 0);
    assert !IsDigits(Strip(""));
  }

  // ---------------------------------------------------------------------------
  // The whole input

  /** `[part.strip() for part in page_input.split(',')]`. */
  function Parts(input: string): (r: seq<string>)
    ensures |r| > 0
  {
    var raw := SplitAll(input, Comma);
    seq(|raw|, i requires 0 <= i < |raw| => Strip(raw[i]))
  }

  /** What `PartPages` says of each part. */
  function Verdicts(parts: seq<string>): (r: seq<Option<seq<int>>>)
    ensures |r| == |parts| && forall i :: 0 <= i < |parts| ==> r[i] == PartPages(parts[i])
  {
    seq(|parts|, i requires 0 <= i < |parts| => PartPages(parts[i]))
  }

  /** The pages of the verdicts in input order, or `None` at the first rejected part. */
  function Collect(verdicts: seq<Option<seq<int>>>): Option<seq<int>>
    decreases |verdicts|
  {
    if verdicts == [] then Some([])
    else
      match Collect(verdicts[..|verdicts| - 1])
      case None => None
      case Some(pages) =>
        match verdicts[|verdicts| - 1]
        case None => None
        case Some(more) => Some(pages + more)
  }

  /** The pages `summary_get_pages` accepts for `input`, or `None` where it replies with an error. */
  function PagesOf(input: string): Option<seq<int>> {
    match Collect(Verdicts(Parts(input)))
    case None => None
    case Some(pages) =>
      var r := SortedUnique(pages);
      if r == [] then None else Some(r)
  }

  /** A rejected prefix rejects the whole list. */
  lemma {:induction false} CollectRejects(verdicts: seq<Option<seq<int>>>, k: nat)
    requires k <= |verdicts| && Collect(verdicts[..k]) == None
    ensures Collect(verdicts) == None
    decreases |verdicts| - k
  {
    if k < |verdicts| {
      assert verdicts[..k + 1][..k] == verdicts[..k];
      CollectRejects(verdicts, k + 1);
    } else {
      assert verdicts[..k] == verdicts;
    }
  }

  /** `Collect` fails exactly when some part is rejected. */
  lemma {:induction false} CollectRejectsIff(verdicts: seq<Option<seq<int>>>)
    ensures Collect(verdicts).None? <==> exists i :: 0 <= i < |verdicts| && verdicts[i].None?
    decreases |verdicts|
  {
    if verdicts != [] {
      var init := verdicts[..|verdicts| - 1];
      CollectRejectsIff(init);
      if Collect(init).None? {
        var i :| 0 <= i < |init| && init[i].None?;
        assert verdicts[i] == init[i];
      } else if verdicts[|verdicts| - 1].Some? {
        forall i | 0 <= i < |verdicts| ensures verdicts[i].Some? {
          if i < |init| {
            assert verdicts[i] == init[i];
          }
        }
      }
    }
  }

  /** The pages of one more part, added to the pages before it. */
  lemma CollectStep(verdicts: seq<Option<seq<int>>>, i: nat, pages: seq<int>, more: seq<int>)
    requires i < |verdicts| && Collect(verdicts[..i]) == Some(pages) && verdicts[i] == Some(more)
    ensures Collect(verdicts[..i + 1]) == Some(pages + more)
  {
    assert verdicts[..i + 1][..i] == verdicts[..i];
  }

  /** A rejected part after an accepted prefix rejects the whole list. */
  lemma CollectStop(verdicts: seq<Option<seq<int>>>, i: nat)
    requires i < |verdicts| && Collect(verdicts[..i]).Some? && verdicts[i].None?
    ensures Collect(verdicts) == None
  {
    assert verdicts[..i + 1][..i] == verdicts[..i];
    CollectRejects(verdicts, i + 1);
  }

  /** A page is gathered exactly when some part names it. */
  lemma {:induction false} CollectMember(verdicts: seq<Option<seq<int>>>, p: int)
    requires Collect(verdicts).Some?
    ensures p in Collect(verdicts).value <==> exists i :: 0 <= i < |verdicts| && verdicts[i].Some? && p in verdicts[i].value
    decreases |verdicts|
  {
    if verdicts != [] {
      var init := verdicts[..|verdicts| - 1];
      var last := |verdicts| - 1;
      CollectMember(init, p);
      var more := verdicts[last].value;
      assert Collect(verdicts).value == Collect(init).value + more;
      if p in Collect(init).value {
        var i :| 0 <= i < |init| && init[i].Some? && p in init[i].value;
        assert verdicts[i] == init[i];
      } else if p !in more {
        forall i | 0 <= i < |verdicts| && verdicts[i].Some? ensures p !in verdicts[i].value {
          if i < last {
            assert verdicts[i] == init[i];
          }
        }
      }
    }
  }

  /** The input is rejected exactly when some stripped part is. */
  lemma PagesOfRejects(input: string)
    ensures var parts := Parts(input);
      PagesOf(input).None? <==> exists i :: 0 <= i < |parts| && PartPages(parts[i]).None?
  {
    var parts := Parts(input);
    var verdicts := Verdicts(parts);
    CollectRejectsIff(verdicts);
    if Collect(verdicts).Some? {
      var first := PartPages(parts[0]).value;
      PartPagesNatural(parts[0]);
      CollectMember(verdicts, first[0]);
      assert first[0] in SortedUnique(Collect(verdicts).value);
    }
  }

  /** An accepted page list holds exactly the pages some part names. */
  lemma PagesOfMember(input: string, p: int)
    requires PagesOf(input).Some?
    ensures var parts := Parts(input);
      p in PagesOf(input).value <==> exists i :: 0 <= i < |parts| && Names(parts[i], p)
  {
    var verdicts := Verdicts(Parts(input));
    CollectMember(verdicts, p);
  }

  /**
   * An accepted page list is ascending and duplicate-free, never empty, never
   * negative, and holds exactly the pages some part names.
   */
  lemma PagesOfAccepted(input: string)
    requires PagesOf(input).Some?
    ensures var parts := Parts(input);
      && Increasing(PagesOf(input).value)
      && |PagesOf(input).value| > 0
      && (forall p :: p in PagesOf(input).value ==> p >= 0)
      && forall p :: p in PagesOf(input).value <==> exists i :: 0 <= i < |parts| && Names(parts[i], p)
  {
    var parts := Parts(input);
    forall p ensures p in PagesOf(input).value <==> exists i :: 0 <= i < |parts| && Names(parts[i], p) {
      PagesOfMember(input, p);
    }
    forall p | p in PagesOf(input).value ensures p >= 0 {
      var i :| 0 <= i < |parts| && Names(parts[i], p);
      PartPagesNatural(parts[i]);
    }
  }

  /** `summary_get_pages`'s page-parsing block: one part at a time, stopping at the first rejected part. */
  method ParsePages(input: string) returns (r: Option<seq<int>>)
    ensures r == PagesOf(input)
  {
    var parts := Parts(input);
    ghost var verdicts := Verdicts(parts);
    var pages: seq<int> := [];
    for i := 0 to |parts|
      invariant Collect(verdicts[..i]) == Some(pages)
    {
      var part := PartPages(parts[i]);
      if part.None? {
        CollectStop(verdicts, i);
        return None;
      }
      CollectStep(verdicts, i, pages, part.value);
      pages := pages + part.value;
    }
    assert verdicts[..|parts|] == verdicts;
    var sorted := SortedUnique(pages);
    if sorted == [] {
      return None;
    }
    return Some(sorted);
  }

  // ---------------------------------------------------------------------------
  // The confirmation text

  /** `str(n)`. */
  function IntToString(n: int): string {
    if n < 0 then Dash + NatToString(-n) else NatToString(n)
  }

  /** `", ".join(map(str, pages))`. */
  function PagesString(pages: seq<int>): string {
    Join(seq(|pages|, i requires 0 <= i < |pages| => IntToString(pages[i])), ListSeparator)
  }

  /** The same list joined with `", "` is the list with a space before every later item joined with `","`. */
  lemma {:induction false} JoinSpaced(items: seq<string>)
    requires |items| > 0
    ensures Join(items, ListSeparator) ==
      Join(seq(|items|, i requires 0 <= i < |items| => if i == 0 then items[0] else " " + items[i]), Comma)
    decreases |items|
  {
    if |items| > 1 {
      var spaced := seq(|items|, i requires 0 <= i < |items| => if i == 0 then items[0] else " " + items[i]);
      var rest := items[1..];
      var spacedRest := seq(|rest|, i requires 0 <= i < |rest| => if i == 0 then rest[0] else " " + rest[i]);
      JoinSpaced(rest);
      assert spaced == [items[0]] + ([" " + rest[0]] + spacedRest[1..]);
      assert spacedRest == [rest[0]] + spacedRest[1..];
      JoinPrefixed(rest[0], spacedRest[1..], Comma);
      assert Join(spaced, Comma) == items[0] + Comma + (" " + Join(spacedRest, Comma));
      assert items == [items[0]] + rest;
    }
  }

  /** A space before the first part is a space before the joined text. */
  lemma JoinPrefixed(a: string, more: seq<string>, sep: string)
    ensures Join([" " + a] + more, sep) == " " + Join([a] + more, sep)
  {
    if |more| > 0 {
      assert ([" " + a] + more)[1..] == more && ([a] + more)[1..] == more;
    }
  }

  /** Each page number of an ascending list becomes one accepted part. */
  lemma {:induction false} CollectSingles(verdicts: seq<Option<seq<int>>>, pages: seq<int>)
    requires |verdicts| == |pages| && forall i :: 0 <= i < |pages| ==> verdicts[i] == Some([pages[i]])
    ensures Collect(verdicts) == Some(pages)
    decreases |pages|
  {
    if pages != [] {
      var n := |pages| - 1;
      CollectSingles(verdicts[..n], pages[..n]);
      assert pages[..n] + [pages[n]] == pages;
    }
  }

  /** The rendering of one page, after the space `", "` leaves before it, holds no comma. */
  lemma SpacedNoComma(n: nat, pre: string)
    requires pre == "" || pre == " "
    ensures !Contains(pre + NatToString(n), Comma)
  {
    var d := NatToString(n);
    var w := pre + d;
    forall k | 0 <= k < |w| ensures w[k] != Comma[0] {
      if k >= |pre| {
        assert w[k] == d[k - |pre|];
        assert IsDigit(d[k - |pre|]);
      }
    }
    AbsentChar(w, Comma);
  }

  /** The rendering of one page, after the space `", "` leaves before it, strips back to its digits. */
  lemma SpacedStrip(n: nat, pre: string)
    requires pre == "" || pre == " "
    ensures Strip(pre + NatToString(n)) == NatToString(n)
  {
    var d := NatToString(n);
    assert !IsSpace(d[0]) && !IsSpace(d[|d| - 1]);
    StripTrimmed(d);
    if pre == " " {
      assert AllSpace(pre) && AllSpace("");
      StripPadded(pre, d, "");
      assert pre + d + "" == pre + d;
    } else {
      assert pre + d == d;
    }
  }

  /**
   * The confirmation text `pages_str` parses back to the page list it shows: an
   * ascending, duplicate-free, non-negative, non-empty list survives the round trip.
   */
  lemma PagesRoundTrip(pages: seq<int>)
    requires Increasing(pages) && |pages| > 0 && forall i :: 0 <= i < |pages| ==> pages[i] >= 0
    ensures PagesOf(PagesString(pages)) == Some(pages)
  {
    var items := seq(|pages|, i requires 0 <= i < |pages| => IntToString(pages[i]));
    var spaced := seq(|items|, i requires 0 <= i < |items| => if i == 0 then items[0] else " " + items[i]);
    JoinSpaced(items);
    forall i | 0 <= i < |spaced|
      ensures !Contains(spaced[i], Comma) && Strip(spaced[i]) == items[i]
    {
      if i == 0 {
        SpacedNoComma(pages[i], "");
        SpacedStrip(pages[i], "");
        assert spaced[i] == "" + items[i];
      } else {
        SpacedNoComma(pages[i], " ");
        SpacedStrip(pages[i], " ");
      }
    }
    SplitAllJoin(spaced, Comma);
    var parts := Parts(PagesString(pages));
    assert parts == items;
    var verdicts := Verdicts(parts);
    forall i | 0 <= i < |pages| ensures verdicts[i] == Some([pages[i]]) {
      PartOfNumber(pages[i]);
    }
    CollectSingles(verdicts, pages);
    SortedUniqueOfIncreasing(pages);
  }

  // ---------------------------------------------------------------------------
  // The handler

  /** The two `user_data` entries `summary_get_pages` writes. */
  class SummaryRequest {
    var pages: seq<int>
    var pagesStr: string

    constructor ()
      ensures pages == [] && pagesStr == ""
    {
      pages := [];
      pagesStr := "";
    }

    /**
     * `summary_get_pages`: a rejected input leaves the stored entries alone and stays in
     * `GET_PAGE_NUMBERS`; an accepted one stores the pages and their rendering and moves
     * on to `CONFIRM_SUMMARY_GENERATION`.
     */
    method GetPages(input: string) returns (next: State)
      modifies this
      ensures PagesOf(input).None? ==>
        next == GetPageNumbers && pages == old(pages) && pagesStr == old(pagesStr)
      ensures PagesOf(input).Some? ==>
        next == ConfirmSummaryGeneration && pages == PagesOf(input).value && pagesStr == PagesString(pages)
    {
      var parsed := ParsePages(input);
      if parsed.None? {
        return GetPageNumbers;
      }
      pages := parsed.value;
      pagesStr := PagesString(pages);
      return ConfirmSummaryGeneration;
    }
  }
}
