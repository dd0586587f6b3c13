/**
 * The few Python `str` operations the bot's text handling is built from, with the
 * meaning CPython gives them: `find`, `rfind`, `in`, `split`, `strip`, `lstrip`,
 * `rstrip`, `replace(t, "")` and `int()`.
 */
module Text {
  import opened Wrappers

  /** `c.isspace()`: the characters `str.strip()` and `int()` remove and regex `\s` matches. */
  predicate IsSpace(c: char) {
    c == ' ' || ('\t' <= c <= '\r') || ('\U{1C}' <= c <= '\U{1F}') || c == '\U{85}' || c == '\U{A0}'
    || c == '\U{1680}' || ('\U{2000}' <= c <= '\U{200A}') || c == '\U{2028}' || c == '\U{2029}'
    || c == '\U{202F}' || c == '\U{205F}' || c == '\U{3000}'
  }

  predicate AllSpace(s: string) {
    forall i :: 0 <= i < |s| ==> IsSpace(s[i])
  }

  /** `t` occurs in `s` starting at index `k`. */
  predicate OccursAt(s: string, t: string, k: int) {
    0 <= k && k + |t| <= |s| && forall m :: 0 <= m < |t| ==> s[k + m] == t[m]
  }

  // ---------------------------------------------------------------------------
  // find / in / rfind

  /** `s.find(t, i)`: the first index at or after `i` where `t` occurs, or -1. */
  function FindFrom(s: string, t: string, i: nat): (r: int)
    decreases |s| - i
    ensures r == -1 || (i <= r && OccursAt(s, t, r))
    ensures r == -1 ==> forall k :: i <= k ==> !OccursAt(s, t, k)
    ensures r != -1 ==> forall k :: i <= k < r ==> !OccursAt(s, t, k)
  {
    if i + |t| > |s| then -1
    else if OccursAt(s, t, i) then i
    else FindFrom(s, t, i + 1)
  }

  /** `s.find(t)`. */
  function Find(s: string, t: string): (r: int)
    ensures r == -1 <==> forall k :: !OccursAt(s, t, k)
    ensures r != -1 ==> OccursAt(s, t, r) && forall k :: 0 <= k < r ==> !OccursAt(s, t, k)
  {
    FindFrom(s, t, 0)
  }

  /** `t in s`. */
  predicate Contains(s: string, t: string) {
    Find(s, t) != -1
  }

  /** An occurrence inside a slice is an occurrence in the whole string, shifted. */
  lemma SliceOccurrences(s: string, t: string, i: nat, j: nat)
    requires i <= j <= |s|
    ensures forall q :: OccursAt(s[i..j], t, q) ==> OccursAt(s, t, q + i) && q + i + |t| <= j
  {
    forall q | OccursAt(s[i..j], t, q) ensures OccursAt(s, t, q + i) {
      var u := s[i..j];
      assert forall m :: 0 <= m < |t| ==> t[m] == u[q + m] == s[q + i + m];
    }
  }

  /** Occurrences in a concatenation that lie inside one of the two parts. */
  lemma ConcatOccurrences(u: string, v: string, t: string)
    ensures forall q :: OccursAt(u + v, t, q) && q + |t| <= |u| ==> OccursAt(u, t, q)
    ensures forall q :: OccursAt(u + v, t, q) && q >= |u| ==> OccursAt(v, t, q - |u|)
    ensures forall q :: OccursAt(u, t, q) ==> OccursAt(u + v, t, q)
    ensures forall q :: OccursAt(v, t, q) ==> OccursAt(u + v, t, q + |u|)
  {
    var w := u + v;
    forall q | OccursAt(w, t, q) && q + |t| <= |u| ensures OccursAt(u, t, q) {
      assert w[q..q + |t|] == u[q..q + |t|];
    }
    forall q | OccursAt(w, t, q) && q >= |u| ensures OccursAt(v, t, q - |u|) {
      assert w[q..q + |t|] == v[q - |u|..q - |u| + |t|];
    }
    forall q | OccursAt(u, t, q) ensures OccursAt(w, t, q) {
      assert w[q..q + |t|] == u[q..q + |t|];
    }
    forall q | OccursAt(v, t, q) ensures OccursAt(w, t, q + |u|) {
      assert w[q + |u|..q + |u| + |t|] == v[q..q + |t|];
    }
  }

  /** `t` cannot occur in a slice of a string it does not occur in. */
  lemma AbsentFromSlice(s: string, t: string, i: nat, j: nat)
    requires i <= j <= |s| && !Contains(s, t)
    ensures !Contains(s[i..j], t)
  {
    SliceOccurrences(s, t, i, j);
  }

  /** The text before the first occurrence of a non-empty `t` does not contain `t`. */
  lemma AbsentBeforeFind(s: string, t: string)
    requires t != ""
    ensures Contains(s, t) ==> !Contains(s[..Find(s, t)], t)
  {
    var k := Find(s, t);
    if k != -1 {
      SliceOccurrences(s, t, 0, k);
      assert s[..k] == s[0..k];
      assert forall q :: !OccursAt(s[0..k], t, q);
    }
  }

  /** Two splittings of one string around a common middle, with equal first pieces, agree. */
  lemma ConcatCancel(a: string, t: string, b: string, a': string, b': string)
    requires a + t + b == a' + t + b' && |a| == |a'|
    ensures a == a' && b == b'
  {
    var w := a + t + b;
    assert a == w[..|a|] && a' == w[..|a|];
    assert b == w[|a| + |t|..] && b' == w[|a| + |t|..];
  }

  /** A string with a non-space character stays non-blank whatever is put before it. */
  lemma NonBlankAfter(x: string, body: string)
    requires !AllSpace(body)
    ensures !AllSpace(x + body)
  {
    var i :| 0 <= i < |body| && !IsSpace(body[i]);
    assert (x + body)[|x| + i] == body[i];
  }

  /** An occurrence with none before it is the one `find` reports. */
  lemma FindIs(s: string, t: string, m: int)
    requires OccursAt(s, t, m)
    requires forall k :: 0 <= k < m ==> !OccursAt(s, t, k)
    ensures Find(s, t) == m
  {
  }

  /** A string found in a prefix is found at the same place in the whole string. */
  lemma FindInPrefix(s: string, t: string, k: nat)
    requires k <= |s| && Contains(s[..k], t)
    ensures Find(s, t) == Find(s[..k], t)
  {
    var pre := s[..k];
    var m := Find(pre, t);
    assert pre + s[k..] == s;
    ConcatOccurrences(pre, s[k..], t);
    forall q | 0 <= q < m ensures !OccursAt(s, t, q) {
      assert q + |t| <= k;
      assert OccursAt(s, t, q) ==> OccursAt(pre, t, q);
    }
    FindIs(s, t, m);
  }

  /** `s.rfind(t, 0, end)` searched downwards from candidate start `k`. */
  function RFindFrom(s: string, t: string, end: int, k: int): (r: int)
    decreases k + 1
    ensures r == -1 || (0 <= r <= k && OccursAt(s, t, r) && r + |t| <= end)
    ensures r == -1 ==> forall q :: 0 <= q <= k && q + |t| <= end ==> !OccursAt(s, t, q)
    ensures r != -1 ==> forall q :: r < q <= k && q + |t| <= end ==> !OccursAt(s, t, q)
  {
    if k < 0 then -1
    else if k + |t| <= end && OccursAt(s, t, k) then k
    else RFindFrom(s, t, end, k - 1)
  }

  /** `s.rfind(t, 0, end)` for `end >= 0`: the last start `k` with `s[k:k+len(t)] == t` inside `s[:end]`, or -1. */
  function RFind(s: string, t: string, end: nat): (r: int)
    ensures r == -1 <==> forall q :: q + |t| <= end ==> !OccursAt(s, t, q)
    ensures r != -1 ==> OccursAt(s, t, r) && r + |t| <= end
    ensures r != -1 ==> forall q :: r < q && q + |t| <= end ==> !OccursAt(s, t, q)
  {
    RFindFrom(s, t, end, if end < |s| then end - |t| else |s| - |t|)
  }

  // ---------------------------------------------------------------------------
  // strip

  /** Whether `s[i..j]` holds only whitespace, stated on indices. */
  predicate SpacesIn(s: string, i: nat, j: nat)
    requires i <= j <= |s|
  {
    forall k :: i <= k < j ==> IsSpace(s[k])
  }

  /** The first index at or after `i` that does not hold whitespace, or `|s|`. */
  function SkipSpace(s: string, i: nat): (r: nat)
    requires i <= |s|
    decreases |s| - i
    ensures i <= r <= |s| && (r < |s| ==> !IsSpace(s[r]))
  {
    if i == |s| || !IsSpace(s[i]) then i else SkipSpace(s, i + 1)
  }

  /** Where `s[..j]` ends once its trailing whitespace is dropped. */
  function TrimEnd(s: string, j: nat): (r: nat)
    requires j <= |s|
    ensures r <= j && (r > 0 ==> !IsSpace(s[r - 1]))
  {
    if j == 0 || !IsSpace(s[j - 1]) then j else TrimEnd(s, j - 1)
  }

  lemma {:induction false} SkipSpaceSkips(s: string, i: nat)
    requires i <= |s|
    decreases |s| - i
    ensures SpacesIn(s, i, SkipSpace(s, i))
  {
    if i < |s| && IsSpace(s[i]) {
      SkipSpaceSkips(s, i + 1);
    }
  }

  lemma {:induction false} TrimEndTrims(s: string, j: nat)
    requires j <= |s|
    ensures SpacesIn(s, TrimEnd(s, j), j)
  {
    if j > 0 && IsSpace(s[j - 1]) {
      TrimEndTrims(s, j - 1);
    }
  }

  /** Skipping from anywhere inside a run of whitespace ends at the same place. */
  lemma {:induction false} SkipSpaceRun(s: string, i: nat, k: nat)
    requires i <= k <= |s| && SpacesIn(s, i, k)
    decreases k - i
    ensures SkipSpace(s, i) == SkipSpace(s, k)
  {
    if i < k {
      SkipSpaceRun(s, i + 1, k);
    }
  }

  lemma {:induction false} TrimEndRun(s: string, k: nat, j: nat)
    requires k <= j <= |s| && SpacesIn(s, k, j)
    ensures TrimEnd(s, j) == TrimEnd(s, k)
  {
    if k < j {
      TrimEndRun(s, k, j - 1);
    }
  }

  /** Text appended after the first non-space does not move it. */
  lemma {:induction false} SkipSpaceAppend(x: string, y: string, i: nat)
    requires i <= |x| && SkipSpace(x, i) < |x|
    decreases |x| - i
    ensures SkipSpace(x + y, i) == SkipSpace(x, i)
  {
    assert (x + y)[i] == x[i];
    if IsSpace(x[i]) {
      SkipSpaceAppend(x, y, i + 1);
    }
  }

  /** Text prepended shifts the first non-space by its length. */
  lemma {:induction false} SkipSpacePrepend(pre: string, x: string, k: nat)
    requires k <= |x|
    decreases |x| - k
    ensures SkipSpace(pre + x, |pre| + k) == |pre| + SkipSpace(x, k)
  {
    if k < |x| {
      assert (pre + x)[|pre| + k] == x[k];
      if IsSpace(x[k]) {
        SkipSpacePrepend(pre, x, k + 1);
      }
    }
  }

  /** Text appended after `j` does not change where `s[..j]` is trimmed. */
  lemma {:induction false} TrimEndPrefix(x: string, y: string, j: nat)
    requires j <= |x|
    ensures TrimEnd(x + y, j) == TrimEnd(x, j)
  {
    if j > 0 {
      assert (x + y)[j - 1] == x[j - 1];
      if IsSpace(x[j - 1]) {
        TrimEndPrefix(x, y, j - 1);
      }
    }
  }

  /** Text prepended before a non-blank part shifts the trimmed end by its length. */
  lemma {:induction false} TrimEndShift(x: string, y: string, k: nat)
    requires k <= |y| && TrimEnd(y, k) > 0
    ensures TrimEnd(x + y, |x| + k) == |x| + TrimEnd(y, k)
  {
    assert (x + y)[|x| + k - 1] == y[k - 1];
    if IsSpace(y[k - 1]) {
      TrimEndShift(x, y, k - 1);
    }
  }

  /** `s.lstrip()`. */
  function LStrip(s: string): (r: string)
    ensures r == "" || !IsSpace(r[0])
  {
    s[SkipSpace(s, 0)..]
  }

  /** `s.rstrip()`. */
  function RStrip(s: string): (r: string)
    ensures r == "" || !IsSpace(r[|r| - 1])
  {
    s[..TrimEnd(s, |s|)]
  }

  lemma SkipSpaceAll(s: string)
    ensures SkipSpace(s, 0) == |s| <==> AllSpace(s)
  {
    SkipSpaceSkips(s, 0);
    if AllSpace(s) {
      SkipSpaceRun(s, 0, |s|);
    }
  }

  lemma RStripKeepsHead(s: string)
    requires s != "" && !IsSpace(s[0])
    ensures RStrip(s) != "" && RStrip(s)[0] == s[0]
  {
    TrimEndTrims(s, |s|);
  }

  /** `s.strip()`: `s` without its leading and trailing whitespace. */
  function Strip(s: string): (r: string)
    ensures |r| <= |s|
    ensures r == "" || (!IsSpace(r[0]) && !IsSpace(r[|r| - 1]))
    ensures r == "" <==> AllSpace(s)
  {
    var l := LStrip(s);
    SkipSpaceAll(s);
    if l == "" then RStrip(l) else RStripKeepsHead(l); RStrip(l)
  }

  lemma StripTrimmed(s: string)
    requires s == "" || (!IsSpace(s[0]) && !IsSpace(s[|s| - 1]))
    ensures Strip(s) == s
  {
    if s != "" {
      assert SkipSpace(s, 0) == 0;
      assert LStrip(s) == s;
      assert TrimEnd(s, |s|) == |s|;
    }
  }

  lemma StripIdempotent(s: string)
    ensures Strip(Strip(s)) == Strip(s)
  {
    StripTrimmed(Strip(s));
  }

  /** What `strip` keeps is a slice of its argument with only whitespace around it. */
  lemma StripSlice(s: string) returns (i: nat, j: nat)
    ensures i <= j <= |s| && Strip(s) == s[i..j]
    ensures AllSpace(s[..i]) && AllSpace(s[j..])
  {
    i := SkipSpace(s, 0);
    var l := s[i..];
    j := i + TrimEnd(l, |l|);
    SkipSpaceSkips(s, 0);
    TrimEndTrims(l, |l|);
    assert Strip(s) == l[..j - i] == s[i..j];
    assert forall k :: 0 <= k < |s| - j ==> s[j..][k] == l[j - i + k];
  }

  /** Stripping cannot create an occurrence. */
  lemma StripKeepsAbsent(s: string, t: string)
    requires !Contains(s, t)
    ensures !Contains(Strip(s), t)
  {
    var i, j := StripSlice(s);
    AbsentFromSlice(s, t, i, j);
  }

  lemma LStripSpacePrefix(pre: string, x: string)
    requires AllSpace(pre)
    ensures LStrip(pre + x) == LStrip(x)
  {
    var w := pre + x;
    assert SpacesIn(w, 0, |pre|) by {
      assert forall k :: 0 <= k < |pre| ==> w[k] == pre[k];
    }
    SkipSpaceRun(w, 0, |pre|);
    SkipSpacePrepend(pre, x, 0);
    assert w[|pre| + SkipSpace(x, 0)..] == x[SkipSpace(x, 0)..];
  }

  lemma LStripNonBlank(x: string, y: string)
    requires !AllSpace(x)
    ensures LStrip(x + y) == LStrip(x) + y
  {
    SkipSpaceAll(x);
    SkipSpaceAppend(x, y, 0);
    var i := SkipSpace(x, 0);
    assert (x + y)[i..] == x[i..] + y;
  }

  lemma RStripSpaceSuffix(x: string, post: string)
    requires AllSpace(post)
    ensures RStrip(x + post) == RStrip(x)
  {
    var w := x + post;
    assert SpacesIn(w, |x|, |w|) by {
      assert forall k :: |x| <= k < |w| ==> w[k] == post[k - |x|];
    }
    TrimEndRun(w, |x|, |w|);
    TrimEndPrefix(x, post, |x|);
    var t := TrimEnd(x, |x|);
    assert w[..t] == x[..t];
  }

  lemma RStripNonBlank(x: string, y: string)
    requires !AllSpace(y)
    ensures RStrip(x + y) == x + RStrip(y)
  {
    TrimEndTrims(y, |y|);
    var t := TrimEnd(y, |y|);
    assert t > 0;
    TrimEndShift(x, y, |y|);
    assert (x + y)[..|x| + t] == x + y[..t];
  }

  /** Whitespace added on either side does not change `strip`. */
  lemma StripPadded(pre: string, s: string, post: string)
    requires AllSpace(pre) && AllSpace(post)
    ensures Strip(pre + s + post) == Strip(s)
  {
    assert pre + s + post == pre + (s + post);
    LStripSpacePrefix(pre, s + post);
    if AllSpace(s) {
      assert AllSpace(s + post) by {
        forall i | 0 <= i < |s + post| ensures IsSpace((s + post)[i]) {
          if i < |s| { assert (s + post)[i] == s[i]; } else { assert (s + post)[i] == post[i - |s|]; }
        }
      }
    } else {
      LStripNonBlank(s, post);
      RStripSpaceSuffix(LStrip(s), post);
    }
  }

  /** `strip` of whitespace, a head starting with non-space and a non-blank tail keeps the head whole. */
  lemma StripHeadTail(pre: string, head: string, tail: string)
    requires AllSpace(pre)
    requires head != "" && !IsSpace(head[0])
    requires !AllSpace(tail)
    ensures Strip(pre + head + tail) == head + RStrip(tail)
  {
    assert pre + head + tail == pre + (head + tail);
    LStripSpacePrefix(pre, head + tail);
    assert !AllSpace(head);
    LStripNonBlank(head, tail);
    assert LStrip(head) == head;
    RStripNonBlank(head, tail);
  }

  /** Trailing whitespace removed by `rstrip` does not change `strip`. */
  lemma StripOfRStrip(s: string)
    ensures Strip(RStrip(s)) == Strip(s)
  {
    var t := TrimEnd(s, |s|);
    TrimEndTrims(s, |s|);
    var r := s[..t];
    var post := s[t..];
    assert AllSpace(post) by {
      assert forall k :: 0 <= k < |post| ==> post[k] == s[t + k];
    }
    assert "" + r + post == s;
    StripPadded("", r, post);
  }

  // ---------------------------------------------------------------------------
  // replace(t, "")

  /** `s.replace(t, "")`: every non-overlapping occurrence of `t`, taken from the left, removed. */
  function RemoveAll(s: string, t: string): (r: string)
    decreases |s|
    ensures |r| <= |s|
    ensures (forall k :: !OccursAt(s, t, k)) ==> r == s
  {
    if t == [] || |s| < |t| then s
    else if OccursAt(s, t, 0) then
      RemoveAll(s[|t|..], t)
    else
      var tail := s[1..|s|];
      SliceOccurrences(s, t, 1, |s|);
      assert (forall k :: !OccursAt(s, t, k)) ==> (forall k :: !OccursAt(tail, t, k));
      assert [s[0]] + tail == s;
      [s[0]] + RemoveAll(tail, t)
  }

  // ---------------------------------------------------------------------------
  // split(sep)

  /** `sep.join(parts)`. */
  function Join(parts: seq<string>, sep: string): string
    decreases |parts|
  {
    if |parts| == 0 then ""
    else if |parts| == 1 then parts[0]
    else parts[0] + sep + Join(parts[1..], sep)
  }

  /** `s.split(sep)` for a non-empty separator. */
  function SplitAll(s: string, sep: string): (r: seq<string>)
    requires sep != ""
    decreases |s|
    ensures |r| >= 1
    ensures Join(r, sep) == s
    ensures forall i :: 0 <= i < |r| ==> !Contains(r[i], sep)
  {
    var k := Find(s, sep);
    if k == -1 then [s]
    else
      var head := s[0..k];
      SliceOccurrences(s, sep, 0, k);
      assert forall q :: OccursAt(head, sep, q) ==> OccursAt(s, sep, q) && q < k;
      var rest := SplitAll(s[k + |sep|..], sep);
      assert ([head] + rest)[1..] == rest;
      assert s == head + sep + s[k + |sep|..];
      assert Join([head] + rest, sep) == head + sep + Join(rest, sep);
      assert !Contains(head, sep);
      [head] + rest
  }

  // ---------------------------------------------------------------------------
  // int()

  predicate IsDigit(c: char) {
    '0' <= c <= '9'
  }

  predicate IsDigits(s: string) {
    |s| > 0 && forall i :: 0 <= i < |s| ==> IsDigit(s[i])
  }

  /** The value of a string of decimal digits. */
  function DigitsValue(s: string): nat
    decreases |s|
  {
    if s == [] then 0
    else 10 * DigitsValue(s[..|s| - 1]) + if IsDigit(s[|s| - 1]) then s[|s| - 1] as int - '0' as int else 0
  }

  /**
   * `int(s)`: surrounding whitespace, an optional sign and ASCII decimal digits; `None`
   * where Python raises `ValueError`.
   */
  function ParseInt(s: string): Option<int> {
    var t := Strip(s);
    if |t| > 0 && (t[0] == '+' || t[0] == '-') then
      if IsDigits(t[1..]) then
        var v: int := DigitsValue(t[1..]);
        Some(if t[0] == '-' then -v else v)
      else None
    else if IsDigits(t) then Some(DigitsValue(t))
    else None
  }

  /** `str(n)` for a natural number. */
  function NatToString(n: nat): (r: string)
    ensures IsDigits(r)
  {
    if n < 10 then [('0' as int + n) as char]
    else NatToString(n / 10) + [('0' as int + n % 10) as char]
  }

  lemma {:induction false} DigitsValueOfNatToString(n: nat)
    ensures DigitsValue(NatToString(n)) == n
  {
    if n >= 10 {
      var s := NatToString(n);
      assert s[..|s| - 1] == NatToString(n / 10);
      DigitsValueOfNatToString(n / 10);
    }
  }

  /** `int(str(n)) == n`: the decimal rendering of a page or button index parses back to it. */
  lemma ParseIntOfNatToString(n: nat)
    ensures ParseInt(NatToString(n)) == Some(n)
  {
    ParseIntOfDigits(NatToString(n));
    DigitsValueOfNatToString(n);
  }

  /** A string of digits alone parses to its value. */
  lemma ParseIntOfDigits(s: string)
    requires IsDigits(s)
    ensures ParseInt(s) == Some(DigitsValue(s))
  {
    assert !IsSpace(s[0]) && !IsSpace(s[|s| - 1]);
    StripTrimmed(s);
    assert s[0] != '+' && s[0] != '-';
  }

  /** `s.split(sep)` of a join on a one-character separator gives the parts back. */
  lemma {:induction false} SplitAllJoin(parts: seq<string>, sep: string)
    requires |sep| == 1 && |parts| > 0
    requires forall i :: 0 <= i < |parts| ==> !Contains(parts[i], sep)
    ensures SplitAll(Join(parts, sep), sep) == parts
    decreases |parts|
  {
    if |parts| > 1 {
      var head, rest := parts[0], Join(parts[1..], sep);
      assert Join(parts, sep) == head + sep + rest;
      SplitAllHead(head, sep, rest);
      SplitAllJoin(parts[1..], sep);
      assert parts == [head] + parts[1..];
    } else {
      assert !Contains(Join(parts, sep), sep);
    }
  }

  /** Splitting at the first separator, behind a head that holds none. */
  lemma SplitAllHead(head: string, sep: string, rest: string)
    requires |sep| == 1 && !Contains(head, sep)
    ensures SplitAll(head + sep + rest, sep) == [head] + SplitAll(rest, sep)
  {
    var w := head + sep + rest;
    assert w == head + (sep + rest);
    ConcatOccurrences(head, sep + rest, sep);
    assert OccursAt(sep + rest, sep, 0);
    FindIs(w, sep, |head|);
    assert w[|head| + |sep|..] == rest;
    assert w[0..|head|] == head;
  }

  /** A one-character `t` is absent from a string none of whose characters is `t`. */
  lemma AbsentChar(s: string, t: string)
    requires |t| == 1 && forall k :: 0 <= k < |s| ==> s[k] != t[0]
    ensures !Contains(s, t)
  {
    forall k | 0 <= k < |s| ensures !OccursAt(s, t, k) {
      assert s[k + 0] != t[0];
    }
  }

  /** A string of digits holds no one-character `t` that is not a digit. */
  lemma DigitsPlain(s: string, t: string)
    requires IsDigits(s) && |t| == 1 && !IsDigit(t[0])
    ensures !Contains(s, t)
  {
    AbsentChar(s, t);
  }
}
