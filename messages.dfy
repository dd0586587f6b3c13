/**
 * `split_message`: cutting a long reply into chunks Telegram accepts, preferring a
 * paragraph break, then a line break, then a space as the cut point.
 */
module Messages {
  import opened Text

  const ParagraphBreak: string := "\n\n"
  const LineBreak: string := "\n"
  const Space: string := " "

  /**
   * Where `split_message` cuts a text longer than `size`: at the last paragraph break,
   * else the last line break, else the last space lying within the first `size`
   * characters; failing all three, at `size`.
   */
  function CutPoint(text: string, size: nat): (r: nat)
    requires 1 <= size < |text|
    ensures r <= size
    ensures r < size ==> IsSpace(text[r])
  {
    var p := RFind(text, ParagraphBreak, size);
    if p != -1 then assert text[p + 0] == ParagraphBreak[0]; p
    else
      var l := RFind(text, LineBreak, size);
      if l != -1 then assert text[l + 0] == LineBreak[0]; l
      else
        var s := RFind(text, Space, size);
        if s != -1 then assert text[s + 0] == Space[0]; s else size
  }

  /** A paragraph break starts with a line break. */
  lemma ParagraphStartsLine(text: string, q: int)
    requires OccursAt(text, ParagraphBreak, q)
    ensures OccursAt(text, LineBreak, q)
  {
    assert text[q + 0] == ParagraphBreak[0];
  }

  /** With a paragraph break inside the window, the cut is at the last one. */
  lemma CutAtParagraph(text: string, size: nat)
    requires 1 <= size < |text| && Contains(text[..size], ParagraphBreak)
    ensures var r := CutPoint(text, size);
      && OccursAt(text, ParagraphBreak, r) && r + |ParagraphBreak| <= size
      && forall q :: r < q && q + |ParagraphBreak| <= size ==> !OccursAt(text, ParagraphBreak, q)
  {
    WindowOccurrences(text, size, ParagraphBreak);
  }

  /** Without a paragraph break but with a line break inside the window, the cut is at the last line break. */
  lemma CutAtLine(text: string, size: nat)
    requires 1 <= size < |text|
    requires !Contains(text[..size], ParagraphBreak) && Contains(text[..size], LineBreak)
    ensures var r := CutPoint(text, size);
      r < size && text[r] == '\n' && forall q :: r < q < size ==> text[q] != '\n'
  {
    WindowOccurrences(text, size, ParagraphBreak);
    WindowOccurrences(text, size, LineBreak);
    var r := CutPoint(text, size);
    assert OccursAt(text, LineBreak, r);
    assert text[r + 0] == LineBreak[0];
    forall q | r < q < size ensures text[q] != '\n' {
      assert !OccursAt(text, LineBreak, q);
    }
  }

  /** No paragraph break fits a window without line breaks. */
  lemma NoParagraphWithoutLine(text: string, size: nat)
    requires size <= |text| && !Contains(text[..size], LineBreak)
    ensures RFind(text, ParagraphBreak, size) == -1
  {
    WindowOccurrences(text, size, LineBreak);
    forall q | q + |ParagraphBreak| <= size ensures !OccursAt(text, ParagraphBreak, q) {
      if OccursAt(text, ParagraphBreak, q) {
        ParagraphStartsLine(text, q);
      }
    }
  }

  /** Without line breaks but with a space inside the window, the cut is at the last space. */
  lemma CutAtSpace(text: string, size: nat)
    requires 1 <= size < |text|
    requires !Contains(text[..size], LineBreak) && Contains(text[..size], Space)
    ensures var r := CutPoint(text, size);
      r < size && text[r] == ' ' && forall q :: r < q < size ==> text[q] != ' '
  {
    NoParagraphWithoutLine(text, size);
    WindowOccurrences(text, size, LineBreak);
    WindowOccurrences(text, size, Space);
    var r := CutPoint(text, size);
    assert OccursAt(text, Space, r);
    assert text[r + 0] == Space[0];
    forall q | r < q < size ensures text[q] != ' ' {
      assert !OccursAt(text, Space, q);
    }
  }

  /** With neither line breaks nor spaces inside the window, the text is cut at `size`. */
  lemma CutAtSize(text: string, size: nat)
    requires 1 <= size < |text|
    requires !Contains(text[..size], LineBreak) && !Contains(text[..size], Space)
    ensures CutPoint(text, size) == size
  {
    NoParagraphWithoutLine(text, size);
    WindowOccurrences(text, size, LineBreak);
    WindowOccurrences(text, size, Space);
  }

  /** `t` occurs in the window `text[..size]` exactly where it occurs in `text` ending within the window. */
  lemma WindowOccurrences(text: string, size: nat, t: string)
    requires size <= |text|
    ensures Contains(text[..size], t) <==> exists q :: q + |t| <= size && OccursAt(text, t, q)
    ensures forall q :: q + |t| <= size ==> (OccursAt(text[..size], t, q) <==> OccursAt(text, t, q))
  {
    var w := text[..size];
    forall q | q + |t| <= size ensures OccursAt(w, t, q) <==> OccursAt(text, t, q) {
      if 0 <= q {
        forall j | q <= j < q + |t| ensures w[j] == text[j] {}
      }
    }
    if Contains(w, t) {
      var q := Find(w, t);
      assert q + |t| <= size && OccursAt(text, t, q);
    }
  }

  /**
   * `chunks` read back to `text` as `split_message` produces them: each chunk but the
   * last is a prefix of what remains, the remainder after it loses its leading
   * whitespace, and the last chunk is the whole final remainder.
   */
  predicate Reassembles(chunks: seq<string>, text: string)
    decreases |chunks|
  {
    |chunks| > 0 &&
    if |chunks| == 1 then chunks[0] == text
    else chunks[0] <= text && Reassembles(chunks[1..], LStrip(text[|chunks[0]|..]))
  }

  /** Reading back a chunk followed by more chunks. */
  lemma ReassemblesCons(first: string, tail: seq<string>, text: string)
    requires tail != []
    ensures Reassembles([first] + tail, text) <==> first <= text && Reassembles(tail, LStrip(text[|first|..]))
  {
    var all := [first] + tail;
    assert all[0] == first && all[1..] == tail;
  }

  /** What remains once a text longer than `size` is cut at `CutPoint` is shorter than the text. */
  lemma CutShrinks(text: string, size: nat)
    requires 1 <= size < |text|
    ensures |LStrip(text[CutPoint(text, size)..])| < |text|
  {
    var cut := CutPoint(text, size);
    assert cut == 0 ==> SkipSpace(text[cut..], 0) > 0 by {
      if cut == 0 {
        assert text[cut..][0] == text[0];
      }
    }
  }

  /**
   * The chunks `split_message` returns: while the text is longer than `size`, the part
   * before `CutPoint` and then the chunks of the rest with its leading whitespace
   * dropped; a text that fits is the last chunk.
   */
  function Chunks(text: string, size: nat): (r: seq<string>)
    requires size >= 1
    decreases |text|
    ensures |r| > 0
  {
    if |text| <= size then [text]
    else
      CutShrinks(text, size);
      [text[..CutPoint(text, size)]] + Chunks(LStrip(text[CutPoint(text, size)..]), size)
  }

  /**
   * The chunks fit `size` and read back to the text: each one but the last is the
   * text up to its cut point.
   */
  lemma {:induction false} ChunksFit(text: string, size: nat)
    requires size >= 1
    ensures forall i :: 0 <= i < |Chunks(text, size)| ==> |Chunks(text, size)[i]| <= size
    ensures Reassembles(Chunks(text, size), text)
    decreases |text|
  {
    if |text| > size {
      var cut := CutPoint(text, size);
      var head, next := text[..cut], LStrip(text[cut..]);
      CutShrinks(text, size);
      ChunksFit(next, size);
      var tail := Chunks(next, size);
      assert Chunks(text, size) == [head] + tail;
      assert text[|head|..] == text[cut..];
      ReassemblesCons(head, tail, text);
    }
  }

  /**
   * `split_message(text, size)` for `size >= 1`: the chunks are `Chunks(text, size)`,
   * cut where `CutPoint` prefers; a short text is one chunk; no chunk is longer than
   * `size`, and the chunks read back to the text losing only the whitespace stripped
   * at the cuts.
   */
  method SplitMessage(text: string, size: nat) returns (chunks: seq<string>)
    requires size >= 1
    ensures chunks == Chunks(text, size)
    ensures |text| <= size ==> chunks == [text]
    ensures forall i :: 0 <= i < |chunks| ==> |chunks[i]| <= size
    ensures Reassembles(chunks, text)
    ensures Visible(Concat(chunks)) == Visible(text)
  {
    if |text| <= size {
      chunks := [text];
      ReassemblesKeepsVisible(chunks, text);
      return;
    }
    chunks := [];
    var rest := text;
    while |rest| > size
      invariant chunks + Chunks(rest, size) == Chunks(text, size)
      decreases |rest|
    {
      var cut := CutPoint(rest, size);
      CutShrinks(rest, size);
      ChunksStep(chunks, rest, size);
      chunks := chunks + [rest[..cut]];
      rest := LStrip(rest[cut..]);
    }
    assert Chunks(rest, size) == [rest];
    chunks := chunks + [rest];
    ChunksFit(text, size);
    ReassemblesKeepsVisible(chunks, text);
  }

  /** One pass of the loop moves the first chunk of the rest onto the chunks done. */
  lemma ChunksStep(chunks: seq<string>, rest: string, size: nat)
    requires 1 <= size < |rest|
    ensures chunks + Chunks(rest, size)
      == (chunks + [rest[..CutPoint(rest, size)]]) + Chunks(LStrip(rest[CutPoint(rest, size)..]), size)
  {
  }

  // ---------------------------------------------------------------------------
  // What reading back keeps

  /** The non-whitespace characters of `s`, in order. */
  function Visible(s: string): string
    decreases |s|
  {
    if s == [] then []
    else (if IsSpace(s[0]) then [] else [s[0]]) + Visible(s[1..])
  }

  /** The chunks laid end to end. */
  function Concat(chunks: seq<string>): string
    decreases |chunks|
  {
    if chunks == [] then "" else chunks[0] + Concat(chunks[1..])
  }

  lemma {:induction false} VisibleAppend(x: string, y: string)
    ensures Visible(x + y) == Visible(x) + Visible(y)
    decreases |x|
  {
    if x == [] {
      assert x + y == y;
    } else {
      var first := if IsSpace(x[0]) then [] else [x[0]];
      assert (x + y)[0] == x[0] && (x + y)[1..] == x[1..] + y;
      VisibleAppend(x[1..], y);
      calc {
        Visible(x + y);
        first + Visible(x[1..] + y);
        first + (Visible(x[1..]) + Visible(y));
        (first + Visible(x[1..])) + Visible(y);
      }
    }
  }

  lemma {:induction false} VisibleLStrip(s: string, i: nat)
    requires i <= |s| && SpacesIn(s, 0, i)
    ensures Visible(s[i..]) == Visible(s)
    decreases i
  {
    if i > 0 {
      assert s[1..][i - 1..] == s[i..];
      VisibleLStrip(s[1..], i - 1);
    }
  }

  /**
   * Reading back loses only whitespace: the chunks laid end to end hold the same
   * non-whitespace characters, in the same order, as the text.
   */
  lemma {:induction false} ReassemblesKeepsVisible(chunks: seq<string>, text: string)
    requires Reassembles(chunks, text)
    ensures Visible(Concat(chunks)) == Visible(text)
    decreases |chunks|
  {
    if |chunks| == 1 {
      assert Concat(chunks) == chunks[0] + "";
      assert chunks[0] + "" == chunks[0];
    } else {
      var head := chunks[0];
      var after := text[|head|..];
      ReassemblesKeepsVisible(chunks[1..], LStrip(after));
      SkipSpaceSkips(after, 0);
      VisibleLStrip(after, SkipSpace(after, 0));
      assert head + after == text;
      VisibleAppend(head, after);
      VisibleAppend(head, Concat(chunks[1..]));
    }
  }
}
