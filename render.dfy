/**
 * The contentHtml override: every die glyph that stands alone on its line
 * in the rendered post is replaced by a span showing the stored roll.
 *
 * The regular expression (<(?:br|p)>[\n\r]*)(?:die|[faces])(?=<(?:br|\/p)>)
 * with the g flag is modelled by MatchAt (one attempt at one position) and by
 * the left-to-right scan of RenderContentHtml; what the scan computes is
 * specified independently through Isolated, a look-around test at the glyph.
 */
module Render {
  import opened Wrappers
  import opened Glyphs

  /** <br> at position i. */
  predicate BreakAt(s: string, i: nat)
  {
    i + 4 <= |s| && s[i] == '<' && s[i + 1] == 'b' && s[i + 2] == 'r' && s[i + 3] == '>'
  }

  /** <p> at position i. */
  predicate ParagraphOpenAt(s: string, i: nat)
  {
    i + 3 <= |s| && s[i] == '<' && s[i + 1] == 'p' && s[i + 2] == '>'
  }

  /** </p> at position i. */
  predicate ParagraphCloseAt(s: string, i: nat)
  {
    i + 4 <= |s| && s[i] == '<' && s[i + 1] == '/' && s[i + 2] == 'p' && s[i + 3] == '>'
  }

  /** The boundary before a line: s[..t] ends with <br> or <p>. */
  predicate OpensLine(s: string, t: nat)
  {
    (t >= 4 && BreakAt(s, t - 4)) || (t >= 3 && ParagraphOpenAt(s, t - 3))
  }

  /** The boundary after a line, the lookahead (?=<(?:br|\/p)>). */
  predicate ClosesLine(s: string, i: nat)
  {
    BreakAt(s, i) || ParagraphCloseAt(s, i)
  }

  /** The start of the run of line breaks that ends just before q. */
  function RunStart(s: string, q: nat): (t: nat)
    requires q <= |s|
    ensures t <= q
    ensures forall k :: t <= k < q ==> IsLineBreak(s[k])
    ensures t == 0 || !IsLineBreak(s[t - 1])
  {
    if q > 0 && IsLineBreak(s[q - 1]) then RunStart(s, q - 1) else q
  }

  lemma {:induction false} RunStartUnique(s: string, t: nat, q: nat)
    requires t <= q <= |s|
    requires forall k :: t <= k < q ==> IsLineBreak(s[k])
    requires t == 0 || !IsLineBreak(s[t - 1])
    ensures RunStart(s, q) == t
    decreases q - t
  {
    if t < q {
      RunStartUnique(s, t, q - 1);
    }
  }

  /**
   * The glyph at q stands alone on its line: a die glyph, preceded by <br> or
   * <p> and nothing but line breaks, and followed at once by <br> or </p>.
   */
  predicate Isolated(s: string, q: nat)
  {
    q < |s| && IsDieGlyph(s[q]) && OpensLine(s, RunStart(s, q)) && ClosesLine(s, q + 1)
  }

  /** Where the match of an isolated glyph begins: at its opening tag. */
  function PrefixStart(s: string, q: nat): (i: nat)
    requires Isolated(s, q)
    ensures i < q
  {
    var t := RunStart(s, q);
    if t >= 4 && BreakAt(s, t - 4) then t - 4 else t - 3
  }

  /** The opening tag and the line breaks that follow it hold no die glyph. */
  lemma PrefixHoldsNoGlyph(s: string, q: nat, k: nat)
    requires Isolated(s, q)
    requires PrefixStart(s, q) <= k < q
    ensures !IsDieGlyph(s[k])
  {
    var t := RunStart(s, q);
    assert k < t || IsLineBreak(s[k]);
  }

  /**
   * One attempt of the regular expression at position i: the opening tag,
   * the longest run of line breaks, a die glyph, and the closing lookahead.
   * Some(j) is the position of the matched glyph; the match is s[i..j + 1].
   */
  function MatchAt(s: string, i: nat): (m: Option<nat>)
    requires i <= |s|
    ensures m.Some? ==> i < m.value < |s|
  {
    var tag := if BreakAt(s, i) then 4 else if ParagraphOpenAt(s, i) then 3 else 0;
    if tag == 0 then None
    else
      var j := SkipLineBreaks(s, i + tag);
      if j < |s| && IsDieGlyph(s[j]) && ClosesLine(s, j + 1) then Some(j) else None
  }

  /** A match found at i is an isolated glyph whose match starts at i. */
  lemma MatchAtSound(s: string, i: nat)
    requires i <= |s| && MatchAt(s, i).Some?
    ensures Isolated(s, MatchAt(s, i).value)
    ensures PrefixStart(s, MatchAt(s, i).value) == i
  {
    var j := MatchAt(s, i).value;
    var tag := if BreakAt(s, i) then 4 else 3;
    assert j == SkipLineBreaks(s, i + tag);
    assert s[i + tag - 1] == '>';
    RunStartUnique(s, i + tag, j);
  }

  /** Every isolated glyph is found by the attempt at its opening tag. */
  lemma MatchAtComplete(s: string, q: nat)
    requires Isolated(s, q)
    ensures MatchAt(s, PrefixStart(s, q)) == Some(q)
  {
    var t := RunStart(s, q);
    var i := PrefixStart(s, q);
    SkipLineBreaksUnique(s, t, q);
  }

  /** The isolated glyphs at or after position i, in increasing order. */
  function IsolatedFrom(s: string, i: nat): (ps: seq<nat>)
    decreases |s| - i
  {
    if i >= |s| then []
    else (if Isolated(s, i) then [i] else []) + IsolatedFrom(s, i + 1)
  }

  /** The isolated glyphs of s, left to right. */
  function IsolatedPositions(s: string): seq<nat>
  {
    IsolatedFrom(s, 0)
  }

  /** ps is a strictly increasing list of positions of s, none before from. */
  predicate Chain(s: string, from: nat, ps: seq<nat>)
    decreases |ps|
  {
    ps == [] || (from <= ps[0] < |s| && Chain(s, ps[0] + 1, ps[1..]))
  }

  /** IsolatedFrom lists positions in increasing order, none before i. */
  lemma {:induction false} IsolatedFromChain(s: string, i: nat)
    ensures Chain(s, i, IsolatedFrom(s, i))
    decreases |s| - i
  {
    if i < |s| {
      IsolatedFromChain(s, i + 1);
      var rest := IsolatedFrom(s, i + 1);
      if Isolated(s, i) {
        assert IsolatedFrom(s, i) == [i] + rest;
        assert IsolatedFrom(s, i)[1..] == rest;
      } else {
        assert IsolatedFrom(s, i) == rest;
        ChainWeaken(s, i, i + 1, rest);
      }
    }
  }

  /** IsolatedFrom lists every isolated glyph from i on, and nothing else. */
  lemma {:induction false} IsolatedFromExact(s: string, i: nat)
    ensures forall q :: q in IsolatedFrom(s, i) <==> i <= q && Isolated(s, q)
    decreases |s| - i
  {
    if i < |s| {
      IsolatedFromExact(s, i + 1);
    }
  }

  lemma {:induction false} ChainWeaken(s: string, lo: nat, hi: nat, ps: seq<nat>)
    requires lo <= hi && Chain(s, hi, ps)
    ensures Chain(s, lo, ps)
  {
  }

  /** Where no glyph is isolated, the list from i is the list from j. */
  lemma {:induction false} IsolatedFromSkip(s: string, i: nat, j: nat)
    requires i <= j
    requires forall q :: i <= q < j ==> !Isolated(s, q)
    ensures IsolatedFrom(s, i) == IsolatedFrom(s, j)
    decreases j - i
  {
    if i < j {
      IsolatedFromSkip(s, i + 1, j);
      if i >= |s| {
        assert IsolatedFrom(s, i) == [] == IsolatedFrom(s, j);
      }
    }
  }

  /** The fixed parts of the span's outerHTML, in attribute insertion order. */
  const SpanOpen := "<span class=\"roll-a-die\" data-number=\""
  const SpanTitle := "\" title=\""
  const SpanText := "\">"
  const SpanClose := "</span>"

  /**
   * The outerHTML of the span built for one roll: class roll-a-die, the
   * data-number attribute, the translated title, and the face glyph.
   */
  function SpanHtml(p: Parsed, title: string): string
  {
    SpanOpen + DataNumber(p) + SpanTitle + title + SpanText + [FaceGlyph(p)] + SpanClose
  }

  /** The span for the k-th match: roll rolls[k], parsed, and its title. */
  function RollSpan(rolls: string, k: nat, title: Parsed -> string): string
  {
    SpanHtml(ParseRoll(rolls, k), title(ParseRoll(rolls, k)))
  }

  /**
   * s from position from on, with the glyph at each listed position replaced
   * by the span of the next roll, counting from the k-th.
   */
  function SpliceFrom(s: string, from: nat, ps: seq<nat>, rolls: string, k: nat,
                      title: Parsed -> string): string
    requires from <= |s| && Chain(s, from, ps)
    decreases |ps|
  {
    if ps == [] then s[from..]
    else s[from..ps[0]] + RollSpan(rolls, k, title) + SpliceFrom(s, ps[0] + 1, ps[1..], rolls, k + 1, title)
  }

  /**
   * The rendered post: the k-th isolated glyph (counting from 0, left to
   * right) replaced by the span of roll k, every other character kept.
   */
  function Rendered(s: string, rolls: string, title: Parsed -> string): string
  {
    IsolatedFromChain(s, 0);
    SpliceFrom(s, 0, IsolatedPositions(s), rolls, 0, title)
  }

  /** Splicing from i, where the first listed glyph lies after i, starts with s[i]. */
  lemma SpliceFromShift(s: string, i: nat, ps: seq<nat>, rolls: string, k: nat, title: Parsed -> string)
    requires i < |s| && Chain(s, i + 1, ps)
    ensures Chain(s, i, ps)
    ensures SpliceFrom(s, i, ps, rolls, k, title) == [s[i]] + SpliceFrom(s, i + 1, ps, rolls, k, title)
  {
    ChainWeaken(s, i, i + 1, ps);
    if ps == [] {
      assert s[i..] == [s[i]] + s[i + 1..];
    } else {
      var span := RollSpan(rolls, k, title);
      var later := SpliceFrom(s, ps[0] + 1, ps[1..], rolls, k + 1, title);
      calc {
        SpliceFrom(s, i, ps, rolls, k, title);
        s[i..ps[0]] + span + later;
        { assert s[i..ps[0]] == [s[i]] + s[i + 1..ps[0]]; }
        [s[i]] + s[i + 1..ps[0]] + span + later;
        { ConcatAssoc([s[i]], s[i + 1..ps[0]] + span, later);
          ConcatAssoc([s[i]], s[i + 1..ps[0]], span); }
        [s[i]] + (s[i + 1..ps[0]] + span + later);
        [s[i]] + SpliceFrom(s, i + 1, ps, rolls, k, title);
      }
    }
  }

  /**
   * No match that the scan has not yet reached starts before position i:
   * what the scan of RenderContentHtml keeps true.
   */
  predicate NoPendingMatchBefore(s: string, i: nat)
  {
    forall q :: i <= q < |s| && Isolated(s, q) ==> i <= PrefixStart(s, q)
  }

  /**
   * What the scan of RenderContentHtml keeps true at position i with the
   * counter at k: no match it has not reached starts before i, and the
   * output so far followed by the rest of the reference rendering is the
   * whole reference rendering.
   */
  predicate ScanInvariant(s: string, rolls: string, title: Parsed -> string,
                          i: nat, k: nat, out: string, target: string)
  {
    i <= |s| && NoPendingMatchBefore(s, i) && Chain(s, i, IsolatedFrom(s, i))
    && out + SpliceFrom(s, i, IsolatedFrom(s, i), rolls, k, title) == target
  }

  /** A match at i lists its glyph j first, and no match starts between i and j + 1. */
  lemma MatchPositions(s: string, i: nat, j: nat)
    requires i <= |s| && NoPendingMatchBefore(s, i) && MatchAt(s, i) == Some(j)
    ensures j < |s| && IsolatedFrom(s, i) == [j] + IsolatedFrom(s, j + 1)
    ensures NoPendingMatchBefore(s, j + 1)
  {
    MatchAtSound(s, i);
    forall q | i <= q < j ensures !Isolated(s, q) {
      PrefixHoldsNoGlyph(s, j, q);
    }
    IsolatedFromSkip(s, i, j);
    assert IsolatedFrom(s, j) == [j] + IsolatedFrom(s, j + 1);
    forall q | j + 1 <= q < |s| && Isolated(s, q) ensures j + 1 <= PrefixStart(s, q) {
      if PrefixStart(s, q) <= j {
        PrefixHoldsNoGlyph(s, q, j);
      }
    }
  }

  /** A match at i consumes the glyph at j; the scan resumes at j + 1. */
  lemma MatchStep(s: string, rolls: string, title: Parsed -> string, i: nat, k: nat, out: string,
                  target: string, j: nat, i': nat, k': nat, out': string)
    requires ScanInvariant(s, rolls, title, i, k, out, target) && MatchAt(s, i) == Some(j)
    requires i' == j + 1 && k' == k + 1 && j <= |s|
    requires out' == out + (s[i..j] + RollSpan(rolls, k, title))
    ensures ScanInvariant(s, rolls, title, i', k', out', target)
  {
    MatchPositions(s, i, j);
    IsolatedFromChain(s, j + 1);
    var piece := s[i..j] + RollSpan(rolls, k, title);
    var rest := SpliceFrom(s, j + 1, IsolatedFrom(s, j + 1), rolls, k + 1, title);
    assert SpliceFrom(s, i, IsolatedFrom(s, i), rolls, k, title) == piece + rest;
    ConcatAssoc(out, piece, rest);
  }

  /** No match at i: the scan copies s[i] and moves on. */
  lemma NoMatchStep(s: string, rolls: string, title: Parsed -> string, i: nat, k: nat, out: string,
                    target: string, i': nat, out': string)
    requires ScanInvariant(s, rolls, title, i, k, out, target) && i < |s| && MatchAt(s, i) == None
    requires i' == i + 1 && out' == out + [s[i]]
    ensures ScanInvariant(s, rolls, title, i', k, out', target)
  {
    assert !Isolated(s, i);
    forall q | i + 1 <= q < |s| && Isolated(s, q) ensures i + 1 <= PrefixStart(s, q) {
      if PrefixStart(s, q) == i {
        MatchAtComplete(s, q);
      }
    }
    assert IsolatedFrom(s, i) == IsolatedFrom(s, i + 1);
    IsolatedFromChain(s, i + 1);
    SpliceFromShift(s, i, IsolatedFrom(s, i + 1), rolls, k, title);
    ConcatAssoc(out, [s[i]], SpliceFrom(s, i + 1, IsolatedFrom(s, i + 1), rolls, k, title));
  }

  /** At the start the output is empty; at the end it is the whole rendering. */
  lemma ScanBounds(s: string, rolls: string, title: Parsed -> string, out: string)
    ensures ScanInvariant(s, rolls, title, 0, 0, [], Rendered(s, rolls, title))
    ensures ScanInvariant(s, rolls, title, |s|, 0, out, Rendered(s, rolls, title)) ==> out == Rendered(s, rolls, title)
  {
    IsolatedFromChain(s, 0);
  }

  lemma ConcatAssoc<T>(a: seq<T>, b: seq<T>, c: seq<T>)
    ensures (a + b) + c == a + (b + c)
  {
  }

  /**
   * The contentHtml override. An absent or empty roll string leaves the HTML
   * unchanged; otherwise the global replace runs left to right, the n-th
   * match taking the n-th roll through the counter index.
   */
  method RenderContentHtml(html: string, diceRolls: Option<string>, title: Parsed -> string)
    returns (out: string)
    ensures diceRolls == None || diceRolls == Some([]) ==> out == html
    ensures diceRolls.Some? && diceRolls.value != [] ==> out == Rendered(html, diceRolls.value, title)
  {
    if diceRolls.None? || diceRolls.value == [] {
      return html;
    }
    var rolls := diceRolls.value;
    var index := 0;
    var i := 0;
    out := [];
    ScanBounds(html, rolls, title, out);
    ghost var target := Rendered(html, rolls, title);
    while i < |html|
      invariant ScanInvariant(html, rolls, title, i, index, out, target)
    {
      ghost var i0, index0, out0 := i, index, out;
      match MatchAt(html, i)
      case Some(j) =>
        var number := ParseRoll(rolls, index);
        out := out + (html[i..j] + SpanHtml(number, title(number)));
        index := index + 1;
        i := j + 1;
        MatchStep(html, rolls, title, i0, index0, out0, target, j, i, index, out);
      case None =>
        out := out + [html[i]];
        i := i + 1;
        NoMatchStep(html, rolls, title, i0, index0, out0, target, i, out);
    }
    ScanBounds(html, rolls, title, out);
  }

  /** Splicing reads rolls k .. k + |ps| - 1 only. */
  lemma {:induction false} SpliceFromReadsListedRolls(s: string, from: nat, ps: seq<nat>, rolls: string,
                                                      extra: string, k: nat, title: Parsed -> string)
    requires from <= |s| && Chain(s, from, ps) && k + |ps| <= |rolls|
    ensures SpliceFrom(s, from, ps, rolls + extra, k, title) == SpliceFrom(s, from, ps, rolls, k, title)
    decreases |ps|
  {
    if ps != [] {
      assert (rolls + extra)[k] == rolls[k];
      assert RollSpan(rolls + extra, k, title) == RollSpan(rolls, k, title);
      SpliceFromReadsListedRolls(s, ps[0] + 1, ps[1..], rolls, extra, k + 1, title);
    }
  }

  /** Rolls beyond the number of isolated glyphs are ignored. */
  lemma SurplusRollsIgnored(s: string, rolls: string, extra: string, title: Parsed -> string)
    requires |IsolatedPositions(s)| <= |rolls|
    ensures Rendered(s, rolls + extra, title) == Rendered(s, rolls, title)
  {
    IsolatedFromChain(s, 0);
    SpliceFromReadsListedRolls(s, 0, IsolatedPositions(s), rolls, extra, 0, title);
  }

  /** HTML with no die glyph alone on its line is rendered unchanged. */
  lemma NoIsolatedGlyphUnchanged(s: string, rolls: string, title: Parsed -> string)
    requires forall q :: !Isolated(s, q)
    ensures Rendered(s, rolls, title) == s
  {
    IsolatedFromSkip(s, 0, |s|);
    assert s[0..] == s;
  }

  /** With no isolated glyph before p, the rendering begins with s[..p]. */
  lemma RenderedKeepsPrefix(s: string, p: nat, rolls: string, title: Parsed -> string)
    requires p <= |s| && forall r: nat :: r < p ==> !Isolated(s, r)
    ensures s[..p] <= Rendered(s, rolls, title)
  {
    IsolatedFromSkip(s, 0, p);
    IsolatedFromChain(s, p);
    IsolatedFromChain(s, 0);
    var ps := IsolatedFrom(s, p);
    if ps == [] {
      assert Rendered(s, rolls, title) == s[0..];
    } else {
      var later := SpliceFrom(s, ps[0] + 1, ps[1..], rolls, 1, title);
      assert Rendered(s, rolls, title) == s[0..ps[0]] + RollSpan(rolls, 0, title) + later;
      assert s[..p] <= s[0..ps[0]];
    }
  }

  /**
   * A glyph with other text before or after it on its line is never
   * converted: when nothing before it is converted either, the rendering
   * begins with the input up to and including that glyph.
   */
  lemma CrowdedGlyphKept(s: string, q: nat, rolls: string, title: Parsed -> string)
    requires q < |s| && IsDieGlyph(s[q])
    requires !ClosesLine(s, q + 1) || !OpensLine(s, RunStart(s, q))
    ensures q !in IsolatedPositions(s)
    ensures (forall r: nat :: r < q ==> !Isolated(s, r)) ==> s[..q + 1] <= Rendered(s, rolls, title)
  {
    assert !Isolated(s, q);
    assert q !in IsolatedPositions(s) by {
      IsolatedFromExact(s, 0);
    }
    if forall r: nat :: r < q ==> !Isolated(s, r) {
      assert forall r: nat :: r < q + 1 ==> !Isolated(s, r);
      RenderedKeepsPrefix(s, q + 1, rolls, title);
    }
  }

  /** A glyph past the last roll shows the warning sign and data-number NaN. */
  lemma MissingRollWarns(rolls: string, k: nat, title: Parsed -> string)
    requires |rolls| <= k
    ensures RollSpan(rolls, k, title) == SpanHtml(NaN, title(NaN))
    ensures FaceGlyph(NaN) == Warning && DataNumber(NaN) == "NaN"
  {
  }

  /** <p>die</p> with rolls "3": one span showing face 3. */
  lemma ParagraphExample(title: Parsed -> string)
    ensures Rendered("<p>" + [Die] + "</p>", "3", title)
      == "<p>" + SpanHtml(Num(3), title(Num(3))) + "</p>"
    ensures FaceGlyph(Num(3)) == '\U{2682}'
  {
    var s := "<p>" + [Die] + "</p>";
    assert Isolated(s, 3);
    forall q: nat | q != 3 ensures !Isolated(s, q) {
      assert q < |s| ==> !IsDieGlyph(s[q]);
    }
    IsolatedFromSkip(s, 0, 3);
    IsolatedFromSkip(s, 4, |s|);
    assert IsolatedPositions(s) == [3];
    assert s[0..3] == "<p>" && s[4..] == "</p>";
    assert ParseRoll("3", 0) == Num(3);
    IsolatedFromChain(s, 0);
    assert Chain(s, 4, []);
    assert SpliceFrom(s, 4, [], "3", 1, title) == "</p>";
    assert Rendered(s, "3", title) == "<p>" + RollSpan("3", 0, title) + "</p>";
  }

  /** dice separated only by <br> each match: <br>die<br>die<br>. */
  lemma BreakSeparatedExample()
    ensures IsolatedPositions("<br>" + [Die] + "<br>" + [Die] + "<br>") == [4, 9]
  {
    var s := "<br>" + [Die] + "<br>" + [Die] + "<br>";
    assert Isolated(s, 4) && Isolated(s, 9);
    forall q: nat | q != 4 && q != 9 ensures !Isolated(s, q) {
      assert q < |s| ==> !IsDieGlyph(s[q]);
    }
    IsolatedFromSkip(s, 0, 4);
    IsolatedFromSkip(s, 5, 9);
    IsolatedFromSkip(s, 10, |s|);
  }

  /** In <p>die</p><p>die</p> both glyphs stand alone on their lines. */
  lemma TwoParagraphsPositions()
    ensures IsolatedPositions("<p>" + [Die] + "</p><p>" + [Die] + "</p>") == [3, 11]
  {
    var s := "<p>" + [Die] + "</p><p>" + [Die] + "</p>";
    assert Isolated(s, 3) && Isolated(s, 11);
    forall q: nat | q != 3 && q != 11 ensures !Isolated(s, q) {
      assert q < |s| ==> !IsDieGlyph(s[q]);
    }
    IsolatedFromSkip(s, 0, 3);
    IsolatedFromSkip(s, 4, 11);
    IsolatedFromSkip(s, 12, |s|);
  }

  /** The second half of <p>die</p><p>die</p>, from the first closing tag on, with roll 1 next. */
  lemma TwoParagraphsTail(title: Parsed -> string)
    ensures var s := "<p>" + [Die] + "</p><p>" + [Die] + "</p>";
            && Chain(s, 4, [11])
            && SpliceFrom(s, 4, [11], "15", 1, title) == "</p><p>" + SpanHtml(Num(5), title(Num(5))) + "</p>"
  {
    var s := "<p>" + [Die] + "</p><p>" + [Die] + "</p>";
    assert s[4..11] == "</p><p>" && s[12..] == "</p>";
    assert ParseRoll("15", 1) == Num(5);
    assert Chain(s, 12, []);
    assert SpliceFrom(s, 12, [], "15", 2, title) == "</p>";
  }

  /** <p>die</p><p>die</p> with rolls "15": faces 1 and 5, in document order. */
  lemma TwoParagraphsExample(title: Parsed -> string)
    ensures Rendered("<p>" + [Die] + "</p><p>" + [Die] + "</p>", "15", title)
      == "<p>" + SpanHtml(Num(1), title(Num(1))) + ("</p><p>" + SpanHtml(Num(5), title(Num(5))) + "</p>")
    ensures FaceGlyph(Num(1)) == '\U{2680}' && FaceGlyph(Num(5)) == '\U{2684}'
  {
    var s := "<p>" + [Die] + "</p><p>" + [Die] + "</p>";
    TwoParagraphsPositions();
    TwoParagraphsTail(title);
    IsolatedFromChain(s, 0);
    assert s[0..3] == "<p>";
    assert ParseRoll("15", 0) == Num(1);
  }
}
