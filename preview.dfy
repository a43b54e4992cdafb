/**
 * The s9e.TextFormatter.preview override: after the formatter has patched
 * the preview element, pass 1 is meant to unwrap every roll-a-die element
 * whose text is no longer one glyph alone, and pass 2 collects the text nodes
 * that are one glyph alone (outside a roll-a-die parent) and then replaces
 * each by a preview span.
 *
 * As written, pass 1 unwraps only the first such element in each run
 * (UnwrapFirst, AsWrittenReconciled). The corrected override, Reconciled and
 * ReconcilePreview, uses Invalidate as pass 1, which unwraps all of them.
 *
 * The document is a value: a tree of element and text nodes. A node is
 * addressed by its path of child indexes from the preview root, which plays
 * the part of the node reference held in replaceQueue.
 */
module Preview {
  import opened Wrappers
  import opened Glyphs

  const RollClass := "roll-a-die"
  const PreviewClass := "preview"

  /** A DOM node: a text node, or an element with its tag, class list, title and children. */
  datatype Node =
    | Text(text: string)
    | Element(tag: string, classes: set<string>, title: Option<string>, children: seq<Node>)

  /** node.textContent: the texts of all descendant text nodes, in document order. */
  function TextContent(n: Node): string
    decreases n
  {
    match n
    case Text(t) => t
    case Element(_, _, _, kids) => TextContents(kids)
  }

  function TextContents(ns: seq<Node>): string
    decreases ns
  {
    if ns == [] then [] else TextContent(ns[0]) + TextContents(ns[1..])
  }

  // ---------------------------------------------------------------------
  // Pass 1: unwrap stale roll-a-die elements.
  // ---------------------------------------------------------------------

  /**
   * Pass 1 on one node below the root: a roll-a-die element whose text
   * content fails ONLY_ONE_EMOJI_REGEX becomes a text node with that text
   * content, subtree and all; every other node keeps its place and is
   * cleaned below. Unwrapping never changes the text of the document.
   */
  function Invalidate(n: Node): (r: Node)
    ensures TextContent(r) == TextContent(n)
    decreases n
  {
    match n
    case Text(_) => n
    case Element(tag, cs, t, kids) =>
      if RollClass in cs && !OnlyOneEmoji(TextContent(n)) then Text(TextContent(n))
      else Element(tag, cs, t, InvalidateAll(kids))
  }

  function InvalidateAll(ns: seq<Node>): (rs: seq<Node>)
    ensures |rs| == |ns|
    ensures TextContents(rs) == TextContents(ns)
    decreases ns
  {
    if ns == [] then [] else [Invalidate(ns[0])] + InvalidateAll(ns[1..])
  }

  /** Pass 1 on the preview root: the tree walker visits descendants, never the root. */
  function CleanUp(root: Node): Node
  {
    match root
    case Text(_) => root
    case Element(tag, cs, t, kids) => Element(tag, cs, t, InvalidateAll(kids))
  }

  /** Every roll-a-die element within n has text content that passes the regex. */
  predicate RollsValid(n: Node)
    decreases n
  {
    match n
    case Text(_) => true
    case Element(_, cs, _, kids) => (RollClass in cs ==> OnlyOneEmoji(TextContents(kids))) && AllRollsValid(kids)
  }

  predicate AllRollsValid(ns: seq<Node>)
    decreases ns
  {
    ns == [] || (RollsValid(ns[0]) && AllRollsValid(ns[1..]))
  }

  /** After pass 1 every roll-a-die element left is valid. */
  lemma {:induction false} InvalidateMakesValid(n: Node)
    ensures RollsValid(Invalidate(n))
    decreases n
  {
    match n
    case Text(_) =>
    case Element(tag, cs, t, kids) =>
      if !(RollClass in cs && !OnlyOneEmoji(TextContent(n))) {
        InvalidateAllMakesValid(kids);
      }
  }

  lemma {:induction false} InvalidateAllMakesValid(ns: seq<Node>)
    ensures AllRollsValid(InvalidateAll(ns))
    decreases ns
  {
    if ns != [] {
      InvalidateMakesValid(ns[0]);
      InvalidateAllMakesValid(ns[1..]);
      assert InvalidateAll(ns)[0] == Invalidate(ns[0]);
      assert InvalidateAll(ns)[1..] == InvalidateAll(ns[1..]);
    }
  }

  /** Pass 1 leaves a node alone exactly when every roll-a-die element in it is valid. */
  lemma {:induction false} InvalidateUnchangedIff(n: Node)
    ensures Invalidate(n) == n <==> RollsValid(n)
    decreases n
  {
    match n
    case Text(_) =>
    case Element(tag, cs, t, kids) =>
      InvalidateAllUnchangedIff(kids);
  }

  lemma {:induction false} InvalidateAllUnchangedIff(ns: seq<Node>)
    ensures InvalidateAll(ns) == ns <==> AllRollsValid(ns)
    decreases ns
  {
    if ns != [] {
      InvalidateUnchangedIff(ns[0]);
      InvalidateAllUnchangedIff(ns[1..]);
      assert InvalidateAll(ns)[0] == Invalidate(ns[0]);
      assert InvalidateAll(ns)[1..] == InvalidateAll(ns[1..]);
      if InvalidateAll(ns) == ns {
        assert Invalidate(ns[0]) == ns[0];
        assert InvalidateAll(ns[1..]) == ns[1..];
      }
      if AllRollsValid(ns) {
        assert ns == [ns[0]] + ns[1..];
      }
    }
  }

  // ---------------------------------------------------------------------
  // Pass 2: convert text nodes that are one glyph alone.
  // ---------------------------------------------------------------------

  /**
   * The test pass 2 applies to a text node: its text is non-empty, its
   * parent lacks the roll-a-die class, and its text passes the regex.
   */
  predicate Qualifies(n: Node, parentIsRoll: bool)
  {
    n.Text? && n.text != [] && !parentIsRoll && OnlyOneEmoji(n.text)
  }

  /** The span that replaces a collected text node: it always shows face one. */
  function PreviewSpan(title: string): Node
  {
    Element("span", {RollClass, PreviewClass}, Some(title), [Text([Faces[0]])])
  }

  /** Pass 2 as one recursive map: every qualifying text node becomes a preview span. */
  function Annotate(n: Node, parentIsRoll: bool, title: string): Node
    decreases n
  {
    match n
    case Text(_) => if Qualifies(n, parentIsRoll) then PreviewSpan(title) else n
    case Element(tag, cs, t, kids) => Element(tag, cs, t, AnnotateAll(kids, RollClass in cs, title))
  }

  function AnnotateAll(ns: seq<Node>, parentIsRoll: bool, title: string): (rs: seq<Node>)
    ensures |rs| == |ns|
    decreases ns
  {
    if ns == [] then [] else [Annotate(ns[0], parentIsRoll, title)] + AnnotateAll(ns[1..], parentIsRoll, title)
  }

  /** Pass 2 on the preview root, which the walker never reports itself. */
  function AnnotateRoot(root: Node, title: string): Node
  {
    if root.Text? then root else Annotate(root, false, title)
  }

  /** The corrected override: Invalidate as pass 1, then pass 2. */
  function Reconciled(root: Node, title: string): Node
  {
    AnnotateRoot(CleanUp(root), title)
  }

  /** No text node within n qualifies for conversion. */
  predicate NoneQualify(n: Node, parentIsRoll: bool)
    decreases n
  {
    match n
    case Text(_) => !Qualifies(n, parentIsRoll)
    case Element(_, cs, _, kids) => NoneQualifyAll(kids, RollClass in cs)
  }

  predicate NoneQualifyAll(ns: seq<Node>, parentIsRoll: bool)
    decreases ns
  {
    ns == [] || (NoneQualify(ns[0], parentIsRoll) && NoneQualifyAll(ns[1..], parentIsRoll))
  }

  /** Pass 2 leaves a node alone exactly when no text node in it qualifies. */
  lemma {:induction false} AnnotateUnchangedIff(n: Node, parentIsRoll: bool, title: string)
    ensures Annotate(n, parentIsRoll, title) == n <==> NoneQualify(n, parentIsRoll)
    decreases n
  {
    match n
    case Text(_) =>
    case Element(tag, cs, t, kids) =>
      AnnotateAllUnchangedIff(kids, RollClass in cs, title);
  }

  lemma {:induction false} AnnotateAllUnchangedIff(ns: seq<Node>, parentIsRoll: bool, title: string)
    ensures AnnotateAll(ns, parentIsRoll, title) == ns <==> NoneQualifyAll(ns, parentIsRoll)
    decreases ns
  {
    if ns != [] {
      AnnotateUnchangedIff(ns[0], parentIsRoll, title);
      AnnotateAllUnchangedIff(ns[1..], parentIsRoll, title);
      var rs := AnnotateAll(ns, parentIsRoll, title);
      assert rs[0] == Annotate(ns[0], parentIsRoll, title);
      assert rs[1..] == AnnotateAll(ns[1..], parentIsRoll, title);
      if rs == ns {
        assert rs[1..] == ns[1..];
      }
      if NoneQualifyAll(ns, parentIsRoll) {
        assert ns == [ns[0]] + ns[1..];
      }
    }
  }

  /** After pass 2 nothing qualifies any more: a span's own text has a roll-a-die parent. */
  lemma {:induction false} AnnotateLeavesNoneQualifying(n: Node, parentIsRoll: bool, title: string)
    ensures NoneQualify(Annotate(n, parentIsRoll, title), parentIsRoll)
    decreases n
  {
    match n
    case Text(_) =>
      if Qualifies(n, parentIsRoll) {
        var kids := [Text([Faces[0]])];
        assert kids[1..] == [];
        assert NoneQualify(kids[0], true);
        assert NoneQualifyAll(kids, true);
      }
    case Element(tag, cs, t, kids) =>
      AnnotateAllLeavesNoneQualifying(kids, RollClass in cs, title);
  }

  lemma {:induction false} AnnotateAllLeavesNoneQualifying(ns: seq<Node>, parentIsRoll: bool, title: string)
    ensures NoneQualifyAll(AnnotateAll(ns, parentIsRoll, title), parentIsRoll)
    decreases ns
  {
    if ns != [] {
      AnnotateLeavesNoneQualifying(ns[0], parentIsRoll, title);
      AnnotateAllLeavesNoneQualifying(ns[1..], parentIsRoll, title);
      var rs := AnnotateAll(ns, parentIsRoll, title);
      assert rs[0] == Annotate(ns[0], parentIsRoll, title);
      assert rs[1..] == AnnotateAll(ns[1..], parentIsRoll, title);
    }
  }

  /**
   * Pass 2 replaces one-glyph texts by a one-glyph span, so it keeps the
   * shape of every text content that the regex looks at.
   */
  lemma {:induction false} AnnotateKeepsKinds(n: Node, parentIsRoll: bool, title: string)
    ensures Kinds(TextContent(Annotate(n, parentIsRoll, title))) == Kinds(TextContent(n))
    decreases n
  {
    match n
    case Text(s) =>
      if Qualifies(n, parentIsRoll) {
        OnlyOneEmojiKinds(s);
        assert TextContent(PreviewSpan(title)) == [Faces[0]] by {
          assert TextContents([Text([Faces[0]])]) == [Faces[0]] + TextContents([]);
        }
        assert Kinds([Faces[0]]) == [true] by {
          assert [Faces[0]][1..] == [];
        }
      }
    case Element(tag, cs, t, kids) =>
      AnnotateAllKeepsKinds(kids, RollClass in cs, title);
  }

  lemma {:induction false} AnnotateAllKeepsKinds(ns: seq<Node>, parentIsRoll: bool, title: string)
    ensures Kinds(TextContents(AnnotateAll(ns, parentIsRoll, title))) == Kinds(TextContents(ns))
    decreases ns
  {
    if ns != [] {
      AnnotateKeepsKinds(ns[0], parentIsRoll, title);
      AnnotateAllKeepsKinds(ns[1..], parentIsRoll, title);
      var rs := AnnotateAll(ns, parentIsRoll, title);
      assert rs[0] == Annotate(ns[0], parentIsRoll, title);
      assert rs[1..] == AnnotateAll(ns[1..], parentIsRoll, title);
      KindsConcat(TextContent(rs[0]), TextContents(rs[1..]));
      KindsConcat(TextContent(ns[0]), TextContents(ns[1..]));
    }
  }

  /** Pass 2 keeps every roll-a-die element valid, and the spans it adds are valid. */
  lemma {:induction false} AnnotateKeepsValid(n: Node, parentIsRoll: bool, title: string)
    requires RollsValid(n)
    ensures RollsValid(Annotate(n, parentIsRoll, title))
    decreases n
  {
    match n
    case Text(_) =>
      if Qualifies(n, parentIsRoll) {
        SingleGlyphsPass(Faces[0]);
        assert TextContents([Text([Faces[0]])]) == [Faces[0]] + TextContents([]);
        assert AllRollsValid([Text([Faces[0]])]) by {
          assert AllRollsValid([Text([Faces[0]])][1..]);
        }
      }
    case Element(tag, cs, t, kids) =>
      AnnotateAllKeepsValid(kids, RollClass in cs, title);
      if RollClass in cs {
        AnnotateAllKeepsKinds(kids, RollClass in cs, title);
        OnlyOneEmojiKinds(TextContents(kids));
        OnlyOneEmojiKinds(TextContents(AnnotateAll(kids, RollClass in cs, title)));
      }
  }

  lemma {:induction false} AnnotateAllKeepsValid(ns: seq<Node>, parentIsRoll: bool, title: string)
    requires AllRollsValid(ns)
    ensures AllRollsValid(AnnotateAll(ns, parentIsRoll, title))
    decreases ns
  {
    if ns != [] {
      AnnotateKeepsValid(ns[0], parentIsRoll, title);
      AnnotateAllKeepsValid(ns[1..], parentIsRoll, title);
      var rs := AnnotateAll(ns, parentIsRoll, title);
      assert rs[0] == Annotate(ns[0], parentIsRoll, title);
      assert rs[1..] == AnnotateAll(ns[1..], parentIsRoll, title);
    }
  }

  /**
   * Running the corrected override again on the tree it produced changes
   * nothing: every span it made shows one glyph, so Invalidate keeps it, and
   * the span's text has a roll-a-die parent, so pass 2 skips it. The override
   * as written lacks this property (AsWrittenNotIdempotent).
   */
  lemma ReconcileIdempotent(root: Node, title: string)
    ensures Reconciled(Reconciled(root, title), title) == Reconciled(root, title)
  {
    match root
    case Text(_) =>
    case Element(tag, cs, t, kids) =>
      var cleaned := InvalidateAll(kids);
      var annotated := AnnotateAll(cleaned, RollClass in cs, title);
      assert Reconciled(root, title) == Element(tag, cs, t, annotated);
      InvalidateAllMakesValid(kids);
      AnnotateAllKeepsValid(cleaned, RollClass in cs, title);
      InvalidateAllUnchangedIff(annotated);
      AnnotateAllLeavesNoneQualifying(cleaned, RollClass in cs, title);
      AnnotateAllUnchangedIff(annotated, RollClass in cs, title);
  }

  // ---------------------------------------------------------------------
  // Pass 2 as the source runs it: collect the qualifying text nodes in
  // document order, then replace each in turn.
  // ---------------------------------------------------------------------

  /** The address of a node: child indexes from the node the path starts at. */
  type Path = seq<nat>

  /** Every path of ps put below p. */
  function Under(p: Path, ps: seq<Path>): (rs: seq<Path>)
    ensures |rs| == |ps|
    decreases ps
  {
    if ps == [] then [] else [p + ps[0]] + Under(p, ps[1..])
  }

  /** The qualifying text nodes within n, in document order, as paths from n. */
  function Collect(n: Node, parentIsRoll: bool): seq<Path>
    decreases n, 1
  {
    match n
    case Text(_) => if Qualifies(n, parentIsRoll) then [[]] else []
    case Element(_, cs, _, kids) => CollectAll(kids, RollClass in cs, 0)
  }

  /** The qualifying text nodes within kids[i..], as paths from their parent. */
  function CollectAll(kids: seq<Node>, parentIsRoll: bool, i: nat): seq<Path>
    requires i <= |kids|
    decreases kids, 0, |kids| - i
  {
    if i == |kids| then []
    else Under([i], Collect(kids[i], parentIsRoll)) + CollectAll(kids, parentIsRoll, i + 1)
  }

  /** The queue the SHOW_TEXT walk over the preview root fills. */
  function RootQueue(root: Node): seq<Path>
  {
    match root
    case Text(_) => []
    case Element(_, cs, _, kids) => CollectAll(kids, RollClass in cs, 0)
  }

  /** parentNode.replaceChild(r, node) for the node at path p; paths that lead nowhere change nothing. */
  function ReplaceAt(n: Node, p: Path, r: Node): Node
    decreases |p|
  {
    if p == [] then r
    else match n
      case Text(_) => n
      case Element(tag, cs, t, kids) =>
        if p[0] < |kids| then Element(tag, cs, t, kids[p[0] := ReplaceAt(kids[p[0]], p[1..], r)]) else n
  }

  /** replaceQueue.forEach: the replacements applied in queue order. */
  function ReplaceAll(n: Node, queue: seq<Path>, r: Node): Node
    decreases |queue|
  {
    if queue == [] then n else ReplaceAll(ReplaceAt(n, queue[0], r), queue[1..], r)
  }

  lemma {:induction false} ReplaceAllConcat(n: Node, a: seq<Path>, b: seq<Path>, r: Node)
    ensures ReplaceAll(n, a + b, r) == ReplaceAll(ReplaceAll(n, a, r), b, r)
    decreases |a|
  {
    if a == [] {
      assert a + b == b;
    } else {
      assert (a + b)[0] == a[0];
      assert (a + b)[1..] == a[1..] + b;
      ReplaceAllConcat(ReplaceAt(n, a[0], r), a[1..], b, r);
    }
  }

  /** Replacing at paths below child i rebuilds child i alone. */
  lemma {:induction false} ReplaceAllUnderChild(tag: string, cs: set<string>, t: Option<string>, kids: seq<Node>, i: nat, ps: seq<Path>, r: Node)
    requires i < |kids|
    ensures ReplaceAll(Element(tag, cs, t, kids), Under([i], ps), r)
         == Element(tag, cs, t, kids[i := ReplaceAll(kids[i], ps, r)])
    decreases |ps|
  {
    if ps != [] {
      var p := [i] + ps[0];
      assert p[0] == i && p[1..] == ps[0];
      var kids' := kids[i := ReplaceAt(kids[i], ps[0], r)];
      assert ReplaceAt(Element(tag, cs, t, kids), p, r) == Element(tag, cs, t, kids');
      ReplaceAllUnderChild(tag, cs, t, kids', i, ps[1..], r);
      assert kids'[i := ReplaceAll(kids'[i], ps[1..], r)] == kids[i := ReplaceAll(kids[i], ps, r)];
    }
  }

  /**
   * Replacing every collected text node, in queue order, gives the
   * recursive map: collecting first and replacing afterwards converts
   * exactly the qualifying text nodes, each once.
   */
  lemma {:induction false} CollectThenReplace(n: Node, parentIsRoll: bool, title: string)
    ensures ReplaceAll(n, Collect(n, parentIsRoll), PreviewSpan(title)) == Annotate(n, parentIsRoll, title)
    decreases n, 1
  {
    match n
    case Text(_) =>
    case Element(tag, cs, t, kids) =>
      CollectAllThenReplace(tag, cs, t, kids, kids, 0, title);
      assert kids[..0] + AnnotateAll(kids[0..], RollClass in cs, title) == AnnotateAll(kids, RollClass in cs, title) by {
        assert kids[0..] == kids;
      }
  }

  lemma {:induction false} CollectAllThenReplace(tag: string, cs: set<string>, t: Option<string>, kids: seq<Node>, done: seq<Node>, i: nat, title: string)
    requires i <= |kids| && |done| == |kids| && done[i..] == kids[i..]
    ensures ReplaceAll(Element(tag, cs, t, done), CollectAll(kids, RollClass in cs, i), PreviewSpan(title))
         == Element(tag, cs, t, done[..i] + AnnotateAll(kids[i..], RollClass in cs, title))
    decreases kids, 0, |kids| - i
  {
    var pr := RollClass in cs;
    var r := PreviewSpan(title);
    if i == |kids| {
      assert done[..i] == done;
      assert kids[i..] == [];
    } else {
      var c := Collect(kids[i], pr);
      var x := Annotate(kids[i], pr, title);
      var done' := done[i := x];
      ReplaceAllConcat(Element(tag, cs, t, done), Under([i], c), CollectAll(kids, pr, i + 1), r);
      ChildStep(tag, cs, t, kids, done, i, title);
      DoneSuffix(kids, done, i, x);
      CollectAllThenReplace(tag, cs, t, kids, done', i + 1, title);
      DonePrefix(kids, done, i, pr, title);
    }
  }

  /** The replacements below child i turn that child into its annotated form. */
  lemma ChildStep(tag: string, cs: set<string>, t: Option<string>, kids: seq<Node>, done: seq<Node>, i: nat, title: string)
    requires i < |kids| && |done| == |kids| && done[i..] == kids[i..]
    ensures ReplaceAll(Element(tag, cs, t, done), Under([i], Collect(kids[i], RollClass in cs)), PreviewSpan(title))
         == Element(tag, cs, t, done[i := Annotate(kids[i], RollClass in cs, title)])
    decreases kids, 0, |kids| - i, 0
  {
    assert done[i] == kids[i] by {
      assert done[i..][0] == kids[i..][0];
    }
    ReplaceAllUnderChild(tag, cs, t, done, i, Collect(kids[i], RollClass in cs), PreviewSpan(title));
    CollectThenReplace(kids[i], RollClass in cs, title);
  }

  lemma DoneSuffix(kids: seq<Node>, done: seq<Node>, i: nat, x: Node)
    requires i < |kids| && |done| == |kids| && done[i..] == kids[i..]
    ensures done[i := x][i + 1..] == kids[i + 1..]
  {
    assert done[i := x][i + 1..] == done[i..][1..];
  }

  lemma DonePrefix(kids: seq<Node>, done: seq<Node>, i: nat, pr: bool, title: string)
    requires i < |kids| && |done| == |kids|
    ensures done[i := Annotate(kids[i], pr, title)][..i + 1] + AnnotateAll(kids[i + 1..], pr, title)
         == done[..i] + AnnotateAll(kids[i..], pr, title)
  {
    assert kids[i..][0] == kids[i];
    assert kids[i..][1..] == kids[i + 1..];
    assert done[i := Annotate(kids[i], pr, title)][..i + 1] == done[..i] + [Annotate(kids[i], pr, title)];
  }

  /** A subtree the walk has yet to visit: where it sits and whether its parent is roll-a-die. */
  datatype Pending = Pending(path: Path, node: Node, parentIsRoll: bool)

  /** What the walk still adds to the queue once it has visited every pending subtree. */
  function PendingQueue(ws: seq<Pending>): seq<Path>
    decreases ws
  {
    if ws == [] then [] else Under(ws[0].path, Collect(ws[0].node, ws[0].parentIsRoll)) + PendingQueue(ws[1..])
  }

  /** The children kids[i..] of the node at p, as pending subtrees in document order. */
  function ChildrenOf(p: Path, kids: seq<Node>, parentIsRoll: bool, i: nat): (ws: seq<Pending>)
    requires i <= |kids|
    ensures |ws| == |kids| - i
    decreases |kids| - i
  {
    if i == |kids| then [] else [Pending(p + [i], kids[i], parentIsRoll)] + ChildrenOf(p, kids, parentIsRoll, i + 1)
  }

  function Size(n: Node): nat
    decreases n
  {
    match n
    case Text(_) => 1
    case Element(_, _, _, kids) => 1 + SizeAll(kids)
  }

  function SizeAll(ns: seq<Node>): nat
    decreases ns
  {
    if ns == [] then 0 else Size(ns[0]) + SizeAll(ns[1..])
  }

  function PendingSize(ws: seq<Pending>): nat
    decreases ws
  {
    if ws == [] then 0 else Size(ws[0].node) + PendingSize(ws[1..])
  }

  lemma {:induction false} UnderConcat(p: Path, a: seq<Path>, b: seq<Path>)
    ensures Under(p, a + b) == Under(p, a) + Under(p, b)
    decreases |a|
  {
    if a == [] {
      assert a + b == b;
    } else {
      assert (a + b)[0] == a[0];
      assert (a + b)[1..] == a[1..] + b;
      UnderConcat(p, a[1..], b);
    }
  }

  lemma {:induction false} UnderUnder(p: Path, q: Path, ps: seq<Path>)
    ensures Under(p, Under(q, ps)) == Under(p + q, ps)
    decreases |ps|
  {
    if ps != [] {
      assert p + (q + ps[0]) == (p + q) + ps[0];
      UnderUnder(p, q, ps[1..]);
    }
  }

  lemma {:induction false} UnderRoot(ps: seq<Path>)
    ensures Under([], ps) == ps
    decreases |ps|
  {
    if ps != [] {
      assert [] + ps[0] == ps[0];
      UnderRoot(ps[1..]);
    }
  }

  lemma {:induction false} PendingQueueConcat(a: seq<Pending>, b: seq<Pending>)
    ensures PendingQueue(a + b) == PendingQueue(a) + PendingQueue(b)
    decreases |a|
  {
    if a == [] {
      assert a + b == b;
    } else {
      assert (a + b)[0] == a[0];
      assert (a + b)[1..] == a[1..] + b;
      PendingQueueConcat(a[1..], b);
    }
  }

  lemma {:induction false} PendingSizeConcat(a: seq<Pending>, b: seq<Pending>)
    ensures PendingSize(a + b) == PendingSize(a) + PendingSize(b)
    decreases |a|
  {
    if a == [] {
      assert a + b == b;
    } else {
      assert (a + b)[0] == a[0];
      assert (a + b)[1..] == a[1..] + b;
      PendingSizeConcat(a[1..], b);
    }
  }

  /** Visiting the pending children of a node adds what collecting below that node adds. */
  lemma {:induction false} ChildrenQueue(p: Path, kids: seq<Node>, parentIsRoll: bool, i: nat)
    requires i <= |kids|
    ensures PendingQueue(ChildrenOf(p, kids, parentIsRoll, i)) == Under(p, CollectAll(kids, parentIsRoll, i))
    decreases |kids| - i
  {
    if i < |kids| {
      var ws := ChildrenOf(p, kids, parentIsRoll, i);
      assert ws[0] == Pending(p + [i], kids[i], parentIsRoll);
      assert ws[1..] == ChildrenOf(p, kids, parentIsRoll, i + 1);
      ChildrenQueue(p, kids, parentIsRoll, i + 1);
      UnderUnder(p, [i], Collect(kids[i], parentIsRoll));
      UnderConcat(p, Under([i], Collect(kids[i], parentIsRoll)), CollectAll(kids, parentIsRoll, i + 1));
    }
  }

  lemma {:induction false} ChildrenSize(p: Path, kids: seq<Node>, parentIsRoll: bool, i: nat)
    requires i <= |kids|
    ensures PendingSize(ChildrenOf(p, kids, parentIsRoll, i)) == SizeAll(kids[i..])
    decreases |kids| - i
  {
    if i < |kids| {
      var ws := ChildrenOf(p, kids, parentIsRoll, i);
      assert ws[0] == Pending(p + [i], kids[i], parentIsRoll);
      assert ws[1..] == ChildrenOf(p, kids, parentIsRoll, i + 1);
      assert kids[i..][0] == kids[i];
      assert kids[i..][1..] == kids[i + 1..];
      ChildrenSize(p, kids, parentIsRoll, i + 1);
    } else {
      assert kids[i..] == [];
    }
  }

  /** One walk step at a text node: it is queued exactly when it qualifies. */
  lemma VisitText(w: Pending, rest: seq<Pending>, queue: seq<Path>, queue': seq<Path>, target: seq<Path>)
    requires w.node.Text? && queue + PendingQueue([w] + rest) == target
    requires queue' == if w.node.text != [] && !w.parentIsRoll && OnlyOneEmoji(w.node.text) then queue + [w.path] else queue
    ensures queue' + PendingQueue(rest) == target
    ensures PendingSize(rest) < PendingSize([w] + rest)
  {
    var ws := [w] + rest;
    assert ws[0] == w && ws[1..] == rest;
    var here := Under(w.path, Collect(w.node, w.parentIsRoll));
    assert PendingQueue(ws) == here + PendingQueue(rest);
    assert PendingSize(ws) == Size(w.node) + PendingSize(rest);
    if Qualifies(w.node, w.parentIsRoll) {
      assert here == [w.path + []] + Under(w.path, []);
      assert w.path + [] == w.path;
      assert here == [w.path];
      assert queue' + PendingQueue(rest) == queue + (here + PendingQueue(rest));
    } else {
      assert here == [];
    }
  }

  /** One walk step at an element: its children become the next pending subtrees. */
  lemma VisitElement(w: Pending, rest: seq<Pending>, queue: seq<Path>, target: seq<Path>, work': seq<Pending>)
    requires w.node.Element? && queue + PendingQueue([w] + rest) == target
    requires work' == ChildrenOf(w.path, w.node.children, RollClass in w.node.classes, 0) + rest
    ensures queue + PendingQueue(work') == target
    ensures PendingSize(work') < PendingSize([w] + rest)
  {
    var children := ChildrenOf(w.path, w.node.children, RollClass in w.node.classes, 0);
    assert ([w] + rest)[0] == w;
    assert ([w] + rest)[1..] == rest;
    ChildrenQueue(w.path, w.node.children, RollClass in w.node.classes, 0);
    ChildrenSize(w.path, w.node.children, RollClass in w.node.classes, 0);
    assert w.node.children[0..] == w.node.children;
    PendingQueueConcat(children, rest);
    PendingSizeConcat(children, rest);
  }

  /**
   * Pass 2's SHOW_TEXT walk: visits the text nodes below the root in document
   * order and queues those with text, with no roll-a-die parent, that pass
   * the regex. The worklist holds the subtrees still to visit, first first.
   */
  method CollectQueue(root: Node) returns (queue: seq<Path>)
    ensures queue == RootQueue(root)
  {
    ghost var target := RootQueue(root);
    queue := [];
    var work: seq<Pending> := [];
    if root.Element? {
      work := ChildrenOf([], root.children, RollClass in root.classes, 0);
      ChildrenQueue([], root.children, RollClass in root.classes, 0);
      UnderRoot(CollectAll(root.children, RollClass in root.classes, 0));
    }
    while work != []
      invariant queue + PendingQueue(work) == target
      decreases PendingSize(work)
    {
      var w := work[0];
      var rest := work[1..];
      assert work == [w] + rest;
      ghost var queue0 := queue;
      if w.node.Text? {
        if w.node.text == [] {
          // nothing to convert
        } else if w.parentIsRoll {
          // already inside a roll-a-die element
        } else if OnlyOneEmoji(w.node.text) {
          queue := queue + [w.path];
        }
        work := rest;
        VisitText(w, rest, queue0, queue, target);
      } else {
        work := ChildrenOf(w.path, w.node.children, RollClass in w.node.classes, 0) + rest;
        VisitElement(w, rest, queue, target, work);
      }
    }
  }

  /** Pass 2's forEach: every queued node replaced by a preview span, in queue order. */
  method ReplaceQueued(tree: Node, queue: seq<Path>, previewTitle: string) returns (result: Node)
    ensures result == ReplaceAll(tree, queue, PreviewSpan(previewTitle))
  {
    var span := PreviewSpan(previewTitle);
    result := tree;
    for m := 0 to |queue|
      invariant ReplaceAll(result, queue[m..], span) == ReplaceAll(tree, queue, span)
    {
      assert queue[m..][0] == queue[m];
      assert queue[m..][1..] == queue[m + 1..];
      result := ReplaceAt(result, queue[m], span);
    }
    assert queue[|queue|..] == [];
  }

  /**
   * The corrected preview override after the formatter has patched the
   * element: Invalidate as pass 1, then pass 2's walk, then its replacements.
   * The result is the reference reconciliation of the root.
   */
  method ReconcilePreview(root: Node, previewTitle: string) returns (result: Node)
    ensures result == Reconciled(root, previewTitle)
  {
    var cleaned := CleanUp(root);
    var queue := CollectQueue(cleaned);
    result := ReplaceQueued(cleaned, queue, previewTitle);
    if cleaned.Element? {
      CollectThenReplace(cleaned, false, previewTitle);
    }
  }

  // ---------------------------------------------------------------------
  // Pass 1 as written: replacing the walker's current node ends the walk.
  // ---------------------------------------------------------------------

  /** A roll-a-die element whose text content fails the regex. */
  predicate Stale(n: Node)
  {
    n.Element? && RollClass in n.classes && !OnlyOneEmoji(TextContent(n))
  }

  /** The stale elements within n that lie inside no other stale element. */
  function OuterStale(n: Node): nat
    decreases n
  {
    if Stale(n) then 1
    else match n
      case Text(_) => 0
      case Element(_, _, _, kids) => OuterStaleAll(kids)
  }

  function OuterStaleAll(ns: seq<Node>): nat
    decreases ns
  {
    if ns == [] then 0 else OuterStale(ns[0]) + OuterStaleAll(ns[1..])
  }

  /** A node holds no outermost stale element exactly when all its roll-a-die elements are valid. */
  lemma {:induction false} NoOuterStaleIff(n: Node)
    ensures OuterStale(n) == 0 <==> RollsValid(n)
    decreases n
  {
    match n
    case Text(_) =>
    case Element(_, _, _, kids) =>
      NoOuterStaleAllIff(kids);
  }

  lemma {:induction false} NoOuterStaleAllIff(ns: seq<Node>)
    ensures OuterStaleAll(ns) == 0 <==> AllRollsValid(ns)
    decreases ns
  {
    if ns != [] {
      NoOuterStaleIff(ns[0]);
      NoOuterStaleAllIff(ns[1..]);
    }
  }

  /**
   * Pass 1 as the loop at js/src/forum/index.ts:77-81 runs it: after
   * replaceChild the walker's current node is detached, so nextNode only
   * walks the detached subtree and then stops. Only the first stale element
   * in document order is unwrapped; the flag says whether one was found.
   * The text is kept, and exactly one outermost stale element goes.
   */
  function UnwrapFirst(ns: seq<Node>): (r: (seq<Node>, bool))
    ensures |r.0| == |ns|
    ensures r.1 <==> OuterStaleAll(ns) > 0
    ensures TextContents(r.0) == TextContents(ns)
    ensures OuterStaleAll(r.0) == if r.1 then OuterStaleAll(ns) - 1 else 0
    ensures !r.1 ==> r.0 == ns
    decreases ns
  {
    if ns == [] then ([], false)
    else if Stale(ns[0]) then
      var unwrapped := [Text(TextContent(ns[0]))] + ns[1..];
      assert unwrapped[0] == Text(TextContent(ns[0])) && unwrapped[1..] == ns[1..];
      (unwrapped, true)
    else
      var below := if ns[0].Element? then UnwrapFirst(ns[0].children) else ([], false);
      if below.1 then
        var e := Element(ns[0].tag, ns[0].classes, ns[0].title, below.0);
        var unwrapped := [e] + ns[1..];
        assert unwrapped[0] == e && unwrapped[1..] == ns[1..];
        assert TextContent(e) == TextContent(ns[0]);
        (unwrapped, true)
      else
        var rest := UnwrapFirst(ns[1..]);
        var kept := [ns[0]] + rest.0;
        assert kept[0] == ns[0] && kept[1..] == rest.0;
        assert ns == [ns[0]] + ns[1..];
        (kept, rest.1)
  }

  /** The as-written pass 1 applied below the preview root. */
  function UnwrapFirstRoot(root: Node): Node
  {
    match root
    case Text(_) => root
    case Element(tag, cs, t, kids) => Element(tag, cs, t, UnwrapFirst(kids).0)
  }

  /** The as-written pass 1 finds a stale element exactly when there is one, and otherwise changes nothing. */
  lemma {:induction false} UnwrapFirstFindsStale(ns: seq<Node>)
    ensures UnwrapFirst(ns).1 <==> !AllRollsValid(ns)
    ensures !UnwrapFirst(ns).1 ==> UnwrapFirst(ns).0 == ns
    decreases ns
  {
    if ns != [] {
      if !Stale(ns[0]) {
        if ns[0].Element? {
          UnwrapFirstFindsStale(ns[0].children);
        }
        UnwrapFirstFindsStale(ns[1..]);
        if !UnwrapFirst(ns).1 {
          assert ns == [ns[0]] + ns[1..];
        }
      }
    }
  }

  /**
   * Two stale spans side by side: the as-written pass unwraps the first and
   * leaves the second, while the intended pass unwraps both.
   */
  lemma SecondStaleSpanSurvives(title: string)
    ensures var stale := Element("span", {RollClass, PreviewClass}, Some(title), [Text([Die, 'x'])]);
            var root := Element("div", {}, None, [stale, stale]);
            && UnwrapFirstRoot(root) == Element("div", {}, None, [Text([Die, 'x']), stale])
            && CleanUp(root) == Element("div", {}, None, [Text([Die, 'x']), Text([Die, 'x'])])
  {
    var edited := [Die, 'x'];
    var stale := Element("span", {RollClass, PreviewClass}, Some(title), [Text(edited)]);
    assert TextContents([Text(edited)]) == edited + TextContents([]);
    assert TextContent(stale) == edited;
    assert SkipLineBreaks(edited, 0) == 0;
    assert SkipLineBreaks(edited, 1) == 1;
    assert !OnlyOneEmoji(edited);
    assert Stale(stale);
    var kids := [stale, stale];
    assert kids[1..] == [stale];
    assert [stale][1..] == [];
    assert kids[0] == stale;
    assert UnwrapFirst(kids) == ([Text(TextContent(stale))] + kids[1..], true);
    assert InvalidateAll([stale]) == [Text(edited)];
    assert InvalidateAll(kids) == [Text(edited), Text(edited)];
  }

  /** With at most one outermost stale element, the as-written pass 1 is the intended one. */
  lemma {:induction false} UnwrapFirstAgrees(ns: seq<Node>)
    requires OuterStaleAll(ns) <= 1
    ensures UnwrapFirst(ns).0 == InvalidateAll(ns)
    decreases ns
  {
    if ns != [] {
      var rest := ns[1..];
      assert InvalidateAll(ns) == [Invalidate(ns[0])] + InvalidateAll(rest);
      if Stale(ns[0]) {
        NoOuterStaleAllIff(rest);
        InvalidateAllUnchangedIff(rest);
      } else if ns[0].Element? && UnwrapFirst(ns[0].children).1 {
        UnwrapFirstAgrees(ns[0].children);
        NoOuterStaleAllIff(rest);
        InvalidateAllUnchangedIff(rest);
      } else {
        NoOuterStaleIff(ns[0]);
        InvalidateUnchangedIff(ns[0]);
        UnwrapFirstAgrees(rest);
      }
    }
  }

  /** The override as written: the first-stale-only pass 1, then pass 2. */
  function AsWrittenReconciled(root: Node, title: string): Node
  {
    AnnotateRoot(UnwrapFirstRoot(root), title)
  }

  /** With at most one outermost stale element below the root, the override as written gives the intended result. */
  lemma AsWrittenAgrees(root: Node, title: string)
    requires root.Element? ==> OuterStaleAll(root.children) <= 1
    ensures AsWrittenReconciled(root, title) == Reconciled(root, title)
  {
    if root.Element? {
      UnwrapFirstAgrees(root.children);
    }
  }

  /**
   * The override as written is not idempotent: with two stale spans side by
   * side, the first run unwraps the first and the second run the other.
   */
  lemma AsWrittenNotIdempotent(title: string)
    ensures var stale := Element("span", {RollClass, PreviewClass}, Some(title), [Text([Die, 'x'])]);
            var root := Element("div", {}, None, [stale, stale]);
            && AsWrittenReconciled(root, title) == Element("div", {}, None, [Text([Die, 'x']), stale])
            && AsWrittenReconciled(AsWrittenReconciled(root, title), title)
               == Element("div", {}, None, [Text([Die, 'x']), Text([Die, 'x'])])
  {
    var edited := [Die, 'x'];
    var stale := Element("span", {RollClass, PreviewClass}, Some(title), [Text(edited)]);
    var once := [Text(edited), stale];
    var twice := [Text(edited), Text(edited)];
    SecondStaleSpanSurvives(title);
    assert SkipLineBreaks(edited, 0) == 0;
    assert SkipLineBreaks(edited, 1) == 1;
    assert !OnlyOneEmoji(edited);
    assert once[1..] == [stale] && [stale][1..] == [] && twice[1..] == [Text(edited)];
    assert [Text(edited)][1..] == [];
    assert NoneQualify(stale, false) by {
      assert NoneQualifyAll([Text(edited)], true);
    }
    assert NoneQualifyAll(once, false);
    AnnotateAllUnchangedIff(once, false, title);
    assert TextContents([Text(edited)]) == edited + TextContents([]);
    assert TextContent(stale) == edited;
    assert Stale(stale);
    assert [stale][0] == stale;
    assert UnwrapFirst([stale]) == ([Text(TextContent(stale))] + [stale][1..], true);
    assert UnwrapFirst(once) == ([Text(edited)] + UnwrapFirst([stale]).0, true);
    assert NoneQualifyAll(twice, false);
    AnnotateAllUnchangedIff(twice, false, title);
  }

  // ---------------------------------------------------------------------
  // Scenarios.
  // ---------------------------------------------------------------------

  /**
   * A text node that is exactly the die glyph becomes a preview span showing
   * face one, and a second run leaves the result as it is.
   */
  lemma PreviewConversionExample(title: string)
    ensures var root := Element("p", {}, None, [Text([Die])]);
            && Reconciled(root, title) == Element("p", {}, None, [PreviewSpan(title)])
            && Reconciled(Reconciled(root, title), title) == Reconciled(root, title)
  {
    var root := Element("p", {}, None, [Text([Die])]);
    assert [Text([Die])][1..] == [];
    SingleGlyphsPass(Die);
    assert Qualifies(Text([Die]), false);
    assert InvalidateAll([Text([Die])]) == [Text([Die])];
    assert AnnotateAll([Text([Die])], false, title) == [PreviewSpan(title)];
    ReconcileIdempotent(root, title);
  }

  /** A preview span whose text was edited to the die glyph followed by "x" goes back to plain text. */
  lemma PreviewInvalidationExample(title: string)
    ensures var edited := Element("span", {RollClass, PreviewClass}, Some(title), [Text([Die, 'x'])]);
            Reconciled(Element("p", {}, None, [edited]), title) == Element("p", {}, None, [Text([Die, 'x'])])
  {
    var text := [Die, 'x'];
    var edited := Element("span", {RollClass, PreviewClass}, Some(title), [Text(text)]);
    assert TextContents([Text(text)]) == text + TextContents([]);
    assert SkipLineBreaks(text, 0) == 0;
    assert SkipLineBreaks(text, 1) == 1;
    assert !OnlyOneEmoji(text);
    assert [edited][1..] == [];
    assert TextContent(edited) == text;
    assert Invalidate(edited) == Text(text);
    assert InvalidateAll([edited]) == [Text(text)];
    assert [Text(text)][1..] == [];
    assert !Qualifies(Text(text), false);
    assert AnnotateAll([Text(text)], false, title) == [Text(text)];
  }
}
