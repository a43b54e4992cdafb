# roll-die: the forum-side die rendering, modelled in Dafny

The Flarum extension clarkwinkelmann/roll-die lets a post contain the die
glyph 🎲 on a line of its own. When the post is saved, the server stores one
roll per glyph as a string of digits (the post's `diceRolls` attribute). The
forum script `js/src/forum/index.ts` then does two things:

- **Rendering** (`Post.contentHtml` override). In the rendered HTML, every die
  or face glyph that stands alone on its line becomes a
  `<span class="roll-a-die" data-number="N" title="…">F</span>`. A glyph is
  alone when `<br>` or `<p>` comes before it, possibly followed by line breaks,
  and `<br>` or `</p>` comes right after it. The n-th such glyph takes the n-th
  roll, and F is the face for N, or ⚠ when N is not 1 to 6.
- **Preview** (`s9e.TextFormatter.preview` override). After the formatter has
  patched the composer preview, pass 1 is meant to unwrap every `roll-a-die`
  element whose text is no longer a single glyph, turning it back into a text
  node. As written, it unwraps only the first such element in each run (see
  "## Findings").
  Pass 2 then queues every text node that is a single glyph, padded only by
  line breaks, and whose parent is not a `roll-a-die` element. Once the walk
  ends, each queued node is replaced by a `roll-a-die preview` span holding ⚀.

The project has four modules:

- `Wrappers` defines `Option`.
- `Glyphs` holds the glyph table, the single-glyph regex and `parseInt` of one
  roll.
- `Render` holds the contentHtml override. `MatchAt` is one attempt of the
  global regex at one position, and `RenderContentHtml` runs the left-to-right
  replace loop over it. That loop is proved equal to `Rendered`, an independent
  definition built from `Isolated`, a look-around test at the glyph itself.
- `Preview` holds the preview override on a tree of element and text nodes.
  - Pass 1 is the recursive map `Invalidate`, the corrected pass that
    unwraps every stale element. `UnwrapFirst` is the pass as written.
  - Pass 2 is two methods. `CollectQueue` is the text walk, which collects
    node paths in document order. `ReplaceQueued` is the replacement loop.
  - `CollectThenReplace` proves that collect-then-replace equals the
    recursive map `Annotate`.
  - `ReconcileIdempotent` proves that a second run of the corrected
    override changes nothing. `AsWrittenNotIdempotent` shows that the
    override as written lacks this property.

The translator is not modelled. It is a parameter: `title: Parsed -> string`
for the render tooltip, and the preview title string for the preview.

Four behaviours of the code that a reader might not expect:

- An absent or empty `diceRolls` returns the HTML unchanged. No glyph is
  converted, not even with a fallback face.
- A glyph with no roll left gets `parseInt(undefined)`, which is NaN. Its span
  carries `data-number="NaN"` and shows ⚠. The attribute is present, not
  absent.
- The preview span always holds ⚀ (U+2680), never 🎲.
- The preview span has the classes `roll-a-die` and `preview`. Pass 2 skips a
  text node whose parent is any `roll-a-die` element, preview or not.

## Model

| member | source | states |
|---|---|---|
| Glyphs.SkipLineBreaks | js/src/forum/index.ts:21 | the `[\n\r]*` run: the result is the first position at or after i that is not a line break, and everything skipped is a line break |
| Glyphs.OnlyOneEmojiKinds | js/src/forum/index.ts:21 | ONLY_ONE_EMOJI_REGEX holds exactly when the text, line breaks removed, is one die or face glyph (both directions) |
| Glyphs.KindsMeaning | js/src/forum/index.ts:21 | the part of a text that the regex looks at is empty exactly for a text of line breaks only, and records a glyph exactly when the text holds one |
| Glyphs.SingleGlyphsPass | js/src/forum/index.ts:21 | every die and face glyph passes the regex, alone or padded by line breaks |
| Glyphs.ParseRoll | js/src/forum/index.ts:48 | parseInt of the k-th roll character is a number exactly when that character exists and is a decimal digit, and NaN otherwise |
| Glyphs.DataNumberOfRoll | js/src/forum/index.ts:52 | the data-number text is the stored roll character itself when it is a digit, and "NaN" otherwise |
| Glyphs.FaceGlyph | js/src/forum/index.ts:56 | the shown glyph is the warning sign exactly when the number is not one of 1 to 6 |
| Glyphs.FaceGlyphInjective | js/src/forum/index.ts:11-18 | distinct faces show distinct glyphs, and every shown face is a die glyph |
| Glyphs.RollFace | js/src/forum/index.ts:48-56 | roll character '1' to '6' shows the matching entry of EMOJI_BY_NUMBER, and every other character, or a missing roll, shows ⚠ |
| Render.MatchAtSound | js/src/forum/index.ts:47 | a regex match that starts at i consumes a `<br>` or `<p>` tag and line breaks, then a glyph that is isolated and whose prefix starts at i |
| Render.MatchAtComplete | js/src/forum/index.ts:47 | every isolated glyph is matched by the attempt at the start of its own prefix |
| Render.IsolatedFromExact | js/src/forum/index.ts:47 | the listed glyph positions from i on are exactly the isolated glyphs at or after i |
| Render.RenderContentHtml | js/src/forum/index.ts:31-59 | absent or empty rolls return the HTML unchanged; otherwise the left-to-right replace gives the reference rendering, where the n-th isolated glyph becomes the span of roll n and everything else is kept |
| Render.SurplusRollsIgnored | js/src/forum/index.ts:39-48 | rolls beyond the number of isolated glyphs have no effect on the result |
| Render.NoIsolatedGlyphUnchanged | js/src/forum/index.ts:47 | HTML with no isolated glyph is rendered unchanged |
| Render.RenderedKeepsPrefix | js/src/forum/index.ts:47 | with no isolated glyph before position p, the rendering begins with the first p characters of the input |
| Render.CrowdedGlyphKept | js/src/forum/index.ts:47 | a glyph not preceded by a line-opening tag, or not followed by a line-closing tag, is never converted; when no glyph before it is converted, the rendering begins with the input up to and including that glyph |
| Render.MissingRollWarns | js/src/forum/index.ts:48-56 | a glyph past the last roll gets data-number NaN and the warning sign |
| Render.ParagraphExample | js/src/forum/index.ts:47-58 | `<p>🎲</p>` with rolls "3" becomes `<p>` plus the span for 3, showing ⚂, plus `</p>` |
| Render.TwoParagraphsExample | js/src/forum/index.ts:47-58 | `<p>🎲</p><p>🎲</p>` with rolls "15" gives the span for 1 (⚀) and then the span for 5 (⚄), in document order |
| Render.BreakSeparatedExample | js/src/forum/index.ts:46-47 | glyphs separated only by `<br>` are both matched, because the closing tag is looked ahead at and not consumed |
| Preview.Invalidate | js/src/forum/index.ts:76-82 | pass 1 on a node keeps its text content |
| Preview.InvalidateMakesValid | js/src/forum/index.ts:76-82 | after pass 1 every roll-a-die element left passes the regex |
| Preview.InvalidateUnchangedIff | js/src/forum/index.ts:78 | pass 1 changes a node exactly when some roll-a-die element in it fails the regex |
| Preview.AnnotateUnchangedIff | js/src/forum/index.ts:89-100 | pass 2 changes a node exactly when some non-empty, single-glyph text in it has a parent without roll-a-die |
| Preview.AnnotateLeavesNoneQualifying | js/src/forum/index.ts:94-110 | after pass 2 no text node qualifies any more, because a span's ⚀ has a roll-a-die parent |
| Preview.AnnotateKeepsKinds | js/src/forum/index.ts:110 | pass 2 keeps, for every text content, the sequence of glyph and non-glyph characters that the regex looks at |
| Preview.AnnotateKeepsValid | js/src/forum/index.ts:106-111 | pass 2 keeps every roll-a-die element valid for pass 1, and the spans it adds are valid too |
| Preview.CollectQueue | js/src/forum/index.ts:85-102 | the text walk queues the paths of exactly the qualifying text nodes below the root, in document order |
| Preview.ReplaceQueued | js/src/forum/index.ts:106-114 | the forEach leaves the tree as the queued replacements applied in queue order |
| Preview.CollectThenReplace | js/src/forum/index.ts:85-111 | replacing the collected nodes one after another converts exactly the qualifying text nodes, each once, which is the recursive pass 2 |
| Preview.ReconcilePreview | js/src/forum/index.ts:69-115 | the corrected override gives the reference result: pass 2 applied to the output of the corrected pass 1, below the root |
| Preview.ReconcileIdempotent | js/src/forum/index.ts:69-115 | running the corrected override again on its own output changes nothing |
| Preview.PreviewConversionExample | js/src/forum/index.ts:85-111 | a text node reading 🎲 becomes a preview span holding ⚀, and a rerun leaves it as it is |
| Preview.PreviewInvalidationExample | js/src/forum/index.ts:76-82 | a preview span edited to read 🎲x is unwrapped to the text node 🎲x, and pass 2 leaves that text alone |
| Preview.UnwrapFirst | js/src/forum/index.ts:76-82 | pass 1 as the walker runs it: it unwraps something exactly when a stale element exists, keeps the text content, removes exactly one outermost stale element, and changes nothing when there is none |
| Preview.NoOuterStaleIff | js/src/forum/index.ts:78 | a node holds no outermost stale element exactly when every roll-a-die element in it passes the regex |
| Preview.UnwrapFirstAgrees | js/src/forum/index.ts:76-82 | with at most one outermost stale element, pass 1 as written gives the same result as the corrected pass |
| Preview.AsWrittenAgrees | js/src/forum/index.ts:69-115 | with at most one outermost stale element below the root, the override as written gives the corrected override's result |
| Preview.AsWrittenNotIdempotent | js/src/forum/index.ts:69-115 | with two stale spans side by side, the override as written unwraps one per run, so a second run changes the result of the first |
| Preview.UnwrapFirstFindsStale | js/src/forum/index.ts:76-82 | that walk unwraps an element exactly when a stale one exists, and otherwise changes nothing |
| Preview.SecondStaleSpanSurvives | js/src/forum/index.ts:76-82 | with two stale spans side by side, that walk unwraps only the first, while the intended pass unwraps both |

## Findings

| source | as written | input that shows it | evidently intended | confidence | as-written member | corrected member |
|---|---|---|---|---|---|---|
| js/src/forum/index.ts:76-82 | Pass 1 calls replaceChild on the walker's current node while the walk runs. By the DOM TreeWalker algorithm, nextNode then walks only the detached node's own subtree and returns null. Every later stale element survives this run. | a preview root holding two roll-a-die spans that each read 🎲x | every stale roll-a-die element is unwrapped in one run. The comment above the loop speaks of removing any invalid span, and the comment at :99 shows that the authors knew about this effect for pass 2 | medium, not executed | Preview.SecondStaleSpanSurvives | Preview.InvalidateMakesValid |

`Preview.UnwrapFirst` models the loop as written. The rest of the model uses
`Preview.Invalidate`, which unwraps every stale element. The finding has a
consequence: the override as written is not idempotent
(`Preview.AsWrittenNotIdempotent`). It agrees with the corrected override
whenever at most one stale element sits outside the others
(`Preview.AsWrittenAgrees`).

## Left out

- js/src/admin/index.ts: the settings page registration. It holds no die logic.
- The tooltip: configureTooltip, and the oncreate/onupdate extension that
  attaches tooltips to `.roll-a-die` elements. It is a widget call with no
  effect on the document's content.
- The composer toolbar button, which inserts a newline, 🎲 and a newline at
  the cursor. It is UI wiring.
- The translator (app.translator.trans) and extractText. The render title is
  a function parameter of the parsed number, and the preview title is a
  string parameter.
- The original contentHtml, that is the formatter's own rendering, and the
  formatter's preview patching. They are the inputs of the model, not part of
  it.
- Escaping in outerHTML: the model writes the title and the attribute text
  as given. Attribute order follows insertion order: class, data-number,
  title.
- Preview.CollectQueue: the TreeWalker cursor is modelled as an explicit
  worklist of subtrees in document order, not as a live cursor over parent
  and sibling links.
- Preview.ReconcilePreview: this is the corrected override. It runs
  `Invalidate`, the intended pass 1, not the first-stale-only loop as written.
  The override as written is `Preview.AsWrittenReconciled`.
- Preview.ReconcileIdempotent: this is stated for the corrected override,
  which uses `Invalidate`. The override as written is not idempotent
  (`Preview.AsWrittenNotIdempotent`).
- Preview.ReconcilePreview: the DOM is a value, so node identity is a path
  from the root. The model does not capture aliasing, or updates seen through
  other references to the same nodes.
- Preview: the only node kinds are elements and texts. Comments, processing
  instructions and non-HTML elements are not modelled, and neither is
  `textContent` being null.
- Glyphs: strings are sequences of code points. JavaScript's split('') works
  on UTF-16 code units, and the regexes read 🎲 as a surrogate pair. The
  results agree for rolls made of digits, and for well-formed text.
- The initializer's priority (100) and the override plumbing of
  extend/override are not modelled. They only order this code among other
  extensions.
