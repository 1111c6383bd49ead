# mark-over: text extraction and reconstruction, in Dafny

mark-over rewrites the visible text of an HTML document through a caller's
transform callback and leaves the markup alone. Its core is in `src/utils/dom.ts`:

- `collectTaggedTexts` walks a parsed tree in document order. It never enters an element whose tag name is in the skip list. For every non-blank text node under a parent element, it records the trimmed text and the parent's descriptor: the tag name, the id (or none) and the class list (or none).
- The transform callback is applied to every fragment.
- `transformTextInNode` rebuilds the tree. Each text node whose trimmed text and parent element fit a transformed fragment gets that fragment's replacement. `matchesElementTag` decides whether an element fits a descriptor, and `findTransformedText` takes the first fitting fragment in list order.

The project models these four functions and the node-kind tests. It also models the
`transformHtmlTextInNode` pipeline around them (`src/core/html/node.ts`; its browser twin
`src/core/html/browser.ts` has the same shape), and proves properties of all of them.

Files and modules:

- `wrappers.dfy` (`Wrappers`): `Option` and `Result`.
- `js_string.dfy` (`JsString`): the two pieces of JavaScript string behaviour the core relies on.
  - `String.prototype.trim`, over the WhiteSpace and LineTerminator code points of the ECMAScript specification.
  - The default `Array.prototype.sort` on strings, as an insertion sort under lexicographic order.
- `dom.dfy` (`Dom`): nodes as values.
  - Elements carry a tag name, an id, a class list, other attributes and children.
  - There are text nodes, and every other node kind is opaque.
  - `cloneNode(false)` and `appendChild` are defined on these values.
- `types.dfy` (`Types`): `TaggedText`, its `tag` descriptor and `TransformedTaggedText`.
- `tag_matching.dfy` (`TagMatching`): `matchesElementTag`, `Array.prototype.find` and `findTransformedText`.
- `collector.dfy` (`Collector`): `collectTaggedTexts`. It comes with a reference definition: the visible leaves in pre-order, and the fragments they yield.
- `reconstructor.dfy` (`Reconstructor`): `transformTextInNode`.
  - An imperative method mirrors the clone-and-append loop, and it is proved equal to a recursive rebuild function.
  - The file also holds the skip-aware rebuild that the corrected pipeline uses.
  - It lists the texts of a tree in document order. Each text is paired with the leaf the collector visits for it, or marked hidden inside a skipped element. This shows that every text is looked up under the same parent element the collector recorded for it.
- `pipeline.dfy` (`Pipeline`): the whole run.
  - The pipeline as written, and the corrected one.
  - Concrete documents that exhibit the two findings below.

## Model

| member | source | states |
|---|---|---|
| Dom.IsElementNode | src/utils/dom.ts:21-23 | `nodeType === ELEMENT_NODE`; no contract of its own: it is the first branch of the dispatch specified by Reconstructor.TransformTextInNode and Reconstructor.Rebuild (an element keeps every field but its children) |
| Dom.IsTextNode | src/utils/dom.ts:25-27 | `nodeType === TEXT_NODE`; no contract of its own: it is the second branch of that dispatch (a text stays a text, see Reconstructor.TransformText and Reconstructor.RebuiltText); a node that is neither is copied |
| Dom.ShallowClone | src/utils/dom.ts:111 | the clone has no children and agrees with the original in every other field |
| Dom.AppendChild | src/utils/dom.ts:114 | the child is added after the last child and nothing else changes |
| JsString.IsWhitespace | src/utils/dom.ts:83 | the WhiteSpace and LineTerminator code points `trim` removes; no contract of its own: it is the set named by the ensures of JsString.SkipForward, JsString.SkipBackward and JsString.Trim and by JsString.TrimPadded |
| JsString.SkipForward | src/utils/dom.ts:83 | from position i, skips exactly the run of leading whitespace: everything skipped is whitespace, and the character it stops at is not |
| JsString.SkipBackward | src/utils/dom.ts:83 | the same from the right end, never crossing the left bound |
| JsString.Trim | src/utils/dom.ts:83 | the trimmed text is no longer than the input; it is empty exactly when the input is all whitespace; otherwise it neither starts nor ends with whitespace |
| JsString.TrimIsInfix | src/utils/dom.ts:127 | the trimmed text is the infix of the input that is left after removing the leading whitespace, with only whitespace after it |
| JsString.TrimIdempotent | src/utils/dom.ts:83 | trimming twice is trimming once, so collected text is already trimmed |
| JsString.TrimPadded | src/utils/dom.ts:127 | whitespace put around a text with no whitespace at either end is exactly what trimming removes |
| JsString.LexLeTotal | src/utils/dom.ts:39-40 | the order the sort uses is total |
| JsString.LexLeAntisymmetric | src/utils/dom.ts:39-40 | two strings each ordered before the other are equal |
| JsString.LexLeTransitive | src/utils/dom.ts:39-40 | the order is transitive |
| JsString.Insert | src/utils/dom.ts:39-40 | inserting adds exactly one copy of the new string (multiset) and keeps a sorted list sorted |
| JsString.SortStrings | src/utils/dom.ts:39-40 | `sort()` returns a sorted permutation of its input |
| JsString.SortedUnique | src/utils/dom.ts:39-44 | two sorted lists with the same elements are equal, so the sorted class lists can be compared element by element |
| JsString.SortEqualIffSameElements | src/utils/dom.ts:39-44 | two class lists sort to equal lists exactly when they hold the same classes the same number of times |
| TagMatching.MatchesElementTag | src/utils/dom.ts:29-45 | no element never matches; otherwise it matches iff the tag names are equal, the id equals the descriptor's id read as "" when absent, and the class lists are equal as multisets, with an absent list read as empty |
| TagMatching.AbsentIdMeansEmptyId | src/utils/dom.ts:37 | a descriptor without an id matches exactly the elements with an empty id that agree on name and classes |
| TagMatching.ClassOrderIrrelevant | src/utils/dom.ts:39-44 | reordering either class list never changes the verdict |
| TagMatching.FindIndex | src/utils/dom.ts:52-54 | `find`: no index iff no element satisfies the predicate; otherwise the index of an element that satisfies it, with none before it |
| TagMatching.FindTransformedText | src/utils/dom.ts:47-57 | null iff no entry has the text and a descriptor fitting the parent; otherwise the replacement of the first such entry in list order |
| TagMatching.FirstFitIsFound | src/utils/dom.ts:52-56 | an entry that fits, with no fitting entry before it, is the one whose replacement is returned |
| TagMatching.NoParentNoMatch | src/utils/dom.ts:33 | with a null parent element nothing is ever found |
| TagMatching.FirstFitStable | src/utils/dom.ts:52-56 | once an entry fits, entries appended after it do not change the answer |
| TagMatching.SameSignatureSameLookup | src/utils/dom.ts:29-57 | parents with equal tag names, equal ids and the same multiset of classes get the same answer for the same text |
| Collector.DescriptorOf | src/utils/dom.ts:91-96 | the descriptor read back (name, `id` read as "" when absent, classes read as [] when absent) gives the element's tag name, id and class list; it never holds an empty id or an empty class list |
| Collector.Collect | src/utils/dom.ts:59-103 | what was already collected is kept as a prefix of the result; its full content is stated by Collector.CollectIsPreorder (pre-order reference) and Collector.CollectIgnoresSkippedContent |
| Collector.CollectChildren | src/utils/dom.ts:70-79 | the `reduce` over the children keeps its accumulator as a prefix; its content is stated by Collector.CollectChildrenIsPreorder |
| Collector.DescriptorRoundTrip | src/utils/dom.ts:91-96 | the descriptor recorded for an element always matches that element again, names its tag, and never holds an empty id or an empty class list |
| Collector.DescriptorFitsIff | src/utils/dom.ts:91-96 | an element fits another element's descriptor iff the two agree on tag name, id and multiset of classes |
| Collector.Emit | src/utils/dom.ts:82-99 | each leaf yields at most one fragment; every fragment comes from a visible leaf and has non-empty trimmed text |
| Collector.EmitComplete | src/utils/dom.ts:85-98 | every leaf under a parent element whose trimmed text is non-empty contributes its fragment |
| Collector.TextChildIsLeaf | src/utils/dom.ts:70-79 | a text child of a non-skipped element is visited with that element as its parent |
| Collector.EmitConcat | src/utils/dom.ts:70-79 | the fragments of concatenated leaf lists are the concatenated fragments |
| Collector.CollectIsPreorder | src/utils/dom.ts:59-103 | the collector returns what it was handed, followed by the fragments of the visible leaves in pre-order, left to right |
| Collector.CollectChildrenIsPreorder | src/utils/dom.ts:70-79 | the `reduce` over the children appends each child's fragments in child order |
| Collector.CollectExtends | src/utils/dom.ts:59-103 | a non-empty `collected` is only ever a prefix of the result |
| Collector.LeavesAvoidSkippedParents | src/utils/dom.ts:65-68 | below an element, every visited leaf has a parent element whose tag name is not skipped |
| Collector.ChildLeavesAvoidSkippedParents | src/utils/dom.ts:65-79 | the same, for the children of a non-skipped element |
| Collector.CollectedFragmentsAreVisible | src/utils/dom.ts:65-99 | no fragment collected below an element names a skipped tag; every fragment's text is non-empty and trimmed |
| Collector.CollectIgnoresSkippedContent | src/utils/dom.ts:66-68 | whatever lies inside skipped elements has no influence on the collected fragments |
| Collector.CollectChildrenIgnoresSkippedContent | src/utils/dom.ts:70-79 | the same for sibling lists under parents with the same descriptor |
| Collector.SameDescriptorSameCollect | src/utils/dom.ts:85-96 | the parent element is seen only through its descriptor |
| Reconstructor.Rebuild | src/utils/dom.ts:105-139 | an element keeps every field but its children, which are rebuilt one for one; a text stays a text; any other node is copied; the texts it produces are stated by Reconstructor.RebuildTexts and Reconstructor.RebuiltText |
| Reconstructor.RebuildSkipping | src/utils/dom.ts:105-139 | the corrected rebuild: an element whose tag is skipped is returned unchanged; otherwise the same shape guarantees as Reconstructor.Rebuild; its texts are stated by Reconstructor.RebuildSkippingTexts |
| Reconstructor.RebuiltText | src/utils/dom.ts:126-135 | blank text is kept; text with no fitting entry is kept; otherwise the text becomes the first fitting entry's replacement |
| Reconstructor.FirstFitWins | src/utils/dom.ts:128 | for every index, the first fitting entry is the one whose replacement is looked up |
| Reconstructor.RebuildEach | src/utils/dom.ts:113-121 | one rebuilt node per child, in the same order, each rebuilt under the same parent |
| Reconstructor.TransformTextInNode | src/utils/dom.ts:105-139 | the node returned is the rebuild of the input under the given parent |
| Reconstructor.TransformElement | src/utils/dom.ts:110-124 | the clone-and-append loop returns the element with each child rebuilt under that element, in order |
| Reconstructor.TransformText | src/utils/dom.ts:126-135 | a text node becomes a new text node holding its replacement, or its original content when none is found |
| Reconstructor.RebuildPreservesShape | src/utils/dom.ts:105-139 | the rebuilt tree keeps every tag name, id, class list, attribute, non-text node and child count; only text contents can change |
| Reconstructor.RebuildWithoutFragmentsIsCopy | src/utils/dom.ts:105-139 | with no transformed fragments the rebuilt tree equals the input |
| Reconstructor.NoParentKeepsText | src/utils/dom.ts:126-135 | a text node rebuilt with a null parent keeps its content |
| Reconstructor.IdentityTransformOnlyTrims | src/utils/dom.ts:126-135 | when every replacement equals its own text, each text is kept or replaced by its own trimmed form |
| Reconstructor.DuplicateLeavesCollapse | src/utils/dom.ts:29-57 | two texts with the same trimmed content, under parents with the same signature, are rebuilt identically once a fitting entry exists |
| Reconstructor.DistinctParentsKeepOwnReplacement | src/utils/dom.ts:85-135 | given the two entries built from the parents' own descriptors, same-text siblings under parents that differ in name, id or classes each get their own parent's replacement |
| Reconstructor.FoundTextReplaced | src/utils/dom.ts:127-135 | a non-blank text whose lookup succeeds becomes the replacement found |
| Reconstructor.EachFindsOwnEntry | src/utils/dom.ts:47-57 | with one entry per parent's own descriptor, each parent finds its own entry |
| Reconstructor.TwoEntryLookup | src/utils/dom.ts:52-56 | between two entries with the same text, the first is taken when it fits, and the second when only the second fits |
| Reconstructor.OwnDescriptorOnly | src/utils/dom.ts:91-96 | each element fits its own descriptor, and an element that differs does not fit another element's descriptor |
| Reconstructor.RebuildEachSkipping | src/utils/dom.ts:113-121 | the skip-aware children rebuild gives one node per child, in order |
| Reconstructor.RebuildSkippingKeepsSkipped | src/utils/dom.ts:110-124 | the corrected rebuild leaves each skipped element exactly as it was and keeps the shape of the rest |
| Reconstructor.RebuildSkippingWithoutSkips | src/utils/dom.ts:105-139 | with an empty skip list, the corrected rebuild is the rebuild as written |
| Reconstructor.RebuildTexts | src/utils/dom.ts:105-139 | the texts of the rebuilt tree, in document order, are the texts of the leaves the collector visits with nothing skipped, each rebuilt under the very element the collector recorded as its parent |
| Reconstructor.RebuildEachTexts | src/utils/dom.ts:113-121 | the same for an element's children, each rebuilt with that element as parent |
| Reconstructor.SlotsCoverTexts | src/utils/dom.ts:65-100 | the slots (visible leaves, and texts hidden in skipped elements) enumerate exactly the text nodes of the tree, in document order |
| Reconstructor.SlotsEachCoverTexts | src/utils/dom.ts:70-79 | the same for a list of children |
| Reconstructor.SlotsShowVisibleLeaves | src/utils/dom.ts:65-100 | the visible slots are exactly the leaves the collector visits, with the same parents and in the same order |
| Reconstructor.SlotsEachShowVisibleLeaves | src/utils/dom.ts:70-79 | the same for a list of children |
| Reconstructor.VisibleSlotIsLeaf | src/utils/dom.ts:70-79 | a visible slot's leaf is among the visible leaves |
| Reconstructor.RebuildSkippingTexts | src/utils/dom.ts:105-139 | the texts of the corrected rebuild, in document order: each visible text is rebuilt under the element the collector recorded for it, and each hidden text is kept |
| Reconstructor.RebuildEachSkippingTexts | src/utils/dom.ts:113-121 | the same for an element's children |
| Types.WithTransformed | src/core/html/node.ts:27-30 | the spread `{ ...taggedText, transformed }`; no contract of its own: Pipeline.TransformAll and Pipeline.TransformAllAnswers state that each entry keeps its fragment's text and descriptor and carries the callback's answer |
| Pipeline.TransformAll | src/core/html/node.ts:26-31 | `Promise.all`: succeeds iff every call succeeds, and then pairs each fragment with its own replacement in order; a failure is the failure of some call |
| Pipeline.EffectiveSkipTags | src/core/html/node.ts:23 | a tag name is skipped iff it is a default or a caller-supplied name |
| Pipeline.MarkOverAsWritten | src/core/html/node.ts:19-42 | the run fails iff some transform call fails; otherwise the new body has one child per old child, each of the same shape |
| Pipeline.EachPreservesShape | src/core/html/node.ts:34-42 | each rebuilt body child has the shape of its original |
| Pipeline.BodyTextKeptAsWritten | src/core/html/node.ts:38 | as written, a text directly in the body is returned unchanged |
| Pipeline.MarkOver | src/core/html/node.ts:19-42 | corrected run: fails iff some call fails; otherwise every skipped element is kept exactly and the rest keeps its shape |
| Pipeline.EachKeepsSkipped | src/core/html/node.ts:34-42 | each body child rebuilt by the corrected run changes only visible text |
| Pipeline.CollectedTextIsFound | src/utils/dom.ts:85-96 | every visible non-blank leaf under a parent element finds a fitting fragment when looked up again under that parent |
| Pipeline.BodyTextReplaced | src/core/html/node.ts:19-42 | in the corrected run, a non-blank text directly in a non-skipped body becomes the callback's answer for a collected fragment with that text that fits the body |
| Pipeline.MarkOverRewritesVisibleTexts | src/core/html/node.ts:19-42 | corrected run, at every depth: the k-th text of the new body is the k-th text of the old body when that text is inside a skipped element or blank; otherwise it is the callback's answer for the first collected fragment that has the trimmed text and fits the element the text sits in |
| Pipeline.CorrectedTexts | src/core/html/node.ts:34-42 | the texts of the corrected run's new body are the old body's slots, each visible one rebuilt under its own parent |
| Pipeline.TransformAllAnswers | src/core/html/node.ts:26-31 | a successful run pairs every fragment's text and descriptor with the callback's answer, in order |
| Pipeline.VisibleSlotAnswered | src/utils/dom.ts:126-135 | a visible, non-blank text of a non-skipped body becomes the callback's answer for the first fitting fragment under its own parent |
| Pipeline.VisibleSlotFound | src/utils/dom.ts:85-96 | a visible, non-blank text of a non-skipped body finds a fitting fragment under the element it sits in |
| Pipeline.FirstFitAnswer | src/utils/dom.ts:52-56 | the replacement found is the callback's answer for the first fragment that has the text and fits the parent |
| Pipeline.TransformAllToHello | src/core/html/node.ts:26-31 | step of the Findings examples: a single fragment handed to a constant callback comes back with that answer |
| Pipeline.TrimHello | src/utils/dom.ts:83 | step of the Findings examples: a word with no surrounding whitespace is its own trimmed text |
| Pipeline.BodyTextDroppedAsWritten | src/core/html/node.ts:36-39 | `<body>Hello</body>`: "Hello" is collected under BODY, but the run as written returns it unchanged; the corrected run returns "HELLO" |
| Pipeline.CodeBodyFragments | src/utils/dom.ts:65-99 | step of the second Findings example: with CODE skipped, only the second SPAN's text is collected |
| Pipeline.HelloSpanRebuilt | src/utils/dom.ts:110-135 | step of the second Findings example: the SPAN holding "Hello" is rebuilt with "HELLO" under any parent |
| Pipeline.SkippedTextRewrittenAsWritten | src/utils/dom.ts:110-124 | with CODE skipped, the run as written rewrites the text inside CODE; the corrected run keeps CODE intact |

## Left out

- Parsing the HTML string, `innerHTML` serialisation, and JSDOM or the browser's `DOMParser` are not modelled. The model starts from a parsed body and ends with its rebuilt children.
- The `ownerDocument == null` branch of `transformTextInNode` (src/utils/dom.ts:130-133) is left out. A text node of a parsed document always has an owner document.
- Node identity and aliasing are not modelled. Nodes are values, so a deep clone is the node itself.
- `key: new Date().getTime()` (src/utils/dom.ts:89) reads the clock. The model takes the time as a `clock` parameter, and every fragment of one run gets the same key; in the source the keys of one run may differ. Keys play no part in matching, and no row of the table above relies on them.
- The default skip list (`DEFAULT_SKIP_TAGS` from src/constants) is a parameter. src/constants is not part of this model.
- `Promise.all` runs the callbacks concurrently and rejects with the first rejection to settle. Pipeline.TransformAll returns a failure of some call, and which one is not fixed by the model.
  - A callback is a pure function from a fragment to a replacement or an error. Its side effects and timing are not modelled.
- The element's `id` and `classList` are fields of their own, separate from the other attributes.
- `classList` is an element field holding a list of class tokens. It is not derived from the `class` attribute, so it may hold a token twice, unlike DOMTokenList, which drops repeated tokens.
  - On class lists without repeats (every list a real DOMTokenList yields), the multiset test in TagMatching.MatchesElementTag and Collector.DescriptorFitsIff is exactly the source's sort-and-compare.
  - With repeats the two differ. In the source, an element with `class="x x"` has the list `["x"]` and fits the descriptor of an element with `class="x"`. In the model, an element given the list `["x", "x"]` does not fit it.
- JsString.SortStrings orders strings by code point, while JavaScript's default `sort` orders them by UTF-16 code unit. MatchesElementTag only tests whether two sorted lists are equal, and that test does not depend on the order used.
- The `tag.name === null` result for a missing element (src/utils/dom.ts:33) is always false, because a descriptor's name is a string. The model returns false directly.
- The command-line and runtime selection (src/index.ts, src/node.ts, src/browser.ts) is not modelled. Neither is the build configuration (tsup.config.ts).

## Findings

| source | as written | input that shows it | evidently intended | confidence | as-written member | corrected member |
|---|---|---|---|---|---|---|
| src/core/html/node.ts:38 | the body's children are rebuilt with a null parent element (src/core/html/browser.ts does the same), although their texts were collected with the body as parent | `<body>Hello</body>` with a callback answering "HELLO" | the text directly in the body is replaced, as any other collected text is | not executed | Pipeline.BodyTextDroppedAsWritten | Pipeline.BodyTextReplaced |
| src/utils/dom.ts:110-124 | the rebuild descends into skipped elements, so their text is rewritten whenever its parent fits a fragment collected elsewhere | `<body><code><span>Hello</span></code><span>Hello</span></body>` with CODE skipped and a callback answering "HELLO" | skipped subtrees are left untouched during reconstruction | not executed | Pipeline.SkippedTextRewrittenAsWritten | Reconstructor.RebuildSkippingKeepsSkipped |
