/** `transformTextInNode`: rebuilds a copy of a tree in which every text leaf whose
    trimmed text and parent fit a transformed fragment carries that fragment's
    replacement, and everything else is copied. */
module Reconstructor {
  import opened Wrappers
  import opened JsString
  import opened Dom
  import opened Types
  import opened TagMatching
  import opened Collector

  /** The content a text leaf is rebuilt with: its original content when its trimmed
      text is empty or nothing fits, otherwise the replacement of the first entry whose
      text is the trimmed text and whose descriptor fits the parent. */
  function RebuiltText(content: string, parent: Option<ElementNode>, items: seq<TransformedTaggedText>): (r: string)
    ensures Trim(content) == "" ==> r == content
    ensures (forall i :: 0 <= i < |items| ==> !Fits(items[i], Trim(content), parent)) ==> r == content
    ensures forall i :: 0 <= i < |items| && Trim(content) != "" && Fits(items[i], Trim(content), parent)
                        && (forall j :: 0 <= j < i ==> !Fits(items[j], Trim(content), parent))
                        ==> r == items[i].transformed
  {
    var text := Trim(content);
    var transformed := if text != "" then FindTransformedText(text, parent, items) else None;
    FirstFitWins(text, parent, items);
    transformed.GetOr(content)
  }

  /** The first fitting entry is the one returned, for every entry at once. */
  lemma FirstFitWins(text: string, parent: Option<ElementNode>, items: seq<TransformedTaggedText>)
    ensures forall i :: 0 <= i < |items| && Fits(items[i], text, parent)
                        && (forall j :: 0 <= j < i ==> !Fits(items[j], text, parent))
                        ==> FindTransformedText(text, parent, items) == Some(items[i].transformed)
  {
    forall i | 0 <= i < |items| && Fits(items[i], text, parent)
                && (forall j :: 0 <= j < i ==> !Fits(items[j], text, parent))
      ensures FindTransformedText(text, parent, items) == Some(items[i].transformed)
    {
      FirstFitIsFound(text, parent, items, i);
    }
  }

  /** The tree `transformTextInNode` returns, as a function of the input tree: an
      element keeps everything but its children, which are rebuilt one for one; a text
      stays a text; any other node is copied. */
  function Rebuild(n: Node, parent: Option<ElementNode>, items: seq<TransformedTaggedText>): (r: Node)
    ensures n.Element? ==> r.Element? && r.(childNodes := n.childNodes) == n && |r.childNodes| == |n.childNodes|
    ensures n.Text? ==> r.Text?
    ensures n.Other? ==> r == n
    decreases n
  {
    match n
    case Element(tagName, id, classList, attributes, childNodes) =>
      Element(tagName, id, classList, attributes, RebuildEach(childNodes, Some(n), items))
    case Text(content) => Text(RebuiltText(content, parent, items))
    case Other(_) => n
  }

  /** Each node of `nodes` rebuilt under the same parent, in order. */
  function RebuildEach(nodes: seq<Node>, parent: Option<ElementNode>, items: seq<TransformedTaggedText>): (r: seq<Node>)
    ensures |r| == |nodes|
    ensures forall j :: 0 <= j < |nodes| ==> r[j] == Rebuild(nodes[j], parent, items)
    decreases nodes
  {
    if nodes == [] then []
    else [Rebuild(nodes[0], parent, items)] + RebuildEach(nodes[1..], parent, items)
  }

  /** `transformTextInNode`: an element is shallow-cloned and each child's rebuilt copy
      appended to the clone in order; a text node becomes a new text node holding its
      replacement or its original content; any other node is copied. */
  method TransformTextInNode(node: Node, parent: Option<ElementNode>, transformedTexts: seq<TransformedTaggedText>)
    returns (r: Node)
    ensures r == Rebuild(node, parent, transformedTexts)
    decreases node, 1
  {
    if IsElementNode(node) {
      r := TransformElement(node, transformedTexts);
    } else if IsTextNode(node) {
      r := TransformText(node.textContent, parent, transformedTexts);
    } else {
      r := node;
    }
  }

  /** The element branch: the `forEach` over the children, appending each rebuilt child
      to the shallow clone. */
  method TransformElement(node: ElementNode, transformedTexts: seq<TransformedTaggedText>) returns (r: Node)
    ensures r == Rebuild(node, None, transformedTexts)
    decreases node, 0
  {
    var childNodes := node.childNodes;
    ghost var rebuilt := RebuildEach(childNodes, Some(node), transformedTexts);
    var cloned := ShallowClone(node);
    var i := 0;
    while i < |childNodes|
      invariant 0 <= i <= |childNodes|
      invariant cloned == node.(childNodes := cloned.childNodes)
      invariant cloned.childNodes == rebuilt[..i]
    {
      var child := TransformTextInNode(childNodes[i], Some(node), transformedTexts);
      assert child == rebuilt[i];
      cloned := AppendChild(cloned, child);
      PrefixStep(rebuilt, i);
      i := i + 1;
    }
    assert rebuilt[..i] == rebuilt;
    assert Rebuild(node, None, transformedTexts) == node.(childNodes := rebuilt);
    r := cloned;
  }

  lemma PrefixStep<T>(s: seq<T>, i: nat)
    requires i < |s|
    ensures s[..i + 1] == s[..i] + [s[i]]
  {
  }

  /** The text branch: the replacement when one is found, else the original content. */
  method TransformText(content: string, parent: Option<ElementNode>, transformedTexts: seq<TransformedTaggedText>)
    returns (r: Node)
    ensures r == Rebuild(Text(content), parent, transformedTexts)
  {
    var text := Trim(content);
    var transformed := if text != "" then FindTransformedText(text, parent, transformedTexts) else None;
    r := Text(if transformed != None then transformed.value else content);
  }

  // ---------------------------------------------------------------------------
  // What the rebuilt tree keeps of the original.

  /** Same shape: elements with the same tag name, id, classes, attributes and
      pairwise same-shaped children; text nodes where there were text nodes (their
      content may differ); other nodes unchanged. */
  predicate SameShape(a: Node, b: Node)
    decreases a
  {
    match a
    case Element(tagName, id, classList, attributes, children) =>
      b.Element? && b.tagName == tagName && b.id == id && b.classList == classList
      && b.attributes == attributes && |b.childNodes| == |children|
      && forall i :: 0 <= i < |children| ==> SameShape(children[i], b.childNodes[i])
    case Text(_) => b.Text?
    case Other(_) => b == a
  }

  /** The rebuilt tree has the input's shape: only text contents can change. */
  lemma {:induction false} RebuildPreservesShape(n: Node, parent: Option<ElementNode>, items: seq<TransformedTaggedText>)
    ensures SameShape(n, Rebuild(n, parent, items))
    decreases n
  {
    if n.Element? {
      forall i | 0 <= i < |n.childNodes|
        ensures SameShape(n.childNodes[i], Rebuild(n, parent, items).childNodes[i])
      {
        RebuildPreservesShape(n.childNodes[i], Some(n), items);
      }
    }
  }

  /** With no transformed fragments the rebuilt tree equals the input. */
  lemma {:induction false} RebuildWithoutFragmentsIsCopy(n: Node, parent: Option<ElementNode>)
    ensures Rebuild(n, parent, []) == n
    decreases n
  {
    if n.Element? {
      forall i | 0 <= i < |n.childNodes|
        ensures Rebuild(n.childNodes[i], Some(n), []) == n.childNodes[i]
      {
        RebuildWithoutFragmentsIsCopy(n.childNodes[i], Some(n));
      }
      assert RebuildEach(n.childNodes, Some(n), []) == n.childNodes;
    }
  }

  /** A text node rebuilt without a parent element keeps its content. */
  lemma NoParentKeepsText(content: string, items: seq<TransformedTaggedText>)
    ensures Rebuild(Text(content), None, items) == Text(content)
  {
  }

  /** Same shape, and every text either kept or replaced by its own trimmed form. */
  predicate OnlyTrimmed(a: Node, b: Node)
    decreases a
  {
    match a
    case Element(tagName, id, classList, attributes, children) =>
      b.Element? && b.tagName == tagName && b.id == id && b.classList == classList
      && b.attributes == attributes && |b.childNodes| == |children|
      && forall i :: 0 <= i < |children| ==> OnlyTrimmed(children[i], b.childNodes[i])
    case Text(content) => b == a || b == Text(Trim(content))
    case Other(_) => b == a
  }

  /** When every replacement equals its fragment's text (an identity transform), the
      rebuilt tree differs from the input at most by trimmed whitespace around texts. */
  lemma {:induction false} IdentityTransformOnlyTrims(n: Node, parent: Option<ElementNode>, items: seq<TransformedTaggedText>)
    requires forall i :: 0 <= i < |items| ==> items[i].transformed == items[i].text
    ensures OnlyTrimmed(n, Rebuild(n, parent, items))
    decreases n
  {
    match n
    case Element(_, _, _, _, childNodes) =>
      forall i | 0 <= i < |childNodes|
        ensures OnlyTrimmed(childNodes[i], Rebuild(n, parent, items).childNodes[i])
      {
        IdentityTransformOnlyTrims(childNodes[i], Some(n), items);
      }
    case Text(content) =>
      var text := Trim(content);
      if text != "" {
        match FindTransformedText(text, parent, items)
        case None =>
        case Some(v) =>
          var i :| 0 <= i < |items| && Fits(items[i], text, parent) && v == items[i].transformed;
      }
    case Other(_) =>
  }

  /** Duplicate leaves collapse: two texts with the same trimmed content under parents
      with the same tag name, id and classes are rebuilt identically whenever either
      finds a replacement. */
  lemma DuplicateLeavesCollapse(c1: string, c2: string, e1: ElementNode, e2: ElementNode,
                                items: seq<TransformedTaggedText>)
    requires Trim(c1) == Trim(c2) != ""
    requires e1.tagName == e2.tagName && e1.id == e2.id && multiset(e1.classList) == multiset(e2.classList)
    requires FindTransformedText(Trim(c1), Some(e1), items).Some?
    ensures Rebuild(Text(c1), Some(e1), items) == Rebuild(Text(c2), Some(e2), items)
  {
    SameSignatureSameLookup(Trim(c1), e1, e2, items);
  }

  /** Same-text siblings whose parents differ in tag name, id or classes each receive
      their own replacement when each parent's collected fragment is listed. */
  lemma DistinctParentsKeepOwnReplacement(content: string, e1: ElementNode, e2: ElementNode,
                                          k1: nat, k2: nat, v1: string, v2: string)
    requires Trim(content) != ""
    requires !(e1.tagName == e2.tagName && e1.id == e2.id && multiset(e1.classList) == multiset(e2.classList))
    ensures var items := [TransformedTaggedText(k1, Trim(content), DescriptorOf(e1), v1),
                          TransformedTaggedText(k2, Trim(content), DescriptorOf(e2), v2)];
      Rebuild(Text(content), Some(e1), items) == Text(v1)
      && Rebuild(Text(content), Some(e2), items) == Text(v2)
  {
    var text := Trim(content);
    var items := [TransformedTaggedText(k1, text, DescriptorOf(e1), v1),
                  TransformedTaggedText(k2, text, DescriptorOf(e2), v2)];
    EachFindsOwnEntry(text, e1, e2, k1, k2, v1, v2);
    FoundTextReplaced(content, Some(e1), items, v1);
    FoundTextReplaced(content, Some(e2), items, v2);
  }

  /** A non-blank text whose lookup succeeds becomes a text node holding the replacement found. */
  lemma FoundTextReplaced(content: string, parent: Option<ElementNode>, items: seq<TransformedTaggedText>, v: string)
    requires Trim(content) != ""
    requires FindTransformedText(Trim(content), parent, items) == Some(v)
    ensures Rebuild(Text(content), parent, items) == Text(v)
  {
  }

  /** With one entry per parent's own descriptor, each parent finds its own entry. */
  lemma EachFindsOwnEntry(text: string, e1: ElementNode, e2: ElementNode,
                          k1: nat, k2: nat, v1: string, v2: string)
    requires !(e1.tagName == e2.tagName && e1.id == e2.id && multiset(e1.classList) == multiset(e2.classList))
    ensures var items := [TransformedTaggedText(k1, text, DescriptorOf(e1), v1),
                          TransformedTaggedText(k2, text, DescriptorOf(e2), v2)];
      FindTransformedText(text, Some(e1), items) == Some(v1)
      && FindTransformedText(text, Some(e2), items) == Some(v2)
  {
    OwnDescriptorOnly(e1, e2);
    var first := TransformedTaggedText(k1, text, DescriptorOf(e1), v1);
    var second := TransformedTaggedText(k2, text, DescriptorOf(e2), v2);
    TwoEntryLookup(text, Some(e1), first, second);
    TwoEntryLookup(text, Some(e2), first, second);
  }

  /** Looking up among two entries with the same text. */
  lemma TwoEntryLookup(text: string, parent: Option<ElementNode>, first: TransformedTaggedText, second: TransformedTaggedText)
    requires first.text == text && second.text == text
    ensures MatchesElementTag(parent, first.tag) ==> FindTransformedText(text, parent, [first, second]) == Some(first.transformed)
    ensures !MatchesElementTag(parent, first.tag) && MatchesElementTag(parent, second.tag)
            ==> FindTransformedText(text, parent, [first, second]) == Some(second.transformed)
  {
    var items := [first, second];
    if MatchesElementTag(parent, first.tag) {
      FirstFitIsFound(text, parent, items, 0);
    } else if MatchesElementTag(parent, second.tag) {
      FirstFitIsFound(text, parent, items, 1);
    }
  }

  /** Each element fits its own descriptor, and `e2`, which differs from `e1`, does not fit `e1`'s. */
  lemma OwnDescriptorOnly(e1: ElementNode, e2: ElementNode)
    requires !(e1.tagName == e2.tagName && e1.id == e2.id && multiset(e1.classList) == multiset(e2.classList))
    ensures MatchesElementTag(Some(e1), DescriptorOf(e1))
    ensures MatchesElementTag(Some(e2), DescriptorOf(e2))
    ensures !MatchesElementTag(Some(e2), DescriptorOf(e1))
  {
    DescriptorRoundTrip(e1);
    DescriptorRoundTrip(e2);
    DescriptorFitsIff(e2, e1);
  }

  // ---------------------------------------------------------------------------
  // Skipped elements during reconstruction.

  /** The rebuild with skipped elements honoured: an element whose tag name is skipped
      is copied whole instead of being rebuilt. */
  function RebuildSkipping(n: Node, parent: Option<ElementNode>, items: seq<TransformedTaggedText>,
                           skipTags: seq<string>): (r: Node)
    ensures n.Element? && n.tagName in skipTags ==> r == n
    ensures n.Element? ==> r.Element? && r.(childNodes := n.childNodes) == n && |r.childNodes| == |n.childNodes|
    ensures n.Text? ==> r.Text?
    ensures n.Other? ==> r == n
    decreases n
  {
    match n
    case Element(tagName, id, classList, attributes, childNodes) =>
      if tagName in skipTags then n
      else Element(tagName, id, classList, attributes, RebuildEachSkipping(childNodes, Some(n), items, skipTags))
    case Text(content) => Text(RebuiltText(content, parent, items))
    case Other(_) => n
  }

  function RebuildEachSkipping(nodes: seq<Node>, parent: Option<ElementNode>, items: seq<TransformedTaggedText>,
                               skipTags: seq<string>): (r: seq<Node>)
    ensures |r| == |nodes|
    ensures forall j :: 0 <= j < |nodes| ==> r[j] == RebuildSkipping(nodes[j], parent, items, skipTags)
    decreases nodes
  {
    if nodes == [] then []
    else [RebuildSkipping(nodes[0], parent, items, skipTags)] + RebuildEachSkipping(nodes[1..], parent, items, skipTags)
  }

  /** `b` is `a` with at most the texts outside skipped elements changed: a skipped
      element is identical in both, everything else has the same shape. */
  predicate ChangesOnlyVisibleText(a: Node, b: Node, skipTags: seq<string>)
    decreases a
  {
    match a
    case Element(tagName, id, classList, attributes, children) =>
      if tagName in skipTags then b == a
      else
        b.Element? && b.tagName == tagName && b.id == id && b.classList == classList
        && b.attributes == attributes && |b.childNodes| == |children|
        && forall i :: 0 <= i < |children| ==> ChangesOnlyVisibleText(children[i], b.childNodes[i], skipTags)
    case Text(_) => b.Text?
    case Other(_) => b == a
  }

  /** The skip-aware rebuild leaves every skipped element exactly as it was and keeps the
      shape of everything else. */
  lemma {:induction false} RebuildSkippingKeepsSkipped(n: Node, parent: Option<ElementNode>,
                                                       items: seq<TransformedTaggedText>, skipTags: seq<string>)
    ensures ChangesOnlyVisibleText(n, RebuildSkipping(n, parent, items, skipTags), skipTags)
    decreases n
  {
    if n.Element? && n.tagName !in skipTags {
      forall i | 0 <= i < |n.childNodes|
        ensures ChangesOnlyVisibleText(n.childNodes[i], RebuildSkipping(n, parent, items, skipTags).childNodes[i], skipTags)
      {
        RebuildSkippingKeepsSkipped(n.childNodes[i], Some(n), items, skipTags);
      }
    }
  }

  /** With nothing to skip, the skip-aware rebuild is the plain one. */
  lemma {:induction false} RebuildSkippingWithoutSkips(n: Node, parent: Option<ElementNode>,
                                                       items: seq<TransformedTaggedText>)
    ensures RebuildSkipping(n, parent, items, []) == Rebuild(n, parent, items)
    decreases n
  {
    if n.Element? {
      forall i | 0 <= i < |n.childNodes|
        ensures RebuildSkipping(n.childNodes[i], Some(n), items, []) == Rebuild(n.childNodes[i], Some(n), items)
      {
        RebuildSkippingWithoutSkips(n.childNodes[i], Some(n), items);
      }
      assert RebuildEachSkipping(n.childNodes, Some(n), items, []) == RebuildEach(n.childNodes, Some(n), items);
    }
  }

  // ---------------------------------------------------------------------------
  // Text contents in document order: each text is looked up under the element the
  // collector recorded for it.

  /** The contents of the text nodes of `n`, in pre-order, left to right. */
  function TextsOf(n: Node): seq<string>
    decreases n
  {
    match n
    case Element(_, _, _, _, childNodes) => TextsOfEach(childNodes)
    case Text(content) => [content]
    case Other(_) => []
  }

  function TextsOfEach(nodes: seq<Node>): seq<string>
    decreases nodes
  {
    if nodes == [] then [] else TextsOf(nodes[0]) + TextsOfEach(nodes[1..])
  }

  /** What the text of each leaf becomes, each looked up under the leaf's own parent. */
  function RebuiltAll(leaves: seq<Leaf>, items: seq<TransformedTaggedText>): (r: seq<string>)
    ensures |r| == |leaves|
  {
    if leaves == [] then []
    else [RebuiltText(leaves[0].content, leaves[0].parent, items)] + RebuiltAll(leaves[1..], items)
  }

  lemma {:induction false} RebuiltAllConcat(a: seq<Leaf>, b: seq<Leaf>, items: seq<TransformedTaggedText>)
    ensures RebuiltAll(a + b, items) == RebuiltAll(a, items) + RebuiltAll(b, items)
  {
    if a == [] {
      assert a + b == b;
    } else {
      assert (a + b)[0] == a[0] && (a + b)[1..] == a[1..] + b;
      RebuiltAllConcat(a[1..], b, items);
    }
  }

  /** The texts of the rebuilt tree, in document order, are the texts of the leaves the
      collector visits (with nothing skipped), each rebuilt under the very element the
      collector recorded as its parent. */
  lemma {:induction false} RebuildTexts(n: Node, parent: Option<ElementNode>, items: seq<TransformedTaggedText>)
    ensures TextsOf(Rebuild(n, parent, items)) == RebuiltAll(VisibleLeaves(n, parent, []), items)
    decreases n
  {
    match n
    case Element(_, _, _, _, childNodes) =>
      RebuildEachTexts(childNodes, n, items);
    case Text(content) =>
      assert TextsOf(Rebuild(n, parent, items)) == [RebuiltText(content, parent, items)];
    case Other(_) =>
  }

  lemma {:induction false} RebuildEachTexts(children: seq<Node>, parent: ElementNode, items: seq<TransformedTaggedText>)
    ensures TextsOfEach(RebuildEach(children, Some(parent), items)) == RebuiltAll(ChildLeaves(children, parent, []), items)
    decreases children
  {
    if children != [] {
      var r := RebuildEach(children, Some(parent), items);
      assert r[0] == Rebuild(children[0], Some(parent), items);
      assert r[1..] == RebuildEach(children[1..], Some(parent), items);
      RebuildTexts(children[0], Some(parent), items);
      RebuildEachTexts(children[1..], parent, items);
      RebuiltAllConcat(VisibleLeaves(children[0], Some(parent), []), ChildLeaves(children[1..], parent, []), items);
    }
  }

  /** A text node as the skip-aware rebuild meets it: visited, with the element it sits
      in, or hidden inside a skipped element. */
  datatype Slot = Visible(leaf: Leaf) | Hidden(content: string)

  function ContentOf(slot: Slot): string {
    match slot
    case Visible(leaf) => leaf.content
    case Hidden(content) => content
  }

  /** The text nodes of `n` in document order, each marked visible or hidden. */
  function Slots(n: Node, parent: Option<ElementNode>, skipTags: seq<string>): seq<Slot>
    decreases n
  {
    match n
    case Element(tagName, _, _, _, childNodes) =>
      if tagName in skipTags then Hide(TextsOf(n)) else SlotsEach(childNodes, n, skipTags)
    case Text(content) => [Visible(Leaf(parent, content))]
    case Other(_) => []
  }

  function SlotsEach(children: seq<Node>, parent: ElementNode, skipTags: seq<string>): seq<Slot>
    decreases children
  {
    if children == [] then []
    else Slots(children[0], Some(parent), skipTags) + SlotsEach(children[1..], parent, skipTags)
  }

  function Hide(texts: seq<string>): (r: seq<Slot>)
    ensures |r| == |texts| && forall i :: 0 <= i < |texts| ==> r[i] == Hidden(texts[i])
  {
    seq(|texts|, i requires 0 <= i < |texts| => Hidden(texts[i]))
  }

  /** The contents of the slots. */
  function Contents(slots: seq<Slot>): (r: seq<string>)
    ensures |r| == |slots| && forall i :: 0 <= i < |slots| ==> r[i] == ContentOf(slots[i])
  {
    seq(|slots|, i requires 0 <= i < |slots| => ContentOf(slots[i]))
  }

  /** The leaves of the visible slots, in order. */
  function VisibleOf(slots: seq<Slot>): seq<Leaf> {
    if slots == [] then []
    else (if slots[0].Visible? then [slots[0].leaf] else []) + VisibleOf(slots[1..])
  }

  /** What a slot's text becomes: a visible text is rebuilt under its own parent, a
      hidden one is kept. */
  function ApplyOne(slot: Slot, items: seq<TransformedTaggedText>): string {
    match slot
    case Visible(leaf) => RebuiltText(leaf.content, leaf.parent, items)
    case Hidden(content) => content
  }

  /** The slots' texts after the rebuild, in order. */
  function Applied(slots: seq<Slot>, items: seq<TransformedTaggedText>): (r: seq<string>)
    ensures |r| == |slots|
  {
    if slots == [] then [] else [ApplyOne(slots[0], items)] + Applied(slots[1..], items)
  }

  lemma {:induction false} AppliedAt(slots: seq<Slot>, items: seq<TransformedTaggedText>, k: nat)
    requires k < |slots|
    ensures Applied(slots, items)[k] == ApplyOne(slots[k], items)
  {
    if k > 0 {
      AppliedAt(slots[1..], items, k - 1);
    }
  }

  /** Hidden slots keep their texts. */
  lemma AppliedHidden(texts: seq<string>, items: seq<TransformedTaggedText>)
    ensures Applied(Hide(texts), items) == texts
  {
    forall k | 0 <= k < |texts| ensures Applied(Hide(texts), items)[k] == texts[k] {
      AppliedAt(Hide(texts), items, k);
    }
  }

  lemma ContentsConcat(a: seq<Slot>, b: seq<Slot>)
    ensures Contents(a + b) == Contents(a) + Contents(b)
  {
    var l := Contents(a + b);
    var r := Contents(a) + Contents(b);
    assert |l| == |r|;
    forall i | 0 <= i < |l| ensures l[i] == r[i] {
      if i < |a| { assert (a + b)[i] == a[i]; } else { assert (a + b)[i] == b[i - |a|]; }
    }
  }

  lemma {:induction false} AppliedConcat(a: seq<Slot>, b: seq<Slot>, items: seq<TransformedTaggedText>)
    ensures Applied(a + b, items) == Applied(a, items) + Applied(b, items)
  {
    if a == [] {
      assert a + b == b;
    } else {
      assert (a + b)[0] == a[0];
      assert (a + b)[1..] == a[1..] + b;
      AppliedConcat(a[1..], b, items);
    }
  }

  lemma {:induction false} VisibleOfConcat(a: seq<Slot>, b: seq<Slot>)
    ensures VisibleOf(a + b) == VisibleOf(a) + VisibleOf(b)
  {
    if a == [] {
      assert a + b == b;
    } else {
      assert (a + b)[0] == a[0] && (a + b)[1..] == a[1..] + b;
      VisibleOfConcat(a[1..], b);
    }
  }

  lemma {:induction false} VisibleOfHidden(texts: seq<string>)
    ensures VisibleOf(Hide(texts)) == []
  {
    if texts != [] {
      assert Hide(texts)[1..] == Hide(texts[1..]);
      VisibleOfHidden(texts[1..]);
    }
  }

  /** The slots enumerate exactly the text nodes of the tree, in document order. */
  lemma {:induction false} SlotsCoverTexts(n: Node, parent: Option<ElementNode>, skipTags: seq<string>)
    ensures Contents(Slots(n, parent, skipTags)) == TextsOf(n)
    decreases n
  {
    match n
    case Element(tagName, _, _, _, childNodes) =>
      if tagName in skipTags {
        assert Contents(Hide(TextsOf(n))) == TextsOf(n);
      } else {
        SlotsEachCoverTexts(childNodes, n, skipTags);
      }
    case Text(content) =>
      assert Contents([Visible(Leaf(parent, content))]) == [content];
    case Other(_) =>
  }

  lemma {:induction false} SlotsEachCoverTexts(children: seq<Node>, parent: ElementNode, skipTags: seq<string>)
    ensures Contents(SlotsEach(children, parent, skipTags)) == TextsOfEach(children)
    decreases children
  {
    if children != [] {
      SlotsCoverTexts(children[0], Some(parent), skipTags);
      SlotsEachCoverTexts(children[1..], parent, skipTags);
      ContentsConcat(Slots(children[0], Some(parent), skipTags), SlotsEach(children[1..], parent, skipTags));
    }
  }

  /** The visible slots are exactly the leaves the collector visits, with the same
      parents, in the same order. */
  lemma {:induction false} SlotsShowVisibleLeaves(n: Node, parent: Option<ElementNode>, skipTags: seq<string>)
    ensures VisibleOf(Slots(n, parent, skipTags)) == VisibleLeaves(n, parent, skipTags)
    decreases n
  {
    match n
    case Element(tagName, _, _, _, childNodes) =>
      if tagName in skipTags {
        VisibleOfHidden(TextsOf(n));
      } else {
        SlotsEachShowVisibleLeaves(childNodes, n, skipTags);
      }
    case Text(content) =>
      assert [Visible(Leaf(parent, content))][1..] == [];
    case Other(_) =>
  }

  lemma {:induction false} SlotsEachShowVisibleLeaves(children: seq<Node>, parent: ElementNode, skipTags: seq<string>)
    ensures VisibleOf(SlotsEach(children, parent, skipTags)) == ChildLeaves(children, parent, skipTags)
    decreases children
  {
    if children != [] {
      SlotsShowVisibleLeaves(children[0], Some(parent), skipTags);
      SlotsEachShowVisibleLeaves(children[1..], parent, skipTags);
      VisibleOfConcat(Slots(children[0], Some(parent), skipTags), SlotsEach(children[1..], parent, skipTags));
    }
  }

  /** A visible slot's leaf is among the visible leaves. */
  lemma {:induction false} VisibleSlotIsLeaf(slots: seq<Slot>, k: nat)
    requires k < |slots| && slots[k].Visible?
    ensures slots[k].leaf in VisibleOf(slots)
  {
    if k > 0 {
      VisibleSlotIsLeaf(slots[1..], k - 1);
    }
  }

  /** The texts of the skip-aware rebuild, in document order: each visible text rebuilt
      under the element the collector recorded as its parent, each hidden text kept. */
  lemma {:induction false} RebuildSkippingTexts(n: Node, parent: Option<ElementNode>,
                                                items: seq<TransformedTaggedText>, skipTags: seq<string>)
    ensures TextsOf(RebuildSkipping(n, parent, items, skipTags)) == Applied(Slots(n, parent, skipTags), items)
    decreases n
  {
    match n
    case Element(tagName, _, _, _, childNodes) =>
      if tagName in skipTags {
        AppliedHidden(TextsOf(n), items);
      } else {
        RebuildEachSkippingTexts(childNodes, n, items, skipTags);
      }
    case Text(content) =>
      assert Applied([Visible(Leaf(parent, content))], items) == [RebuiltText(content, parent, items)];
    case Other(_) =>
  }

  lemma {:induction false} RebuildEachSkippingTexts(children: seq<Node>, parent: ElementNode,
                                                    items: seq<TransformedTaggedText>, skipTags: seq<string>)
    ensures TextsOfEach(RebuildEachSkipping(children, Some(parent), items, skipTags))
            == Applied(SlotsEach(children, parent, skipTags), items)
    decreases children
  {
    if children != [] {
      var r := RebuildEachSkipping(children, Some(parent), items, skipTags);
      assert r[0] == RebuildSkipping(children[0], Some(parent), items, skipTags);
      assert r[1..] == RebuildEachSkipping(children[1..], Some(parent), items, skipTags);
      RebuildSkippingTexts(children[0], Some(parent), items, skipTags);
      RebuildEachSkippingTexts(children[1..], parent, items, skipTags);
      AppliedConcat(Slots(children[0], Some(parent), skipTags), SlotsEach(children[1..], parent, skipTags), items);
    }
  }
}
