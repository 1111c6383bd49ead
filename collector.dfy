/** `collectTaggedTexts`: a pre-order, left-to-right walk that gathers every
    non-blank text leaf below a parent element, tagged with that parent's
    descriptor, and never enters an element whose tag name is to be skipped. */
module Collector {
  import opened Wrappers
  import opened JsString
  import opened Dom
  import opened Types
  import opened TagMatching

  /** The descriptor the collector records for a text leaf's parent: the tag name,
      the id unless it is empty, the class list unless it is empty. */
  function DescriptorOf(e: ElementNode): (r: Tag)
    ensures r.name == e.tagName && DescribedId(r) == e.id && DescribedClasses(r) == e.classList
    ensures r.id != Some("") && r.classList != Some([])
  {
    Tag(e.tagName,
        if e.id != "" then Some(e.id) else None,
        if |e.classList| > 0 then Some(e.classList) else None)
  }

  /** The descriptor round trip: the descriptor taken from an element always fits that
      element, it names the element's tag, and it never holds an empty id or class list. */
  lemma DescriptorRoundTrip(e: ElementNode)
    ensures MatchesElementTag(Some(e), DescriptorOf(e))
    ensures DescriptorOf(e).name == e.tagName
    ensures DescriptorOf(e).id != Some("") && DescriptorOf(e).classList != Some([])
  {
  }

  /** An element fits the descriptor taken from another element exactly when the two
      agree on tag name, id and classes (in any order): different ids or classes keep
      same-text siblings apart. */
  lemma DescriptorFitsIff(e: ElementNode, source: ElementNode)
    ensures MatchesElementTag(Some(e), DescriptorOf(source)) <==>
      e.tagName == source.tagName && e.id == source.id && multiset(e.classList) == multiset(source.classList)
  {
  }

  /** `collectTaggedTexts`: the fragments already `collected`, followed by those of `n`. */
  function Collect(n: Node, parent: Option<ElementNode>, collected: seq<TaggedText>,
                   skipTags: seq<string>, clock: nat): (r: seq<TaggedText>)
    ensures collected <= r
    decreases n
  {
    match n
    case Element(tagName, _, _, _, childNodes) =>
      if tagName in skipTags then collected
      else CollectChildren(childNodes, n, collected, skipTags, clock)
    case Text(content) =>
      var text := Trim(content);
      if text != "" && parent.Some? then
        collected + [TaggedText(clock, text, DescriptorOf(parent.value))]
      else collected
    case Other(_) => collected
  }

  /** The `reduce` over an element's children, each visited with `parent` as its parent. */
  function CollectChildren(children: seq<Node>, parent: ElementNode, collected: seq<TaggedText>,
                           skipTags: seq<string>, clock: nat): (r: seq<TaggedText>)
    ensures collected <= r
    decreases children
  {
    if children == [] then collected
    else CollectChildren(children[1..], parent, Collect(children[0], Some(parent), collected, skipTags, clock),
                         skipTags, clock)
  }

  // ---------------------------------------------------------------------------
  // Reference definition: the text leaves the walk visits, in document order.

  /** A text leaf together with the element it sits in (none at the top). */
  datatype Leaf = Leaf(parent: Option<ElementNode>, content: string)

  /** The text leaves of `n` in pre-order, left to right, leaving out everything
      inside an element whose tag name is skipped. */
  function VisibleLeaves(n: Node, parent: Option<ElementNode>, skipTags: seq<string>): seq<Leaf>
    decreases n
  {
    match n
    case Element(tagName, _, _, _, childNodes) =>
      if tagName in skipTags then [] else ChildLeaves(childNodes, n, skipTags)
    case Text(content) => [Leaf(parent, content)]
    case Other(_) => []
  }

  function ChildLeaves(children: seq<Node>, parent: ElementNode, skipTags: seq<string>): seq<Leaf>
    decreases children
  {
    if children == [] then []
    else VisibleLeaves(children[0], Some(parent), skipTags) + ChildLeaves(children[1..], parent, skipTags)
  }

  /** The fragment a leaf yields: one exactly when its trimmed text is non-empty and it
      has a parent element. */
  function FragmentOf(leaf: Leaf, clock: nat): Option<TaggedText> {
    var text := Trim(leaf.content);
    if text != "" && leaf.parent.Some? then Some(TaggedText(clock, text, DescriptorOf(leaf.parent.value)))
    else None
  }

  /** `f` is the fragment `leaf` yields. */
  predicate YieldedBy(f: TaggedText, leaf: Leaf, clock: nat) {
    FragmentOf(leaf, clock) == Some(f)
  }

  /** The fragment of one leaf, as a list of zero or one elements. */
  function Yield(leaf: Leaf, clock: nat): seq<TaggedText> {
    match FragmentOf(leaf, clock)
    case None => []
    case Some(f) => [f]
  }

  /** The fragments of a list of leaves, in order. Every fragment is yielded by one of
      the leaves, and its text is trimmed and non-empty. */
  function Emit(leaves: seq<Leaf>, clock: nat): (r: seq<TaggedText>)
    ensures |r| <= |leaves|
    ensures forall f :: f in r ==> exists l :: l in leaves && YieldedBy(f, l, clock)
    ensures forall f :: f in r ==> f.key == clock && f.text != "" && Trim(f.text) == f.text
  {
    if leaves == [] then []
    else
      var first := Yield(leaves[0], clock);
      var rest := Emit(leaves[1..], clock);
      assert forall l :: l in leaves[1..] ==> l in leaves;
      assert forall f :: f in first ==> YieldedBy(f, leaves[0], clock) && f.text == Trim(leaves[0].content);
      TrimIdempotent(leaves[0].content);
      first + rest
  }

  /** Conversely, every leaf that yields a fragment contributes it. */
  lemma {:induction false} EmitComplete(leaves: seq<Leaf>, leaf: Leaf, clock: nat)
    requires leaf in leaves && FragmentOf(leaf, clock).Some?
    ensures FragmentOf(leaf, clock).value in Emit(leaves, clock)
  {
    if leaves[0] != leaf {
      EmitComplete(leaves[1..], leaf, clock);
    }
  }

  /** A text child of a non-skipped element is one of the element's visited leaves. */
  lemma {:induction false} TextChildIsLeaf(children: seq<Node>, parent: ElementNode, skipTags: seq<string>, i: nat)
    requires i < |children| && children[i].Text?
    ensures Leaf(Some(parent), children[i].textContent) in ChildLeaves(children, parent, skipTags)
    decreases children
  {
    if i > 0 {
      TextChildIsLeaf(children[1..], parent, skipTags, i - 1);
    }
  }

  lemma {:induction false} EmitConcat(a: seq<Leaf>, b: seq<Leaf>, clock: nat)
    ensures Emit(a + b, clock) == Emit(a, clock) + Emit(b, clock)
  {
    if a != [] {
      assert (a + b)[1..] == a[1..] + b;
      assert (a + b)[0] == a[0];
      EmitConcat(a[1..], b, clock);
      assert Yield(a[0], clock) + (Emit(a[1..], clock) + Emit(b, clock))
          == Yield(a[0], clock) + Emit(a[1..], clock) + Emit(b, clock);
    } else {
      assert a + b == b;
    }
  }

  /** The collector's result is what it was handed, followed by the fragments of the
      leaves it visits in document order: nothing collected earlier is changed,
      dropped or reordered, and the walk is a pre-order, left-to-right traversal. */
  lemma {:induction false} CollectIsPreorder(n: Node, parent: Option<ElementNode>, collected: seq<TaggedText>,
                                             skipTags: seq<string>, clock: nat)
    ensures Collect(n, parent, collected, skipTags, clock)
            == collected + Emit(VisibleLeaves(n, parent, skipTags), clock)
    decreases n
  {
    match n
    case Element(tagName, _, _, _, childNodes) =>
      if tagName !in skipTags {
        CollectChildrenIsPreorder(childNodes, n, collected, skipTags, clock);
      }
    case Text(content) =>
    case Other(_) =>
  }

  lemma {:induction false} CollectChildrenIsPreorder(children: seq<Node>, parent: ElementNode,
                                                     collected: seq<TaggedText>, skipTags: seq<string>, clock: nat)
    ensures CollectChildren(children, parent, collected, skipTags, clock)
            == collected + Emit(ChildLeaves(children, parent, skipTags), clock)
    decreases children
  {
    if children != [] {
      var first := VisibleLeaves(children[0], Some(parent), skipTags);
      var rest := ChildLeaves(children[1..], parent, skipTags);
      var mid := Collect(children[0], Some(parent), collected, skipTags, clock);
      assert CollectChildren(children, parent, collected, skipTags, clock)
          == CollectChildren(children[1..], parent, mid, skipTags, clock);
      CollectIsPreorder(children[0], Some(parent), collected, skipTags, clock);
      CollectChildrenIsPreorder(children[1..], parent, mid, skipTags, clock);
      EmitConcat(first, rest, clock);
      PreorderStep(collected, Emit(first, clock), Emit(rest, clock));
    }
  }

  lemma PreorderStep(collected: seq<TaggedText>, a: seq<TaggedText>, b: seq<TaggedText>)
    ensures collected + a + b == collected + (a + b)
  {
  }

  /** Starting from an empty list loses nothing: any `collected` is simply a prefix. */
  lemma CollectExtends(n: Node, parent: Option<ElementNode>, collected: seq<TaggedText>,
                       skipTags: seq<string>, clock: nat)
    ensures Collect(n, parent, collected, skipTags, clock)
            == collected + Collect(n, parent, [], skipTags, clock)
  {
    CollectIsPreorder(n, parent, collected, skipTags, clock);
    CollectIsPreorder(n, parent, [], skipTags, clock);
    var emitted := Emit(VisibleLeaves(n, parent, skipTags), clock);
    assert [] + emitted == emitted;
  }

  /** Below an element, every visited leaf sits in an element whose tag name is not
      skipped: the walk never enters a skipped element. */
  lemma {:induction false} LeavesAvoidSkippedParents(n: Node, parent: Option<ElementNode>, skipTags: seq<string>)
    requires n.Element?
    ensures forall l :: l in VisibleLeaves(n, parent, skipTags) ==>
      l.parent.Some? && l.parent.value.tagName !in skipTags
    decreases n
  {
    if n.tagName !in skipTags {
      ChildLeavesAvoidSkippedParents(n.childNodes, n, skipTags);
    }
  }

  lemma {:induction false} ChildLeavesAvoidSkippedParents(children: seq<Node>, parent: ElementNode, skipTags: seq<string>)
    requires parent.tagName !in skipTags
    ensures forall l :: l in ChildLeaves(children, parent, skipTags) ==>
      l.parent.Some? && l.parent.value.tagName !in skipTags
    decreases children
  {
    if children != [] {
      if children[0].Element? {
        LeavesAvoidSkippedParents(children[0], Some(parent), skipTags);
      }
      ChildLeavesAvoidSkippedParents(children[1..], parent, skipTags);
    }
  }

  /** No fragment collected below an element carries a skipped tag name, and every
      fragment's text is trimmed and non-empty. */
  lemma CollectedFragmentsAreVisible(n: Node, parent: Option<ElementNode>, skipTags: seq<string>, clock: nat)
    requires n.Element?
    ensures forall f :: f in Collect(n, parent, [], skipTags, clock) ==>
      f.tag.name !in skipTags && f.text != "" && Trim(f.text) == f.text && f.key == clock
  {
    CollectIsPreorder(n, parent, [], skipTags, clock);
    LeavesAvoidSkippedParents(n, parent, skipTags);
    var leaves := VisibleLeaves(n, parent, skipTags);
    var r := Emit(leaves, clock);
    forall f | f in r ensures f.tag.name !in skipTags {
      var l :| l in leaves && YieldedBy(f, l, clock);
    }
  }

  /** Two trees agree outside skipped elements: same kinds, tag names, ids and classes
      and same texts everywhere except below an element whose tag name is skipped,
      whose contents may differ arbitrarily. */
  predicate SkipEquivalent(a: Node, b: Node, skipTags: seq<string>)
    decreases a
  {
    match a
    case Element(tagName, id, classList, _, children) =>
      b.Element? && b.tagName == tagName && b.id == id && b.classList == classList
      && (tagName in skipTags
          || (|b.childNodes| == |children|
              && forall i :: 0 <= i < |children| ==> SkipEquivalent(children[i], b.childNodes[i], skipTags)))
    case Text(content) => b == a
    case Other(_) => b.Other?
  }

  /** What lies inside a skipped element has no influence on the collected fragments. */
  lemma {:induction false} CollectIgnoresSkippedContent(a: Node, b: Node, parent: Option<ElementNode>,
                                                        collected: seq<TaggedText>, skipTags: seq<string>, clock: nat)
    requires SkipEquivalent(a, b, skipTags)
    ensures Collect(a, parent, collected, skipTags, clock) == Collect(b, parent, collected, skipTags, clock)
    decreases a
  {
    if a.Element? && a.tagName !in skipTags {
      CollectChildrenIgnoresSkippedContent(a.childNodes, b.childNodes, a, b, collected, skipTags, clock);
    }
  }

  lemma {:induction false} CollectChildrenIgnoresSkippedContent(
    xs: seq<Node>, ys: seq<Node>, pa: ElementNode, pb: ElementNode,
    collected: seq<TaggedText>, skipTags: seq<string>, clock: nat)
    requires |xs| == |ys| && forall i :: 0 <= i < |xs| ==> SkipEquivalent(xs[i], ys[i], skipTags)
    requires DescriptorOf(pa) == DescriptorOf(pb)
    ensures CollectChildren(xs, pa, collected, skipTags, clock) == CollectChildren(ys, pb, collected, skipTags, clock)
    decreases xs
  {
    if xs != [] {
      var mid := Collect(xs[0], Some(pa), collected, skipTags, clock);
      SameDescriptorSameCollect(xs[0], ys[0], pa, pb, collected, skipTags, clock);
      CollectChildrenIgnoresSkippedContent(xs[1..], ys[1..], pa, pb, mid, skipTags, clock);
    }
  }

  /** The parent is seen only through its descriptor. */
  lemma {:induction false} SameDescriptorSameCollect(x: Node, y: Node, pa: ElementNode, pb: ElementNode,
                                                     collected: seq<TaggedText>, skipTags: seq<string>, clock: nat)
    requires SkipEquivalent(x, y, skipTags)
    requires DescriptorOf(pa) == DescriptorOf(pb)
    ensures Collect(x, Some(pa), collected, skipTags, clock) == Collect(y, Some(pb), collected, skipTags, clock)
    decreases x, 1
  {
    if x.Element? && x.tagName !in skipTags {
      CollectChildrenIgnoresSkippedContent(x.childNodes, y.childNodes, x, y, collected, skipTags, clock);
    }
  }
}
