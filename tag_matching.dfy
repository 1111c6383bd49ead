/** Deciding whether an element fits a fragment's parent descriptor, and looking up
    the replacement for a piece of text by its text and parent descriptor. */
module TagMatching {
  import opened Wrappers
  import opened JsString
  import opened Dom
  import opened Types

  /** The id a descriptor stands for: an absent id reads as the empty id (`id ?? ""`). */
  function DescribedId(t: Tag): string {
    t.id.GetOr("")
  }

  /** The classes a descriptor stands for: an absent list reads as no class. */
  function DescribedClasses(t: Tag): seq<string> {
    t.classList.GetOr([])
  }

  /** `matchesElementTag`: without an element there is no match (a descriptor's name
      is a string, never null); otherwise the tag names must be equal, the ids equal
      once an absent id is read as "", and the class lists equal once both are sorted,
      which is to say equal as multisets. */
  function MatchesElementTag(element: Option<ElementNode>, tag: Tag): (r: bool)
    ensures element.None? ==> !r
    ensures element.Some? ==>
      (r <==> element.value.tagName == tag.name
              && element.value.id == DescribedId(tag)
              && multiset(element.value.classList) == multiset(DescribedClasses(tag)))
  {
    match element
    case None => false
    case Some(e) =>
      if e.tagName != tag.name then false
      else if e.id != tag.id.GetOr("") then false
      else
        var elementClasses := SortStrings(e.classList);
        var tagClasses := SortStrings(tag.classList.GetOr([]));
        SortEqualIffSameElements(e.classList, tag.classList.GetOr([]));
        if |elementClasses| != |tagClasses| then false
        else forall i :: 0 <= i < |elementClasses| ==> elementClasses[i] == tagClasses[i]
  }

  /** A descriptor without an id fits only elements whose id is empty, and fits every
      such element that agrees with it on tag name and classes. */
  lemma AbsentIdMeansEmptyId(e: ElementNode, tag: Tag)
    requires tag.id.None?
    ensures MatchesElementTag(Some(e), tag) <==>
      e.id == "" && e.tagName == tag.name && multiset(e.classList) == multiset(DescribedClasses(tag))
  {
  }

  /** Reordering the element's classes, or the descriptor's, never changes the verdict. */
  lemma ClassOrderIrrelevant(e: ElementNode, tag: Tag, elementClasses: seq<string>, tagClasses: seq<string>)
    requires multiset(elementClasses) == multiset(e.classList)
    requires multiset(tagClasses) == multiset(DescribedClasses(tag))
    ensures MatchesElementTag(Some(e.(classList := elementClasses)), tag.(classList := Some(tagClasses)))
            == MatchesElementTag(Some(e), tag)
  {
  }

  /** The condition `find` applies to each entry: equal text and a fitting descriptor. */
  predicate Fits(item: TransformedTaggedText, text: string, parent: Option<ElementNode>) {
    item.text == text && MatchesElementTag(parent, item.tag)
  }

  /** `Array.prototype.find`, by position: the index of the first element that
      satisfies `p`, if any. */
  function FindIndex<T>(xs: seq<T>, p: T -> bool): (r: Option<nat>)
    ensures r.None? <==> forall i :: 0 <= i < |xs| ==> !p(xs[i])
    ensures r.Some? ==> r.value < |xs| && p(xs[r.value]) && forall j :: 0 <= j < r.value ==> !p(xs[j])
  {
    if xs == [] then None
    else if p(xs[0]) then Some(0)
    else
      var tail := xs[1..];
      assert forall j :: 1 <= j < |xs| ==> xs[j] == tail[j - 1];
      match FindIndex(tail, p)
      case None => None
      case Some(i) => Some(i + 1)
  }

  /** `findTransformedText`: the replacement carried by the first entry, in list
      order, whose text equals `text` and whose descriptor fits `parent`; none when
      no entry does. Later entries that also fit are ignored. */
  function FindTransformedText(text: string, parent: Option<ElementNode>, items: seq<TransformedTaggedText>): (r: Option<string>)
    ensures r.None? <==> forall i :: 0 <= i < |items| ==> !Fits(items[i], text, parent)
    ensures r.Some? ==> exists i :: 0 <= i < |items| && Fits(items[i], text, parent)
                                    && r.value == items[i].transformed
                                    && forall j :: 0 <= j < i ==> !Fits(items[j], text, parent)
  {
    match FindIndex(items, (item: TransformedTaggedText) => Fits(item, text, parent))
    case None => None
    case Some(i) => Some(items[i].transformed)
  }

  /** An entry that fits, with no fitting entry before it, is the one whose replacement
      is returned. */
  lemma FirstFitIsFound(text: string, parent: Option<ElementNode>, items: seq<TransformedTaggedText>, i: nat)
    requires i < |items| && Fits(items[i], text, parent)
    requires forall j :: 0 <= j < i ==> !Fits(items[j], text, parent)
    ensures FindTransformedText(text, parent, items) == Some(items[i].transformed)
  {
    var k := FindIndex(items, (item: TransformedTaggedText) => Fits(item, text, parent));
    assert k == Some(i);
  }

  /** Without a parent element nothing is ever found. */
  lemma NoParentNoMatch(text: string, items: seq<TransformedTaggedText>)
    ensures FindTransformedText(text, None, items) == None
  {
  }

  /** Once an entry fits, entries appended after it cannot change the answer. */
  lemma FirstFitStable(text: string, parent: Option<ElementNode>,
                       items: seq<TransformedTaggedText>, more: seq<TransformedTaggedText>)
    requires FindTransformedText(text, parent, items).Some?
    ensures FindTransformedText(text, parent, items + more) == FindTransformedText(text, parent, items)
  {
    var i :| 0 <= i < |items| && Fits(items[i], text, parent)
             && FindTransformedText(text, parent, items).value == items[i].transformed
             && forall j :: 0 <= j < i ==> !Fits(items[j], text, parent);
    var all := items + more;
    assert all[i] == items[i];
    assert forall j :: 0 <= j < i ==> all[j] == items[j];
    FirstFitIsFound(text, parent, all, i);
  }

  /** Two parents with the same tag name, id and classes (in any order) receive the same
      replacement for the same text: the lookup cannot tell duplicate siblings apart. */
  lemma SameSignatureSameLookup(text: string, e1: ElementNode, e2: ElementNode,
                                items: seq<TransformedTaggedText>)
    requires e1.tagName == e2.tagName && e1.id == e2.id
    requires multiset(e1.classList) == multiset(e2.classList)
    ensures FindTransformedText(text, Some(e1), items) == FindTransformedText(text, Some(e2), items)
  {
    assert forall i :: 0 <= i < |items| ==> Fits(items[i], text, Some(e1)) == Fits(items[i], text, Some(e2));
    if FindTransformedText(text, Some(e1), items).Some? {
      var i :| 0 <= i < |items| && Fits(items[i], text, Some(e1))
               && FindTransformedText(text, Some(e1), items).value == items[i].transformed
               && forall j :: 0 <= j < i ==> !Fits(items[j], text, Some(e1));
      FirstFitIsFound(text, Some(e2), items, i);
    }
  }
}
