/** The whole `markOver` run on a parsed body: collect the fragments, hand each one to
    the caller's transform, and rebuild the body's children with the replacements. */
module Pipeline {
  import opened Wrappers
  import opened JsString
  import opened Dom
  import opened Types
  import opened TagMatching
  import opened Collector
  import opened Reconstructor

  /** `Promise.all` over the transformed fragments: every fragment paired with its
      replacement, in the same order, when every call succeeds; otherwise one of the
      failures, and nothing else. */
  function TransformAll(fragments: seq<TaggedText>, transform: TaggedText -> Result<string, string>)
    : (r: Result<seq<TransformedTaggedText>, string>)
    ensures r.Ok? <==> forall i :: 0 <= i < |fragments| ==> transform(fragments[i]).Ok?
    ensures r.Ok? ==> |r.value| == |fragments|
                      && forall i :: 0 <= i < |fragments| ==>
                           r.value[i] == WithTransformed(fragments[i], transform(fragments[i]).value)
    ensures r.Err? ==> exists i :: 0 <= i < |fragments| && transform(fragments[i]) == Err(r.error)
  {
    if fragments == [] then Ok([])
    else
      match transform(fragments[0])
      case Err(e) => Err(e)
      case Ok(t) =>
        match TransformAll(fragments[1..], transform)
        case Err(e) =>
          assert forall i :: 0 <= i < |fragments| - 1 ==> fragments[1..][i] == fragments[i + 1];
          Err(e)
        case Ok(rest) => Ok([WithTransformed(fragments[0], t)] + rest)
  }

  /** The parsed body's effective skip list: the defaults followed by the caller's names. */
  function EffectiveSkipTags(defaultSkipTags: seq<string>, skipTags: seq<string>): (r: seq<string>)
    ensures forall t :: t in r <==> t in defaultSkipTags || t in skipTags
  {
    defaultSkipTags + skipTags
  }

  /** `transformHtmlTextInNode` / `transformHtmlTextInBrowser` as written: fragments are
      collected from the body itself, but each child of the body is rebuilt with no
      parent element. The run fails exactly when some transform call fails; otherwise
      the new body has one child per old child, each of the same shape. */
  function MarkOverAsWritten(body: ElementNode, defaultSkipTags: seq<string>, skipTags: seq<string>,
                             transform: TaggedText -> Result<string, string>, clock: nat): (r: Result<seq<Node>, string>)
    ensures var fragments := Collect(body, None, [], EffectiveSkipTags(defaultSkipTags, skipTags), clock);
      r.Ok? <==> forall i :: 0 <= i < |fragments| ==> transform(fragments[i]).Ok?
    ensures r.Ok? ==> |r.value| == |body.childNodes|
                      && forall i :: 0 <= i < |body.childNodes| ==> SameShape(body.childNodes[i], r.value[i])
  {
    var fragments := Collect(body, None, [], EffectiveSkipTags(defaultSkipTags, skipTags), clock);
    match TransformAll(fragments, transform)
    case Err(e) => Err(e)
    case Ok(transformedTexts) =>
      var children := RebuildEach(body.childNodes, None, transformedTexts);
      EachPreservesShape(body.childNodes, None, transformedTexts);
      Ok(children)
  }

  /** Every rebuilt child has the shape of the child it replaces. */
  lemma EachPreservesShape(nodes: seq<Node>, parent: Option<ElementNode>, items: seq<TransformedTaggedText>)
    ensures forall i :: 0 <= i < |nodes| ==> SameShape(nodes[i], RebuildEach(nodes, parent, items)[i])
  {
    forall i | 0 <= i < |nodes| ensures SameShape(nodes[i], RebuildEach(nodes, parent, items)[i]) {
      RebuildPreservesShape(nodes[i], parent, items);
    }
  }

  /** As written, a text placed directly in the body is never replaced, although it is
      collected and handed to the transform. */
  lemma BodyTextKeptAsWritten(body: ElementNode, defaultSkipTags: seq<string>, skipTags: seq<string>,
                              transform: TaggedText -> Result<string, string>, clock: nat, i: nat)
    requires MarkOverAsWritten(body, defaultSkipTags, skipTags, transform, clock).Ok?
    requires i < |body.childNodes| && body.childNodes[i].Text?
    ensures MarkOverAsWritten(body, defaultSkipTags, skipTags, transform, clock).value[i] == body.childNodes[i]
  {
  }

  /** `markOver` with both corrections: the body's children are rebuilt with the body as
      their parent, as they were collected, and skipped elements are copied whole. */
  function MarkOver(body: ElementNode, defaultSkipTags: seq<string>, skipTags: seq<string>,
                    transform: TaggedText -> Result<string, string>, clock: nat): (r: Result<seq<Node>, string>)
    ensures var fragments := Collect(body, None, [], EffectiveSkipTags(defaultSkipTags, skipTags), clock);
      r.Ok? <==> forall i :: 0 <= i < |fragments| ==> transform(fragments[i]).Ok?
    ensures r.Ok? ==> |r.value| == |body.childNodes|
                      && forall i :: 0 <= i < |body.childNodes| ==>
                           ChangesOnlyVisibleText(body.childNodes[i], r.value[i], EffectiveSkipTags(defaultSkipTags, skipTags))
  {
    var skips := EffectiveSkipTags(defaultSkipTags, skipTags);
    var fragments := Collect(body, None, [], skips, clock);
    match TransformAll(fragments, transform)
    case Err(e) => Err(e)
    case Ok(transformedTexts) =>
      var children := RebuildEachSkipping(body.childNodes, Some(body), transformedTexts, skips);
      EachKeepsSkipped(body.childNodes, Some(body), transformedTexts, skips);
      Ok(children)
  }

  /** Every child rebuilt by the corrected run differs from its original in visible text only. */
  lemma EachKeepsSkipped(nodes: seq<Node>, parent: Option<ElementNode>, items: seq<TransformedTaggedText>,
                         skipTags: seq<string>)
    ensures forall i :: 0 <= i < |nodes| ==>
      ChangesOnlyVisibleText(nodes[i], RebuildEachSkipping(nodes, parent, items, skipTags)[i], skipTags)
  {
    forall i | 0 <= i < |nodes|
      ensures ChangesOnlyVisibleText(nodes[i], RebuildEachSkipping(nodes, parent, items, skipTags)[i], skipTags)
    {
      RebuildSkippingKeepsSkipped(nodes[i], parent, items, skipTags);
    }
  }

  /** `items` is `fragments` with a replacement attached to each, in the same order. */
  predicate Annotates(items: seq<TransformedTaggedText>, fragments: seq<TaggedText>) {
    |items| == |fragments|
    && forall i :: 0 <= i < |items| ==> items[i].text == fragments[i].text && items[i].tag == fragments[i].tag
  }

  /** Every text the collector visits under a parent element, and does not find blank,
      finds a fitting entry when it is looked up again under the same parent. */
  lemma CollectedTextIsFound(n: Node, parent: Option<ElementNode>, skipTags: seq<string>, clock: nat,
                             items: seq<TransformedTaggedText>, leaf: Leaf)
    requires Annotates(items, Collect(n, parent, [], skipTags, clock))
    requires leaf in VisibleLeaves(n, parent, skipTags)
    requires leaf.parent.Some? && Trim(leaf.content) != ""
    ensures FindTransformedText(Trim(leaf.content), leaf.parent, items).Some?
  {
    var fragments := Collect(n, parent, [], skipTags, clock);
    CollectIsPreorder(n, parent, [], skipTags, clock);
    assert fragments == Emit(VisibleLeaves(n, parent, skipTags), clock);
    var f := FragmentOf(leaf, clock).value;
    EmitComplete(VisibleLeaves(n, parent, skipTags), leaf, clock);
    var k :| 0 <= k < |fragments| && fragments[k] == f;
    DescriptorRoundTrip(leaf.parent.value);
    assert Fits(items[k], Trim(leaf.content), leaf.parent);
  }

  /** The intended behaviour the corrected run has: a non-blank text placed directly in
      a non-skipped body is replaced by the transform's answer for a collected fragment
      with that text and a descriptor fitting the body. */
  lemma BodyTextReplaced(body: ElementNode, defaultSkipTags: seq<string>, skipTags: seq<string>,
                         transform: TaggedText -> Result<string, string>, clock: nat, i: nat)
    requires body.tagName !in EffectiveSkipTags(defaultSkipTags, skipTags)
    requires MarkOver(body, defaultSkipTags, skipTags, transform, clock).Ok?
    requires i < |body.childNodes| && body.childNodes[i].Text? && Trim(body.childNodes[i].textContent) != ""
    ensures var fragments := Collect(body, None, [], EffectiveSkipTags(defaultSkipTags, skipTags), clock);
      exists j :: 0 <= j < |fragments| && fragments[j].text == Trim(body.childNodes[i].textContent)
                  && MatchesElementTag(Some(body), fragments[j].tag)
                  && MarkOver(body, defaultSkipTags, skipTags, transform, clock).value[i]
                     == Text(transform(fragments[j]).value)
  {
    var skips := EffectiveSkipTags(defaultSkipTags, skipTags);
    var fragments := Collect(body, None, [], skips, clock);
    var items := TransformAll(fragments, transform).value;
    var content := body.childNodes[i].textContent;
    var leaf := Leaf(Some(body), content);
    TextChildIsLeaf(body.childNodes, body, skips, i);
    CollectedTextIsFound(body, None, skips, clock, items, leaf);
    var j :| 0 <= j < |items| && Fits(items[j], Trim(content), Some(body))
             && FindTransformedText(Trim(content), Some(body), items).value == items[j].transformed;
    assert MarkOver(body, defaultSkipTags, skipTags, transform, clock).value[i]
           == Text(items[j].transformed);
  }

  /** The corrected run at every depth. Number the body's text nodes in document order;
      the k-th text of the new body is
      - the original text, when it lies inside a skipped element;
      - the original text, when it is blank;
      - otherwise the callback's answer for the first collected fragment that has its
        trimmed text and whose descriptor fits the element the text sits in. */
  lemma MarkOverRewritesVisibleTexts(body: ElementNode, defaultSkipTags: seq<string>, skipTags: seq<string>,
                                     transform: TaggedText -> Result<string, string>, clock: nat, k: nat)
    requires body.tagName !in EffectiveSkipTags(defaultSkipTags, skipTags)
    requires MarkOver(body, defaultSkipTags, skipTags, transform, clock).Ok?
    requires k < |TextsOfEach(body.childNodes)|
    ensures var skips := EffectiveSkipTags(defaultSkipTags, skipTags);
      var slots := SlotsEach(body.childNodes, body, skips);
      var texts := TextsOfEach(MarkOver(body, defaultSkipTags, skipTags, transform, clock).value);
      var fragments := Collect(body, None, [], skips, clock);
      k < |slots| == |texts| && ContentOf(slots[k]) == TextsOfEach(body.childNodes)[k]
      && (slots[k].Hidden? ==> texts[k] == slots[k].content)
      && (slots[k].Visible? && Trim(slots[k].leaf.content) == "" ==> texts[k] == slots[k].leaf.content)
      && (slots[k].Visible? && Trim(slots[k].leaf.content) != "" ==>
            exists j :: 0 <= j < |fragments| && fragments[j].text == Trim(slots[k].leaf.content)
                        && MatchesElementTag(slots[k].leaf.parent, fragments[j].tag)
                        && (forall i :: 0 <= i < j ==> !(fragments[i].text == Trim(slots[k].leaf.content)
                                                         && MatchesElementTag(slots[k].leaf.parent, fragments[i].tag)))
                        && texts[k] == transform(fragments[j]).value)
  {
    var skips := EffectiveSkipTags(defaultSkipTags, skipTags);
    var slots := SlotsEach(body.childNodes, body, skips);
    var fragments := Collect(body, None, [], skips, clock);
    var items := TransformAll(fragments, transform).value;
    var texts := TextsOfEach(MarkOver(body, defaultSkipTags, skipTags, transform, clock).value);
    CorrectedTexts(body, defaultSkipTags, skipTags, transform, clock);
    AppliedAt(slots, items, k);
    if slots[k].Visible? && Trim(slots[k].leaf.content) != "" {
      var leaf := slots[k].leaf;
      var text := Trim(leaf.content);
      VisibleSlotAnswered(body, skips, clock, transform, k);
      var j :| 0 <= j < |fragments| && fragments[j].text == text
               && MatchesElementTag(leaf.parent, fragments[j].tag)
               && (forall i :: 0 <= i < j ==> !(fragments[i].text == text && MatchesElementTag(leaf.parent, fragments[i].tag)))
               && Applied(slots, items)[k] == transform(fragments[j]).value;
      assert texts[k] == transform(fragments[j]).value;
    }
  }

  /** The texts of the corrected run's new body are the body's slots, each visible one
      rebuilt under its own parent; the slots enumerate the old body's texts. */
  lemma CorrectedTexts(body: ElementNode, defaultSkipTags: seq<string>, skipTags: seq<string>,
                       transform: TaggedText -> Result<string, string>, clock: nat)
    requires MarkOver(body, defaultSkipTags, skipTags, transform, clock).Ok?
    ensures var skips := EffectiveSkipTags(defaultSkipTags, skipTags);
      var slots := SlotsEach(body.childNodes, body, skips);
      var items := TransformAll(Collect(body, None, [], skips, clock), transform).value;
      TextsOfEach(MarkOver(body, defaultSkipTags, skipTags, transform, clock).value) == Applied(slots, items)
      && Contents(slots) == TextsOfEach(body.childNodes)
  {
    var skips := EffectiveSkipTags(defaultSkipTags, skipTags);
    var items := TransformAll(Collect(body, None, [], skips, clock), transform).value;
    SlotsEachCoverTexts(body.childNodes, body, skips);
    RebuildEachSkippingTexts(body.childNodes, body, items, skips);
  }

  /** `items` holds every fragment's text and descriptor with the callback's answer. */
  predicate Answers(items: seq<TransformedTaggedText>, fragments: seq<TaggedText>,
                    transform: TaggedText -> Result<string, string>) {
    |items| == |fragments|
    && forall i :: 0 <= i < |items| ==>
         items[i].text == fragments[i].text && items[i].tag == fragments[i].tag
         && transform(fragments[i]).Ok? && items[i].transformed == transform(fragments[i]).value
  }

  /** A successful run pairs every fragment with its answer, in order. */
  lemma TransformAllAnswers(fragments: seq<TaggedText>, transform: TaggedText -> Result<string, string>)
    requires TransformAll(fragments, transform).Ok?
    ensures Answers(TransformAll(fragments, transform).value, fragments, transform)
    ensures Annotates(TransformAll(fragments, transform).value, fragments)
  {
  }

  /** A visible, non-blank text of a non-skipped body becomes the callback's answer for
      the first fragment that has its trimmed text and fits the element it sits in. */
  lemma VisibleSlotAnswered(body: ElementNode, skips: seq<string>, clock: nat,
                            transform: TaggedText -> Result<string, string>, k: nat)
    requires body.tagName !in skips
    requires TransformAll(Collect(body, None, [], skips, clock), transform).Ok?
    requires k < |SlotsEach(body.childNodes, body, skips)|
    requires SlotsEach(body.childNodes, body, skips)[k].Visible?
    requires Trim(SlotsEach(body.childNodes, body, skips)[k].leaf.content) != ""
    ensures var slots := SlotsEach(body.childNodes, body, skips);
      var leaf := slots[k].leaf;
      var fragments := Collect(body, None, [], skips, clock);
      exists j :: 0 <= j < |fragments| && fragments[j].text == Trim(leaf.content)
                  && MatchesElementTag(leaf.parent, fragments[j].tag)
                  && (forall i :: 0 <= i < j ==> !(fragments[i].text == Trim(leaf.content)
                                                   && MatchesElementTag(leaf.parent, fragments[i].tag)))
                  && Applied(slots, TransformAll(fragments, transform).value)[k] == transform(fragments[j]).value
  {
    var slots := SlotsEach(body.childNodes, body, skips);
    var leaf := slots[k].leaf;
    var text := Trim(leaf.content);
    var fragments := Collect(body, None, [], skips, clock);
    var items := TransformAll(fragments, transform).value;
    TransformAllAnswers(fragments, transform);
    VisibleSlotFound(body, skips, clock, items, k);
    FirstFitAnswer(items, fragments, transform, text, leaf.parent);
    var answer := FindTransformedText(text, leaf.parent, items).value;
    AppliedAt(slots, items, k);
    assert Applied(slots, items)[k] == RebuiltText(leaf.content, leaf.parent, items);
    assert RebuiltText(leaf.content, leaf.parent, items) == answer;
  }

  /** A visible, non-blank text below a non-skipped body finds a fitting fragment under
      the element it sits in. */
  lemma VisibleSlotFound(body: ElementNode, skips: seq<string>, clock: nat, items: seq<TransformedTaggedText>, k: nat)
    requires body.tagName !in skips
    requires Annotates(items, Collect(body, None, [], skips, clock))
    requires k < |SlotsEach(body.childNodes, body, skips)|
    requires SlotsEach(body.childNodes, body, skips)[k].Visible?
    requires Trim(SlotsEach(body.childNodes, body, skips)[k].leaf.content) != ""
    ensures var leaf := SlotsEach(body.childNodes, body, skips)[k].leaf;
      FindTransformedText(Trim(leaf.content), leaf.parent, items).Some?
  {
    var slots := SlotsEach(body.childNodes, body, skips);
    var leaf := slots[k].leaf;
    VisibleSlotIsLeaf(slots, k);
    SlotsEachShowVisibleLeaves(body.childNodes, body, skips);
    ChildLeavesAvoidSkippedParents(body.childNodes, body, skips);
    assert leaf in VisibleLeaves(body, None, skips);
    CollectedTextIsFound(body, None, skips, clock, items, leaf);
  }

  /** The replacement found is the callback's answer for the first fragment that has the
      text and fits the parent. */
  lemma FirstFitAnswer(items: seq<TransformedTaggedText>, fragments: seq<TaggedText>,
                       transform: TaggedText -> Result<string, string>, text: string, parent: Option<ElementNode>)
    requires Answers(items, fragments, transform)
    requires FindTransformedText(text, parent, items).Some?
    ensures exists j :: 0 <= j < |fragments| && fragments[j].text == text
                        && MatchesElementTag(parent, fragments[j].tag)
                        && (forall i :: 0 <= i < j ==> !(fragments[i].text == text && MatchesElementTag(parent, fragments[i].tag)))
                        && FindTransformedText(text, parent, items).value == transform(fragments[j]).value
  {
    var j :| 0 <= j < |items| && Fits(items[j], text, parent)
             && FindTransformedText(text, parent, items).value == items[j].transformed
             && forall i :: 0 <= i < j ==> !Fits(items[i], text, parent);
    forall i | 0 <= i < j
      ensures !(fragments[i].text == text && MatchesElementTag(parent, fragments[i].tag))
    {
      assert !Fits(items[i], text, parent);
    }
    assert fragments[j].text == text && fragments[j].tag == items[j].tag;
    assert MatchesElementTag(parent, fragments[j].tag);
    assert FindTransformedText(text, parent, items).value == transform(fragments[j]).value;
  }

  // ---------------------------------------------------------------------------
  // The two discrepancies, on concrete documents.

  /** A transform that answers "HELLO" to every fragment. */
  function AnswerHello(t: TaggedText): Result<string, string> {
    Ok("HELLO")
  }

  /** A single fragment handed to `AnswerHello` comes back with "HELLO" attached. */
  lemma TransformAllToHello(fragments: seq<TaggedText>)
    requires |fragments| == 1
    ensures TransformAll(fragments, AnswerHello) == Ok([WithTransformed(fragments[0], "HELLO")])
  {
    var r := TransformAll(fragments, AnswerHello);
    assert AnswerHello(fragments[0]).Ok?;
    assert r.Ok?;
    assert r.value == [r.value[0]];
  }

  /** `<body>Hello</body>`: the text is collected under BODY and its replacement is
      computed, but the run as written returns the text unchanged; the corrected run
      replaces it. */
  lemma BodyTextDroppedAsWritten()
    ensures var body := Element("BODY", "", [], [], [Text("Hello")]);
      Collect(body, None, [], [], 0) == [TaggedText(0, "Hello", Tag("BODY", None, None))]
      && MarkOverAsWritten(body, [], [], AnswerHello, 0) == Ok([Text("Hello")])
      && MarkOver(body, [], [], AnswerHello, 0) == Ok([Text("HELLO")])
  {
    var body: ElementNode := Element("BODY", "", [], [], [Text("Hello")]);
    TrimHello();
    assert EffectiveSkipTags([], []) == [];
    var fragments := Collect(body, None, [], [], 0);
    assert fragments == [TaggedText(0, "Hello", Tag("BODY", None, None))];
    var items := [TransformedTaggedText(0, "Hello", Tag("BODY", None, None), "HELLO")];
    TransformAllToHello(fragments);
    assert TransformAll(fragments, AnswerHello) == Ok(items);
    assert Rebuild(Text("Hello"), None, items) == Text("Hello");
    assert RebuildEach(body.childNodes, None, items) == [Text("Hello")];
    assert Fits(items[0], "Hello", Some(body));
    FirstFitIsFound("Hello", Some(body), items, 0);
    assert RebuildEachSkipping(body.childNodes, Some(body), items, []) == [Text("HELLO")];
  }

  /** A word without surrounding blanks is its own trimmed text. */
  lemma TrimHello()
    ensures Trim("Hello") == "Hello"
  {
    TrimPadded([], "Hello", []);
    assert [] + "Hello" + [] == "Hello";
  }

  /** The document of the second discrepancy: a SPAN inside a skipped CODE element and an
      identical SPAN beside it. */
  const HelloSpan: ElementNode := Element("SPAN", "", [], [], [Text("Hello")])
  const HelloCode: ElementNode := Element("CODE", "", [], [], [HelloSpan])
  const CodeBody: ElementNode := Element("BODY", "", [], [], [HelloCode, HelloSpan])
  const ShoutedSpan: ElementNode := Element("SPAN", "", [], [], [Text("HELLO")])
  const SpanTag: Tag := Tag("SPAN", None, None)
  const CodeItems: seq<TransformedTaggedText> := [TransformedTaggedText(0, "Hello", SpanTag, "HELLO")]

  /** With CODE skipped, only the second SPAN's text is collected. */
  lemma CodeBodyFragments()
    ensures Collect(CodeBody, None, [], EffectiveSkipTags([], ["CODE"]), 0) == [TaggedText(0, "Hello", SpanTag)]
    ensures TransformAll(Collect(CodeBody, None, [], EffectiveSkipTags([], ["CODE"]), 0), AnswerHello) == Ok(CodeItems)
  {
    TrimHello();
    var skips := EffectiveSkipTags([], ["CODE"]);
    assert skips == ["CODE"];
    assert Collect(HelloCode, Some(CodeBody), [], skips, 0) == [];
    assert Collect(HelloSpan, Some(CodeBody), [], skips, 0) == [TaggedText(0, "Hello", SpanTag)];
    assert CodeBody.childNodes[1..] == [HelloSpan] && CodeBody.childNodes[1..][1..] == [];
    assert CollectChildren([HelloSpan], CodeBody, [], skips, 0) == [TaggedText(0, "Hello", SpanTag)];
    var fragments := Collect(CodeBody, None, [], skips, 0);
    assert fragments == CollectChildren([HelloCode, HelloSpan], CodeBody, [], skips, 0);
    TransformAllToHello(fragments);
  }

  /** The SPAN holding "Hello" is rebuilt with "HELLO", whatever its parent. */
  lemma HelloSpanRebuilt(parent: Option<ElementNode>)
    ensures Rebuild(HelloSpan, parent, CodeItems) == ShoutedSpan
    ensures RebuildSkipping(HelloSpan, parent, CodeItems, ["CODE"]) == ShoutedSpan
  {
    TrimHello();
    assert Fits(CodeItems[0], "Hello", Some(HelloSpan));
    FirstFitIsFound("Hello", Some(HelloSpan), CodeItems, 0);
    assert RebuiltText("Hello", Some(HelloSpan), CodeItems) == "HELLO";
  }

  /** `<body><code><span>Hello</span></code><span>Hello</span></body>` with CODE skipped:
      nothing inside CODE is collected, yet the run as written rewrites the text inside
      it, because its SPAN parent fits the fragment collected from the second SPAN; the
      corrected run leaves CODE as it was. */
  lemma SkippedTextRewrittenAsWritten()
    ensures MarkOverAsWritten(CodeBody, [], ["CODE"], AnswerHello, 0)
              == Ok([Element("CODE", "", [], [], [ShoutedSpan]), ShoutedSpan])
    ensures !ChangesOnlyVisibleText(HelloCode, Element("CODE", "", [], [], [ShoutedSpan]), ["CODE"])
    ensures MarkOver(CodeBody, [], ["CODE"], AnswerHello, 0) == Ok([HelloCode, ShoutedSpan])
  {
    CodeBodyFragments();
    HelloSpanRebuilt(Some(HelloCode));
    HelloSpanRebuilt(None);
    HelloSpanRebuilt(Some(CodeBody));
    assert Rebuild(HelloCode, None, CodeItems) == Element("CODE", "", [], [], [ShoutedSpan]);
    assert RebuildEach(CodeBody.childNodes, None, CodeItems) == [Element("CODE", "", [], [], [ShoutedSpan]), ShoutedSpan];
    assert RebuildSkipping(HelloCode, Some(CodeBody), CodeItems, ["CODE"]) == HelloCode;
    assert RebuildEachSkipping(CodeBody.childNodes, Some(CodeBody), CodeItems, ["CODE"]) == [HelloCode, ShoutedSpan];
    assert EffectiveSkipTags([], ["CODE"]) == ["CODE"];
  }
}
