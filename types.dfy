/** The records handed to and returned by the transform callback. */
module Types {
  import opened Wrappers

  /** Descriptor of a fragment's immediate parent element. `id` is absent for an
      element with an empty id; `classList` is absent for an element with no class. */
  datatype Tag = Tag(name: string, id: Option<string>, classList: Option<seq<string>>)

  /** One collected piece of text. `key` is a timestamp and plays no part in matching. */
  datatype TaggedText = TaggedText(key: nat, text: string, tag: Tag)

  /** A collected piece of text together with the callback's replacement for it. */
  datatype TransformedTaggedText = TransformedTaggedText(key: nat, text: string, tag: Tag, transformed: string)

  /** `{ ...taggedText, transformed }`. */
  function WithTransformed(t: TaggedText, transformed: string): TransformedTaggedText {
    TransformedTaggedText(t.key, t.text, t.tag, transformed)
  }
}
