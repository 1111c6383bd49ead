/** The slice of the DOM the text-extraction code touches: elements (tag name, id,
    class list, the remaining attributes, child nodes), text nodes, and every other
    node kind (comments, processing instructions, ...) as an opaque value.
    Nodes are values: cloning is copying, and a node's identity is never observed. */
module Dom {

  datatype Attribute = Attribute(name: string, value: string)

  datatype Node =
    | Element(tagName: string, id: string, classList: seq<string>,
              attributes: seq<Attribute>, childNodes: seq<Node>)
    | Text(textContent: string)
    | Other(data: string)

  type ElementNode = n: Node | n.Element? witness Element("", "", [], [], [])

  /** `nodeType === ELEMENT_NODE` (1). */
  predicate IsElementNode(n: Node) {
    n.Element?
  }

  /** `nodeType === TEXT_NODE` (3). */
  predicate IsTextNode(n: Node) {
    n.Text?
  }

  /** `cloneNode(false)` on an element: the same element without its children. */
  function ShallowClone(e: ElementNode): (r: ElementNode)
    ensures r.childNodes == []
    ensures r.(childNodes := e.childNodes) == e
  {
    e.(childNodes := [])
  }

  /** `appendChild`: the element with `child` added after its last child. */
  function AppendChild(e: ElementNode, child: Node): (r: ElementNode)
    ensures r.childNodes == e.childNodes + [child]
    ensures r.(childNodes := e.childNodes) == e
  {
    e.(childNodes := e.childNodes + [child])
  }
}
