/**
 * The slice of the HTML syntax tree (hast) that the code-block rewriter reads and writes,
 * and the text content of a node as `hast-util-to-string` computes it.
 */
module Hast {

  /** A property value: class lists are arrays whose entries need not be strings. */
  datatype PropertyValue =
    | PString(s: string)
    | PNumber(n: int)
    | PBoolean(b: bool)
    | PList(items: seq<PropertyValue>)

  /** An element's `properties` record, keyed by property name (`className`, ...). */
  type Properties = map<string, PropertyValue>

  datatype Node =
    | Element(tagName: string, properties: Properties, children: seq<Node>)
    | Text(value: string)
    | Comment(value: string)

  /** The document root: its `children` list is updated in place by the rewrite. */
  class Root {
    var children: seq<Node>

    constructor (children: seq<Node>)
      ensures this.children == children
    {
      this.children := children;
    }
  }

  /**
   * `toString(node)`: the concatenated text of the node's text descendants; a leaf's own value.
   * Comments below an element contribute nothing.
   */
  function ToString(node: Node): string {
    match node
    case Element(_, _, children) => DescendantText(children)
    case Text(value) => value
    case Comment(value) => value
  }

  /** The text that a list of children contributes, in tree order. */
  function DescendantText(nodes: seq<Node>): string
    decreases nodes
  {
    if nodes == [] then ""
    else
      var head :=
        match nodes[0]
        case Element(_, _, children) => DescendantText(children)
        case Text(value) => value
        case Comment(_) => "";
      head + DescendantText(nodes[1..])
  }

  /** Text content follows tree order: the text of two runs of siblings is their texts joined. */
  lemma {:induction false} DescendantTextAppend(a: seq<Node>, b: seq<Node>)
    ensures DescendantText(a + b) == DescendantText(a) + DescendantText(b)
    decreases |a|
  {
    if a == [] {
      assert a + b == b;
    } else {
      assert (a + b)[0] == a[0] && (a + b)[1..] == a[1..] + b;
      DescendantTextAppend(a[1..], b);
    }
  }

  /** A comment among an element's children adds nothing to the element's text. */
  lemma {:induction false} CommentAddsNoText(before: seq<Node>, c: string, after: seq<Node>)
    ensures DescendantText(before + [Comment(c)] + after) == DescendantText(before + after)
  {
    assert DescendantText([Comment(c)] + after) == DescendantText(after) by {
      assert ([Comment(c)] + after)[1..] == after;
    }
    assert before + [Comment(c)] + after == before + ([Comment(c)] + after);
    DescendantTextAppend(before, [Comment(c)] + after);
    DescendantTextAppend(before, after);
  }
}
