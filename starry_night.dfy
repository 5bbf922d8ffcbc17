/**
 * The transform returned by `rehypeStarryNight` (src/lib/rehype-starry-night.ts): every
 * `pre > code.language-*` block whose language the grammar registry knows is replaced, at
 * its index among its parent's children, by `div.highlight.highlight-<slug>` wrapping a
 * `pre` of highlighted nodes.
 */
module StarryNight {
  import opened Wrappers
  import opened Hast

  /**
   * The two registry operations the transform calls: `flagToScope` (a language flag to a
   * grammar scope, or nothing) and `highlight` (text and scope to the fragment's children).
   * Both are supplied by the highlighting library; the model takes them as given functions.
   */
  datatype Highlighter = Highlighter(
    flagToScope: string -> Option<string>,
    highlight: (string, string) -> seq<Node>)

  /** The class prefix that declares a code block's language. */
  const Prefix: string := "language-"

  /** The scope namespace dropped from the front of a scope name when it becomes a class name. */
  const SourceNamespace: string := "source."

  /** The test passed to `classes.find`: a string entry that starts with the prefix. */
  predicate IsLanguageClass(v: PropertyValue) {
    v.PString? && StartsWith(v.s, Prefix)
  }

  /** `classes.find(...)`: the first language class of the list, if any. */
  function FindLanguage(classes: seq<PropertyValue>): (r: Option<string>)
    ensures r.None? <==> forall i | 0 <= i < |classes| :: !IsLanguageClass(classes[i])
    ensures r.Some? ==> exists i | 0 <= i < |classes| ::
      classes[i] == PString(r.value) && IsLanguageClass(classes[i])
      && forall j | 0 <= j < i :: !IsLanguageClass(classes[j])
  {
    if classes == [] then None
    else if IsLanguageClass(classes[0]) then Some(classes[0].s)
    else
      var r := FindLanguage(classes[1..]);
      assert forall i | 1 <= i < |classes| :: classes[i] == classes[1..][i - 1];
      r
  }

  /**
   * The language flag of a `code` element: its `className` must be an array holding a
   * language class; the flag is the first such class with exactly the prefix removed.
   */
  function LanguageFlag(code: Node): (r: Option<string>)
    requires code.Element?
    ensures r.Some? <==> (
      && "className" in code.properties
      && code.properties["className"].PList?
      && exists i | 0 <= i < |code.properties["className"].items| ::
           IsLanguageClass(code.properties["className"].items[i]))
    ensures r.Some? ==> exists i | 0 <= i < |code.properties["className"].items| ::
      code.properties["className"].items[i] == PString(Prefix + r.value)
      && forall j | 0 <= j < i :: !IsLanguageClass(code.properties["className"].items[j])
  {
    if "className" !in code.properties then None
    else
      match code.properties["className"]
      case PList(classes) =>
        (match FindLanguage(classes)
         case None => None
         case Some(language) =>
           assert language == Prefix + language[|Prefix|..];
           Some(language[|Prefix|..]))
      case _ => None
  }

  /** `scope.replace(/^source\./, "")`: one leading `source.` is removed, nothing else. */
  function StripSourceNamespace(scope: string): (r: string)
    ensures StartsWith(scope, SourceNamespace) ==> scope == SourceNamespace + r
    ensures !StartsWith(scope, SourceNamespace) ==> r == scope
  {
    if StartsWith(scope, SourceNamespace) then
      assert scope == SourceNamespace + scope[|SourceNamespace|..];
      scope[|SourceNamespace|..]
    else scope
  }

  /** `s.replace(/\./g, "-")`: every dot becomes a hyphen. */
  function DotsToHyphens(s: string): (r: string)
    ensures |r| == |s|
    ensures forall i | 0 <= i < |s| :: r[i] == if s[i] == '.' then '-' else s[i]
  {
    if s == [] then []
    else [if s[0] == '.' then '-' else s[0]] + DotsToHyphens(s[1..])
  }

  /** The class-name suffix of a scope: `source.js` gives `js`, `text.html.basic` gives `text-html-basic`. */
  function ScopeSlug(scope: string): (r: string)
    ensures '.' !in r
    ensures |r| == |scope| - (if StartsWith(scope, SourceNamespace) then |SourceNamespace| else 0)
    ensures forall i | 0 <= i < |r| ::
      var c := scope[|scope| - |r| + i]; r[i] == if c == '.' then '-' else c
  {
    var stripped := StripSourceNamespace(scope);
    assert stripped == scope[|scope| - |stripped|..];
    DotsToHyphens(stripped)
  }

  /** The element spliced in for a highlighted block. */
  function Wrapper(scope: string, fragment: seq<Node>): Node {
    Element("div",
      map["className" := PList([PString("highlight"), PString("highlight-" + ScopeSlug(scope))])],
      [Element("pre", map[], fragment)])
  }

  /**
   * The visitor, for one element: `Some(replacement)` when it splices, `None` when it returns
   * early. `hasParent` is false only for a node visited without a parent and index.
   */
  function Visit(node: Node, hasParent: bool, h: Highlighter): (r: Option<Node>)
    ensures !hasParent ==> r.None?
    ensures r.Some? <==> (
      && hasParent && node.Element? && node.tagName == "pre" && |node.children| > 0
      && node.children[0].Element? && node.children[0].tagName == "code"
      && LanguageFlag(node.children[0]).Some?
      && h.flagToScope(LanguageFlag(node.children[0]).value).Some?
      && h.flagToScope(LanguageFlag(node.children[0]).value).value != "")
    ensures r.Some? ==>
      var code := node.children[0];
      var scope := h.flagToScope(LanguageFlag(code).value).value;
      r.value == Wrapper(scope, h.highlight(ToString(code), scope))
  {
    if !hasParent || !node.Element? || node.tagName != "pre" then None
    else if |node.children| == 0 then None
    else
      var head := node.children[0];
      if !head.Element? || head.tagName != "code" then None
      else
        match LanguageFlag(head)
        case None => None
        case Some(flag) =>
          match h.flagToScope(flag)
          case None => None
          case Some(scope) =>
            if scope == "" then None  // an empty scope is falsy too
            else Some(Wrapper(scope, h.highlight(ToString(head), scope)))
  }

  /** `children.splice(index, 1, x)`: the one element at `index` is swapped for `x`. */
  function Splice(children: seq<Node>, index: nat, x: Node): (r: seq<Node>)
    requires index < |children|
    ensures |r| == |children|
    ensures r[index] == x
    ensures forall j | 0 <= j < |children| && j != index :: r[j] == children[j]
  {
    children[..index] + [x] + children[index + 1..]
  }

  // ---------------------------------------------------------------------------
  // What the walk leaves in the tree
  // ---------------------------------------------------------------------------

  /**
   * The node that ends up at a child position: a replaced block, or the node with its own
   * children rewritten. A replacement is not visited again.
   */
  function RewriteNode(n: Node, h: Highlighter): (r: Node)
    decreases n, 1
    ensures !n.Element? ==> r == n
    ensures r.Element? <==> n.Element?
    ensures Visit(n, true, h).Some? ==> r == Visit(n, true, h).value
    ensures n.Element? && (n.tagName != "pre" || Visit(n, true, h).None?) ==>
      && r.tagName == n.tagName && r.properties == n.properties && |r.children| == |n.children|
      && forall i | 0 <= i < |n.children| :: r.children[i] == RewriteNode(n.children[i], h)
  {
    match Visit(n, true, h)
    case Some(replacement) => replacement
    case None =>
      if n.Element? then n.(children := RewriteChildren(n.children, h)) else n
  }

  /** A list of siblings after the walk: each position rewritten on its own. */
  function RewriteChildren(s: seq<Node>, h: Highlighter): (r: seq<Node>)
    decreases s, 0
    ensures |r| == |s|
    ensures forall i | 0 <= i < |s| :: r[i] == RewriteNode(s[i], h)
  {
    if s == [] then []
    else
      var rest := RewriteChildren(s[1..], h);
      assert forall i | 1 <= i < |s| :: s[i] == s[1..][i - 1];
      [RewriteNode(s[0], h)] + rest
  }

  /** Some block below `n` (or `n` itself) is replaced by the walk. */
  predicate HasCandidate(n: Node, h: Highlighter)
    decreases n
  {
    Visit(n, true, h).Some?
    || (n.Element? && exists i | 0 <= i < |n.children| :: HasCandidate(n.children[i], h))
  }

  /** Nothing else changes: the walk leaves a node as it is exactly when no block below it is replaced. */
  lemma {:induction false} UnchangedIffNoCandidate(n: Node, h: Highlighter)
    ensures RewriteNode(n, h) == n <==> !HasCandidate(n, h)
    decreases n, 1
  {
    if Visit(n, true, h).None? && n.Element? {
      ChildrenUnchangedIffNoCandidate(n.children, h);
      if RewriteChildren(n.children, h) != n.children {
        assert RewriteNode(n, h).children != n.children;
      }
    }
  }

  lemma {:induction false} ChildrenUnchangedIffNoCandidate(s: seq<Node>, h: Highlighter)
    ensures RewriteChildren(s, h) == s <==> forall i | 0 <= i < |s| :: !HasCandidate(s[i], h)
    decreases s, 0
  {
    forall i | 0 <= i < |s| ensures RewriteNode(s[i], h) == s[i] <==> !HasCandidate(s[i], h) {
      UnchangedIffNoCandidate(s[i], h);
    }
    if RewriteChildren(s, h) != s {
      var r := RewriteChildren(s, h);
      var i :| 0 <= i < |s| && r[i] != s[i];
    }
  }

  // ---------------------------------------------------------------------------
  // Worked cases
  // ---------------------------------------------------------------------------

  /** `source.js` gives `js`: the leading namespace goes. */
  lemma ScopeSlugOfSourceJs()
    ensures ScopeSlug("source.js") == "js"
  {
    assert StripSourceNamespace("source.js") == "js";
    var r := DotsToHyphens("js");
    assert r[0] == 'j' && r[1] == 's';
  }

  /** `text.html.basic` gives `text-html-basic`: no namespace to drop, every dot becomes a hyphen. */
  lemma ScopeSlugOfTextHtmlBasic()
    ensures ScopeSlug("text.html.basic") == "text-html-basic"
  {
    assert "text.html.basic"[0] != SourceNamespace[0];
    SlugWithoutNamespace("text.html.basic", "text-html-basic");
  }

  lemma SlugWithoutNamespace(scope: string, slug: string)
    requires !StartsWith(scope, SourceNamespace)
    requires |slug| == |scope|
    requires forall i | 0 <= i < |scope| :: slug[i] == if scope[i] == '.' then '-' else scope[i]
    ensures ScopeSlug(scope) == slug
  {
  }

  /** A code block declared with `language-<flag>` holding the text `text`. */
  function CodeBlock(classes: seq<PropertyValue>, text: string): Node {
    Element("pre", map[], [Element("code", map["className" := PList(classes)], [Text(text)])])
  }

  /** A JavaScript block becomes `div.highlight.highlight-js` around a `pre` of the highlighted code text. */
  lemma {:induction false} HighlightsKnownLanguage(h: Highlighter)
    requires h.flagToScope("js") == Some("source.js")
    ensures RewriteChildren([CodeBlock([PString("language-js")], "const x = 1;")], h)
         == [Element("div",
              map["className" := PList([PString("highlight"), PString("highlight-js")])],
              [Element("pre", map[], h.highlight("const x = 1;", "source.js"))])]
  {
    var block := CodeBlock([PString("language-js")], "const x = 1;");
    var fragment := h.highlight("const x = 1;", "source.js");
    assert RewriteNode(block, h) == Wrapper("source.js", fragment) by {
      var code := block.children[0];
      assert LanguageFlag(code) == Some("js") by {
        assert IsLanguageClass(PString("language-js"));
        assert FindLanguage([PString("language-js")]) == Some("language-js");
        assert "language-js"[|Prefix|..] == "js";
      }
      assert ToString(code) == "const x = 1;" by {
        assert code.children[1..] == [];
      }
    }
    assert Wrapper("source.js", fragment)
        == Element("div",
             map["className" := PList([PString("highlight"), PString("highlight-js")])],
             [Element("pre", map[], fragment)]) by {
      ScopeSlugOfSourceJs();
      assert "highlight-" + ScopeSlug("source.js") == "highlight-js";
    }
    assert RewriteChildren([block], h)[0] == RewriteNode(block, h);
  }

  /**
   * A block whose language flag the registry does not resolve (no scope, or an empty one) is
   * left exactly as it was, whatever its classes and its text.
   */
  lemma {:induction false} KeepsUnknownLanguage(h: Highlighter, classes: seq<PropertyValue>, text: string)
    requires FindLanguage(classes).Some? ==>
      var scope := h.flagToScope(FindLanguage(classes).value[|Prefix|..]);
      scope.None? || scope.value == ""
    ensures RewriteNode(CodeBlock(classes, text), h) == CodeBlock(classes, text)
  {
    var block := CodeBlock(classes, text);
    assert !HasCandidate(block.children[0], h) by {
      assert !HasCandidate(block.children[0].children[0], h);
    }
    UnchangedIffNoCandidate(block, h);
  }

  /** A block whose classes hold no string starting with `language-` is left exactly as it was. */
  lemma {:induction false} KeepsBlockWithoutLanguageClass(h: Highlighter, classes: seq<PropertyValue>, text: string)
    requires FindLanguage(classes).None?
    ensures RewriteNode(CodeBlock(classes, text), h) == CodeBlock(classes, text)
  {
    var block := CodeBlock(classes, text);
    assert !HasCandidate(block.children[0], h) by {
      assert !HasCandidate(block.children[0].children[0], h);
    }
    UnchangedIffNoCandidate(block, h);
  }

  // ---------------------------------------------------------------------------
  // The walk itself
  // ---------------------------------------------------------------------------

  /**
   * The pre-order walk over one list of siblings: each element is offered to the visitor;
   * a replacement is spliced in at its index, any other element is walked into.
   */
  method VisitChildren(children: seq<Node>, h: Highlighter) returns (result: seq<Node>)
    decreases children
    ensures result == RewriteChildren(children, h)
  {
    result := children;
    for index := 0 to |children|
      invariant |result| == |children|
      invariant forall j | 0 <= j < index :: result[j] == RewriteNode(children[j], h)
      invariant forall j | index <= j < |children| :: result[j] == children[j]
    {
      var node := result[index];
      var replacement := Visit(node, true, h);
      if replacement.Some? {
        result := Splice(result, index, replacement.value);
      } else if node.Element? {
        var kids := VisitChildren(node.children, h);
        result := result[index := node.(children := kids)];
      }
    }
  }

  /** The transform: the root's children are rewritten in place; the root itself never is. */
  method Transform(tree: Root, h: Highlighter)
    modifies tree
    ensures tree.children == RewriteChildren(old(tree.children), h)
  {
    var children := VisitChildren(tree.children, h);
    tree.children := children;
  }
}
