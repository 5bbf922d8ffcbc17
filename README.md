# Breadcrumbs and code-block highlighting, modelled in Dafny

This project models the two pieces of logic of a small static-site frontend (a SvelteKit
blog) that can be stated and checked on their own:

1. **Breadcrumb resolution** (`src/routes/+layout.ts`). The site's navigation is a tree of
   `NavigationItem`s `{icon, link, sub?}`. The nested `find` searches it depth first, in
   pre-order, and the first match wins. It accumulates the `/`-joined path on the way down:
   an empty (falsy) parent path adds no prefix. `buildBreadCrumbs` looks up each slug of the
   current route from the root and pushes every crumb that resolves. Slugs that do not resolve
   are dropped.
2. **Code-block rewrite** (`src/lib/rehype-starry-night.ts`). The rehype transform walks an
   HTML syntax tree (hast). It looks for `pre` elements whose first child is a `code` element
   carrying a `language-<flag>` class. The flag goes to the grammar registry; if the registry
   gives a scope, the `pre` is replaced in its parent's `children`, at the same index, by
   `div.highlight.highlight-<slug>`. That `div` wraps a `pre` of the highlighted nodes. The
   slug is the scope without one leading `source.`, with every other `.` turned into `-`.

Files:

- `wrappers.dfy`: module `Wrappers`, with `Option` and the `StartsWith`/`EndsWith` string tests.
- `navigation.dfy`: module `Navigation`. `find` is the pure recursive function `Find`. It is
  checked against two independent reference definitions: the pre-order listing `Preorder`
  with `FirstMatch`, and the predicate `Contains`. `buildBreadCrumbs` is the method
  `BuildBreadCrumbs`, whose `for` loop is proved equal to the function `Resolved`.
- `hast.dfy`: module `Hast`. It holds the node datatype (element, text, comment), property
  values (class lists may hold non-strings), the mutable `Root`, and `ToString`. `ToString`
  gives the text content that `hast-util-to-string` computes: the concatenation of descendant
  text nodes, where comments below an element contribute nothing.
- `starry_night.dfy`: module `StarryNight`. The per-node visitor is the function `Visit`. The
  `splice` is `Splice`. What the walk leaves in the tree is specified by `RewriteNode` and
  `RewriteChildren`. The walk itself is the method `VisitChildren`, which loops over the
  siblings and splices replacements in at their index. `Transform` updates a `Root` in place.

The registry's `flagToScope` and `highlight` belong to the highlighting library. Here they are
the two function-valued fields of a `Highlighter` value, which every operation takes as a
parameter.

Behaviour that follows from JavaScript truthiness and from the library's walk:

- An empty scope returned by the registry is falsy, so the block is skipped.
- A `sub` that is present but empty is truthy: it is searched and finds nothing.
- Duplicate links are allowed anywhere in the tree; the first one in pre-order wins.
- The visitor receives the `pre` node it was called with, so after a splice `unist-util-visit`
  goes on into the old, now detached, `pre`. It never visits the new `div`. Nothing below a
  replaced block changes in the resulting tree, and the model does not descend into it.

## Model

| member | source | states |
|---|---|---|
| `Navigation.Join` | src/routes/+layout.ts:14 | The path of an item ends with its own link. It is the bare link when the parent path is empty, and otherwise starts with `parentLink + "/"`. |
| `Navigation.Find` | src/routes/+layout.ts:8-23 | An empty list finds nothing. A returned crumb's link always ends with the searched segment. |
| `Navigation.FindStaysBelowParent` | src/routes/+layout.ts:14-19 | Below a non-empty parent path the returned link starts with `parentLink + "/"`. An item whose own link matches is returned, with its icon and its joined path, without searching its `sub`. |
| `Navigation.FirstMatch` | src/routes/+layout.ts:13-22 | The crumb of the first visit in a listing whose link matches. It is null exactly when none matches. |
| `Navigation.FindIsFirstPreorderMatch` | src/routes/+layout.ts:13-22 | `find` returns exactly the first node, in depth-first pre-order, whose link matches. So an item's subtree is searched before its later siblings. |
| `Navigation.FindSomeIffContains` | src/routes/+layout.ts:13-22 | `find` is non-null if and only if some node at any depth has `link == breadCrumb`. |
| `Navigation.FindReturnsMatchedItem` | src/routes/+layout.ts:14-16 | A found crumb carries the icon and the accumulated path of a visited node whose own link is the segment. |
| `Navigation.Resolved` | src/routes/+layout.ts:25-30 | The breadcrumbs are never more than the slugs. |
| `Navigation.BuildBreadCrumbs` | src/routes/+layout.ts:25-30 | The loop with `push` returns exactly `Resolved(nav, slugs)`: each slug is looked up from the root, and unresolved slugs are dropped. |
| `Navigation.ResolvedIndices` | src/routes/+layout.ts:26-29 | The positions of the resolving slugs are strictly increasing and in range, and a slug's position is among them iff its lookup is non-null. |
| `Navigation.ResolvedIsOrderedSubsequence` | src/routes/+layout.ts:26-29 | The k-th breadcrumb is the lookup of the k-th resolving slug, so the output is an order-preserving sub-list. |
| `Navigation.ResolvedAppend` | src/routes/+layout.ts:26-28 | No state is carried between slugs: the crumbs of `a + b` are the crumbs of `a` followed by those of `b`. |
| `Navigation.EmptyNavResolvesNothing` | src/routes/+layout.ts:25-30 | An empty navigation yields no breadcrumbs for any slugs. |
| `Navigation.ResolvedAllIff` | src/routes/+layout.ts:26-29 | The output is as long as the input if and only if every slug resolves. |
| `Navigation.BlogPostExample` | src/routes/+layout.ts:4-31 | In a two-level menu, `blog` gives `blog` and `hello` gives `blog/hello`. `missing` is dropped. |
| `Hast.DescendantTextAppend` | src/lib/rehype-starry-night.ts:48 | The text handed to the highlighter follows tree order: the text of two runs of siblings is their texts joined. |
| `Hast.CommentAddsNoText` | src/lib/rehype-starry-night.ts:48 | A comment among an element's children adds nothing to the text handed to the highlighter. |
| `StarryNight.FindLanguage` | src/lib/rehype-starry-night.ts:37-41 | It gives the first class entry that is a string starting with `language-`, and none exactly when no entry is one. |
| `StarryNight.LanguageFlag` | src/lib/rehype-starry-night.ts:33-43 | A flag exists iff `className` is an array holding a language class. The flag is the first such class with exactly the prefix removed. |
| `StarryNight.StripSourceNamespace` | src/lib/rehype-starry-night.ts:57 | One leading `source.` is removed, and a scope without it is unchanged. |
| `StarryNight.DotsToHyphens` | src/lib/rehype-starry-night.ts:57 | The length is kept, every `.` becomes `-`, and every other character is kept. |
| `StarryNight.ScopeSlug` | src/lib/rehype-starry-night.ts:57 | The class suffix contains no `.`. It is the scope minus a leading `source.`, with dots replaced, position by position. |
| `StarryNight.ScopeSlugOfSourceJs` | src/lib/rehype-starry-night.ts:57 | `source.js` gives `js`. |
| `StarryNight.ScopeSlugOfTextHtmlBasic` | src/lib/rehype-starry-night.ts:57 | `text.html.basic` gives `text-html-basic`. |
| `StarryNight.Visit` | src/lib/rehype-starry-night.ts:22-61 | A node without a parent is never replaced. A node is replaced iff it is a `pre` whose first child is a `code` with a language flag that the registry maps to a non-empty scope. The replacement is the `div.highlight.highlight-<slug>` wrapper around a `pre` of `highlight(toString(code), scope)`, which uses the text of the `code`, not the `pre`. |
| `StarryNight.Splice` | src/lib/rehype-starry-night.ts:51 | `splice(index, 1, x)` keeps the length, puts `x` at `index` and leaves every other position unchanged. |
| `StarryNight.RewriteNode` | src/lib/rehype-starry-night.ts:22-62 | Text and comment nodes are untouched. A replaced block becomes exactly `Visit`'s wrapper, the `div.highlight.highlight-<slug>` spliced in at its index. An element that is not replaced (any non-`pre`, or a `pre` the visitor skips) keeps its tag and its properties, and each of its children is rewritten in place, position by position. |
| `StarryNight.RewriteChildren` | src/lib/rehype-starry-night.ts:22-62 | The sibling count is kept and each position is rewritten on its own. |
| `StarryNight.UnchangedIffNoCandidate` | src/lib/rehype-starry-night.ts:23-46 | Nothing else changes: a subtree is left exactly as it was iff no replaceable block lies in it. |
| `StarryNight.ChildrenUnchangedIffNoCandidate` | src/lib/rehype-starry-night.ts:22-62 | A list of siblings is unchanged iff none of them holds a replaceable block. |
| `StarryNight.HighlightsKnownLanguage` | src/lib/rehype-starry-night.ts:37-60 | With `js` mapped to `source.js`, `<pre><code class="language-js">const x = 1;</code></pre>` becomes a `div` with classes `highlight` and `highlight-js` around a `pre` of `highlight("const x = 1;", "source.js")`. |
| `StarryNight.KeepsUnknownLanguage` | src/lib/rehype-starry-night.ts:43-46 | For any class list and text: a block whose language flag the registry maps to no scope, or to an empty one, is left unchanged. |
| `StarryNight.KeepsBlockWithoutLanguageClass` | src/lib/rehype-starry-night.ts:37-41 | For any class list and text: a block whose classes hold no string starting with `language-` is left unchanged. |
| `StarryNight.VisitChildren` | src/lib/rehype-starry-night.ts:22-62 | The walk over one list of siblings, splicing each replacement in at its index, yields exactly `RewriteChildren`. |
| `StarryNight.Transform` | src/lib/rehype-starry-night.ts:19-63 | The root's children are replaced in place by their rewrite, and the root itself is never replaced. |

## Left out

- `load` in `src/routes/+layout.ts`: the HTTP fetch of the settings, the JSON decoding, the
  object spread and `slug.split("/")` are I/O glue. `BuildBreadCrumbs` takes the slug list
  as given.
- Registry construction (`createStarryNight`, the default grammar list, the memoised promise
  and its `await`) is asynchronous library set-up. It is represented only by the
  `Highlighter` parameter.
- `flagToScope` and `highlight` are library functions. They are the arbitrary total functions
  of a `Highlighter`, so a highlighter that throws (and aborts the transform) is not modelled.
- `ToString`: the code of `hast-util-to-string` is not part of this model. `Hast.ToString`
  gives the result that library documents for it.
- `unist-util-visit` is not part of this model. Its pre-order walk is written out. The walk
  into the detached old `pre` after a splice is not modelled, because it cannot change the
  resulting tree.
- `VisitChildren`: the source mutates each nested parent's `children` array in place. The
  model updates only the `Root` object in place and rebuilds nested elements as values, so
  aliasing of nodes shared between parents is not captured (a parsed tree has none).
- hast node kinds other than element, text and comment (doctype, raw) are not modelled.
  Property values other than `className` are carried but never inspected. JavaScript numbers
  in class lists are modelled as integers, since only their non-string type matters.
- `src/lib/rehype-matter.ts`, `src/templates/post.js` and `src/routes/[...slug]/+page.ts` are
  not part of this model. They are a front-matter wrapper, a page component and the fetch and
  pipeline glue, with no logic of their own to state.
