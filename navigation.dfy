/** Breadcrumb resolution over the site's navigation tree (src/routes/+layout.ts). */
module Navigation {
  import opened Wrappers

  /** One entry of the navigation menu, with an optional list of child entries. */
  datatype NavigationItem = NavigationItem(icon: string, link: string, sub: SubItems)

  /** The optional `sub` field: absent (`undefined`), or a list of children (truthy even when empty). */
  datatype SubItems = Absent | Present(items: seq<NavigationItem>)

  /** A breadcrumb: the matched item's icon and the full `/`-joined path down to it. */
  datatype Crumb = Crumb(icon: string, link: string)

  /** The path of an item whose parent has path `parentLink`; an empty parent path is falsy and adds no prefix. */
  function Join(parentLink: string, link: string): (r: string)
    ensures EndsWith(r, link)
    ensures parentLink == "" ==> r == link
    ensures parentLink != "" ==> StartsWith(r, parentLink + "/") && |r| == |parentLink| + 1 + |link|
  {
    if parentLink == "" then link else parentLink + "/" + link
  }

  /** A path below the child `link` of `parentLink` is also below `parentLink` itself. */
  lemma BelowChildIsBelowParent(path: string, parentLink: string, link: string)
    requires parentLink != ""
    requires StartsWith(path, Join(parentLink, link) + "/")
    ensures StartsWith(path, parentLink + "/")
  {
    var child := Join(parentLink, link);
    var p := parentLink + "/";
    forall i | 0 <= i < |p| ensures path[i] == p[i] {
      assert path[i] == (child + "/")[i] == child[i];
    }
  }

  /**
   * The nested `find`: a depth-first search of `nav` that returns the first item,
   * in pre-order, whose own `link` is `breadCrumb`, with the path accumulated on the way down.
   */
  function Find(nav: seq<NavigationItem>, breadCrumb: string, parentLink: string): (r: Option<Crumb>)
    decreases nav
    ensures nav == [] ==> r == None
    ensures r.Some? ==> EndsWith(r.value.link, breadCrumb)
  {
    if nav == [] then None
    else
      var item := nav[0];
      var link := Join(parentLink, item.link);
      if item.link == breadCrumb then Some(Crumb(item.icon, link))
      else
        var found := if item.sub.Present? then Find(item.sub.items, breadCrumb, link) else None;
        if found.Some? then found else Find(nav[1..], breadCrumb, parentLink)
  }

  /**
   * The returned link is the accumulated path: below a non-empty parent path it is
   * `parentLink + "/" + ...`; at the root (empty parent path) a root item's link comes back unprefixed.
   */
  lemma {:induction false} FindStaysBelowParent(nav: seq<NavigationItem>, breadCrumb: string, parentLink: string)
    ensures Find(nav, breadCrumb, parentLink).Some? && parentLink != "" ==>
      StartsWith(Find(nav, breadCrumb, parentLink).value.link, parentLink + "/")
    ensures nav != [] && nav[0].link == breadCrumb ==>
      Find(nav, breadCrumb, parentLink) == Some(Crumb(nav[0].icon, Join(parentLink, nav[0].link)))
    decreases nav
  {
    if nav != [] && nav[0].link != breadCrumb {
      var item := nav[0];
      var link := Join(parentLink, item.link);
      var found := if item.sub.Present? then Find(item.sub.items, breadCrumb, link) else None;
      if found.Some? {
        FindStaysBelowParent(item.sub.items, breadCrumb, link);
        if parentLink != "" {
          BelowChildIsBelowParent(found.value.link, parentLink, item.link);
        }
      } else {
        FindStaysBelowParent(nav[1..], breadCrumb, parentLink);
      }
    }
  }

  // ---------------------------------------------------------------------------
  // Reference definitions: the tree contains a link; the pre-order listing of all nodes.
  // ---------------------------------------------------------------------------

  /** Some item anywhere in `nav` (at any depth) has `link == breadCrumb`. */
  predicate Contains(nav: seq<NavigationItem>, breadCrumb: string)
    decreases nav
  {
    exists i | 0 <= i < |nav| ::
      nav[i].link == breadCrumb || (nav[i].sub.Present? && Contains(nav[i].sub.items, breadCrumb))
  }

  /** A node as the search meets it: its icon, its own link and its accumulated path. */
  datatype PreorderEntry = PreorderEntry(icon: string, link: string, path: string)

  /** Every node of `nav`, in depth-first pre-order: an item, then its subtree, then its later siblings. */
  function Preorder(nav: seq<NavigationItem>, parentLink: string): (r: seq<PreorderEntry>)
    decreases nav
    ensures nav != [] ==> |r| > 0 && r[0] == PreorderEntry(nav[0].icon, nav[0].link, Join(parentLink, nav[0].link))
  {
    if nav == [] then []
    else
      var item := nav[0];
      var link := Join(parentLink, item.link);
      [PreorderEntry(item.icon, item.link, link)]
      + (if item.sub.Present? then Preorder(item.sub.items, link) else [])
      + Preorder(nav[1..], parentLink)
  }

  /** The crumb of the first visit, in list order, whose own link is `breadCrumb`. */
  function FirstMatch(visits: seq<PreorderEntry>, breadCrumb: string): (r: Option<Crumb>)
    ensures r.None? <==> forall k | 0 <= k < |visits| :: visits[k].link != breadCrumb
    ensures r.Some? ==> exists k | 0 <= k < |visits| ::
      visits[k].link == breadCrumb && r.value == Crumb(visits[k].icon, visits[k].path)
      && forall j | 0 <= j < k :: visits[j].link != breadCrumb
  {
    if visits == [] then None
    else if visits[0].link == breadCrumb then Some(Crumb(visits[0].icon, visits[0].path))
    else
      var r := FirstMatch(visits[1..], breadCrumb);
      if r.Some? then
        ghost var k :| 0 <= k < |visits[1..]| && visits[1..][k].link == breadCrumb
          && r.value == Crumb(visits[1..][k].icon, visits[1..][k].path)
          && forall j | 0 <= j < k :: visits[1..][j].link != breadCrumb;
        assert visits[k + 1] == visits[1..][k];
        r
      else
        assert forall k | 1 <= k < |visits| :: visits[k] == visits[1..][k - 1];
        r
  }

  lemma {:induction false} FirstMatchAppend(a: seq<PreorderEntry>, b: seq<PreorderEntry>, breadCrumb: string)
    ensures FirstMatch(a + b, breadCrumb)
         == if FirstMatch(a, breadCrumb).Some? then FirstMatch(a, breadCrumb) else FirstMatch(b, breadCrumb)
    decreases |a|
  {
    if a == [] {
      assert a + b == b;
    } else {
      assert (a + b)[0] == a[0];
      assert (a + b)[1..] == a[1..] + b;
      FirstMatchAppend(a[1..], b, breadCrumb);
    }
  }

  /**
   * First match wins in depth-first pre-order: `find` returns exactly the first node of the
   * pre-order listing whose link matches, so a matching item is returned without searching
   * its `sub`, and an item's subtree is searched before its later siblings.
   */
  lemma {:induction false} FindIsFirstPreorderMatch(nav: seq<NavigationItem>, breadCrumb: string, parentLink: string)
    ensures Find(nav, breadCrumb, parentLink) == FirstMatch(Preorder(nav, parentLink), breadCrumb)
    decreases nav
  {
    if nav != [] {
      var item := nav[0];
      var link := Join(parentLink, item.link);
      var head := [PreorderEntry(item.icon, item.link, link)];
      var inner := if item.sub.Present? then Preorder(item.sub.items, link) else [];
      var rest := Preorder(nav[1..], parentLink);
      assert Preorder(nav, parentLink) == head + (inner + rest);
      FirstMatchAppend(head, inner + rest, breadCrumb);
      if item.link != breadCrumb {
        assert FirstMatch(head, breadCrumb) == None;
        FirstMatchAppend(inner, rest, breadCrumb);
        var found := if item.sub.Present? then Find(item.sub.items, breadCrumb, link) else None;
        assert found == FirstMatch(inner, breadCrumb) by {
          if item.sub.Present? {
            FindIsFirstPreorderMatch(item.sub.items, breadCrumb, link);
          }
        }
        FindIsFirstPreorderMatch(nav[1..], breadCrumb, parentLink);
      }
    }
  }

  lemma ContainsCons(nav: seq<NavigationItem>, breadCrumb: string)
    requires nav != []
    ensures Contains(nav, breadCrumb) <==>
      nav[0].link == breadCrumb || (nav[0].sub.Present? && Contains(nav[0].sub.items, breadCrumb))
      || Contains(nav[1..], breadCrumb)
  {
    if Contains(nav, breadCrumb) {
      var i :| 0 <= i < |nav| &&
        (nav[i].link == breadCrumb || (nav[i].sub.Present? && Contains(nav[i].sub.items, breadCrumb)));
      if i > 0 {
        assert nav[1..][i - 1] == nav[i];
      }
    }
    if Contains(nav[1..], breadCrumb) {
      var i :| 0 <= i < |nav[1..]| &&
        (nav[1..][i].link == breadCrumb || (nav[1..][i].sub.Present? && Contains(nav[1..][i].sub.items, breadCrumb)));
      assert nav[i + 1] == nav[1..][i];
    }
  }

  /** `find` returns null exactly when no node anywhere in the tree has the searched link. */
  lemma {:induction false} FindSomeIffContains(nav: seq<NavigationItem>, breadCrumb: string, parentLink: string)
    ensures Find(nav, breadCrumb, parentLink).Some? <==> Contains(nav, breadCrumb)
    decreases nav
  {
    if nav != [] {
      ContainsCons(nav, breadCrumb);
      var item := nav[0];
      if item.sub.Present? {
        FindSomeIffContains(item.sub.items, breadCrumb, Join(parentLink, item.link));
      }
      FindSomeIffContains(nav[1..], breadCrumb, parentLink);
    }
  }

  /**
   * What a successful search returns: some node of the pre-order listing has the searched
   * link, and the crumb carries that node's own icon and accumulated path.
   */
  lemma FindReturnsMatchedItem(nav: seq<NavigationItem>, breadCrumb: string, parentLink: string)
    requires Find(nav, breadCrumb, parentLink).Some?
    ensures exists v | v in Preorder(nav, parentLink) ::
      v.link == breadCrumb && Find(nav, breadCrumb, parentLink).value == Crumb(v.icon, v.path)
  {
    FindIsFirstPreorderMatch(nav, breadCrumb, parentLink);
    var visits := Preorder(nav, parentLink);
    var k :| 0 <= k < |visits| && visits[k].link == breadCrumb
      && Find(nav, breadCrumb, parentLink).value == Crumb(visits[k].icon, visits[k].path);
    assert visits[k] in visits;
  }

  // ---------------------------------------------------------------------------
  // buildBreadCrumbs
  // ---------------------------------------------------------------------------

  /** The breadcrumbs of `slugs`: each slug searched from the root, unresolved slugs dropped. */
  function Resolved(nav: seq<NavigationItem>, slugs: seq<string>): (r: seq<Crumb>)
    decreases |slugs|
    ensures |r| <= |slugs|
  {
    if slugs == [] then []
    else
      var crumb := Find(nav, slugs[|slugs| - 1], "");
      Resolved(nav, slugs[..|slugs| - 1]) + (if crumb.Some? then [crumb.value] else [])
  }

  /** `buildBreadCrumbs(nav, slugs)`: push the crumb of every slug that resolves, in slug order. */
  method BuildBreadCrumbs(nav: seq<NavigationItem>, slugs: seq<string>) returns (breadCrumbs: seq<Crumb>)
    ensures breadCrumbs == Resolved(nav, slugs)
    ensures |breadCrumbs| <= |slugs|
  {
    breadCrumbs := [];
    for i := 0 to |slugs|
      invariant breadCrumbs == Resolved(nav, slugs[..i])
    {
      var crumb := Find(nav, slugs[i], "");
      if crumb.Some? {
        breadCrumbs := breadCrumbs + [crumb.value];
      }
      assert slugs[..i + 1][..i] == slugs[..i];
    }
    assert slugs[..|slugs|] == slugs;
  }

  /** Indices of the slugs that resolve, in increasing order. */
  function ResolvedIndices(nav: seq<NavigationItem>, slugs: seq<string>): (idx: seq<nat>)
    decreases |slugs|
    ensures forall k | 0 <= k < |idx| :: idx[k] < |slugs|
    ensures forall k, l | 0 <= k < l < |idx| :: idx[k] < idx[l]
    ensures forall j | 0 <= j < |slugs| :: Find(nav, slugs[j], "").Some? <==> j in idx
  {
    if slugs == [] then []
    else
      var n := |slugs| - 1;
      var front := ResolvedIndices(nav, slugs[..n]);
      assert forall j | 0 <= j < n :: slugs[..n][j] == slugs[j];
      front + (if Find(nav, slugs[n], "").Some? then [n] else [])
  }

  /**
   * The output is an order-preserving sub-list of the slugs' lookups: its k-th crumb is the
   * lookup of the k-th resolving slug, and exactly the resolving slugs contribute.
   */
  lemma {:induction false} ResolvedIsOrderedSubsequence(nav: seq<NavigationItem>, slugs: seq<string>)
    ensures |Resolved(nav, slugs)| == |ResolvedIndices(nav, slugs)|
    ensures forall k | 0 <= k < |Resolved(nav, slugs)| ::
      Find(nav, slugs[ResolvedIndices(nav, slugs)[k]], "") == Some(Resolved(nav, slugs)[k])
    decreases |slugs|
  {
    if slugs != [] {
      var n := |slugs| - 1;
      ResolvedIsOrderedSubsequence(nav, slugs[..n]);
      var front, idx := Resolved(nav, slugs[..n]), ResolvedIndices(nav, slugs[..n]);
      var crumb := Find(nav, slugs[n], "");
      var r := Resolved(nav, slugs);
      var all := ResolvedIndices(nav, slugs);
      assert r == front + (if crumb.Some? then [crumb.value] else []);
      assert all == idx + (if crumb.Some? then [n] else []);
      forall k | 0 <= k < |r|
        ensures Find(nav, slugs[all[k]], "") == Some(r[k])
      {
        if k < |front| {
          assert r[k] == front[k] && all[k] == idx[k];
          assert slugs[idx[k]] == slugs[..n][idx[k]];
        }
      }
    }
  }

  /** Each slug is searched from the root independently: resolving a concatenation concatenates. */
  lemma {:induction false} ResolvedAppend(nav: seq<NavigationItem>, a: seq<string>, b: seq<string>)
    ensures Resolved(nav, a + b) == Resolved(nav, a) + Resolved(nav, b)
    decreases |b|
  {
    if b == [] {
      assert a + b == a;
    } else {
      var n := |b| - 1;
      assert (a + b)[..|a + b| - 1] == a + b[..n];
      ResolvedAppend(nav, a, b[..n]);
    }
  }

  /** An empty navigation resolves no slug. */
  lemma {:induction false} EmptyNavResolvesNothing(slugs: seq<string>)
    ensures Resolved([], slugs) == []
    decreases |slugs|
  {
    if slugs != [] {
      EmptyNavResolvesNothing(slugs[..|slugs| - 1]);
    }
  }

  /** Every slug resolves exactly when the output is as long as the input. */
  lemma {:induction false} ResolvedAllIff(nav: seq<NavigationItem>, slugs: seq<string>)
    ensures |Resolved(nav, slugs)| == |slugs| <==> forall j | 0 <= j < |slugs| :: Find(nav, slugs[j], "").Some?
    decreases |slugs|
  {
    if slugs != [] {
      var n := |slugs| - 1;
      ResolvedAllIff(nav, slugs[..n]);
      assert forall j | 0 <= j < n :: slugs[..n][j] == slugs[j];
    }
  }

  /** A two-level menu: `about`, and `blog` with the child `hello`. */
  function ExampleNav(): seq<NavigationItem> {
    [NavigationItem("a", "about", Absent),
     NavigationItem("b", "blog", Present([NavigationItem("p", "hello", Absent)]))]
  }

  lemma ExampleFinds()
    ensures Find(ExampleNav(), "blog", "") == Some(Crumb("b", "blog"))
    ensures Find(ExampleNav(), "hello", "") == Some(Crumb("p", "blog/hello"))
  {
    var nav := ExampleNav();
    assert Find(nav[1..], "blog", "") == Some(Crumb("b", "blog"));
    assert Join("blog", "hello") == "blog/hello";
    assert Find(nav[1].sub.items, "hello", "blog") == Some(Crumb("p", "blog/hello"));
    assert Find(nav[1..], "hello", "") == Some(Crumb("p", "blog/hello"));
  }

  lemma ExampleMisses()
    ensures Find(ExampleNav(), "missing", "") == None
  {
    var nav := ExampleNav();
    FindSomeIffContains(nav, "missing", "");
    ContainsCons(nav, "missing");
    ContainsCons(nav[1..], "missing");
    ContainsCons(nav[1].sub.items, "missing");
    assert nav[1..][1..] == [] && nav[1].sub.items[1..] == [];
  }

  /** `blog/hello` resolves through its parent, an unknown segment is dropped. */
  lemma BlogPostExample()
    ensures Resolved(ExampleNav(), ["blog", "hello", "missing"])
         == [Crumb("b", "blog"), Crumb("p", "blog/hello")]
  {
    ExampleFinds();
    ExampleMisses();
    var slugs := ["blog", "hello", "missing"];
    assert slugs[..2] == ["blog", "hello"] && slugs[..2][..1] == ["blog"] && slugs[..2][..1][..0] == [];
  }
}
