/** Navigation blocks: one per navigation element of the page, listing its
    links and where on the page it sits. */
module Navigation {
  import opened Common
  import opened Dom

  datatype NavItem = NavItem(text: string, url: string)

  datatype NavBlock = NavBlock(items: seq<NavItem>, ariaLabel: Option<string>, location: string)

  /** The names handed to `find_all`. The second is a CSS attribute
      selector, but `find_all` compares it with tag names, so it only ever
      matches an element literally named that; the parser never produces
      one, and in effect only `<nav>` elements are found. */
  const NavNames: set<string> := {"nav", "[role=\"navigation\"]"}

  /** Where a navigation block sits: "header" under a `<header>`, else
      "footer" under a `<footer>`, else "other"; header wins if both. */
  function Location(doc: Node, l: Loc): (r: string)
    ensures r == "header" <==> HasAncestor(doc, l, {"header"})
    ensures r == "footer" <==> !HasAncestor(doc, l, {"header"}) && HasAncestor(doc, l, {"footer"})
    ensures r == "other" <==> !HasAncestor(doc, l, {"header"}) && !HasAncestor(doc, l, {"footer"})
  {
    if FindParent(doc, l, {"header"}).Some? then "header"
    else if FindParent(doc, l, {"footer"}).Some? then "footer"
    else "other"
  }

  /** One link of a block: its text and its resolved `href`. */
  function NavItemOf(l: Loc, resolve: string -> string): NavItem {
    NavItem(GetText(l.node), resolve(AttrOr(l.node, "href", "")))
  }

  /** One block: every `<a>` below the element, in document order. */
  function ParseNav(doc: Node, l: Loc, resolve: string -> string): (r: NavBlock)
    ensures var links := FindAll(l, {"a"});
            |r.items| == |links| && forall i :: 0 <= i < |links| ==> r.items[i] == NavItemOf(links[i], resolve)
    ensures r.ariaLabel == Attr(l.node, "aria-label")
    ensures r.location == Location(doc, l) && r.location in {"header", "footer", "other"}
  {
    var links := FindAll(l, {"a"});
    NavBlock(
      seq(|links|, i requires 0 <= i < |links| => NavItemOf(links[i], resolve)),
      Attr(l.node, "aria-label"),
      Location(doc, l))
  }

  /** `parse_navigation`: one block per navigation element of the page,
      in document order. */
  function ParseNavigation(doc: Node, resolve: string -> string): (r: seq<NavBlock>)
    ensures var navs := FindAll(Root(doc), NavNames);
            |r| == |navs| && forall i :: 0 <= i < |navs| ==> r[i] == ParseNav(doc, navs[i], resolve)
  {
    var navs := FindAll(Root(doc), NavNames);
    seq(|navs|, i requires 0 <= i < |navs| => ParseNav(doc, navs[i], resolve))
  }

  /** A page whose only navigation landmark is a `<div role="navigation">`
      yields no navigation block. */
  lemma RoleNavigationNotFound(doc: Node, resolve: string -> string)
    requires doc == Element("[document]", map[], None, [Element("div", map["role" := "navigation"], None, [])])
    ensures ParseNavigation(doc, resolve) == []
  {
    var div := doc.children[0];
    assert Descendants(div, [0]) == [];
    assert Descendants(doc, []) == [Loc(div, [0])];
    assert !IsTagIn(div, NavNames);
  }

  /** The parents of a first grandchild: its parent, then the root. */
  lemma GrandchildParents(doc: Node, mid: Node, leaf: Node)
    requires doc.Element? && |doc.children| > 0 && doc.children[0] == mid
    requires mid.Element? && |mid.children| > 0 && mid.children[0] == leaf
    ensures Parents(doc, Loc(leaf, [0, 0])) == [Loc(mid, [0]), Loc(doc, [])]
  {
    assert [0, 0][1..] == [0] && [0][1..] == [];
    var top: Path := [];
    assert top + [0] == [0] && [0] + [0] == [0, 0];
    assert Ancestors(mid, [0], [0]) == Ancestors(leaf, [], [0, 0]) + [Loc(mid, [0])];
  }

  /** A `<nav>` inside a `<footer>` is located in the footer. */
  lemma NavInFooter(doc: Node, nav: Node)
    requires nav == Element("nav", map[], None, [])
    requires doc == Element("[document]", map[], None, [Element("footer", map[], None, [nav])])
    ensures Location(doc, Loc(nav, [0, 0])) == "footer"
  {
    var footer := doc.children[0];
    GrandchildParents(doc, footer, nav);
    var ps := Parents(doc, Loc(nav, [0, 0]));
    assert ps[0] == Loc(footer, [0]) && IsTagIn(footer, {"footer"});
    assert !IsTagIn(ps[0].node, {"header"}) && !IsTagIn(ps[1].node, {"header"});
  }
}
