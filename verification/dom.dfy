/** The parsed document as an immutable tree, and the tree queries the
    parser makes of it: pre-order descendant search (`find`, `find_all`,
    `select`), nearest-ancestor search (`find_parent`), attribute lookup
    and `get_text(strip=True)`. */
module Dom {
  import opened Common
  import opened Strings
  import opened Seqs

  /** A document node. `class` is held apart from the other attributes
      because the markup parser returns it as a list of words; every other
      attribute the parser reads is a single string (an attribute written
      without a value, like `required`, holds the empty string). */
  datatype Node =
    | Text(content: string)
    | Element(tag: string, attrs: map<string, string>, classes: Option<seq<string>>, children: seq<Node>)

  /** Child indices leading from the document root to a node. */
  type Path = seq<nat>

  /** A node together with where it sits in the document. */
  datatype Loc = Loc(node: Node, path: Path)

  /** The document root as a location. */
  function Root(doc: Node): Loc {
    Loc(doc, [])
  }

  /** The strict descendants of `n` (found at `at`) in document order. */
  function Descendants(n: Node, at: Path): (r: seq<Loc>)
    ensures forall i :: 0 <= i < |r| ==> |r[i].path| > |at| && r[i].path[..|at|] == at
    decreases n, 1
  {
    match n
    case Text(_) => []
    case Element(_, _, _, cs) => ChildDescendants(cs, at, 0)
  }

  /** The children `cs` (numbered from `next`) and their descendants. */
  function ChildDescendants(cs: seq<Node>, at: Path, next: nat): (r: seq<Loc>)
    ensures forall i :: 0 <= i < |r| ==> |r[i].path| > |at| && r[i].path[..|at|] == at
    decreases cs, 0
  {
    if cs == [] then []
    else
      var here := at + [next];
      var below := Descendants(cs[0], here);
      assert forall i :: 0 <= i < |below| ==> below[i].path[..|at|] == at by {
        forall i | 0 <= i < |below| ensures below[i].path[..|at|] == at {
          assert below[i].path[..|at|] == below[i].path[..|here|][..|at|];
        }
      }
      [Loc(cs[0], here)] + below + ChildDescendants(cs[1..], at, next + 1)
  }

  /** The proper ancestors of the node at path `p` below `n` (found at
      `at`), nearest first; the outermost is `n` itself. */
  function Ancestors(n: Node, p: Path, at: Path): (r: seq<Loc>)
    ensures p != [] ==> r != [] && r[|r| - 1] == Loc(n, at)
    decreases |p|
  {
    if p == [] then []
    else
      var inner :=
        match n
        case Element(_, _, _, cs) => if p[0] < |cs| then Ancestors(cs[p[0]], p[1..], at + [p[0]]) else []
        case Text(_) => [];
      inner + [Loc(n, at)]
  }

  /** `p` leads from `n` through existing children. */
  predicate ValidPath(n: Node, p: Path)
    decreases |p|
  {
    p == [] || (n.Element? && p[0] < |n.children| && ValidPath(n.children[p[0]], p[1..]))
  }

  /** Along a valid path the ancestors run nearest first: the `k`-th one
      sits at the path cut short by `k + 1` steps, so there is one per
      step and the last is `n` itself. */
  lemma {:induction false} AncestorsNearestFirst(n: Node, p: Path, at: Path)
    requires ValidPath(n, p)
    ensures |Ancestors(n, p, at)| == |p|
    ensures forall k :: 0 <= k < |p| ==> Ancestors(n, p, at)[k].path == at + p[..|p| - 1 - k]
    decreases |p|
  {
    if p != [] {
      var c := n.children[p[0]];
      var inner := Ancestors(c, p[1..], at + [p[0]]);
      AncestorsNearestFirst(c, p[1..], at + [p[0]]);
      var r := Ancestors(n, p, at);
      assert r == inner + [Loc(n, at)];
      forall k | 0 <= k < |p| ensures r[k].path == at + p[..|p| - 1 - k] {
        if k < |p| - 1 {
          assert p[..|p| - 1 - k] == [p[0]] + p[1..][..|p| - 2 - k];
          assert r[k] == inner[k];
        } else {
          assert p[..0] == [] && at + [] == at;
        }
      }
    }
  }

  /** `element.parents`, ending with the document root. */
  function Parents(doc: Node, l: Loc): seq<Loc> {
    Ancestors(doc, l.path, [])
  }

  predicate IsTagIn(n: Node, names: set<string>) {
    n.Element? && n.tag in names
  }

  /** `container.find_all(names)`. */
  function FindAll(l: Loc, names: set<string>): (r: seq<Loc>)
    ensures forall i :: 0 <= i < |r| ==> IsTagIn(r[i].node, names)
  {
    Filter(Descendants(l.node, l.path), (x: Loc) => IsTagIn(x.node, names))
  }

  /** `find_all` keeps document order: its results are the descendants
      carrying one of the tag names, at increasing pre-order positions,
      none skipped. */
  lemma FindAllInDocumentOrder(l: Loc, names: set<string>)
    ensures var ds := Descendants(l.node, l.path);
            exists idx: seq<nat> :: PicksAt(ds, FindAll(l, names), idx) && forall k :: 0 <= k < |ds| ==> (IsTagIn(ds[k].node, names) <==> k in idx)
  {
    var ds, f := Descendants(l.node, l.path), (x: Loc) => IsTagIn(x.node, names);
    FilterKeepsOrder(ds, f);
    var idx :| KeptAt(ds, f, Filter(ds, f), idx);
    assert FindAll(l, names) == Filter(ds, f);
    assert PicksAt(ds, FindAll(l, names), idx);
    forall k | 0 <= k < |ds| ensures IsTagIn(ds[k].node, names) <==> k in idx {
      assert IsTagIn(ds[k].node, names) <==> f(ds[k]);
    }
    assert exists idx: seq<nat> :: PicksAt(ds, FindAll(l, names), idx) && forall k :: 0 <= k < |ds| ==> (IsTagIn(ds[k].node, names) <==> k in idx);
    assert ds == Descendants(l.node, l.path);
  }

  /** `container.find(names)`. */
  function Find(l: Loc, names: set<string>): (r: Option<Loc>)
    ensures r.Some? ==> IsTagIn(r.value.node, names)
    ensures r.None? <==> forall d :: d in Descendants(l.node, l.path) ==> !IsTagIn(d.node, names)
  {
    FindFirst(Descendants(l.node, l.path), (x: Loc) => IsTagIn(x.node, names))
  }

  /** Position `i` of `ls` is the first to carry one of the tag names. */
  predicate FirstTagAt(ls: seq<Loc>, names: set<string>, i: int) {
    0 <= i < |ls| && IsTagIn(ls[i].node, names) && forall j :: 0 <= j < i ==> !IsTagIn(ls[j].node, names)
  }

  /** A first match found by `FindFirst` is the first location carrying
      one of the tag names. */
  lemma FirstTaggedAt(ls: seq<Loc>, names: set<string>)
    ensures var r := FindFirst(ls, (x: Loc) => IsTagIn(x.node, names));
            r.Some? ==> exists i :: FirstTagAt(ls, names, i) && ls[i] == r.value
  {
    var f := (x: Loc) => IsTagIn(x.node, names);
    var r := FindFirst(ls, f);
    if r.Some? {
      var i :| 0 <= i < |ls| && ls[i] == r.value && f(ls[i]) && forall j :: 0 <= j < i ==> !f(ls[j]);
      assert FirstTagAt(ls, names, i);
    }
  }

  /** `find` returns the first descendant, in document order, carrying
      one of the tag names. */
  lemma FindIsFirst(l: Loc, names: set<string>)
    ensures Find(l, names).Some? ==>
              exists i :: FirstTagAt(Descendants(l.node, l.path), names, i) && Descendants(l.node, l.path)[i] == Find(l, names).value
  {
    FirstTaggedAt(Descendants(l.node, l.path), names);
  }

  /** `find` is `find_all` cut to its first match. */
  lemma FindIsFirstOfFindAll(l: Loc, names: set<string>)
    ensures Find(l, names) == if FindAll(l, names) == [] then None else Some(FindAll(l, names)[0])
  {
    FindFirstIsFilterHead(Descendants(l.node, l.path), (x: Loc) => IsTagIn(x.node, names));
  }

  /** `element.find_parent(names)`. */
  function FindParent(doc: Node, l: Loc, names: set<string>): (r: Option<Loc>)
    ensures r.Some? ==> IsTagIn(r.value.node, names)
    ensures r.None? <==> !HasAncestor(doc, l, names)
  {
    FindFirst(Parents(doc, l), (x: Loc) => IsTagIn(x.node, names))
  }

  /** `find_parent` returns the nearest enclosing element carrying one of
      the tag names: `.parents` runs nearest first. */
  lemma FindParentIsNearest(doc: Node, l: Loc, names: set<string>)
    ensures FindParent(doc, l, names).Some? ==>
              exists i :: FirstTagAt(Parents(doc, l), names, i) && Parents(doc, l)[i] == FindParent(doc, l, names).value
  {
    FirstTaggedAt(Parents(doc, l), names);
  }

  /** Some enclosing element carries one of the tag names. */
  predicate HasAncestor(doc: Node, l: Loc, names: set<string>) {
    exists a :: a in Parents(doc, l) && IsTagIn(a.node, names)
  }

  /** `element.get(key)`. */
  function Attr(n: Node, key: string): Option<string> {
    if n.Element? && key in n.attrs then Some(n.attrs[key]) else None
  }

  /** `element.get(key, default)`. */
  function AttrOr(n: Node, key: string, default: string): string {
    Attr(n, key).GetOr(default)
  }

  /** `element.get(key)` is present and non-empty (truthy). */
  predicate HasValue(n: Node, key: string) {
    Attr(n, key).Some? && Attr(n, key).value != ""
  }

  /** `element.get_text(strip=True)`: every text node below, stripped, in
      document order. No piece has whitespace at its ends, so neither has
      the whole. */
  function GetText(n: Node): (r: string)
    ensures EdgesClean(r)
    decreases n, 1
  {
    match n
    case Text(s) => Strip(s)
    case Element(_, _, _, cs) => ChildrenText(cs)
  }

  function ChildrenText(cs: seq<Node>): (r: string)
    ensures EdgesClean(r)
    decreases cs, 0
  {
    if cs == [] then []
    else
      var r := GetText(cs[0]) + ChildrenText(cs[1..]);
      EdgesCleanAppend(GetText(cs[0]), ChildrenText(cs[1..]));
      r
  }

  /** The stripped content of a text node; nothing for an element. */
  function OwnText(l: Loc): string {
    if l.node.Text? then Strip(l.node.content) else []
  }

  /** The stripped contents of the text nodes among `ls`, joined in order. */
  function StrippedTexts(ls: seq<Loc>): string {
    if ls == [] then [] else OwnText(ls[0]) + StrippedTexts(ls[1..])
  }

  lemma {:induction false} StrippedTextsAppend(a: seq<Loc>, b: seq<Loc>)
    ensures StrippedTexts(a + b) == StrippedTexts(a) + StrippedTexts(b)
  {
    if a != [] {
      assert (a + b)[0] == a[0] && (a + b)[1..] == a[1..] + b;
      StrippedTextsAppend(a[1..], b);
      AppendAssoc(OwnText(a[0]), StrippedTexts(a[1..]), StrippedTexts(b));
    } else {
      assert a + b == b;
    }
  }

  lemma AppendAssoc(x: string, y: string, z: string)
    ensures x + (y + z) == (x + y) + z
  {
  }

  /** The text of an element is the concatenation, in document order, of
      the stripped text nodes among its descendants; a text node's is its
      own content, stripped. */
  lemma {:induction false} GetTextOfDescendants(n: Node, at: Path)
    ensures n.Text? ==> GetText(n) == Strip(n.content)
    ensures n.Element? ==> GetText(n) == StrippedTexts(Descendants(n, at))
    decreases n, 1
  {
    if n.Element? {
      ChildrenTextOfDescendants(n.children, at, 0);
    }
  }

  lemma {:induction false} ChildrenTextOfDescendants(cs: seq<Node>, at: Path, next: nat)
    ensures ChildrenText(cs) == StrippedTexts(ChildDescendants(cs, at, next))
    decreases cs, 0
  {
    if cs != [] {
      var here := at + [next];
      var c := cs[0];
      GetTextOfDescendants(c, here);
      ChildrenTextOfDescendants(cs[1..], at, next + 1);
      var own, below, rest := [Loc(c, here)], Descendants(c, here), ChildDescendants(cs[1..], at, next + 1);
      StrippedTextsAppend(own, below);
      StrippedTextsAppend(own + below, rest);
      assert StrippedTexts(own) == OwnText(Loc(c, here));
      assert c.Text? ==> below == [];
    }
  }

  /** `tag.string`: the one string below a chain of only children, as it
      stands in the document (not stripped). When there is one, the tag's
      stripped text is that string stripped. */
  function StringOf(n: Node): (r: Option<string>)
    ensures n.Text? ==> r == Some(n.content)
    ensures n.Element? && |n.children| == 1 ==> r == StringOf(n.children[0])
    ensures n.Element? && |n.children| != 1 ==> r.None?
    ensures r.Some? ==> GetText(n) == Strip(r.value)
  {
    match n
    case Text(s) => Some(s)
    case Element(_, _, _, cs) =>
      if |cs| == 1 then
        var r := StringOf(cs[0]);
        assert ChildrenText(cs) == GetText(cs[0]) + ChildrenText(cs[1..]);
        r
      else None
  }
}
