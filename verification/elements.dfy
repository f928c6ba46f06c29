/** Element classification: which elements are interactive, and for each
    its type, purpose, position on the page and accessibility attributes. */
module Elements {
  import opened Common
  import opened Seqs
  import opened Dom
  import opened Purpose
  import opened Content

  /** Where an element sits: the nearest heading text, the name of the
      enclosing named form, whether it is inside `<nav>` or a list, and for
      a link its resolved `href`. */
  datatype Context = Context(
    sectionHeading: Option<string>,
    formName: Option<string>,
    inNavigation: bool,
    inList: bool,
    url: Option<string>)

  /** The accessibility attributes, copied unvalidated. */
  datatype AriaInfo = AriaInfo(
    ariaLabel: Option<string>,
    description: Option<string>,
    role: Option<string>,
    labelAttr: Option<string>)

  datatype ElementSemantics = ElementSemantics(
    elementType: string,
    purpose: string,
    context: Context,
    aria: AriaInfo,
    isActionable: bool)

  /** The subtree of ancestor `a` holds a heading. */
  predicate HoldsHeading(a: Loc) {
    Find(a, HeadingTags).Some?
  }

  /** Ancestor `i` is the nearest one whose subtree holds a heading. */
  predicate NearestHoldingHeading(ps: seq<Loc>, i: int) {
    0 <= i < |ps| && HoldsHeading(ps[i]) && forall k :: 0 <= k < i ==> !HoldsHeading(ps[k])
  }

  /** The section heading: climbing from the element, the first ancestor
      whose subtree holds a heading gives the text of its first heading. */
  function NearestHeading(doc: Node, l: Loc): (r: Option<string>)
    ensures r.None? <==> forall i :: 0 <= i < |Parents(doc, l)| ==> !HoldsHeading(Parents(doc, l)[i])
    ensures r.Some? ==> exists i :: NearestHoldingHeading(Parents(doc, l), i)
                                    && r.value == GetText(Find(Parents(doc, l)[i], HeadingTags).value.node)
  {
    var ps := Parents(doc, l);
    match FindFirst(ps, HoldsHeading)
    case None => None
    case Some(a) =>
      var i :| 0 <= i < |ps| && ps[i] == a && HoldsHeading(ps[i]) && forall j :: 0 <= j < i ==> !HoldsHeading(ps[j]);
      assert NearestHoldingHeading(ps, i);
      Some(GetText(Find(a, HeadingTags).value.node))
  }

  /** A `<form>` carrying a `name` attribute (of any value). */
  predicate IsNamedForm(a: Loc) {
    IsTagIn(a.node, {"form"}) && Attr(a.node, "name").Some?
  }

  /** The form name: none outside any form; inside one, the name of the
      nearest ancestor form that has a name; inside forms none of which
      has a name, the lookup dereferences None and raises. */
  function FormName(doc: Node, l: Loc): (r: Result<Option<string>>)
    ensures !HasAncestor(doc, l, {"form"}) <==> r == Ok(None)
    ensures r.Err? <==> HasAncestor(doc, l, {"form"}) && forall a :: a in Parents(doc, l) ==> !IsNamedForm(a)
    ensures r.Err? ==> r.fault == UnnamedForm
    ensures r.Ok? && r.value.Some? ==>
              exists i :: && 0 <= i < |Parents(doc, l)|
                          && IsNamedForm(Parents(doc, l)[i])
                          && (forall k :: 0 <= k < i ==> !IsNamedForm(Parents(doc, l)[k]))
                          && r.value.value == Attr(Parents(doc, l)[i].node, "name").value
  {
    if FindParent(doc, l, {"form"}).None? then Ok(None)
    else match FindFirst(Parents(doc, l), IsNamedForm)
      case None => Err(UnnamedForm)
      case Some(f) => Ok(Attr(f.node, "name"))
  }

  /** `get_element_context`. */
  function ElementContext(doc: Node, l: Loc, resolve: string -> string): (r: Result<Context>)
    ensures r.Err? <==> FormName(doc, l).Err?
    ensures r.Ok? ==> && r.value.sectionHeading == NearestHeading(doc, l)
                      && r.value.formName == FormName(doc, l).value
                      && (r.value.inNavigation <==> HasAncestor(doc, l, {"nav"}))
                      && (r.value.inList <==> HasAncestor(doc, l, {"ul", "ol"}))
                      && (r.value.url.Some? <==> IsTagIn(l.node, {"a"}))
                      && (r.value.url.Some? ==> r.value.url.value == resolve(AttrOr(l.node, "href", "")))
  {
    var heading := NearestHeading(doc, l);
    var formName :- FormName(doc, l);
    Ok(Context(
      heading,
      formName,
      FindParent(doc, l, {"nav"}).Some?,
      FindParent(doc, l, {"ul", "ol"}).Some?,
      if IsTagIn(l.node, {"a"}) then Some(resolve(AttrOr(l.node, "href", ""))) else None))
  }

  /** `element.name or element.get('role', 'unknown')`: a parsed element
      always has a non-empty name, so its type is its tag; the role, then
      "unknown", are reached only by a nameless node. */
  function ElementType(n: Node): (r: string)
    ensures n.Element? && n.tag != "" ==> r == n.tag
    ensures !(n.Element? && n.tag != "") && Attr(n, "role").Some? ==> r == Attr(n, "role").value
    ensures !(n.Element? && n.tag != "") && Attr(n, "role").None? ==> r == "unknown"
  {
    if n.Element? && n.tag != "" then n.tag else AttrOr(n, "role", "unknown")
  }

  /** The accessibility attributes, read as they are; the `label`
      attribute is read only on an `<input>`. */
  function AriaOf(n: Node): (r: AriaInfo)
    ensures r.ariaLabel == Attr(n, "aria-label") && r.description == Attr(n, "aria-description")
    ensures r.role == Attr(n, "role")
    ensures IsTagIn(n, {"input"}) ==> r.labelAttr == Attr(n, "label")
    ensures !IsTagIn(n, {"input"}) ==> r.labelAttr.None?
  {
    AriaInfo(
      Attr(n, "aria-label"),
      Attr(n, "aria-description"),
      Attr(n, "role"),
      if IsTagIn(n, {"input"}) then Attr(n, "label") else None)
  }

  /** `analyze_element`: the context is computed before the purpose, so a
      context failure is the one reported when both would fail. */
  function AnalyzeElement(doc: Node, l: Loc, resolve: string -> string): (r: Result<ElementSemantics>)
    ensures r.Ok? <==> ElementContext(doc, l, resolve).Ok? && InferPurpose(l.node).Ok?
    ensures ElementContext(doc, l, resolve).Err? ==> r == Err(UnnamedForm)
    ensures ElementContext(doc, l, resolve).Ok? && InferPurpose(l.node).Err? ==> r == Err(SignalIsList)
    ensures r.Ok? ==> && r.value.purpose == InferPurpose(l.node).value
                      && r.value.context == ElementContext(doc, l, resolve).value
                      && r.value.elementType == ElementType(l.node)
                      && r.value.aria == AriaOf(l.node)
                      && r.value.isActionable
  {
    var context := ElementContext(doc, l, resolve);
    var purpose := InferPurpose(l.node);
    if context.Err? then Err(context.fault)
    else if purpose.Err? then Err(purpose.fault)
    else Ok(ElementSemantics(ElementType(l.node), purpose.value, context.value, AriaOf(l.node), true))
  }

  /** One CSS selector of the candidate list: a tag name, or an exact
      `role` attribute value. */
  datatype Selector = ByTag(name: string) | ByRole(role: string)

  const Selectors: seq<Selector> := [
    ByTag("button"), ByTag("input"), ByTag("a"), ByTag("select"),
    ByRole("button"), ByRole("link"), ByRole("menuitem"), ByTag("form")
  ]

  predicate Selects(sel: Selector, n: Node) {
    match sel
    case ByTag(t) => IsTagIn(n, {t})
    case ByRole(role) => n.Element? && Attr(n, "role") == Some(role)
  }

  /** `soup.select(selector)`: matching elements in document order. */
  function Select(doc: Node, sel: Selector): (r: seq<Loc>)
    ensures forall i :: 0 <= i < |r| ==> r[i] in Descendants(doc, []) && Selects(sel, r[i].node)
    ensures forall d :: d in Descendants(doc, []) && Selects(sel, d.node) ==> d in r
  {
    Filter(Descendants(doc, []), (x: Loc) => Selects(sel, x.node))
  }

  /** `select` keeps document order: its matches are the selected
      elements at increasing pre-order positions, none skipped. */
  lemma SelectInDocumentOrder(doc: Node, sel: Selector)
    ensures var ds := Descendants(doc, []);
            exists idx: seq<nat> :: PicksAt(ds, Select(doc, sel), idx) && forall k :: 0 <= k < |ds| ==> (Selects(sel, ds[k].node) <==> k in idx)
  {
    var ds, f := Descendants(doc, []), (x: Loc) => Selects(sel, x.node);
    FilterKeepsOrder(ds, f);
    var idx :| KeptAt(ds, f, Filter(ds, f), idx);
    assert Select(doc, sel) == Filter(ds, f);
    assert PicksAt(ds, Select(doc, sel), idx);
    forall k | 0 <= k < |ds| ensures Selects(sel, ds[k].node) <==> k in idx {
      assert Selects(sel, ds[k].node) <==> f(ds[k]);
    }
    assert exists idx: seq<nat> :: PicksAt(ds, Select(doc, sel), idx) && forall k :: 0 <= k < |ds| ==> (Selects(sel, ds[k].node) <==> k in idx);
    assert ds == Descendants(doc, []);
  }

  /** Every selector's matches, selector by selector. */
  function CandidatesFrom(doc: Node, sels: seq<Selector>): seq<Loc> {
    if sels == [] then [] else Select(doc, sels[0]) + CandidatesFrom(doc, sels[1..])
  }

  /** An element is a candidate exactly when it is in the document and
      some selector picks it. */
  lemma {:induction false} CandidateIffSelected(doc: Node, sels: seq<Selector>, d: Loc)
    ensures d in CandidatesFrom(doc, sels) <==>
              d in Descendants(doc, []) && exists k :: 0 <= k < |sels| && Selects(sels[k], d.node)
    decreases |sels|
  {
    if sels != [] {
      CandidateIffSelected(doc, sels[1..], d);
      if d in Descendants(doc, []) && exists k :: 0 <= k < |sels| && Selects(sels[k], d.node) {
        var k :| 0 <= k < |sels| && Selects(sels[k], d.node);
        if k > 0 {
          assert Selects(sels[1..][k - 1], d.node);
        }
      }
      if exists k :: 0 <= k < |sels[1..]| && Selects(sels[1..][k], d.node) {
        var k :| 0 <= k < |sels[1..]| && Selects(sels[1..][k], d.node);
        assert Selects(sels[k + 1], d.node);
      }
    }
  }

  function Candidates(doc: Node): seq<Loc> {
    CandidatesFrom(doc, Selectors)
  }

  /** One entry of the `actionable_elements` dictionary. Its key is the
      element itself, compared by value (same tag, attributes and
      contents), so equal elements at different places share one entry. */
  datatype Entry = Entry(element: Node, semantics: ElementSemantics)

  function KeysOf(entries: seq<Entry>): (r: seq<Node>)
    ensures |r| == |entries| && forall i :: 0 <= i < |entries| ==> r[i] == entries[i].element
  {
    seq(|entries|, i requires 0 <= i < |entries| => entries[i].element)
  }

  function NodesOf(ls: seq<Loc>): (r: seq<Node>)
    ensures |r| == |ls| && forall i :: 0 <= i < |ls| ==> r[i] == ls[i].node
  {
    seq(|ls|, i requires 0 <= i < |ls| => ls[i].node)
  }

  lemma NodesOfSnoc(ls: seq<Loc>, i: int)
    requires 0 <= i < |ls|
    ensures NodesOf(ls[..i + 1]) == NodesOf(ls[..i]) + [ls[i].node]
  {
    assert ls[..i + 1] == ls[..i] + [ls[i]];
  }

  /** `d[key] = value` on an insertion-ordered dictionary: an existing key
      keeps its position and takes the new value, a new key goes last. */
  function Upsert(entries: seq<Entry>, e: Entry): (r: seq<Entry>)
    requires Distinct(KeysOf(entries))
    ensures Distinct(KeysOf(r))
    ensures KeysOf(r) == if e.element in KeysOf(entries) then KeysOf(entries) else KeysOf(entries) + [e.element]
    ensures forall i :: 0 <= i < |r| ==> r[i] == if r[i].element == e.element then e else entries[i]
  {
    var replaced := seq(|entries|, i requires 0 <= i < |entries| =>
                      if entries[i].element == e.element then e else entries[i]);
    assert KeysOf(replaced) == KeysOf(entries);
    if e.element in KeysOf(entries) then replaced
    else
      assert KeysOf(replaced + [e]) == KeysOf(entries) + [e.element];
      replaced + [e]
  }

  /** Candidate `i` is the last one equal to `key`. */
  predicate LastAt(cands: seq<Loc>, key: Node, i: int) {
    0 <= i < |cands| && cands[i].node == key && forall j :: i < j < |cands| ==> cands[j].node != key
  }

  /** Storing one more element keeps the keys equal to the deduplicated
      sequence of elements seen so far. */
  lemma UpsertKeys(entries: seq<Entry>, seen: seq<Node>, e: Entry)
    requires Distinct(KeysOf(entries)) && KeysOf(entries) == Dedup(seen)
    ensures KeysOf(Upsert(entries, e)) == Dedup(seen + [e.element])
  {
    DedupSnoc(seen, e.element);
    DedupMembers(seen, e.element);
  }

  /** The dictionary after analysing `cands` in order and storing each
      analysis under its element, aborting at the first failure. This is
      the reference definition the loop of IdentifyInteractiveElements is
      proved against. */
  function Store(cands: seq<Loc>, analyze: Loc -> Result<ElementSemantics>): (r: Result<seq<Entry>>)
    ensures r.Ok? ==> Distinct(KeysOf(r.value))
    decreases |cands|
  {
    if cands == [] then Ok([])
    else
      var prev :- Store(cands[..|cands| - 1], analyze);
      var sem :- analyze(cands[|cands| - 1]);
      Ok(Upsert(prev, Entry(cands[|cands| - 1].node, sem)))
  }

  lemma StoreSnoc(cands: seq<Loc>, l: Loc, analyze: Loc -> Result<ElementSemantics>)
    ensures Store(cands + [l], analyze) ==
              match Store(cands, analyze)
              case Err(f) => Err(f)
              case Ok(prev) =>
                match analyze(l)
                case Err(f) => Err(f)
                case Ok(sem) => Ok(Upsert(prev, Entry(l.node, sem)))
  {
    assert (cands + [l])[..|cands + [l]| - 1] == cands;
  }

  /** Once a prefix has failed, later candidates change nothing. */
  lemma {:induction false} StoreAborts(cands: seq<Loc>, i: nat, analyze: Loc -> Result<ElementSemantics>)
    requires i <= |cands| && Store(cands[..i], analyze).Err?
    ensures Store(cands, analyze) == Store(cands[..i], analyze)
    decreases |cands| - i
  {
    if i < |cands| {
      StoreSnoc(cands[..i], cands[i], analyze);
      assert cands[..i + 1] == cands[..i] + [cands[i]];
      StoreAborts(cands, i + 1, analyze);
    } else {
      assert cands[..i] == cands;
    }
  }

  /** Candidate `i` is the first whose analysis fails. */
  predicate FirstFailure(cands: seq<Loc>, analyze: Loc -> Result<ElementSemantics>, i: int) {
    && 0 <= i < |cands|
    && analyze(cands[i]).Err?
    && forall j :: 0 <= j < i ==> analyze(cands[j]).Ok?
  }

  /** The store fails exactly when some analysis fails, and then with the
      fault of the first failing candidate. */
  lemma {:induction false} StoreFails(cands: seq<Loc>, analyze: Loc -> Result<ElementSemantics>)
    ensures Store(cands, analyze).Err? <==> exists i :: 0 <= i < |cands| && analyze(cands[i]).Err?
    ensures Store(cands, analyze).Err? ==>
              exists i :: FirstFailure(cands, analyze, i) && Store(cands, analyze).fault == analyze(cands[i]).fault
    decreases |cands|
  {
    if cands != [] {
      var front := cands[..|cands| - 1];
      var last := cands[|cands| - 1];
      assert cands == front + [last];
      StoreSnoc(front, last, analyze);
      StoreFails(front, analyze);
      if Store(front, analyze).Err? {
        var i :| FirstFailure(front, analyze, i) && Store(front, analyze).fault == analyze(front[i]).fault;
        assert FirstFailure(cands, analyze, i);
      } else if analyze(last).Err? {
        assert FirstFailure(cands, analyze, |cands| - 1);
      } else {
        forall i | 0 <= i < |cands| ensures analyze(cands[i]).Ok? {
          if i < |front| { assert cands[i] == front[i]; }
        }
      }
    }
  }

  /** A successful store has one key per distinct candidate element, in
      order of first encounter. */
  lemma {:induction false} StoreKeys(cands: seq<Loc>, analyze: Loc -> Result<ElementSemantics>)
    ensures Store(cands, analyze).Ok? ==> KeysOf(Store(cands, analyze).value) == Dedup(NodesOf(cands))
    decreases |cands|
  {
    if cands == [] {
      assert NodesOf(cands) == [];
    } else {
      var front := cands[..|cands| - 1];
      var last := cands[|cands| - 1];
      assert cands == front + [last];
      StoreSnoc(front, last, analyze);
      StoreKeys(front, analyze);
      if Store(cands, analyze).Ok? {
        NodesOfSnoc(cands, |cands| - 1);
        assert cands[..|cands|] == cands;
        UpsertKeys(Store(front, analyze).value, NodesOf(front), Entry(last.node, analyze(last).value));
      }
    }
  }

  /** In a successful store every entry holds the analysis of the last
      candidate equal to its key. */
  lemma {:induction false} StoreLastWins(cands: seq<Loc>, analyze: Loc -> Result<ElementSemantics>)
    ensures Store(cands, analyze).Ok? ==>
              var entries := Store(cands, analyze).value;
              forall k :: 0 <= k < |entries| ==>
                exists i :: LastAt(cands, entries[k].element, i) && analyze(cands[i]) == Ok(entries[k].semantics)
    decreases |cands|
  {
    if cands != [] && Store(cands, analyze).Ok? {
      var front := cands[..|cands| - 1];
      var last := cands[|cands| - 1];
      assert cands == front + [last];
      StoreSnoc(front, last, analyze);
      StoreLastWins(front, analyze);
      LastWinsStep(front, last, cands, Store(front, analyze).value, Store(cands, analyze).value, analyze);
    }
  }

  /** Upserting the analysis of one more candidate keeps every entry the
      analysis of the last candidate equal to its key. */
  lemma {:induction false} LastWinsStep(front: seq<Loc>, last: Loc, cands: seq<Loc>, before: seq<Entry>, after: seq<Entry>,
                      analyze: Loc -> Result<ElementSemantics>)
    requires cands == front + [last]
    requires Distinct(KeysOf(before)) && analyze(last).Ok?
    requires after == Upsert(before, Entry(last.node, analyze(last).value))
    requires forall k :: 0 <= k < |before| ==>
               exists i :: LastAt(front, before[k].element, i) && analyze(front[i]) == Ok(before[k].semantics)
    ensures forall k :: 0 <= k < |after| ==>
              exists i :: LastAt(cands, after[k].element, i) && analyze(cands[i]) == Ok(after[k].semantics)
  {
    var sem := analyze(last).value;
    forall k | 0 <= k < |after|
      ensures exists i :: LastAt(cands, after[k].element, i) && analyze(cands[i]) == Ok(after[k].semantics)
    {
      if after[k].element == last.node {
        assert after[k] == Entry(last.node, sem);
        assert LastAt(cands, after[k].element, |cands| - 1);
      } else {
        assert after[k] == before[k];
        var i :| LastAt(front, before[k].element, i) && analyze(front[i]) == Ok(before[k].semantics);
        assert cands[i] == front[i];
        assert LastAt(cands, after[k].element, i);
      }
    }
    assert forall k :: 0 <= k < |after| ==>
              exists i :: LastAt(cands, after[k].element, i) && analyze(cands[i]) == Ok(after[k].semantics);
  }

  /** The dictionary-building loop of `identify_interactive_elements`:
      every candidate is analysed in order, the first failure aborts, and
      each analysis is stored under its element (`is_actionable` is always
      set, see AnalyzeElement). */
  method StoreAll(cands: seq<Loc>, analyze: Loc -> Result<ElementSemantics>) returns (r: Result<seq<Entry>>)
    ensures r == Store(cands, analyze)
  {
    var entries: seq<Entry> := [];
    assert cands[..0] == [];
    for i := 0 to |cands|
      invariant Store(cands[..i], analyze) == Ok(entries)
    {
      StoreSnoc(cands[..i], cands[i], analyze);
      assert cands[..i + 1] == cands[..i] + [cands[i]];
      var sem := analyze(cands[i]);
      if sem.Err? {
        StoreAborts(cands, i + 1, analyze);
        return Err(sem.fault);
      }
      entries := Upsert(entries, Entry(cands[i].node, sem.value));
    }
    assert cands[..|cands|] == cands;
    r := Ok(entries);
  }

  /** AnalyzeElement as a function of the element alone. */
  function Analyzer(doc: Node, resolve: string -> string): (f: Loc -> Result<ElementSemantics>)
    ensures forall l :: f(l) == AnalyzeElement(doc, l, resolve)
  {
    l => AnalyzeElement(doc, l, resolve)
  }

  /** `identify_interactive_elements`: the candidates are the matches of
      each selector in turn, in document order within a selector, and each
      is analysed by AnalyzeElement. */
  method IdentifyInteractiveElements(doc: Node, resolve: string -> string) returns (r: Result<seq<Entry>>)
    ensures r == Store(Candidates(doc), Analyzer(doc, resolve))
  {
    r := StoreAll(Candidates(doc), Analyzer(doc, resolve));
  }
}
