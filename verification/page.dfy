/** The whole-page analysis: interactive elements first, then the page's
    structure (title, main content, navigation, forms), then the action
    catalogue and the possible tasks. */
module Page {
  import opened Common
  import opened Seqs
  import opened Dom
  import opened Purpose
  import opened Forms
  import opened Navigation
  import opened Content
  import opened Elements
  import opened Catalog
  import opened Tasks

  datatype MainContent = MainContent(headings: seq<Heading>, sections: seq<PageSection>)

  datatype Structure = Structure(
    title: Option<string>,
    mainContent: MainContent,
    navigation: seq<NavBlock>,
    forms: seq<Form>)

  datatype Understanding = Understanding(actions: seq<Bucket>, structure: Structure, tasks: seq<Task>)

  /** `soup.title.string`: the string of the first `<title>` element, if
      there is one and it holds a single string. */
  function Title(doc: Node): (r: Option<string>)
    ensures FindAll(Root(doc), {"title"}) == [] ==> r.None?
    ensures FindAll(Root(doc), {"title"}) != [] ==> r == StringOf(FindAll(Root(doc), {"title"})[0].node)
  {
    FindIsFirstOfFindAll(Root(doc), {"title"});
    match Find(Root(doc), {"title"})
    case None => None
    case Some(t) => StringOf(t.node)
  }

  /** `soup.find('main') or soup.find('body')`: the first `<main>` of the
      document, else its first `<body>`. A found element is always truthy,
      so an empty `<main>` still wins. */
  function ContentRoot(doc: Node): (r: Option<Loc>)
    ensures var mains := FindAll(Root(doc), {"main"});
            var bodies := FindAll(Root(doc), {"body"});
            && (r.None? <==> mains == [] && bodies == [])
            && (mains != [] ==> r == Some(mains[0]))
            && (mains == [] && bodies != [] ==> r == Some(bodies[0]))
  {
    FindIsFirstOfFindAll(Root(doc), {"main"});
    FindIsFirstOfFindAll(Root(doc), {"body"});
    match Find(Root(doc), {"main"})
    case Some(m) => Some(m)
    case None => Find(Root(doc), {"body"})
  }

  /** `m` holds the headings below `root` and one section per region
      below it, in document order. */
  predicate DescribesContent(doc: Node, root: Loc, m: MainContent, resolve: string -> string) {
    var regions := Filter(FindAll(root, ContainerTags), IsRegion);
    && m.headings == ExtractHeadingHierarchy(root)
    && |m.sections| == |regions|
    && forall i :: 0 <= i < |regions| ==> m.sections[i] == SectionOf(doc, regions[i], resolve)
  }

  /** `s` is the page structure: the title, the main content of the
      content root, the navigation blocks and the forms of the document. */
  predicate DescribesStructure(doc: Node, s: Structure, resolve: string -> string) {
    && ContentRoot(doc).Some?
    && s.title == Title(doc)
    && DescribesContent(doc, ContentRoot(doc).value, s.mainContent, resolve)
    && s.navigation == ParseNavigation(doc, resolve)
    && s.forms == ParseForms(doc, Root(doc), resolve)
  }

  /** `parse_main_content`: the headings and sections of the content root.
      Without a `<main>` or `<body>` the source dereferences None. */
  method ParseMainContent(doc: Node, resolve: string -> string) returns (r: Result<MainContent>)
    ensures r.Err? <==> ContentRoot(doc).None?
    ensures r.Err? ==> r.fault == NoContentRoot
    ensures r.Ok? ==> DescribesContent(doc, ContentRoot(doc).value, r.value, resolve)
  {
    match ContentRoot(doc)
    case None =>
      return Err(NoContentRoot);
    case Some(root) =>
      var sections := ExtractSections(doc, root, resolve);
      return Ok(MainContent(ExtractHeadingHierarchy(root), sections));
  }

  /** `build_semantic_hierarchy`: title, main content, navigation blocks
      and the forms of the whole document. */
  method BuildSemanticHierarchy(doc: Node, resolve: string -> string) returns (r: Result<Structure>)
    ensures r.Err? <==> ContentRoot(doc).None?
    ensures r.Err? ==> r.fault == NoContentRoot
    ensures r.Ok? ==> DescribesStructure(doc, r.value, resolve)
  {
    var main :- ParseMainContent(doc, resolve);
    return Ok(Structure(Title(doc), main, ParseNavigation(doc, resolve), ParseForms(doc, Root(doc), resolve)));
  }

  /** The analysis records, as purpose, what `purposeOf` says of the
      element alone. */
  ghost predicate PurposeFromNode(analyze: Loc -> Result<ElementSemantics>, purposeOf: Node -> Result<string>) {
    forall l :: analyze(l).Ok? ==> purposeOf(l.node) == Ok(analyze(l).value.purpose)
  }

  /** Every listed purpose is the purpose of some candidate. */
  lemma ListedIsCandidate(cands: seq<Loc>, analyze: Loc -> Result<ElementSemantics>, purposeOf: Node -> Result<string>,
                          entries: seq<Entry>, k: int)
    requires Store(cands, analyze) == Ok(entries) && PurposeFromNode(analyze, purposeOf)
    requires 0 <= k < |entries|
    ensures exists i :: 0 <= i < |cands| && purposeOf(cands[i].node) == Ok(entries[k].semantics.purpose)
  {
    StoreLastWins(cands, analyze);
    var i :| LastAt(cands, entries[k].element, i) && analyze(cands[i]) == Ok(entries[k].semantics);
    assert purposeOf(cands[i].node) == Ok(entries[k].semantics.purpose);
  }

  /** Every candidate's purpose is listed: its element has an entry,
      holding the analysis of an equal element, and purpose depends on the
      element alone. */
  lemma CandidateIsListed(cands: seq<Loc>, analyze: Loc -> Result<ElementSemantics>, purposeOf: Node -> Result<string>,
                          entries: seq<Entry>, i: int, p: string)
    requires Store(cands, analyze) == Ok(entries) && PurposeFromNode(analyze, purposeOf)
    requires 0 <= i < |cands| && purposeOf(cands[i].node) == Ok(p)
    ensures p in EntryPurposes(entries)
  {
    StoreKeys(cands, analyze);
    StoreLastWins(cands, analyze);
    var x := cands[i].node;
    assert NodesOf(cands)[i] == x;
    DedupMembers(NodesOf(cands), x);
    var k :| 0 <= k < |entries| && KeysOf(entries)[k] == x;
    var j :| LastAt(cands, entries[k].element, j) && analyze(cands[j]) == Ok(entries[k].semantics);
    assert purposeOf(cands[j].node) == Ok(entries[k].semantics.purpose);
    assert EntryPurposes(entries)[k] == p;
  }

  /** A purpose is listed among the stored entries exactly when some
      candidate element has that purpose. Equal elements share one entry,
      but overwriting an entry never changes its purpose. */
  lemma PurposeListedIffCandidate(cands: seq<Loc>, analyze: Loc -> Result<ElementSemantics>, purposeOf: Node -> Result<string>,
                                  entries: seq<Entry>, p: string)
    requires Store(cands, analyze) == Ok(entries) && PurposeFromNode(analyze, purposeOf)
    ensures p in EntryPurposes(entries) <==> exists i :: 0 <= i < |cands| && purposeOf(cands[i].node) == Ok(p)
  {
    if p in EntryPurposes(entries) {
      var k :| 0 <= k < |entries| && EntryPurposes(entries)[k] == p;
      ListedIsCandidate(cands, analyze, purposeOf, entries, k);
    }
    if exists i :: 0 <= i < |cands| && purposeOf(cands[i].node) == Ok(p) {
      var i :| 0 <= i < |cands| && purposeOf(cands[i].node) == Ok(p);
      CandidateIsListed(cands, analyze, purposeOf, entries, i, p);
    }
  }

  /** AnalyzeElement records InferPurpose of the element as its purpose. */
  lemma AnalyzerPurpose(doc: Node, resolve: string -> string)
    ensures PurposeFromNode(Analyzer(doc, resolve), InferPurpose)
  {
    forall l | Analyzer(doc, resolve)(l).Ok?
      ensures InferPurpose(l.node) == Ok(Analyzer(doc, resolve)(l).value.purpose)
    {
      assert Analyzer(doc, resolve)(l) == AnalyzeElement(doc, l, resolve);
    }
  }

  /** `parse_webpage` on a parsed document: the interactive elements are
      identified first, so their faults take precedence; then the page
      structure is built; then the catalogue and the tasks are derived. */
  method ParseWebpage(doc: Node, resolve: string -> string) returns (r: Result<Understanding>)
    ensures var stored := Store(Candidates(doc), Analyzer(doc, resolve));
            && (r.Err? <==> stored.Err? || ContentRoot(doc).None?)
            && (stored.Err? ==> r == Err(stored.fault))
            && (stored.Ok? && ContentRoot(doc).None? ==> r == Err(NoContentRoot))
            && (r.Ok? ==> r.value.actions == Group(stored.value))
    ensures r.Ok? ==> DescribesStructure(doc, r.value.structure, resolve)
    ensures r.Ok? ==> FormsThenNavs(ParseForms(doc, Root(doc), resolve), ParseNavigation(doc, resolve), r.value.tasks)
    ensures r.Ok? ==> (Search in r.value.tasks <==>
                       exists i :: 0 <= i < |Candidates(doc)| && InferPurpose(Candidates(doc)[i].node) == Ok("search"))
  {
    var entries :- IdentifyInteractiveElements(doc, resolve);
    var structure :- BuildSemanticHierarchy(doc, resolve);
    var actions := GetAvailableActions(entries);
    var tasks := IdentifyPossibleTasks(ParseForms(doc, Root(doc), resolve), ParseNavigation(doc, resolve), actions);
    BucketsNonEmpty(entries, "search");
    AnalyzerPurpose(doc, resolve);
    PurposeListedIffCandidate(Candidates(doc), Analyzer(doc, resolve), InferPurpose, entries, "search");
    return Ok(Understanding(actions, structure, tasks));
  }
}
