/** The main content of a page: its heading outline and its content
    regions (`section`, `article` or `div` elements whose role mentions
    "region"). */
module Content {
  import opened Common
  import opened Strings
  import opened Seqs
  import opened Dom
  import opened Purpose
  import opened Forms

  datatype Heading = Heading(text: string, level: int, id: Option<string>)

  datatype Link = Link(text: string, href: string)

  datatype Image = Image(alt: string, src: string)

  datatype SectionContent = SectionContent(text: string, links: seq<Link>, images: seq<Image>, forms: seq<Form>)

  datatype PageSection = PageSection(heading: Option<string>, purpose: string, hasInteractive: bool, content: SectionContent)

  const HeadingTags: set<string> := {"h1", "h2", "h3", "h4", "h5", "h6"}

  const ContainerTags: set<string> := {"section", "article", "div"}

  const InteractiveTags: set<string> := {"button", "input", "a", "select"}

  /** `int(tag[1])` for a heading tag: the level the tag's digit spells. */
  function LevelOf(tag: string): (r: int)
    requires tag in HeadingTags
    ensures 1 <= r <= 6
    ensures tag == ['h', ('0' as int + r) as char]
  {
    tag[1] as int - '0' as int
  }

  function HeadingOf(l: Loc): Heading
    requires IsTagIn(l.node, HeadingTags)
  {
    Heading(GetText(l.node), LevelOf(l.node.tag), Attr(l.node, "id"))
  }

  /** `extract_heading_hierarchy`: every heading below the container, in
      document order, with its text, its level and its id. */
  function ExtractHeadingHierarchy(container: Loc): (r: seq<Heading>)
    ensures var hs := FindAll(container, HeadingTags);
            && |r| == |hs|
            && forall i :: 0 <= i < |hs| ==>
                 && r[i].text == GetText(hs[i].node)
                 && r[i].id == Attr(hs[i].node, "id")
                 && 1 <= r[i].level <= 6
                 && hs[i].node.tag == ['h', ('0' as int + r[i].level) as char]
  {
    var hs := FindAll(container, HeadingTags);
    seq(|hs|, i requires 0 <= i < |hs| => HeadingOf(hs[i]))
  }

  /** `'region' in section.get('role', '')`. */
  predicate IsRegion(l: Loc) {
    Occurs(AttrOr(l.node, "role", ""), "region")
  }

  function LinkOf(l: Loc, resolve: string -> string): Link {
    Link(GetText(l.node), resolve(AttrOr(l.node, "href", "")))
  }

  function ImageOf(l: Loc, resolve: string -> string): Image {
    Image(AttrOr(l.node, "alt", ""), resolve(AttrOr(l.node, "src", "")))
  }

  /** `extract_section_content`: the text, every link and image (in
      document order) and every form below the section. */
  function SectionContentOf(doc: Node, l: Loc, resolve: string -> string): (r: SectionContent)
    ensures r.text == GetText(l.node)
    ensures var links := FindAll(l, {"a"});
            |r.links| == |links| && forall i :: 0 <= i < |links| ==> r.links[i] == LinkOf(links[i], resolve)
    ensures var images := FindAll(l, {"img"});
            |r.images| == |images| && forall i :: 0 <= i < |images| ==> r.images[i] == ImageOf(images[i], resolve)
    ensures r.forms == ParseForms(doc, l, resolve)
  {
    var links := FindAll(l, {"a"});
    var images := FindAll(l, {"img"});
    SectionContent(
      GetText(l.node),
      seq(|links|, i requires 0 <= i < |links| => LinkOf(links[i], resolve)),
      seq(|images|, i requires 0 <= i < |images| => ImageOf(images[i], resolve)),
      ParseForms(doc, l, resolve))
  }

  /** One region as a page section. */
  function SectionOf(doc: Node, l: Loc, resolve: string -> string): (r: PageSection)
    ensures r.hasInteractive <==> exists d :: d in Descendants(l.node, l.path) && IsTagIn(d.node, InteractiveTags)
    ensures r.heading.None? <==> forall d :: d in Descendants(l.node, l.path) ==> !IsTagIn(d.node, HeadingTags)
    ensures r.heading.Some? ==> r.heading.value == GetText(Find(l, HeadingTags).value.node)
    ensures r.purpose == InferSectionPurpose(l.node)
    ensures r.content == SectionContentOf(doc, l, resolve)
  {
    var heading := Find(l, HeadingTags);
    PageSection(
      if heading.Some? then Some(GetText(heading.value.node)) else None,
      InferSectionPurpose(l.node),
      Find(l, InteractiveTags).Some?,
      SectionContentOf(doc, l, resolve))
  }

  /** One section per region, in order. */
  function SectionsOf(regions: seq<Loc>, section: Loc -> PageSection): (r: seq<PageSection>)
    ensures |r| == |regions| && forall i :: 0 <= i < |regions| ==> r[i] == section(regions[i])
  {
    seq(|regions|, i requires 0 <= i < |regions| => section(regions[i]))
  }

  /** The loop of `extract_sections` over the found containers, with the
      section builder as a parameter: keeps the containers whose role
      mentions "region", in order. */
  method CollectSections(found: seq<Loc>, section: Loc -> PageSection) returns (sections: seq<PageSection>)
    ensures sections == SectionsOf(Filter(found, IsRegion), section)
  {
    sections := [];
    for i := 0 to |found|
      invariant sections == SectionsOf(Filter(found[..i], IsRegion), section)
    {
      assert found[..i + 1] == found[..i] + [found[i]];
      FilterSnoc(found[..i], found[i], IsRegion);
      if IsRegion(found[i]) {
        sections := sections + [section(found[i])];
      }
    }
    assert found[..|found|] == found;
  }

  /** `extract_sections`: the containers below `container` whose role
      mentions "region", each as a section, in document order. */
  method ExtractSections(doc: Node, container: Loc, resolve: string -> string) returns (sections: seq<PageSection>)
    ensures var regions := Filter(FindAll(container, ContainerTags), IsRegion);
            |sections| == |regions| && forall i :: 0 <= i < |regions| ==> sections[i] == SectionOf(doc, regions[i], resolve)
  {
    sections := CollectSections(FindAll(container, ContainerTags), l => SectionOf(doc, l, resolve));
  }

  /** A container yields a section exactly when its role mentions
      "region". */
  lemma RegionQualifies(container: Loc, l: Loc)
    requires l in FindAll(container, ContainerTags)
    ensures l in Filter(FindAll(container, ContainerTags), IsRegion) <==> IsRegion(l)
  {
    var found := FindAll(container, ContainerTags);
    var k :| 0 <= k < |found| && found[k] == l;
    var regions := Filter(found, IsRegion);
    if l in regions {
      var j :| 0 <= j < |regions| && regions[j] == l;
    }
  }
}
