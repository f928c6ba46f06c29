/** Form descriptors: one per `<form>` below a container, each listing its
    `input`, `select` and `textarea` fields in document order, with each
    field's label resolved by a fixed priority chain. */
module Forms {
  import opened Common
  import opened Strings
  import opened Seqs
  import opened Dom

  datatype InputField = InputField(
    kind: string,
    name: Option<string>,
    id: Option<string>,
    required: bool,
    placeholder: Option<string>,
    labelText: Option<string>)

  datatype Form = Form(
    name: Option<string>,
    id: Option<string>,
    httpMethod: string,
    action: string,
    inputs: seq<InputField>)

  const FieldTags: set<string> := {"input", "select", "textarea"}

  /** A `<label>` whose `for` attribute is exactly `id`. */
  predicate IsLabelFor(n: Node, id: string) {
    IsTagIn(n, {"label"}) && Attr(n, "for") == Some(id)
  }

  /** Position `i` of `ls` holds the first label for `id`. */
  predicate FirstLabelAt(ls: seq<Loc>, id: string, i: int) {
    0 <= i < |ls| && IsLabelFor(ls[i].node, id) && forall j :: 0 <= j < i ==> !IsLabelFor(ls[j].node, id)
  }

  /** `soup.find('label', {'for': id})`: the first such label in the whole
      document. */
  function LabelFor(doc: Node, id: string): (r: Option<Loc>)
    ensures r.Some? ==> IsLabelFor(r.value.node, id)
    ensures r.None? <==> forall d :: d in Descendants(doc, []) ==> !IsLabelFor(d.node, id)
    ensures r.Some? ==> exists i :: FirstLabelAt(Descendants(doc, []), id, i) && Descendants(doc, [])[i] == r.value
  {
    var ds := Descendants(doc, []);
    var f := (x: Loc) => IsLabelFor(x.node, id);
    var r := FindFirst(ds, f);
    assert r.Some? ==> exists i :: FirstLabelAt(ds, id, i) && ds[i] == r.value by {
      if r.Some? {
        var i :| 0 <= i < |ds| && ds[i] == r.value && f(ds[i]) && forall j :: 0 <= j < i ==> !f(ds[j]);
        assert FirstLabelAt(ds, id, i);
      }
    }
    r
  }

  /** The aria-label source applies. */
  predicate ByAria(l: Loc) {
    HasValue(l.node, "aria-label")
  }

  /** The `<label for=id>` source applies. */
  predicate ByLabelFor(doc: Node, l: Loc) {
    HasValue(l.node, "id") && LabelFor(doc, Attr(l.node, "id").value).Some?
  }

  /** The enclosing-label source: the label's text with every occurrence
      of the field's own text removed, then stripped. When the field has no
      text, or its text does not occur in the label's, this is just the
      stripped label text; otherwise the text before the leftmost
      occurrence is kept, and the removal carries on after it. */
  function TextWithout(labelText: string, own: string): (r: string)
    ensures |r| <= |labelText|
    ensures EdgesClean(r)
    ensures own == [] || !Occurs(labelText, own) ==> r == Strip(labelText)
    ensures own != [] && Occurs(labelText, own) ==>
              exists i :: && LeftmostAt(labelText, own, i)
                          && r == Strip(labelText[..i] + RemoveAll(labelText[i + |own|..], own))
  {
    if own != [] && Occurs(labelText, own) then
      RemoveAllLeftmost(labelText, own);
      Strip(RemoveAll(labelText, own))
    else
      Strip(RemoveAll(labelText, own))
  }

  /** `find_input_label`. In priority order: a non-empty aria-label; the
      text of the first `<label>` whose `for` is the field's non-empty id;
      the text of the nearest enclosing `<label>` with the field's own text
      removed, then stripped; otherwise nothing. */
  function FindInputLabel(doc: Node, l: Loc): (r: Option<string>)
    ensures ByAria(l) ==> r == Attr(l.node, "aria-label")
    ensures !ByAria(l) && ByLabelFor(doc, l) ==>
              r == Some(GetText(LabelFor(doc, Attr(l.node, "id").value).value.node))
    ensures !ByAria(l) && !ByLabelFor(doc, l) && FindParent(doc, l, {"label"}).Some? ==>
              r == Some(TextWithout(GetText(FindParent(doc, l, {"label"}).value.node), GetText(l.node)))
    ensures r.None? <==> !ByAria(l) && !ByLabelFor(doc, l) && FindParent(doc, l, {"label"}).None?
  {
    if ByAria(l) then Attr(l.node, "aria-label")
    else if ByLabelFor(doc, l) then Some(GetText(LabelFor(doc, Attr(l.node, "id").value).value.node))
    else match FindParent(doc, l, {"label"})
      case Some(p) => Some(TextWithout(GetText(p.node), GetText(l.node)))
      case None => None
  }

  /** One field of a form, as `parse_forms` records it. */
  function ParseInput(doc: Node, l: Loc): (r: InputField)
    ensures Attr(l.node, "type").None? ==> r.kind == "text"
    ensures Attr(l.node, "type").Some? ==> r.kind == Attr(l.node, "type").value
    ensures r.required <==> Attr(l.node, "required").Some?
    ensures r.name == Attr(l.node, "name") && r.id == Attr(l.node, "id")
    ensures r.placeholder == Attr(l.node, "placeholder")
    ensures r.labelText == FindInputLabel(doc, l)
  {
    InputField(
      AttrOr(l.node, "type", "text"),
      Attr(l.node, "name"),
      Attr(l.node, "id"),
      Attr(l.node, "required").Some?,
      Attr(l.node, "placeholder"),
      FindInputLabel(doc, l))
  }

  /** One form: method defaults to "get", the action is resolved against
      the page URL, and the fields are listed in document order. */
  function ParseForm(doc: Node, l: Loc, resolve: string -> string): (r: Form)
    ensures Attr(l.node, "method").None? ==> r.httpMethod == "get"
    ensures Attr(l.node, "method").Some? ==> r.httpMethod == Attr(l.node, "method").value
    ensures r.name == Attr(l.node, "name") && r.id == Attr(l.node, "id")
    ensures r.action == resolve(AttrOr(l.node, "action", ""))
    ensures var fields := FindAll(l, FieldTags);
            |r.inputs| == |fields| && forall i :: 0 <= i < |fields| ==> r.inputs[i] == ParseInput(doc, fields[i])
  {
    var fields := FindAll(l, FieldTags);
    Form(
      Attr(l.node, "name"),
      Attr(l.node, "id"),
      AttrOr(l.node, "method", "get"),
      resolve(AttrOr(l.node, "action", "")),
      seq(|fields|, i requires 0 <= i < |fields| => ParseInput(doc, fields[i])))
  }

  /** `parse_forms(container)`: one descriptor per `<form>` below the
      container, in document order. */
  function ParseForms(doc: Node, container: Loc, resolve: string -> string): (r: seq<Form>)
    ensures var forms := FindAll(container, {"form"});
            |r| == |forms| && forall i :: 0 <= i < |forms| ==> r[i] == ParseForm(doc, forms[i], resolve)
  {
    var forms := FindAll(container, {"form"});
    seq(|forms|, i requires 0 <= i < |forms| => ParseForm(doc, forms[i], resolve))
  }
}
