# Webpage semantic parser, modelled in Dafny

This project models `WebpageSemanticParser`, a Python class that reads a parsed
HTML document and describes what a visitor can do on the page:

- the interactive elements, each with an inferred purpose ("submit",
  "search", …) and its context (nearest heading, enclosing form, inside a
  navigation block or a list, link target);
- the page structure: title, main-content headings and region sections,
  navigation blocks and form descriptors;
- an action catalogue, which groups the elements by purpose;
- the possible tasks: submitting each form, following each navigation block,
  and searching.

The document is an immutable tree (`Dom.Node`):

- a text node;
- or an element with a tag, an attribute map, an optional class-word list and
  children.

An element is addressed by its path of child indices from the root
(`Dom.Loc`). That path gives BeautifulSoup's navigation:

- `find_all` is a pre-order walk of the descendants;
- `find` takes the first match;
- `.parents` is the ancestors, nearest first, ending with the document root.

Every operation is a pure function or a method. Where the source
accumulates in a loop (storing the interactive elements, grouping the
catalogue, collecting the sections), the method's loop mirrors it and is
proved equal to a recursive or filter-based reference definition. The task
list is characterised position by position instead. The page-level methods
have no loop of their own and only compose the other operations.

Modules follow the parser's structure:

| module | covers |
|---|---|
| `Common` | `Option`, `Result` and the parser's exceptions (`Fault`) |
| `Seqs` | order-preserving filter, first match, first-occurrence deduplication |
| `Strings` | `str.strip()`, substring search, `str.replace(x, '')`, `' '.join`, prefix slicing, ASCII case-insensitive search |
| `Dom` | the tree, `find_all`, `find`, `find_parent`, `.get`, `get_text(strip=True)`, `.string` |
| `Purpose` | the two ordered first-match tables: element purpose and section purpose |
| `Forms` | form and input descriptors and the label priority chain |
| `Navigation` | navigation blocks and their location |
| `Content` | heading hierarchy and region sections |
| `Elements` | element context, element analysis and the dictionary of interactive elements |
| `Catalog` | the action catalogue (grouping by purpose) |
| `Tasks` | the task list |
| `Page` | `build_semantic_hierarchy` and `parse_webpage` on a parsed document |

## Behaviour modelled as the code has it

Where the code raises an exception on some documents, the model returns
`Err(fault)` instead of a value:

- **`SignalIsList`.** `infer_purpose` hands the `class` value to `re.search`
  without joining it (webpage_semantic_parser.py:117, 136). BeautifulSoup
  returns `class` as a list, so `re.search` raises.
  - This happens only when no earlier string signal matched and the element
    has at least one class word.
  - `infer_section_purpose` does join the list (webpage_semantic_parser.py:230-231).
- **`UnnamedForm`.** `form_name` dereferences `find_parent('form', {'name': True})`
  without checking it (webpage_semantic_parser.py:153). An element inside
  forms, none of which has a `name` attribute, makes it raise.
- **`NoContentRoot`.** Without a `<main>` or `<body>`, `parse_main_content`
  calls `find_all` on `None` (webpage_semantic_parser.py:170-174). One
  might expect such a page to give empty content instead. The code raises,
  and the model follows the code.

`parse_webpage` identifies the interactive elements before building the
structure, so an element fault takes precedence over `NoContentRoot`.

Other behaviour kept as written:

- `find_all(['nav', '[role="navigation"]'])` compares the second string with
  tag names, so only `<nav>` elements are found. `Navigation.RoleNavigationNotFound`
  shows this for a `<div role="navigation">`.
- `form.get('name', 'Unknown Form')` never uses its default, because the form
  descriptor always has a `name` key. A form task's name is the form's `name`
  attribute, or None.
- `is_actionable` is never set, so it is always true and every analysed
  element is stored.
- `required` counts as set when the attribute is present, whatever its value.
- The dictionary of interactive elements is keyed by the elements
  themselves, not by their positions. Two elements with the same tag,
  attributes (written in the same order; see "## Left out") and contents
  share one entry: the entry keeps the first one's
  position and holds the last one's analysis (`Elements.StoreKeys`,
  `Elements.StoreLastWins`). Keys are therefore `Node` values.
- `element.name or element.get('role', 'unknown')` always takes the tag name,
  because a parsed element always has a non-empty name.

## Model

| member | source | states |
|---|---|---|
| Purpose.FirstMatch | webpage_semantic_parser.py:134-137 | On string signals, the result is the purpose of the first (signal, rule) pair that matches: earlier signals first, then table order. It is None exactly when no signal matches any rule. |
| Purpose.ScanSignals | webpage_semantic_parser.py:119-139 | The scan over the truthy signals: "unknown" when none decides; the first deciding string gives its first matching rule; a deciding class list raises. Any label it returns comes from the table. |
| Purpose.ScanOfStrings | webpage_semantic_parser.py:119-137 | Dropping empty strings first changes nothing, because no rule word is empty; on string signals the scan equals the first-match search. |
| Purpose.ActionScan | webpage_semantic_parser.py:110-139 | The element's seven signals decide by the first match among its six string signals. Failing that, a non-empty class list raises; otherwise the purpose is "unknown". |
| Purpose.InferPurpose | webpage_semantic_parser.py:108-139 | The purpose is one of the ten listed labels or "unknown". It is "unknown" exactly when no string signal matches and the element has no class words, and it raises exactly when no string signal matches but class words are present. |
| Purpose.FirstPairDecides | webpage_semantic_parser.py:134-137 | Whenever rule j is the first to match signal i and no earlier signal matches any rule, that rule's purpose is the result, whatever later signals would match. |
| Purpose.TextSignalWins | webpage_semantic_parser.py:110-137 | If the visible text matches some rule, the first rule it matches decides, whatever the attributes and classes say. |
| Purpose.SaveSearchIsSubmit | webpage_semantic_parser.py:121-137 | "save search" matches both the submit and the search rule, and table order makes it submit. |
| Purpose.DeleteItemIsDelete | webpage_semantic_parser.py:108-139 | A bare anchor reading "Delete item" is a delete control. |
| Purpose.ActionLabelsListed | webpage_semantic_parser.py:121-132 | Every purpose in the element table is one of the ten listed labels. |
| Purpose.InferSectionPurpose | webpage_semantic_parser.py:209-236 | The result is one of the eight section labels or "unknown". It is "unknown" exactly when none of the four signals (joined classes, id, role, first 100 characters of text) matches. Otherwise it is the purpose of the first matching (signal, rule) pair. |
| Purpose.SectionTextPrefixDecides | webpage_semantic_parser.py:211-216 | Two sections that agree on classes, id, role and the first 100 characters of text get the same purpose: text past character 100 never matters. |
| Content.LevelOf | webpage_semantic_parser.py:183 | A heading's level is the digit of its tag, between 1 and 6. |
| Content.ExtractHeadingHierarchy | webpage_semantic_parser.py:177-190 | One record per heading below the container, in document order, with its text, its id and the level its tag spells. |
| Content.RegionQualifies | webpage_semantic_parser.py:195-196 | A found section, article or div becomes a section exactly when its role contains "region". |
| Content.SectionOf | webpage_semantic_parser.py:197-205 | The section has interactive content exactly when some descendant is a button, input, a or select. It has no heading exactly when no descendant is a heading; otherwise the heading is the first heading's text. Its purpose is the section purpose. |
| Content.SectionContentOf | webpage_semantic_parser.py:238-249 | The section's text, one resolved link per `<a>` and one image per `<img>` in document order, and the section's forms. |
| Content.CollectSections | webpage_semantic_parser.py:194-207 | The loop keeps exactly the region containers, in order, one section each. |
| Content.ExtractSections | webpage_semantic_parser.py:192-207 | One section per region container below the root, in document order. |
| Elements.NearestHeading | webpage_semantic_parser.py:143-149 | The section heading is the first heading below the nearest ancestor that has one. It is None exactly when no ancestor has a heading. |
| Elements.FormName | webpage_semantic_parser.py:153 | None outside any form; inside one, the name of the nearest named ancestor form. It raises exactly when the element is inside a form but no ancestor form has a name. |
| Elements.ElementContext | webpage_semantic_parser.py:141-157 | The context fails only through the form name. Its navigation and list flags hold exactly when such an ancestor exists. It has a URL exactly for an `<a>`, namely its resolved `href`. |
| Elements.ElementType | webpage_semantic_parser.py:87 | An element with a name, as every parsed element has, is typed by its tag. Only a nameless node falls back to its role, and without a role to "unknown". |
| Elements.AriaOf | webpage_semantic_parser.py:90-95 | The aria-label, aria-description and role attributes as they are. The `label` attribute is read on an `<input>` only and is None on any other element. |
| Elements.AnalyzeElement | webpage_semantic_parser.py:85-106 | An analysis succeeds exactly when both context and purpose do. A form-name fault is raised before a purpose fault. A successful analysis carries the element type, the inferred purpose, the context and the accessibility attributes, and is actionable. |
| Elements.Select | webpage_semantic_parser.py:72-79 | A selector's matches are exactly the document's elements it picks. |
| Elements.SelectInDocumentOrder | webpage_semantic_parser.py:79 | A selector's matches come in document order: they are the document's elements at increasing pre-order positions, and exactly the positions whose element the selector picks, so none is skipped or repeated. |
| Elements.CandidateIffSelected | webpage_semantic_parser.py:72-80 | An element is a candidate exactly when some selector picks it. |
| Elements.Upsert | webpage_semantic_parser.py:83 | Dictionary assignment: an existing key keeps its place and takes the new value; a new key goes last; keys stay distinct. |
| Elements.UpsertKeys | webpage_semantic_parser.py:83 | One assignment extends the first-occurrence order of the keys seen so far by the new key. |
| Elements.StoreFails | webpage_semantic_parser.py:78-83 | Storing fails exactly when some candidate's analysis fails, and then with the first failing candidate's fault. |
| Elements.StoreAborts | webpage_semantic_parser.py:78-83 | Once storing has failed on a prefix of the candidates, the remaining candidates change nothing. |
| Elements.StoreKeys | webpage_semantic_parser.py:78-83 | The dictionary's keys are the distinct candidate elements, in order of first occurrence. |
| Elements.StoreLastWins | webpage_semantic_parser.py:78-83 | Every entry holds the analysis of the last candidate equal to its key. |
| Elements.StoreAll | webpage_semantic_parser.py:78-83 | The loop equals the recursive store: it aborts at the first failure and otherwise assigns every analysis in order. |
| Elements.IdentifyInteractiveElements | webpage_semantic_parser.py:69-83 | The dictionary is the store of every selector's matches, selector by selector, under the element analysis. |
| Forms.LabelFor | webpage_semantic_parser.py:303 | A label whose `for` equals the id, the first such in document order; None exactly when no label has it. |
| Forms.TextWithout | webpage_semantic_parser.py:310-313 | With nothing to remove, the stripped label text. Otherwise the text before the leftmost occurrence of the input's text, followed by the rest after that occurrence with every further occurrence removed, then stripped. No whitespace at either end. |
| Forms.FindInputLabel | webpage_semantic_parser.py:293-315 | Priority chain: a non-empty aria-label; else the text of the label for a non-empty id; else the enclosing label's text without the input's text; None exactly when none of the three applies. |
| Forms.ParseInput | webpage_semantic_parser.py:280-287 | The type defaults to "text". `required` is set exactly when the attribute is present, whatever its value. Name, id and placeholder are the attributes, and the label comes from the priority chain. |
| Forms.ParseForm | webpage_semantic_parser.py:270-289 | The method defaults to "get" and the action is resolved. There is one input per input, select or textarea below the form, in document order. |
| Forms.ParseForms | webpage_semantic_parser.py:267-291 | One descriptor per form below the container, in document order. |
| Navigation.Location | webpage_semantic_parser.py:262 | "header" exactly when there is a header ancestor; "footer" exactly when there is a footer ancestor and no header ancestor; "other" exactly when there is neither. |
| Navigation.ParseNav | webpage_semantic_parser.py:256-263 | One item per link below the block, in document order; its aria-label; its location is the block's `Location` (header, footer or other by its ancestors). |
| Navigation.ParseNavigation | webpage_semantic_parser.py:251-265 | One block per element named `nav` or `[role="navigation"]`, in document order. |
| Navigation.RoleNavigationNotFound | webpage_semantic_parser.py:253 | A `<div role="navigation">` gives no navigation block. |
| Navigation.NavInFooter | webpage_semantic_parser.py:262 | A `<nav>` inside a `<footer>` is located in the footer. |
| Catalog.AddAction | webpage_semantic_parser.py:322-329 | A new empty bucket for p when p is not yet a key, then an append to p's bucket: the bucket for p grows at its end and keeps its place, or a new bucket goes last; no other bucket changes. |
| Catalog.GroupKeys | webpage_semantic_parser.py:317-331 | One bucket per distinct purpose, in order of first appearance among the entries. |
| Catalog.GroupBuckets | webpage_semantic_parser.py:317-331 | Every bucket holds exactly the summaries of the entries with its purpose, in entry order. |
| Catalog.BucketsNonEmpty | webpage_semantic_parser.py:317-331 | A purpose is a key exactly when some entry has it, and no bucket is empty. |
| Catalog.GroupSizes | webpage_semantic_parser.py:317-331 | The bucket sizes add up to the number of entries. |
| Catalog.GetAvailableActions | webpage_semantic_parser.py:317-331 | The loop builds the grouped catalogue. |
| Tasks.FormTask | webpage_semantic_parser.py:338-344 | The task is named by the form's `name` attribute. Every required name comes from a required input, and every optional name from an optional one. |
| Tasks.FormTaskPartition | webpage_semantic_parser.py:342-343 | Required and optional names together are exactly the form's input names, counted with multiplicity. |
| Tasks.FormTaskOrder | webpage_semantic_parser.py:342-343 | Both lists keep document order: the names from a leading run of inputs come before the rest. |
| Tasks.NavTask | webpage_semantic_parser.py:347-352 | The destinations are the block's item texts in order, at the block's location. |
| Tasks.IdentifyPossibleTasks | webpage_semantic_parser.py:333-362 | Form tasks first, then navigation tasks, then the search task last. The search task is present exactly when "search" is a catalogue key. |
| Page.Title | webpage_semantic_parser.py:162 | The `.string` of the first `<title>`, None without one. |
| Page.ContentRoot | webpage_semantic_parser.py:170 | The first `<main>`, else the first `<body>`; None exactly when there is neither. |
| Page.ParseMainContent | webpage_semantic_parser.py:168-175 | Fails exactly without a content root. Otherwise it gives the root's headings and one section per region container, in document order. |
| Page.BuildSemanticHierarchy | webpage_semantic_parser.py:159-166 | Fails exactly without a content root. Otherwise it gives the title, the main content (the root's headings and one section per region container), the navigation blocks and the document's forms. |
| Page.PurposeListedIffCandidate | webpage_semantic_parser.py:321-323 | A purpose is listed in the stored dictionary exactly when some candidate element has it, although equal elements share one entry. |
| Page.ParseWebpage | webpage_semantic_parser.py:57-67 | Fails exactly when the element analysis or the content root does, with element faults first. On success: the actions are the grouped dictionary; the structure is the title, main content, navigation and forms of the page; the tasks are one per form of the document, then one per navigation block, then at most one more, which can only be the search task; the search task is present exactly when some candidate's purpose is "search". |
| Dom.FindAllInDocumentOrder | webpage_semantic_parser.py:179 | `find_all` returns the descendants in document order: increasing pre-order positions, exactly those whose element carries one of the tags. |
| Dom.Find | webpage_semantic_parser.py:146 | The result carries one of the tags; None exactly when no descendant carries one. |
| Dom.FindIsFirst | webpage_semantic_parser.py:146 | A found element is the first descendant, in document order, carrying one of the tags. |
| Dom.FindIsFirstOfFindAll | webpage_semantic_parser.py:146 | `find` is `find_all` cut to its first match. |
| Dom.FindParent | webpage_semantic_parser.py:153-155 | The result carries one of the tags; None exactly when no ancestor carries one. |
| Dom.FindParentIsNearest | webpage_semantic_parser.py:153-155 | A found element is the nearest ancestor carrying one of the tags. |
| Dom.GetText | webpage_semantic_parser.py:111 | The text has no whitespace at either end, like every stripped piece it is made of. |
| Dom.GetTextOfDescendants | webpage_semantic_parser.py:111 | An element's text is the stripped text nodes among its descendants, joined in document order; a text node's is its content, stripped. |
| Dom.StringOf | webpage_semantic_parser.py:162 | A text node's string is its content as written, not stripped. An element with exactly one child has that child's string, and any other element has None. A found string, stripped, is the element's text. |
| Dom.AncestorsNearestFirst | webpage_semantic_parser.py:145 | Along a valid path, `.parents` has one entry per step, nearest first: the k-th sits at the path cut short by k + 1 steps, and the last is the root. |
| Strings.Join | webpage_semantic_parser.py:231 | No words join to the empty string and one word to itself; otherwise the first word, the separator, then the rest joined. |
| Strings.Strip | webpage_semantic_parser.py:111 | The result is the longest infix that neither starts nor ends with whitespace, with only whitespace around it. |
| Strings.RemoveAll | webpage_semantic_parser.py:313 | Removing a pattern that does not occur, or an empty one, changes nothing. Removing one that occurs shortens the text by at least its length. |
| Strings.RemoveAllLeftmost | webpage_semantic_parser.py:313 | When the pattern occurs, the text before its leftmost occurrence is kept, that occurrence is removed, and the removal carries on after it. |
| Strings.ContainsCIFolds | webpage_semantic_parser.py:136 | A case-insensitive search for a literal word succeeds exactly when the folded word occurs in the folded text. |
| Purpose.RuleMatchesFolded | webpage_semantic_parser.py:136 | A rule's alternation matches a signal exactly when one of its words, folded, occurs in the folded signal; the same search serves line 233. |

## Left out

- Page fetching through Selenium or `requests`, driver setup and teardown, and the wait for `<body>` (webpage_semantic_parser.py:27-55) are I/O and a browser. The model starts from a parsed document.
- HTML parsing by BeautifulSoup is not modelled; the tree is the input.
- CSS selection by `soup.select` is not modelled. The eight selectors of `identify_interactive_elements` are modelled directly: tag-name or exact role-attribute matches.
- BeautifulSoup's handling of comments, scripts and entity decoding inside `get_text` is not modelled; text nodes are taken as given.
- `urljoin` is not modelled. It is a parameter `resolve`, already bound to the page's base URL (the URL-resolution algorithm of section 5.2 of RFC 3986 is outside the model).
- `resolve` is total, so the failure path of `urljoin` is dropped. `urljoin` raises `ValueError` on a malformed bracketed host such as `http://[x`. In the source that aborts `analyze_element` (webpage_semantic_parser.py:156) and with it the whole parse. It also aborts the section, navigation and form extractors (webpage_semantic_parser.py:243, 246, 259, 275). In the model all of these succeed.
- Elements.StoreKeys: keys are compared as `Node` values, where attributes form a map without order. BeautifulSoup hashes a tag by its rendered markup, which depends on attribute order, and compares attributes as a dictionary, which does not. So `<button a="1" b="2">X</button>` and `<button b="2" a="1">X</button>` get two entries in the source and one in the model, and the catalogue sizes differ. Attribute order is not modelled.
- The printing entry points `analyze_webpage` and `main` (webpage_semantic_parser.py:364-383) are not modelled; they only print.
- The crawl engine is not part of this model: the parser file has no crawl code.
- `re.I` folding is modelled for ASCII letters only. Python also folds a few non-ASCII characters onto ASCII (for example U+212A KELVIN SIGN onto "k"); these are left out.
- `str.isspace()` is modelled by the fixed list of Unicode whitespace code points. The list is not derived from the Unicode database.
- Content.LevelOf: requires a heading tag in lowercase. The parser lower-cases tag names, so `int(heading.name[1])` never sees anything else.
- The parser object's state across calls is not modelled. The source keeps `actionable_elements` between calls to `parse_webpage` and leaves it partly filled when an analysis raises. The model describes one call on a fresh parser, and a failing call returns only the fault.
