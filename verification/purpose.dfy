/** Purpose inference: ordered tables of (purpose, words) rules, tried
    against an ordered list of signals; the first signal/rule pair that
    matches decides. Each rule's pattern is an alternation of literal
    words searched case-insensitively, so a rule matches a signal exactly
    when one of its words occurs in it, ignoring case. */
module Purpose {
  import opened Common
  import opened Strings
  import opened Dom

  datatype Rule = Rule(purpose: string, words: seq<string>)

  /** `re.search(pattern, s, re.I)` for the rule's alternation. */
  predicate RuleMatches(r: Rule, s: string) {
    exists w | w in r.words :: ContainsCI(s, w)
  }

  /** A rule matches a signal exactly when, after case folding, one of its
      words occurs in the signal. */
  lemma RuleMatchesFolded(r: Rule, s: string)
    ensures RuleMatches(r, s) <==> exists w :: w in r.words && Occurs(Fold(s), Fold(w))
  {
    forall w | w in r.words ensures ContainsCI(s, w) <==> Occurs(Fold(s), Fold(w)) {
      ContainsCIFolds(s, w);
    }
  }

  const Unknown: string := "unknown"

  /** The element table, in the order the dictionary literal lists it. */
  const ActionRules: seq<Rule> := [
    Rule("submit", ["submit", "send", "save", "confirm", "ok", "apply"]),
    Rule("search", ["search", "find", "lookup"]),
    Rule("navigate", ["menu", "nav", "go to", "link"]),
    Rule("delete", ["delete", "remove", "clear"]),
    Rule("edit", ["edit", "modify", "change", "update"]),
    Rule("form", ["form", "input", "enter"]),
    Rule("login", ["login", "sign in", "signin"]),
    Rule("register", ["register", "sign up", "signup"]),
    Rule("download", ["download", "export", "get"]),
    Rule("upload", ["upload", "import", "attach"])
  ]

  const ActionLabels: set<string> :=
    {"submit", "search", "navigate", "delete", "edit", "form", "login", "register", "download", "upload"}

  /** The section table, in the order the dictionary literal lists it. */
  const SectionRules: seq<Rule> := [
    Rule("header", ["header", "banner", "top"]),
    Rule("footer", ["footer", "bottom"]),
    Rule("sidebar", ["sidebar", "aside"]),
    Rule("main", ["main", "content", "article"]),
    Rule("navigation", ["nav", "menu"]),
    Rule("search", ["search"]),
    Rule("login", ["login", "signin"]),
    Rule("form", ["form", "contact"])
  ]

  const SectionLabels: set<string> :=
    {"header", "footer", "sidebar", "main", "navigation", "search", "login", "form"}

  function Labels(rules: seq<Rule>): set<string> {
    set r | r in rules :: r.purpose
  }

  /** No rule of the table matches `s`. */
  predicate NoRule(rules: seq<Rule>, s: string) {
    forall j :: 0 <= j < |rules| ==> !RuleMatches(rules[j], s)
  }

  /** Rule `j` is the first rule of the table that matches `s`. */
  predicate FirstRuleAt(rules: seq<Rule>, s: string, j: int) {
    && 0 <= j < |rules|
    && RuleMatches(rules[j], s)
    && forall k :: 0 <= k < j ==> !RuleMatches(rules[k], s)
  }

  /** The label of the first rule matching one signal. */
  function FirstRule(rules: seq<Rule>, s: string): (r: Option<string>)
    ensures r.None? <==> NoRule(rules, s)
    ensures r.Some? ==> exists j :: FirstRuleAt(rules, s, j) && rules[j].purpose == r.value
    ensures r.Some? ==> r.value in Labels(rules)
    decreases |rules|
  {
    if rules == [] then None
    else if RuleMatches(rules[0], s) then
      assert FirstRuleAt(rules, s, 0);
      Some(rules[0].purpose)
    else
      var r := FirstRule(rules[1..], s);
      if r.Some? then
        var j :| FirstRuleAt(rules[1..], s, j) && rules[1..][j].purpose == r.value;
        assert FirstRuleAt(rules, s, j + 1);
        r
      else
        r
  }

  /** Signal `i` is the first one any rule matches, and rule `j` the first
      rule that matches it. */
  predicate FirstPair(signals: seq<string>, rules: seq<Rule>, i: int, j: int) {
    && 0 <= i < |signals|
    && FirstRuleAt(rules, signals[i], j)
    && forall k :: 0 <= k < i ==> NoRule(rules, signals[k])
  }

  /** Signals tried in order, rules tried in order for each signal; the
      first pair that matches gives the label. */
  function FirstMatch(signals: seq<string>, rules: seq<Rule>): (r: Option<string>)
    ensures r.None? <==> forall i :: 0 <= i < |signals| ==> NoRule(rules, signals[i])
    ensures r.Some? ==> exists i, j :: FirstPair(signals, rules, i, j) && rules[j].purpose == r.value
    ensures r.Some? ==> r.value in Labels(rules)
    decreases |signals|
  {
    if signals == [] then None
    else
      var here := FirstRule(rules, signals[0]);
      if here.Some? then
        var j :| FirstRuleAt(rules, signals[0], j) && rules[j].purpose == here.value;
        assert FirstPair(signals, rules, 0, j);
        here
      else
        var r := FirstMatch(signals[1..], rules);
        if r.Some? then
          var i, j :| FirstPair(signals[1..], rules, i, j) && rules[j].purpose == r.value;
          assert FirstPair(signals, rules, i + 1, j);
          r
        else
          assert forall i :: 0 <= i < |signals| ==> NoRule(rules, signals[i]) by {
            forall i | 0 <= i < |signals| ensures NoRule(rules, signals[i]) {
              if i > 0 { assert signals[i] == signals[1..][i - 1]; }
            }
          }
          r
  }

  /** One signal as `element.get(...)` hands it over: absent, a string,
      or (for `class`) a list of words. */
  datatype Signal = Absent | Str(text: string) | Words(items: seq<string>)

  /** Python truthiness: absent, `''` and `[]` are dropped. */
  predicate Truthy(sig: Signal) {
    match sig
    case Absent => false
    case Str(t) => t != ""
    case Words(ws) => ws != []
  }

  /** The scan stops at this signal: it is a string some rule matches, or
      a list, which `re.search` rejects with a TypeError. */
  predicate Decides(sig: Signal, rules: seq<Rule>) {
    Truthy(sig) && (sig.Words? || !NoRule(rules, sig.text))
  }

  predicate FirstDecisive(signals: seq<Signal>, rules: seq<Rule>, i: int) {
    && 0 <= i < |signals|
    && Decides(signals[i], rules)
    && forall k :: 0 <= k < i ==> !Decides(signals[k], rules)
  }

  /** The element scan: falsy signals are dropped, then each remaining one
      is tried against every rule in order. */
  function ScanSignals(signals: seq<Signal>, rules: seq<Rule>): (r: Result<string>)
    ensures (forall i :: 0 <= i < |signals| ==> !Decides(signals[i], rules)) ==> r == Ok(Unknown)
    ensures forall i :: FirstDecisive(signals, rules, i) && signals[i].Words? ==> r == Err(SignalIsList)
    ensures forall i :: FirstDecisive(signals, rules, i) && signals[i].Str? ==>
              r == Ok(FirstRule(rules, signals[i].text).value)
    ensures r.Ok? ==> r.value == Unknown || r.value in Labels(rules)
    decreases |signals|
  {
    if signals == [] then Ok(Unknown)
    else
      var sig := signals[0];
      if Decides(sig, rules) then
        if sig.Words? then Err(SignalIsList) else Ok(FirstRule(rules, sig.text).value)
      else
        var r := ScanSignals(signals[1..], rules);
        assert forall i :: FirstDecisive(signals, rules, i) ==> i > 0 && FirstDecisive(signals[1..], rules, i - 1);
        assert (forall i :: 0 <= i < |signals| ==> !Decides(signals[i], rules)) ==>
               forall i :: 0 <= i < |signals[1..]| ==> !Decides(signals[1..][i], rules);
        r
  }

  /** Every word of every rule is non-empty. */
  predicate WordsNonEmpty(rules: seq<Rule>) {
    forall j :: 0 <= j < |rules| ==> forall w :: w in rules[j].words ==> w != ""
  }

  /** With non-empty words, the empty string matches nothing. */
  lemma EmptyMatchesNothing(rules: seq<Rule>)
    requires WordsNonEmpty(rules)
    ensures NoRule(rules, "")
  {
  }

  lemma ActionWordsNonEmpty()
    ensures WordsNonEmpty(ActionRules)
  {
  }

  /** The labels of the element table are the ten listed purposes. */
  lemma ActionLabelsListed()
    ensures Labels(ActionRules) <= ActionLabels
  {
    forall r | r in ActionRules ensures r.purpose in ActionLabels {
      var k :| 0 <= k < |ActionRules| && ActionRules[k] == r;
    }
  }

  lemma SectionLabelsListed()
    ensures Labels(SectionRules) <= SectionLabels
  {
    forall r | r in SectionRules ensures r.purpose in SectionLabels {
      var k :| 0 <= k < |SectionRules| && SectionRules[k] == r;
    }
  }

  /** A rule table has at most one first matching rule per signal. */
  lemma FirstRuleUnique(rules: seq<Rule>, s: string, j: int, k: int)
    requires FirstRuleAt(rules, s, j) && FirstRuleAt(rules, s, k)
    ensures j == k
  {
  }

  /** The signal carries string `t` (an absent attribute reads as ''). */
  predicate Carries(sig: Signal, t: string) {
    sig == Str(t) || (sig == Absent && t == "")
  }

  /** Scanning a concatenation: the first part decides if any of its
      signals does, else the second part does. */
  lemma {:induction false} ScanAppend(a: seq<Signal>, b: seq<Signal>, rules: seq<Rule>)
    ensures (exists i :: 0 <= i < |a| && Decides(a[i], rules)) ==> ScanSignals(a + b, rules) == ScanSignals(a, rules)
    ensures (forall i :: 0 <= i < |a| ==> !Decides(a[i], rules)) ==> ScanSignals(a + b, rules) == ScanSignals(b, rules)
    decreases |a|
  {
    if a == [] {
      assert a + b == b;
    } else {
      assert (a + b)[0] == a[0];
      assert (a + b)[1..] == a[1..] + b;
      if !Decides(a[0], rules) {
        ScanAppend(a[1..], b, rules);
        assert (exists i :: 0 <= i < |a| && Decides(a[i], rules)) ==>
               exists i :: 0 <= i < |a[1..]| && Decides(a[1..][i], rules);
      }
    }
  }

  /** On string signals the element scan agrees with `FirstMatch`: dropping
      empty strings changes nothing when every rule word is non-empty. */
  lemma {:induction false} ScanOfStrings(sigs: seq<Signal>, texts: seq<string>, rules: seq<Rule>)
    requires WordsNonEmpty(rules)
    requires |sigs| == |texts| && forall i :: 0 <= i < |sigs| ==> Carries(sigs[i], texts[i])
    ensures ScanSignals(sigs, rules) == Ok(FirstMatch(texts, rules).GetOr(Unknown))
    ensures (exists i :: 0 <= i < |sigs| && Decides(sigs[i], rules)) <==> FirstMatch(texts, rules).Some?
    decreases |sigs|
  {
    if sigs != [] {
      EmptyMatchesNothing(rules);
      ScanOfStrings(sigs[1..], texts[1..], rules);
      assert forall i :: 0 <= i < |sigs[1..]| ==> sigs[1..][i] == sigs[i + 1] && texts[1..][i] == texts[i + 1];
      assert Decides(sigs[0], rules) <==> !NoRule(rules, texts[0]);
      assert (exists i :: 0 <= i < |sigs| && Decides(sigs[i], rules)) <==>
             Decides(sigs[0], rules) || exists i :: 0 <= i < |sigs[1..]| && Decides(sigs[1..][i], rules) by {
        if i :| 0 <= i < |sigs| && Decides(sigs[i], rules) {
          if i > 0 { assert Decides(sigs[1..][i - 1], rules); }
        }
      }
    }
  }

  /** `element.get(key)` as a signal. */
  function AttrSignal(n: Node, key: string): (r: Signal)
    ensures Carries(r, AttrOr(n, key, ""))
  {
    match Attr(n, key)
    case None => Absent
    case Some(v) => Str(v)
  }

  /** `element.get('class')`: the list of class words, if present. */
  function ClassSignal(n: Node): Signal {
    if n.Element? && n.classes.Some? then Words(n.classes.value) else Absent
  }

  /** The element carries at least one class word. */
  predicate HasClasses(n: Node) {
    n.Element? && n.classes.Some? && n.classes.value != []
  }

  /** The string signals of an element in priority order: visible text,
      aria-label, title, placeholder, name, id (absent ones read as ''). */
  function TextSignals(n: Node): seq<string> {
    [GetText(n), AttrOr(n, "aria-label", ""), AttrOr(n, "title", ""),
     AttrOr(n, "placeholder", ""), AttrOr(n, "name", ""), AttrOr(n, "id", "")]
  }

  /** All seven signals as the parser collects them, class list last. */
  function ActionSignals(n: Node): seq<Signal> {
    [Str(GetText(n)), AttrSignal(n, "aria-label"), AttrSignal(n, "title"),
     AttrSignal(n, "placeholder"), AttrSignal(n, "name"), AttrSignal(n, "id"), ClassSignal(n)]
  }

  /** `infer_purpose`. The first string signal a rule matches decides, by
      the first rule matching it; failing that, a non-empty class list
      reaches `re.search` unjoined and raises; otherwise "unknown". */
  function InferPurpose(n: Node): (r: Result<string>)
    ensures r.Ok? ==> r.value == Unknown || r.value in ActionLabels
    ensures FirstMatch(TextSignals(n), ActionRules).Some? ==>
              r == Ok(FirstMatch(TextSignals(n), ActionRules).value)
    ensures r.Err? <==> FirstMatch(TextSignals(n), ActionRules).None? && HasClasses(n)
    ensures r.Err? ==> r.fault == SignalIsList
    ensures r == Ok(Unknown) <==> FirstMatch(TextSignals(n), ActionRules).None? && !HasClasses(n)
  {
    ActionWordsNonEmpty();
    ActionScan(n, ActionRules);
    ActionLabelsListed();
    UnknownIsNoLabel();
    ScanSignals(ActionSignals(n), ActionRules)
  }

  /** String signals followed by one absent-or-list signal, as the
      element scan sees them. */
  lemma ScanThenList(front: seq<Signal>, texts: seq<string>, last: Signal, rules: seq<Rule>)
    requires WordsNonEmpty(rules)
    requires |front| == |texts| && forall i :: 0 <= i < |front| ==> Carries(front[i], texts[i])
    requires last.Absent? || last.Words?
    ensures var fm := FirstMatch(texts, rules);
            ScanSignals(front + [last], rules) ==
              if fm.Some? then Ok(fm.value) else if Truthy(last) then Err(SignalIsList) else Ok(Unknown)
  {
    ScanOfStrings(front, texts, rules);
    ScanAppend(front, [last], rules);
    if Truthy(last) {
      assert FirstDecisive([last], rules, 0);
    } else {
      assert forall i :: 0 <= i < 1 ==> !Decides([last][i], rules);
    }
  }

  /** The six string signals of an element, before its class list. */
  function StringSignals(n: Node): (r: seq<Signal>)
    ensures |r| == |TextSignals(n)| && forall i :: 0 <= i < |r| ==> Carries(r[i], TextSignals(n)[i])
  {
    [Str(GetText(n)), AttrSignal(n, "aria-label"), AttrSignal(n, "title"),
     AttrSignal(n, "placeholder"), AttrSignal(n, "name"), AttrSignal(n, "id")]
  }

  /** The element scan: the string signals decide by their first match;
      failing that, a non-empty class list raises, and otherwise the
      purpose is unknown. */
  lemma ActionScan(n: Node, rules: seq<Rule>)
    requires WordsNonEmpty(rules)
    ensures var fm := FirstMatch(TextSignals(n), rules);
            ScanSignals(ActionSignals(n), rules) ==
              if fm.Some? then Ok(fm.value) else if HasClasses(n) then Err(SignalIsList) else Ok(Unknown)
  {
    var c := ClassSignal(n);
    assert ActionSignals(n) == StringSignals(n) + [c];
    assert Truthy(c) <==> HasClasses(n);
    ScanThenList(StringSignals(n), TextSignals(n), c, rules);
  }

  lemma UnknownIsNoLabel()
    ensures Unknown !in ActionLabels && Unknown !in SectionLabels
  {
  }

  /** The four section signals: class words joined by spaces, id, role and
      the first 100 characters of the visible text. */
  function SectionSignals(n: Node): seq<string> {
    var classes := if n.Element? then n.classes.GetOr([]) else [];
    [Join(classes, " "), AttrOr(n, "id", ""), AttrOr(n, "role", ""), Take(GetText(n), 100)]
  }

  /** `infer_section_purpose`: first signal/rule pair of the section table,
      else "unknown". */
  function InferSectionPurpose(n: Node): (r: string)
    ensures r == Unknown || r in SectionLabels
    ensures r == Unknown <==> forall i :: 0 <= i < 4 ==> NoRule(SectionRules, SectionSignals(n)[i])
    ensures r != Unknown ==> exists i, j :: FirstPair(SectionSignals(n), SectionRules, i, j) && SectionRules[j].purpose == r
  {
    SectionLabelsListed();
    UnknownIsNoLabel();
    FirstMatch(SectionSignals(n), SectionRules).GetOr(Unknown)
  }

  /** Text past the 100th character never affects a section's purpose. */
  lemma SectionTextPrefixDecides(n: Node, m: Node)
    requires n.Element? && m.Element? && n.classes == m.classes
    requires AttrOr(n, "id", "") == AttrOr(m, "id", "") && AttrOr(n, "role", "") == AttrOr(m, "role", "")
    requires GetText(n)[..if |GetText(n)| < 100 then |GetText(n)| else 100]
          == GetText(m)[..if |GetText(m)| < 100 then |GetText(m)| else 100]
    ensures InferSectionPurpose(n) == InferSectionPurpose(m)
  {
    assert SectionSignals(n) == SectionSignals(m);
  }

  /** The converse of `FirstMatch`'s contract: the first matching pair
      determines the result, whatever later signals or rules would say. */
  lemma {:induction false} FirstPairDecides(signals: seq<string>, rules: seq<Rule>, i: int, j: int)
    requires FirstPair(signals, rules, i, j)
    ensures FirstMatch(signals, rules) == Some(rules[j].purpose)
    decreases i
  {
    if i == 0 {
      var here := FirstRule(rules, signals[0]);
      var j' :| FirstRuleAt(rules, signals[0], j') && rules[j'].purpose == here.value;
      FirstRuleUnique(rules, signals[0], j, j');
    } else {
      assert NoRule(rules, signals[0]);
      assert FirstPair(signals[1..], rules, i - 1, j);
      FirstPairDecides(signals[1..], rules, i - 1, j);
    }
  }

  /** Signal priority: when the visible text matches, its first matching
      rule decides, whatever aria-label, title, placeholder, name, id or
      class would have matched. */
  lemma TextSignalWins(n: Node, j: int)
    requires FirstRuleAt(ActionRules, GetText(n), j)
    ensures InferPurpose(n) == Ok(ActionRules[j].purpose)
  {
    assert FirstPair(TextSignals(n), ActionRules, 0, j);
    FirstPairDecides(TextSignals(n), ActionRules, 0, j);
  }

  /** A word is absent from `s` if one of its letters is. */
  lemma MissingLetter(s: string, w: string, k: int)
    requires 0 <= k < |w|
    requires forall i :: 0 <= i < |s| ==> Lower(s[i]) != Lower(w[k])
    ensures !ContainsCI(s, w)
  {
    forall i | 0 <= i && i + |w| <= |s| ensures !MatchesAt(s, w, i) {
      assert Lower(s[i + k]) != Lower(w[k]);
    }
  }

  /** Rule order within one signal: "save search" matches both the submit
      and the search rule, and submit, listed first, wins. */
  lemma SaveSearchIsSubmit()
    ensures RuleMatches(ActionRules[0], "save search") && RuleMatches(ActionRules[1], "save search")
    ensures FirstRule(ActionRules, "save search") == Some("submit")
  {
    var s := "save search";
    assert MatchesAt(s, "save", 0);
    assert "save" in ActionRules[0].words;
    assert MatchesAt(s, "search", 5);
    assert "search" in ActionRules[1].words;
    assert FirstRuleAt(ActionRules, s, 0);
    var r := FirstRule(ActionRules, s);
    var j :| FirstRuleAt(ActionRules, s, j) && ActionRules[j].purpose == r.value;
    FirstRuleUnique(ActionRules, s, 0, j);
  }

  lemma DeleteItemSkipsSubmit()
    ensures !RuleMatches(ActionRules[0], "Delete item")
  {
    var s := "Delete item";
    MissingLetter(s, "submit", 0);
    MissingLetter(s, "send", 0);
    MissingLetter(s, "save", 0);
    MissingLetter(s, "confirm", 0);
    MissingLetter(s, "ok", 0);
    MissingLetter(s, "apply", 0);
  }

  lemma DeleteItemSkipsSearch()
    ensures !RuleMatches(ActionRules[1], "Delete item")
  {
    var s := "Delete item";
    MissingLetter(s, "search", 0);
    MissingLetter(s, "find", 0);
    MissingLetter(s, "lookup", 1);
  }

  lemma DeleteItemSkipsNavigate()
    ensures !RuleMatches(ActionRules[2], "Delete item")
  {
    var s := "Delete item";
    MissingLetter(s, "menu", 2);
    MissingLetter(s, "nav", 0);
    MissingLetter(s, "go to", 0);
    MissingLetter(s, "link", 2);
  }

  /** "Delete item" first matches the delete rule. */
  lemma DeleteItemRule()
    ensures FirstRuleAt(ActionRules, "Delete item", 3)
  {
    var s := "Delete item";
    DeleteItemSkipsSubmit();
    DeleteItemSkipsSearch();
    DeleteItemSkipsNavigate();
    assert MatchesAt(s, "delete", 0);
    assert "delete" in ActionRules[3].words;
  }

  lemma DeleteItemText(n: Node)
    requires n == Element("a", map[], None, [Text("Delete item")])
    ensures GetText(n) == "Delete item"
  {
    var s := "Delete item";
    assert s[0] == 'D' && s[|s| - 1] == 'm';
    StripKeeps(s);
    OnlyTextChild(n);
  }

  /** An element whose only child is a string reads as that string,
      stripped. */
  lemma OnlyTextChild(n: Node)
    requires n.Element? && |n.children| == 1 && n.children[0].Text?
    ensures GetText(n) == Strip(n.children[0].content)
  {
    var cs := n.children;
    assert cs[1..] == [];
    assert ChildrenText(cs) == GetText(cs[0]) + ChildrenText([]);
  }

  /** An anchor reading "Delete item" with no attributes is a delete
      control. */
  lemma DeleteItemIsDelete(n: Node)
    requires n == Element("a", map[], None, [Text("Delete item")])
    ensures InferPurpose(n) == Ok("delete")
  {
    DeleteItemText(n);
    DeleteItemRule();
    assert ActionRules[3].purpose == "delete";
    TextSignalWins(n, 3);
  }
}
