/** The tasks a visitor could perform on the page: submitting each form,
    following each navigation block, and searching when some element's
    purpose is search. */
module Tasks {
  import opened Common
  import opened Seqs
  import opened Forms
  import opened Navigation
  import opened Catalog

  datatype Task =
    | FormSubmission(name: Option<string>, requiredFields: seq<Option<string>>, optionalFields: seq<Option<string>>)
    | NavigationTask(destinations: seq<string>, location: string)
    | SearchTask(requirements: seq<string>, location: string)

  /** The single search task, with its fixed requirement and location. */
  const Search: Task := SearchTask(["query"], "search form or input field")

  /** The `name` attributes of fields, in order. */
  function Names(fields: seq<InputField>): (r: seq<Option<string>>)
    ensures |r| == |fields| && forall i :: 0 <= i < |fields| ==> r[i] == fields[i].name
  {
    seq(|fields|, i requires 0 <= i < |fields| => fields[i].name)
  }

  predicate Required(f: InputField) { f.required }

  predicate Optional(f: InputField) { !f.required }

  /** One form's task. A form's descriptor always carries a `name` entry,
      so the task is named by the form's `name` attribute, absent when the
      form has none: the "Unknown Form" fallback is never taken. */
  function FormTask(f: Form): (t: Task)
    ensures t.FormSubmission? && t.name == f.name
    ensures forall i :: 0 <= i < |t.requiredFields| ==> exists j :: 0 <= j < |f.inputs| && Required(f.inputs[j]) && f.inputs[j].name == t.requiredFields[i]
    ensures forall i :: 0 <= i < |t.optionalFields| ==> exists j :: 0 <= j < |f.inputs| && Optional(f.inputs[j]) && f.inputs[j].name == t.optionalFields[i]
  {
    forall i | 0 <= i < |Filter(f.inputs, Required)|
      ensures exists j :: 0 <= j < |f.inputs| && Required(f.inputs[j]) && f.inputs[j].name == Names(Filter(f.inputs, Required))[i]
    {
      FilteredNames(f.inputs, Required, i);
      var j :| 0 <= j < |f.inputs| && Required(f.inputs[j]) && f.inputs[j].name == Names(Filter(f.inputs, Required))[i];
    }
    forall i | 0 <= i < |Filter(f.inputs, Optional)|
      ensures exists j :: 0 <= j < |f.inputs| && Optional(f.inputs[j]) && f.inputs[j].name == Names(Filter(f.inputs, Optional))[i]
    {
      FilteredNames(f.inputs, Optional, i);
      var j :| 0 <= j < |f.inputs| && Optional(f.inputs[j]) && f.inputs[j].name == Names(Filter(f.inputs, Optional))[i];
    }
    FormSubmission(f.name, Names(Filter(f.inputs, Required)), Names(Filter(f.inputs, Optional)))
  }

  /** Every name of a filtered field list is the name of a kept field. */
  lemma FilteredNames(fields: seq<InputField>, keep: InputField -> bool, i: int)
    requires 0 <= i < |Filter(fields, keep)|
    ensures exists j :: 0 <= j < |fields| && keep(fields[j]) && fields[j].name == Names(Filter(fields, keep))[i]
  {
    var kept := Filter(fields, keep);
    var j :| 0 <= j < |fields| && fields[j] == kept[i];
    assert keep(fields[j]) && fields[j].name == Names(kept)[i];
  }

  lemma NamesAppend(a: seq<InputField>, b: seq<InputField>)
    ensures Names(a + b) == Names(a) + Names(b)
  {
  }

  lemma {:induction false} SplitFields(fields: seq<InputField>)
    ensures |Filter(fields, Required)| + |Filter(fields, Optional)| == |fields|
    ensures multiset(Names(Filter(fields, Required))) + multiset(Names(Filter(fields, Optional))) == multiset(Names(fields))
  {
    if fields != [] {
      var x := fields[0];
      var rest := fields[1..];
      SplitFields(rest);
      assert fields == [x] + rest;
      SplitStep(x, rest, Filter(rest, Required), Filter(rest, Optional), Filter(fields, Required), Filter(fields, Optional));
    }
  }

  /** One field more: it joins the required or the optional list. */
  lemma SplitStep(x: InputField, rest: seq<InputField>, req: seq<InputField>, opt: seq<InputField>,
                  req': seq<InputField>, opt': seq<InputField>)
    requires |req| + |opt| == |rest|
    requires multiset(Names(req)) + multiset(Names(opt)) == multiset(Names(rest))
    requires req' == (if x.required then [x] else []) + req
    requires opt' == (if x.required then [] else [x]) + opt
    ensures |req'| + |opt'| == |rest| + 1
    ensures multiset(Names(req')) + multiset(Names(opt')) == multiset(Names([x] + rest))
  {
    NamesAppend([x], rest);
    if x.required {
      assert opt' == opt;
      NamesAppend([x], req);
    } else {
      assert req' == req;
      NamesAppend([x], opt);
    }
  }

  /** A form task's required and optional lists split the form's fields:
      every field's name lands in exactly one of the two. */
  lemma FormTaskPartition(f: Form)
    ensures |FormTask(f).requiredFields| + |FormTask(f).optionalFields| == |f.inputs|
    ensures multiset(FormTask(f).requiredFields) + multiset(FormTask(f).optionalFields) == multiset(Names(f.inputs))
  {
    SplitFields(f.inputs);
  }

  /** The split keeps document order: the fields of a leading run of
      inputs come before those of the rest, in both lists. */
  lemma FormTaskOrder(f: Form, a: seq<InputField>, b: seq<InputField>)
    requires f.inputs == a + b
    ensures FormTask(f).requiredFields == FormTask(f.(inputs := a)).requiredFields + FormTask(f.(inputs := b)).requiredFields
    ensures FormTask(f).optionalFields == FormTask(f.(inputs := a)).optionalFields + FormTask(f.(inputs := b)).optionalFields
  {
    FilterAppend(a, b, Required);
    FilterAppend(a, b, Optional);
    NamesAppend(Filter(a, Required), Filter(b, Required));
    NamesAppend(Filter(a, Optional), Filter(b, Optional));
  }

  /** One navigation block's task: its link texts, in order. */
  function NavTask(n: NavBlock): (t: Task)
    ensures t.NavigationTask? && t.location == n.location
    ensures |t.destinations| == |n.items| && forall i :: 0 <= i < |n.items| ==> t.destinations[i] == n.items[i].text
  {
    NavigationTask(seq(|n.items|, i requires 0 <= i < |n.items| => n.items[i].text), n.location)
  }

  /** `tasks` opens with one task per form, then one per navigation
      block, and holds at most one task more, which is the search task. */
  predicate FormsThenNavs(forms: seq<Form>, navs: seq<NavBlock>, tasks: seq<Task>) {
    && |forms| + |navs| <= |tasks| <= |forms| + |navs| + 1
    && (forall i :: 0 <= i < |forms| ==> tasks[i] == FormTask(forms[i]))
    && (forall i :: 0 <= i < |navs| ==> tasks[|forms| + i] == NavTask(navs[i]))
    && (|tasks| > |forms| + |navs| ==> tasks[|tasks| - 1] == Search)
  }

  /** `identify_possible_tasks`: a task per form, then a task per navigation
      block, then the search task when the catalogue has a "search" bucket. */
  method IdentifyPossibleTasks(forms: seq<Form>, navs: seq<NavBlock>, actions: seq<Bucket>) returns (tasks: seq<Task>)
    ensures |tasks| == |forms| + |navs| + (if "search" in PurposesOf(actions) then 1 else 0)
    ensures FormsThenNavs(forms, navs, tasks)
    ensures Search in tasks <==> "search" in PurposesOf(actions)
    ensures Search in tasks ==> tasks[|tasks| - 1] == Search
  {
    tasks := [];
    for i := 0 to |forms|
      invariant |tasks| == i && forall k :: 0 <= k < i ==> tasks[k] == FormTask(forms[k])
    {
      tasks := tasks + [FormTask(forms[i])];
    }
    for i := 0 to |navs|
      invariant |tasks| == |forms| + i
      invariant forall k :: 0 <= k < |forms| ==> tasks[k] == FormTask(forms[k])
      invariant forall k :: 0 <= k < i ==> tasks[|forms| + k] == NavTask(navs[k])
    {
      tasks := tasks + [NavTask(navs[i])];
    }
    forall k | 0 <= k < |tasks| ensures tasks[k] != Search {
      if k >= |forms| { assert tasks[k] == NavTask(navs[k - |forms|]); }
    }
    if "search" in PurposesOf(actions) {
      tasks := tasks + [Search];
    }
  }
}
