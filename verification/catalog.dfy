/** The action catalogue: the interactive elements grouped by purpose, as an
    insertion-ordered dictionary from purpose to the summaries of the
    elements having it. */
module Catalog {
  import opened Seqs
  import opened Elements

  /** What the catalogue records about one element. */
  datatype ActionSummary = ActionSummary(elementType: string, context: Context, accessibility: AriaInfo)

  /** One dictionary entry: a purpose and its summaries, in element order. */
  datatype Bucket = Bucket(purpose: string, actions: seq<ActionSummary>)

  function SummaryOf(e: Entry): ActionSummary {
    ActionSummary(e.semantics.elementType, e.semantics.context, e.semantics.aria)
  }

  function PurposesOf(bs: seq<Bucket>): (r: seq<string>)
    ensures |r| == |bs| && forall k :: 0 <= k < |bs| ==> r[k] == bs[k].purpose
  {
    seq(|bs|, k requires 0 <= k < |bs| => bs[k].purpose)
  }

  /** The purposes of the entries, one per entry, in entry order. */
  function EntryPurposes(es: seq<Entry>): (r: seq<string>)
    ensures |r| == |es| && forall i :: 0 <= i < |es| ==> r[i] == es[i].semantics.purpose
  {
    seq(|es|, i requires 0 <= i < |es| => es[i].semantics.purpose)
  }

  /** `if p not in actions: actions[p] = []`, then `actions[p].append(a)`:
      an existing bucket for `p` grows by `a` at its end and keeps its
      place; otherwise a new bucket holding only `a` goes last. No other
      bucket changes. */
  function AddAction(bs: seq<Bucket>, p: string, a: ActionSummary): (r: seq<Bucket>)
    ensures p in PurposesOf(bs) ==> |r| == |bs|
    ensures p !in PurposesOf(bs) ==> r == bs + [Bucket(p, [a])]
    ensures forall k :: 0 <= k < |bs| ==>
              r[k] == if bs[k].purpose == p then Bucket(p, bs[k].actions + [a]) else bs[k]
  {
    if p in PurposesOf(bs) then
      seq(|bs|, k requires 0 <= k < |bs| =>
        if bs[k].purpose == p then Bucket(p, bs[k].actions + [a]) else bs[k])
    else bs + [Bucket(p, [a])]
  }

  /** The catalogue of a sequence of dictionary entries, built entry by
      entry as the source loop does. */
  function Group(es: seq<Entry>): seq<Bucket>
    decreases |es|
  {
    if es == [] then []
    else
      var e := es[|es| - 1];
      AddAction(Group(es[..|es| - 1]), e.semantics.purpose, SummaryOf(e))
  }

  /** Reference definition of one bucket: the summaries of the entries
      with purpose `p`, in entry order. */
  function SummariesWith(es: seq<Entry>, p: string): seq<ActionSummary>
    decreases |es|
  {
    if es == [] then []
    else
      var e := es[|es| - 1];
      SummariesWith(es[..|es| - 1], p) + (if e.semantics.purpose == p then [SummaryOf(e)] else [])
  }

  lemma GroupSnoc(es: seq<Entry>, e: Entry)
    ensures Group(es + [e]) == AddAction(Group(es), e.semantics.purpose, SummaryOf(e))
    ensures SummariesWith(es + [e], e.semantics.purpose) == SummariesWith(es, e.semantics.purpose) + [SummaryOf(e)]
  {
    assert (es + [e])[..|es + [e]| - 1] == es;
  }

  lemma EntryPurposesSnoc(es: seq<Entry>, e: Entry)
    ensures EntryPurposes(es + [e]) == EntryPurposes(es) + [e.semantics.purpose]
  {
  }

  /** The catalogue has one bucket per distinct purpose, in order of the
      purpose's first appearance among the entries. */
  lemma {:induction false} GroupKeys(es: seq<Entry>)
    ensures PurposesOf(Group(es)) == Dedup(EntryPurposes(es))
    decreases |es|
  {
    if es == [] {
      assert EntryPurposes(es) == [];
    } else {
      var front := es[..|es| - 1];
      var e := es[|es| - 1];
      assert es == front + [e];
      GroupSnoc(front, e);
      GroupKeys(front);
      EntryPurposesSnoc(front, e);
      AddActionKeys(Group(front), EntryPurposes(front), e.semantics.purpose, SummaryOf(e));
    }
  }

  /** Adding to the bucket of `p` keeps the purposes equal to the
      deduplicated purposes seen so far. */
  lemma AddActionKeys(bs: seq<Bucket>, seen: seq<string>, p: string, a: ActionSummary)
    requires PurposesOf(bs) == Dedup(seen)
    ensures PurposesOf(AddAction(bs, p, a)) == Dedup(seen + [p])
  {
    DedupSnoc(seen, p);
    DedupMembers(seen, p);
    if p in PurposesOf(bs) {
      assert PurposesOf(AddAction(bs, p, a)) == PurposesOf(bs);
    } else {
      assert PurposesOf(AddAction(bs, p, a)) == PurposesOf(bs) + [p];
    }
  }

  /** No entry has purpose `p`: its reference bucket is empty. */
  lemma {:induction false} SummariesWithAbsent(es: seq<Entry>, p: string)
    requires p !in EntryPurposes(es)
    ensures SummariesWith(es, p) == []
    decreases |es|
  {
    if es != [] {
      var front := es[..|es| - 1];
      assert es == front + [es[|es| - 1]];
      EntryPurposesSnoc(front, es[|es| - 1]);
      SummariesWithAbsent(front, p);
    }
  }

  /** Every bucket holds exactly the summaries of the entries with its
      purpose, in entry order. */
  lemma {:induction false} GroupBuckets(es: seq<Entry>)
    ensures forall k :: 0 <= k < |Group(es)| ==>
              Group(es)[k].actions == SummariesWith(es, Group(es)[k].purpose)
    decreases |es|
  {
    if es != [] {
      var front := es[..|es| - 1];
      var e := es[|es| - 1];
      var p := e.semantics.purpose;
      assert es == front + [e];
      GroupSnoc(front, e);
      GroupBuckets(front);
      var before := Group(front);
      var after := Group(es);
      forall k | 0 <= k < |after|
        ensures after[k].actions == SummariesWith(es, after[k].purpose)
      {
        var q := after[k].purpose;
        if q != p {
          assert SummariesWith(es, q) == SummariesWith(front, q);
        } else if k >= |before| {
          GroupKeys(front);
          DedupMembers(EntryPurposes(front), p);
          SummariesWithAbsent(front, p);
        }
      }
    }
  }

  /** A purpose has a bucket exactly when some entry has that purpose, and
      then the bucket is not empty. */
  lemma BucketsNonEmpty(es: seq<Entry>, p: string)
    ensures p in PurposesOf(Group(es)) <==> p in EntryPurposes(es)
    ensures forall k :: 0 <= k < |Group(es)| ==> Group(es)[k].actions != []
  {
    GroupKeys(es);
    DedupMembers(EntryPurposes(es), p);
    GroupBuckets(es);
    forall k | 0 <= k < |Group(es)| ensures Group(es)[k].actions != [] {
      var q := Group(es)[k].purpose;
      assert q in PurposesOf(Group(es));
      DedupMembers(EntryPurposes(es), q);
      SummariesWithPresent(es, q);
    }
  }

  lemma {:induction false} SummariesWithPresent(es: seq<Entry>, p: string)
    requires p in EntryPurposes(es)
    ensures SummariesWith(es, p) != []
    decreases |es|
  {
    var front := es[..|es| - 1];
    var e := es[|es| - 1];
    assert es == front + [e];
    EntryPurposesSnoc(front, e);
    if e.semantics.purpose != p {
      SummariesWithPresent(front, p);
    }
  }

  /** The number of summaries over all buckets. */
  function TotalActions(bs: seq<Bucket>): nat
    decreases |bs|
  {
    if bs == [] then 0 else TotalActions(bs[..|bs| - 1]) + |bs[|bs| - 1].actions|
  }

  /** Buckets of pointwise equal sizes have the same total. */
  lemma {:induction false} TotalSame(bs: seq<Bucket>, cs: seq<Bucket>)
    requires |bs| == |cs| && forall k :: 0 <= k < |bs| ==> |bs[k].actions| == |cs[k].actions|
    ensures TotalActions(bs) == TotalActions(cs)
    decreases |bs|
  {
    if bs != [] {
      TotalSame(bs[..|bs| - 1], cs[..|cs| - 1]);
    }
  }

  /** Growing bucket `j` by one summary grows the total by one. */
  lemma {:induction false} TotalBump(bs: seq<Bucket>, cs: seq<Bucket>, j: int)
    requires |bs| == |cs| && 0 <= j < |bs|
    requires |cs[j].actions| == |bs[j].actions| + 1
    requires forall k :: 0 <= k < |bs| && k != j ==> |bs[k].actions| == |cs[k].actions|
    ensures TotalActions(cs) == TotalActions(bs) + 1
    decreases |bs|
  {
    var n := |bs| - 1;
    if j == n {
      TotalSame(bs[..n], cs[..n]);
    } else {
      TotalBump(bs[..n], cs[..n], j);
    }
  }

  /** Adding one summary to a catalogue with distinct purposes adds one to
      its total. */
  lemma AddActionTotal(bs: seq<Bucket>, p: string, a: ActionSummary)
    requires Distinct(PurposesOf(bs))
    ensures TotalActions(AddAction(bs, p, a)) == TotalActions(bs) + 1
  {
    var cs := AddAction(bs, p, a);
    if p in PurposesOf(bs) {
      var j :| 0 <= j < |bs| && PurposesOf(bs)[j] == p;
      forall k | 0 <= k < |bs| && k != j ensures |bs[k].actions| == |cs[k].actions| {
        assert PurposesOf(bs)[k] != PurposesOf(bs)[j];
      }
      TotalBump(bs, cs, j);
    } else {
      assert cs[..|cs| - 1] == bs;
    }
  }

  /** The bucket sizes add up to the number of entries. */
  lemma {:induction false} GroupSizes(es: seq<Entry>)
    ensures TotalActions(Group(es)) == |es|
    decreases |es|
  {
    if es != [] {
      var front := es[..|es| - 1];
      var e := es[|es| - 1];
      assert es == front + [e];
      GroupSnoc(front, e);
      GroupSizes(front);
      GroupKeys(front);
      AddActionTotal(Group(front), e.semantics.purpose, SummaryOf(e));
    }
  }

  /** `get_available_actions`: walks the dictionary in order and appends
      each element's summary to the bucket of its purpose. */
  method GetAvailableActions(entries: seq<Entry>) returns (actions: seq<Bucket>)
    ensures actions == Group(entries)
  {
    actions := [];
    assert entries[..0] == [];
    for i := 0 to |entries|
      invariant actions == Group(entries[..i])
    {
      var e := entries[i];
      GroupSnoc(entries[..i], e);
      assert entries[..i + 1] == entries[..i] + [e];
      actions := AddAction(actions, e.semantics.purpose, SummaryOf(e));
    }
    assert entries[..|entries|] == entries;
  }
}
