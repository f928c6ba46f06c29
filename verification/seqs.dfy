/** Order-preserving filtering and first-match search over sequences. */
module Seqs {
  import opened Common

  /** The elements of `s` satisfying `f`, in their original order. */
  function Filter<T>(s: seq<T>, f: T -> bool): (r: seq<T>)
    ensures |r| <= |s|
    ensures forall i :: 0 <= i < |r| ==> r[i] in s && f(r[i])
    ensures forall i :: 0 <= i < |s| && f(s[i]) ==> s[i] in r
  {
    if s == [] then []
    else (if f(s[0]) then [s[0]] else []) + Filter(s[1..], f)
  }

  /** `r` is `s` read at the positions `idx`, which run in increasing
      order. */
  predicate PicksAt<T(==)>(s: seq<T>, r: seq<T>, idx: seq<nat>) {
    && |idx| == |r|
    && (forall i :: 0 <= i < |idx| ==> idx[i] < |s| && s[idx[i]] == r[i])
    && (forall i, j :: 0 <= i < j < |idx| ==> idx[i] < idx[j])
  }

  /** `r` is `s` cut down to the positions `idx`, which are exactly the
      positions of `s` satisfying `f`. */
  predicate KeptAt<T(==)>(s: seq<T>, f: T -> bool, r: seq<T>, idx: seq<nat>) {
    PicksAt(s, r, idx) && forall k :: 0 <= k < |s| ==> (f(s[k]) <==> k in idx)
  }

  /** Filtering keeps the satisfying elements in their original order,
      each once per position it occupies. */
  lemma {:induction false} FilterKeepsOrder<T>(s: seq<T>, f: T -> bool)
    ensures exists idx :: KeptAt(s, f, Filter(s, f), idx)
  {
    if s == [] {
      assert KeptAt(s, f, Filter(s, f), []);
    } else {
      FilterKeepsOrder(s[1..], f);
      var p :| KeptAt(s[1..], f, Filter(s[1..], f), p);
      KeptStep(s, f, p);
    }
  }

  /** One more element in front: shift the positions kept from the rest
      and add position 0 when the head is kept. */
  lemma KeptStep<T>(s: seq<T>, f: T -> bool, p: seq<nat>)
    requires s != [] && KeptAt(s[1..], f, Filter(s[1..], f), p)
    ensures KeptAt(s, f, Filter(s, f), (if f(s[0]) then [0] else []) + Shift(p))
  {
    var rest, q := s[1..], Filter(s[1..], f);
    var head: seq<T>, front: seq<nat> := if f(s[0]) then [s[0]] else [], if f(s[0]) then [0] else [];
    assert Filter(s, f) == head + q;
    KeptJoin(s, f, head, q, front, p);
    if !f(s[0]) {
      assert [] + Shift(p) == Shift(p);
    }
  }

  /** The shared arithmetic of `KeptStep`, with the head's contribution
      `head`/`front` given as at most one element. */
  lemma KeptJoin<T>(s: seq<T>, f: T -> bool, head: seq<T>, q: seq<T>, front: seq<nat>, p: seq<nat>)
    requires s != [] && KeptAt(s[1..], f, q, p)
    requires (f(s[0]) && head == [s[0]] && front == [0]) || (!f(s[0]) && head == [] && front == [])
    ensures KeptAt(s, f, head + q, front + Shift(p))
  {
    PicksJoin(s, head, q, front, p);
    var idx := front + Shift(p);
    forall k | 0 <= k < |s| ensures f(s[k]) <==> k in idx {
      if k > 0 {
        assert s[k] == s[1..][k - 1];
        ShiftHas(p, k);
      } else {
        ShiftHas(p, 0);
      }
    }
  }

  lemma PicksJoin<T>(s: seq<T>, head: seq<T>, q: seq<T>, front: seq<nat>, p: seq<nat>)
    requires s != [] && PicksAt(s[1..], q, p)
    requires (head == [s[0]] && front == [0]) || (head == [] && front == [])
    ensures PicksAt(s, head + q, front + Shift(p))
  {
    var sh := Shift(p);
    assert PicksAt(s, q, sh) by {
      forall i | 0 <= i < |sh| ensures sh[i] < |s| && s[sh[i]] == q[i] {
        assert s[sh[i]] == s[1..][p[i]];
      }
    }
    if front != [] {
      var r, idx := head + q, front + sh;
      forall i | 1 <= i < |idx| ensures idx[i] == sh[i - 1] && r[i] == q[i - 1] {
      }
      forall i, j | 0 <= i < j < |idx| ensures idx[i] < idx[j] {
        assert idx[j] == sh[j - 1];
      }
    } else {
      assert head + q == q && front + sh == sh;
    }
  }

  /** Every position moved one place on. */
  function Shift(p: seq<nat>): (r: seq<nat>)
    ensures |r| == |p| && forall i :: 0 <= i < |p| ==> r[i] == p[i] + 1
  {
    seq(|p|, i requires 0 <= i < |p| => p[i] + 1)
  }

  lemma ShiftHas(p: seq<nat>, k: nat)
    ensures k in Shift(p) <==> k > 0 && k - 1 in p
  {
    if k - 1 in p {
      var i :| 0 <= i < |p| && p[i] == k - 1;
      assert Shift(p)[i] == k;
    }
  }

  lemma {:induction false} FilterAppend<T>(a: seq<T>, b: seq<T>, f: T -> bool)
    ensures Filter(a + b, f) == Filter(a, f) + Filter(b, f)
  {
    if a == [] {
      assert a + b == b;
    } else {
      assert (a + b)[1..] == a[1..] + b;
      FilterAppend(a[1..], b, f);
    }
  }

  /** Filtering one more element at the end. */
  lemma FilterSnoc<T>(s: seq<T>, x: T, f: T -> bool)
    ensures Filter(s + [x], f) == Filter(s, f) + (if f(x) then [x] else [])
  {
    FilterAppend(s, [x], f);
    assert [x][1..] == [];
  }

  /** The first element of `s` satisfying `f`, if any. */
  function FindFirst<T>(s: seq<T>, f: T -> bool): (r: Option<T>)
    ensures r.None? <==> forall i :: 0 <= i < |s| ==> !f(s[i])
    ensures r.Some? ==> exists i :: 0 <= i < |s| && s[i] == r.value && f(s[i])
                                    && forall j :: 0 <= j < i ==> !f(s[j])
  {
    if s == [] then None
    else if f(s[0]) then Some(s[0])
    else
      var r := FindFirst(s[1..], f);
      assert r.Some? ==> exists i :: 1 <= i < |s| && s[i] == r.value && f(s[i])
                                      && forall j :: 0 <= j < i ==> !f(s[j]) by {
        if r.Some? {
          var k :| 0 <= k < |s[1..]| && s[1..][k] == r.value && f(s[1..][k])
                   && forall j :: 0 <= j < k ==> !f(s[1..][j]);
          assert forall j :: 1 <= j < k + 1 ==> !f(s[j]) by {
            forall j | 1 <= j < k + 1 ensures !f(s[j]) { assert s[j] == s[1..][j - 1]; }
          }
        }
      }
      r
  }

  /** The first match is the head of the filtered sequence. */
  lemma {:induction false} FindFirstIsFilterHead<T>(s: seq<T>, f: T -> bool)
    ensures FindFirst(s, f) == if Filter(s, f) == [] then None else Some(Filter(s, f)[0])
  {
    if s != [] {
      FindFirstIsFilterHead(s[1..], f);
      if f(s[0]) {
        assert Filter(s, f) == [s[0]] + Filter(s[1..], f);
      } else {
        assert Filter(s, f) == Filter(s[1..], f);
        assert FindFirst(s, f) == FindFirst(s[1..], f);
      }
    }
  }

  predicate Distinct<T(==)>(s: seq<T>) {
    forall i, j :: 0 <= i < j < |s| ==> s[i] != s[j]
  }

  /** The distinct elements of `s` in order of first occurrence. */
  function Dedup<T(==)>(s: seq<T>): (r: seq<T>)
    ensures forall i :: 0 <= i < |r| ==> r[i] in s
    ensures forall i :: 0 <= i < |s| ==> s[i] in r
    ensures Distinct(r)
    decreases |s|
  {
    if s == [] then []
    else
      var front := s[..|s| - 1];
      var x := s[|s| - 1];
      var d := Dedup(front);
      assert forall i :: 0 <= i < |front| ==> s[i] == front[i];
      if x in front then d else d + [x]
  }

  /** Deduplicating keeps exactly the members. */
  lemma DedupMembers<T>(s: seq<T>, x: T)
    ensures x in Dedup(s) <==> x in s
  {
    if x in Dedup(s) {
      var i :| 0 <= i < |Dedup(s)| && Dedup(s)[i] == x;
    }
    if x in s {
      var i :| 0 <= i < |s| && s[i] == x;
    }
  }

  /** The step `Dedup` takes for one more element. */
  lemma DedupSnoc<T>(s: seq<T>, x: T)
    ensures Dedup(s + [x]) == if x in s then Dedup(s) else Dedup(s) + [x]
  {
    assert (s + [x])[..|s + [x]| - 1] == s;
  }
}
