/** The handful of Python string operations the parser relies on:
    `str.strip()`, `in` on strings, `str.replace(old, '')`, `' '.join`,
    slicing to a prefix and case-insensitive literal search. */
module Strings {

  /** Python's `str.isspace()` for one code point. */
  predicate IsSpace(c: char) {
    var n := c as int;
    || 9 <= n <= 13
    || 28 <= n <= 32
    || n == 0x85 || n == 0xA0 || n == 0x1680
    || 0x2000 <= n <= 0x200A
    || n == 0x2028 || n == 0x2029 || n == 0x202F || n == 0x205F || n == 0x3000
  }

  function TrimStart(s: string): (r: string)
    ensures |r| <= |s| && r == s[|s| - |r|..]
    ensures r == [] || !IsSpace(r[0])
    ensures forall i :: 0 <= i < |s| - |r| ==> IsSpace(s[i])
  {
    if s != [] && IsSpace(s[0]) then TrimStart(s[1..]) else s
  }

  function TrimEnd(s: string): (r: string)
    ensures |r| <= |s| && r == s[..|r|]
    ensures r == [] || !IsSpace(r[|r| - 1])
    ensures forall i :: |r| <= i < |s| ==> IsSpace(s[i])
  {
    if s != [] && IsSpace(s[|s| - 1]) then TrimEnd(s[..|s| - 1]) else s
  }

  /** Neither end of `s` is whitespace. */
  predicate EdgesClean(s: string) {
    s == [] || (!IsSpace(s[0]) && !IsSpace(s[|s| - 1]))
  }

  /** Joining two strings clean at their edges gives one clean at its
      edges. */
  lemma EdgesCleanAppend(a: string, b: string)
    requires EdgesClean(a) && EdgesClean(b)
    ensures EdgesClean(a + b)
  {
    if a != [] && b != [] {
      assert (a + b)[0] == a[0] && (a + b)[|a + b| - 1] == b[|b| - 1];
    }
  }

  /** Python's `str.strip()`: the longest infix of `s` that neither starts
      nor ends with whitespace, everything around it being whitespace. */
  function Strip(s: string): (r: string)
    ensures |r| <= |s|
    ensures EdgesClean(r)
    ensures exists i :: StrippedAt(s, r, i)
  {
    var t := TrimStart(s);
    var r := TrimEnd(t);
    InfixAround(s, t, r);
    r
  }

  /** Trimming whitespace off the front and then off the back leaves an
      infix with only whitespace around it and none at its edges. */
  lemma InfixAround(s: string, t: string, r: string)
    requires |t| <= |s| && t == s[|s| - |t|..] && forall k :: 0 <= k < |s| - |t| ==> IsSpace(s[k])
    requires t == [] || !IsSpace(t[0])
    requires |r| <= |t| && r == t[..|r|] && forall k :: |r| <= k < |t| ==> IsSpace(t[k])
    requires r == [] || !IsSpace(r[|r| - 1])
    ensures StrippedAt(s, r, |s| - |t|)
    ensures EdgesClean(r)
  {
    var i := |s| - |t|;
    assert r == s[i..i + |r|];
    forall k | i + |r| <= k < |s| ensures IsSpace(s[k]) {
      assert t[k - i] == s[k];
    }
    if r != [] {
      assert r[0] == t[0];
    }
  }

  /** `r` sits at offset `i` of `s` with only whitespace around it. */
  predicate StrippedAt(s: string, r: string, i: int) {
    && 0 <= i && i + |r| <= |s| && r == s[i..i + |r|]
    && (forall k :: 0 <= k < i ==> IsSpace(s[k]))
    && (forall k :: i + |r| <= k < |s| ==> IsSpace(s[k]))
  }

  /** A string with no whitespace at either end strips to itself. */
  lemma StripKeeps(s: string)
    requires EdgesClean(s)
    ensures Strip(s) == s
  {
    var r := Strip(s);
    var i :| StrippedAt(s, r, i);
  }

  /** Python's `needle in s` on two strings (case-sensitive). */
  predicate Occurs(s: string, needle: string) {
    exists i | 0 <= i <= |s| :: OccursAt(s, needle, i)
  }

  predicate OccursAt(s: string, needle: string, i: int) {
    0 <= i && i + |needle| <= |s| && s[i..i + |needle|] == needle
  }

  /** `pat` occurs at `i` and nowhere to the left of it. */
  predicate LeftmostAt(s: string, pat: string, i: int) {
    OccursAt(s, pat, i) && forall j :: 0 <= j < i ==> !OccursAt(s, pat, j)
  }

  /** `s.replace(pat, '')`: occurrences of `pat` are deleted left to right,
      without overlap; an empty `pat` leaves `s` unchanged. */
  function RemoveAll(s: string, pat: string): (r: string)
    ensures |r| <= |s|
    ensures pat == [] || !Occurs(s, pat) ==> r == s
    ensures pat != [] && Occurs(s, pat) ==> |r| + |pat| <= |s|
    decreases |s|
  {
    if pat == [] || |s| < |pat| then s
    else if s[..|pat|] == pat then
      assert OccursAt(s, pat, 0);
      RemoveAll(s[|pat|..], pat)
    else
      var rest := RemoveAll(s[1..], pat);
      OccursShift(s, pat);
      [s[0]] + rest
  }

  /** When `pat` occurs, the text before its leftmost occurrence is kept,
      that occurrence is deleted, and the deletion carries on after it. */
  lemma {:induction false} RemoveAllLeftmost(s: string, pat: string)
    requires pat != [] && Occurs(s, pat)
    ensures exists i :: LeftmostAt(s, pat, i) && RemoveAll(s, pat) == s[..i] + RemoveAll(s[i + |pat|..], pat)
    decreases |s|
  {
    var i0 :| 0 <= i0 <= |s| && OccursAt(s, pat, i0);
    assert |pat| <= |s|;
    if s[..|pat|] == pat {
      assert LeftmostAt(s, pat, 0) && s[..0] == [];
      assert RemoveAll(s, pat) == RemoveAll(s[|pat|..], pat);
    } else {
      OccursShift(s, pat);
      RemoveAllLeftmost(s[1..], pat);
      var k :| LeftmostAt(s[1..], pat, k) && RemoveAll(s[1..], pat) == s[1..][..k] + RemoveAll(s[1..][k + |pat|..], pat);
      LeftmostShift(s, pat, k);
      var front, tail := s[1..][..k], RemoveAll(s[1..][k + |pat|..], pat);
      assert tail == RemoveAll(s[k + 1 + |pat|..], pat);
      assert RemoveAll(s, pat) == [s[0]] + (front + tail);
      ConsAppend(s[0], front, tail, s[..k + 1]);
    }
  }

  lemma ConsAppend(c: char, front: string, tail: string, pre: string)
    requires [c] + front == pre
    ensures [c] + (front + tail) == pre + tail
  {
    assert [c] + (front + tail) == ([c] + front) + tail;
  }

  /** A leftmost occurrence in `s[1..]` is one place further in `s`, when
      `s` does not start with `pat`. */
  lemma LeftmostShift(s: string, pat: string, k: int)
    requires s != [] && pat != [] && |pat| <= |s| && s[..|pat|] != pat
    requires LeftmostAt(s[1..], pat, k)
    ensures LeftmostAt(s, pat, k + 1)
    ensures [s[0]] + s[1..][..k] == s[..k + 1] && s[1..][k + |pat|..] == s[k + 1 + |pat|..]
  {
    assert s[k + 1..k + 1 + |pat|] == s[1..][k..k + |pat|];
    forall j | 0 <= j < k + 1 ensures !OccursAt(s, pat, j) {
      if j > 0 && OccursAt(s, pat, j) {
        assert s[1..][j - 1..j - 1 + |pat|] == s[j..j + |pat|];
        assert OccursAt(s[1..], pat, j - 1);
      }
    }
  }

  /** Away from offset 0, an occurrence in `s` is one in `s[1..]`. */
  lemma OccursShift(s: string, pat: string)
    requires s != [] && pat != [] && |pat| <= |s| && s[..|pat|] != pat
    ensures Occurs(s, pat) <==> Occurs(s[1..], pat)
  {
    if Occurs(s, pat) {
      var i :| 0 <= i <= |s| && OccursAt(s, pat, i);
      assert i != 0;
      assert s[1..][i - 1..i - 1 + |pat|] == s[i..i + |pat|];
      assert OccursAt(s[1..], pat, i - 1);
    }
    if Occurs(s[1..], pat) {
      var j :| 0 <= j <= |s[1..]| && OccursAt(s[1..], pat, j);
      assert s[1..][j..j + |pat|] == s[j + 1..j + 1 + |pat|];
      assert OccursAt(s, pat, j + 1);
    }
  }

  /** `' '.join(words)` for the separator `sep`. */
  function Join(words: seq<string>, sep: string): (r: string)
    ensures words == [] ==> r == []
    ensures |words| == 1 ==> r == words[0]
    ensures |words| >= 2 ==> r == words[0] + sep + Join(words[1..], sep)
  {
    if words == [] then []
    else if |words| == 1 then words[0]
    else words[0] + sep + Join(words[1..], sep)
  }

  /** `s[:n]`. */
  function Take(s: string, n: nat): (r: string)
    ensures |r| == if |s| < n then |s| else n
    ensures r == s[..|r|]
  {
    if |s| <= n then s else s[..n]
  }

  /** Case folding as `re.I` applies it to the ASCII letters. */
  function Lower(c: char): char {
    if 'A' <= c <= 'Z' then (c as int + 32) as char else c
  }

  /** Every character of `s` folded. */
  function Fold(s: string): (r: string)
    ensures |r| == |s| && forall k :: 0 <= k < |s| ==> r[k] == Lower(s[k])
  {
    seq(|s|, k requires 0 <= k < |s| => Lower(s[k]))
  }

  predicate MatchesAt(s: string, w: string, i: nat)
    requires i + |w| <= |s|
  {
    forall k :: 0 <= k < |w| ==> Lower(s[i + k]) == Lower(w[k])
  }

  /** `re.search(w, s, re.I)` for a pattern `w` without metacharacters. */
  predicate ContainsCI(s: string, w: string) {
    exists i :: 0 <= i && i + |w| <= |s| && MatchesAt(s, w, i)
  }

  /** A case-insensitive search is a plain search once both the text and
      the pattern are folded. */
  lemma ContainsCIFolds(s: string, w: string)
    ensures ContainsCI(s, w) <==> Occurs(Fold(s), Fold(w))
  {
    var fs, fw := Fold(s), Fold(w);
    if ContainsCI(s, w) {
      var i :| 0 <= i && i + |w| <= |s| && MatchesAt(s, w, i);
      assert fs[i..i + |w|] == fw;
      assert OccursAt(fs, fw, i);
    }
    if Occurs(fs, fw) {
      var i :| 0 <= i <= |fs| && OccursAt(fs, fw, i);
      forall k | 0 <= k < |w| ensures Lower(s[i + k]) == Lower(w[k]) {
        assert fs[i..i + |w|][k] == fw[k];
      }
      assert MatchesAt(s, w, i);
    }
  }
}
