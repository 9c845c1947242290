/// The best-match selection of `check_syllabus`: every sentence is paired
/// with its relevance probability, the pairs are sorted in place by
/// probability, highest first, with Python's stable `list.sort`, and the head
/// of the sorted list is the best match; it counts as found at 0.35 or more.
module BestMatch {

  datatype Scored = Scored(sentence: string, prob: real)

  const MatchThreshold: real := 0.35

  /** The pairs with probability `v`, in their order. */
  function WithProb(s: seq<Scored>, v: real): (r: seq<Scored>)
    ensures |r| <= |s|
    decreases |s|
  {
    if |s| == 0 then []
    else (if s[0].prob == v then [s[0]] else []) + WithProb(s[1..], v)
  }

  ghost predicate SortedDescending(s: seq<Scored>) {
    forall p, q :: 0 <= p < q < |s| ==> s[p].prob >= s[q].prob
  }

  /** `t` is `s` reordered, with pairs of equal probability kept in their
      relative order: what a stable sort by probability may return. */
  ghost predicate StablyReordered(t: seq<Scored>, s: seq<Scored>) {
    forall v :: WithProb(t, v) == WithProb(s, v)
  }

  /** The index of the first pair of maximal probability. */
  function FirstBest(s: seq<Scored>): (k: nat)
    requires |s| > 0
    ensures k < |s|
    ensures forall i :: 0 <= i < |s| ==> s[i].prob <= s[k].prob
    ensures forall i :: 0 <= i < k ==> s[i].prob < s[k].prob
    decreases |s|
  {
    if |s| == 1 then 0
    else
      var k := FirstBest(s[..|s| - 1]);
      if s[|s| - 1].prob > s[k].prob then |s| - 1 else k
  }

  lemma {:induction false} WithProbAppend(a: seq<Scored>, b: seq<Scored>, v: real)
    ensures WithProb(a + b, v) == WithProb(a, v) + WithProb(b, v)
    decreases |a|
  {
    if |a| == 0 {
      assert a + b == b;
    } else {
      var h := if a[0].prob == v then [a[0]] else [];
      assert (a + b)[0] == a[0] && (a + b)[1..] == a[1..] + b;
      assert WithProb(a + b, v) == h + WithProb(a[1..] + b, v);
      WithProbAppend(a[1..], b, v);
      assert h + (WithProb(a[1..], v) + WithProb(b, v)) == (h + WithProb(a[1..], v)) + WithProb(b, v);
    }
  }

  /** Swapping two neighbours of different probability changes no
      `WithProb` list. */
  lemma SwapKeepsWithProb(s: seq<Scored>, j: nat, v: real)
    requires 0 < j < |s| && s[j - 1].prob != s[j].prob
    ensures WithProb(s[j - 1 := s[j]][j := s[j - 1]], v) == WithProb(s, v)
  {
    var t := s[j - 1 := s[j]][j := s[j - 1]];
    assert s == s[..j - 1] + [s[j - 1], s[j]] + s[j + 1..];
    assert t == s[..j - 1] + [s[j], s[j - 1]] + s[j + 1..];
    WithProbAppend(s[..j - 1] + [s[j - 1], s[j]], s[j + 1..], v);
    WithProbAppend(s[..j - 1], [s[j - 1], s[j]], v);
    WithProbAppend(s[..j - 1] + [s[j], s[j - 1]], s[j + 1..], v);
    WithProbAppend(s[..j - 1], [s[j], s[j - 1]], v);
    assert [s[j - 1], s[j]][1..] == [s[j]];
    assert [s[j], s[j - 1]][1..] == [s[j - 1]];
  }

  /** Swapping two neighbours of different probability is a stable
      reordering. */
  lemma SwapReorders(s: seq<Scored>, j: nat)
    requires 0 < j < |s| && s[j - 1].prob != s[j].prob
    ensures StablyReordered(s[j - 1 := s[j]][j := s[j - 1]], s)
  {
    forall v ensures WithProb(s[j - 1 := s[j]][j := s[j - 1]], v) == WithProb(s, v) {
      SwapKeepsWithProb(s, j, v);
    }
  }

  /** `results.sort(key=lambda x: x[1], reverse=True)`: sorted by
      probability, highest first, stably. */
  method SortByProbDescending(a: array<Scored>)
    modifies a
    ensures SortedDescending(a[..])
    ensures StablyReordered(a[..], old(a[..]))
  {
    if a.Length == 0 {
      return;
    }
    var i := 1;
    while i < a.Length
      invariant 1 <= i <= a.Length
      invariant SortedDescending(a[..i])
      invariant StablyReordered(a[..], old(a[..]))
    {
      InsertNext(a, i);
      i := i + 1;
    }
    assert a[..i] == a[..];
  }

  /** One insertion step: `a[i]` moves left past every pair of strictly
      lower probability. */
  method InsertNext(a: array<Scored>, i: nat)
    requires i < a.Length
    requires SortedDescending(a[..i])
    modifies a
    ensures SortedDescending(a[..i + 1])
    ensures StablyReordered(a[..], old(a[..]))
    ensures a[i + 1..] == old(a[i + 1..])
  {
    var j := i;
    while j > 0 && a[j - 1].prob < a[j].prob
      invariant 0 <= j <= i
      invariant forall p, q :: 0 <= p < q <= i && p != j && q != j ==> a[p].prob >= a[q].prob
      invariant forall q :: j < q <= i ==> a[j].prob >= a[q].prob
      invariant StablyReordered(a[..], old(a[..]))
      invariant a[i + 1..] == old(a[i + 1..])
    {
      SwapReorders(a[..], j);
      a[j - 1], a[j] := a[j], a[j - 1];
      j := j - 1;
    }
  }

  lemma {:induction false} WithProbMember(s: seq<Scored>, v: real, x: Scored)
    ensures x in WithProb(s, v) <==> x in s && x.prob == v
    decreases |s|
  {
    if |s| > 0 {
      WithProbMember(s[1..], v, x);
      assert x in s <==> x == s[0] || x in s[1..];
    }
  }

  /** The pairs before the first one of probability `v` are skipped. */
  lemma {:induction false} WithProbHead(s: seq<Scored>, k: nat)
    requires k < |s|
    requires forall i :: 0 <= i < k ==> s[i].prob != s[k].prob
    ensures WithProb(s, s[k].prob) != [] && WithProb(s, s[k].prob)[0] == s[k]
    decreases k
  {
    if k > 0 {
      WithProbHead(s[1..], k - 1);
    }
  }

  /** The head of a stable descending reordering is the first pair of
      maximal probability, the sentence earliest in the document among the
      best-scored ones; it passes the 0.35 threshold exactly when some
      sentence does. */
  lemma SortedHead(sorted: seq<Scored>, s: seq<Scored>)
    requires |s| > 0
    requires SortedDescending(sorted) && StablyReordered(sorted, s)
    ensures |sorted| == |s|
    ensures sorted[0] == s[FirstBest(s)]
    ensures sorted[0].prob >= MatchThreshold
            <==> exists i :: 0 <= i < |s| && s[i].prob >= MatchThreshold
  {
    var k := FirstBest(s);
    var m := s[k].prob;
    WithProbHead(s, k);
    assert WithProb(sorted, m) == WithProb(s, m);
    var h := WithProb(sorted, m)[0];
    WithProbMember(sorted, m, h);
    assert |sorted| > 0;
    WithProbMember(sorted, sorted[0].prob, sorted[0]);
    WithProbMember(s, sorted[0].prob, sorted[0]);
    assert sorted[0].prob == m;
    WithProbHead(sorted, 0);
    StableIsPermutation(sorted, s);
    assert |multiset(sorted)| == |sorted| && |multiset(s)| == |s|;
  }

  /** A stable reordering is a permutation. */
  lemma {:induction false} StableIsPermutation(t: seq<Scored>, s: seq<Scored>)
    requires StablyReordered(t, s)
    ensures multiset(t) == multiset(s)
  {
    forall x ensures multiset(t)[x] == multiset(s)[x] {
      assert WithProb(t, x.prob) == WithProb(s, x.prob);
      CountIn(t, x);
      CountIn(s, x);
    }
  }

  /** How often `x` occurs is read off the pairs of its probability. */
  lemma {:induction false} CountIn(s: seq<Scored>, x: Scored)
    ensures multiset(s)[x] == multiset(WithProb(s, x.prob))[x]
    decreases |s|
  {
    if |s| > 0 {
      CountIn(s[1..], x);
      assert s == [s[0]] + s[1..];
    }
  }
}
