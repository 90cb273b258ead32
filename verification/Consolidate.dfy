/** Greedy deduplication of memories: newest first, a memory is kept unless it is
    similar to one already kept. Cosine similarity is any partial function. */
module Consolidate {
  import opened Base
  import opened MemoryTypes

  type Cosine = (Vector, Vector) -> Option<real>

  predicate Similar(cos: Cosine, threshold: real, m: Memory, rep: Memory) {
    var score := cos(m.embedding, rep.embedding);
    score.Some? && score.value >= threshold
  }

  /** Most recent first; equal times by id. */
  predicate Before(a: Memory, b: Memory) {
    if a.createdAt != b.createdAt then a.createdAt > b.createdAt else BytesLess(a.id, b.id)
  }

  lemma BeforeIsStrictWeak(a: Memory, b: Memory, c: Memory)
    ensures !(Before(a, b) && Before(b, a))
    ensures Before(a, b) && !Before(c, b) ==> Before(a, c)
    ensures a.id != b.id ==> Before(a, b) || Before(b, a)
  {
    BytesLessTrichotomy(a.id, b.id);
    BytesLessTrichotomy(b.id, c.id);
    if a.createdAt == b.createdAt == c.createdAt && BytesLess(a.id, b.id) && BytesLess(b.id, c.id) {
      BytesLessTransitive(a.id, b.id, c.id);
    }
  }

  /** A result the library sort may return: a permutation in order. */
  ghost predicate IsSorting(ms: seq<Memory>, sorted: seq<Memory>) {
    multiset(sorted) == multiset(ms) && InOrderWeakly(sorted)
  }

  ghost predicate InOrderWeakly(s: seq<Memory>) {
    forall i, j :: 0 <= i < j < |s| ==> !Before(s[j], s[i])
  }

  lemma {:induction false} InsertInOrder(x: Memory, s: seq<Memory>)
    requires InOrderWeakly(s)
    ensures InOrderWeakly(Insert(Before, x, s))
  {
    var t := Insert(Before, x, s);
    if s == [] {
    } else if Before(x, s[0]) {
      forall j | 0 <= j < |s| ensures !Before(s[j], x) { BeforeIsStrictWeak(x, s[0], s[j]); BeforeIsStrictWeak(x, s[j], x); }
    } else {
      InsertInOrder(x, s[1..]);
      SameMultisetSameElements(Insert(Before, x, s[1..]), [x] + s[1..]);
      var u := Insert(Before, x, s[1..]);
      assert t == [s[0]] + u;
      forall j | 0 <= j < |u| ensures !Before(u[j], s[0]) { assert u[j] in [x] + s[1..]; }
    }
  }

  lemma {:induction false} SortByInOrder(s: seq<Memory>)
    ensures InOrderWeakly(SortBy(Before, s))
  {
    if s != [] {
      SortByInOrder(s[1..]);
      InsertInOrder(s[0], SortBy(Before, s[1..]));
    }
  }

  method SortMostRecentFirst(ms: seq<Memory>) returns (sorted: seq<Memory>)
    ensures IsSorting(ms, sorted)
  {
    SortByInOrder(ms);
    sorted := SortBy(Before, ms);
  }

  // ------------------------------------------------------------------ what is kept

  /** The positions kept: exactly those not similar to an earlier kept one. */
  ghost predicate Selection(cos: Cosine, threshold: real, order: seq<Memory>, kept: set<nat>) {
    && (forall i :: i in kept ==> i < |order|)
    && (forall i: nat :: i < |order| ==> (i in kept <==> !Covered(cos, threshold, order, kept, i)))
  }

  ghost predicate Covered(cos: Cosine, threshold: real, order: seq<Memory>, kept: set<nat>, i: nat)
    requires i < |order|
  {
    exists j: nat :: j in kept && j < i && Similar(cos, threshold, order[i], order[j])
  }

  /** The kept ones among the first n, in order. */
  ghost function Pick(order: seq<Memory>, kept: set<nat>, n: nat): seq<Memory>
    requires n <= |order|
  {
    if n == 0 then [] else Pick(order, kept, n - 1) + (if n - 1 in kept then [order[n - 1]] else [])
  }

  lemma {:induction false} SelectionUnique(cos: Cosine, threshold: real, order: seq<Memory>, a: set<nat>, b: set<nat>, i: nat)
    requires Selection(cos, threshold, order, a) && Selection(cos, threshold, order, b) && i < |order|
    ensures i in a <==> i in b
    decreases i
  {
    forall j: nat | j < i ensures j in a <==> j in b { SelectionUnique(cos, threshold, order, a, b, j); }
    assert Covered(cos, threshold, order, a, i) <==> Covered(cos, threshold, order, b, i);
  }

  lemma {:induction false} PickUnique(order: seq<Memory>, a: set<nat>, b: set<nat>, n: nat)
    requires n <= |order| && forall i: nat :: i < |order| ==> (i in a <==> i in b)
    ensures Pick(order, a, n) == Pick(order, b, n)
  {
    if n > 0 { PickUnique(order, a, b, n - 1); }
  }

  lemma {:induction false} PickedFrom(order: seq<Memory>, kept: set<nat>, n: nat, k: nat) returns (i: nat)
    requires n <= |order| && k < |Pick(order, kept, n)|
    ensures i < n && i in kept && Pick(order, kept, n)[k] == order[i] && |Pick(order, kept, i)| == k
    decreases n
  {
    if k < |Pick(order, kept, n - 1)| {
      i := PickedFrom(order, kept, n - 1, k);
    } else {
      i := n - 1;
    }
  }

  lemma {:induction false} PickedAt(order: seq<Memory>, kept: set<nat>, n: nat, i: nat)
    requires i < n <= |order| && i in kept
    ensures |Pick(order, kept, i)| < |Pick(order, kept, n)| && Pick(order, kept, n)[|Pick(order, kept, i)|] == order[i]
    decreases n
  {
    if i < n - 1 { PickedAt(order, kept, n - 1, i); }
  }

  lemma {:induction false} PickGrows(order: seq<Memory>, kept: set<nat>, m: nat, n: nat)
    requires m <= n <= |order|
    ensures |Pick(order, kept, m)| <= |Pick(order, kept, n)|
    decreases n
  {
    if m < n { PickGrows(order, kept, m, n - 1); }
  }

  /** The deduplication itself, on any order the sort may come up with. */
  method Dedupe(cos: Cosine, threshold: real, ms: seq<Memory>) returns (reps: seq<Memory>)
    ensures IsDedupe(cos, threshold, ms, reps)
  {
    var order := SortMostRecentFirst(ms);
    reps := [];
    ghost var kept: set<nat> := {};
    for i := 0 to |order|
      invariant SelectedUpTo(cos, threshold, order, kept, i)
      invariant reps == Pick(order, kept, i)
    {
      var m := order[i];
      CoveredByReps(cos, threshold, order, kept, i);
      ExtendSelection(cos, threshold, order, kept, i);
      var duplicate := Matches(cos, threshold, m, reps);
      if !duplicate {
        kept := kept + {i};
        reps := reps + [m];
      }
    }
    assert Selection(cos, threshold, order, kept);
  }

  /** A selection among the first n. */
  ghost predicate SelectedUpTo(cos: Cosine, threshold: real, order: seq<Memory>, kept: set<nat>, n: nat)
    requires n <= |order|
  {
    && (forall i :: i in kept ==> i < n)
    && (forall i: nat :: i < n ==> (i in kept <==> !Covered(cos, threshold, order, kept, i)))
  }

  lemma ExtendSelection(cos: Cosine, threshold: real, order: seq<Memory>, kept: set<nat>, n: nat)
    requires n < |order| && SelectedUpTo(cos, threshold, order, kept, n)
    ensures var more := if Covered(cos, threshold, order, kept, n) then kept else kept + {n};
      && SelectedUpTo(cos, threshold, order, more, n + 1)
      && Pick(order, more, n + 1)
         == Pick(order, kept, n) + if Covered(cos, threshold, order, kept, n) then [] else [order[n]]
  {
    var more := kept + {n};
    forall i: nat | i <= n ensures Covered(cos, threshold, order, more, i) <==> Covered(cos, threshold, order, kept, i) {}
    PickSame(order, kept, more, n);
  }

  /** The inner loop: is m similar to one of the representatives so far? */
  method Matches(cos: Cosine, threshold: real, m: Memory, reps: seq<Memory>) returns (duplicate: bool)
    ensures duplicate <==> exists k :: 0 <= k < |reps| && Similar(cos, threshold, m, reps[k])
  {
    for k := 0 to |reps|
      invariant forall l :: 0 <= l < k ==> !Similar(cos, threshold, m, reps[l])
    {
      var score := cos(m.embedding, reps[k].embedding);
      if score.Some? && score.value >= threshold {
        assert Similar(cos, threshold, m, reps[k]);
        return true;
      }
    }
    return false;
  }

  lemma CoveredByReps(cos: Cosine, threshold: real, order: seq<Memory>, kept: set<nat>, i: nat)
    requires i < |order| && forall j :: j in kept ==> j < i
    ensures var reps := Pick(order, kept, i);
      Covered(cos, threshold, order, kept, i)
      <==> exists k :: 0 <= k < |reps| && Similar(cos, threshold, order[i], reps[k])
  {
    var reps := Pick(order, kept, i);
    if k :| 0 <= k < |reps| && Similar(cos, threshold, order[i], reps[k]) {
      var j := PickedFrom(order, kept, i, k);
    }
    if Covered(cos, threshold, order, kept, i) {
      var j: nat :| j in kept && j < i && Similar(cos, threshold, order[i], order[j]);
      PickedAt(order, kept, i, j);
    }
  }

  lemma {:induction false} PickSame(order: seq<Memory>, a: set<nat>, b: set<nat>, n: nat)
    requires n <= |order| && forall i: nat :: i < n ==> (i in a <==> i in b)
    ensures Pick(order, a, n) == Pick(order, b, n)
  {
    if n > 0 { PickSame(order, a, b, n - 1); }
  }

  // ------------------------------------------------------------------- consequences

  ghost predicate IsDedupe(cos: Cosine, threshold: real, ms: seq<Memory>, reps: seq<Memory>) {
    exists sorted, kept :: IsSorting(ms, sorted) && Selection(cos, threshold, sorted, kept)
                           && reps == Pick(sorted, kept, |sorted|)
  }

  /** No representative is similar to a more recent one, and every memory is kept or
      similar to a representative at least as recent. */
  lemma DedupeCovers(cos: Cosine, threshold: real, ms: seq<Memory>, reps: seq<Memory>)
    requires IsDedupe(cos, threshold, ms, reps)
    ensures forall j, k :: 0 <= j < k < |reps| ==> !Similar(cos, threshold, reps[k], reps[j])
    ensures forall j, k :: 0 <= j < k < |reps| ==> reps[j].createdAt >= reps[k].createdAt
    ensures forall r :: r in reps ==> r in ms
    ensures forall m :: m in ms ==> m in reps || exists r :: r in reps && Similar(cos, threshold, m, r) && r.createdAt >= m.createdAt
  {
    var sorted, kept :| IsSorting(ms, sorted) && Selection(cos, threshold, sorted, kept)
                        && reps == Pick(sorted, kept, |sorted|);
    SameMultisetSameElements(ms, sorted);
    forall j, k | 0 <= j < k < |reps|
      ensures !Similar(cos, threshold, reps[k], reps[j]) && reps[j].createdAt >= reps[k].createdAt
    {
      var a := PickedFrom(sorted, kept, |sorted|, j);
      var b := PickedFrom(sorted, kept, |sorted|, k);
      if b <= a { PickGrows(sorted, kept, b, a); }
      assert !Covered(cos, threshold, sorted, kept, b);
      assert !Before(sorted[b], sorted[a]);
    }
    forall r | r in reps ensures r in ms {
      var k :| 0 <= k < |reps| && reps[k] == r;
      var a := PickedFrom(sorted, kept, |sorted|, k);
    }
    forall m | m in ms && m !in reps
      ensures exists r :: r in reps && Similar(cos, threshold, m, r) && r.createdAt >= m.createdAt
    {
      var i :| 0 <= i < |sorted| && sorted[i] == m;
      if i in kept { PickedAt(sorted, kept, |sorted|, i); }
      assert Covered(cos, threshold, sorted, kept, i);
      var j: nat :| j in kept && j < i && Similar(cos, threshold, sorted[i], sorted[j]);
      PickedAt(sorted, kept, |sorted|, j);
      assert !Before(sorted[i], sorted[j]);
      assert sorted[j] in reps;
    }
  }

  ghost predicate UniqueIds(ms: seq<Memory>) {
    forall i, j :: 0 <= i < j < |ms| ==> ms[i].id != ms[j].id
  }

  lemma SortingIsStrict(ms: seq<Memory>, sorted: seq<Memory>)
    requires UniqueIds(ms) && IsSorting(ms, sorted)
    ensures Increasing(Before, sorted)
  {
    SameMultisetSameElements(ms, sorted);
    forall i, j | 0 <= i < j < |sorted| ensures Before(sorted[i], sorted[j]) {
      if sorted[i].id == sorted[j].id { DistinctIdsInSorting(ms, sorted, i, j); }
      BeforeIsStrictWeak(sorted[i], sorted[j], sorted[j]);
    }
  }

  lemma DistinctIdsInSorting(ms: seq<Memory>, sorted: seq<Memory>, i: nat, j: nat)
    requires UniqueIds(ms) && multiset(ms) == multiset(sorted) && i < j < |sorted|
    ensures sorted[i].id != sorted[j].id
  {
    SameMultisetSameElements(ms, sorted);
    assert sorted[i] in ms && sorted[j] in ms;
    if sorted[i] == sorted[j] {
      Twice(sorted, i, j);
      OnceOnly(ms, sorted[i]);
    }
  }

  lemma Twice(s: seq<Memory>, i: nat, j: nat)
    requires i < j < |s| && s[i] == s[j]
    ensures multiset(s)[s[i]] >= 2
  {
    assert s == s[..i] + [s[i]] + s[i + 1..j] + [s[j]] + s[j + 1..];
  }

  lemma {:induction false} OnceOnly(ms: seq<Memory>, m: Memory)
    requires UniqueIds(ms)
    ensures multiset(ms)[m] <= 1
  {
    if ms != [] {
      assert ms == [ms[0]] + ms[1..];
      OnceOnly(ms[1..], m);
      forall i | 0 <= i < |ms[1..]| ensures ms[1..][i] != ms[0] { assert ms[1..][i] == ms[i + 1]; }
    }
  }

  /** With unique ids the result does not depend on the order of the input. */
  lemma DedupeIsOrderIndependent(cos: Cosine, threshold: real, ms: seq<Memory>, ms': seq<Memory>,
                                 reps: seq<Memory>, reps': seq<Memory>)
    requires UniqueIds(ms) && multiset(ms) == multiset(ms')
    requires IsDedupe(cos, threshold, ms, reps) && IsDedupe(cos, threshold, ms', reps')
    ensures reps == reps'
  {
    var s, a :| IsSorting(ms, s) && Selection(cos, threshold, s, a) && reps == Pick(s, a, |s|);
    var t, b :| IsSorting(ms', t) && Selection(cos, threshold, t, b) && reps' == Pick(t, b, |t|);
    assert IsSorting(ms, t);
    SortingIsStrict(ms, s);
    SortingIsStrict(ms, t);
    SameMultisetSameElements(s, t);
    forall x, y ensures !(Before(x, y) && Before(y, x)) { BeforeIsStrictWeak(x, y, y); }
    IncreasingUnique(Before, s, t);
    forall i: nat | i < |s| ensures i in a <==> i in b { SelectionUnique(cos, threshold, s, a, b, i); }
    PickUnique(s, a, b, |s|);
  }

  /** The same by comparison of times, ids and likeness alone: the representatives are among the
      memories, the most recent first and at one time by ascending id; none is as alike to an earlier
      one as the threshold asks; and whatever is dropped is that alike to one at least as recent. */
  lemma DedupeMeans(cos: Cosine, threshold: real, ms: seq<Memory>, reps: seq<Memory>)
    requires IsDedupe(cos, threshold, ms, reps)
    ensures forall r :: r in reps ==> r in ms
    ensures forall j, k :: 0 <= j < k < |reps| ==>
      && reps[j].createdAt >= reps[k].createdAt
      && (reps[j].createdAt == reps[k].createdAt ==> !BytesLess(reps[k].id, reps[j].id))
      && var likeness := cos(reps[k].embedding, reps[j].embedding);
         likeness.Some? ==> likeness.value < threshold
    ensures forall m :: m in ms && m !in reps ==>
      exists r :: r in reps && r.createdAt >= m.createdAt && cos(m.embedding, r.embedding).Some?
                  && cos(m.embedding, r.embedding).value >= threshold
  {
    DedupeCovers(cos, threshold, ms, reps);
    var sorted, kept :| IsSorting(ms, sorted) && Selection(cos, threshold, sorted, kept)
                        && reps == Pick(sorted, kept, |sorted|);
    forall j, k | 0 <= j < k < |reps| ensures !Before(reps[k], reps[j]) {
      var a := PickedFrom(sorted, kept, |sorted|, j);
      var b := PickedFrom(sorted, kept, |sorted|, k);
      if b <= a { PickGrows(sorted, kept, b, a); }
    }
    forall j, k | 0 <= j < k < |reps| ensures !Similar(cos, threshold, reps[k], reps[j]) {}
    forall m | m in ms && m !in reps
      ensures exists r :: r in reps && r.createdAt >= m.createdAt && cos(m.embedding, r.embedding).Some?
                          && cos(m.embedding, r.embedding).value >= threshold
    {
      var r :| r in reps && Similar(cos, threshold, m, r) && r.createdAt >= m.createdAt;
    }
  }
}
