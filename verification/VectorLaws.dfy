/** What a vector search answers, by comparison of scores alone, and what a score is made of. */
module VectorLaws {
  import opened Base
  import opened MemoryTypes
  import opened Vectors

  /** The query's answers are worth more the higher they score; for plain distances, the lower. */
  predicate HigherIsBetter(q: Query) {
    q.hybrid.Some? || q.metric == Cosine || q.metric == Dot
  }

  /** No worse: at least as good a score, and at the same score the lesser id. */
  predicate NoWorse(q: Query, r: Result, o: Result) {
    && (if HigherIsBetter(q) then r.score >= o.score else r.score <= o.score)
    && (r.score == o.score ==> BytesLess(r.id, o.id))
  }

  /** Search: the answer descends in score, or ascends for plain distances, equals by ascending id;
      it has k results, or all there are; and nothing left out is better than anything in it. */
  lemma SearchFindsTheBest(ms: Measures, ns: map<Bytes, VecEntry>, q: Query, k: int)
    requires ms.Sane() && k > 0
    ensures var top := TopK(ms, ns, q, k);
      && |top| == (if |Eligible(ms, ns, q)| < k then |Eligible(ms, ns, q)| else k)
      && (forall i, j :: 0 <= i < j < |top| ==> NoWorse(q, top[i], top[j]))
      && (forall r :: r in top ==> r in Eligible(ms, ns, q))
      && (forall r, o :: r in top && o in Eligible(ms, ns, q) && o !in top ==> NoWorse(q, r, o))
  {
    TopKIsBest(ms, ns, q, k);
  }

  /** The candidates: one for each entry that has every filter field as asked, as many dimensions as
      the query, and a defined raw score. */
  lemma EligibleExactlyWhen(ms: Measures, ns: map<Bytes, VecEntry>, q: Query, id: Bytes)
    requires ms.Sane()
    ensures (exists r :: r in Eligible(ms, ns, q) && r.id == id) <==>
      id in ns && |ns[id].vector| == |q.vec| && ms.raw(q.vec, ns[id].vector, q.metric).Some?
      && forall f :: f in q.filter ==> f in ns[id].metadata && ns[id].metadata[f] == q.filter[f]
    ensures forall r :: r in Eligible(ms, ns, q) && r.id == id ==>
      id in ns && ScoreOf(ms, ns[id], q) == Some(r.score)
  {
    if id in ns && ScoreOf(ms, ns[id], q).Some? {
      assert Result(id, ScoreOf(ms, ns[id], q).value) in Eligible(ms, ns, q);
    }
  }

  /** Nothing is asked for, nothing is answered. */
  lemma NoneAsked(ms: Measures, ns: map<Bytes, VecEntry>, q: Query, k: int)
    requires ms.Sane() && k <= 0
    ensures TopK(ms, ns, q, k) == []
  {}

  // ---------------------------------------------------------------------- scores

  /** Without a hybrid part the score is the raw one. */
  lemma PlainScore(ms: Measures, e: VecEntry, q: Query)
    requires ms.Sane() && ScoreOf(ms, e, q).Some? && q.hybrid == None
    ensures ScoreOf(ms, e, q) == ms.raw(q.vec, e.vector, q.metric)
  {}

  /** Alpha is the weight of the vector part: at 1 only it counts, at 0 only the words. */
  lemma AlphaWeighs(ms: Measures, e: VecEntry, q: Query)
    requires ms.Sane() && ScoreOf(ms, e, q).Some? && q.hybrid.Some?
    ensures q.hybrid.value.alpha == 1.0 ==>
      var raw := ms.raw(q.vec, e.vector, q.metric).value;
      ScoreOf(ms, e, q) == Some(if q.metric == Euclidean then NormalizeForBlend(raw, Euclidean) else raw)
    ensures q.hybrid.value.alpha == 0.0 ==> ScoreOf(ms, e, q) == Some(KeywordScore(ms, q.hybrid.value.queryText, e.text))
  {}

  /** In between, the blend lies between the two, nearer the vector part the greater alpha is. */
  lemma BlendLiesBetween(alpha: real, more: real, v: real, w: real)
    requires 0.0 <= alpha <= more <= 1.0
    ensures v <= w ==> v <= Blend(more, v, w) <= Blend(alpha, v, w) <= w
    ensures w <= v ==> w <= Blend(alpha, v, w) <= Blend(more, v, w) <= v
  {
    assert Blend(alpha, v, w) == w - alpha * (w - v) && Blend(more, v, w) == w - more * (w - v);
    ScaledApart(alpha, more, w - v);
  }

  lemma ScaledApart(a: real, b: real, d: real)
    requires 0.0 <= a <= b <= 1.0
    ensures d >= 0.0 ==> 0.0 <= a * d <= b * d <= d
    ensures d <= 0.0 ==> d <= b * d <= a * d <= 0.0
  {
    assert b * d - a * d == (b - a) * d && d - b * d == (1.0 - b) * d;
  }

  /** A distance is turned into a likeness: 1 at no distance, less the greater it is, never 0. */
  lemma NearerIsMoreAlike(d: real, e: real)
    requires 0.0 <= d < e
    ensures NormalizeForBlend(0.0, Euclidean) == 1.0
    ensures 0.0 < NormalizeForBlend(e, Euclidean) < NormalizeForBlend(d, Euclidean) <= 1.0
  {
    Reciprocals(1.0 + d, 1.0 + e);
    Reciprocals(1.0, 1.0 + e);
    if d > 0.0 { Reciprocals(1.0, 1.0 + d); }
  }

  lemma Reciprocals(x: real, y: real)
    requires 0.0 < x < y
    ensures 0.0 < 1.0 / y < 1.0 / x
  {
    assert 1.0 / x * x == 1.0 && 1.0 / y * y == 1.0;
  }

  /** The words' part is the share of the query's words that the text has: all of them exactly at 1,
      none exactly at 0. */
  lemma WordsCount(ms: Measures, query: Bytes, text: Bytes)
    requires ms.tokenize(query) != {}
    ensures var q, t, score := ms.tokenize(query), ms.tokenize(text), KeywordScore(ms, query, text);
      && 0.0 <= score <= 1.0
      && (score == 1.0 <==> q <= t) && (score == 0.0 <==> q * t == {})
      && score * |q| as real == |q * t| as real
  {
    var q, t := ms.tokenize(query), ms.tokenize(text);
    assert q * t <= q;
    Subset(q * t, q);
    Share(|q * t|, |q|);
  }

  lemma Subset(a: set<Bytes>, b: set<Bytes>)
    requires a <= b
    ensures |a| <= |b| && (|a| == |b| <==> a == b) && (|a| == 0 <==> a == {})
  {
    assert b == a + (b - a);
  }

  lemma SignOfProduct(a: real, y: real)
    requires y > 0.0
    ensures (a * y > 0.0 <==> a > 0.0) && (a * y == 0.0 <==> a == 0.0)
  {}

  lemma Share(n: nat, of: nat)
    requires n <= of && of > 0
    ensures var s := n as real / of as real;
      0.0 <= s <= 1.0 && s * of as real == n as real && (s == 1.0 <==> n == of) && (s == 0.0 <==> n == 0)
  {
    var y := of as real;
    var s := n as real / y;
    assert s * y == n as real;
    assert (1.0 - s) * y == y - n as real;
    SignOfProduct(s, y);
    SignOfProduct(1.0 - s, y);
  }
}
