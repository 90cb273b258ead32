/** The flat vector index: every entry of a namespace is scored and the best k are
    returned. The raw metrics and the tokenizer are arbitrary functions; an undefined
    score is None. */
module Vectors {
  import opened Base
  import opened MemoryTypes

  datatype Metric = Cosine | Dot | Euclidean

  datatype VecEntry = VecEntry(vector: Vector, metadata: map<Bytes, Bytes>, text: Bytes)

  datatype Hybrid = Hybrid(queryText: Bytes, alpha: real)

  datatype Query = Query(vec: Vector, metric: Metric, filter: map<Bytes, Bytes>, hybrid: Option<Hybrid>)

  datatype Result = Result(id: Bytes, score: real)

  /** The functions that are not modelled. Distances are not negative. */
  datatype Measures = Measures(raw: (Vector, Vector, Metric) -> Option<real>, tokenize: Bytes -> set<Bytes>) {
    ghost predicate Sane() {
      forall a, b :: raw(a, b, Euclidean).Some? ==> raw(a, b, Euclidean).value >= 0.0
    }
  }

  predicate FilterHolds(metadata: map<Bytes, Bytes>, filter: map<Bytes, Bytes>) {
    forall k :: k in filter ==> k in metadata && metadata[k] == filter[k]
  }

  function NormalizeForBlend(score: real, metric: Metric): real
    requires metric == Euclidean ==> score >= 0.0
  {
    if metric == Euclidean then 1.0 / (1.0 + score) else score
  }

  function Blend(alpha: real, vecScore: real, kwScore: real): real {
    alpha * vecScore + (1.0 - alpha) * kwScore
  }

  /** The share of the query's tokens found in the text. */
  function KeywordScore(ms: Measures, query: Bytes, text: Bytes): real {
    var q, t := ms.tokenize(query), ms.tokenize(text);
    if q == {} || t == {} then 0.0 else |q * t| as real / |q| as real
  }

  /** An entry's score for a query, if it is eligible at all. */
  function ScoreOf(ms: Measures, e: VecEntry, q: Query): Option<real>
    requires ms.Sane()
  {
    if !FilterHolds(e.metadata, q.filter) || |e.vector| != |q.vec| then None
    else match ms.raw(q.vec, e.vector, q.metric)
      case None => None
      case Some(s) =>
        match q.hybrid
        case None => Some(s)
        case Some(h) =>
          Some(Blend(h.alpha, NormalizeForBlend(s, q.metric), KeywordScore(ms, h.queryText, e.text)))
  }

  function Eligible(ms: Measures, ns: map<Bytes, VecEntry>, q: Query): set<Result>
    requires ms.Sane()
  {
    set id | id in ns && ScoreOf(ms, ns[id], q).Some? :: Result(id, ScoreOf(ms, ns[id], q).value)
  }

  predicate HighestFirst(a: Result, b: Result) {
    if a.score != b.score then a.score > b.score else BytesLess(a.id, b.id)
  }

  predicate LowestFirst(a: Result, b: Result) {
    if a.score != b.score then a.score < b.score else BytesLess(a.id, b.id)
  }

  /** Distances rank from the smallest up, everything else from the highest down. */
  function RankingOf(q: Query): (Result, Result) -> bool {
    if q.hybrid.Some? || q.metric != Euclidean then HighestFirst else LowestFirst
  }

  lemma RankingIsTotal(q: Query)
    ensures StrictTotal(RankingOf(q))
  {
    BytesLessIsTotal();
    assert StrictTotal(HighestFirst);
    assert StrictTotal(LowestFirst);
  }

  ghost function Ranked(ms: Measures, ns: map<Bytes, VecEntry>, q: Query): seq<Result>
    requires ms.Sane()
  {
    RankingIsTotal(q);
    InOrder(RankingOf(q), Eligible(ms, ns, q))
  }

  ghost function TopK(ms: Measures, ns: map<Bytes, VecEntry>, q: Query, k: int): seq<Result>
    requires ms.Sane()
  {
    var all := Ranked(ms, ns, q);
    if k <= 0 then [] else if |all| > k then all[..k] else all
  }

  /** The first min(k, eligible) of the ranking: everything returned is eligible, in
      strict order, and nothing eligible that is left out ranks before anything returned. */
  lemma TopKIsBest(ms: Measures, ns: map<Bytes, VecEntry>, q: Query, k: int)
    requires ms.Sane() && k > 0
    ensures var top := TopK(ms, ns, q, k);
      var n := |Eligible(ms, ns, q)|;
      && |top| == (if n < k then n else k)
      && Increasing(RankingOf(q), top)
      && (forall r :: r in top ==> r in Eligible(ms, ns, q))
      && (forall r, o :: r in top && o in Eligible(ms, ns, q) && o !in top ==> RankingOf(q)(r, o))
  {
    RankingIsTotal(q);
    var all := Ranked(ms, ns, q);
    var top := TopK(ms, ns, q, k);
    DistinctCardinality(all, Eligible(ms, ns, q));
    forall r, o | r in top && o in Eligible(ms, ns, q) && o !in top ensures RankingOf(q)(r, o) {
      var i :| 0 <= i < |top| && top[i] == r;
      assert o in all;
      var j :| 0 <= j < |all| && all[j] == o;
      assert j >= |top|;
    }
  }

  /** These properties leave no other answer. */
  lemma TopKIsUnique(ms: Measures, ns: map<Bytes, VecEntry>, q: Query, k: int, out: seq<Result>)
    requires ms.Sane() && k > 0
    requires var n := |Eligible(ms, ns, q)|; |out| == if n < k then n else k
    requires Increasing(RankingOf(q), out) && forall r :: r in out ==> r in Eligible(ms, ns, q)
    requires forall r, o :: r in out && o in Eligible(ms, ns, q) && o !in out ==> RankingOf(q)(r, o)
    ensures out == TopK(ms, ns, q, k)
  {
    RankingIsTotal(q);
    var lt, all, top := RankingOf(q), Ranked(ms, ns, q), TopK(ms, ns, q, k);
    TopKIsBest(ms, ns, q, k);
    SameLengthBest(lt, out, top, Eligible(ms, ns, q));
  }

  /** Two strictly ordered selections of equal size, both closed upwards, coincide. */
  lemma SameLengthBest<T(!new)>(lt: (T, T) -> bool, a: seq<T>, b: seq<T>, all: set<T>)
    requires StrictTotal(lt) && Increasing(lt, a) && Increasing(lt, b) && |a| == |b|
    requires (forall x :: x in a ==> x in all) && (forall x :: x in b ==> x in all)
    requires forall x, y :: x in a && y in all && y !in a ==> lt(x, y)
    requires forall x, y :: x in b && y in all && y !in b ==> lt(x, y)
    ensures a == b
  {
    if exists x :: x in a && x !in b {
      var x :| x in a && x !in b;
      if exists y :: y in b && y !in a {
        assert false;
      } else {
        SameElements(a, b);
        assert false;
      }
    }
    SameElements(b, a);
    IncreasingUnique(lt, a, b);
  }

  lemma SameElements<T(!new)>(a: seq<T>, b: seq<T>)
    requires Distinct(a) && Distinct(b) && |a| == |b| && forall y :: y in b ==> y in a
    ensures forall x :: x in a ==> x in b
  {
    var sa, sb := set y | y in a, set y | y in b;
    DistinctCardinality(a, sa);
    DistinctCardinality(b, sb);
    assert sa == sb + (sa - sb);
  }

  class VectorStore {
    var namespaces: map<Bytes, map<Bytes, VecEntry>>
    const measures: Measures

    constructor (measures: Measures)
      ensures namespaces == map[] && this.measures == measures
    {
      namespaces := map[];
      this.measures := measures;
    }

    function Contents(ns: Bytes): map<Bytes, VecEntry>
      reads this
    {
      if ns in namespaces then namespaces[ns] else map[]
    }

    method Upsert(ns: Bytes, id: Bytes, vec: Vector, metadata: map<Bytes, Bytes>, text: Bytes)
      modifies this
      ensures Contents(ns) == old(Contents(ns))[id := VecEntry(vec, metadata, text)]
      ensures forall n :: n != ns ==> Contents(n) == old(Contents(n))
    {
      if ns !in namespaces {
        namespaces := namespaces[ns := map[]];
      }
      namespaces := namespaces[ns := namespaces[ns][id := VecEntry(vec, metadata, text)]];
    }

    method Delete(ns: Bytes, id: Bytes) returns (existed: bool)
      modifies this
      ensures existed <==> id in old(Contents(ns))
      ensures Contents(ns) == old(Contents(ns)) - {id}
      ensures forall n :: n != ns ==> Contents(n) == old(Contents(n))
    {
      if ns !in namespaces { return false; }
      if id !in namespaces[ns] { return false; }
      namespaces := namespaces[ns := namespaces[ns] - {id}];
      return true;
    }

    method MatchesFilter(metadata: map<Bytes, Bytes>, filter: map<Bytes, Bytes>) returns (r: bool)
      ensures r <==> FilterHolds(metadata, filter)
    {
      var rest := filter.Keys;
      while rest != {}
        invariant rest <= filter.Keys
        invariant forall k :: k in filter && k !in rest ==> k in metadata && metadata[k] == filter[k]
        decreases rest
      {
        var k :| k in rest;
        rest := rest - {k};
        if k !in metadata || metadata[k] != filter[k] { return false; }
      }
      return true;
    }

    method KeywordOverlap(query: Bytes, text: Bytes) returns (r: real)
      ensures r == KeywordScore(measures, query, text)
    {
      var q := measures.tokenize(query);
      if q == {} { return 0.0; }
      var t := measures.tokenize(text);
      if t == {} { return 0.0; }
      var matched, rest := 0, q;
      ghost var seen: set<Bytes> := {};
      while rest != {}
        invariant rest <= q && matched == |seen|
        invariant forall k :: k in seen <==> k in q && k !in rest && k in t
        decreases rest
      {
        var tok :| tok in rest;
        rest := rest - {tok};
        if tok in t {
          seen := seen + {tok};
          matched := matched + 1;
        }
      }
      assert seen == q * t;
      r := matched as real / |q| as real;
    }

    /** The candidates are visited in arbitrary order; the answer does not depend on it. */
    method Search(ns: Bytes, q: Query, k: int) returns (out: seq<Result>)
      requires measures.Sane()
      ensures out == TopK(measures, Contents(ns), q, k)
    {
      if k <= 0 { return []; }
      var entries := Contents(ns);
      var rest := entries.Keys;
      out := [];
      while rest != {}
        invariant rest <= entries.Keys && Distinct(out)
        invariant forall r :: r in out <==>
          r.id in entries && r.id !in rest && ScoreOf(measures, entries[r.id], q) == Some(r.score)
        decreases rest
      {
        var id :| id in rest;
        rest := rest - {id};
        var s := Score(entries[id], q);
        if s == None { continue; }
        out := out + [Result(id, s.value)];
      }
      RankingIsTotal(q);
      SortByIsInOrder(RankingOf(q), out, Eligible(measures, entries, q));
      out := SortBy(RankingOf(q), out);
      if |out| > k { out := out[..k]; }
    }

    method Score(e: VecEntry, q: Query) returns (r: Option<real>)
      requires measures.Sane()
      ensures r == ScoreOf(measures, e, q)
    {
      var matches := MatchesFilter(e.metadata, q.filter);
      if !matches { return None; }
      if |e.vector| != |q.vec| { return None; }
      var raw := measures.raw(q.vec, e.vector, q.metric);
      if raw == None { return None; }
      var score := raw.value;
      match q.hybrid
      case None => return Some(score);
      case Some(h) =>
        var vecScore := NormalizeForBlend(score, q.metric);
        var kwScore := KeywordOverlap(h.queryText, e.text);
        return Some(Blend(h.alpha, vecScore, kwScore));
    }
  }
}
