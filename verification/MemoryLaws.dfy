/** What storing and searching memories mean for the caller, in terms of the records alone. */
module MemoryLaws {
  import opened Base
  import opened MemoryTypes
  import opened Vectors
  import opened MemoryState
  import opened VectorLaws

  // ---------------------------------------------------------------------- storing

  /** A stored memory is what was given; only its version and its creation time are the store's: one
      more than its predecessor's and its predecessor's, or 1 and now. The index has its vector. */
  lemma PutStores(s: State, m: Memory, now: int)
    ensures var t, p := Put(s, m, now), (m.workspaceID, m.id);
      && p in t.records && p in t.index
      && t.records[p] == m.(version := t.records[p].version, createdAt := t.records[p].createdAt)
      && (if p in s.records then t.records[p].version == s.records[p].version + 1
                                 && t.records[p].createdAt == s.records[p].createdAt
          else t.records[p].version == 1 && t.records[p].createdAt == now)
      && t.index[p].vector == m.embedding
  {}

  /** No other memory, history or vector is touched. */
  lemma PutElsewhere(s: State, m: Memory, now: int, p: At)
    requires p != (m.workspaceID, m.id)
    ensures var t := Put(s, m, now);
      && (p in t.records <==> p in s.records) && (p in s.records ==> t.records[p] == s.records[p])
      && (p in t.history <==> p in s.history) && (p in s.history ==> t.history[p] == s.history[p])
      && (p in t.index <==> p in s.index) && (p in s.index ==> t.index[p] == s.index[p])
  {}

  /** The predecessor is the newest in the history, behind what was there, of which the oldest goes
      when there would be more than a hundred. */
  lemma PutKeepsPredecessor(s: State, m: Memory, now: int)
    requires (m.workspaceID, m.id) in s.records && |Prior(s, (m.workspaceID, m.id))| <= 100
    ensures var p := (m.workspaceID, m.id);
      var before, after := Prior(s, p), Prior(Put(s, m, now), p);
      && after != [] && after[|after| - 1] == s.records[p]
      && after[..|after| - 1] == (if |before| == 100 then before[1..] else before)
  {
    var p := (m.workspaceID, m.id);
    var before := Prior(s, p);
    if before != [] { assert (before + [s.records[p]])[1..] == before[1..] + [s.records[p]]; }
  }

  /** A memory stored with a positive time to live is gone once that is over, any other never. */
  lemma LivesUntil(m: Memory, ttl: int, now: int, t: int)
    ensures m.(expiresAt := if ttl > 0 then Some(now + ttl) else None).Expired(t) <==> ttl > 0 && now + ttl <= t
  {}

  // -------------------------------------------------------------------- searching

  /** The memory may be answered: live, of the agent and of the kind asked for, and its likeness to
      the query is defined. */
  ghost predicate Answerable(ms: Measures, s: State, ws: Bytes, vec: Vector, o: SearchOptions, id: Bytes) {
    (ws, id) in s.records &&
    var m := s.records[(ws, id)];
    && (o.agentID != [] ==> m.agentID == o.agentID) && (o.kind.Some? ==> m.kind == o.kind.value)
    && |m.embedding| == |vec| && ms.raw(vec, m.embedding, Cosine).Some?
  }

  ghost predicate Unexpired(s: State, p: At, now: int) {
    p in s.records && (s.records[p].expiresAt.Some? ==> now < s.records[p].expiresAt.value)
  }

  lemma CandidateMeans(ms: Measures, s: State, ws: Bytes, vec: Vector, o: SearchOptions, r: Result)
    requires ms.Sane() && InStep(s)
    ensures r in Eligible(ms, Namespace(s, ws), QueryOf(vec, o)) <==>
      Answerable(ms, s, ws, vec, o, r.id) && ms.raw(vec, s.records[(ws, r.id)].embedding, Cosine) == Some(r.score)
  {
    var ns, q := Namespace(s, ws), QueryOf(vec, o);
    NamespaceHas(s, ws, r.id);
    if (ws, r.id) in s.records {
      assert Filed(s, (ws, r.id));
      FilterIsWanted(s.records[(ws, r.id)], o.agentID, o.kind);
    }
  }

  ghost predicate InRank(q: Query, rs: seq<Result>) {
    forall i, j :: 0 <= i < j < |rs| ==> NoWorse(q, rs[i], rs[j])
  }

  lemma {:induction false} PassingStaysSorted(s: State, ws: Bytes, raw: seq<Result>, now: int, threshold: Option<real>, q: Query)
    requires InRank(q, raw)
    ensures InRank(q, Passing(s, ws, raw, now, threshold))
  {
    if raw != [] {
      var init := raw[..|raw| - 1];
      PassingStaysSorted(s, ws, init, now, threshold, q);
      PassingSelects(s, ws, init, now, threshold);
      var front := Passing(s, ws, init, now, threshold);
      forall i | 0 <= i < |front| ensures NoWorse(q, front[i], raw[|raw| - 1]) {
        assert front[i] in init;
        var j :| 0 <= j < |init| && init[j] == front[i];
        assert raw[j] == front[i];
      }
    }
  }

  /** What Search answers. */
  ghost function Found(ms: Measures, s: State, ws: Bytes, vec: Vector, o: SearchOptions, now: int): seq<Result>
    requires ms.Sane()
  {
    Passing(s, ws, Candidates(ms, s, ws, vec, o), now, o.threshold)
  }

  ghost predicate Reaches(o: SearchOptions, score: real) {
    o.threshold.Some? ==> score >= o.threshold.value
  }

  /** Search answers with live memories that may be answered and reach the threshold, each with its
      likeness to the query. */
  lemma SearchIsSound(ms: Measures, s: State, ws: Bytes, vec: Vector, o: SearchOptions, now: int, r: Result)
    requires ms.Sane() && InStep(s) && r in Found(ms, s, ws, vec, o, now)
    ensures Answerable(ms, s, ws, vec, o, r.id) && Unexpired(s, (ws, r.id), now)
    ensures ms.raw(vec, s.records[(ws, r.id)].embedding, Cosine) == Some(r.score) && Reaches(o, r.score)
  {
    PassingSelects(s, ws, Candidates(ms, s, ws, vec, o), now, o.threshold);
    TopKIsBest(ms, Namespace(s, ws), QueryOf(vec, o), if o.k > 0 then o.k else 10);
    CandidateMeans(ms, s, ws, vec, o, r);
  }

  /** The most alike come first, equals by ascending id. */
  lemma SearchIsSorted(ms: Measures, s: State, ws: Bytes, vec: Vector, o: SearchOptions, now: int, i: nat, j: nat)
    requires ms.Sane() && i < j < |Found(ms, s, ws, vec, o, now)|
    ensures var out := Found(ms, s, ws, vec, o, now);
      out[i].score >= out[j].score && (out[i].score == out[j].score ==> BytesLess(out[i].id, out[j].id))
  {
    var ns, q, k := Namespace(s, ws), QueryOf(vec, o), if o.k > 0 then o.k else 10;
    var raw := Candidates(ms, s, ws, vec, o);
    assert raw == TopK(ms, ns, q, k);
    SearchFindsTheBest(ms, ns, q, k);
    PassingStaysSorted(s, ws, raw, now, o.threshold, q);
    var out := Passing(s, ws, raw, now, o.threshold);
    assert InRank(q, out) && NoWorse(q, out[i], out[j]);
  }

  /** Of the live memories that may be answered and reach the threshold it leaves out only those that
      as many others as asked for, 10 if that is not positive, are at least as alike as; expired ones
      count among these. */
  lemma SearchIsComplete(ms: Measures, s: State, ws: Bytes, vec: Vector, o: SearchOptions, now: int, id: Bytes, score: real)
    requires ms.Sane() && InStep(s) && Answerable(ms, s, ws, vec, o, id) && Unexpired(s, (ws, id), now)
    requires ms.raw(vec, s.records[(ws, id)].embedding, Cosine) == Some(score) && Reaches(o, score)
    ensures var raw := Candidates(ms, s, ws, vec, o);
      Result(id, score) in Found(ms, s, ws, vec, o, now)
      || (|raw| == (if o.k > 0 then o.k else 10) && forall r :: r in raw ==> r.score >= score)
  {
    var ns, q, k := Namespace(s, ws), QueryOf(vec, o), if o.k > 0 then o.k else 10;
    var raw, mine := Candidates(ms, s, ws, vec, o), Result(id, score);
    CandidateMeans(ms, s, ws, vec, o, mine);
    PassingSelects(s, ws, raw, now, o.threshold);
    if mine !in raw {
      SearchFindsTheBest(ms, ns, q, k);
      LeftOutMeansFull(ms, ns, q, k, mine);
      forall r | r in raw ensures r.score >= score { assert NoWorse(q, r, mine); }
    }
  }

  lemma LeftOutMeansFull(ms: Measures, ns: map<Bytes, VecEntry>, q: Query, k: int, r: Result)
    requires ms.Sane() && k > 0 && r in Eligible(ms, ns, q) && r !in TopK(ms, ns, q, k)
    ensures |TopK(ms, ns, q, k)| == k
  {
    TopKIsBest(ms, ns, q, k);
    RankingIsTotal(q);
    DistinctCardinality(Ranked(ms, ns, q), Eligible(ms, ns, q));
  }

  /** Search removes exactly the expired among the candidates it came across, List every expired
      memory of the workspace, each with its vector and its history; nothing else changes. */
  lemma RemovalsMean(s: State, ws: Bytes, raw: seq<Result>, now: int, p: At)
    ensures var t, met := Drop(s, Stale(s, ws, raw, now)), exists r :: r in raw && r.id == p.1;
      Kept(s, t, p, p.0 == ws && met && p in s.records && !Unexpired(s, p, now))
    ensures Kept(s, Drop(s, Expired(s, ws, now)), p, p.0 == ws && p in s.records && !Unexpired(s, p, now))
  {
    if p.0 == ws && p in s.records && !Unexpired(s, p, now) && exists r :: r in raw && r.id == p.1 {
      var r :| r in raw && r.id == p.1;
      assert (ws, r.id) == p;
    }
  }

  /** The memory is gone with all that belongs to it, or all of it is as it was. */
  ghost predicate Kept(s: State, t: State, p: At, gone: bool) {
    && (p in t.records <==> p in s.records && !gone) && (p in t.records ==> t.records[p] == s.records[p])
    && (p in t.history <==> p in s.history && !gone) && (p in t.history ==> t.history[p] == s.history[p])
    && (p in t.index <==> p in s.index && !gone) && (p in t.index ==> t.index[p] == s.index[p])
  }
}
