/** The versioned memory store as a value: current records, their bounded histories
    and the search index, by workspace and id. */
module MemoryState {
  import opened Base
  import opened MemoryTypes
  import opened Vectors

  const MAX_HISTORY: nat := 100

  function Ascii(s: string): Bytes {
    seq(|s|, i requires 0 <= i < |s| => if s[i] < 128 as char then s[i] as int as Byte else 63)
  }

  const AGENT_FIELD: Bytes := Ascii("agent_id")
  const KIND_FIELD: Bytes := Ascii("kind")

  function KindName(k: Kind): Bytes {
    match k
    case ShortTerm => Ascii("short_term")
    case LongTerm => Ascii("long_term")
    case Episodic => Ascii("episodic")
    case Semantic => Ascii("semantic")
  }

  lemma KindNamesDiffer(a: Kind, b: Kind)
    ensures KindName(a) == KindName(b) <==> a == b
    ensures AGENT_FIELD != KIND_FIELD
  {
    assert |KindName(ShortTerm)| == 10 && |KindName(LongTerm)| == 9;
    assert |KindName(Episodic)| == 8 && |KindName(MemoryTypes.Semantic)| == 8;
    assert KindName(Episodic)[0] == 101 && KindName(MemoryTypes.Semantic)[0] == 115;
    assert |AGENT_FIELD| == 8 && |KIND_FIELD| == 4;
  }

  type At = (Bytes, Bytes)  // workspace and id

  datatype State = State(
    records: map<At, Memory>,
    history: map<At, seq<Memory>>,
    index: map<At, VecEntry>)

  function Prior(s: State, p: At): seq<Memory> {
    if p in s.history then s.history[p] else []
  }

  /** What the index holds for a record. */
  function Indexed(m: Memory): VecEntry {
    VecEntry(m.embedding, map[AGENT_FIELD := m.agentID, KIND_FIELD := KindName(m.kind)], [])
  }

  /** History is the consecutive versions up to the current one, the last 100 at most,
      all of the same memory. */
  ghost predicate HistoryOK(m: Memory, h: seq<Memory>) {
    && m.version >= 1
    && |h| == (if m.version - 1 < MAX_HISTORY then m.version - 1 else MAX_HISTORY)
    && forall i :: 0 <= i < |h| ==>
         h[i].version == m.version - |h| + i && h[i].createdAt == m.createdAt
         && h[i].id == m.id && h[i].workspaceID == m.workspaceID
  }

  /** The three structures are in step. */
  ghost predicate InStep(s: State) {
    && s.index.Keys == s.records.Keys
    && (forall p :: p in s.records ==> Filed(s, p))
    && (forall p :: p in s.history ==> p in s.records)
  }

  ghost predicate Filed(s: State, p: At)
    requires p in s.records && s.index.Keys == s.records.Keys
  {
    var m := s.records[p];
    (m.workspaceID, m.id) == p && s.index[p] == Indexed(m) && HistoryOK(m, Prior(s, p))
  }

  function LastOf(h: seq<Memory>): seq<Memory> {
    if |h| > MAX_HISTORY then h[|h| - MAX_HISTORY..] else h
  }

  /** What is stored for a memory given under an id: the next version of its predecessor. */
  function NewRecord(s: State, m: Memory, now: int): Memory {
    var p := (m.workspaceID, m.id);
    if p in s.records then m.(version := s.records[p].version + 1, createdAt := s.records[p].createdAt)
    else m.(version := 1, createdAt := now)
  }

  /** A memory stored under an id, with what its predecessor leaves behind. */
  function Put(s: State, m: Memory, now: int): State {
    var p := (m.workspaceID, m.id);
    var rec := NewRecord(s, m, now);
    State(s.records[p := rec],
          if p in s.records then s.history[p := LastOf(Prior(s, p) + [s.records[p]])] else s.history,
          s.index[p := Indexed(rec)])
  }

  /** Records removed for having expired, together with all that belongs to them. */
  function Drop(s: State, gone: set<At>): State {
    State(s.records - gone, s.history - gone, s.index - gone)
  }

  function Expired(s: State, ws: Bytes, now: int): set<At> {
    set p | p in s.records && p.0 == ws && s.records[p].Expired(now)
  }

  lemma PutFiled(s: State, m: Memory, now: int)
    requires InStep(s)
    ensures var p := (m.workspaceID, m.id);
      var t := Put(s, m, now);
      p in t.records && (t.records[p].workspaceID, t.records[p].id) == p && t.index.Keys == t.records.Keys
      && t.index[p] == Indexed(t.records[p]) && HistoryOK(t.records[p], Prior(t, p))
  {
    var p := (m.workspaceID, m.id);
    if p in s.records { assert Filed(s, p); }
  }

  lemma PutInStep(s: State, m: Memory, now: int)
    requires InStep(s)
    ensures InStep(Put(s, m, now))
  {
    var p := (m.workspaceID, m.id);
    var t := Put(s, m, now);
    PutFiled(s, m, now);
    forall q | q in t.records ensures Filed(t, q) {
      if q != p { assert Filed(s, q); }
    }
  }

  lemma DropInStep(s: State, gone: set<At>)
    requires InStep(s)
    ensures InStep(Drop(s, gone))
  {
    var t := Drop(s, gone);
    assert t.index.Keys == t.records.Keys;
    forall q | q in t.records ensures Filed(t, q) { assert Filed(s, q); }
  }

  // ----------------------------------------------------------------- whole runs

  datatype Event = Store(m: Memory, now: int) | Expire(gone: set<At>)

  function Run(log: seq<Event>): State {
    if log == [] then State(map[], map[], map[])
    else match log[|log| - 1]
      case Store(m, now) => Put(Run(log[..|log| - 1]), m, now)
      case Expire(gone) => Drop(Run(log[..|log| - 1]), gone)
  }

  /** After any sequence of stores and removals the three structures are in step. */
  lemma {:induction false} RunInStep(log: seq<Event>)
    ensures InStep(Run(log))
  {
    if log != [] {
      RunInStep(log[..|log| - 1]);
      match log[|log| - 1]
      case Store(m, now) => PutInStep(Run(log[..|log| - 1]), m, now);
      case Expire(gone) => DropInStep(Run(log[..|log| - 1]), gone);
    }
  }

  /** How often the id has been stored since it was last removed. */
  function StoresSinceRemoval(log: seq<Event>, p: At): nat {
    if log == [] then 0
    else
      var n := StoresSinceRemoval(log[..|log| - 1], p);
      match log[|log| - 1]
      case Store(m, _) => if (m.workspaceID, m.id) == p then n + 1 else n
      case Expire(gone) => if p in gone then 0 else n
  }

  /** The version is the number of stores since the id was last removed; none, no record. */
  lemma {:induction false} VersionCountsStores(log: seq<Event>, p: At)
    ensures var n := StoresSinceRemoval(log, p);
      && (p in Run(log).records <==> n > 0)
      && (p in Run(log).records ==> Run(log).records[p].version == n)
  {
    if log != [] { VersionCountsStores(log[..|log| - 1], p); }
  }

  // ------------------------------------------------------------- Search and List

  datatype SearchOptions = SearchOptions(agentID: Bytes, kind: Option<Kind>, k: int, threshold: Option<real>)

  function SearchFilter(agentID: Bytes, kind: Option<Kind>): map<Bytes, Bytes> {
    var f: map<Bytes, Bytes> := if agentID == [] then map[] else map[AGENT_FIELD := agentID];
    if kind.None? then f else f[KIND_FIELD := KindName(kind.value)]
  }

  predicate Wanted(m: Memory, agentID: Bytes, kind: Option<Kind>) {
    (agentID != [] ==> m.agentID == agentID) && (kind.Some? ==> m.kind == kind.value)
  }

  function Namespace(s: State, ws: Bytes): map<Bytes, VecEntry> {
    map p | p in s.index && p.0 == ws :: p.1 := s.index[p]
  }

  function QueryOf(vec: Vector, o: SearchOptions): Query {
    Query(vec, Cosine, SearchFilter(o.agentID, o.kind), None)
  }

  /** The index's best K for the query, before expiry and threshold are looked at. */
  ghost function Candidates(ms: Measures, s: State, ws: Bytes, vec: Vector, o: SearchOptions): seq<Result>
    requires ms.Sane()
  {
    TopK(ms, Namespace(s, ws), QueryOf(vec, o), if o.k <= 0 then 10 else o.k)
  }

  predicate Passes(s: State, ws: Bytes, r: Result, now: int, threshold: Option<real>) {
    (ws, r.id) in s.records && !s.records[(ws, r.id)].Expired(now)
    && (threshold.Some? ==> r.score >= threshold.value)
  }

  function Passing(s: State, ws: Bytes, raw: seq<Result>, now: int, threshold: Option<real>): seq<Result> {
    if raw == [] then []
    else Passing(s, ws, raw[..|raw| - 1], now, threshold)
         + (if Passes(s, ws, raw[|raw| - 1], now, threshold) then [raw[|raw| - 1]] else [])
  }

  /** The expired among the candidates, which Search removes. */
  function Stale(s: State, ws: Bytes, raw: seq<Result>, now: int): set<At> {
    set r | r in raw && (ws, r.id) in s.records && s.records[(ws, r.id)].Expired(now) :: (ws, r.id)
  }

  lemma {:induction false} PassingSelects(s: State, ws: Bytes, raw: seq<Result>, now: int, threshold: Option<real>)
    ensures forall r :: r in Passing(s, ws, raw, now, threshold) <==> r in raw && Passes(s, ws, r, now, threshold)
    ensures |Passing(s, ws, raw, now, threshold)| <= |raw|
  {
    if raw != [] {
      PassingSelects(s, ws, raw[..|raw| - 1], now, threshold);
      assert raw == raw[..|raw| - 1] + [raw[|raw| - 1]];
    }
  }

  /** The pushed-down filter is the filter of List. */
  lemma FilterIsWanted(m: Memory, agentID: Bytes, kind: Option<Kind>)
    ensures FilterHolds(Indexed(m).metadata, SearchFilter(agentID, kind)) <==> Wanted(m, agentID, kind)
  {
    var k := if kind.Some? then kind.value else m.kind;
    KindNamesDiffer(m.kind, k);
    var f, d := SearchFilter(agentID, kind), Indexed(m).metadata;
    if agentID != [] { assert AGENT_FIELD in f && f[AGENT_FIELD] == agentID; }
    if kind.Some? { assert KIND_FIELD in f && f[KIND_FIELD] == KindName(k); }
    assert d[AGENT_FIELD] == m.agentID && d[KIND_FIELD] == KindName(m.kind);
  }

  /** With K at least the number of memories, no threshold, nothing expired and every
      score defined, Search finds exactly the ids that List lists. */
  lemma SearchFindsWhatListLists(ms: Measures, s: State, ws: Bytes, vec: Vector, o: SearchOptions, now: int, id: Bytes)
    requires ms.Sane() && InStep(s) && o.threshold == None && o.k > 0 && o.k >= |Namespace(s, ws)|
    requires forall p :: p in s.records && p.0 == ws ==>
      !s.records[p].Expired(now) && |s.records[p].embedding| == |vec|
      && ms.raw(vec, s.records[p].embedding, Cosine).Some?
    ensures (exists r :: r in Passing(s, ws, Candidates(ms, s, ws, vec, o), now, None) && r.id == id)
       <==> (ws, id) in s.records && Wanted(s.records[(ws, id)], o.agentID, o.kind)
  {
    var ns, q := Namespace(s, ws), QueryOf(vec, o);
    var raw := Candidates(ms, s, ws, vec, o);
    PassingSelects(s, ws, raw, now, None);
    AllEligibleReturned(ms, ns, q, o.k);
    NamespaceHas(s, ws, id);
    if (ws, id) in s.records { EligibleWhenWanted(ms, s, ws, vec, o, id); }
    forall r | r in raw && r.id == id ensures Passes(s, ws, r, now, None) { assert r in Eligible(ms, ns, q); }
  }

  lemma EligibleWhenWanted(ms: Measures, s: State, ws: Bytes, vec: Vector, o: SearchOptions, id: Bytes)
    requires ms.Sane() && InStep(s) && (ws, id) in s.records
    requires |s.records[(ws, id)].embedding| == |vec| && ms.raw(vec, s.records[(ws, id)].embedding, Cosine).Some?
    ensures (exists r :: r in Eligible(ms, Namespace(s, ws), QueryOf(vec, o)) && r.id == id)
       <==> Wanted(s.records[(ws, id)], o.agentID, o.kind)
  {
    var ns, q := Namespace(s, ws), QueryOf(vec, o);
    NamespaceHas(s, ws, id);
    assert Filed(s, (ws, id));
    FilterIsWanted(s.records[(ws, id)], o.agentID, o.kind);
    if Wanted(s.records[(ws, id)], o.agentID, o.kind) {
      assert Result(id, ScoreOf(ms, ns[id], q).value) in Eligible(ms, ns, q);
    }
  }

  lemma NamespaceHas(s: State, ws: Bytes, id: Bytes)
    ensures id in Namespace(s, ws) <==> (ws, id) in s.index
    ensures (ws, id) in s.index ==> Namespace(s, ws)[id] == s.index[(ws, id)]
  {
    if (ws, id) in s.index {
      var p := (ws, id);
      assert p in s.index && p.0 == ws && p.1 == id;
    }
  }

  lemma AllEligibleReturned(ms: Measures, ns: map<Bytes, VecEntry>, q: Query, k: int)
    requires ms.Sane() && k > 0 && k >= |ns|
    ensures forall r :: r in Eligible(ms, ns, q) <==> r in TopK(ms, ns, q, k)
  {
    var e := Eligible(ms, ns, q);
    FewerThanEntries(ms, ns, q, ns.Keys);
    assert (set r | r in e && r.id in ns.Keys) == e;
    RankingIsTotal(q);
    DistinctCardinality(Ranked(ms, ns, q), e);
  }

  lemma {:induction false} FewerThanEntries(ms: Measures, ns: map<Bytes, VecEntry>, q: Query, ids: set<Bytes>)
    requires ms.Sane() && ids <= ns.Keys
    ensures |set r | r in Eligible(ms, ns, q) && r.id in ids| <= |ids|
  {
    var part := set r | r in Eligible(ms, ns, q) && r.id in ids;
    if ids == {} {
      assert part == {};
    } else {
      var id :| id in ids;
      var rest := set r | r in Eligible(ms, ns, q) && r.id in ids - {id};
      FewerThanEntries(ms, ns, q, ids - {id});
      if ScoreOf(ms, ns[id], q).Some? {
        assert part == rest + {Result(id, ScoreOf(ms, ns[id], q).value)};
      } else {
        assert part == rest;
      }
    }
  }
}
