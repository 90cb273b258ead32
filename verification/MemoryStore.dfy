/** The memory store object: nested maps of current records and of histories, and a
    vector store used as search index, updated together. The ghost field state is
    what they hold as a value. */
module MemoryStores {
  import opened Base
  import opened MemoryTypes
  import opened Vectors
  import opened MemoryState

  function Nested<V>(m: map<Bytes, map<Bytes, V>>, ws: Bytes, id: Bytes): Option<V> {
    if ws in m && id in m[ws] then Some(m[ws][id]) else None
  }

  /** Assignment into a map of maps whose inner map may have to be created first. */
  function SetIn<V>(m: map<Bytes, map<Bytes, V>>, ws: Bytes, id: Bytes, v: V): map<Bytes, map<Bytes, V>> {
    m[ws := (if ws in m then m[ws] else map[])[id := v]]
  }

  function RemoveIn<V>(m: map<Bytes, map<Bytes, V>>, ws: Bytes, id: Bytes): map<Bytes, map<Bytes, V>> {
    if ws in m then m[ws := m[ws] - {id}] else m
  }

  lemma SetInAt<V>(m: map<Bytes, map<Bytes, V>>, ws: Bytes, id: Bytes, v: V, w: Bytes, i: Bytes)
    ensures Nested(SetIn(m, ws, id, v), w, i) == if (w, i) == (ws, id) then Some(v) else Nested(m, w, i)
  {}

  lemma RemoveInAt<V>(m: map<Bytes, map<Bytes, V>>, ws: Bytes, id: Bytes, w: Bytes, i: Bytes)
    ensures Nested(RemoveIn(m, ws, id), w, i) == if (w, i) == (ws, id) then None else Nested(m, w, i)
  {}

  function Flat<V>(m: map<At, V>, ws: Bytes, id: Bytes): Option<V> {
    if (ws, id) in m then Some(m[(ws, id)]) else None
  }

  class MemoryStore {
    const embed: Bytes -> Option<Vector>
    const vecStore: VectorStore
    var records: map<Bytes, map<Bytes, Memory>>
    var history: map<Bytes, map<Bytes, seq<Memory>>>
    ghost var state: State

    constructor (embed: Bytes -> Option<Vector>, measures: Measures)
      requires measures.Sane()
      ensures Valid() && state == State(map[], map[], map[]) && fresh(vecStore)
      ensures this.embed == embed && vecStore.measures == measures
    {
      this.embed := embed;
      records, history := map[], map[];
      state := State(map[], map[], map[]);
      vecStore := new VectorStore(measures);
    }

    ghost predicate Valid()
      reads this, vecStore
    {
      Tied() && InStep(state)
    }

    /** The maps hold what state says. */
    ghost predicate Tied()
      reads this, vecStore
    {
      vecStore.measures.Sane() && forall ws, id :: Agrees(ws, id)
    }

    ghost predicate Agrees(ws: Bytes, id: Bytes)
      reads this, vecStore
    {
      && Nested(records, ws, id) == Flat(state.records, ws, id)
      && Nested(history, ws, id) == Flat(state.history, ws, id)
      && (if id in vecStore.Contents(ws) then Some(vecStore.Contents(ws)[id]) else None) == Flat(state.index, ws, id)
    }

    /** The id of the new record, or none when there is a reason not to store; generated stands
        for a fresh random id, if the random source yields one. */
    method Put(m: Memory, ttl: int, now: int, generated: Option<Bytes>) returns (r: Option<Bytes>)
      requires Valid()
      modifies this, vecStore
      ensures Valid()
      ensures r == if m.workspaceID == [] || embed(m.content) == None then None
                   else if m.id == [] then generated else Some(m.id)
      ensures r == None ==> state == old(state)
      ensures r.Some? ==>
        state == MemoryState.Put(old(state),
                                 m.(id := r.value, embedding := embed(m.content).value,
                                    expiresAt := if ttl > 0 then Some(now + ttl) else None),
                                 now)
    {
      if m.workspaceID == [] { return None; }
      var vec := embed(m.content);
      if vec == None { return None; }
      var id := m.id;
      if id == [] {
        if generated == None { return None; }
        id := generated.value;
      }
      var expiresAt := if ttl > 0 then Some(now + ttl) else None;
      PutLocked(m.(id := id, embedding := vec.value, expiresAt := expiresAt), now);
      r := Some(id);
    }

    /** The locked part of Put. */
    method PutLocked(m: Memory, now: int)
      requires Valid()
      modifies this, vecStore
      ensures Valid() && state == MemoryState.Put(old(state), m, now)
    {
      var ws, id := m.workspaceID, m.id;
      PutInStep(state, m, now);
      var version, createdAt := Supersede(ws, id, now);
      var rec := m.(createdAt := createdAt, version := version);
      assert rec == NewRecord(state, m, now);
      records := SetIn(records, ws, id, rec);
      vecStore.Upsert(ws, id, m.embedding, map[AGENT_FIELD := m.agentID, KIND_FIELD := KindName(m.kind)], []);
      state := MemoryState.Put(state, m, now);
      PutKeepsTies(m, now);
    }

    /** An existing record moves into the history; the next version number and the creation time. */
    method Supersede(ws: Bytes, id: Bytes, now: int) returns (version: nat, createdAt: int)
      requires Tied()
      modifies this`history
      ensures if (ws, id) in state.records
              then version == state.records[(ws, id)].version + 1 && createdAt == state.records[(ws, id)].createdAt
              else version == 1 && createdAt == now
      ensures forall w, i :: Nested(history, w, i) ==
                if (ws, id) in state.records && (w, i) == (ws, id)
                then Some(LastOf(Prior(state, (ws, id)) + [state.records[(ws, id)]])) else Nested(old(history), w, i)
    {
      assert Agrees(ws, id);
      version, createdAt := 1, now;
      if ws in records && id in records[ws] {
        var existing := records[ws][id];
        version := existing.version + 1;
        createdAt := existing.createdAt;
        RecordHistory(ws, id, existing);
      }
    }

    twostate lemma PutKeepsTies(new m: Memory, now: int)
      requires old(Valid()) && state == MemoryState.Put(old(state), m, now)
      requires var rec := NewRecord(old(state), m, now);
        && records == SetIn(old(records), m.workspaceID, m.id, rec)
        && vecStore.Contents(m.workspaceID) == old(vecStore.Contents(m.workspaceID))[m.id := Indexed(rec)]
      requires forall n :: n != m.workspaceID ==> vecStore.Contents(n) == old(vecStore.Contents(n))
      requires var p := (m.workspaceID, m.id);
        forall w, i :: Nested(history, w, i) ==
          if p in old(state).records && (w, i) == p
          then Some(LastOf(Prior(old(state), p) + [old(state).records[p]])) else Nested(old(history), w, i)
      ensures Tied()
    {
      forall w, i ensures Agrees(w, i) {
        assert old(Agrees(w, i));
        SetInAt(old(records), m.workspaceID, m.id, NewRecord(old(state), m, now), w, i);
        PutAt(old(state), m, now, w, i);
      }
    }

    lemma PutAt(s: State, m: Memory, now: int, w: Bytes, i: Bytes)
      ensures var t, p := MemoryState.Put(s, m, now), (m.workspaceID, m.id);
        && Flat(t.records, w, i) == (if (w, i) == p then Some(NewRecord(s, m, now)) else Flat(s.records, w, i))
        && Flat(t.index, w, i) == (if (w, i) == p then Some(Indexed(NewRecord(s, m, now))) else Flat(s.index, w, i))
        && Flat(t.history, w, i) == if p in s.records && (w, i) == p then Some(LastOf(Prior(s, p) + [s.records[p]]))
                                    else Flat(s.history, w, i)
    {}

    method RecordHistory(ws: Bytes, id: Bytes, prior: Memory)
      modifies this`history
      ensures Nested(history, ws, id) == Some(LastOf(Nested(old(history), ws, id).GetOr([]) + [prior]))
      ensures forall w, i :: (w, i) != (ws, id) ==> Nested(history, w, i) == Nested(old(history), w, i)
    {
      var h := (if ws in history && id in history[ws] then history[ws][id] else []) + [prior];
      if |h| > MAX_HISTORY {
        h := h[|h| - MAX_HISTORY..];
      }
      forall w, i
        ensures Nested(SetIn(history, ws, id, h), w, i) == if (w, i) == (ws, id) then Some(h) else Nested(history, w, i)
      {
        SetInAt(history, ws, id, h, w, i);
      }
      history := SetIn(history, ws, id, h);
    }

    /** An expired record goes, with its vector and its history. */
    method Evict(ws: Bytes, id: Bytes)
      requires Tied() && (ws, id) in state.records
      modifies this, vecStore
      ensures Tied() && state == Drop(old(state), {(ws, id)})
    {
      assert Agrees(ws, id);
      records := RemoveIn(records, ws, id);
      var _ := vecStore.Delete(ws, id);
      history := RemoveIn(history, ws, id);
      state := Drop(state, {(ws, id)});
      forall w, i ensures Agrees(w, i) {
        assert old(Agrees(w, i));
        RemoveInAt(old(records), ws, id, w, i);
        RemoveInAt(old(history), ws, id, w, i);
        assert w != ws ==> vecStore.Contents(w) == old(vecStore.Contents(w));
        DropAt(old(state), ws, id, w, i);
      }
    }

    lemma DropAt(s: State, ws: Bytes, id: Bytes, w: Bytes, i: Bytes)
      ensures var t := Drop(s, {(ws, id)});
        var same := (w, i) != (ws, id);
        && Flat(t.records, w, i) == (if same then Flat(s.records, w, i) else None)
        && Flat(t.history, w, i) == (if same then Flat(s.history, w, i) else None)
        && Flat(t.index, w, i) == (if same then Flat(s.index, w, i) else None)
    {}

    method Get(ws: Bytes, id: Bytes, now: int) returns (r: Option<Memory>)
      requires Valid()
      modifies this, vecStore
      ensures Valid()
      ensures r == if (ws, id) in old(state).records && !old(state).records[(ws, id)].Expired(now)
                   then Some(old(state).records[(ws, id)]) else None
      ensures state == if (ws, id) in old(state).records && old(state).records[(ws, id)].Expired(now)
                       then Drop(old(state), {(ws, id)}) else old(state)
    {
      assert Agrees(ws, id);
      if ws !in records { return None; }
      if id !in records[ws] { return None; }
      var rec := records[ws][id];
      if rec.Expired(now) {
        Evict(ws, id);
        DropInStep(old(state), {(ws, id)});
        return None;
      }
      return Some(rec);
    }

    /** Every version kept, oldest first, the current one last. */
    method History(ws: Bytes, id: Bytes, now: int) returns (r: seq<Memory>)
      requires Valid()
      modifies this, vecStore
      ensures Valid()
      ensures if (ws, id) !in old(state).records then r == [] && state == old(state)
              else if old(state).records[(ws, id)].Expired(now) then r == [] && state == Drop(old(state), {(ws, id)})
              else r == Prior(old(state), (ws, id)) + [old(state).records[(ws, id)]] && state == old(state)
    {
      assert Agrees(ws, id);
      if ws !in records { return []; }
      if id !in records[ws] { return []; }
      var rec := records[ws][id];
      if rec.Expired(now) {
        Evict(ws, id);
        DropInStep(old(state), {(ws, id)});
        return [];
      }
      var prior := if ws in history && id in history[ws] then history[ws][id] else [];
      r := prior + [rec];
    }

    /** The lookup inside the loops of List and Search: an expired record is evicted
        when it is come across. Of the records at the beginning of the loop, s0, those in
        gone have been evicted already. */
    method Fetch(ws: Bytes, id: Bytes, now: int, ghost s0: State, ghost gone0: set<At>)
      returns (r: Option<Memory>, ghost gone: set<At>)
      requires Tied() && state == Drop(s0, gone0)
      requires forall p :: p in gone0 ==> IsStale(s0, ws, p, now)
      modifies this, vecStore
      ensures Tied() && state == Drop(s0, gone)
      ensures gone == if IsStale(s0, ws, (ws, id), now) then gone0 + {(ws, id)} else gone0
      ensures r == if (ws, id) in s0.records && !s0.records[(ws, id)].Expired(now)
                   then Some(s0.records[(ws, id)]) else None
    {
      gone := gone0;
      assert Agrees(ws, id);
      if ws !in records || id !in records[ws] {
        if IsStale(s0, ws, (ws, id), now) { assert gone0 + {(ws, id)} == gone0; }
        return None, gone;
      }
      var rec := records[ws][id];
      if rec.Expired(now) {
        Evict(ws, id);
        DropMore(s0, gone0, (ws, id));
        return None, gone0 + {(ws, id)};
      }
      return Some(rec), gone;
    }

    /** All live memories of the workspace that pass the filters, in arbitrary order;
        every expired one of the workspace is removed on the way. */
    method List(ws: Bytes, agentID: Bytes, kind: Option<Kind>, now: int) returns (out: seq<Memory>)
      requires Valid()
      modifies this, vecStore
      ensures Valid() && state == Drop(old(state), Expired(old(state), ws, now))
      ensures Distinct(out) && forall m :: m in out <==> Listed(old(state), ws, m, agentID, kind, now)
    {
      forall i ensures (ws, i) in state.records <==> ws in records && i in records[ws] { assert Agrees(ws, i); }
      DropNothing(state);
      if ws !in records {
        assert Expired(state, ws, now) == {};
        return [];
      }
      forall i | i in records[ws].Keys ensures state.records[(ws, i)].id == i { assert Filed(state, (ws, i)); }
      out := Collect(ws, records[ws].Keys, agentID, kind, now);
      DropInStep(old(state), Expired(old(state), ws, now));
    }

    method Collect(ws: Bytes, ids: set<Bytes>, agentID: Bytes, kind: Option<Kind>, now: int) returns (out: seq<Memory>)
      requires Tied() && (forall i :: i in ids <==> (ws, i) in state.records)
      requires forall i :: i in ids ==> state.records[(ws, i)].id == i
      modifies this, vecStore
      ensures Tied() && state == Drop(old(state), Expired(old(state), ws, now))
      ensures Distinct(out) && forall m :: m in out <==> Listed(old(state), ws, m, agentID, kind, now)
    {
      out := [];
      ghost var s0 := state;
      ghost var gone: set<At> := {};
      DropNothing(state);
      var rest := ids;
      while rest != {}
        invariant Tied() && state == Drop(s0, gone)
        invariant rest <= ids
        invariant forall p :: p in gone ==> IsStale(s0, ws, p, now)
        invariant forall p :: IsStale(s0, ws, p, now) ==> p in gone || p.1 in rest
        invariant Distinct(out)
        invariant forall m :: m in out <==> Listed(s0, ws, m, agentID, kind, now) && m.id !in rest
        decreases rest
      {
        var id :| id in rest;
        rest := rest - {id};
        var found;
        found, gone := Fetch(ws, id, now, s0, gone);
        if found == None { continue; }
        var rec := found.value;
        if agentID != [] && rec.agentID != agentID { continue; }
        if kind.Some? && rec.kind != kind.value { continue; }
        out := out + [rec];
      }
      assert gone == Expired(s0, ws, now);
    }

    ghost predicate Listed(s: State, ws: Bytes, m: Memory, agentID: Bytes, kind: Option<Kind>, now: int) {
      (ws, m.id) in s.records && s.records[(ws, m.id)] == m && !m.Expired(now) && Wanted(m, agentID, kind)
    }

    lemma DropNothing(s: State)
      ensures Drop(s, {}) == s
    {
      assert s.records - {} == s.records && s.history - {} == s.history && s.index - {} == s.index;
    }

    lemma DropMore(s: State, gone: set<At>, p: At)
      ensures Drop(Drop(s, gone), {p}) == Drop(s, gone + {p})
    {
      MinusOneMore(s.records, gone, p);
      MinusOneMore(s.history, gone, p);
      MinusOneMore(s.index, gone, p);
    }

    /** The live, above-threshold part of the index's top K; the expired part is removed. */
    method Search(ws: Bytes, query: Bytes, o: SearchOptions, now: int) returns (r: Option<seq<Result>>)
      requires Valid()
      modifies this, vecStore
      ensures Valid()
      ensures r == None <==> embed(query) == None
      ensures r == None ==> state == old(state)
      ensures r.Some? ==>
        var raw := Candidates(vecStore.measures, old(state), ws, embed(query).value, o);
        r.value == Passing(old(state), ws, raw, now, o.threshold)
        && state == Drop(old(state), Stale(old(state), ws, raw, now))
    {
      var vec := embed(query);
      if vec == None { return None; }
      var k := o.k;
      if k <= 0 { k := 10; }
      var filter: map<Bytes, Bytes> := map[];
      if o.agentID != [] { filter := filter[AGENT_FIELD := o.agentID]; }
      if o.kind.Some? { filter := filter[KIND_FIELD := KindName(o.kind.value)]; }
      assert filter == SearchFilter(o.agentID, o.kind);
      IndexIsNamespace(ws);
      var raw := vecStore.Search(ws, Query(vec.value, Cosine, filter, None), k);
      var out := Keep(ws, raw, now, o.threshold);
      DropInStep(old(state), Stale(old(state), ws, raw, now));
      r := Some(out);
    }

    lemma IndexIsNamespace(ws: Bytes)
      requires Valid()
      ensures vecStore.Contents(ws) == Namespace(state, ws)
    {
      forall id
        ensures id in vecStore.Contents(ws) <==> id in Namespace(state, ws)
        ensures id in vecStore.Contents(ws) ==> vecStore.Contents(ws)[id] == Namespace(state, ws)[id]
      {
        assert Agrees(ws, id);
        NamespaceHas(state, ws, id);
      }
    }

    method Keep(ws: Bytes, raw: seq<Result>, now: int, threshold: Option<real>) returns (out: seq<Result>)
      requires Tied()
      modifies this, vecStore
      ensures Tied() && state == Drop(old(state), Stale(old(state), ws, raw, now))
      ensures out == Passing(old(state), ws, raw, now, threshold)
    {
      out := [];
      ghost var s0 := state;
      ghost var gone: set<At> := {};
      DropNothing(state);
      for i := 0 to |raw|
        invariant Tied() && state == Drop(s0, gone)
        invariant forall p :: p in gone ==> IsStale(s0, ws, p, now) && p.1 in IdsOf(raw[..i])
        invariant forall j :: 0 <= j < i && IsStale(s0, ws, (ws, raw[j].id), now) ==> (ws, raw[j].id) in gone
        invariant out == Passing(s0, ws, raw[..i], now, threshold)
      {
        var r := raw[i];
        IdsNext(raw, i);
        PassingNext(s0, ws, raw, i, now, threshold);
        var found;
        found, gone := Fetch(ws, r.id, now, s0, gone);
        if found == None { continue; }
        if threshold.Some? && r.score < threshold.value { continue; }
        out := out + [r];
      }
      assert raw[..|raw|] == raw;
      StaleIs(s0, ws, raw, now, gone);
    }

    ghost predicate IsStale(s: State, ws: Bytes, p: At, now: int) {
      p.0 == ws && p in s.records && s.records[p].Expired(now)
    }

    ghost function IdsOf(raw: seq<Result>): set<Bytes> {
      set r | r in raw :: r.id
    }

    lemma PassingNext(s: State, ws: Bytes, raw: seq<Result>, i: nat, now: int, threshold: Option<real>)
      requires i < |raw|
      ensures Passing(s, ws, raw[..i + 1], now, threshold)
           == Passing(s, ws, raw[..i], now, threshold) + if Passes(s, ws, raw[i], now, threshold) then [raw[i]] else []
    {
      assert raw[..i + 1][..i] == raw[..i];
    }

    lemma IdsNext(raw: seq<Result>, i: nat)
      requires i < |raw|
      ensures IdsOf(raw[..i + 1]) == IdsOf(raw[..i]) + {raw[i].id}
    {
      assert raw[..i + 1] == raw[..i] + [raw[i]];
      assert forall r :: r in raw[..i + 1] <==> r in raw[..i] || r == raw[i];
    }

    lemma StaleIs(s: State, ws: Bytes, raw: seq<Result>, now: int, gone: set<At>)
      requires forall p :: p in gone ==> IsStale(s, ws, p, now) && p.1 in IdsOf(raw)
      requires forall j :: 0 <= j < |raw| && IsStale(s, ws, (ws, raw[j].id), now) ==> (ws, raw[j].id) in gone
      ensures gone == Stale(s, ws, raw, now)
    {
      forall p | p in Stale(s, ws, raw, now) ensures p in gone {
        var j :| 0 <= j < |raw| && p == (ws, raw[j].id);
        assert IsStale(s, ws, p, now);
      }
    }
  }
}
