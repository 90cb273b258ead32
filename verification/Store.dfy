/** The sharded store: commands routed to shards by a hash, entries updated in
    place, one counter shared by all shards. The ghost field db is what the store
    holds as a value; every method is proved to take it where the specification
    of its command says, whatever the hash and the number of shards. */
module Stores {
  import opened Base
  import opened Keyspace
  import opened KeySteps
  import opened Shards
  import opened ValueLoops
  import opened Numbers
  import Glob

  const DEFAULT_NUM_SHARDS: nat := 32
  const EVICTION_SAMPLE_SIZE: nat := 20

  function ShardsFor(numShards: int): nat {
    if numShards <= 0 then DEFAULT_NUM_SHARDS else numShards
  }

  class Store {
    const shards: seq<Shard>
    const entryCount: Counter
    const route: Bytes -> nat
    const maxEntries: int
    const score: (int, int, nat) -> real
    ghost var db: DB
    ghost var entries: set<Entry>

    constructor (numShards: int, hash: Bytes -> nat, maxEntries: int, score: (int, int, nat) -> real)
      ensures Valid() && db == DB(map[], map[]) && entries == {}
      ensures |shards| == ShardsFor(numShards)
      ensures (forall k :: route(k) == hash(k) % |shards|) && this.maxEntries == maxEntries && this.score == score
      ensures fresh(entryCount) && forall i :: 0 <= i < |shards| ==> fresh(shards[i])
    {
      var n := ShardsFor(numShards);
      var count := new Counter();
      var ss: seq<Shard> := [];
      while |ss| < n
        invariant |ss| <= n && fresh(count) && count.n == 0
        invariant forall i :: 0 <= i < |ss| ==> fresh(ss[i]) && ss[i].entryCount == count
        invariant forall i :: 0 <= i < |ss| ==>
          ss[i].data == map[] && ss[i].ttlKeys == {} && ss[i].versions == map[]
        invariant forall i, j :: 0 <= i < j < |ss| ==> ss[i] != ss[j]
      {
        var sh := new Shard(count);
        ss := ss + [sh];
      }
      this.shards, this.entryCount, this.route := ss, count, k => hash(k) % n;
      this.maxEntries, this.score := maxEntries, score;
      db, entries := DB(map[], map[]), {};
    }

    /** The redundant pieces of state agree. */
    ghost predicate Valid()
      reads this, entryCount, shards, entries
    {
      && Shape()
      && entryCount.n == |db.data|
      && (forall i :: 0 <= i < |shards| ==> Routed(i))
      && (forall k :: Agrees(k))
    }

    ghost predicate Shape() {
      && (forall k :: route(k) < |shards|)
      && (forall i, j :: 0 <= i < j < |shards| ==> shards[i] != shards[j])
      && (forall i :: 0 <= i < |shards| ==> shards[i].entryCount == entryCount)
    }

    /** Every key sits in the shard its hash names. */
    ghost predicate Routed(i: nat)
      requires i < |shards|
      reads shards[i]
    {
      forall k :: k in shards[i].data || k in shards[i].ttlKeys || k in shards[i].versions ==> route(k) == i
    }

    /** The shard of k and the store's value say the same about k. */
    ghost predicate Agrees(k: Bytes)
      requires Shape()
      reads this, shards[route(k)], entries
    {
      var sh := shards[route(k)];
      && (k in sh.data <==> k in db.data)
      && (k in sh.data ==> sh.data[k] in entries && sh.data[k].home == k && sh.data[k].Contents() == db.data[k])
      && (k in sh.data ==> k != [])
      && (k in sh.ttlKeys <==> k in db.data && db.data[k].slot.deadline.Some?)
      && Version(sh.versions, k) == Version(db.versions, k)
    }

    /** The entry object stored under k, if any. */
    ghost function At(k: Bytes): Entry?
      requires Shape()
      reads shards[route(k)]
    {
      if k in shards[route(k)].data then shards[route(k)].data[k] else null
    }

    // ------------------------------------------- shared steps of the commands

    method GetForWrite(ck: Bytes, now: int) returns (e: Entry?)
      requires Valid()
      modifies this`db, entryCount, shards[route(ck)]
      ensures Valid()
      ensures db == Purge(old(db), ck, now)
      ensures Lookup(db, ck) == Live(old(db), ck, now)
      ensures e == At(ck) && (e == null <==> ck !in db.data)
      ensures e != null ==> e in entries && e.Contents() == db.data[ck] && db == old(db)
    {
      assert Agrees(ck) && Routed(route(ck));
      e := shards[route(ck)].GetForWrite(ck, now);
      db := Purge(db, ck, now);
      forall i | 0 <= i < |shards| ensures Routed(i) { assert old(Routed(i)); }
      forall k ensures Agrees(k) { assert old(Agrees(k)); }
    }

    /** Deletion of a stored key together with its version step. */
    method Remove(ck: Bytes)
      requires Valid() && ck in db.data
      modifies this`db, entryCount, shards[route(ck)]
      ensures Valid() && db == Without(old(db), ck)
    {
      assert Agrees(ck) && Routed(route(ck));
      shards[route(ck)].Discard(ck);
      RemovedCardinality(db.data, {ck});
      db := Without(db, ck);
      forall i | 0 <= i < |shards| ensures Routed(i) { assert old(Routed(i)); }
      forall k ensures Agrees(k) { assert old(Agrees(k)); }
    }

    /** A new value for a stored entry, updated in place. */
    method Update(ck: Bytes, e: Entry, val: Value, accessed: bool, now: int)
      requires Valid() && e == At(ck) && ck in db.data
      modifies this`db, e
      ensures Valid() && At(ck) == e
      ensures db == old(db).(data := old(db).data[ck := Revalued(old(db).data[ck], val, accessed, now)])
    {
      assert Agrees(ck);
      e.val := val;
      if accessed {
        e.lastAccess := now;
        e.accessCount := e.accessCount + 1;
      }
      db := db.(data := db.data[ck := e.Contents()]);
      ReplacedCardinality(old(db).data, ck, e.Contents());
      forall k ensures Agrees(k) { assert old(Agrees(k)); }
    }

    lemma ReplacedCardinality(data: map<Bytes, Record>, k: Bytes, r: Record)
      requires k in data
      ensures |data[k := r]| == |data|
    {
      assert data[k := r].Keys == data.Keys;
    }

    method BumpVersion(ck: Bytes)
      requires Valid()
      modifies this`db, shards[route(ck)]
      ensures Valid() && At(ck) == old(At(ck)) && db == old(db).(versions := Bump(old(db).versions, ck, 1))
    {
      shards[route(ck)].BumpVersion(ck);
      db := db.(versions := Bump(db.versions, ck, 1));
      forall i | 0 <= i < |shards| ensures Routed(i) { assert old(Routed(i)); }
      forall k ensures Agrees(k) { assert old(Agrees(k)); }
    }

    lemma StoredCardinality(data: map<Bytes, Record>, k: Bytes, r: Record)
      ensures |data[k := r]| == |data| + if k in data then 0 else 1
    {
      assert data[k := r].Keys == data.Keys + {k};
    }

    /** A key stored anew or overwritten. */
    method Put(ck: Bytes, e: Entry)
      requires Valid() && ck != []
      requires e !in entries || e.home !in db.data
      modifies this`db, this`entries, entryCount, shards[route(ck)], e`home
      ensures Valid() && entries == old(entries) + {e} && At(ck) == e
      ensures db == DB(old(db).data[ck := e.Contents()], Bump(old(db).versions, ck, 1))
    {
      assert Agrees(ck) && Routed(route(ck));
      shards[route(ck)].SetEntry(ck, e);
      StoredCardinality(db.data, ck, e.Contents());
      db := DB(db.data[ck := e.Contents()], Bump(db.versions, ck, 1));
      entries := entries + {e};
      forall i | 0 <= i < |shards| ensures Routed(i) { assert old(Routed(i)); }
      forall k ensures Agrees(k) { if k != ck { assert old(Agrees(k)); } }
    }

    ghost function KeysOf(d: DB, i: nat): set<Bytes> {
      set k | k in d.data && route(k) == i
    }

    function ScoreOf(r: Record, now: int): real {
      score(r.lastAccess, now, r.accessCount)
    }

    /** The policy's choice among a sample of a shard, all of it when it is no larger than a sample. */
    ghost predicate BestOf(d: DB, i: nat, sample: set<Bytes>, v: Bytes, now: int) {
      && sample <= KeysOf(d, i) && v in sample
      && |sample| == (if |KeysOf(d, i)| < EVICTION_SAMPLE_SIZE then |KeysOf(d, i)| else EVICTION_SAMPLE_SIZE)
      && forall k :: k in sample ==> ScoreOf(d.data[k], now) <= ScoreOf(d.data[v], now)
    }

    lemma HighestIsBest(ck: Bytes, sample: set<Bytes>, v: Bytes, now: int)
      requires Valid() && sample <= shards[route(ck)].data.Keys && shards[route(ck)].Highest(v, sample, score, now)
      requires var n := |shards[route(ck)].data|; |sample| == if n < EVICTION_SAMPLE_SIZE then n else EVICTION_SAMPLE_SIZE
      ensures BestOf(db, route(ck), sample, v, now)
    {
      var sh := shards[route(ck)];
      ShardHolds(route(ck));
      assert KeysOf(db, route(ck)) == sh.data.Keys;
      forall k | k in sample ensures k in db.data && ScoreOf(db.data[k], now) == sh.ScoreOf(k, score, now) {
        assert Agrees(k);
      }
    }

    method EvictIfNeeded(ck: Bytes, now: int) returns (ghost victim: Option<Bytes>)
      requires Valid() && ck !in db.data
      modifies this`db, entryCount, shards[route(ck)]
      ensures Valid()
      ensures victim.Some? ==> exists sample :: BestOf(old(db), route(ck), sample, victim.value, now)
      ensures MayEvict(old(db), route, maxEntries, ck, victim)
      ensures db == Evict(old(db), victim)
    {
      victim := None;
      if maxEntries <= 0 { return; }
      if entryCount.n + 1 <= maxEntries { return; }
      var v, sample := shards[route(ck)].PickEvictionVictim(score, now, EVICTION_SAMPLE_SIZE);
      assert Routed(route(ck));
      if v == [] {
        forall k | k in db.data ensures route(k) != route(ck) { assert Agrees(k) && Agrees(v); }
        return;
      }
      HighestIsBest(ck, sample, v, now);
      assert Agrees(v);
      Remove(v);
      victim := Some(v);
    }
  
    /** The live entry of the wanted kind, created empty when there is none; null
        when the key holds another kind. */
    method EnsureKind(ck: Bytes, kind: Kind, now: int) returns (e: Entry?, ghost victim: Option<Bytes>)
      requires Valid() && ck != []
      modifies this`db, this`entries, entryCount, shards[route(ck)]
      ensures Valid() && fresh(entries - old(entries))
      ensures var cur := Live(old(db), ck, now);
        && (e == null <==> Mismatch(cur, kind))
        && (e == null ==> db == Purge(old(db), ck, now))
        && (e != null ==> e in entries && e == At(ck) && ck in db.data && e.Contents() == db.data[ck]
                          && db == Ensured(old(db), ck, kind, now, victim) && e.val == Current(cur, kind))
        && (cur.Some? ==> victim == None)
        && (cur.None? ==> MayEvict(Purge(old(db), ck, now), route, maxEntries, ck, victim))
    {
      victim := None;
      e := GetForWrite(ck, now);
      if e == null {
        victim := EvictIfNeeded(ck, now);
        e := new Entry(Empty(kind), None, now, 0);
        Put(ck, e);
        return;
      }
      if e.val.Kind() != kind {
        e := null;
      }
    }

    /** The last steps of a command that adds to a collection. */
    method Grow(ck: Bytes, e: Entry, val: Value, accessed: bool, now: int)
      requires Valid() && e == At(ck) && ck in db.data
      modifies this`db, e, shards[route(ck)]
      ensures Valid() && db == Rewritten(old(db), ck, val, accessed, now)
    {
      Update(ck, e, val, accessed, now);
      BumpVersion(ck);
    }

    /** The last steps of a command that took something out of a collection. */
    method Shrink(ck: Bytes, e: Entry, val: Value, now: int)
      requires Valid() && e == At(ck) && ck in db.data
      modifies this`db, entryCount, e, shards[route(ck)]
      ensures Valid()
      ensures db == if val.Hollow() then Without(old(db), ck) else Rewritten(old(db), ck, val, false, now)
    {
      Update(ck, e, val, false, now);
      if val.Hollow() {
        Remove(ck);
        ReplaceThenRemove(old(db).data, ck, Revalued(old(db).data[ck], val, false, now));
      } else {
        BumpVersion(ck);
      }
    }

    lemma ReplaceThenRemove(data: map<Bytes, Record>, k: Bytes, r: Record)
      ensures data[k := r] - {k} == data - {k}
    {}

    /** Bookkeeping of a successful read. */
    method Access(ck: Bytes, e: Entry, now: int)
      requires Valid() && e == At(ck) && ck in db.data
      modifies this`db, e
      ensures Valid() && e.val == old(e.val)
      ensures var r := old(db).data[ck];
        db == old(db).(data := old(db).data[ck := Record(r.slot, now, r.accessCount + 1)])
    {
      assert Agrees(ck);
      Update(ck, e, e.val, true, now);
      assert Agrees(ck);
    }

    method SetExpiry(ck: Bytes, e: Entry, at: Option<int>)
      requires Valid() && e == At(ck) && ck in db.data
      modifies this`db, e, shards[route(ck)]
      ensures Valid()
      ensures var r := old(db).data[ck];
        db == DB(old(db).data[ck := r.(slot := r.slot.(deadline := at))], Bump(old(db).versions, ck, 1))
    {
      assert Agrees(ck) && Routed(route(ck));
      shards[route(ck)].SetExpiry(ck, e, at);
      db := DB(db.data[ck := e.Contents()], Bump(db.versions, ck, 1));
      ReplacedCardinality(old(db).data, ck, e.Contents());
      forall i | 0 <= i < |shards| ensures Routed(i) { assert old(Routed(i)); if i == route(ck) {} else {} }
      assert Agrees(ck);
      forall k ensures Agrees(k) { assert old(Agrees(k)); }
    }

    /** The same for a command on one key. */
    twostate predicate PerformsOnKey(ws: Bytes, key: Bytes, new op: Op, now: int, new victim: Option<Bytes>, new r: Reply)
      reads this
    {
      var k := NsKey(ws, key);
      && (db, r) == StepKey(old(db), k, op, now, victim)
      && if Creates(old(db), k, op, now) then MayEvict(Purge(old(db), k, now), route, maxEntries, k, victim)
         else victim == None
    }

    /** What a command's method has to achieve: the store and the reply are as specified. */
    twostate predicate Performs(new a: Action, now: int, new victim: Option<Bytes>, new r: Reply)
      reads this
    {
      (db, r) == Step(old(db), a, now, victim) && Legal(old(db), a, now, victim, route, maxEntries)
    }

    // --------------------------------------------------------------- any kind

    /** The end of SET: a new entry object replaces whatever the key held. */
    method Overwrite(ck: Bytes, exists_: bool, val: Value, deadline: Option<int>, now: int)
      returns (ghost victim: Option<Bytes>)
      requires Valid() && ck != [] && (exists_ <==> ck in db.data)
      modifies this`db, this`entries, entryCount, shards[route(ck)]
      ensures Valid() && fresh(entries - old(entries))
      ensures if ck in old(db).data then victim == None else MayEvict(old(db), route, maxEntries, ck, victim)
      ensures var d := Evict(old(db), victim);
        db == DB(d.data[ck := Record(Slot(val, deadline), now, 1)], Bump(d.versions, ck, 1))
    {
      victim := None;
      if !exists_ {
        victim := EvictIfNeeded(ck, now);
      }
      var e := new Entry(val, deadline, now, 1);
      Put(ck, e);
    }

    method Get(ws: Bytes, key: Bytes, now: int) returns (r: Reply)
      requires Valid()
      modifies this`db, this`entries, entryCount, shards, entries
      ensures Valid() && fresh(entries - old(entries))
      ensures PerformsOnKey(ws, key, Op.Get, now, None, r)
    {
      var ck := NsKey(ws, key);
      ghost var db0, op := db, Op.Get;
      var e := GetForWrite(ck, now);
      if e == null { UnchangedStep(db0, ck, op, now, Nil); return Nil; }
      if e.val.Kind() != StringKind { UnchangedStep(db0, ck, op, now, WrongType); return WrongType; }
      Access(ck, e, now);
      r := Bulk(Copied(e.val.bytes));
      AccessStep(db0, ck, op, now, r);
    }

    /** The beginning of SET: the old value when asked for, and the reasons to refuse. */
    method CheckSet(e: Entry?, val: Bytes, opts: SetOpts, ghost cur: Option<Slot>, now: int)
      returns (refused: Option<Reply>, prev: Option<Option<Bytes>>)
      requires cur == if e == null then None else Some(e.Contents().slot)
      ensures Run(Op.Set(val, opts), cur, now) == match refused
        case Some(r) => Unchanged(r, cur)
        case None =>
          var deadline := if opts.ttl > 0 then Some(now + opts.ttl) else None;
          Outcome(SetDone(true, prev), Some(Slot(StringValue(val), deadline)), 1, Fresh)
    {
      refused, prev := None, None;
      if opts.getOld && e != null {
        if e.val.Kind() != StringKind { return Some(WrongType), None; }
        prev := Some(Copied(e.val.bytes));
      }
      if opts.onlyIfNX && e != null { return Some(SetDone(false, prev)), prev; }
      if opts.onlyIfXX && e == null { return Some(SetDone(false, prev)), prev; }
    }

    method Set(ws: Bytes, key: Bytes, val: Bytes, opts: SetOpts, now: int)
      returns (r: Reply, ghost victim: Option<Bytes>)
      requires Valid()
      modifies this`db, this`entries, entryCount, shards, entries
      ensures Valid() && fresh(entries - old(entries))
      ensures PerformsOnKey(ws, key, Op.Set(val, opts), now, victim, r)
    {
      var ck := NsKey(ws, key);
      ghost var db0, op := db, Op.Set(val, opts);
      victim := None;
      var e := GetForWrite(ck, now);
      var refused, prev := CheckSet(e, val, opts, Live(db0, ck, now), now);
      if refused.Some? {
        UnchangedStep(db0, ck, op, now, refused.value);
        return refused.value, None;
      }
      var deadline := if opts.ttl > 0 then Some(now + opts.ttl) else None;
      victim := Overwrite(ck, e != null, StringValue(val), deadline, now);
      r := SetDone(true, prev);
      OverwriteStep(db0, ck, op, now, victim, r, Slot(StringValue(val), deadline));
    }

    method Expire(ws: Bytes, key: Bytes, ttl: int, now: int) returns (r: Reply)
      requires Valid()
      modifies this`db, this`entries, entryCount, shards, entries
      ensures Valid() && fresh(entries - old(entries))
      ensures PerformsOnKey(ws, key, Op.Expire(ttl), now, None, r)
    {
      var ck := NsKey(ws, key);
      ghost var db0, op := db, Op.Expire(ttl);
      var e := GetForWrite(ck, now);
      if e == null { UnchangedStep(db0, ck, op, now, Flag(false)); return Flag(false); }
      if ttl <= 0 {
        Remove(ck);
        RemovalStep(db0, ck, op, now, Flag(true));
        return Flag(true);
      }
      SetExpiry(ck, e, Some(now + ttl));
      ExpireStep(db0, ck, ttl, now);
      r := Flag(true);
    }

    method TTL(ws: Bytes, key: Bytes, now: int) returns (r: Reply)
      requires Valid()
      modifies this`db, this`entries, entryCount, shards, entries
      ensures Valid() && fresh(entries - old(entries))
      ensures PerformsOnKey(ws, key, Op.TTL, now, None, r)
    {
      var ck := NsKey(ws, key);
      ghost var db0, op := db, Op.TTL;
      var e := GetForWrite(ck, now);
      if e == null {
        r := Remaining(0, false, false);
      } else if e.deadline == None {
        r := Remaining(0, false, true);
      } else {
        var left := e.deadline.value - now;
        r := Remaining(if left < 0 then 0 else left, true, true);
      }
      UnchangedStep(db0, ck, op, now, r);
    }

    method Persist(ws: Bytes, key: Bytes, now: int) returns (r: Reply)
      requires Valid()
      modifies this`db, this`entries, entryCount, shards, entries
      ensures Valid() && fresh(entries - old(entries))
      ensures PerformsOnKey(ws, key, Op.Persist, now, None, r)
    {
      var ck := NsKey(ws, key);
      ghost var db0, op := db, Op.Persist;
      var e := GetForWrite(ck, now);
      if e == null || e.deadline == None { UnchangedStep(db0, ck, op, now, Flag(false)); return Flag(false); }
      SetExpiry(ck, e, None);
      DeadlineStep(db0, ck, op, now, Flag(true), None);
      r := Flag(true);
    }

    /** The read-only accessors: HGETALL, HLEN, LLEN, LINDEX, SMEMBERS, ZSCORE and the like. */
    method Query(ws: Bytes, key: Bytes, kind: Kind, show: Value -> Reply, absent: Reply, now: int) returns (r: Reply)
      requires Valid()
      modifies this`db, this`entries, entryCount, shards, entries
      ensures Valid() && fresh(entries - old(entries))
      ensures PerformsOnKey(ws, key, Op.Query(kind, show, absent), now, None, r)
    {
      var ck := NsKey(ws, key);
      ghost var db0, op := db, Op.Query(kind, show, absent);
      var e := GetForWrite(ck, now);
      if e == null { UnchangedStep(db0, ck, op, now, absent); return absent; }
      if e.val.Kind() != kind { UnchangedStep(db0, ck, op, now, WrongType); return WrongType; }
      r := show(e.val);
      UnchangedStep(db0, ck, op, now, r);
    }

    // ------------------------------------------------------------------- hash

    method HSet(ws: Bytes, key: Bytes, fields: map<Bytes, Bytes>, now: int)
      returns (r: Reply, ghost victim: Option<Bytes>)
      requires Valid()
      modifies this`db, this`entries, entryCount, shards, entries
      ensures Valid() && fresh(entries - old(entries))
      ensures PerformsOnKey(ws, key, Op.HSet(fields), now, victim, r)
    {
      var ck := NsKey(ws, key);
      ghost var db0, op := db, Op.HSet(fields);
      var e;
      e, victim := EnsureKind(ck, HashKind, now);
      if e == null { WrongTypeStep(db0, ck, op, now); return WrongType, None; }
      r := AddFields(ck, e, fields, now, db0, victim);
      assert PerformsOnKey(ws, key, Op.HSet(fields), now, victim, r);
    }

    method AddFields(ck: Bytes, e: Entry, fields: map<Bytes, Bytes>, now: int, ghost db0: DB, ghost victim: Option<Bytes>)
      returns (r: Reply)
      requires Valid() && e == At(ck) && ck in db.data && db == Ensured(db0, ck, HashKind, now, victim)
      requires !Mismatch(Live(db0, ck, now), HashKind) && e.val == Current(Live(db0, ck, now), HashKind)
      requires Live(db0, ck, now).Some? ==> victim == None
      modifies this`db, e, shards[route(ck)]
      ensures Valid() && (db, r) == StepKey(db0, ck, Op.HSet(fields), now, victim)
      ensures Creates(db0, ck, Op.HSet(fields), now) <==> Live(db0, ck, now).None?
    {
      var h, added := Merge(e.val.fields, fields);
      Grow(ck, e, HashValue(h), true, now);
      r := Number(added);
      HSetStep(db0, ck, fields, now, victim, h, added);
    }

    method HGet(ws: Bytes, key: Bytes, field: Bytes, now: int) returns (r: Reply)
      requires Valid()
      modifies this`db, this`entries, entryCount, shards, entries
      ensures Valid() && fresh(entries - old(entries))
      ensures PerformsOnKey(ws, key, Op.HGet(field), now, None, r)
    {
      var ck := NsKey(ws, key);
      ghost var db0, op := db, Op.HGet(field);
      var e := GetForWrite(ck, now);
      if e == null { UnchangedStep(db0, ck, op, now, Nil); return Nil; }
      if e.val.Kind() != HashKind { UnchangedStep(db0, ck, op, now, WrongType); return WrongType; }
      if field !in e.val.fields { UnchangedStep(db0, ck, op, now, Nil); return Nil; }
      Access(ck, e, now);
      r := Bulk(Copied(e.val.fields[field]));
      AccessStep(db0, ck, op, now, r);
    }

    method HDel(ws: Bytes, key: Bytes, names: seq<Bytes>, now: int) returns (r: Reply)
      requires Valid()
      modifies this`db, this`entries, entryCount, shards, entries
      ensures Valid() && fresh(entries - old(entries))
      ensures PerformsOnKey(ws, key, Op.HDel(names), now, None, r)
    {
      var ck := NsKey(ws, key);
      ghost var db0, op := db, Op.HDel(names);
      var e := GetForWrite(ck, now);
      if e == null { UnchangedStep(db0, ck, op, now, Number(0)); return Number(0); }
      if e.val.Kind() != HashKind { UnchangedStep(db0, ck, op, now, WrongType); return WrongType; }
      r := DropFields(ck, e, names, now, db0);
    }

    method DropFields(ck: Bytes, e: Entry, names: seq<Bytes>, now: int, ghost db0: DB) returns (r: Reply)
      requires Valid() && e == At(ck) && ck in db.data && db == Purge(db0, ck, now)
      requires Live(db0, ck, now).Some? && db0.data[ck].slot.val == e.val && e.val.HashValue?
      modifies this`db, entryCount, e, shards[route(ck)]
      ensures Valid() && (db, r) == StepKey(db0, ck, Op.HDel(names), now, None) && !Creates(db0, ck, Op.HDel(names), now)
    {
      var h, removed := RemoveNames(e.val.fields, names);
      HDelStep(db0, ck, names, now, h, removed);
      if removed > 0 {
        Shrink(ck, e, HashValue(h), now);
      }
      r := Number(removed);
    }

    method HIncrBy(ws: Bytes, key: Bytes, field: Bytes, delta: int, now: int)
      returns (r: Reply, ghost victim: Option<Bytes>)
      requires Valid()
      modifies this`db, this`entries, entryCount, shards, entries
      ensures Valid() && fresh(entries - old(entries))
      ensures PerformsOnKey(ws, key, Op.HIncrBy(field, delta), now, victim, r)
    {
      var ck := NsKey(ws, key);
      ghost var db0, op := db, Op.HIncrBy(field, delta);
      var e;
      e, victim := EnsureKind(ck, HashKind, now);
      if e == null { WrongTypeStep(db0, ck, op, now); return WrongType, None; }
      var n := Count(e.val.fields, field, delta);
      if n == None { UnchangedStep(db0, ck, op, now, NotInteger); return NotInteger, None; }
      var h := e.val.fields[field := Itoa(n.value)];
      Grow(ck, e, HashValue(h), true, now);
      r := Number(n.value);
      HIncrByStep(db0, ck, field, delta, now, victim, n.value);
      assert PerformsOnKey(ws, key, Op.HIncrBy(field, delta), now, victim, r);
    }

    // ------------------------------------------------------------------- list

    method LPush(ws: Bytes, key: Bytes, vals: seq<Bytes>, now: int) returns (r: Reply, ghost victim: Option<Bytes>)
      requires Valid()
      modifies this`db, this`entries, entryCount, shards, entries
      ensures Valid() && fresh(entries - old(entries))
      ensures PerformsOnKey(ws, key, Op.LPush(vals), now, victim, r)
    {
      var ck := NsKey(ws, key);
      ghost var db0, op := db, Op.LPush(vals);
      var e;
      e, victim := EnsureKind(ck, ListKind, now);
      if e == null { WrongTypeStep(db0, ck, op, now); return WrongType, None; }
      var l := PushFront(e.val.items, vals);
      Grow(ck, e, ListValue(l), true, now);
      r := Number(|l|);
      LPushStep(db0, ck, vals, now, victim, l);
      assert PerformsOnKey(ws, key, Op.LPush(vals), now, victim, r);
    }

    method RPush(ws: Bytes, key: Bytes, vals: seq<Bytes>, now: int) returns (r: Reply, ghost victim: Option<Bytes>)
      requires Valid()
      modifies this`db, this`entries, entryCount, shards, entries
      ensures Valid() && fresh(entries - old(entries))
      ensures PerformsOnKey(ws, key, Op.RPush(vals), now, victim, r)
    {
      var ck := NsKey(ws, key);
      ghost var db0, op := db, Op.RPush(vals);
      var e;
      e, victim := EnsureKind(ck, ListKind, now);
      if e == null { WrongTypeStep(db0, ck, op, now); return WrongType, None; }
      var l := PushBack(e.val.items, vals);
      Grow(ck, e, ListValue(l), true, now);
      r := Number(|l|);
      GrownStep(db0, ck, op, ListKind, now, victim, r, ListValue(l), true);
      assert PerformsOnKey(ws, key, Op.RPush(vals), now, victim, r);
    }

    method LPop(ws: Bytes, key: Bytes, now: int) returns (r: Reply)
      requires Valid()
      modifies this`db, this`entries, entryCount, shards, entries
      ensures Valid() && fresh(entries - old(entries))
      ensures PerformsOnKey(ws, key, Op.LPop, now, None, r)
    {
      var ck := NsKey(ws, key);
      ghost var db0, op := db, Op.LPop;
      var e := GetForWrite(ck, now);
      if e == null { UnchangedStep(db0, ck, op, now, Nil); return Nil; }
      if e.val.Kind() != ListKind { UnchangedStep(db0, ck, op, now, WrongType); return WrongType; }
      var l := e.val.items;
      if |l| == 0 { UnchangedStep(db0, ck, op, now, Nil); return Nil; }
      r := Bulk(Copied(l[0]));
      Shrink(ck, e, ListValue(l[1..]), now);
      ShrunkStep(db0, ck, op, now, r, ListValue(l[1..]));
    }

    method RPop(ws: Bytes, key: Bytes, now: int) returns (r: Reply)
      requires Valid()
      modifies this`db, this`entries, entryCount, shards, entries
      ensures Valid() && fresh(entries - old(entries))
      ensures PerformsOnKey(ws, key, Op.RPop, now, None, r)
    {
      var ck := NsKey(ws, key);
      ghost var db0, op := db, Op.RPop;
      var e := GetForWrite(ck, now);
      if e == null { UnchangedStep(db0, ck, op, now, Nil); return Nil; }
      if e.val.Kind() != ListKind { UnchangedStep(db0, ck, op, now, WrongType); return WrongType; }
      var l := e.val.items;
      if |l| == 0 { UnchangedStep(db0, ck, op, now, Nil); return Nil; }
      r := Bulk(Copied(l[|l| - 1]));
      Shrink(ck, e, ListValue(l[..|l| - 1]), now);
      ShrunkStep(db0, ck, op, now, r, ListValue(l[..|l| - 1]));
    }

    method LRange(ws: Bytes, key: Bytes, start: int, stop: int, now: int) returns (r: Reply)
      requires Valid()
      modifies this`db, this`entries, entryCount, shards, entries
      ensures Valid() && fresh(entries - old(entries))
      ensures PerformsOnKey(ws, key, Op.LRange(start, stop), now, None, r)
    {
      var ck := NsKey(ws, key);
      ghost var db0, op := db, Op.LRange(start, stop);
      var e := GetForWrite(ck, now);
      if e == null { UnchangedStep(db0, ck, op, now, Slices([])); return Slices([]); }
      if e.val.Kind() != ListKind { UnchangedStep(db0, ck, op, now, WrongType); return WrongType; }
      var window := Window(e.val.items, start, stop);
      r := Slices(CopiedAll(window));
      UnchangedStep(db0, ck, op, now, r);
    }

    method LSet(ws: Bytes, key: Bytes, index: int, val: Bytes, now: int) returns (r: Reply)
      requires Valid()
      modifies this`db, this`entries, entryCount, shards, entries
      ensures Valid() && fresh(entries - old(entries))
      ensures PerformsOnKey(ws, key, Op.LSet(index, val), now, None, r)
    {
      var ck := NsKey(ws, key);
      ghost var db0, op := db, Op.LSet(index, val);
      var e := GetForWrite(ck, now);
      if e == null { UnchangedStep(db0, ck, op, now, NoSuchKey); return NoSuchKey; }
      if e.val.Kind() != ListKind { UnchangedStep(db0, ck, op, now, WrongType); return WrongType; }
      var l := e.val.items;
      var i := NormalizeIndex(index, |l|);
      if i < 0 || i >= |l| { UnchangedStep(db0, ck, op, now, OutOfRange); return OutOfRange; }
      Grow(ck, e, ListValue(l[i := val]), false, now);
      r := Flag(true);
    }

    method LRem(ws: Bytes, key: Bytes, count: int, val: Bytes, now: int) returns (r: Reply)
      requires Valid()
      modifies this`db, this`entries, entryCount, shards, entries
      ensures Valid() && fresh(entries - old(entries))
      ensures PerformsOnKey(ws, key, Op.LRem(count, val), now, None, r)
    {
      var ck := NsKey(ws, key);
      ghost var db0, op := db, Op.LRem(count, val);
      var e := GetForWrite(ck, now);
      if e == null { UnchangedStep(db0, ck, op, now, Number(0)); return Number(0); }
      if e.val.Kind() != ListKind { UnchangedStep(db0, ck, op, now, WrongType); return WrongType; }
      r := DropOccurrences(ck, e, count, val, now, db0);
    }

    method DropOccurrences(ck: Bytes, e: Entry, count: int, val: Bytes, now: int, ghost db0: DB) returns (r: Reply)
      requires Valid() && e == At(ck) && ck in db.data && db == Purge(db0, ck, now)
      requires Live(db0, ck, now).Some? && db0.data[ck].slot.val == e.val && e.val.ListValue?
      modifies this`db, entryCount, e, shards[route(ck)]
      ensures Valid() && (db, r) == StepKey(db0, ck, Op.LRem(count, val), now, None) && !Creates(db0, ck, Op.LRem(count, val), now)
    {
      var l, removed := RemoveOccurrences(e.val.items, count, val);
      LRemStep(db0, ck, count, val, now, l, removed);
      if removed > 0 {
        Shrink(ck, e, ListValue(l), now);
      }
      r := Number(removed);
    }

    // -------------------------------------------------------------------- set

    method SAdd(ws: Bytes, key: Bytes, members: seq<Bytes>, now: int) returns (r: Reply, ghost victim: Option<Bytes>)
      requires Valid()
      modifies this`db, this`entries, entryCount, shards, entries
      ensures Valid() && fresh(entries - old(entries))
      ensures PerformsOnKey(ws, key, Op.SAdd(members), now, victim, r)
    {
      var ck := NsKey(ws, key);
      ghost var db0, op := db, Op.SAdd(members);
      var e;
      e, victim := EnsureKind(ck, SetKind, now);
      if e == null { WrongTypeStep(db0, ck, op, now); return WrongType, None; }
      r := AddMembers(ck, e, members, now, db0, victim);
      assert PerformsOnKey(ws, key, Op.SAdd(members), now, victim, r);
    }

    method AddMembers(ck: Bytes, e: Entry, members: seq<Bytes>, now: int, ghost db0: DB, ghost victim: Option<Bytes>)
      returns (r: Reply)
      requires Valid() && e == At(ck) && ck in db.data && db == Ensured(db0, ck, SetKind, now, victim)
      requires !Mismatch(Live(db0, ck, now), SetKind) && e.val == Current(Live(db0, ck, now), SetKind)
      requires Live(db0, ck, now).Some? ==> victim == None
      modifies this`db, e, shards[route(ck)]
      ensures Valid() && (db, r) == StepKey(db0, ck, Op.SAdd(members), now, victim)
      ensures Creates(db0, ck, Op.SAdd(members), now) <==> Live(db0, ck, now).None?
    {
      var m, added := MergeMembers(e.val.members, members);
      Grow(ck, e, SetValue(m), true, now);
      r := Number(added);
      SAddStep(db0, ck, members, now, victim, m, added);
    }

    method SRem(ws: Bytes, key: Bytes, members: seq<Bytes>, now: int) returns (r: Reply)
      requires Valid()
      modifies this`db, this`entries, entryCount, shards, entries
      ensures Valid() && fresh(entries - old(entries))
      ensures PerformsOnKey(ws, key, Op.SRem(members), now, None, r)
    {
      var ck := NsKey(ws, key);
      ghost var db0, op := db, Op.SRem(members);
      var e := GetForWrite(ck, now);
      if e == null { UnchangedStep(db0, ck, op, now, Number(0)); return Number(0); }
      if e.val.Kind() != SetKind { UnchangedStep(db0, ck, op, now, WrongType); return WrongType; }
      r := DropMembers(ck, e, members, now, db0);
    }

    method DropMembers(ck: Bytes, e: Entry, members: seq<Bytes>, now: int, ghost db0: DB) returns (r: Reply)
      requires Valid() && e == At(ck) && ck in db.data && db == Purge(db0, ck, now)
      requires Live(db0, ck, now).Some? && db0.data[ck].slot.val == e.val && e.val.SetValue?
      modifies this`db, entryCount, e, shards[route(ck)]
      ensures Valid() && (db, r) == StepKey(db0, ck, Op.SRem(members), now, None) && !Creates(db0, ck, Op.SRem(members), now)
    {
      var m, removed := RemoveMembers(e.val.members, members);
      SRemStep(db0, ck, members, now, m, removed);
      if removed > 0 {
        Shrink(ck, e, SetValue(m), now);
      }
      r := Number(removed);
    }

    // ------------------------------------------------------------- sorted set

    method ZAdd(ws: Bytes, key: Bytes, scores: map<Bytes, real>, now: int)
      returns (r: Reply, ghost victim: Option<Bytes>)
      requires Valid()
      modifies this`db, this`entries, entryCount, shards, entries
      ensures Valid() && fresh(entries - old(entries))
      ensures PerformsOnKey(ws, key, Op.ZAdd(scores), now, victim, r)
    {
      var ck := NsKey(ws, key);
      ghost var db0, op := db, Op.ZAdd(scores);
      var e;
      e, victim := EnsureKind(ck, ZSetKind, now);
      if e == null { WrongTypeStep(db0, ck, op, now); return WrongType, None; }
      r := AddScores(ck, e, scores, now, db0, victim);
      assert PerformsOnKey(ws, key, Op.ZAdd(scores), now, victim, r);
    }

    method AddScores(ck: Bytes, e: Entry, scores: map<Bytes, real>, now: int, ghost db0: DB, ghost victim: Option<Bytes>)
      returns (r: Reply)
      requires Valid() && e == At(ck) && ck in db.data && db == Ensured(db0, ck, ZSetKind, now, victim)
      requires !Mismatch(Live(db0, ck, now), ZSetKind) && e.val == Current(Live(db0, ck, now), ZSetKind)
      requires Live(db0, ck, now).Some? ==> victim == None
      modifies this`db, e, shards[route(ck)]
      ensures Valid() && (db, r) == StepKey(db0, ck, Op.ZAdd(scores), now, victim)
      ensures Creates(db0, ck, Op.ZAdd(scores), now) <==> Live(db0, ck, now).None?
    {
      var z, added := Merge(e.val.scores, scores);
      Grow(ck, e, ZSetValue(z), true, now);
      r := Number(added);
      ZAddStep(db0, ck, scores, now, victim, z, added);
    }

    method ZRem(ws: Bytes, key: Bytes, names: seq<Bytes>, now: int) returns (r: Reply)
      requires Valid()
      modifies this`db, this`entries, entryCount, shards, entries
      ensures Valid() && fresh(entries - old(entries))
      ensures PerformsOnKey(ws, key, Op.ZRem(names), now, None, r)
    {
      var ck := NsKey(ws, key);
      ghost var db0, op := db, Op.ZRem(names);
      var e := GetForWrite(ck, now);
      if e == null { UnchangedStep(db0, ck, op, now, Number(0)); return Number(0); }
      if e.val.Kind() != ZSetKind { UnchangedStep(db0, ck, op, now, WrongType); return WrongType; }
      r := DropScores(ck, e, names, now, db0);
    }

    method DropScores(ck: Bytes, e: Entry, names: seq<Bytes>, now: int, ghost db0: DB) returns (r: Reply)
      requires Valid() && e == At(ck) && ck in db.data && db == Purge(db0, ck, now)
      requires Live(db0, ck, now).Some? && db0.data[ck].slot.val == e.val && e.val.ZSetValue?
      modifies this`db, entryCount, e, shards[route(ck)]
      ensures Valid() && (db, r) == StepKey(db0, ck, Op.ZRem(names), now, None) && !Creates(db0, ck, Op.ZRem(names), now)
    {
      var z, removed := RemoveNames(e.val.scores, names);
      ZRemStep(db0, ck, names, now, z, removed);
      if removed > 0 {
        Shrink(ck, e, ZSetValue(z), now);
      }
      r := Number(removed);
    }

    method ZIncrBy(ws: Bytes, key: Bytes, member: Bytes, delta: real, now: int)
      returns (r: Reply, ghost victim: Option<Bytes>)
      requires Valid()
      modifies this`db, this`entries, entryCount, shards, entries
      ensures Valid() && fresh(entries - old(entries))
      ensures PerformsOnKey(ws, key, Op.ZIncrBy(member, delta), now, victim, r)
    {
      var ck := NsKey(ws, key);
      ghost var db0, op := db, Op.ZIncrBy(member, delta);
      var e;
      e, victim := EnsureKind(ck, ZSetKind, now);
      if e == null { WrongTypeStep(db0, ck, op, now); return WrongType, None; }
      var sc := (if member in e.val.scores then e.val.scores[member] else 0.0) + delta;
      var z := e.val.scores[member := sc];
      Grow(ck, e, ZSetValue(z), false, now);
      r := Score(sc);
      ZIncrByStep(db0, ck, member, delta, now, victim, sc);
      assert PerformsOnKey(ws, key, Op.ZIncrBy(member, delta), now, victim, r);
    }

    method ZRange(ws: Bytes, key: Bytes, start: int, stop: int, now: int) returns (r: Reply)
      requires Valid()
      modifies this`db, this`entries, entryCount, shards, entries
      ensures Valid() && fresh(entries - old(entries))
      ensures PerformsOnKey(ws, key, Op.ZRange(start, stop), now, None, r)
    {
      var ck := NsKey(ws, key);
      ghost var db0, op := db, Op.ZRange(start, stop);
      var e := GetForWrite(ck, now);
      if e == null { UnchangedStep(db0, ck, op, now, Ranked([])); return Ranked([]); }
      if e.val.Kind() != ZSetKind { UnchangedStep(db0, ck, op, now, WrongType); return WrongType; }
      var all := CollectSorted(e.val.scores);
      var window := Window(all, start, stop);
      r := Ranked(window);
      ZRangeStep(db0, ck, start, stop, now);
    }

    method ZRank(ws: Bytes, key: Bytes, member: Bytes, now: int) returns (r: Reply)
      requires Valid()
      modifies this`db, this`entries, entryCount, shards, entries
      ensures Valid() && fresh(entries - old(entries))
      ensures PerformsOnKey(ws, key, Op.ZRank(member), now, None, r)
    {
      var ck := NsKey(ws, key);
      ghost var db0, op := db, Op.ZRank(member);
      var e := GetForWrite(ck, now);
      if e == null { UnchangedStep(db0, ck, op, now, Nil); return Nil; }
      if e.val.Kind() != ZSetKind { UnchangedStep(db0, ck, op, now, WrongType); return WrongType; }
      if member !in e.val.scores { UnchangedStep(db0, ck, op, now, Nil); return Nil; }
      var rank := FindRank(e.val.scores, member);
      r := Number(rank);
      UnchangedStep(db0, ck, op, now, r);
    }

    // ------------------------------------------------- several keys, all keys

    /** Removal of a key from its shard, its version untouched. */
    method DeleteEntry(ck: Bytes)
      requires Valid() && ck in db.data
      modifies this`db, entryCount, shards[route(ck)]
      ensures Valid() && db == old(db).(data := old(db).data - {ck})
    {
      assert Agrees(ck) && Routed(route(ck));
      shards[route(ck)].DeleteEntry(ck);
      RemovedCardinality(db.data, {ck});
      db := db.(data := db.data - {ck});
      forall i | 0 <= i < |shards| ensures Routed(i) { assert old(Routed(i)); }
      forall k ensures Agrees(k) { assert old(Agrees(k)); }
    }

    method DeleteLive(ck: Bytes, now: int) returns (existed: bool)
      requires Valid()
      modifies this`db, entryCount, shards[route(ck)]
      ensures Valid()
      ensures var d := Purge(old(db), ck, now);
        (existed <==> ck in d.data) && db == if existed then Without(d, ck) else d
    {
      var e := GetForWrite(ck, now);
      existed := e != null;
      if existed {
        Remove(ck);
      }
    }

    lemma DeleteAllNext(d: DB, ws: Bytes, keys: seq<Bytes>, i: nat, now: int)
      requires i < |keys|
      ensures var (e, n) := DeleteAll(d, ws, keys[..i], now);
        var k := NsKey(ws, keys[i]);
        var p := Purge(e, k, now);
        DeleteAll(d, ws, keys[..i + 1], now) == if k in p.data then (Without(p, k), n + 1) else (p, n)
    {
      assert keys[..i + 1][..i] == keys[..i];
    }

    method Del(ws: Bytes, keys: seq<Bytes>, now: int) returns (r: Reply)
      requires Valid()
      modifies this`db, this`entries, entryCount, shards, entries
      ensures Valid() && fresh(entries - old(entries))
      ensures Performs(Action.Del(ws, keys), now, None, r)
    {
      var deleted := 0;
      for i := 0 to |keys|
        invariant Valid() && entries == old(entries)
        invariant (db, deleted) == DeleteAll(old(db), ws, keys[..i], now)
      {
        DeleteAllNext(old(db), ws, keys, i, now);
        var existed := DeleteLive(NsKey(ws, keys[i]), now);
        if existed {
          deleted := deleted + 1;
        }
      }
      assert keys[..|keys|] == keys;
      r := Number(deleted);
    }

    method Exists(ws: Bytes, keys: seq<Bytes>, now: int) returns (r: Reply)
      requires Valid()
      ensures r == Step(db, Action.Exists(ws, keys), now, None).1
    {
      var count := 0;
      for i := 0 to |keys|
        invariant count == CountLive(db, ws, keys[..i], now)
      {
        assert keys[..i + 1][..i] == keys[..i];
        var ck := NsKey(ws, keys[i]);
        assert Agrees(ck);
        var e := shards[route(ck)].GetLive(ck, now);
        if e != null {
          count := count + 1;
        }
      }
      assert keys[..|keys|] == keys;
      r := Number(count);
    }

    method TypeOf(ws: Bytes, key: Bytes, now: int) returns (r: Reply)
      requires Valid()
      ensures r == Step(db, Action.TypeOf(ws, key), now, None).1
    {
      var ck := NsKey(ws, key);
      assert Agrees(ck);
      var e := shards[route(ck)].GetLive(ck, now);
      r := KindName(if e == null then None else Some(e.val.Kind()));
    }

    method Rename(ws: Bytes, from: Bytes, to: Bytes, now: int) returns (r: Reply)
      requires Valid()
      modifies this`db, this`entries, entryCount, shards, entries
      ensures Valid() && fresh(entries - old(entries))
      ensures Performs(Action.Rename(ws, from, to), now, None, r)
    {
      var ock, nck := NsKey(ws, from), NsKey(ws, to);
      var e := GetForWrite(ock, now);
      if e == null { return Flag(false); }
      Move(ock, nck, e);
      r := Flag(true);
    }

    /** The entry object itself changes places, so nothing about it changes. */
    method Move(ock: Bytes, nck: Bytes, e: Entry)
      requires Valid() && nck != [] && ock in db.data && e == At(ock)
      modifies this`db, this`entries, entryCount, shards[route(ock)], shards[route(nck)], e`home
      ensures Valid() && entries == old(entries)
      ensures db == DB((old(db).data - {ock})[nck := old(db).data[ock]],
                       Bump(Bump(old(db).versions, nck, 1), ock, 1))
    {
      assert Agrees(ock);
      DeleteEntry(ock);
      Put(nck, e);
      BumpVersion(ock);
    }

    /** The live keys of a workspace, shard after shard, each in arbitrary order. */
    method KeysForWorkspace(ws: Bytes, now: int) returns (out: seq<Bytes>)
      requires Valid()
      ensures Distinct(out) && forall n :: n in out <==> n in LiveNames(db, ws, now)
    {
      var prefix := Prefix(ws);
      out := [];
      for i := 0 to |shards|
        invariant Distinct(out)
        invariant forall n :: n in out <==> Live(db, NsKey(ws, n), now).Some? && route(NsKey(ws, n)) < i
      {
        var rest := shards[i].data.Keys;
        assert Routed(i);
        forall n | Live(db, NsKey(ws, n), now).Some? && route(NsKey(ws, n)) == i ensures NsKey(ws, n) in rest {
          assert Agrees(NsKey(ws, n));
        }
        while rest != {}
          invariant rest <= shards[i].data.Keys
          invariant Distinct(out)
          invariant forall n :: n in out <==>
            Live(db, NsKey(ws, n), now).Some? && NsKey(ws, n) !in rest && route(NsKey(ws, n)) <= i
          decreases rest
        {
          var ck :| ck in rest;
          assert Agrees(ck);
          rest := rest - {ck};
          if prefix <= ck && !shards[i].data[ck].Expired(now) {
            assert ck == NsKey(ws, ck[|prefix|..]);
            out := out + [ck[|prefix|..]];
          }
        }
      }
      forall n ensures n in out <==> n in LiveNames(db, ws, now) { LiveNamesAre(db, ws, now, n); }
    }

    method Keys(ws: Bytes, pattern: Bytes, now: int) returns (r: Reply)
      requires Valid()
      ensures r == Step(db, Action.Keys(ws, pattern), now, None).1
    {
      var all := KeysForWorkspace(ws, now);
      assert Elements(all) == LiveNames(db, ws, now);
      var out := SelectAndSort(all, pattern);
      r := Strings(out);
    }

    method Scan(ws: Bytes, cursor: nat, pattern: Bytes, count: int, now: int) returns (r: Reply)
      requires Valid()
      ensures r == Step(db, Action.Scan(ws, cursor, pattern, count), now, None).1
    {
      var all := KeysForWorkspace(ws, now);
      assert Elements(all) == LiveNames(db, ws, now);
      var next, out := PageOf(all, cursor, pattern, count);
      r := Page(next, out);
    }

    method FlushShard(i: nat, ws: Bytes)
      requires Valid() && i < |shards|
      modifies this`db, entryCount, shards[i]
      ensures Valid() && db == WithoutAll(old(db), OwnedIn(old(db), ws, route, i))
    {
      ghost var gone: set<Bytes> := {};
      WithoutNone(db);
      var rest := shards[i].data.Keys;
      assert Routed(i);
      forall k ensures k in rest <==> k in db.data && route(k) == i { assert Agrees(k); }
      while rest != {}
        invariant Valid() && db == WithoutAll(old(db), gone)
        invariant forall k :: k in rest ==> k in old(db).data && route(k) == i && k !in gone
        invariant forall k :: k in gone ==> k in OwnedIn(old(db), ws, route, i)
        invariant forall k :: k in OwnedIn(old(db), ws, route, i) ==> k in gone || k in rest
        decreases rest
      {
        var ck :| ck in rest;
        rest := rest - {ck};
        if Prefix(ws) <= ck {
          WithoutAllOneMore(old(db), gone, ck);
          Remove(ck);
          gone := gone + {ck};
        }
      }
      assert gone == OwnedIn(old(db), ws, route, i);
    }

    method FlushDB(ws: Bytes) returns (r: Reply)
      requires Valid()
      modifies this`db, this`entries, entryCount, shards, entries
      ensures Valid() && fresh(entries - old(entries))
      ensures db == WithoutAll(old(db), Owned(old(db), ws)) && r == Flag(true)
    {
      FlushShards(ws);
      FlushedIsWithoutOwned(old(db), ws, route, |shards|);
      r := Flag(true);
    }

    method FlushShards(ws: Bytes)
      requires Valid()
      modifies this`db, entryCount, shards
      ensures Valid() && db == Flushed(old(db), ws, route, |shards|)
    {
      for i := 0 to |shards|
        invariant Valid() && db == Flushed(old(db), ws, route, i)
      {
        FlushShard(i, ws);
      }
    }

    /** One visit of the reaper to one shard. */
    method SweepShard(i: nat, sampleSize: int, now: int) returns (removed: int, ghost gone: set<Bytes>)
      requires Valid() && i < |shards|
      modifies this`db, this`entries, entryCount, shards, entries
      ensures Valid() && fresh(entries - old(entries))
      ensures Sweepable(old(db), gone, now) && db == WithoutAll(old(db), gone)
      ensures removed == |gone| && forall k :: k in gone ==> route(k) == i
      ensures old(|shards[i].ttlKeys|) <= sampleSize ==>
                forall k :: k in old(db).data && old(db).data[k].slot.Expired(now) && route(k) == i ==> k in gone
    {
      DeadAreExpired(i, now);
      removed, gone := shards[i].Sweep(sampleSize, now);
      db := WithoutAll(db, gone);
      SweptIsValid(i, gone);
    }

    lemma DeadAreExpired(i: nat, now: int)
      requires Valid() && i < |shards|
      ensures forall k :: shards[i].Dead(k, now) <==>
                k in db.data && db.data[k].slot.Expired(now) && route(k) == i
    {
      assert Routed(i);
      forall k ensures shards[i].Dead(k, now) <==> k in db.data && db.data[k].slot.Expired(now) && route(k) == i {
        assert Agrees(k);
      }
    }

    /** Shard i has lost the keys in gone, and nothing else has changed. */
    twostate predicate Swept(new i: nat, new gone: set<Bytes>)
      requires i < |shards|
      reads this, entryCount, shards, entries
    {
      && db == WithoutAll(old(db), gone) && entries == old(entries)
      && entryCount.n == old(entryCount.n) - |gone|
      && (forall k :: k in gone ==> k in old(db).data && route(k) == i)
      && (forall k :: k in shards[i].data <==> k in old(shards[i].data) && k !in gone)
      && (forall k :: k in shards[i].data ==> shards[i].data[k] == old(shards[i].data)[k])
      && (forall k :: k in shards[i].ttlKeys <==> k in old(shards[i].ttlKeys) && k !in gone)
      && (forall k :: Version(shards[i].versions, k)
                      == Version(old(shards[i].versions), k) + (if k in gone then 1 else 0))
      && (forall k :: k in shards[i].versions ==> k in old(shards[i].versions) || k in gone)
      && (forall j :: 0 <= j < |shards| && j != i ==> unchanged(shards[j]))
      && (forall e :: e in entries ==> unchanged(e))
    }

    twostate lemma SweptIsValid(new i: nat, new gone: set<Bytes>)
      requires i < |shards| && old(Valid()) && Swept(i, gone)
      ensures Valid()
    {
      RemovedCardinality(old(db).data, gone);
      forall j | 0 <= j < |shards| ensures Routed(j) { SweptRouted(i, gone, j); }
      forall k ensures Agrees(k) { SweptAgrees(i, gone, k); }
    }

    twostate lemma SweptRouted(new i: nat, new gone: set<Bytes>, new j: nat)
      requires i < |shards| && j < |shards| && old(Valid()) && Swept(i, gone)
      ensures Routed(j)
    {
      assert old(Routed(j));
    }

    twostate lemma SweptAgrees(new i: nat, new gone: set<Bytes>, new k: Bytes)
      requires i < |shards| && old(Valid()) && Swept(i, gone)
      ensures Agrees(k)
    {
      assert old(Agrees(k));
      BumpAllVersion(old(db).versions, gone, k);
      if route(k) != i { assert unchanged(shards[route(k)]); }
    }

    lemma RemovedCardinality(data: map<Bytes, Record>, gone: set<Bytes>)
      requires gone <= data.Keys
      ensures |data - gone| == |data| - |gone|
    {
      assert (data - gone).Keys == data.Keys - gone;
    }

    method WatchVersion(ws: Bytes, key: Bytes) returns (v: nat)
      requires Valid()
      ensures v == Version(db.versions, NsKey(ws, key))
    {
      var ck := NsKey(ws, key);
      assert Agrees(ck);
      var sh := shards[route(ck)];
      v := if ck in sh.versions then sh.versions[ck] else 0;
    }

    /** Every command, through one door. */
    method Perform(a: Action, now: int) returns (r: Reply, ghost victim: Option<Bytes>)
      requires Valid()
      modifies this`db, this`entries, entryCount, shards, entries
      ensures Valid() && fresh(entries - old(entries))
      ensures Performs(a, now, victim, r)
    {
      victim := None;
      match a
      case OnKey(ws, key, op) => r, victim := PerformOnKey(ws, key, op, now);
      case Del(ws, keys) => r := Del(ws, keys, now);
      case Exists(ws, keys) => r := Exists(ws, keys, now);
      case TypeOf(ws, key) => r := TypeOf(ws, key, now);
      case Rename(ws, from, to) => r := Rename(ws, from, to, now);
      case Keys(ws, pattern) => r := Keys(ws, pattern, now);
      case Scan(ws, cursor, pattern, count) => r := Scan(ws, cursor, pattern, count, now);
      case FlushDB(ws) => r := FlushDB(ws); assert Performs(a, now, None, r);
    }

    method PerformOnKey(ws: Bytes, key: Bytes, op: Op, now: int) returns (r: Reply, ghost victim: Option<Bytes>)
      requires Valid()
      modifies this`db, this`entries, entryCount, shards, entries
      ensures Valid() && fresh(entries - old(entries))
      ensures PerformsOnKey(ws, key, op, now, victim, r)
    {
      victim := None;
      match op
      case Get => r := Get(ws, key, now);
      case Set(val, opts) => r, victim := Set(ws, key, val, opts, now);
      case Expire(ttl) => r := Expire(ws, key, ttl, now);
      case TTL => r := TTL(ws, key, now);
      case Persist => r := Persist(ws, key, now);
      case Query(kind, show, absent) => r := Query(ws, key, kind, show, absent, now);
      case HSet(fields) => r, victim := HSet(ws, key, fields, now);
      case HGet(field) => r := HGet(ws, key, field, now);
      case HDel(names) => r := HDel(ws, key, names, now);
      case HIncrBy(field, delta) => r, victim := HIncrBy(ws, key, field, delta, now);
      case LPush(vals) => r, victim := LPush(ws, key, vals, now);
      case RPush(vals) => r, victim := RPush(ws, key, vals, now);
      case LPop => r := LPop(ws, key, now);
      case RPop => r := RPop(ws, key, now);
      case LRange(start, stop) => r := LRange(ws, key, start, stop, now);
      case LSet(index, val) => r := LSet(ws, key, index, val, now);
      case LRem(count, val) => r := LRem(ws, key, count, val, now);
      case SAdd(members) => r, victim := SAdd(ws, key, members, now);
      case SRem(members) => r := SRem(ws, key, members, now);
      case ZAdd(scores) => r, victim := ZAdd(ws, key, scores, now);
      case ZRem(names) => r := ZRem(ws, key, names, now);
      case ZIncrBy(member, delta) => r, victim := ZIncrBy(ws, key, member, delta, now);
      case ZRange(start, stop) => r := ZRange(ws, key, start, stop, now);
      case ZRank(member) => r := ZRank(ws, key, member, now);
    }

    // ------------------------------------------------------ what Valid comes to

    ghost function SumOfSizes(n: nat): nat
      requires n <= |shards|
      reads shards
    {
      if n == 0 then 0 else SumOfSizes(n - 1) + |shards[n - 1].data|
    }

    ghost function Below(all: set<Bytes>, n: nat): set<Bytes> {
      set k | k in all && route(k) < n
    }

    lemma {:induction false} SizesAddUp(n: nat)
      requires Valid() && n <= |shards|
      ensures SumOfSizes(n) == |Below(db.data.Keys, n)|
    {
      if n == 0 {
        assert Below(db.data.Keys, 0) == {};
      } else {
        SizesAddUp(n - 1);
        ShardHolds(n - 1);
        OneMoreShard(db.data.Keys, n - 1, shards[n - 1].data.Keys);
      }
    }

    lemma OneMoreShard(all: set<Bytes>, i: nat, part: set<Bytes>)
      requires forall k :: k in part <==> k in all && route(k) == i
      ensures |Below(all, i + 1)| == |Below(all, i)| + |part|
    {
      assert Below(all, i + 1) == Below(all, i) + part;
      assert Below(all, i) !! part;
    }

    lemma ShardHolds(i: nat)
      requires Valid() && i < |shards|
      ensures forall k :: k in shards[i].data.Keys <==> k in db.data && route(k) == i
    {
      assert Routed(i);
      forall k ensures k in shards[i].data.Keys <==> k in db.data && route(k) == i { assert Agrees(k); }
    }

    /** The shared counter is the number of entries in all shards together, those
        expired and not yet removed included. */
    lemma EntryCountIsSumOfShards()
      requires Valid()
      ensures entryCount.n == SumOfSizes(|shards|)
    {
      SizesAddUp(|shards|);
      assert Below(db.data.Keys, |shards|) == db.data.Keys;
    }

    ghost function LiveKeys(now: int): set<Bytes>
      reads this
    {
      set k | k in db.data && !db.data[k].slot.Expired(now)
    }

    /** The counter is the number of live entries exactly when no stored entry has expired;
        otherwise it is greater. */
    lemma CountsTheLiveExactlyWhen(now: int)
      requires Valid()
      ensures entryCount.n == |LiveKeys(now)| <==> forall k :: k in db.data ==> !db.data[k].slot.Expired(now)
      ensures entryCount.n >= |LiveKeys(now)|
    {
      var dead := db.data.Keys - LiveKeys(now);
      assert db.data.Keys == LiveKeys(now) + dead;
      assert dead == {} <==> forall k :: k in db.data ==> !db.data[k].slot.Expired(now);
    }

    /** A shard's deadline index is exact, and every key sits where its hash says. */
    lemma IndexIsExact(i: nat, k: Bytes)
      requires Valid() && i < |shards|
      ensures k in shards[i].data ==> route(k) == i
      ensures k in shards[i].ttlKeys <==> k in shards[i].data && shards[i].data[k].deadline.Some?
    {
      assert Routed(i) && Agrees(k);
    }

    /** No two keys, in whatever shards, share an entry object. */
    lemma NoSharedEntries(i: nat, k: Bytes, j: nat, l: Bytes)
      requires Valid() && i < |shards| && j < |shards| && k in shards[i].data && l in shards[j].data && k != l
      ensures shards[i].data[k] != shards[j].data[l]
    {
      assert Routed(i) && Routed(j) && Agrees(k) && Agrees(l);
    }
  }
}
