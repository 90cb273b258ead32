/** The sharded store object, in use, against one flat map. */
module Refinement {
  import opened Base
  import opened Keyspace
  import opened Stores
  import KeySteps
  import F = FlatMap
  import E = EvictionBound

  /** What happens to a store: commands, and visits of the reaper to one shard. */
  datatype Visit = Command(a: Action, now: int) | Reap(shard: nat, sampleSize: int, now: int)

  /** The clock never goes back, workspaces are among those of W and shards exist. */
  ghost predicate Orderly(W: iset<Bytes>, log: seq<Visit>, start: int, shards: nat) {
    && (forall i :: 0 <= i < |log| ==> start <= log[i].now)
    && (forall i, j :: 0 <= i < j < |log| ==> log[i].now <= log[j].now)
    && (forall i :: 0 <= i < |log| && log[i].Command? ==> log[i].a.ws in W)
    && (forall i :: 0 <= i < |log| && log[i].Reap? ==> log[i].shard < shards)
  }

  function Commands(log: seq<Visit>): seq<F.Event> {
    if log == [] then []
    else (if log[0].Command? then [F.Command(log[0].a, log[0].now)] else []) + Commands(log[1..])
  }

  /** What one visit does to the flat map, and the replies it calls for. */
  ghost function FlatVisit(f: F.Flat, v: Visit): (F.Flat, seq<Reply>) {
    match v
    case Command(a, now) => (F.FlatStep(f, a, now).0, [F.FlatStep(f, a, now).1])
    case Reap(_, _, _) => (f, [])
  }

  lemma FlatRepliesNext(f: F.Flat, log: seq<Visit>, i: nat)
    requires i < |log|
    ensures F.FlatReplies(f, Commands(log[i..]))
         == FlatVisit(f, log[i]).1 + F.FlatReplies(FlatVisit(f, log[i]).0, Commands(log[i + 1..]))
  {
    var rest := Commands(log[i + 1..]);
    assert log[i..][1..] == log[i + 1..];
    if log[i].Command? {
      assert Commands(log[i..]) == [F.Command(log[i].a, log[i].now)] + rest;
      assert Commands(log[i..])[1..] == rest;
    } else {
      assert Commands(log[i..]) == [] + rest == rest;
    }
  }

  method ServeOne(ghost W: iset<Bytes>, store: Store, v: Visit, ghost f: F.Flat, ghost last: int) returns (replies: seq<Reply>)
    requires F.Apart(W) && store.Valid() && store.maxEntries <= 0 && F.Same(W, store.db, f, last) && last <= v.now
    requires if v.Command? then v.a.ws in W else v.shard < |store.shards|
    modifies store`db, store`entries, store.entryCount, store.shards, store.entries
    ensures store.Valid() && fresh(store.entries - old(store.entries))
    ensures replies == FlatVisit(f, v).1 && F.Same(W, store.db, FlatVisit(f, v).0, v.now)
  {
    F.StaysSame(W, store.db, f, last, v.now);
    match v
    case Command(a, now) =>
      F.StepSame(W, store.db, f, a, now);
      var r, victim := store.Perform(a, now);
      replies := [r];
    case Reap(shard, sampleSize, now) =>
      ghost var db := store.db;
      var removed, gone := store.SweepShard(shard, sampleSize, now);
      F.SweepStaysSame(W, db, f, gone, now);
      replies := [];
  }

  method Serve(ghost W: iset<Bytes>, store: Store, log: seq<Visit>, ghost f0: F.Flat, ghost start: int) returns (replies: seq<Reply>)
    requires F.Apart(W) && store.Valid() && store.maxEntries <= 0 && F.Same(W, store.db, f0, start)
    requires Orderly(W, log, start, |store.shards|)
    modifies store`db, store`entries, store.entryCount, store.shards, store.entries
    ensures store.Valid() && replies == F.FlatReplies(f0, Commands(log))
  {
    replies := [];
    ghost var f, last := f0, start;
    for i := 0 to |log|
      invariant store.Valid() && fresh(store.entries - old(store.entries))
      invariant F.Same(W, store.db, f, last) && (i < |log| ==> last <= log[i].now)
      invariant F.FlatReplies(f0, Commands(log)) == replies + F.FlatReplies(f, Commands(log[i..]))
    {
      FlatRepliesNext(f, log, i);
      var r := ServeOne(W, store, log[i], f, last);
      f, last := FlatVisit(f, log[i]).0, log[i].now;
      replies := replies + r;
    }
    assert log[|log|..] == [];
  }

  /** With eviction off, a new store answers every run as one flat map from workspace and
      key to value and deadline, whatever the number of shards, the hash, the policy and
      the visits of the reaper: none of them appears in the answer. */
  method Run(ghost W: iset<Bytes>, numShards: int, hash: Bytes -> nat, score: (int, int, nat) -> real, log: seq<Visit>,
             ghost start: int)
    returns (replies: seq<Reply>)
    requires F.Apart(W) && Orderly(W, log, start, ShardsFor(numShards))
    ensures replies == F.FlatReplies(map[], Commands(log))
  {
    var store := new Store(numShards, hash, 0, score);
    F.EmptyStoreIsEmptyMap(W, start);
    replies := Serve(W, store, log, map[], start);
  }

  /** The store's value before and after a visit. */
  ghost predicate Follows(d: DB, v: Visit, e: DB, route: Bytes -> nat, cap: int) {
    match v
    case Command(a, now) =>
      exists victim :: Legal(d, a, now, victim, route, cap) && e == Step(d, a, now, victim).0
    case Reap(_, _, now) => exists gone :: Sweepable(d, gone, now) && e == WithoutAll(d, gone)
  }

  /** A RENAME that crowds a shard when there is no room for it. */
  ghost predicate OvercrowdingVisit(d: DB, v: Visit, route: Bytes -> nat, cap: int) {
    v.Command? && E.Overcrowds(d, v.a, v.now, route, cap)
  }

  lemma StaysBoundedExactlyWhen(d: DB, v: Visit, e: DB, route: Bytes -> nat, cap: int)
    requires Follows(d, v, e, route, cap) && cap >= 1 && E.Bounded(d.data.Keys, route, cap)
    ensures E.Bounded(e.data.Keys, route, cap) <==> !OvercrowdingVisit(d, v, route, cap)
  {
    match v
    case Command(a, now) =>
      var victim :| Legal(d, a, now, victim, route, cap) && e == Step(d, a, now, victim).0;
      E.StepBoundedExactlyWhen(d, a, now, victim, route, cap);
    case Reap(_, _, now) =>
      var gone :| Sweepable(d, gone, now) && e == WithoutAll(d, gone);
      E.RemoveMany(d.data.Keys, gone, route, cap);
      assert (d.data - gone).Keys == d.data.Keys - gone;
  }

  method VisitOnce(store: Store, v: Visit)
    requires store.Valid() && (v.Reap? ==> v.shard < |store.shards|)
    modifies store`db, store`entries, store.entryCount, store.shards, store.entries
    ensures store.Valid() && fresh(store.entries - old(store.entries))
    ensures Follows(old(store.db), v, store.db, store.route, store.maxEntries)
  {
    match v
    case Command(a, now) =>
      var r, victim := store.Perform(a, now);
    case Reap(shard, sampleSize, now) =>
      var removed, gone := store.SweepShard(shard, sampleSize, now);
  }

  ghost predicate IsTrace(dbs: seq<DB>, log: seq<Visit>, n: nat, route: Bytes -> nat, cap: int)
    requires n <= |log|
  {
    |dbs| == n + 1 && forall i :: 0 <= i < n ==> Follows(dbs[i], log[i], dbs[i + 1], route, cap)
  }

  ghost predicate Calm(dbs: seq<DB>, log: seq<Visit>, route: Bytes -> nat, cap: int)
    requires |dbs| == |log| + 1
  {
    forall i :: 0 <= i < |log| ==> !OvercrowdingVisit(dbs[i], log[i], route, cap)
  }

  ghost predicate AlwaysBounded(dbs: seq<DB>, route: Bytes -> nat, cap: int) {
    forall i :: 0 <= i < |dbs| ==> E.Bounded(dbs[i].data.Keys, route, cap)
  }

  lemma {:induction false} CalmTraceIsBounded(dbs: seq<DB>, log: seq<Visit>, route: Bytes -> nat, cap: int, n: nat)
    requires IsTrace(dbs, log, |log|, route, cap) && Calm(dbs, log, route, cap) && n <= |log|
    requires cap >= 1 && E.Bounded(dbs[0].data.Keys, route, cap)
    ensures E.Bounded(dbs[n].data.Keys, route, cap)
  {
    if n > 0 {
      CalmTraceIsBounded(dbs, log, route, cap, n - 1);
      assert Follows(dbs[n - 1], log[n - 1], dbs[n - 1 + 1], route, cap);
      StaysBoundedExactlyWhen(dbs[n - 1], log[n - 1], dbs[n], route, cap);
    }
  }

  /** A trace that starts within the bound stays within it exactly if it is calm. */
  lemma TraceIsBoundedExactlyWhen(dbs: seq<DB>, log: seq<Visit>, route: Bytes -> nat, cap: int)
    requires IsTrace(dbs, log, |log|, route, cap) && cap >= 1 && E.Bounded(dbs[0].data.Keys, route, cap)
    ensures AlwaysBounded(dbs, route, cap) <==> Calm(dbs, log, route, cap)
  {
    if Calm(dbs, log, route, cap) {
      forall n | 0 <= n < |dbs| ensures E.Bounded(dbs[n].data.Keys, route, cap) {
        CalmTraceIsBounded(dbs, log, route, cap, n);
      }
    }
    if AlwaysBounded(dbs, route, cap) {
      forall i | 0 <= i < |log| ensures !OvercrowdingVisit(dbs[i], log[i], route, cap) {
        assert Follows(dbs[i], log[i], dbs[i + 1], route, cap);
        assert E.Bounded(dbs[i + 1].data.Keys, route, cap);
        StaysBoundedExactlyWhen(dbs[i], log[i], dbs[i + 1], route, cap);
      }
    }
  }

  lemma OneMoreVisit(dbs: seq<DB>, log: seq<Visit>, n: nat, e: DB, route: Bytes -> nat, cap: int)
    requires n < |log| && IsTrace(dbs, log, n, route, cap) && Follows(dbs[n], log[n], e, route, cap)
    ensures IsTrace(dbs + [e], log, n + 1, route, cap)
  {
    forall i | 0 <= i < n + 1 ensures Follows((dbs + [e])[i], log[i], (dbs + [e])[i + 1], route, cap) {
      if i < n { assert Follows(dbs[i], log[i], dbs[i + 1], route, cap); }
    }
  }

  method VisitAll(store: Store, log: seq<Visit>) returns (ghost dbs: seq<DB>)
    requires store.Valid()
    requires forall i :: 0 <= i < |log| && log[i].Reap? ==> log[i].shard < |store.shards|
    modifies store`db, store`entries, store.entryCount, store.shards, store.entries
    ensures store.Valid() && IsTrace(dbs, log, |log|, store.route, store.maxEntries)
    ensures dbs[0] == old(store.db) && dbs[|log|] == store.db
  {
    dbs := [store.db];
    for i := 0 to |log|
      invariant store.Valid() && fresh(store.entries - old(store.entries))
      invariant IsTrace(dbs, log, i, store.route, store.maxEntries)
      invariant dbs[0] == old(store.db) && dbs[i] == store.db
    {
      VisitOnce(store, log[i]);
      OneMoreVisit(dbs, log, i, store.db, store.route, store.maxEntries);
      dbs := dbs + [store.db];
    }
  }

  /** With eviction on, whatever the hash and the policy, a store stays within the bound, and so
      at cap + shards - 1 entries or fewer, exactly if no RENAME on the way crowds a shard when
      there is no room for it. A single shard never exceeds its cap. */
  method RunCapped(numShards: int, hash: Bytes -> nat, cap: int, score: (int, int, nat) -> real, log: seq<Visit>)
    returns (count: int, ghost dbs: seq<DB>, ghost route: Bytes -> nat)
    requires cap >= 1
    requires forall i :: 0 <= i < |log| && log[i].Reap? ==> log[i].shard < ShardsFor(numShards)
    ensures forall k :: route(k) == hash(k) % ShardsFor(numShards)
    ensures IsTrace(dbs, log, |log|, route, cap) && dbs[0] == DB(map[], map[]) && count == |dbs[|log|].data|
    ensures Calm(dbs, log, route, cap) <==> AlwaysBounded(dbs, route, cap)
    ensures ShardsFor(numShards) == 1 ==> Calm(dbs, log, route, cap)
    ensures Calm(dbs, log, route, cap) ==> count <= cap + ShardsFor(numShards) - 1
  {
    var store := new Store(numShards, hash, cap, score);
    route := store.route;
    dbs := VisitAll(store, log);
    count := store.entryCount.n;
    TraceIsBoundedExactlyWhen(dbs, log, route, cap);
    if Calm(dbs, log, route, cap) {
      E.UsedAtMost(store.db.data.Keys, route, |store.shards|);
    }
  }

  /** A case in which the counter is not the number of live entries: one key with a time to
      live, looked for after its deadline. */
  method ExpiredIsCounted(numShards: int, hash: Bytes -> nat, score: (int, int, nat) -> real)
    returns (count: int, live: Reply)
    ensures count == 1 && live == Number(0)
  {
    var store := new Store(numShards, hash, 0, score);
    var opts := SetOpts(5, false, false, false);
    var r, victim := store.Set([], [], [], opts, 0);
    ghost var k := NsKey([], []);
    KeySteps.OverwriteStep(DB(map[], map[]), k, Op.Set([], opts), 0, None, SetDone(true, None),
                           Slot(StringValue([]), Some(5)));
    assert store.db.data == map[k := Record(Slot(StringValue([]), Some(5)), 0, 1)];
    count := store.entryCount.n;
    var keys: seq<Bytes> := [[]];
    live := store.Exists([], keys, 9);
    assert keys[..0] == [];
    assert CountLive(store.db, [], keys, 9) == CountLive(store.db, [], keys[..0], 9);
  }
}
