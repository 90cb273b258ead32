/** The mutation counters behind WATCH: whatever happens to a stored entry moves
    its key's counter, and no counter ever goes back. */
module Versions {
  import opened Base
  import opened Keyspace
  import opened KeySteps
  import E = EvictionBound

  function VersionOf(db: DB, k: Bytes): nat { Version(db.versions, k) }

  /** From the one store to the other no version went back, and every key whose
      stored value, kind or deadline differs has a strictly greater version. */
  ghost predicate Honest(before: DB, after: DB) {
    forall k :: && VersionOf(before, k) <= VersionOf(after, k)
                && (Lookup(before, k) != Lookup(after, k) ==> VersionOf(before, k) < VersionOf(after, k))
  }

  lemma HonestTransitive(a: DB, b: DB, c: DB)
    requires Honest(a, b) && Honest(b, c)
    ensures Honest(a, c)
  {
    forall k
      ensures VersionOf(a, k) <= VersionOf(c, k)
      ensures Lookup(a, k) != Lookup(c, k) ==> VersionOf(a, k) < VersionOf(c, k)
    {
      assert VersionOf(a, k) <= VersionOf(b, k) <= VersionOf(c, k);
    }
  }

  lemma AppliedHonest(db: DB, k: Bytes, o: Outcome, now: int, victim: Option<Bytes>)
    requires o.slot != Live(db, k, now) ==> o.bumps > 0
    ensures Honest(db, Applied(db, k, o, now, victim))
  {
    var d := Purge(db, k, now);
    assert Honest(db, d);
    assert Lookup(d, k) == Live(db, k, now);
    var e := if Live(db, k, now).None? && o.slot.Some? then Evict(d, victim) else d;
    assert Honest(d, e);
    HonestTransitive(db, d, e);
    assert Honest(e, Write(e, k, o, now));
    HonestTransitive(db, e, Write(e, k, o, now));
  }

  lemma StepKeyHonest(db: DB, k: Bytes, op: Op, now: int, victim: Option<Bytes>)
    ensures Honest(db, StepKey(db, k, op, now, victim).0)
  {
    RunMovesVersion(op, Live(db, k, now), now);
    AppliedHonest(db, k, Run(op, Live(db, k, now), now), now, victim);
  }

  lemma {:induction false} DeleteAllHonest(db: DB, ws: Bytes, keys: seq<Bytes>, now: int)
    ensures Honest(db, DeleteAll(db, ws, keys, now).0)
  {
    if keys != [] {
      var d := DeleteAll(db, ws, keys[..|keys| - 1], now).0;
      var k := NsKey(ws, keys[|keys| - 1]);
      DeleteAllHonest(db, ws, keys[..|keys| - 1], now);
      assert Honest(d, Purge(d, k, now));
      assert Honest(Purge(d, k, now), Without(Purge(d, k, now), k));
      HonestTransitive(db, d, Purge(d, k, now));
      HonestTransitive(db, Purge(d, k, now), Without(Purge(d, k, now), k));
    }
  }

  lemma WithoutAllHonest(db: DB, gone: set<Bytes>)
    ensures Honest(db, WithoutAll(db, gone))
  {
    forall k
      ensures VersionOf(db, k) <= VersionOf(WithoutAll(db, gone), k)
      ensures Lookup(db, k) != Lookup(WithoutAll(db, gone), k) ==> VersionOf(db, k) < VersionOf(WithoutAll(db, gone), k)
    {
      BumpAllVersion(db.versions, gone, k);
    }
  }

  lemma RenamedHonest(db: DB, from: Bytes, to: Bytes, now: int)
    ensures Honest(db, Renamed(db, from, to, now).0)
  {
    var d := Purge(db, from, now);
    assert Honest(db, d);
    assert Honest(d, Renamed(db, from, to, now).0);
    HonestTransitive(db, d, Renamed(db, from, to, now).0);
  }

  /** Every command, whatever it evicts on the way: delete and recreate, expiry,
      eviction and rename included. */
  lemma StepHonest(db: DB, a: Action, now: int, victim: Option<Bytes>)
    ensures Honest(db, Step(db, a, now, victim).0)
  {
    match a
    case OnKey(ws, key, op) => StepKeyHonest(db, NsKey(ws, key), op, now, victim);
    case Del(ws, keys) => DeleteAllHonest(db, ws, keys, now);
    case Rename(ws, from, to) => RenamedHonest(db, NsKey(ws, from), NsKey(ws, to), now);
    case FlushDB(ws) => WithoutAllHonest(db, Owned(db, ws));
    case _ =>
  }

  /** Reads move a version only by removing an expired key. */
  lemma ReadsMoveNothingLive(db: DB, k: Bytes, op: Op, now: int, j: Bytes)
    requires op.Get? || op.TTL? || op.Query? || op.HGet? || op.LRange? || op.ZRange? || op.ZRank?
    ensures VersionOf(StepKey(db, k, op, now, None).0, j)
         == VersionOf(db, j) + (if j == k && k in db.data && db.data[k].slot.Expired(now) then 1 else 0)
  {}

  // ----------------------------------------------------- no hollow collections

  /** No stored hash, list, set or sorted set is empty. */
  ghost predicate NothingHollow(db: DB) {
    forall k :: k in db.data ==> !db.data[k].slot.val.Hollow()
  }

  predicate EmptyHanded(op: Op) {
    match op
    case HSet(fields) => fields == map[]
    case LPush(vals) => vals == []
    case RPush(vals) => vals == []
    case SAdd(members) => members == []
    case ZAdd(scores) => scores == map[]
    case _ => false
  }

  lemma {:induction false} BackwardsEmpty(s: seq<Bytes>)
    ensures Backwards(s) == [] <==> s == []
  {
    if s != [] { assert |Backwards(s)| == |Backwards(s[1..])| + 1; }
  }

  lemma HollowMerge<V>(h: map<Bytes, V>, fields: map<Bytes, V>)
    ensures h + fields == map[] <==> h == map[] && fields == map[]
  {
    if fields != map[] {
      var f :| f in fields;
      assert f in h + fields;
    }
    if h != map[] {
      var f :| f in h;
      assert f in h + fields;
    }
  }

  lemma HollowElements(members: seq<Bytes>)
    ensures Elements(members) == {} <==> members == []
  {
    if members != [] { assert members[0] in Elements(members); }
  }

  predicate Grows(op: Op) {
    op.HSet? || op.LPush? || op.RPush? || op.SAdd? || op.ZAdd? || op.ZIncrBy? || op.HIncrBy?
  }

  ghost predicate LeavesHollow(op: Op, cur: Option<Slot>, now: int) {
    EndsHollow(Run(op, cur, now))
  }

  predicate EndsHollow(o: Outcome) {
    o.slot.Some? && o.slot.value.val.Hollow()
  }

  lemma HSetHollow(fields: map<Bytes, Bytes>, cur: Option<Slot>)
    requires cur.Some? ==> !cur.value.val.Hollow()
    ensures EndsHollow(RunHSet(fields, cur)) <==> cur.None? && fields == map[]
  {
    if !Mismatch(cur, HashKind) { HollowMerge(Current(cur, HashKind).fields, fields); }
  }

  lemma ZAddHollow(scores: map<Bytes, real>, cur: Option<Slot>)
    requires cur.Some? ==> !cur.value.val.Hollow()
    ensures EndsHollow(RunZAdd(scores, cur)) <==> cur.None? && scores == map[]
  {
    if !Mismatch(cur, ZSetKind) { HollowMerge(Current(cur, ZSetKind).scores, scores); }
  }

  lemma SAddHollow(members: seq<Bytes>, cur: Option<Slot>)
    requires cur.Some? ==> !cur.value.val.Hollow()
    ensures EndsHollow(RunSAdd(members, cur)) <==> cur.None? && members == []
  {
    HollowElements(members);
  }

  lemma LPushHollow(vals: seq<Bytes>, cur: Option<Slot>)
    requires cur.Some? ==> !cur.value.val.Hollow()
    ensures EndsHollow(RunLPush(vals, cur)) <==> cur.None? && vals == []
  {
    BackwardsEmpty(vals);
  }

  lemma RPushHollow(vals: seq<Bytes>, cur: Option<Slot>)
    requires cur.Some? ==> !cur.value.val.Hollow()
    ensures EndsHollow(RunRPush(vals, cur)) <==> cur.None? && vals == []
  {}

  lemma ZIncrByHollow(member: Bytes, delta: real, cur: Option<Slot>)
    requires cur.Some? ==> !cur.value.val.Hollow()
    ensures !EndsHollow(RunZIncrBy(member, delta, cur))
  {
    if !Mismatch(cur, ZSetKind) {
      var z := Current(cur, ZSetKind).scores;
      assert member in z[member := (if member in z then z[member] else 0.0) + delta];
    }
  }

  lemma HIncrByHollow(field: Bytes, delta: int, cur: Option<Slot>)
    requires cur.Some? ==> !cur.value.val.Hollow()
    ensures !EndsHollow(RunHIncrBy(field, delta, cur))
  {
    var s := RunHIncrBy(field, delta, cur).slot;
    if s.Some? && s != cur {
      assert field in s.value.val.fields;
    }
  }

  lemma RunHollow(op: Op, cur: Option<Slot>, now: int)
    requires cur.Some? ==> !cur.value.val.Hollow()
    ensures LeavesHollow(op, cur, now) <==> cur.None? && EmptyHanded(op)
  {
    match op
    case HSet(fields) => HSetHollow(fields, cur);
    case ZAdd(scores) => ZAddHollow(scores, cur);
    case SAdd(members) => SAddHollow(members, cur);
    case LPush(vals) => LPushHollow(vals, cur);
    case RPush(vals) => RPushHollow(vals, cur);
    case ZIncrBy(member, delta) => ZIncrByHollow(member, delta, cur);
    case HIncrBy(field, delta) => HIncrByHollow(field, delta, cur);
    case _ => NotGrownNotHollow(op, cur, now);
  }

  lemma NotGrownNotHollow(op: Op, cur: Option<Slot>, now: int)
    requires !Grows(op) && (cur.Some? ==> !cur.value.val.Hollow())
    ensures !LeavesHollow(op, cur, now)
  {}

  lemma {:induction false} DeleteAllKeepsEntries(db: DB, ws: Bytes, keys: seq<Bytes>, now: int)
    ensures var d := DeleteAll(db, ws, keys, now).0;
      forall k :: k in d.data ==> k in db.data && d.data[k] == db.data[k]
  {
    if keys != [] { DeleteAllKeepsEntries(db, ws, keys[..|keys| - 1], now); }
  }

  lemma OnlyOneCanBeHollow(before: DB, after: DB, k: Bytes)
    requires NothingHollow(before)
    requires forall j :: j != k && j in after.data ==> j in before.data && after.data[j] == before.data[j]
    ensures NothingHollow(after) <==> Lookup(after, k).None? || !Lookup(after, k).value.val.Hollow()
  {}

  lemma StepKeyHollow(db: DB, k: Bytes, op: Op, now: int, victim: Option<Bytes>)
    requires NothingHollow(db) && victim != Some(k)
    ensures NothingHollow(StepKey(db, k, op, now, victim).0) <==> !(EmptyHanded(op) && Live(db, k, now).None?)
  {
    RunHollow(op, Live(db, k, now), now);
    StepKeyStores(db, k, op, now, victim);
    OnlyOneCanBeHollow(db, StepKey(db, k, op, now, victim).0, k);
  }

  /** Collections never become hollow, except by creating a key with no arguments. */
  lemma HollowOnlyFromNothing(db: DB, a: Action, now: int, victim: Option<Bytes>)
    requires NothingHollow(db) && (a.OnKey? ==> victim != Some(NsKey(a.ws, a.key)))
    ensures NothingHollow(Step(db, a, now, victim).0) <==>
      !(a.OnKey? && EmptyHanded(a.op) && Live(db, NsKey(a.ws, a.key), now).None?)
  {
    match a
    case OnKey(ws, key, op) => StepKeyHollow(db, NsKey(ws, key), op, now, victim);
    case Del(ws, keys) => DeleteAllKeepsEntries(db, ws, keys, now);
    case _ =>
  }

  /** A case: SADD without members on an absent key. */
  lemma HollowCase(now: int)
    ensures var d := Step(DB(map[], map[]), OnKey([], [], SAdd([])), now, None).0;
      Lookup(d, NsKey([], [])) == Some(Slot(SetValue({}), None)) && !NothingHollow(d)
  {
    HollowOnlyFromNothing(DB(map[], map[]), OnKey([], [], SAdd([])), now, None);
    StepKeyStores(DB(map[], map[]), NsKey([], []), SAdd([]), now, None);
    HollowElements([]);
  }

  // ------------------------------------------------------------ hollow, in runs

  /** The event creates its key from nothing with no arguments. */
  ghost predicate Hollows(db: DB, e: E.Event) {
    e.Command? && e.a.OnKey? && EmptyHanded(e.a.op) && Live(db, NsKey(e.a.ws, e.a.key), e.now).None?
  }

  ghost predicate NeverHollows(db: DB, run: seq<E.Event>)
    decreases |run|
  {
    run == [] || (!Hollows(db, run[0]) && NeverHollows(E.After(db, run[0]), run[1..]))
  }

  ghost predicate NeverHollow(db: DB, run: seq<E.Event>)
    decreases |run|
  {
    NothingHollow(db) && (run == [] || NeverHollow(E.After(db, run[0]), run[1..]))
  }

  lemma EventHollowOnlyFromNothing(db: DB, e: E.Event, shard: Bytes -> nat, cap: int)
    requires NothingHollow(db) && (e.Command? ==> Legal(db, e.a, e.now, e.victim, shard, cap))
    ensures NothingHollow(E.After(db, e)) <==> !Hollows(db, e)
  {
    if e.Command? { HollowOnlyFromNothing(db, e.a, e.now, e.victim); }
  }

  /** Whatever is evicted and reaped, a run leaves no empty collection behind at any point exactly
      if no command in it creates its key with no arguments. */
  lemma {:induction false} RunHollowExactlyWhen(db: DB, run: seq<E.Event>, shard: Bytes -> nat, cap: int)
    requires NothingHollow(db) && E.Permitted(db, run, shard, cap)
    ensures NeverHollow(db, run) <==> NeverHollows(db, run)
    decreases |run|
  {
    if run != [] {
      EventHollowOnlyFromNothing(db, run[0], shard, cap);
      if !Hollows(db, run[0]) { RunHollowExactlyWhen(E.After(db, run[0]), run[1..], shard, cap); }
    }
  }

  lemma {:induction false} HandyNeverHollows(db: DB, run: seq<E.Event>)
    requires forall i :: 0 <= i < |run| && run[i].Command? && run[i].a.OnKey? ==> !EmptyHanded(run[i].a.op)
    ensures NeverHollows(db, run)
    decreases |run|
  {
    if run != [] {
      forall i | 0 <= i < |run| - 1 && run[1..][i].Command? && run[1..][i].a.OnKey?
        ensures !EmptyHanded(run[1..][i].a.op)
      {
        assert run[1..][i] == run[i + 1];
      }
      HandyNeverHollows(E.After(db, run[0]), run[1..]);
    }
  }

  lemma {:induction false} NotHollowAtTheEnd(db: DB, run: seq<E.Event>)
    requires NeverHollow(db, run)
    ensures NothingHollow(E.Final(db, run))
    decreases |run|
  {
    if run != [] { NotHollowAtTheEnd(E.After(db, run[0]), run[1..]); }
  }

  /** Commands that carry arguments never leave an empty collection behind. */
  lemma WithArgumentsNothingIsHollow(run: seq<E.Event>, shard: Bytes -> nat, cap: int)
    requires E.Permitted(DB(map[], map[]), run, shard, cap)
    requires forall i :: 0 <= i < |run| && run[i].Command? && run[i].a.OnKey? ==> !EmptyHanded(run[i].a.op)
    ensures NothingHollow(E.Final(DB(map[], map[]), run))
  {
    HandyNeverHollows(DB(map[], map[]), run);
    RunHollowExactlyWhen(DB(map[], map[]), run, shard, cap);
    NotHollowAtTheEnd(DB(map[], map[]), run);
  }
}
