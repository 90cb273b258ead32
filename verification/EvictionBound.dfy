/** How far the entry count can exceed the cap: eviction looks only into the shard
    that receives the new key, so each empty shard may let one key slip in. */
module EvictionBound {
  import opened Base
  import opened Keyspace
  import opened KeySteps

  /** The shards that hold something. */
  function Used(keys: set<Bytes>, shard: Bytes -> nat): set<nat> {
    set k | k in keys :: shard(k)
  }

  /** With n shards: entries + empty shards <= cap + n - 1. */
  ghost predicate Bounded(keys: set<Bytes>, shard: Bytes -> nat, cap: int) {
    |keys| <= cap - 1 + |Used(keys, shard)|
  }

  function Below(n: nat): (r: set<nat>)
    ensures |r| == n && forall i: nat :: i in r <==> i < n
  {
    if n == 0 then {} else Below(n - 1) + {n - 1}
  }

  lemma UsedAtMost(keys: set<Bytes>, shard: Bytes -> nat, n: nat)
    requires forall k :: shard(k) < n
    ensures |Used(keys, shard)| <= n
  {
    assert Used(keys, shard) <= Below(n);
    SubsetSize(Used(keys, shard), Below(n));
  }

  lemma SubsetSize<T>(a: set<T>, b: set<T>)
    requires a <= b
    ensures |a| <= |b|
  {
    assert b == a + (b - a);
  }

  lemma RemoveOne(keys: set<Bytes>, k: Bytes, shard: Bytes -> nat, cap: int)
    requires Bounded(keys, shard, cap)
    ensures Bounded(keys - {k}, shard, cap)
  {
    if k in keys {
      var u, v := Used(keys, shard), Used(keys - {k}, shard);
      forall i | i in u && i != shard(k) ensures i in v {
        var j :| j in keys && shard(j) == i;
        assert j in keys - {k};
      }
      assert u - {shard(k)} <= v;
      SubsetSize(u - {shard(k)}, v);
    } else {
      assert keys - {k} == keys;
    }
  }

  lemma {:induction false} RemoveMany(keys: set<Bytes>, gone: set<Bytes>, shard: Bytes -> nat, cap: int)
    requires Bounded(keys, shard, cap)
    ensures Bounded(keys - gone, shard, cap)
  {
    if gone == {} {
      assert keys - gone == keys;
    } else {
      var k :| k in gone;
      RemoveOne(keys, k, shard, cap);
      RemoveMany(keys - {k}, gone - {k}, shard, cap);
      assert keys - {k} - (gone - {k}) == keys - gone;
    }
  }

  lemma UsedGrows(keys: set<Bytes>, k: Bytes, shard: Bytes -> nat)
    ensures Used(keys + {k}, shard) == Used(keys, shard) + {shard(k)}
  {
    assert k in keys + {k};
    forall i | i in Used(keys, shard) ensures i in Used(keys + {k}, shard) {
      var j :| j in keys && shard(j) == i;
      assert j in keys + {k};
    }
  }

  /** The store gives up a key only for a new one, only when it holds as many as the cap allows, and
      only one of the shard that the new one goes to. */
  lemma EvictsOnlyWhenFull(db: DB, a: Action, now: int, victim: Bytes, shard: Bytes -> nat, cap: int)
    requires Legal(db, a, now, Some(victim), shard, cap)
    ensures a.OnKey? && Live(db, NsKey(a.ws, a.key), now).None?
    ensures 0 < cap <= |Purge(db, NsKey(a.ws, a.key), now).data|
    ensures victim in db.data && victim != NsKey(a.ws, a.key) && shard(victim) == shard(NsKey(a.ws, a.key))
  {}

  /** And then it always does, unless that shard is empty. */
  lemma EvictsWhenFull(db: DB, a: Action, now: int, shard: Bytes -> nat, cap: int)
    requires a.OnKey? && Creates(db, NsKey(a.ws, a.key), a.op, now) && Legal(db, a, now, None, shard, cap)
    requires 0 < cap <= |Purge(db, NsKey(a.ws, a.key), now).data|
    ensures forall v :: v in Purge(db, NsKey(a.ws, a.key), now).data ==> shard(v) != shard(NsKey(a.ws, a.key))
  {}

  /** A key stored after the eviction the store allows itself. */
  lemma InsertAfterEviction(db: DB, k: Bytes, victim: Option<Bytes>, shard: Bytes -> nat, cap: int)
    requires cap >= 1 && k !in db.data && Bounded(db.data.Keys, shard, cap) && MayEvict(db, shard, cap, k, victim)
    ensures Bounded(Evict(db, victim).data.Keys + {k}, shard, cap)
  {
    var keys := Evict(db, victim).data.Keys;
    UsedGrows(keys, k, shard);
    assert |db.data| == |db.data.Keys|;
    match victim
    case None =>
      if |db.data| + 1 <= cap {
        assert |Used(keys + {k}, shard)| >= 1 by { SubsetSize({shard(k)}, Used(keys + {k}, shard)); }
      } else {
        assert shard(k) !in Used(keys, shard);
      }
    case Some(v) =>
      assert keys == db.data.Keys - {v};
      assert Used(keys + {k}, shard) == Used(db.data.Keys, shard) by {
        UsedGrows(keys, v, shard);
        assert keys + {v} == db.data.Keys;
      }
  }

  lemma OnKeyBounded(db: DB, ws: Bytes, key: Bytes, op: Op, now: int, victim: Option<Bytes>,
                     shard: Bytes -> nat, cap: int)
    requires cap >= 1 && Bounded(db.data.Keys, shard, cap)
    requires Legal(db, OnKey(ws, key, op), now, victim, shard, cap)
    ensures Bounded(StepKey(db, NsKey(ws, key), op, now, victim).0.data.Keys, shard, cap)
  {
    var k := NsKey(ws, key);
    var p := Purge(db, k, now);
    RemoveOne(db.data.Keys, k, shard, cap);
    KeysAfter(db, k, op, now, victim);
    if Creates(db, k, op, now) {
      InsertAfterEviction(p, k, victim, shard, cap);
    } else {
      RemoveOne(p.data.Keys, k, shard, cap);
    }
  }

  /** The stored keys after a one-key command. */
  lemma KeysAfter(db: DB, k: Bytes, op: Op, now: int, victim: Option<Bytes>)
    ensures var p := Purge(db, k, now);
      p.data.Keys == db.data.Keys || p.data.Keys == db.data.Keys - {k}
    ensures var p := Purge(db, k, now);
      var keys := StepKey(db, k, op, now, victim).0.data.Keys;
      if Creates(db, k, op, now) then keys == Evict(p, victim).data.Keys + {k} && k !in p.data
      else keys == p.data.Keys || keys == p.data.Keys - {k}
  {
    RunMovesVersion(op, Live(db, k, now), now);
    PurgeLeavesLive(db, k, now);
    WriteKeys(if Creates(db, k, op, now) then Evict(Purge(db, k, now), victim) else Purge(db, k, now),
              k, Run(op, Live(db, k, now), now), now);
  }

  lemma WriteKeys(db: DB, k: Bytes, o: Outcome, now: int)
    ensures o.bumps > 0 && o.slot.Some? ==> Write(db, k, o, now).data.Keys == db.data.Keys + {k}
    ensures o.slot.None? ==> Write(db, k, o, now).data.Keys in {db.data.Keys, db.data.Keys - {k}}
    ensures o.slot.Some? && k in db.data ==> Write(db, k, o, now).data.Keys == db.data.Keys
  {}

  lemma {:induction false} DelBounded(db: DB, ws: Bytes, keys: seq<Bytes>, now: int, shard: Bytes -> nat, cap: int)
    requires Bounded(db.data.Keys, shard, cap)
    ensures Bounded(DeleteAll(db, ws, keys, now).0.data.Keys, shard, cap)
  {
    if keys != [] {
      DelBounded(db, ws, keys[..|keys| - 1], now, shard, cap);
      var d := DeleteAll(db, ws, keys[..|keys| - 1], now).0;
      var k := NsKey(ws, keys[|keys| - 1]);
      RemoveOne(d.data.Keys, k, shard, cap);
      var e := DeleteAll(db, ws, keys, now).0;
      assert e.data.Keys == d.data.Keys || e.data.Keys == d.data.Keys - {k};
    }
  }

  /** A RENAME that gives up a shard for one that is in use already: the entry is the only
      one in its shard, and its new name is a new key in another shard that holds something. */
  ghost predicate Crowds(db: DB, from: Bytes, to: Bytes, now: int, shard: Bytes -> nat) {
    && Live(db, from, now).Some? && to !in db.data
    && (forall k :: k in db.data && k != from ==> shard(k) != shard(from))
    && (exists k :: k in db.data && k != from && shard(k) == shard(to))
  }

  function Slack(keys: set<Bytes>, shard: Bytes -> nat): int {
    |keys| - |Used(keys, shard)|
  }

  lemma SlackOfInsert(keys: set<Bytes>, k: Bytes, shard: Bytes -> nat)
    requires k !in keys
    ensures Slack(keys + {k}, shard) == Slack(keys, shard) + if shard(k) in Used(keys, shard) then 1 else 0
  {
    UsedGrows(keys, k, shard);
    var used := Used(keys, shard);
    if shard(k) in used {
      assert used + {shard(k)} == used;
    }
  }

  /** Among the renames of a live key exactly those raise the number of entries beyond the
      shards in use, and they raise it by one. */
  lemma RenameSlack(db: DB, from: Bytes, to: Bytes, now: int, shard: Bytes -> nat)
    requires Live(db, from, now).Some?
    ensures var before, after := Slack(db.data.Keys, shard), Slack(Renamed(db, from, to, now).0.data.Keys, shard);
      if Crowds(db, from, to, now, shard) then after == before + 1 else after <= before
  {
    var rest := db.data.Keys - {from};
    assert db.data.Keys == rest + {from};
    assert Renamed(db, from, to, now).0.data.Keys == rest + {to};
    SlackOfInsert(rest, from, shard);
    if to in rest {
      assert rest + {to} == rest;
    } else {
      SlackOfInsert(rest, to, shard);
      CrowdsMeans(db, from, to, now, shard);
    }
  }

  lemma CrowdsMeans(db: DB, from: Bytes, to: Bytes, now: int, shard: Bytes -> nat)
    requires Live(db, from, now).Some? && to !in db.data.Keys - {from}
    ensures var used := Used(db.data.Keys - {from}, shard);
      Crowds(db, from, to, now, shard) <==> shard(from) !in used && shard(to) in used
  {}

  lemma RenameBounded(db: DB, from: Bytes, to: Bytes, now: int, shard: Bytes -> nat, cap: int)
    requires Bounded(db.data.Keys, shard, cap) && !Crowds(db, from, to, now, shard)
    ensures Bounded(Renamed(db, from, to, now).0.data.Keys, shard, cap)
  {
    if Live(db, from, now).Some? {
      RenameSlack(db, from, to, now, shard);
    } else {
      RemoveOne(db.data.Keys, from, shard, cap);
      var keys' := Renamed(db, from, to, now).0.data.Keys;
      assert keys' == db.data.Keys || keys' == db.data.Keys - {from};
    }
  }

  ghost predicate CrowdingRename(db: DB, a: Action, now: int, shard: Bytes -> nat) {
    a.Rename? && Crowds(db, NsKey(a.ws, a.from), NsKey(a.ws, a.to), now, shard)
  }

  lemma StepBounded(db: DB, a: Action, now: int, victim: Option<Bytes>, shard: Bytes -> nat, cap: int)
    requires cap >= 1 && Bounded(db.data.Keys, shard, cap) && Legal(db, a, now, victim, shard, cap)
    requires !CrowdingRename(db, a, now, shard)
    ensures Bounded(Step(db, a, now, victim).0.data.Keys, shard, cap)
  {
    match a
    case OnKey(ws, key, op) => OnKeyBounded(db, ws, key, op, now, victim, shard, cap);
    case Del(ws, keys) => DelBounded(db, ws, keys, now, shard, cap);
    case Rename(ws, from, to) => RenameBounded(db, NsKey(ws, from), NsKey(ws, to), now, shard, cap);
    case FlushDB(ws) =>
      RemoveMany(db.data.Keys, Owned(db, ws), shard, cap);
      assert (db.data - Owned(db, ws)).Keys == db.data.Keys - Owned(db, ws);
    case _ =>
  }

  /** A crowding RENAME when there is no room for it. */
  ghost predicate Overcrowds(db: DB, a: Action, now: int, shard: Bytes -> nat, cap: int) {
    CrowdingRename(db, a, now, shard) && Slack(db.data.Keys, shard) == cap - 1
  }

  /** Within the bound, exactly those commands leave it. */
  lemma StepBoundedExactlyWhen(db: DB, a: Action, now: int, victim: Option<Bytes>, shard: Bytes -> nat, cap: int)
    requires cap >= 1 && Bounded(db.data.Keys, shard, cap) && Legal(db, a, now, victim, shard, cap)
    ensures Bounded(Step(db, a, now, victim).0.data.Keys, shard, cap) <==> !Overcrowds(db, a, now, shard, cap)
  {
    if CrowdingRename(db, a, now, shard) {
      RenameSlack(db, NsKey(a.ws, a.from), NsKey(a.ws, a.to), now, shard);
    } else {
      StepBounded(db, a, now, victim, shard, cap);
    }
  }

  // -------------------------------------------------------------------- runs

  datatype Event = Command(a: Action, now: int, victim: Option<Bytes>) | Sweep(gone: set<Bytes>)

  ghost function After(db: DB, e: Event): DB {
    match e
    case Command(a, now, victim) => Step(db, a, now, victim).0
    case Sweep(gone) => WithoutAll(db, gone)
  }

  /** Commands evict as the store does. */
  ghost predicate Permitted(db: DB, run: seq<Event>, shard: Bytes -> nat, cap: int)
    decreases |run|
  {
    run == [] ||
    (&& (run[0].Command? ==> Legal(db, run[0].a, run[0].now, run[0].victim, shard, cap))
     && Permitted(After(db, run[0]), run[1..], shard, cap))
  }

  /** No RENAME on the way crowds a shard when there is no room for it. */
  ghost predicate Spacious(db: DB, run: seq<Event>, shard: Bytes -> nat, cap: int)
    decreases |run|
  {
    run == [] ||
    (&& (run[0].Command? ==> !Overcrowds(db, run[0].a, run[0].now, shard, cap))
     && Spacious(After(db, run[0]), run[1..], shard, cap))
  }

  ghost predicate AlwaysBounded(db: DB, run: seq<Event>, shard: Bytes -> nat, cap: int)
    decreases |run|
  {
    Bounded(db.data.Keys, shard, cap) && (run == [] || AlwaysBounded(After(db, run[0]), run[1..], shard, cap))
  }

  ghost function Final(db: DB, run: seq<Event>): DB
    decreases |run|
  {
    if run == [] then db else Final(After(db, run[0]), run[1..])
  }

  lemma EventBounded(db: DB, e: Event, shard: Bytes -> nat, cap: int)
    requires cap >= 1 && Bounded(db.data.Keys, shard, cap)
    requires e.Command? ==> Legal(db, e.a, e.now, e.victim, shard, cap)
    ensures Bounded(After(db, e).data.Keys, shard, cap) <==> !(e.Command? && Overcrowds(db, e.a, e.now, shard, cap))
  {
    match e
    case Command(a, now, victim) => StepBoundedExactlyWhen(db, a, now, victim, shard, cap);
    case Sweep(gone) =>
      RemoveMany(db.data.Keys, gone, shard, cap);
      assert (db.data - gone).Keys == db.data.Keys - gone;
  }

  /** A run that starts within the bound stays within it throughout, if and only if no RENAME
      in it crowds a shard when there is no room for it. */
  lemma {:induction false} RunBoundedExactlyWhen(db: DB, run: seq<Event>, shard: Bytes -> nat, cap: int)
    requires cap >= 1 && Bounded(db.data.Keys, shard, cap) && Permitted(db, run, shard, cap)
    ensures AlwaysBounded(db, run, shard, cap) <==> Spacious(db, run, shard, cap)
    decreases |run|
  {
    if run != [] {
      EventBounded(db, run[0], shard, cap);
      if Bounded(After(db, run[0]).data.Keys, shard, cap) {
        RunBoundedExactlyWhen(After(db, run[0]), run[1..], shard, cap);
      }
    }
  }

  lemma {:induction false} BoundedAtTheEnd(db: DB, run: seq<Event>, shard: Bytes -> nat, cap: int)
    requires AlwaysBounded(db, run, shard, cap)
    ensures Bounded(Final(db, run).data.Keys, shard, cap)
    decreases |run|
  {
    if run != [] { BoundedAtTheEnd(After(db, run[0]), run[1..], shard, cap); }
  }

  /** From an empty store with n shards the count never exceeds the cap by more
      than n - 1, one for each shard in use beyond the first; with one shard it
      never exceeds it at all. */
  lemma CapHolds(run: seq<Event>, shard: Bytes -> nat, n: nat, cap: int)
    requires cap >= 1 && Permitted(DB(map[], map[]), run, shard, cap) && Spacious(DB(map[], map[]), run, shard, cap)
    requires forall k :: shard(k) < n
    ensures var keys := Final(DB(map[], map[]), run).data.Keys;
      && |keys| + (n - |Used(keys, shard)|) <= cap + n - 1
      && |Used(keys, shard)| <= n
      && |keys| <= cap + n - 1
  {
    RunBoundedExactlyWhen(DB(map[], map[]), run, shard, cap);
    BoundedAtTheEnd(DB(map[], map[]), run, shard, cap);
    UsedAtMost(Final(DB(map[], map[]), run).data.Keys, shard, n);
  }

  // ------------------------------------------------ attained, and exceeded

  /** Two shards, told apart by whether the key is longer than the two bytes its
      workspace and separator take. */
  function ByLength(k: Bytes): nat { if |k| <= 2 then 0 else 1 }

  function SetEmpty(key: Bytes): Event {
    Command(OnKey([1], key, PlainSet()), 0, None)
  }

  function MoveAway(): Event { Command(Rename([1], [], [8]), 0, None) }

  function Stored(keys: set<Bytes>): map<Bytes, Record> {
    map k | k in keys :: Record(Slot(StringValue([]), None), 0, 1)
  }

  lemma FinalNext(db: DB, e: Event, rest: seq<Event>)
    ensures Final(db, [e] + rest) == Final(After(db, e), rest)
  {
    assert ([e] + rest)[1..] == rest;
  }

  lemma SetEmptyStores(db: DB, key: Bytes)
    requires NsKey([1], key) !in db.data
    ensures After(db, SetEmpty(key)).data == db.data[NsKey([1], key) := Record(Slot(StringValue([]), None), 0, 1)]
    ensures Creates(db, NsKey([1], key), PlainSet(), 0)
  {
    SetNew(db, NsKey([1], key), 0);
  }

  lemma FinalOfThree(db: DB, a: Event, b: Event, c: Event)
    ensures Final(db, [a, b]) == After(After(db, a), b)
    ensures Final(db, [a, b, c]) == After(Final(db, [a, b]), c)
  {
    assert [a, b, c] == [a] + [b, c] && [b, c] == [b] + [c] && [a, b] == [a] + [b];
    assert [b] == [b] + [] && [c] == [c] + [];
    FinalNext(db, a, [b, c]);
    FinalNext(After(db, a), b, [c]);
    FinalNext(After(After(db, a), b), c, []);
    FinalNext(db, a, [b]);
    FinalNext(After(db, a), b, []);
  }

  /** With cap 1 and two shards, two SETs reach the bound of two entries ... */
  lemma Attained() returns (db: DB)
    ensures db == Final(DB(map[], map[]), [SetEmpty([]), SetEmpty([7])])
    ensures Permitted(DB(map[], map[]), [SetEmpty([]), SetEmpty([7])], ByLength, 1)
    ensures db.data == Stored({[1, 0], [1, 0, 7]}) && |db.data| == 1 + 2 - 1
  {
    var d0 := DB(map[], map[]);
    assert NsKey([1], []) == [1, 0] && NsKey([1], [7]) == [1, 0, 7];
    SetEmptyStores(d0, []);
    var d1 := After(d0, SetEmpty([]));
    SetEmptyStores(d1, [7]);
    db := After(d1, SetEmpty([7]));
    FinalOfThree(d0, SetEmpty([]), SetEmpty([7]), MoveAway());
    assert [SetEmpty([]), SetEmpty([7])][1..] == [SetEmpty([7])] && [SetEmpty([7])][1..] == [];
    assert Permitted(d1, [SetEmpty([7])], ByLength, 1);
    assert db.data.Keys == {[1, 0], [1, 0, 7]};
  }

  lemma MoveAwayMoves(db: DB)
    requires db.data == Stored({[1, 0], [1, 0, 7]})
    ensures After(db, MoveAway()).data == Stored({[1, 0, 7], [1, 0, 8]})
    ensures Overcrowds(db, MoveAway().a, 0, ByLength, 1)
  {
    assert NsKey([1], []) == [1, 0] && NsKey([1], [8]) == [1, 0, 8];
    assert [1, 0] in db.data && [1, 0, 7] in db.data && ByLength([1, 0, 7]) == ByLength([1, 0, 8]);
    assert db.data.Keys == {[1, 0], [1, 0, 7]} && Used(db.data.Keys, ByLength) == {0, 1};
  }

  /** ... and a RENAME into the other shard makes room for a third, beyond it. */
  lemma ThreeKeys(data: map<Bytes, Record>)
    requires data == Stored({[1, 0, 7], [1, 0, 8]})[[1, 0] := Record(Slot(StringValue([]), None), 0, 1)]
    ensures |data| == 3
  {
    assert data.Keys == {[1, 0], [1, 0, 7], [1, 0, 8]};
  }

  lemma ExceededAfterCrowdingRename() returns (before: DB, after: DB)
    ensures before == Final(DB(map[], map[]), [SetEmpty([]), SetEmpty([7]), MoveAway()])
    ensures Overcrowds(Final(DB(map[], map[]), [SetEmpty([]), SetEmpty([7])]), MoveAway().a, 0, ByLength, 1)
    ensures Legal(before, SetEmpty([]).a, 0, None, ByLength, 1) && after == After(before, SetEmpty([]))
    ensures |after.data| > 1 + 2 - 1
  {
    var db := Attained();
    assert NsKey([1], []) == [1, 0] && NsKey([1], [7]) == [1, 0, 7] && NsKey([1], [8]) == [1, 0, 8];
    before := After(db, MoveAway());
    MoveAwayMoves(db);
    FinalOfThree(DB(map[], map[]), SetEmpty([]), SetEmpty([7]), MoveAway());
    SetEmptyStores(before, []);
    after := After(before, SetEmpty([]));
    ThreeKeys(after.data);
  }

  // ------------------------------------- why the bound counts the empty shards

  /** Every shard can be hit from the workspace. */
  ghost predicate Reaches(ws: Bytes, place: nat -> Bytes, shard: Bytes -> nat, n: nat) {
    forall i :: 0 <= i < n ==> shard(NsKey(ws, place(i))) == i
  }

  lemma UsedLessThanAll(keys: set<Bytes>, shard: Bytes -> nat, n: nat) returns (i: nat)
    requires |Used(keys, shard)| < n
    ensures i < n && i !in Used(keys, shard)
  {
    if forall j: nat :: j < n ==> j in Used(keys, shard) {
      SubsetSize(Below(n), Used(keys, shard));
      assert false;
    }
    i :| i < n && i !in Used(keys, shard);
  }

  /** A SET of a key whose shard is empty evicts nothing. */
  lemma SetInEmptyShard(db: DB, ws: Bytes, key: Bytes, shard: Bytes -> nat, cap: int)
    requires shard(NsKey(ws, key)) !in Used(db.data.Keys, shard)
    ensures var a := OnKey(ws, key, PlainSet());
      Legal(db, a, 0, None, shard, cap) && Step(db, a, 0, None).0.data.Keys == db.data.Keys + {NsKey(ws, key)}
    ensures Slack(db.data.Keys + {NsKey(ws, key)}, shard) == Slack(db.data.Keys, shard)
    ensures |db.data.Keys + {NsKey(ws, key)}| == |db.data| + 1
  {
    var k := NsKey(ws, key);
    assert k !in db.data;
    SetNew(db, k, 0);
    SlackOfInsert(db.data.Keys, k, shard);
  }

  /** One SET for each empty shard: one entry more for each. */
  lemma {:induction false} FillEmptyShards(db: DB, ws: Bytes, place: nat -> Bytes, shard: Bytes -> nat, n: nat, cap: int)
    returns (run: seq<Event>)
    requires (forall k :: shard(k) < n) && Reaches(ws, place, shard, n)
    ensures Permitted(db, run, shard, cap) && Spacious(db, run, shard, cap)
    ensures |Final(db, run).data| == Slack(db.data.Keys, shard) + n
    decreases n - |Used(db.data.Keys, shard)|
  {
    UsedAtMost(db.data.Keys, shard, n);
    assert |db.data| == |db.data.Keys|;
    if |Used(db.data.Keys, shard)| == n { return []; }
    var i := UsedLessThanAll(db.data.Keys, shard, n);
    var e := Command(OnKey(ws, place(i), PlainSet()), 0, None);
    SetInEmptyShard(db, ws, place(i), shard, cap);
    var rest := FillEmptyShards(After(db, e), ws, place, shard, n, cap);
    run := [e] + rest;
    assert run[1..] == rest;
  }

  /** The bound with the empty shards in it is the weakest that works: exactly from a store
      within it no further run can exceed cap + n - 1 entries unless a RENAME overcrowds. */
  lemma BoundIsWeakest(db: DB, ws: Bytes, place: nat -> Bytes, shard: Bytes -> nat, n: nat, cap: int)
    requires cap >= 1 && (forall k :: shard(k) < n) && Reaches(ws, place, shard, n)
    ensures Bounded(db.data.Keys, shard, cap) <==>
      forall run :: Permitted(db, run, shard, cap) && Spacious(db, run, shard, cap) ==>
        |Final(db, run).data| <= cap + n - 1
  {
    if Bounded(db.data.Keys, shard, cap) {
      forall run | Permitted(db, run, shard, cap) && Spacious(db, run, shard, cap)
        ensures |Final(db, run).data| <= cap + n - 1
      {
        RunBoundedExactlyWhen(db, run, shard, cap);
        BoundedAtTheEnd(db, run, shard, cap);
        UsedAtMost(Final(db, run).data.Keys, shard, n);
        assert |Final(db, run).data| == |Final(db, run).data.Keys|;
      }
    } else {
      var run := FillEmptyShards(db, ws, place, shard, n, cap);
    }
  }
}
