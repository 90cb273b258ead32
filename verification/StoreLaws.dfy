/** What the commands on several keys mean for a reader, which commands move a version, and which
    record an access. */
module StoreLaws {
  import opened Base
  import opened Keyspace
  import opened KeySteps
  import Glob
  import ListLaws
  import ScanLaws

  // --------------------------------------------------------------- DEL and EXISTS

  lemma LiveAfterRemoval(db: DB, k: Bytes, now: int, j: Bytes, t: int)
    requires now <= t
    ensures Live(Purge(db, k, now), j, t) == Live(db, j, t)
    ensures Live(Without(Purge(db, k, now), k), j, t) == if j == k then None else Live(db, j, t)
  {}

  ghost predicate Named(ws: Bytes, keys: seq<Bytes>, j: Bytes) {
    exists key :: key in keys && j == NsKey(ws, key)
  }

  /** The names among the first n that were there. */
  ghost function Present(db: DB, ws: Bytes, keys: seq<Bytes>, now: int): set<Bytes> {
    set key | key in keys && Live(db, NsKey(ws, key), now).Some?
  }

  lemma NamesApart(ws: Bytes, a: Bytes, b: Bytes)
    ensures NsKey(ws, a) == NsKey(ws, b) <==> a == b
  {
    assert NsKey(ws, a)[|Prefix(ws)|..] == a && NsKey(ws, b)[|Prefix(ws)|..] == b;
  }

  /** DEL: exactly the keys named are gone, and the reply is how many different ones of them were there. */
  lemma {:induction false} DelMeans(db: DB, ws: Bytes, keys: seq<Bytes>, now: int, j: Bytes)
    ensures var (d, r) := Step(db, Del(ws, keys), now, None);
      && Live(d, j, now) == (if Named(ws, keys, j) then None else Live(db, j, now))
      && r == Number(|Present(db, ws, keys, now)|)
  {
    if keys == [] {
      assert Present(db, ws, keys, now) == {};
    } else {
      var init, key := keys[..|keys| - 1], keys[|keys| - 1];
      var k := NsKey(ws, key);
      var d := DeleteAll(db, ws, init, now).0;
      DelMeans(db, ws, init, now, j);
      DelMeans(db, ws, init, now, k);
      assert keys == init + [key];
      assert Named(ws, keys, j) <==> Named(ws, init, j) || j == k;
      LiveAfterRemoval(d, k, now, j, now);
      PurgeLeavesLive(d, k, now);
      OneMorePresent(db, ws, init, key, now);
      if Named(ws, init, k) {
        var other :| other in init && k == NsKey(ws, other);
        NamesApart(ws, other, key);
      }
    }
  }

  lemma OneMorePresent(db: DB, ws: Bytes, init: seq<Bytes>, key: Bytes, now: int)
    ensures |Present(db, ws, init + [key], now)|
         == |Present(db, ws, init, now)| + if key !in init && Live(db, NsKey(ws, key), now).Some? then 1 else 0
  {
    var before, after := Present(db, ws, init, now), Present(db, ws, init + [key], now);
    if Live(db, NsKey(ws, key), now).Some? {
      assert after == before + {key};
    } else {
      assert after == before;
    }
  }

  ghost function PresentAt(db: DB, ws: Bytes, keys: seq<Bytes>, now: int): set<nat> {
    set i: nat | i < |keys| && Live(db, NsKey(ws, keys[i]), now).Some?
  }

  lemma OneMorePlace(db: DB, ws: Bytes, init: seq<Bytes>, key: Bytes, now: int)
    ensures |PresentAt(db, ws, init + [key], now)|
         == |PresentAt(db, ws, init, now)| + if Live(db, NsKey(ws, key), now).Some? then 1 else 0
  {
    var before, after := PresentAt(db, ws, init, now), PresentAt(db, ws, init + [key], now);
    assert after == if Live(db, NsKey(ws, key), now).Some? then before + {|init|} else before;
  }

  lemma {:induction false} CountLiveIs(db: DB, ws: Bytes, keys: seq<Bytes>, now: int)
    ensures CountLive(db, ws, keys, now) == |PresentAt(db, ws, keys, now)|
  {
    if keys == [] {
      assert PresentAt(db, ws, keys, now) == {};
    } else {
      var init, last := keys[..|keys| - 1], keys[|keys| - 1];
      CountLiveIs(db, ws, init, now);
      OneMorePlace(db, ws, init, last, now);
      assert keys == init + [last];
    }
  }

  /** EXISTS: how many of the arguments name a key that is there, repetitions included. */
  lemma ExistsMeans(db: DB, ws: Bytes, keys: seq<Bytes>, now: int)
    ensures Step(db, Exists(ws, keys), now, None) == (db, Number(|PresentAt(db, ws, keys, now)|))
  {
    CountLiveIs(db, ws, keys, now);
  }

  // ------------------------------------------------------------ RENAME, TYPE, FLUSHDB

  /** RENAME: what the old name held is under the new one, deadline and bookkeeping included, the old
      name is gone, and nothing else has changed; refused exactly when the old name is not there. */
  lemma RenameMeans(db: DB, ws: Bytes, from: Bytes, to: Bytes, now: int, j: Bytes)
    ensures var (d, r) := Step(db, Rename(ws, from, to), now, None);
      var (f, t) := (NsKey(ws, from), NsKey(ws, to));
      && r == Flag(Live(db, f, now).Some?)
      && Live(d, j, now) == (if Live(db, f, now).None? then Live(db, j, now)
                             else if j == t then Live(db, f, now) else if j == f then None else Live(db, j, now))
      && (Live(db, f, now).Some? ==> t in d.data && d.data[t] == db.data[f])
  {}

  /** TYPE: the kind of what a reader finds. */
  lemma TypeMeans(db: DB, ws: Bytes, key: Bytes, now: int)
    ensures var (d, r) := Step(db, TypeOf(ws, key), now, None);
      var cur := Live(db, NsKey(ws, key), now);
      && d == db && r.KindName? && (r.kind.Some? <==> cur.Some?)
      && (cur.Some? ==> (r.kind.value == StringKind <==> cur.value.val.StringValue?)
                        && (r.kind.value == HashKind <==> cur.value.val.HashValue?)
                        && (r.kind.value == ListKind <==> cur.value.val.ListValue?)
                        && (r.kind.value == SetKind <==> cur.value.val.SetValue?)
                        && (r.kind.value == ZSetKind <==> cur.value.val.ZSetValue?))
  {}

  /** FLUSHDB: no key of the workspace is left, and every other key is as it was. */
  lemma FlushMeans(db: DB, ws: Bytes, now: int, j: Bytes, t: int)
    ensures var d := Step(db, FlushDB(ws), now, None).0;
      Live(d, j, t) == if exists key :: j == NsKey(ws, key) then None else Live(db, j, t)
  {
    if Prefix(ws) <= j { assert j == NsKey(ws, j[|Prefix(ws)|..]); }
    if key :| j == NsKey(ws, key) { assert Prefix(ws) <= j; }
  }

  // ------------------------------------------------------------------ KEYS and SCAN

  ghost predicate Picks(pattern: Bytes, name: Bytes) {
    pattern == [] || Glob.Accepts(Glob.Tokens(pattern, true), name)
  }

  /** KEYS: the names that are there and that the pattern accepts, in ascending order. */
  lemma KeysMean(db: DB, ws: Bytes, pattern: Bytes, now: int)
    ensures var (d, r) := Step(db, Keys(ws, pattern), now, None);
      && d == db && r.Strings? && Increasing(BytesLess, r.items)
      && forall n :: n in r.items <==> Live(db, NsKey(ws, n), now).Some? && Picks(pattern, n)
  {
    forall n
      ensures n in Step(db, Keys(ws, pattern), now, None).1.items <==> Live(db, NsKey(ws, n), now).Some? && Picks(pattern, n)
    {
      LiveNamesAre(db, ws, now, n);
      ScanLaws.SelectedIsAccepted(pattern, n);
    }
  }

  lemma MatchingPicks(names: seq<Bytes>, pattern: Bytes)
    requires Increasing(BytesLess, names)
    ensures Increasing(BytesLess, Matching(names, pattern))
    ensures forall n :: n in Matching(names, pattern) <==> n in names && Picks(pattern, n)
  {
    ScanLaws.MatchingSelects(names, pattern);
    forall n ensures Selected(pattern, n) <==> Picks(pattern, n) { ScanLaws.SelectedIsAccepted(pattern, n); }
  }

  lemma SliceIncreasing(all: seq<Bytes>, lo: nat, hi: nat)
    requires Increasing(BytesLess, all) && lo <= hi <= |all|
    ensures Increasing(BytesLess, all[lo..hi])
  {}

  lemma PageBeyond(all: seq<Bytes>, cursor: nat, pattern: Bytes, count: int, to: int)
    requires cursor >= |all|
    ensures ScanPage(all, cursor, pattern, count) == (0, []) && ListLaws.At(all, cursor, to) == []
  {
    ListLaws.AtNothing(all, cursor, to);
  }

  lemma PageWithin(all: seq<Bytes>, cursor: nat, pattern: Bytes, count: int, size: nat, end: nat)
    requires size == if count > 0 then count else 10
    requires cursor < |all| && end == if cursor + size > |all| then |all| else cursor + size
    ensures ScanPage(all, cursor, pattern, count) == (if end == |all| then 0 else end, Matching(all[cursor..end], pattern))
  {}

  lemma WindowWithin(all: seq<Bytes>, cursor: nat, size: nat, end: nat)
    requires cursor < |all| && size > 0 && end == if cursor + size > |all| then |all| else cursor + size
    ensures ListLaws.At(all, cursor, cursor + size - 1) == all[cursor..end]
  {
    ListLaws.AtIs(all, cursor, cursor + size - 1, cursor, end - 1);
  }

  lemma {:induction false} AtIncreasing(all: seq<Bytes>, from: int, to: int)
    requires Increasing(BytesLess, all)
    ensures Increasing(BytesLess, ListLaws.At(all, from, to))
    ensures forall n :: n in ListLaws.At(all, from, to) ==> n in all
  {
    if all != [] {
      var init, last := all[..|all| - 1], all[|all| - 1];
      SliceIncreasing(all, 0, |all| - 1);
      AtIncreasing(init, from, to);
      var w := ListLaws.At(init, from, to);
      forall j | 0 <= j < |w| ensures BytesLess(w[j], last) { assert w[j] in init; }
    }
  }

  lemma PageMeans(all: seq<Bytes>, cursor: nat, pattern: Bytes, count: int, size: nat)
    requires Increasing(BytesLess, all) && size == if count > 0 then count else 10
    ensures var (next, keys), window := ScanPage(all, cursor, pattern, count), ListLaws.At(all, cursor, cursor + size - 1);
      && (next == if |all| <= cursor + size then 0 else cursor + size)
      && Increasing(BytesLess, keys) && forall n :: n in keys <==> n in window && Picks(pattern, n)
  {
    if cursor >= |all| {
      PageBeyond(all, cursor, pattern, count, cursor + size - 1);
    } else {
      var end := if cursor + size > |all| then |all| else cursor + size;
      PageWithin(all, cursor, pattern, count, size, end);
      WindowWithin(all, cursor, size, end);
      AtIncreasing(all, cursor, cursor + size - 1);
      MatchingPicks(all[cursor..end], pattern);
    }
  }

  lemma KeysAreSorted(db: DB, ws: Bytes, now: int)
    ensures Step(db, Keys(ws, []), now, None).1 == Strings(Sorted(LiveNames(db, ws, now)))
  {
    assert (set n | n in LiveNames(db, ws, now) && Selected([], n)) == LiveNames(db, ws, now);
  }

  /** SCAN: of all names in ascending order it looks at as many as COUNT says, 10 if that is not
      positive, from the cursor on, and answers those the pattern accepts; the next cursor is where it
      stopped, and 0 exactly when no name is left. */
  lemma ScanMeans(db: DB, ws: Bytes, cursor: nat, pattern: Bytes, count: int, now: int, all: seq<Bytes>, size: nat)
    requires Step(db, Keys(ws, []), now, None).1 == Strings(all) && size == if count > 0 then count else 10
    ensures var (d, r) := Step(db, Scan(ws, cursor, pattern, count), now, None);
      var window := ListLaws.At(all, cursor, cursor + size - 1);
      && d == db && r.Page? && r.next == (if |all| <= cursor + size then 0 else cursor + size)
      && Increasing(BytesLess, r.keys) && forall n :: n in r.keys <==> n in window && Picks(pattern, n)
  {
    KeysAreSorted(db, ws, now);
    BytesLessIsTotal();
    PageMeans(all, cursor, pattern, count, size);
    ScanIs(db, ws, cursor, pattern, count, now);
  }

  lemma ScanIs(db: DB, ws: Bytes, cursor: nat, pattern: Bytes, count: int, now: int)
    ensures var (next, keys) := ScanPage(Sorted(LiveNames(db, ws, now)), cursor, pattern, count);
      Step(db, Scan(ws, cursor, pattern, count), now, None) == (db, Page(next, keys))
  {}

  // -------------------------------------------------------- versions and accesses

  predicate Reads(op: Op) {
    op.Get? || op.TTL? || op.Query? || op.HGet? || op.LRange? || op.ZRange? || op.ZRank?
  }

  predicate Removes(op: Op) {
    op.HDel? || op.SRem? || op.ZRem? || op.LRem? || op.LPop? || op.RPop? || op.Persist?
  }

  predicate Refuses(r: Reply) {
    r == WrongType || r == NotInteger || r == NoSuchKey || r == OutOfRange || r == Flag(false) || (r.SetDone? && !r.done)
  }

  /** An access is recorded by what finds something or adds to a collection, ZINCRBY excepted. */
  predicate Accesses(op: Op, r: Reply) {
    ((op.Get? || op.HGet?) && r.Bulk?)
    || ((op.HSet? || op.HIncrBy? || op.LPush? || op.RPush? || op.SAdd? || op.ZAdd?) && !Refuses(r))
  }

  ghost predicate Moves(o: Outcome, cur: Option<Slot>, removes: bool) {
    o.bumps > 0 <==> if removes then o.slot != cur else !Refuses(o.reply)
  }

  /** A version moves exactly when a removal removes something, or when a command that stores is not
      refused, be it that it stores what was there already. An access is recorded exactly as said
      above, and only a SET that goes through starts the record afresh. */
  lemma BookkeepingExactlyWhen(op: Op, cur: Option<Slot>, now: int)
    ensures var o := Run(op, cur, now);
      && (if Reads(op) then o.bumps == 0 else Moves(o, cur, Removes(op)))
      && (o.touch == Access <==> Accesses(op, o.reply))
      && (o.touch == Fresh <==> op.Set? && !Refuses(o.reply))
  {
    if Reads(op) { ReadsStay(op, cur, now); } else if Removes(op) { RemovalsMove(op, cur, now); } else { StoringMoves(op, cur, now); }
  }

  lemma RemovalsMove(op: Op, cur: Option<Slot>, now: int)
    requires Removes(op)
    ensures Moves(Run(op, cur, now), cur, true) && Run(op, cur, now).touch == Keep
  {
    match op
    case Persist => PersistMoves(cur);
    case LPop => PopMoves(cur);
    case RPop => PopMoves(cur);
    case HDel(names) => HDelMoves(names, cur);
    case SRem(members) => SRemMoves(members, cur);
    case ZRem(names) => ZRemMoves(names, cur);
    case LRem(count, val) => LRemMoves(count, val, cur);
  }

  lemma StoringMoves(op: Op, cur: Option<Slot>, now: int)
    requires !Reads(op) && !Removes(op)
    ensures var o := Run(op, cur, now);
      && Moves(o, cur, false)
      && (o.touch == Access <==> Accesses(op, o.reply)) && (o.touch == Fresh <==> op.Set? && !Refuses(o.reply))
  {
    match op
    case Set(val, opts) => SetMoves(val, opts, cur, now);
    case Expire(ttl) => ExpireMoves(ttl, cur, now);
    case HSet(fields) => HSetMoves(fields, cur);
    case HIncrBy(field, by_) => HIncrByMoves(field, by_, cur);
    case LPush(vals) => PushMoves(vals, cur);
    case RPush(vals) => PushMoves(vals, cur);
    case SAdd(members) => SAddMoves(members, cur);
    case ZAdd(scores) => ZAddMoves(scores, cur);
    case ZIncrBy(member, delta) => ZIncrByMoves(member, delta, cur);
    case LSet(index, val) => LSetMoves(index, val, cur);
  }

  lemma ReadsStay(op: Op, cur: Option<Slot>, now: int)
    requires Reads(op)
    ensures var o := Run(op, cur, now);
      o.bumps == 0 && (o.touch == Access <==> Accesses(op, o.reply)) && o.touch != Fresh
  {}

  lemma SetMoves(val: Bytes, opts: SetOpts, cur: Option<Slot>, now: int)
    ensures Moves(RunSet(val, opts, cur, now), cur, false) && (RunSet(val, opts, cur, now).touch == Fresh <==> !Refuses(RunSet(val, opts, cur, now).reply)) && RunSet(val, opts, cur, now).touch != Access
  {}

  lemma ExpireMoves(ttl: int, cur: Option<Slot>, now: int)
    ensures Moves(RunExpire(ttl, cur, now), cur, false) && RunExpire(ttl, cur, now).touch == Keep
  {}

  lemma PersistMoves(cur: Option<Slot>)
    ensures Moves(RunPersist(cur), cur, true) && RunPersist(cur).touch == Keep
  {}

  lemma PopMoves(cur: Option<Slot>)
    ensures Moves(RunLPop(cur), cur, true) && RunLPop(cur).touch == Keep
    ensures Moves(RunRPop(cur), cur, true) && RunRPop(cur).touch == Keep
  {}

  lemma HSetMoves(fields: map<Bytes, Bytes>, cur: Option<Slot>)
    ensures Moves(RunHSet(fields, cur), cur, false) && (RunHSet(fields, cur).touch == Access <==> !Refuses(RunHSet(fields, cur).reply)) && RunHSet(fields, cur).touch != Fresh
  {}

  lemma HIncrByMoves(field: Bytes, by_: int, cur: Option<Slot>)
    ensures Moves(RunHIncrBy(field, by_, cur), cur, false) && (RunHIncrBy(field, by_, cur).touch == Access <==> !Refuses(RunHIncrBy(field, by_, cur).reply)) && RunHIncrBy(field, by_, cur).touch != Fresh
  {}

  lemma PushMoves(vals: seq<Bytes>, cur: Option<Slot>)
    ensures Moves(RunLPush(vals, cur), cur, false) && (RunLPush(vals, cur).touch == Access <==> !Refuses(RunLPush(vals, cur).reply)) && RunLPush(vals, cur).touch != Fresh
    ensures Moves(RunRPush(vals, cur), cur, false) && (RunRPush(vals, cur).touch == Access <==> !Refuses(RunRPush(vals, cur).reply)) && RunRPush(vals, cur).touch != Fresh
  {}

  lemma SAddMoves(members: seq<Bytes>, cur: Option<Slot>)
    ensures Moves(RunSAdd(members, cur), cur, false) && (RunSAdd(members, cur).touch == Access <==> !Refuses(RunSAdd(members, cur).reply)) && RunSAdd(members, cur).touch != Fresh
  {}

  lemma ZAddMoves(scores: map<Bytes, real>, cur: Option<Slot>)
    ensures Moves(RunZAdd(scores, cur), cur, false) && (RunZAdd(scores, cur).touch == Access <==> !Refuses(RunZAdd(scores, cur).reply)) && RunZAdd(scores, cur).touch != Fresh
  {}

  lemma ZIncrByMoves(member: Bytes, delta: real, cur: Option<Slot>)
    ensures Moves(RunZIncrBy(member, delta, cur), cur, false) && RunZIncrBy(member, delta, cur).touch == Keep
  {}

  lemma LSetMoves(index: int, val: Bytes, cur: Option<Slot>)
    ensures Moves(RunLSet(index, val, cur), cur, false) && RunLSet(index, val, cur).touch == Keep
  {}

  lemma LRemMoves(count: int, val: Bytes, cur: Option<Slot>)
    ensures Moves(RunLRem(count, val, cur), cur, true) && RunLRem(count, val, cur).touch == Keep
  {}

  lemma HDelMoves(names: seq<Bytes>, cur: Option<Slot>)
    ensures Moves(RunHDel(names, cur), cur, true) && RunHDel(names, cur).touch == Keep
  {
    if RunHDel(names, cur).bumps > 0 {
      var m :| m in Elements(names) * cur.value.val.fields.Keys;
      assert m !in cur.value.val.fields - Elements(names);
    }
  }

  lemma SRemMoves(names: seq<Bytes>, cur: Option<Slot>)
    ensures Moves(RunSRem(names, cur), cur, true) && RunSRem(names, cur).touch == Keep
  {
    if RunSRem(names, cur).bumps > 0 {
      var m :| m in Elements(names) * cur.value.val.members;
      assert m !in cur.value.val.members - Elements(names);
    }
  }

  lemma ZRemMoves(names: seq<Bytes>, cur: Option<Slot>)
    ensures Moves(RunZRem(names, cur), cur, true) && RunZRem(names, cur).touch == Keep
  {
    if RunZRem(names, cur).bumps > 0 {
      var m :| m in Elements(names) * cur.value.val.scores.Keys;
      assert m !in cur.value.val.scores - Elements(names);
    }
  }

  /** What a recorded access leaves in the bookkeeping, and a fresh record. */
  lemma BookkeepingMeans(db: DB, k: Bytes, op: Op, now: int, victim: Option<Bytes>)
    requires Live(db, k, now).Some? && victim == None
    ensures var o, d := Run(op, Live(db, k, now), now), StepKey(db, k, op, now, victim).0;
      && (o.slot.Some? <==> k in d.data)
      && (o.slot.Some? ==>
            var (before, after) := (db.data[k], d.data[k]);
            && (o.touch == Access ==> after.lastAccess == now && after.accessCount == before.accessCount + 1)
            && (o.touch == Fresh ==> after.lastAccess == now && after.accessCount == 1)
            && (o.touch == Keep ==> after.lastAccess == before.lastAccess && after.accessCount == before.accessCount))
  {
    RunMovesVersion(op, Live(db, k, now), now);
  }
}
