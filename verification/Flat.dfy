/** The store as a client should be able to picture it: one flat map from
    (workspace, key) to a value with an optional deadline, from which everything
    expired vanishes at once. Lazy deletion, the reaper and the composite keys are
    invisible against it, as is the sharding, of which the store's value knows nothing. */
module FlatMap {
  import opened Base
  import opened Keyspace
  import opened KeySteps

  type Flat = map<(Bytes, Bytes), Slot>

  function Pruned(f: Flat, now: int): Flat {
    map p | p in f && !f[p].Expired(now) :: f[p]
  }

  function Find(f: Flat, ws: Bytes, key: Bytes): Option<Slot> {
    if (ws, key) in f then Some(f[(ws, key)]) else None
  }

  ghost function OnOneKey(f: Flat, ws: Bytes, key: Bytes, op: Op, now: int): (Flat, Reply) {
    var o := Run(op, Find(f, ws, key), now);
    (match o.slot case None => f - {(ws, key)} case Some(s) => f[(ws, key) := s], o.reply)
  }

  function Delete(f: Flat, ws: Bytes, keys: seq<Bytes>): (Flat, int) {
    if keys == [] then (f, 0)
    else
      var (g, n) := Delete(f, ws, keys[..|keys| - 1]);
      var p := (ws, keys[|keys| - 1]);
      if p in g then (g - {p}, n + 1) else (g, n)
  }

  function Count(f: Flat, ws: Bytes, keys: seq<Bytes>): int {
    if keys == [] then 0
    else Count(f, ws, keys[..|keys| - 1]) + (if (ws, keys[|keys| - 1]) in f then 1 else 0)
  }

  function Names(f: Flat, ws: Bytes): set<Bytes> {
    set p | p in f && p.0 == ws :: p.1
  }

  ghost function FlatStep(f0: Flat, a: Action, now: int): (Flat, Reply) {
    var f := Pruned(f0, now);
    match a
    case OnKey(ws, key, op) => OnOneKey(f, ws, key, op, now)
    case Del(ws, keys) => var (g, n) := Delete(f, ws, keys); (g, Number(n))
    case Exists(ws, keys) => (f, Number(Count(f, ws, keys)))
    case TypeOf(ws, key) =>
      (f, KindName(match Find(f, ws, key) case None => None case Some(s) => Some(s.val.Kind())))
    case Rename(ws, from, to) =>
      if (ws, from) in f then ((f - {(ws, from)})[(ws, to) := f[(ws, from)]], Flag(true)) else (f, Flag(false))
    case Keys(ws, pattern) => (f, Strings(AllKeys(Names(f, ws), pattern)))
    case Scan(ws, cursor, pattern, count) =>
      var (next, page) := ScanPage(Sorted(Names(f, ws)), cursor, pattern, count);
      (f, Page(next, page))
    case FlushDB(ws) => (map p | p in f && p.0 != ws :: f[p], Flag(true))
  }

  // ------------------------------------------------------------ composite keys

  /** Neither workspace continues the other past a NUL. */
  predicate Separate(ws: Bytes, ws': Bytes) {
    ws == ws' || (!(Prefix(ws) <= ws') && !(Prefix(ws') <= ws))
  }

  ghost predicate Apart(W: iset<Bytes>) {
    forall ws, ws' :: ws in W && ws' in W ==> Separate(ws, ws')
  }

  lemma PrefixMeansNul(ws: Bytes, ws': Bytes)
    ensures Prefix(ws) <= ws' ==> NUL in ws'
  {
    if Prefix(ws) <= ws' { assert ws'[|ws|] == Prefix(ws)[|ws|] == NUL; }
  }

  /** All names without NUL are apart. */
  lemma NulFreeIsApart()
    ensures Apart(iset ws: Bytes | NUL !in ws)
  {
    forall ws: Bytes, ws': Bytes | NUL !in ws && NUL !in ws' ensures Separate(ws, ws') {
      PrefixMeansNul(ws, ws');
      PrefixMeansNul(ws', ws);
    }
  }

  lemma PrefixOfKey(ws: Bytes, ws': Bytes, k': Bytes)
    requires Prefix(ws) <= NsKey(ws', k')
    ensures ws == ws' || !Separate(ws, ws')
  {
    var key := NsKey(ws', k');
    assert ws == key[..|ws|] && ws' == key[..|ws'|] && Prefix(ws') == key[..|ws'| + 1];
    if |ws| < |ws'| {
      assert Prefix(ws) == key[..|ws| + 1] == ws'[..|ws| + 1];
    } else if |ws'| < |ws| {
      assert Prefix(ws') == ws[..|ws'| + 1];
    }
  }

  lemma NsKeyInjective(ws: Bytes, k: Bytes, ws': Bytes, k': Bytes)
    requires Separate(ws, ws')
    ensures Prefix(ws) <= NsKey(ws', k') ==> ws == ws'
    ensures NsKey(ws, k) == NsKey(ws', k') ==> ws == ws' && k == k'
  {
    if Prefix(ws) <= NsKey(ws', k') {
      PrefixOfKey(ws, ws', k');
    }
    assert Prefix(ws) <= NsKey(ws, k);
    assert NsKey(ws, k)[|ws| + 1..] == k && NsKey(ws', k')[|ws'| + 1..] == k';
  }

  /** Names of two workspaces, the first no longer than the second, are stored under one key
      exactly when the second workspace continues the first past a NUL. */
  lemma CollidesExactlyWhen(ws: Bytes, k: Bytes, ws': Bytes, k': Bytes)
    requires |ws| <= |ws'|
    ensures NsKey(ws, k) == NsKey(ws', k') <==>
      (ws == ws' && k == k') || exists x :: ws' == ws + [NUL] + x && k == x + [NUL] + k'
  {
    if NsKey(ws, k) == NsKey(ws', k') && |ws| < |ws'| {
      var x := ws'[|ws| + 1..];
      assert ws == NsKey(ws, k)[..|ws|] == ws'[..|ws|];
      assert ws'[|ws|] == NsKey(ws, k)[|ws|] == NUL;
      assert ws' == ws + [NUL] + x;
      assert k == NsKey(ws', k')[|ws| + 1..] == x + [NUL] + k';
    }
    if NsKey(ws, k) == NsKey(ws', k') && |ws| == |ws'| {
      assert ws == NsKey(ws, k)[..|ws|] == ws';
      assert k == NsKey(ws, k)[|ws| + 1..] == k';
    }
    if x :| ws' == ws + [NUL] + x && k == x + [NUL] + k' {
      assert NsKey(ws, k) == ws + [NUL] + x + [NUL] + k' == NsKey(ws', k');
    }
  }

  /** With a NUL in a workspace name two workspaces can share a stored key. */
  lemma NulBreaksIsolation()
    ensures NsKey([1], [2, NUL, 3]) == NsKey([1, NUL, 2], [3])
  {
    assert NsKey([1], [2, NUL, 3]) == [1, NUL, 2, NUL, 3] == NsKey([1, NUL, 2], [3]);
  }

  /** Two workspaces share no stored key exactly when neither continues the other past a NUL. */
  lemma ShareNothingExactlyWhen(ws: Bytes, ws': Bytes)
    ensures (forall k, k' :: NsKey(ws, k) != NsKey(ws', k')) <==> ws != ws' && Separate(ws, ws')
  {
    if ws == ws' {
      assert NsKey(ws, []) == NsKey(ws', []);
    } else if Separate(ws, ws') {
      forall k, k' ensures NsKey(ws, k) != NsKey(ws', k') { NsKeyInjective(ws, k, ws', k'); }
    } else if Prefix(ws) <= ws' {
      assert NsKey(ws, ws'[|ws| + 1..] + [NUL]) == NsKey(ws', []);
    } else {
      assert NsKey(ws', ws[|ws'| + 1..] + [NUL]) == NsKey(ws, []);
    }
  }

  // ------------------------------------------------------- the two agree

  function Visible(f: Flat, ws: Bytes, key: Bytes, now: int): Option<Slot> {
    Find(Pruned(f, now), ws, key)
  }

  /** At this moment a client sees the same in both. */
  ghost predicate Same(W: iset<Bytes>, db: DB, f: Flat, now: int) {
    forall ws, key :: ws in W ==> Live(db, NsKey(ws, key), now) == Visible(f, ws, key, now)
  }

  lemma StaysSame(W: iset<Bytes>, db: DB, f: Flat, now: int, later: int)
    requires Same(W, db, f, now) && now <= later
    ensures Same(W, db, f, later)
  {
    forall ws, key | ws in W ensures Live(db, NsKey(ws, key), later) == Visible(f, ws, key, later) {
      assert Live(db, NsKey(ws, key), now) == Visible(f, ws, key, now);
    }
  }

  lemma SweepStaysSame(W: iset<Bytes>, db: DB, f: Flat, gone: set<Bytes>, now: int)
    requires Same(W, db, f, now) && Sweepable(db, gone, now)
    ensures Same(W, WithoutAll(db, gone), f, now)
  {
    forall ws, key | ws in W
      ensures Live(WithoutAll(db, gone), NsKey(ws, key), now) == Visible(f, ws, key, now)
    {
      assert Live(db, NsKey(ws, key), now) == Visible(f, ws, key, now);
    }
  }

  lemma PruneIsInvisible(W: iset<Bytes>, db: DB, f: Flat, now: int)
    requires Same(W, db, f, now)
    ensures Same(W, db, Pruned(f, now), now)
  {
    assert Pruned(Pruned(f, now), now) == Pruned(f, now);
  }

  lemma PurgeIsInvisible(db: DB, k: Bytes, now: int, j: Bytes)
    ensures Live(Purge(db, k, now), j, now) == Live(db, j, now)
  {}

  /** What one key's new slot does to the view of any key. */
  function Settled(slot: Option<Slot>, now: int): Option<Slot> {
    if slot.Some? && slot.value.Expired(now) then None else slot
  }

  lemma AppliedIsLocal(db: DB, k: Bytes, o: Outcome, now: int, j: Bytes)
    requires o.slot != Live(db, k, now) ==> o.bumps > 0
    ensures Live(Applied(db, k, o, now, None), j, now) == if j == k then Settled(o.slot, now) else Live(db, j, now)
  {
    PurgeIsInvisible(db, k, now, j);
  }

  lemma StepKeyIsLocal(db: DB, k: Bytes, op: Op, now: int, j: Bytes)
    ensures Live(StepKey(db, k, op, now, None).0, j, now)
         == if j == k then Settled(Run(op, Live(db, k, now), now).slot, now) else Live(db, j, now)
  {
    RunMovesVersion(op, Live(db, k, now), now);
    AppliedIsLocal(db, k, Run(op, Live(db, k, now), now), now, j);
  }

  lemma OnKeySame(W: iset<Bytes>, db: DB, f0: Flat, ws: Bytes, key: Bytes, op: Op, now: int)
    requires Apart(W) && Same(W, db, f0, now) && ws in W
    ensures var (d, r) := StepKey(db, NsKey(ws, key), op, now, None);
      var (g, s) := OnOneKey(Pruned(f0, now), ws, key, op, now);
      r == s && Same(W, d, g, now)
  {
    var f := Pruned(f0, now);
    PruneIsInvisible(W, db, f0, now);
    assert Live(db, NsKey(ws, key), now) == Visible(f0, ws, key, now);
    var d := StepKey(db, NsKey(ws, key), op, now, None).0;
    var g := OnOneKey(f, ws, key, op, now).0;
    forall ws', key' | ws' in W ensures Live(d, NsKey(ws', key'), now) == Visible(g, ws', key', now) {
      StepKeyIsLocal(db, NsKey(ws, key), op, now, NsKey(ws', key'));
      NsKeyInjective(ws, key, ws', key');
      assert Live(db, NsKey(ws', key'), now) == Visible(f, ws', key', now);
    }
  }

  lemma {:induction false} DelSame(W: iset<Bytes>, db: DB, f: Flat, ws: Bytes, keys: seq<Bytes>, now: int)
    requires Apart(W) && Same(W, db, f, now) && ws in W && f == Pruned(f, now)
    ensures var (d, n) := DeleteAll(db, ws, keys, now);
      var (g, m) := Delete(f, ws, keys);
      n == m && Same(W, d, g, now) && g == Pruned(g, now)
  {
    if keys != [] {
      DelSame(W, db, f, ws, keys[..|keys| - 1], now);
      var (d, n) := DeleteAll(db, ws, keys[..|keys| - 1], now);
      var (g, m) := Delete(f, ws, keys[..|keys| - 1]);
      var key := keys[|keys| - 1];
      var k := NsKey(ws, key);
      var p := Purge(d, k, now);
      var g' := g - {(ws, key)};
      assert Live(d, k, now) == Visible(g, ws, key, now);
      if k in p.data {
        forall ws', key' | ws' in W
          ensures Live(Without(p, k), NsKey(ws', key'), now) == Visible(g', ws', key', now)
        {
          NsKeyInjective(ws, key, ws', key');
          assert Live(d, NsKey(ws', key'), now) == Visible(g, ws', key', now);
        }
      } else {
        forall ws', key' | ws' in W ensures Live(p, NsKey(ws', key'), now) == Visible(g, ws', key', now) {
          PurgeIsInvisible(d, k, now, NsKey(ws', key'));
          assert Live(d, NsKey(ws', key'), now) == Visible(g, ws', key', now);
        }
      }
    }
  }

  lemma {:induction false} CountSame(W: iset<Bytes>, db: DB, f: Flat, ws: Bytes, keys: seq<Bytes>, now: int)
    requires Same(W, db, f, now) && ws in W && f == Pruned(f, now)
    ensures CountLive(db, ws, keys, now) == Count(f, ws, keys)
  {
    if keys != [] {
      CountSame(W, db, f, ws, keys[..|keys| - 1], now);
      assert Live(db, NsKey(ws, keys[|keys| - 1]), now) == Visible(f, ws, keys[|keys| - 1], now);
    }
  }

  lemma RenameSame(W: iset<Bytes>, db: DB, f: Flat, ws: Bytes, from: Bytes, to: Bytes, now: int)
    requires Apart(W) && Same(W, db, f, now) && ws in W && f == Pruned(f, now)
    ensures var (d, ok) := Renamed(db, NsKey(ws, from), NsKey(ws, to), now);
      ok == ((ws, from) in f)
      && Same(W, d, if ok then (f - {(ws, from)})[(ws, to) := f[(ws, from)]] else f, now)
  {
    var (d, ok) := Renamed(db, NsKey(ws, from), NsKey(ws, to), now);
    assert Live(db, NsKey(ws, from), now) == Visible(f, ws, from, now);
    forall ws', key' | ws' in W
      ensures Live(d, NsKey(ws', key'), now)
           == Visible(if ok then (f - {(ws, from)})[(ws, to) := f[(ws, from)]] else f, ws', key', now)
    {
      NsKeyInjective(ws, from, ws', key');
      NsKeyInjective(ws, to, ws', key');
      assert Live(db, NsKey(ws', key'), now) == Visible(f, ws', key', now);
    }
  }

  lemma NamesSame(W: iset<Bytes>, db: DB, f: Flat, ws: Bytes, now: int)
    requires Same(W, db, f, now) && ws in W && f == Pruned(f, now)
    ensures LiveNames(db, ws, now) == Names(f, ws)
  {
    forall n ensures n in LiveNames(db, ws, now) <==> n in Names(f, ws) {
      LiveNamesAre(db, ws, now, n);
      assert Live(db, NsKey(ws, n), now) == Visible(f, ws, n, now);
      assert (ws, n).1 == n;
    }
  }

  lemma FlushSame(W: iset<Bytes>, db: DB, f: Flat, ws: Bytes, now: int)
    requires Apart(W) && Same(W, db, f, now) && ws in W && f == Pruned(f, now)
    ensures Same(W, WithoutAll(db, Owned(db, ws)), map p | p in f && p.0 != ws :: f[p], now)
  {
    var d := WithoutAll(db, Owned(db, ws));
    var g := map p | p in f && p.0 != ws :: f[p];
    forall ws', key' | ws' in W ensures Live(d, NsKey(ws', key'), now) == Visible(g, ws', key', now) {
      NsKeyInjective(ws, key', ws', key');
      assert Live(db, NsKey(ws', key'), now) == Visible(f, ws', key', now);
      assert Prefix(ws) <= NsKey(ws, key');
    }
  }

  /** One command on both: the same reply, and afterwards the same view. */
  lemma StepSame(W: iset<Bytes>, db: DB, f: Flat, a: Action, now: int)
    requires Apart(W) && Same(W, db, f, now) && a.ws in W
    ensures Step(db, a, now, None).1 == FlatStep(f, a, now).1
    ensures Same(W, Step(db, a, now, None).0, FlatStep(f, a, now).0, now)
  {
    var g := Pruned(f, now);
    PruneIsInvisible(W, db, f, now);
    assert g == Pruned(g, now);
    match a
    case OnKey(ws, key, op) => OnKeySame(W, db, f, ws, key, op, now);
    case Del(ws, keys) => DelSame(W, db, g, ws, keys, now);
    case Exists(ws, keys) => CountSame(W, db, g, ws, keys, now);
    case TypeOf(ws, key) => assert Live(db, NsKey(ws, key), now) == Visible(g, ws, key, now);
    case Rename(ws, from, to) => RenameSame(W, db, g, ws, from, to, now);
    case Keys(ws, pattern) => NamesSame(W, db, g, ws, now);
    case Scan(ws, cursor, pattern, count) => NamesSame(W, db, g, ws, now);
    case FlushDB(ws) => FlushSame(W, db, g, ws, now);
  }

  // ------------------------------------------------------------- whole runs

  /** A run interleaves commands with reaper visits, each at its own time. */
  datatype Event = Command(a: Action, now: int) | Sweep(gone: set<Bytes>, now: int)

  ghost function After(db: DB, e: Event): DB {
    match e
    case Command(a, now) => Step(db, a, now, None).0
    case Sweep(gone, _) => WithoutAll(db, gone)
  }

  /** The clock never goes back, workspaces are among those of W, and the reaper takes expired keys only. */
  ghost predicate Proper(W: iset<Bytes>, db: DB, run: seq<Event>, start: int)
    decreases |run|
  {
    run == [] ||
    (&& start <= run[0].now
     && (run[0].Command? ==> run[0].a.ws in W)
     && (run[0].Sweep? ==> Sweepable(db, run[0].gone, run[0].now))
     && Proper(W, After(db, run[0]), run[1..], run[0].now))
  }

  ghost function Replies(db: DB, run: seq<Event>): seq<Reply>
    decreases |run|
  {
    if run == [] then []
    else (if run[0].Command? then [Step(db, run[0].a, run[0].now, None).1] else [])
         + Replies(After(db, run[0]), run[1..])
  }

  ghost function FlatReplies(f: Flat, run: seq<Event>): seq<Reply>
    decreases |run|
  {
    if run == [] then []
    else if run[0].Sweep? then FlatReplies(f, run[1..])
    else [FlatStep(f, run[0].a, run[0].now).1]
         + FlatReplies(FlatStep(f, run[0].a, run[0].now).0, run[1..])
  }

  /** Every reply of every run, with any interleaving of reaper visits, is that of the flat map. */
  lemma {:induction false} RunsLikeFlatMap(W: iset<Bytes>, db: DB, f: Flat, run: seq<Event>, start: int)
    requires Apart(W) && Same(W, db, f, start) && Proper(W, db, run, start)
    ensures Replies(db, run) == FlatReplies(f, run)
    decreases |run|
  {
    if run != [] {
      var e := run[0];
      StaysSame(W, db, f, start, e.now);
      if e.Command? {
        StepSame(W, db, f, e.a, e.now);
        RunsLikeFlatMap(W, After(db, e), FlatStep(f, e.a, e.now).0, run[1..], e.now);
      } else {
        SweepStaysSame(W, db, f, e.gone, e.now);
        RunsLikeFlatMap(W, After(db, e), f, run[1..], e.now);
      }
    }
  }

  lemma EmptyStoreIsEmptyMap(W: iset<Bytes>, start: int)
    ensures Same(W, DB(map[], map[]), map[], start)
  {}

  /** Two runs that differ only in when the reaper came by get the same replies. */
  lemma ReaperIsInvisible(W: iset<Bytes>, run: seq<Event>, run': seq<Event>, start: int)
    requires Apart(W) && Proper(W, DB(map[], map[]), run, start) && Proper(W, DB(map[], map[]), run', start)
    requires CommandsOf(run) == CommandsOf(run')
    ensures Replies(DB(map[], map[]), run) == Replies(DB(map[], map[]), run')
  {
    EmptyStoreIsEmptyMap(W, start);
    RunsLikeFlatMap(W, DB(map[], map[]), map[], run, start);
    RunsLikeFlatMap(W, DB(map[], map[]), map[], run', start);
    FlatIgnoresSweeps(map[], run);
    FlatIgnoresSweeps(map[], run');
  }

  ghost function CommandsOf(run: seq<Event>): seq<Event> {
    if run == [] then []
    else (if run[0].Command? then [run[0]] else []) + CommandsOf(run[1..])
  }

  lemma {:induction false} FlatIgnoresSweeps(f: Flat, run: seq<Event>)
    ensures FlatReplies(f, run) == FlatReplies(f, CommandsOf(run))
    decreases |run|
  {
    if run != [] {
      if run[0].Command? {
        FlatIgnoresSweeps(FlatStep(f, run[0].a, run[0].now).0, run[1..]);
        assert CommandsOf(run)[1..] == CommandsOf(run[1..]);
      } else {
        FlatIgnoresSweeps(f, run[1..]);
        assert CommandsOf(run) == CommandsOf(run[1..]);
      }
    }
  }

  // ------------------------------------------------- independent workspaces

  function OnlyWs(f: Flat, ws: Bytes): Flat {
    map p | p in f && p.0 == ws :: f[p]
  }

  lemma PruneOnlyWs(f: Flat, ws: Bytes, now: int, later: int)
    requires now <= later
    ensures Pruned(OnlyWs(f, ws), now) == OnlyWs(Pruned(f, now), ws)
    ensures Pruned(Pruned(f, now), later) == Pruned(f, later)
  {}

  lemma {:induction false} DeleteElsewhere(f: Flat, ws: Bytes, keys: seq<Bytes>, other: Bytes)
    ensures ws == other ==> Delete(OnlyWs(f, ws), ws, keys) == (OnlyWs(Delete(f, ws, keys).0, ws), Delete(f, ws, keys).1)
    ensures ws != other ==> OnlyWs(Delete(f, ws, keys).0, other) == OnlyWs(f, other)
  {
    if keys != [] {
      DeleteElsewhere(f, ws, keys[..|keys| - 1], other);
      var g := Delete(f, ws, keys[..|keys| - 1]).0;
      var p := (ws, keys[|keys| - 1]);
      assert OnlyWs(g - {p}, other) == OnlyWs(g, other) - {p};
    }
  }

  lemma {:induction false} CountElsewhere(f: Flat, ws: Bytes, keys: seq<Bytes>)
    ensures Count(OnlyWs(f, ws), ws, keys) == Count(f, ws, keys)
  {
    if keys != [] { CountElsewhere(f, ws, keys[..|keys| - 1]); }
  }

  /** A command of another workspace changes nothing here ... */
  lemma OtherWorkspace(f: Flat, a: Action, now: int, ws: Bytes)
    requires a.ws != ws && f == Pruned(f, now)
    ensures OnlyWs(FlatStep(f, a, now).0, ws) == OnlyWs(f, ws)
  {
    if a.Del? { DeleteElsewhere(f, a.ws, a.keys, ws); }
  }

  /** ... and one of this workspace neither sees nor touches the others. */
  lemma OwnWorkspace(f: Flat, a: Action, now: int)
    requires f == Pruned(f, now)
    ensures FlatStep(OnlyWs(f, a.ws), a, now) == (OnlyWs(FlatStep(f, a, now).0, a.ws), FlatStep(f, a, now).1)
  {
    var g := OnlyWs(f, a.ws);
    PruneOnlyWs(f, a.ws, now, now);
    match a
    case OnKey(ws, key, op) =>
      var o := Run(op, Find(f, ws, key), now);
      assert OnlyWs(f - {(ws, key)}, ws) == g - {(ws, key)};
      if o.slot.Some? {
        assert OnlyWs(f[(ws, key) := o.slot.value], ws) == g[(ws, key) := o.slot.value];
      }
    case Del(ws, keys) => DeleteElsewhere(f, ws, keys, ws);
    case Exists(ws, keys) => CountElsewhere(f, ws, keys);
    case TypeOf(ws, key) =>
    case Rename(ws, from, to) =>
      if (ws, from) in f {
        var s := f[(ws, from)];
        assert OnlyWs((f - {(ws, from)})[(ws, to) := s], ws) == (g - {(ws, from)})[(ws, to) := s];
      }
    case Keys(ws, pattern) => assert Names(g, ws) == Names(f, ws);
    case Scan(ws, cursor, pattern, count) => assert Names(g, ws) == Names(f, ws);
    case FlushDB(ws) =>
  }

  ghost function RepliesTo(ws: Bytes, f: Flat, run: seq<Event>): seq<Reply>
    decreases |run|
  {
    if run == [] then []
    else if run[0].Sweep? then RepliesTo(ws, f, run[1..])
    else (if run[0].a.ws == ws then [FlatStep(f, run[0].a, run[0].now).1] else [])
         + RepliesTo(ws, FlatStep(f, run[0].a, run[0].now).0, run[1..])
  }

  ghost function CommandsIn(ws: Bytes, run: seq<Event>): seq<Event> {
    if run == [] then []
    else (if run[0].Command? && run[0].a.ws == ws then [run[0]] else []) + CommandsIn(ws, run[1..])
  }

  ghost predicate Ordered(run: seq<Event>, start: int) {
    run == [] || (start <= run[0].now && Ordered(run[1..], run[0].now))
  }

  lemma FlatStepPrunes(f: Flat, a: Action, now: int)
    ensures Pruned(Pruned(f, now), now) == Pruned(f, now)
    ensures FlatStep(Pruned(f, now), a, now) == FlatStep(f, a, now)
  {
    PruneOnlyWs(f, a.ws, now, now);
  }

  /** What one workspace is told in a run is what it would be told alone. */
  lemma {:induction false} WorkspacesAreIndependent(ws: Bytes, f: Flat, g: Flat, run: seq<Event>, start: int)
    requires Ordered(run, start) && Pruned(g, start) == OnlyWs(Pruned(f, start), ws)
    ensures RepliesTo(ws, f, run) == FlatReplies(g, CommandsIn(ws, run))
    decreases |run|
  {
    if run != [] {
      var e := run[0];
      var now := e.now;
      PruneOnlyWs(f, ws, start, now);
      PruneOnlyWs(g, ws, start, now);
      PruneOnlyWs(Pruned(f, start), ws, now, now);
      assert Pruned(g, now) == OnlyWs(Pruned(f, now), ws);
      if e.Sweep? {
        WorkspacesAreIndependent(ws, f, g, run[1..], now);
        assert CommandsIn(ws, run) == CommandsIn(ws, run[1..]);
      } else {
        FlatStepPrunes(f, e.a, now);
        FlatStepPrunes(g, e.a, now);
        var f' := FlatStep(f, e.a, now).0;
        PruneOnlyWs(f', ws, now, now);
        if e.a.ws == ws {
          OwnWorkspace(Pruned(f, now), e.a, now);
          assert CommandsIn(ws, run)[1..] == CommandsIn(ws, run[1..]);
          WorkspacesAreIndependent(ws, f', FlatStep(g, e.a, now).0, run[1..], now);
        } else {
          OtherWorkspace(Pruned(f, now), e.a, now, ws);
          assert Pruned(Pruned(g, now), now) == Pruned(OnlyWs(f', ws), now);
          WorkspacesAreIndependent(ws, f', g, run[1..], now);
          assert CommandsIn(ws, run) == CommandsIn(ws, run[1..]);
        }
      }
    }
  }

  /** The store's replies to the commands of one workspace in a run. */
  ghost function StoreRepliesTo(ws: Bytes, db: DB, run: seq<Event>): seq<Reply>
    decreases |run|
  {
    if run == [] then []
    else (if run[0].Command? && run[0].a.ws == ws then [Step(db, run[0].a, run[0].now, None).1] else [])
         + StoreRepliesTo(ws, After(db, run[0]), run[1..])
  }

  lemma {:induction false} StoreRepliesLikeFlatMap(W: iset<Bytes>, ws: Bytes, db: DB, f: Flat, run: seq<Event>, start: int)
    requires Apart(W) && Same(W, db, f, start) && Proper(W, db, run, start)
    ensures StoreRepliesTo(ws, db, run) == RepliesTo(ws, f, run) && Ordered(run, start)
    decreases |run|
  {
    if run != [] {
      var e := run[0];
      StaysSame(W, db, f, start, e.now);
      if e.Command? {
        StepSame(W, db, f, e.a, e.now);
        StoreRepliesLikeFlatMap(W, ws, After(db, e), FlatStep(f, e.a, e.now).0, run[1..], e.now);
      } else {
        SweepStaysSame(W, db, f, e.gone, e.now);
        StoreRepliesLikeFlatMap(W, ws, After(db, e), f, run[1..], e.now);
      }
    }
  }

  lemma {:induction false} CommandsAreProper(W: iset<Bytes>, ws: Bytes, db: DB, run: seq<Event>, start: int)
    requires Ordered(run, start) && ws in W
    ensures Proper(W, db, CommandsIn(ws, run), start)
    decreases |run|
  {
    if run != [] {
      var e := run[0];
      if e.Command? && e.a.ws == ws {
        CommandsAreProper(W, ws, After(db, e), run[1..], e.now);
        assert CommandsIn(ws, run)[1..] == CommandsIn(ws, run[1..]);
      } else {
        CommandsAreProper(W, ws, db, run[1..], e.now);
        assert CommandsIn(ws, run) == CommandsIn(ws, run[1..]);
      }
    }
  }

  /** What a workspace is told by a store that others use and the reaper visits is what it
      would be told by a store of its own. */
  lemma StoreWorkspacesAreIndependent(W: iset<Bytes>, ws: Bytes, run: seq<Event>, start: int)
    requires Apart(W) && Proper(W, DB(map[], map[]), run, start) && ws in W
    ensures StoreRepliesTo(ws, DB(map[], map[]), run) == Replies(DB(map[], map[]), CommandsIn(ws, run))
  {
    var db := DB(map[], map[]);
    EmptyStoreIsEmptyMap(W, start);
    StoreRepliesLikeFlatMap(W, ws, db, map[], run, start);
    WorkspacesAreIndependent(ws, map[], map[], run, start);
    CommandsAreProper(W, ws, db, run, start);
    RunsLikeFlatMap(W, db, map[], CommandsIn(ws, run), start);
  }

  // ------------------------------------------------ exactly which workspaces

  lemma TwoReplies(db: DB, f: Flat, a: Action, b: Action, now: int)
    ensures Replies(db, [Command(a, now), Command(b, now)])
         == [Step(db, a, now, None).1, Step(Step(db, a, now, None).0, b, now, None).1]
    ensures FlatReplies(f, [Command(a, now), Command(b, now)])
         == [FlatStep(f, a, now).1, FlatStep(FlatStep(f, a, now).0, b, now).1]
  {
    var run := [Command(a, now), Command(b, now)];
    assert run[1..] == [Command(b, now)] && run[1..][1..] == [];
    assert Replies(After(db, run[0]), run[1..]) == [Step(After(db, run[0]), b, now, None).1];
    var g := FlatStep(f, a, now).0;
    assert FlatReplies(g, run[1..]) == [FlatStep(g, b, now).1];
  }

  lemma CountOfOne(db: DB, f: Flat, ws: Bytes, key: Bytes, now: int)
    ensures CountLive(db, ws, [key], now) == if Live(db, NsKey(ws, key), now).Some? then 1 else 0
    ensures Count(f, ws, [key]) == if (ws, key) in f then 1 else 0
  {
    assert [key][..0] == [];
    assert CountLive(db, ws, [], now) == 0 && Count(f, ws, []) == 0;
  }

  /** SET in one workspace, EXISTS in another that shares the stored key: a key out of nowhere. */
  lemma SharedKeyShows(ws: Bytes, key: Bytes, ws': Bytes, key': Bytes) returns (run: seq<Event>)
    requires ws != ws' && NsKey(ws, key) == NsKey(ws', key')
    ensures run == [Command(OnKey(ws, key, PlainSet()), 0), Command(Exists(ws', [key']), 0)]
    ensures Replies(DB(map[], map[]), run) != FlatReplies(map[], run)
  {
    var db: DB, f: Flat := DB(map[], map[]), map[];
    var a, b := OnKey(ws, key, PlainSet()), Exists(ws', [key']);
    run := [Command(a, 0), Command(b, 0)];
    TwoReplies(db, f, a, b, 0);
    var slot := Slot(StringValue([]), None);
    SetNew(db, NsKey(ws, key), 0);
    CountOfOne(Step(db, a, 0, None).0, Pruned(FlatStep(f, a, 0).0, 0), ws', key', 0);
    assert Run(PlainSet(), None, 0).slot == Some(slot);
  }

  lemma SharedKeyIsProper(W: iset<Bytes>, ws: Bytes, key: Bytes, ws': Bytes, key': Bytes, run: seq<Event>)
    requires ws in W && ws' in W
    requires run == [Command(OnKey(ws, key, PlainSet()), 0), Command(Exists(ws', [key']), 0)]
    ensures Proper(W, DB(map[], map[]), run, 0)
  {
    var d := After(DB(map[], map[]), run[0]);
    assert run[1..] == [run[1]] && run[1..][1..] == [];
    assert Proper(W, d, run[1..], 0);
  }

  ghost predicate AnsweredAlike(W: iset<Bytes>, run: seq<Event>, start: int) {
    Proper(W, DB(map[], map[]), run, start) ==> Replies(DB(map[], map[]), run) == FlatReplies(map[], run)
  }

  /** Every run over a set of workspaces is answered like a flat map exactly when none of them
      continues another past a NUL. */
  lemma LikeFlatMapExactlyWhen(W: iset<Bytes>)
    ensures (forall run, start :: AnsweredAlike(W, run, start)) <==> Apart(W)
  {
    if Apart(W) {
      forall run, start | Proper(W, DB(map[], map[]), run, start)
        ensures Replies(DB(map[], map[]), run) == FlatReplies(map[], run)
      {
        EmptyStoreIsEmptyMap(W, start);
        RunsLikeFlatMap(W, DB(map[], map[]), map[], run, start);
      }
    } else {
      var ws, ws' :| ws in W && ws' in W && !Separate(ws, ws');
      ShareNothingExactlyWhen(ws, ws');
      var k, k' :| NsKey(ws, k) == NsKey(ws', k');
      var run := SharedKeyShows(ws, k, ws', k');
      SharedKeyIsProper(W, ws, k, ws', k', run);
      assert !AnsweredAlike(W, run, 0);
    }
  }
}
