/** MULTI, EXEC, DISCARD, WATCH, UNWATCH and the dispatcher around them, as a
    state machine over one connection's state and the store's value. */
module Tx {
  import opened Base
  import opened Keyspace
  import opened Versions

  // ------------------------------------------------------------ the command table

  /** Which handler a registered command has; everything but the transaction
      commands is Other. */
  datatype Handler = Multi | Exec | Discard | Watch | Unwatch | Other

  datatype Command = Command(minArgs: nat, maxArgs: int, allowedNoAuth: bool, noQueue: bool, handler: Handler)

  predicate ArityOK(c: Command, n: nat) {
    n >= c.minArgs && (c.maxArgs >= 0 ==> n <= c.maxArgs)
  }

  /** What is fixed while a server runs. A handler of an ordinary command issues store
      commands one after another, each chosen from the replies so far and at most
      bound of them; it may also log the connection in to a workspace. */
  datatype Server = Server(
    commands: map<Bytes, Command>,
    upper: Bytes -> Bytes,
    authRequired: bool,
    next: (seq<Bytes>, Bytes, seq<Reply>) -> Option<Action>,
    bound: seq<Bytes> -> nat,
    answer: (seq<Bytes>, seq<Reply>) -> Reply,
    login: (seq<Bytes>, Bytes, bool) -> (Bytes, bool))
  {
    /** The transaction commands are registered as never queued. */
    ghost predicate WellFormed() {
      forall name :: name in commands && commands[name].handler != Other ==> commands[name].noQueue
    }

    predicate Known(args: seq<Bytes>) {
      args != [] && upper(args[0]) in commands
    }

    function Find(args: seq<Bytes>): Command
      requires Known(args)
    {
      commands[upper(args[0])]
    }
  }

  /** The five registrations of the transaction commands. */
  function RegisterTx(commands: map<Bytes, Command>, multi: Bytes, exec: Bytes, discard: Bytes, watch: Bytes,
                      unwatch: Bytes): map<Bytes, Command> {
    commands[multi := Command(1, 1, false, true, Multi)]
            [exec := Command(1, 1, false, true, Exec)]
            [discard := Command(1, 1, false, true, Discard)]
            [watch := Command(2, -1, false, true, Watch)]
            [unwatch := Command(1, 1, false, true, Unwatch)]
  }

  lemma RegisteredTablesAreWellFormed(s: Server, multi: Bytes, exec: Bytes, discard: Bytes, watch: Bytes, unwatch: Bytes)
    requires forall name :: name in s.commands ==> s.commands[name].handler == Other
    ensures s.(commands := RegisterTx(s.commands, multi, exec, discard, watch, unwatch)).WellFormed()
  {}

  // ------------------------------------------------------------------ a connection

  datatype Client = Client(
    inMulti: bool,
    multiError: bool,
    queued: seq<seq<Bytes>>,
    watched: map<Bytes, nat>,
    workspace: Bytes,
    authenticated: bool)

  datatype TxReply =
    | NoReply
    | OK
    | Queued
    | UnknownCommand
    | NoAuth
    | WrongNumberOfArgs
    | NestedMulti
    | WatchInsideMulti
    | ExecWithoutMulti
    | DiscardWithoutMulti
    | ExecAbort
    | NullArray
    | Array(replies: seq<TxReply>)
    | Data(reply: Reply)

  /** What the outside contributes to one store command. */
  datatype Choice = Choice(now: int, victim: Option<Bytes>)

  /** A queued command was looked up and found fit for queueing. */
  ghost predicate Queueable(s: Server, args: seq<Bytes>) {
    s.Known(args) && !s.Find(args).noQueue && ArityOK(s.Find(args), |args|)
  }

  ghost predicate QueueOK(s: Server, c: Client) {
    forall i :: 0 <= i < |c.queued| ==> Queueable(s, c.queued[i])
  }

  predicate IsExec(s: Server, args: seq<Bytes>) {
    s.Known(args) && s.Find(args).handler == Exec
  }

  /** An ordinary handler at work on the store. */
  ghost function RunHandler(s: Server, args: seq<Bytes>, ws: Bytes, db: DB, done: seq<Reply>, o: seq<Choice>)
    : (DB, seq<Reply>)
    decreases |o|
  {
    if o == [] || s.next(args, ws, done).None? then (db, done)
    else
      var (d, r) := Step(db, s.next(args, ws, done).value, o[0].now, o[0].victim);
      RunHandler(s, args, ws, d, done + [r], o[1..])
  }

  ghost function CallOther(s: Server, c: Client, db: DB, args: seq<Bytes>, o: seq<Choice>): (Client, DB, TxReply) {
    var (d, done) := RunHandler(s, args, c.workspace, db, [], o);
    var (ws, auth) := s.login(args, c.workspace, c.authenticated);
    (c.(workspace := ws, authenticated := auth), d, Data(s.answer(args, done)))
  }

  function Cleared(c: Client): Client {
    c.(inMulti := false, multiError := false, queued := [], watched := map[])
  }

  function WatchAll(watched: map<Bytes, nat>, db: DB, ws: Bytes, keys: seq<Bytes>): map<Bytes, nat> {
    if keys == [] then watched
    else WatchAll(watched, db, ws, keys[..|keys| - 1])
         [keys[|keys| - 1] := VersionOf(db, NsKey(ws, keys[|keys| - 1]))]
  }

  /** Some watched key has another version now, in the connection's present workspace. */
  predicate WatchBroken(c: Client, db: DB) {
    exists k :: k in c.watched && VersionOf(db, NsKey(c.workspace, k)) != c.watched[k]
  }

  /** The dispatcher's verdict before any handler runs, if it has one. */
  ghost function Refusal(s: Server, c: Client, args: seq<Bytes>): Option<(Client, TxReply)> {
    if args == [] then Some((c, NoReply))
    else if !s.Known(args) then Some((if c.inMulti then c.(multiError := true) else c, UnknownCommand))
    else
      var cmd := s.Find(args);
      if s.authRequired && !c.authenticated && !cmd.allowedNoAuth then Some((c, NoAuth))
      else if c.inMulti && !cmd.noQueue then
        if ArityOK(cmd, |args|) then Some((c.(queued := c.queued + [args]), Queued))
        else Some((c.(multiError := true), WrongNumberOfArgs))
      else if !ArityOK(cmd, |args|) then Some((c, WrongNumberOfArgs))
      else None
  }

  /** The choices for the i-th queued command. */
  function Nth(os: seq<seq<Choice>>, i: nat): seq<seq<Choice>> {
    if i < |os| then [os[i]] else []
  }

  function Tail(os: seq<seq<Choice>>): seq<seq<Choice>> {
    if os == [] then [] else os[1..]
  }

  /** One request. Its recursion, through EXEC into the queued commands and no
      further, is well-founded only because what can be queued is never EXEC. */
  ghost function Handle(s: Server, c: Client, db: DB, args: seq<Bytes>, os: seq<seq<Choice>>)
    : (res: (Client, DB, TxReply))
    requires s.WellFormed() && QueueOK(s, c)
    ensures QueueOK(s, res.0)
    ensures !c.inMulti && s.Known(args) && !s.Find(args).noQueue ==>
              res.0 == c.(workspace := res.0.workspace, authenticated := res.0.authenticated)
    decreases if IsExec(s, args) then 2 else 0, 0
  {
    var refusal := Refusal(s, c, args);
    if refusal.Some? then (refusal.value.0, db, refusal.value.1)
    else match s.Find(args).handler
      case Multi =>
        if c.inMulti then (c, db, NestedMulti)
        else (c.(inMulti := true, multiError := false, queued := []), db, OK)
      case Discard => if c.inMulti then (Cleared(c), db, OK) else (c, db, DiscardWithoutMulti)
      case Watch =>
        if c.inMulti then (c, db, WatchInsideMulti)
        else (c.(watched := WatchAll(c.watched, db, c.workspace, args[1..])), db, OK)
      case Unwatch => (c.(watched := map[]), db, OK)
      case Exec =>
        if !c.inMulti then (c, db, ExecWithoutMulti)
        else if c.multiError then (Cleared(c), db, ExecAbort)
        else if WatchBroken(c, db) then (Cleared(c), db, NullArray)
        else
          var (d, e, rs) := RunQueue(s, Cleared(c), db, c.queued, os);
          (d, e, Array(rs))
      case Other => CallOther(s, c, db, args, if os == [] then [] else os[0])
  }

  ghost function RunQueue(s: Server, c: Client, db: DB, queue: seq<seq<Bytes>>, os: seq<seq<Choice>>)
    : (res: (Client, DB, seq<TxReply>))
    requires s.WellFormed() && QueueOK(s, c) && !c.inMulti
    requires forall i :: 0 <= i < |queue| ==> Queueable(s, queue[i])
    ensures res.0 == c.(workspace := res.0.workspace, authenticated := res.0.authenticated)
    ensures |res.2| == |queue|
    decreases 1, |queue|
  {
    if queue == [] then (c, db, [])
    else
      assert Queueable(s, queue[0]);
      var (d, e, r) := Handle(s, c, db, queue[0], Nth(os, 0));
      var (d', e', rs) := RunQueue(s, d, e, queue[1..], Tail(os));
      (d', e', [r] + rs)
  }

  // ---------------------------------------------------- what a transaction may do

  /** Every way out of a transaction other than running it leaves the store alone
      and the connection without queue, watches and transaction. */
  lemma AbortedLeavesNoTrace(s: Server, c: Client, db: DB, args: seq<Bytes>, os: seq<seq<Choice>>)
    requires s.WellFormed() && QueueOK(s, c)
    requires Refusal(s, c, args).None? && c.inMulti
    requires s.Find(args).handler == Discard || (IsExec(s, args) && (c.multiError || WatchBroken(c, db)))
    ensures Handle(s, c, db, args, os).0 == Cleared(c) && Handle(s, c, db, args, os).1 == db
    ensures Handle(s, c, db, args, os).2
         == (if s.Find(args).handler == Discard then OK else if c.multiError then ExecAbort else NullArray)
  {}

  /** While a transaction is open only commands that are never queued can reach the store. */
  lemma QueueingLeavesStore(s: Server, c: Client, db: DB, args: seq<Bytes>, os: seq<seq<Choice>>)
    requires s.WellFormed() && QueueOK(s, c) && c.inMulti
    requires s.Known(args) ==> !s.Find(args).noQueue
    ensures Handle(s, c, db, args, os).1 == db
    ensures Handle(s, c, db, args, os).2 == Queued <==>
            Handle(s, c, db, args, os).0 == c.(queued := c.queued + [args])
  {
    assert |c.queued + [args]| != |c.queued|;
  }

  /** The state in which the i-th queued command finds the connection and the store. */
  ghost function BeforeQueued(s: Server, c: Client, db: DB, queue: seq<seq<Bytes>>, os: seq<seq<Choice>>, i: nat): (Client, DB)
    requires s.WellFormed() && QueueOK(s, c) && !c.inMulti && i <= |queue|
    requires forall j :: 0 <= j < |queue| ==> Queueable(s, queue[j])
    decreases |queue|
  {
    if i == 0 then (c, db)
    else
      assert Queueable(s, queue[0]);
      var (d, e, _) := Handle(s, c, db, queue[0], Nth(os, 0));
      BeforeQueued(s, d, e, queue[1..], Tail(os), i - 1)
  }

  /** EXEC gives one reply for each queued command, in order: the reply the command
      gets when it is handled directly, after those before it. */
  lemma {:induction false} RepliesInOrder(s: Server, c: Client, db: DB, queue: seq<seq<Bytes>>, os: seq<seq<Choice>>, i: nat)
    requires s.WellFormed() && QueueOK(s, c) && !c.inMulti && i < |queue|
    requires forall j :: 0 <= j < |queue| ==> Queueable(s, queue[j])
    ensures var (d, e) := BeforeQueued(s, c, db, queue, os, i);
      !d.inMulti && d.queued == c.queued && QueueOK(s, d)
      && RunQueue(s, c, db, queue, os).2[i] == Handle(s, d, e, queue[i], Nth(os, i)).2
    decreases |queue|
  {
    assert Queueable(s, queue[0]);
    if i > 0 {
      var (d, e, _) := Handle(s, c, db, queue[0], Nth(os, 0));
      RepliesInOrder(s, d, e, queue[1..], Tail(os), i - 1);
    }
  }

  /** A queued command, when run, is neither refused for its name or arity nor queued again. */
  lemma QueuedRunsDirectly(s: Server, c: Client, db: DB, args: seq<Bytes>, os: seq<seq<Choice>>)
    requires s.WellFormed() && QueueOK(s, c) && !c.inMulti && Queueable(s, args)
    ensures !IsExec(s, args)
    ensures Handle(s, c, db, args, os).2 == NoAuth || Handle(s, c, db, args, os).2.Data?
  {}

  // ------------------------------------------------------------- optimistic locking

  lemma {:induction false} RunHandlerHonest(s: Server, args: seq<Bytes>, ws: Bytes, db: DB, done: seq<Reply>, o: seq<Choice>)
    ensures Honest(db, RunHandler(s, args, ws, db, done, o).0)
    decreases |o|
  {
    if o != [] && s.next(args, ws, done).Some? {
      var a := s.next(args, ws, done).value;
      var (d, r) := Step(db, a, o[0].now, o[0].victim);
      StepHonest(db, a, o[0].now, o[0].victim);
      RunHandlerHonest(s, args, ws, d, done + [r], o[1..]);
      HonestTransitive(db, d, RunHandler(s, args, ws, db, done, o).0);
    }
  }

  lemma {:induction false} HandleHonest(s: Server, c: Client, db: DB, args: seq<Bytes>, os: seq<seq<Choice>>)
    requires s.WellFormed() && QueueOK(s, c)
    ensures Honest(db, Handle(s, c, db, args, os).1)
    decreases if IsExec(s, args) then 2 else 0, 0
  {
    if Refusal(s, c, args).None? {
      if s.Find(args).handler == Other {
        RunHandlerHonest(s, args, c.workspace, db, [], if os == [] then [] else os[0]);
      } else if s.Find(args).handler == Exec && c.inMulti && !c.multiError && !WatchBroken(c, db) {
        RunQueueHonest(s, Cleared(c), db, c.queued, os);
      }
    }
  }

  lemma {:induction false} RunQueueHonest(s: Server, c: Client, db: DB, queue: seq<seq<Bytes>>, os: seq<seq<Choice>>)
    requires s.WellFormed() && QueueOK(s, c) && !c.inMulti
    requires forall i :: 0 <= i < |queue| ==> Queueable(s, queue[i])
    ensures Honest(db, RunQueue(s, c, db, queue, os).1)
    decreases 1, |queue|
  {
    if queue != [] {
      assert Queueable(s, queue[0]);
      var o := Nth(os, 0);
      HandleHonest(s, c, db, queue[0], o);
      var (d, e, _) := Handle(s, c, db, queue[0], o);
      RunQueueHonest(s, d, e, queue[1..], Tail(os));
      HonestTransitive(db, e, RunQueue(s, c, db, queue, os).1);
    }
  }

  /** The request is a WATCH that takes effect and names the key. */
  ghost predicate Watches(s: Server, c: Client, args: seq<Bytes>, key: Bytes) {
    Refusal(s, c, args).None? && s.Find(args).handler == Watch && !c.inMulti && key in args[1..]
  }

  lemma {:induction false} WatchAllRecords(watched: map<Bytes, nat>, db: DB, ws: Bytes, keys: seq<Bytes>, key: Bytes)
    ensures var w := WatchAll(watched, db, ws, keys);
      if key in keys then key in w && w[key] == VersionOf(db, NsKey(ws, key))
      else (key in w <==> key in watched) && (key in w ==> w[key] == watched[key])
  {
    if keys != [] {
      WatchAllRecords(watched, db, ws, keys[..|keys| - 1], key);
      assert keys == keys[..|keys| - 1] + [keys[|keys| - 1]];
    }
  }

  /** A watch entry is either just recorded or carried over as it was. */
  lemma WatchedComesFromWatch(s: Server, c: Client, db: DB, args: seq<Bytes>, os: seq<seq<Choice>>, key: Bytes)
    requires s.WellFormed() && QueueOK(s, c)
    ensures var w := Handle(s, c, db, args, os).0.watched;
      && (Watches(s, c, args, key) ==> key in w && w[key] == VersionOf(db, NsKey(c.workspace, key)))
      && (!Watches(s, c, args, key) && key in w ==> key in c.watched && w[key] == c.watched[key])
  {
    if Refusal(s, c, args).None? && s.Find(args).handler == Watch && !c.inMulti {
      WatchAllRecords(c.watched, db, c.workspace, args[1..], key);
    }
  }

  datatype System = System(db: DB, clients: map<nat, Client>)

  /** Requests of any connection, one at a time, and visits of the reaper. */
  datatype Event = Request(id: nat, args: seq<Bytes>, os: seq<seq<Choice>>) | Reap(gone: set<Bytes>)

  ghost predicate Ready(s: Server, y: System) {
    s.WellFormed() && forall id :: id in y.clients ==> QueueOK(s, y.clients[id])
  }

  ghost function Advance(s: Server, y: System, e: Event): (z: System)
    requires Ready(s, y) && (e.Request? ==> e.id in y.clients)
    ensures Ready(s, z) && z.clients.Keys == y.clients.Keys
  {
    match e
    case Reap(gone) => y.(db := WithoutAll(y.db, gone))
    case Request(id, args, os) =>
      var (c, d, _) := Handle(s, y.clients[id], y.db, args, os);
      System(d, y.clients[id := c])
  }

  /** A run of the whole server: states before, between and after the events. */
  ghost predicate Run(s: Server, ys: seq<System>, es: seq<Event>) {
    && |ys| == |es| + 1
    && (forall i :: 0 <= i < |ys| ==> Ready(s, ys[i]))
    && (forall i :: 0 <= i < |es| ==> (es[i].Request? ==> es[i].id in ys[i].clients)
                                      && ys[i + 1] == Advance(s, ys[i], es[i]))
  }

  lemma AdvanceHonest(s: Server, y: System, e: Event)
    requires Ready(s, y) && (e.Request? ==> e.id in y.clients)
    ensures Honest(y.db, Advance(s, y, e).db)
  {
    match e
    case Reap(gone) => WithoutAllHonest(y.db, gone);
    case Request(id, args, os) => HandleHonest(s, y.clients[id], y.db, args, os);
  }

  lemma EventHonest(s: Server, ys: seq<System>, es: seq<Event>, m: nat)
    requires Run(s, ys, es) && m < |es|
    ensures Honest(ys[m].db, ys[m + 1].db)
  {
    assert ys[m + 1] == Advance(s, ys[m], es[m]);
    AdvanceHonest(s, ys[m], es[m]);
  }

  lemma {:induction false} HonestChain(dbs: seq<DB>, i: nat, j: nat)
    requires forall m :: 0 <= m < |dbs| - 1 ==> Honest(dbs[m], dbs[m + 1])
    requires i <= j < |dbs|
    ensures Honest(dbs[i], dbs[j])
    decreases j
  {
    if i < j {
      HonestChain(dbs, i, j - 1);
      assert Honest(dbs[j - 1], dbs[j - 1 + 1]);
      HonestTransitive(dbs[i], dbs[j - 1], dbs[j]);
    }
  }

  lemma RunIsHonest(s: Server, ys: seq<System>, es: seq<Event>, i: nat, j: nat)
    requires Run(s, ys, es) && i <= j <= |es|
    ensures Honest(ys[i].db, ys[j].db)
  {
    var dbs := seq(|ys|, m requires 0 <= m < |ys| => ys[m].db);
    forall m | 0 <= m < |es| ensures Honest(dbs[m], dbs[m + 1]) { EventHonest(s, ys, es, m); }
    HonestChain(dbs, i, j);
  }

  ghost predicate WatchesAt(s: Server, y: System, e: Event, id: nat, key: Bytes) {
    e.Request? && e.id == id && id in y.clients && Watches(s, y.clients[id], e.args, key)
  }

  lemma {:induction false} WatchSurvives(s: Server, ys: seq<System>, es: seq<Event>, i: nat, j: nat, id: nat, key: Bytes)
    requires Run(s, ys, es) && i < j <= |es| && WatchesAt(s, ys[i], es[i], id, key)
    requires forall m :: i < m < j ==> !WatchesAt(s, ys[m], es[m], id, key)
    ensures id in ys[j].clients
    ensures key in ys[j].clients[id].watched ==>
              ys[j].clients[id].watched[key] == VersionOf(ys[i].db, NsKey(ys[i].clients[id].workspace, key))
    decreases j
  {
    assert ys[j - 1 + 1] == Advance(s, ys[j - 1], es[j - 1]);
    if i < j - 1 { WatchSurvives(s, ys, es, i, j - 1, id, key); }
    if es[j - 1].Request? && es[j - 1].id == id {
      WatchedComesFromWatch(s, ys[j - 1].clients[id], ys[j - 1].db, es[j - 1].args, es[j - 1].os, key);
    }
  }

  /** An EXEC that runs its queue. */
  ghost predicate Commits(s: Server, y: System, e: Event)
    requires Ready(s, y)
  {
    e.Request? && e.id in y.clients && IsExec(s, e.args)
    && Handle(s, y.clients[e.id], y.db, e.args, e.os).2.Array?
  }

  /** Optimistic locking over whole runs of any number of connections: when an EXEC
      runs its queue, every key it still watches is stored with exactly the value,
      kind and deadline, or absent, as at the connection's latest WATCH of it. */
  lemma CommitSeesWatchedState(s: Server, ys: seq<System>, es: seq<Event>, i: nat, j: nat, key: Bytes)
    requires Run(s, ys, es) && i < j < |es| && Commits(s, ys[j], es[j])
    requires WatchesAt(s, ys[i], es[i], es[j].id, key)
    requires forall m :: i < m < j ==> !WatchesAt(s, ys[m], es[m], es[j].id, key)
    requires key in ys[j].clients[es[j].id].watched
    requires ys[i].clients[es[j].id].workspace == ys[j].clients[es[j].id].workspace
    ensures var k := NsKey(ys[j].clients[es[j].id].workspace, key);
      Lookup(ys[j].db, k) == Lookup(ys[i].db, k)
  {
    var id := es[j].id;
    var k := NsKey(ys[j].clients[id].workspace, key);
    WatchSurvives(s, ys, es, i, j, id, key);
    RunIsHonest(s, ys, es, i, j);
    assert !WatchBroken(ys[j].clients[id], ys[j].db);
    assert VersionOf(ys[j].db, k) == VersionOf(ys[i].db, k);
  }

  /** What a reader saw at the time of that WATCH is what a reader sees when EXEC runs its
      queue, if and only if it had no deadline that came due in between. */
  lemma CommitSeesVisibleStateExactlyWhen(s: Server, ys: seq<System>, es: seq<Event>, i: nat, j: nat, key: Bytes,
                                          watchedAt: int, execAt: int)
    requires Run(s, ys, es) && i < j < |es| && Commits(s, ys[j], es[j])
    requires WatchesAt(s, ys[i], es[i], es[j].id, key)
    requires forall m :: i < m < j ==> !WatchesAt(s, ys[m], es[m], es[j].id, key)
    requires key in ys[j].clients[es[j].id].watched
    requires ys[i].clients[es[j].id].workspace == ys[j].clients[es[j].id].workspace
    requires watchedAt <= execAt
    ensures var k := NsKey(ys[j].clients[es[j].id].workspace, key);
      var seen := Live(ys[i].db, k, watchedAt);
      Live(ys[j].db, k, execAt) == seen <==> !(seen.Some? && seen.value.Expired(execAt))
  {
    CommitSeesWatchedState(s, ys, es, i, j, key);
    var k := NsKey(ys[j].clients[es[j].id].workspace, key);
    assert Lookup(ys[j].db, k) == Lookup(ys[i].db, k);
  }

  // ------------------------------------------------- what the lock does not cover

  /** Which EXECs run: exactly those in an open transaction without queueing errors
      whose watched versions stand, looked up in the workspace of the moment. */
  lemma CommitsExactlyWhen(s: Server, c: Client, db: DB, args: seq<Bytes>, os: seq<seq<Choice>>)
    requires s.WellFormed() && QueueOK(s, c) && IsExec(s, args)
    ensures Handle(s, c, db, args, os).2.Array? <==>
      Refusal(s, c, args).None? && c.inMulti && !c.multiError
      && forall k :: k in c.watched ==> VersionOf(db, NsKey(c.workspace, k)) == c.watched[k]
  {}

  /** A deadline that merely passes moves no version, so a key can be gone for every
      reader while the transaction that watches it still runs. */
  lemma SilentExpiryDoesNotAbort(s: Server, c: Client, db: DB, args: seq<Bytes>, os: seq<seq<Choice>>,
                                 key: Bytes, watchedAt: int, execAt: int)
    requires s.WellFormed() && QueueOK(s, c) && IsExec(s, args) && Refusal(s, c, args).None?
    requires c.inMulti && !c.multiError
    requires var k := NsKey(c.workspace, key);
      c.watched == map[key := VersionOf(db, k)]
      && k in db.data && db.data[k].slot.deadline.Some? && watchedAt < db.data[k].slot.deadline.value <= execAt
    ensures Handle(s, c, db, args, os).2.Array?
    ensures Live(db, NsKey(c.workspace, key), watchedAt).Some? && Live(db, NsKey(c.workspace, key), execAt).None?
  {
    CommitsExactlyWhen(s, c, db, args, os);
  }

  /** After a login to another workspace EXEC compares the versions of the other
      workspace's keys: a change of the key that was watched goes unnoticed. */
  lemma WorkspaceSwitchDefeatsWatch(s: Server, c: Client, db: DB, args: seq<Bytes>, os: seq<seq<Choice>>,
                                    key: Bytes, old_: Bytes)
    requires s.WellFormed() && QueueOK(s, c) && IsExec(s, args) && Refusal(s, c, args).None?
    requires c.inMulti && !c.multiError && c.workspace != old_
    requires c.watched == map[key := 0] && NsKey(c.workspace, key) !in db.versions
    requires VersionOf(db, NsKey(old_, key)) > 0
    ensures Handle(s, c, db, args, os).2.Array?
    ensures !Handle(s, c.(workspace := old_), db, args, os).2.Array?
  {
    CommitsExactlyWhen(s, c, db, args, os);
    CommitsExactlyWhen(s, c.(workspace := old_), db, args, os);
    assert key in c.watched;
  }

  lemma NsKeyTellsWorkspaces(a: Bytes, b: Bytes, key: Bytes)
    ensures NsKey(a, key) == NsKey(b, key) <==> a == b
  {
    assert NsKey(a, key)[..|NsKey(a, key)| - |key| - 1] == a && NsKey(b, key)[..|NsKey(b, key)| - |key| - 1] == b;
  }

  /** The version EXEC finds is the one recorded at WATCH, and yet the watched key has changed. */
  ghost predicate Deceived(before: DB, after: DB, watchedIn: Bytes, execIn: Bytes, key: Bytes) {
    && VersionOf(after, NsKey(execIn, key)) == VersionOf(before, NsKey(watchedIn, key))
    && Lookup(after, NsKey(watchedIn, key)) != Lookup(before, NsKey(watchedIn, key))
  }

  /** EXEC's comparison shows that a key watched in one workspace is as it was, whatever has
      happened to the store, if and only if EXEC runs in that same workspace. */
  lemma ComparisonProvesExactlyWhen(watchedIn: Bytes, execIn: Bytes, key: Bytes)
    ensures (forall before, after :: Honest(before, after) ==> !Deceived(before, after, watchedIn, execIn, key))
       <==> watchedIn == execIn
  {
    NsKeyTellsWorkspaces(watchedIn, execIn, key);
    if watchedIn != execIn {
      var k := NsKey(watchedIn, key);
      var before, after := DB(map[], map[]), DB(map[k := Record(Slot(StringValue([]), None), 0, 1)], map[k := 1]);
      assert Honest(before, after) && Deceived(before, after, watchedIn, execIn, key);
    }
  }
}
