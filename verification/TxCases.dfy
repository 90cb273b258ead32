/** Two short runs of a server from the empty store, in which EXEC goes through although
    something about the watched key is no longer as it was. */
module TxCases {
  import opened Base
  import opened Keyspace
  import opened Versions
  import opened Tx
  import KeySteps

  const SET: Bytes := [1]
  const GET: Bytes := [2]
  const LOGIN: Bytes := [3]
  const MULTI: Bytes := [4]
  const EXEC: Bytes := [5]
  const DISCARD: Bytes := [6]
  const WATCH: Bytes := [7]
  const UNWATCH: Bytes := [8]
  const HOME: Bytes := [10]
  const AWAY: Bytes := [11]
  const KEY: Bytes := [20]

  function SetOp(): Op { Op.Set([], SetOpts(5, false, false, false)) }

  /** The store command behind a request, if it has one. */
  function Wanted(args: seq<Bytes>, ws: Bytes): Option<Action> {
    if args == [SET, KEY] then Some(OnKey(ws, KEY, SetOp()))
    else if args == [GET, KEY] then Some(OnKey(ws, KEY, Op.Get))
    else None
  }

  /** SET with a time to live, GET, a login that leads to another workspace, and the
      transaction commands. */
  function Small(): Server {
    var plain := Command(1, -1, true, false, Other);
    Server(
      RegisterTx(map[SET := plain, GET := plain, LOGIN := plain], MULTI, EXEC, DISCARD, WATCH, UNWATCH),
      name => name,
      false,
      (args, ws, done) => if done == [] then Wanted(args, ws) else None,
      args => 1,
      (args, done) => if done == [] then Nil else done[0],
      (args, ws, auth) => if args == [LOGIN] then (AWAY, auth) else (ws, auth))
  }

  lemma SmallIsWellFormed()
    ensures Small().WellFormed()
  {}

  function Fresh(): Client { Client(false, false, [], map[], HOME, false) }

  function Nothing(): DB { DB(map[], map[]) }

  /** The store after SET at time 0. */
  function Stored(): DB {
    var k := NsKey(HOME, KEY);
    DB(map[k := Record(Slot(StringValue([]), Some(5)), 0, 1)], map[k := 1])
  }

  // ------------------------------------------------------- single requests

  lemma SetStores()
    ensures StepKey(Nothing(), NsKey(HOME, KEY), SetOp(), 0, None) == (Stored(), SetDone(true, None))
  {
    KeySteps.OverwriteStep(Nothing(), NsKey(HOME, KEY), SetOp(), 0, None, SetDone(true, None),
                           Slot(StringValue([]), Some(5)));
  }

  /** An ordinary command that is not being queued runs its one store command. */
  lemma OneCommand(c: Client, db: DB, args: seq<Bytes>, a: Action, o: Choice)
    requires QueueOK(Small(), c) && !c.inMulti && Wanted(args, c.workspace) == Some(a)
    ensures Small().WellFormed()
    ensures Handle(Small(), c, db, args, [[o]])
         == (c, Step(db, a, o.now, o.victim).0, Data(Step(db, a, o.now, o.victim).1))
  {
    SmallIsWellFormed();
    var (d, r) := Step(db, a, o.now, o.victim);
    assert [o][1..] == [] && [] + [r] == [r];
    assert RunHandler(Small(), args, c.workspace, db, [], [o]) == RunHandler(Small(), args, c.workspace, d, [r], []);
    assert Handle(Small(), c, db, args, [[o]]) == CallOther(Small(), c, db, args, [o]);
  }

  lemma SetRuns(c: Client)
    requires QueueOK(Small(), c) && !c.inMulti && c.workspace == HOME
    ensures Small().WellFormed()
    ensures var (d, db, _) := Handle(Small(), c, Nothing(), [SET, KEY], [[Choice(0, None)]]);
      d == c && db == Stored()
  {
    OneCommand(c, Nothing(), [SET, KEY], OnKey(HOME, KEY, SetOp()), Choice(0, None));
    SetStores();
  }

  lemma WatchRuns(c: Client, db: DB)
    requires QueueOK(Small(), c) && !c.inMulti
    ensures Small().WellFormed()
    ensures Handle(Small(), c, db, [WATCH, KEY], [])
         == (c.(watched := c.watched[KEY := VersionOf(db, NsKey(c.workspace, KEY))]), db, OK)
    ensures Watches(Small(), c, [WATCH, KEY], KEY)
  {
    SmallIsWellFormed();
    assert [WATCH, KEY][1..] == [KEY] && [KEY][..0] == [];
    assert WatchAll(c.watched, db, c.workspace, [KEY]) == c.watched[KEY := VersionOf(db, NsKey(c.workspace, KEY))];
  }

  lemma MultiRuns(c: Client, db: DB)
    requires QueueOK(Small(), c) && !c.inMulti
    ensures Small().WellFormed()
    ensures Handle(Small(), c, db, [MULTI], []) == (c.(inMulti := true, multiError := false, queued := []), db, OK)
  {
    SmallIsWellFormed();
  }

  lemma LoginRuns(c: Client, db: DB)
    requires QueueOK(Small(), c) && !c.inMulti
    ensures Small().WellFormed()
    ensures var (d, e, _) := Handle(Small(), c, db, [LOGIN], []); d == c.(workspace := AWAY) && e == db
  {
    SmallIsWellFormed();
  }

  lemma GetIsQueued(c: Client, db: DB)
    requires QueueOK(Small(), c) && c.inMulti
    ensures Small().WellFormed()
    ensures Handle(Small(), c, db, [GET, KEY], []) == (c.(queued := c.queued + [[GET, KEY]]), db, Queued)
  {
    SmallIsWellFormed();
  }

  lemma QueueOfOne(c: Client, db: DB, args: seq<Bytes>, o: seq<Choice>)
    requires Small().WellFormed() && QueueOK(Small(), c) && !c.inMulti && Queueable(Small(), args)
    ensures RunQueue(Small(), c, db, [args], [o]).2 == [Handle(Small(), c, db, args, [o]).2]
  {
    var r := Handle(Small(), c, db, args, [o]).2;
    assert [args][1..] == [];
    assert [r] + [] == [r];
  }

  /** EXEC of a queued GET at time 9, after the deadline: the watch stands and the key is gone. */
  lemma ExecFindsNothing(c: Client)
    requires QueueOK(Small(), c) && c.inMulti && !c.multiError && c.workspace == HOME
    requires c.watched == map[KEY := 1] && c.queued == [[GET, KEY]]
    ensures Small().WellFormed()
    ensures Handle(Small(), c, Stored(), [EXEC], [[Choice(9, None)]]).2 == Array([Data(Nil)])
  {
    SmallIsWellFormed();
    assert !WatchBroken(c, Stored());
    OneCommand(Cleared(c), Stored(), [GET, KEY], OnKey(HOME, KEY, Op.Get), Choice(9, None));
    KeySteps.UnchangedStep(Stored(), NsKey(HOME, KEY), Op.Get, 9, Nil);
    QueueOfOne(Cleared(c), Stored(), [GET, KEY], [Choice(9, None)]);
  }

  // ---------------------------------------------------------------- the runs

  /** States that lead from one to the next, event by event, make a run. */
  lemma StepsMakeRun(ys: seq<System>, es: seq<Event>)
    requires |ys| == |es| + 1 && forall i :: 0 <= i < |es| ==> Leads(ys[i], es[i], ys[i + 1])
    requires Ready(Small(), ys[0])
    ensures Tx.Run(Small(), ys, es)
  {
    forall i | 0 <= i < |ys| ensures Ready(Small(), ys[i]) {
      if i > 0 { assert Leads(ys[i - 1], es[i - 1], ys[i - 1 + 1]); }
    }
    forall i | 0 <= i < |es|
      ensures (es[i].Request? ==> es[i].id in ys[i].clients) && ys[i + 1] == Advance(Small(), ys[i], es[i])
    {
      assert Leads(ys[i], es[i], ys[i + 1]);
    }
  }

  lemma FiveStepsMakeRun(y0: System, e0: Event, y1: System, e1: Event, y2: System, e2: Event, y3: System, e3: Event,
                         y4: System, e4: Event, y5: System)
    requires Leads(y0, e0, y1) && Leads(y1, e1, y2) && Leads(y2, e2, y3) && Leads(y3, e3, y4) && Leads(y4, e4, y5)
    ensures Tx.Run(Small(), [y0, y1, y2, y3, y4, y5], [e0, e1, e2, e3, e4])
  {
    var ys, es := [y0, y1, y2, y3, y4, y5], [e0, e1, e2, e3, e4];
    forall i | 0 <= i < |es| ensures Leads(ys[i], es[i], ys[i + 1]) {}
    StepsMakeRun(ys, es);
  }

  ghost predicate Leads(y: System, e: Event, z: System) {
    Ready(Small(), y) && e.Request? && e.id in y.clients && z == Advance(Small(), y, e)
  }

  /** One request, seen in the system. */
  lemma RequestLeads(y: System, id: nat, args: seq<Bytes>, os: seq<seq<Choice>>, c: Client, db: DB)
    requires Ready(Small(), y) && id in y.clients
    requires Handle(Small(), y.clients[id], y.db, args, os).0 == c && Handle(Small(), y.clients[id], y.db, args, os).1 == db
    ensures Leads(y, Request(id, args, os), System(db, y.clients[id := c])) && Ready(Small(), System(db, y.clients[id := c]))
  {}

  function One(db: DB, c: Client): System { System(db, map[0 := c]) }

  function Two(db: DB, c: Client): System { System(db, map[0 := c, 1 := Fresh()]) }

  function Watching(version: nat): Client { Fresh().(watched := map[KEY := version]) }

  lemma SmallIsReady(y: System)
    requires forall id :: id in y.clients ==> y.clients[id].queued == []
    ensures Ready(Small(), y)
  {
    SmallIsWellFormed();
  }

  function QuietEvents(): seq<Event> {
    [Request(0, [SET, KEY], [[Choice(0, None)]]), Request(0, [WATCH, KEY], []), Request(0, [MULTI], []),
     Request(0, [GET, KEY], []), Request(0, [EXEC], [[Choice(9, None)]])]
  }

  lemma QuietSet()
    ensures Leads(One(Nothing(), Fresh()), QuietEvents()[0], One(Stored(), Fresh()))
  {
    SmallIsReady(One(Nothing(), Fresh()));
    SetRuns(Fresh());
    RequestLeads(One(Nothing(), Fresh()), 0, [SET, KEY], [[Choice(0, None)]], Fresh(), Stored());
  }

  lemma QuietWatch()
    ensures Leads(One(Stored(), Fresh()), QuietEvents()[1], One(Stored(), Watching(1)))
    ensures WatchesAt(Small(), One(Stored(), Fresh()), QuietEvents()[1], 0, KEY)
  {
    SmallIsReady(One(Stored(), Fresh()));
    WatchRuns(Fresh(), Stored());
    RequestLeads(One(Stored(), Fresh()), 0, [WATCH, KEY], [], Watching(1), Stored());
  }

  function Open(): Client { Watching(1).(inMulti := true) }

  function Full(): Client { Open().(queued := [[GET, KEY]]) }

  lemma QuietMulti()
    ensures Leads(One(Stored(), Watching(1)), QuietEvents()[2], One(Stored(), Open()))
    ensures Ready(Small(), One(Stored(), Open()))
  {
    SmallIsReady(One(Stored(), Watching(1)));
    MultiRuns(Watching(1), Stored());
    RequestLeads(One(Stored(), Watching(1)), 0, [MULTI], [], Open(), Stored());
  }

  lemma QuietGet()
    ensures Leads(One(Stored(), Open()), QuietEvents()[3], One(Stored(), Full()))
    ensures Ready(Small(), One(Stored(), Full()))
  {
    SmallIsReady(One(Stored(), Open()));
    GetIsQueued(Open(), Stored());
    RequestLeads(One(Stored(), Open()), 0, [GET, KEY], [], Full(), Stored());
  }

  lemma QuietExec() returns (z: System)
    requires Ready(Small(), One(Stored(), Full()))
    ensures Leads(One(Stored(), Full()), QuietEvents()[4], z) && Commits(Small(), One(Stored(), Full()), QuietEvents()[4])
  {
    ExecFindsNothing(Full());
    z := Advance(Small(), One(Stored(), Full()), QuietEvents()[4]);
  }

  /** SET with a time to live, WATCH, MULTI, a queued GET, and EXEC after the deadline: EXEC runs. */
  lemma SilentExpiryRun() returns (ys: seq<System>)
    ensures Tx.Run(Small(), ys, QuietEvents()) && ys[0] == One(Nothing(), Fresh())
    ensures ys[1] == One(Stored(), Fresh()) && WatchesAt(Small(), ys[1], QuietEvents()[1], 0, KEY)
    ensures ys[4] == One(Stored(), Full()) && Commits(Small(), ys[4], QuietEvents()[4])
  {
    QuietSet();
    QuietWatch();
    QuietMulti();
    QuietGet();
    var last := QuietExec();
    ys := [One(Nothing(), Fresh()), One(Stored(), Fresh()), One(Stored(), Watching(1)), One(Stored(), Open()),
           One(Stored(), Full()), last];
    var es := QuietEvents();
    FiveStepsMakeRun(ys[0], es[0], ys[1], es[1], ys[2], es[2], ys[3], es[3], ys[4], es[4], last);
  }

  /** Its GET finds nothing, although a reader saw the value at the time of WATCH. */
  lemma SilentExpiryReplies()
    ensures Live(Stored(), NsKey(HOME, KEY), 0).Some?
    ensures Small().WellFormed() && QueueOK(Small(), Full())
    ensures Handle(Small(), Full(), Stored(), [EXEC], [[Choice(9, None)]]).2 == Array([Data(Nil)])
  {
    QuietGet();
    assert QueueOK(Small(), One(Stored(), Full()).clients[0]);
    ExecFindsNothing(Full());
  }

  function SwitchEvents(): seq<Event> {
    [Request(0, [WATCH, KEY], []), Request(1, [SET, KEY], [[Choice(0, None)]]), Request(0, [LOGIN], []),
     Request(0, [MULTI], []), Request(0, [EXEC], [])]
  }

  lemma SwitchWatch()
    ensures Leads(Two(Nothing(), Fresh()), SwitchEvents()[0], Two(Nothing(), Watching(0)))
    ensures WatchesAt(Small(), Two(Nothing(), Fresh()), SwitchEvents()[0], 0, KEY)
  {
    SmallIsReady(Two(Nothing(), Fresh()));
    WatchRuns(Fresh(), Nothing());
    RequestLeads(Two(Nothing(), Fresh()), 0, [WATCH, KEY], [], Watching(0), Nothing());
  }

  lemma SwitchSet()
    ensures Leads(Two(Nothing(), Watching(0)), SwitchEvents()[1], Two(Stored(), Watching(0)))
  {
    SmallIsReady(Two(Nothing(), Watching(0)));
    SetRuns(Fresh());
    var clients := Two(Nothing(), Watching(0)).clients;
    assert clients[1 := Fresh()] == clients;
    RequestLeads(Two(Nothing(), Watching(0)), 1, [SET, KEY], [[Choice(0, None)]], Fresh(), Stored());
  }

  lemma SwitchLogin(away: Client)
    requires away == Watching(0).(workspace := AWAY)
    ensures Leads(Two(Stored(), Watching(0)), SwitchEvents()[2], Two(Stored(), away))
  {
    SmallIsReady(Two(Stored(), Watching(0)));
    LoginRuns(Watching(0), Stored());
    RequestLeads(Two(Stored(), Watching(0)), 0, [LOGIN], [], away, Stored());
  }

  lemma SwitchMulti(away: Client, open: Client)
    requires away == Watching(0).(workspace := AWAY) && open == away.(inMulti := true)
    ensures Leads(Two(Stored(), away), SwitchEvents()[3], Two(Stored(), open))
    ensures Ready(Small(), Two(Stored(), open))
  {
    SmallIsReady(Two(Stored(), away));
    MultiRuns(away, Stored());
    RequestLeads(Two(Stored(), away), 0, [MULTI], [], open, Stored());
  }

  lemma SwitchExec(open: Client) returns (z: System)
    requires Ready(Small(), Two(Stored(), open)) && open == Watching(0).(workspace := AWAY, inMulti := true)
    ensures Leads(Two(Stored(), open), SwitchEvents()[4], z) && Commits(Small(), Two(Stored(), open), SwitchEvents()[4])
  {
    ExecRunsElsewhere(open);
    z := Advance(Small(), Two(Stored(), open), SwitchEvents()[4]);
  }

  lemma ExecRunsElsewhere(c: Client)
    requires QueueOK(Small(), c) && c.inMulti && !c.multiError && c.workspace == AWAY && c.watched == map[KEY := 0]
    ensures Small().WellFormed()
    ensures Handle(Small(), c, Stored(), [EXEC], []).2.Array?
  {
    SmallIsWellFormed();
    assert NsKey(AWAY, KEY)[0] != NsKey(HOME, KEY)[0];
    CommitsExactlyWhen(Small(), c, Stored(), [EXEC], []);
  }

  /** WATCH, a SET of the key by another connection, a login that changes the workspace, MULTI
      and EXEC: EXEC runs although the watched key has changed. */
  lemma WorkspaceSwitchRun() returns (ys: seq<System>)
    ensures Tx.Run(Small(), ys, SwitchEvents()) && ys[0] == Two(Nothing(), Fresh())
    ensures WatchesAt(Small(), ys[0], SwitchEvents()[0], 0, KEY) && Commits(Small(), ys[4], SwitchEvents()[4])
    ensures Lookup(ys[4].db, NsKey(HOME, KEY)) != Lookup(ys[0].db, NsKey(HOME, KEY))
  {
    var away := Watching(0).(workspace := AWAY);
    var open := away.(inMulti := true);
    SwitchWatch();
    SwitchSet();
    SwitchLogin(away);
    SwitchMulti(away, open);
    var last := SwitchExec(open);
    ys := [Two(Nothing(), Fresh()), Two(Nothing(), Watching(0)), Two(Stored(), Watching(0)), Two(Stored(), away),
           Two(Stored(), open), last];
    var es := SwitchEvents();
    FiveStepsMakeRun(ys[0], es[0], ys[1], es[1], ys[2], es[2], ys[3], es[3], ys[4], es[4], last);
  }
}
