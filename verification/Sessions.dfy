/** Several connection objects on one store object, served one request at a time: what
    they do is a run of the server, so what is proved of every run holds of the objects. */
module Sessions {
  import opened Base
  import opened Keyspace
  import opened Stores
  import opened Tx
  import opened Connections

  /** A request of a connection, or a visit of the reaper to a shard. */
  datatype Incoming = Ask(id: nat, args: seq<Bytes>) | Visit(shard: nat, sampleSize: int, now: int)

  /** The connections share the server and the store, and are ready for any request. */
  ghost predicate Connected(server: Server, store: Store, conns: seq<Connection>)
    reads conns
  {
    && (forall i, j :: 0 <= i < j < |conns| ==> conns[i] != conns[j])
    && forall i :: 0 <= i < |conns| ==>
         conns[i].server == server && conns[i].store == store && QueueOK(server, conns[i].View())
  }

  ghost predicate Together(server: Server, store: Store, conns: seq<Connection>)
    reads store, store.entryCount, store.shards, store.entries, conns
  {
    server.WellFormed() && store.Valid() && Connected(server, store, conns)
  }

  ghost predicate Show(conns: seq<Connection>, clients: map<nat, Client>)
    reads conns
  {
    && (forall id :: id in clients <==> id < |conns|)
    && forall id :: 0 <= id < |conns| ==> clients[id] == conns[id].View()
  }

  /** What the objects hold. */
  ghost predicate Holds(y: System, store: Store, conns: seq<Connection>)
    reads store, conns
  {
    y.db == store.db && Show(conns, y.clients)
  }

  ghost predicate IsFor(v: Incoming, e: Event) {
    match v
    case Ask(id, args) => e.Request? && e.id == id && e.args == args
    case Visit(_, _, _) => e.Reap?
  }

  /** The reply the state machine gives. */
  ghost predicate Answered(server: Server, y: System, e: Event, r: TxReply)
    requires Ready(server, y) && (e.Request? ==> e.id in y.clients)
  {
    e.Request? ==> r == Tx.Handle(server, y.clients[e.id], y.db, e.args, e.os).2
  }

  ghost predicate StepsTo(server: Server, y: System, v: Incoming, e: Event, r: TxReply, z: System) {
    Ready(server, y) && (e.Request? ==> e.id in y.clients)
    && IsFor(v, e) && z == Advance(server, y, e) && Answered(server, y, e, r)
  }

  /** One connection's request, seen in the system. */
  lemma RequestSteps(server: Server, y: System, id: nat, args: seq<Bytes>, os: seq<seq<Choice>>, r: TxReply, z: System)
    requires Ready(server, y) && id in y.clients
    requires var (c, d, r') := Tx.Handle(server, y.clients[id], y.db, args, os);
      z == System(d, y.clients[id := c]) && r == r'
    ensures StepsTo(server, y, Ask(id, args), Request(id, args, os), r, z)
  {}

  method AskOne(server: Server, store: Store, conns: seq<Connection>, id: nat, args: seq<Bytes>, ghost y: System)
    returns (r: TxReply, ghost os: seq<seq<Choice>>, ghost z: System)
    requires Together(server, store, conns) && Holds(y, store, conns) && id < |conns|
    modifies conns[id], store`db, store`entries, store.entryCount, store.shards, store.entries
    ensures Together(server, store, conns) && Holds(z, store, conns) && fresh(store.entries - old(store.entries))
    ensures z == System(store.db, y.clients[id := conns[id].View()])
    ensures (conns[id].View(), store.db, r) == Tx.Handle(server, old(conns[id].View()), y.db, args, os)
  {
    r, os := conns[id].Handle(args);
    z := System(store.db, y.clients[id := conns[id].View()]);
    forall i | 0 <= i < |conns| && i != id ensures conns[i].View() == old(conns[i].View()) {
      assert conns[i] != conns[id] && unchanged(conns[i]);
    }
  }

  lemma ReapSteps(server: Server, y: System, v: Incoming, gone: set<Bytes>, z: System)
    requires Ready(server, y) && v.Visit? && z == y.(db := WithoutAll(y.db, gone))
    ensures StepsTo(server, y, v, Reap(gone), NoReply, z)
  {}

  method Sweep(store: Store, shard: nat, sampleSize: int, now: int) returns (ghost gone: set<Bytes>)
    requires store.Valid() && shard < |store.shards|
    modifies store`db, store`entries, store.entryCount, store.shards, store.entries
    ensures store.Valid() && fresh(store.entries - old(store.entries)) && store.db == WithoutAll(old(store.db), gone)
  {
    var removed;
    removed, gone := store.SweepShard(shard, sampleSize, now);
  }

  /** The reaper touches no connection. */
  method VisitOne(server: Server, store: Store, conns: seq<Connection>, v: Incoming, ghost y: System)
    returns (ghost gone: set<Bytes>, ghost z: System)
    requires v.Visit? && v.shard < |store.shards|
    requires Together(server, store, conns) && Holds(y, store, conns)
    modifies store`db, store`entries, store.entryCount, store.shards, store.entries
    ensures Together(server, store, conns) && Holds(z, store, conns) && fresh(store.entries - old(store.entries))
    ensures z == y.(db := WithoutAll(y.db, gone))
  {
    gone := Sweep(store, v.shard, v.sampleSize, v.now);
    z := y.(db := store.db);
    assert Connected(server, store, conns) && Show(conns, y.clients);
  }

  method ServeOne(server: Server, store: Store, conns: seq<Connection>, v: Incoming, ghost y: System)
    returns (r: TxReply, ghost e: Event, ghost z: System)
    requires if v.Ask? then v.id < |conns| else v.shard < |store.shards|
    requires Together(server, store, conns) && Holds(y, store, conns) && Ready(server, y)
    modifies conns, store`db, store`entries, store.entryCount, store.shards, store.entries
    ensures Together(server, store, conns) && Holds(z, store, conns) && fresh(store.entries - old(store.entries))
    ensures StepsTo(server, y, v, e, r, z) && Ready(server, z)
  {
    if v.Ask? {
      ghost var os;
      r, os, z := AskOne(server, store, conns, v.id, v.args, y);
      e := Request(v.id, v.args, os);
      RequestSteps(server, y, v.id, v.args, os, r, z);
    } else {
      r := NoReply;
      ghost var gone;
      gone, z := VisitOne(server, store, conns, v, y);
      e := Reap(gone);
      ReapSteps(server, y, v, gone, z);
    }
  }

  lemma HeldIsReady(server: Server, store: Store, conns: seq<Connection>, y: System)
    requires Together(server, store, conns) && Holds(y, store, conns)
    ensures Ready(server, y)
  {
    forall id | id in y.clients ensures QueueOK(server, y.clients[id]) { assert QueueOK(server, conns[id].View()); }
  }

  /** A log of requests and visits is a run of the server, reply by reply. */
  method Serve(server: Server, store: Store, conns: seq<Connection>, log: seq<Incoming>, ghost y0: System)
    returns (replies: seq<TxReply>, ghost ys: seq<System>, ghost es: seq<Event>)
    requires Together(server, store, conns) && Holds(y0, store, conns)
    requires forall i :: 0 <= i < |log| ==> if log[i].Ask? then log[i].id < |conns| else log[i].shard < |store.shards|
    modifies conns, store`db, store`entries, store.entryCount, store.shards, store.entries
    ensures Together(server, store, conns)
    ensures |replies| == |es| == |log| && Tx.Run(server, ys, es)
    ensures ys[0] == y0 && Holds(ys[|log|], store, conns)
    ensures forall i :: 0 <= i < |log| ==> IsFor(log[i], es[i]) && Answered(server, ys[i], es[i], replies[i])
  {
    replies, es := [], [];
    ys := [y0];
    HeldIsReady(server, store, conns, y0);
    ghost var y := y0;
    for i := 0 to |log|
      invariant Together(server, store, conns) && fresh(store.entries - old(store.entries))
      invariant Holds(y, store, conns) && Ready(server, y)
      invariant |ys| == i + 1 && ys[0] == y0 && ys[i] == y
      invariant IsTrace(server, ys, log[..i], es, replies)
    {
      var r;
      ghost var e, z;
      r, e, z := ServeOne(server, store, conns, log[i], y);
      OneMoreStep(server, ys, log, i, es, replies, e, r, z);
      replies, es, ys, y := replies + [r], es + [e], ys + [z], z;
    }
    assert log[..|log|] == log;
    TraceIsRun(server, ys, log, es, replies);
  }

  ghost predicate IsTrace(server: Server, ys: seq<System>, log: seq<Incoming>, es: seq<Event>, replies: seq<TxReply>) {
    |replies| == |es| == |log| && |ys| == |log| + 1
    && forall j :: 0 <= j < |log| ==> StepsTo(server, ys[j], log[j], es[j], replies[j], ys[j + 1])
  }

  lemma OneMoreStep(server: Server, ys: seq<System>, log: seq<Incoming>, i: nat, es: seq<Event>, replies: seq<TxReply>,
                    e: Event, r: TxReply, z: System)
    requires i < |log| && IsTrace(server, ys, log[..i], es, replies) && StepsTo(server, ys[i], log[i], e, r, z)
    ensures IsTrace(server, ys + [z], log[..i + 1], es + [e], replies + [r])
  {
    forall j | 0 <= j < i + 1
      ensures StepsTo(server, (ys + [z])[j], log[..i + 1][j], (es + [e])[j], (replies + [r])[j], (ys + [z])[j + 1])
    {
      if j < i { assert StepsTo(server, ys[j], log[..i][j], es[j], replies[j], ys[j + 1]); }
    }
  }

  lemma TraceIsRun(server: Server, ys: seq<System>, log: seq<Incoming>, es: seq<Event>, replies: seq<TxReply>)
    requires IsTrace(server, ys, log, es, replies)
    requires Ready(server, ys[|log|])
    ensures Tx.Run(server, ys, es)
    ensures forall i :: 0 <= i < |log| ==> IsFor(log[i], es[i]) && Answered(server, ys[i], es[i], replies[i])
  {
    forall i | 0 <= i < |ys| ensures Ready(server, ys[i]) {
      if i < |log| { assert StepsTo(server, ys[i], log[i], es[i], replies[i], ys[i + 1]); }
    }
    forall i | 0 <= i < |log|
      ensures (es[i].Request? ==> es[i].id in ys[i].clients) && ys[i + 1] == Advance(server, ys[i], es[i])
      ensures IsFor(log[i], es[i]) && Answered(server, ys[i], es[i], replies[i])
    {
      assert StepsTo(server, ys[i], log[i], es[i], replies[i], ys[i + 1]);
    }
  }
}
