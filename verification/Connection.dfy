/** The connection object with its in-place transaction state, dispatching requests
    to the store object; every method does what the state machine in Tx says. */
module Connections {
  import opened Base
  import opened Keyspace
  import opened Stores
  import opened Tx

  lemma NoChoicesNeeded(s: Server, c: Client, db: DB, args: seq<Bytes>)
    requires s.WellFormed() && QueueOK(s, c) && !c.inMulti
    ensures Handle(s, c, db, args, []) == Handle(s, c, db, args, [[]])
  {}

  lemma {:induction false} RunQueueSnoc(s: Server, c: Client, db: DB, queue: seq<seq<Bytes>>, os: seq<seq<Choice>>,
                                        args: seq<Bytes>, o: seq<Choice>)
    requires s.WellFormed() && QueueOK(s, c) && !c.inMulti && |os| == |queue|
    requires (forall i :: 0 <= i < |queue| ==> Queueable(s, queue[i])) && Queueable(s, args)
    ensures var (d, e, rs) := RunQueue(s, c, db, queue, os);
      QueueOK(s, d) && !d.inMulti &&
      var (d', e', r) := Handle(s, d, e, args, [o]);
      RunQueue(s, c, db, queue + [args], os + [o]) == (d', e', rs + [r])
    decreases |queue|
  {
    if queue == [] {
      assert queue + [args] == [args] && os + [o] == [o];
      assert [args][1..] == [];
      var r := Handle(s, c, db, args, [o]).2;
      assert [r] + [] == [] + [r];
    } else {
      assert Queueable(s, queue[0]);
      var (d, e, r) := Handle(s, c, db, queue[0], Nth(os, 0));
      RunQueueSnoc(s, d, e, queue[1..], os[1..], args, o);
      assert (queue + [args])[1..] == queue[1..] + [args] && (os + [o])[1..] == os[1..] + [o];
      assert Nth(os + [o], 0) == Nth(os, 0);
      var (d', e', rs) := RunQueue(s, d, e, queue[1..], os[1..]);
      var last := Handle(s, d', e', args, [o]).2;
      assert [r] + (rs + [last]) == ([r] + rs) + [last];
    }
  }

  lemma {:induction false} RunHandlerSnoc(s: Server, args: seq<Bytes>, ws: Bytes, db: DB, done: seq<Reply>,
                                          o: seq<Choice>, last: Choice)
    requires var (d, rs) := RunHandler(s, args, ws, db, done, o); |rs| == |done| + |o|
    ensures var (d, rs) := RunHandler(s, args, ws, db, done, o);
      RunHandler(s, args, ws, db, done, o + [last]) ==
      (match s.next(args, ws, rs)
       case None => (d, rs)
       case Some(a) => var (e, r) := Step(d, a, last.now, last.victim); (e, rs + [r]))
    decreases |o|
  {
    if o == [] {
      assert o + [last] == [last] && [last][1..] == [];
    } else {
      RunHandlerLength(s, args, ws, db, done, o);
      var (d, r) := Step(db, s.next(args, ws, done).value, o[0].now, o[0].victim);
      RunHandlerSnoc(s, args, ws, d, done + [r], o[1..], last);
      assert (o + [last])[1..] == o[1..] + [last];
    }
  }

  lemma {:induction false} RunHandlerLength(s: Server, args: seq<Bytes>, ws: Bytes, db: DB, done: seq<Reply>, o: seq<Choice>)
    ensures |RunHandler(s, args, ws, db, done, o).1| <= |done| + |o|
    ensures s.next(args, ws, done).None? ==> RunHandler(s, args, ws, db, done, o).1 == done
    decreases |o|
  {
    if o != [] && s.next(args, ws, done).Some? {
      var (d, r) := Step(db, s.next(args, ws, done).value, o[0].now, o[0].victim);
      RunHandlerLength(s, args, ws, d, done + [r], o[1..]);
    }
  }

  class Connection {
    var inMulti: bool
    var multiError: bool
    var queued: seq<seq<Bytes>>
    var watched: map<Bytes, nat>
    var workspace: Bytes
    var authenticated: bool
    const server: Server
    const store: Store

    constructor (server: Server, store: Store, defaultWorkspace: Bytes)
      ensures View() == Client(false, false, [], map[], defaultWorkspace, false)
      ensures this.server == server && this.store == store && QueueOK(server, View())
    {
      inMulti, multiError, queued, watched := false, false, [], map[];
      workspace, authenticated := defaultWorkspace, false;
      this.server, this.store := server, store;
    }

    ghost function View(): Client
      reads this
    {
      Client(inMulti, multiError, queued, watched, workspace, authenticated)
    }

    ghost predicate Ready()
      reads this, store, store.entryCount, store.shards, store.entries
    {
      server.WellFormed() && store.Valid() && QueueOK(server, View())
    }

    /** Lookup, authentication, queueing and arity; an answer unless a handler is to run. */
    method Screen(args: seq<Bytes>) returns (r: Option<TxReply>)
      modifies this
      ensures match Refusal(server, old(View()), args)
        case None => r == None && View() == old(View())
        case Some((c, reply)) => r == Some(reply) && View() == c
    {
      if |args| == 0 { return Some(NoReply); }
      var name := server.upper(args[0]);
      if name !in server.commands {
        if inMulti { multiError := true; }
        return Some(UnknownCommand);
      }
      var cmd := server.commands[name];
      if server.authRequired && !authenticated && !cmd.allowedNoAuth { return Some(TxReply.NoAuth); }
      if inMulti && !cmd.noQueue {
        if !ArityOK(cmd, |args|) {
          multiError := true;
          return Some(WrongNumberOfArgs);
        }
        queued := queued + [args];
        return Some(TxReply.Queued);
      }
      if !ArityOK(cmd, |args|) { return Some(WrongNumberOfArgs); }
      return None;
    }

    method HandleMulti() returns (r: TxReply)
      modifies this
      ensures r == (if old(inMulti) then NestedMulti else OK)
      ensures View() == if old(inMulti) then old(View())
                        else old(View()).(inMulti := true, multiError := false, queued := [])
    {
      if inMulti { return NestedMulti; }
      inMulti, multiError, queued := true, false, [];
      return OK;
    }

    method HandleDiscard() returns (r: TxReply)
      modifies this
      ensures r == (if old(inMulti) then OK else DiscardWithoutMulti)
      ensures View() == if old(inMulti) then Cleared(old(View())) else old(View())
    {
      if !inMulti { return DiscardWithoutMulti; }
      Clear();
      return OK;
    }

    /** The end of a transaction, whatever becomes of it. */
    method Clear()
      modifies this`inMulti, this`multiError, this`queued, this`watched
      ensures View() == Cleared(old(View()))
    {
      inMulti, multiError, queued, watched := false, false, [], map[];
    }

    method HandleWatch(args: seq<Bytes>) returns (r: TxReply)
      requires store.Valid() && args != []
      modifies this
      ensures r == (if old(inMulti) then WatchInsideMulti else OK)
      ensures View() == if old(inMulti) then old(View())
                        else old(View()).(watched := WatchAll(old(watched), store.db, old(workspace), args[1..]))
    {
      if inMulti { return WatchInsideMulti; }
      ghost var keys := args[1..];
      for i := 1 to |args|
        invariant View() == old(View()).(watched := WatchAll(old(watched), store.db, old(workspace), keys[..i - 1]))
      {
        assert keys[..i][..i - 1] == keys[..i - 1];
        var v := store.WatchVersion(workspace, args[i]);
        watched := watched[args[i] := v];
      }
      assert keys[..|args| - 1] == keys;
      return OK;
    }

    method HandleUnwatch() returns (r: TxReply)
      modifies this
      ensures r == OK && View() == old(View()).(watched := map[])
    {
      watched := map[];
      return OK;
    }

    /** EXEC's comparison, over the watched keys in arbitrary order. */
    method AnyWatchedChanged(watched0: map<Bytes, nat>) returns (broken: bool)
      requires store.Valid()
      ensures broken <==> exists k :: k in watched0 && Versions.VersionOf(store.db, NsKey(workspace, k)) != watched0[k]
    {
      var rest := watched0.Keys;
      while rest != {}
        invariant rest <= watched0.Keys
        invariant forall k :: k in watched0 && k !in rest ==> Versions.VersionOf(store.db, NsKey(workspace, k)) == watched0[k]
        decreases rest
      {
        var key :| key in rest;
        rest := rest - {key};
        var v := store.WatchVersion(workspace, key);
        if v != watched0[key] { return true; }
      }
      return false;
    }

    ghost predicate Committing(c: Client, db: DB) {
      c.inMulti && !c.multiError && !WatchBroken(c, db)
    }

    method HandleExec() returns (r: TxReply, ghost os: seq<seq<Choice>>)
      requires Ready()
      modifies this, store`db, store`entries, store.entryCount, store.shards, store.entries
      ensures Ready() && fresh(store.entries - old(store.entries))
      ensures !Committing(old(View()), old(store.db)) ==>
        && store.db == old(store.db)
        && View() == (if old(inMulti) then Cleared(old(View())) else old(View()))
        && r == (if !old(inMulti) then ExecWithoutMulti else if old(multiError) then ExecAbort else NullArray)
      ensures Committing(old(View()), old(store.db)) ==>
        var (d, e, rs) := RunQueue(server, Cleared(old(View())), old(store.db), old(queued), os);
        (View(), store.db, r) == (d, e, Array(rs))
      decreases 1, 2
    {
      os := [];
      if !inMulti { return ExecWithoutMulti, []; }
      var queue, multiErr, watches := queued, multiError, watched;
      Clear();
      if multiErr { return ExecAbort, []; }
      var broken := AnyWatchedChanged(watches);
      if broken { return NullArray, []; }
      var replies;
      replies, os := RunQueued(queue);
      r := Array(replies);
    }

    /** One queued command, handled directly. */
    method RunOne(args: seq<Bytes>) returns (r: TxReply, ghost mine: seq<Choice>)
      requires Ready() && !inMulti && Queueable(server, args)
      modifies this, store`db, store`entries, store.entryCount, store.shards, store.entries
      ensures Ready() && fresh(store.entries - old(store.entries))
      ensures (View(), store.db, r) == Tx.Handle(server, old(View()), old(store.db), args, [mine])
      decreases 1, 0
    {
      NoChoicesNeeded(server, View(), store.db, args);
      ghost var o;
      r, o := Handle(args);
      mine := if o == [] then [] else o[0];
    }

    method RunQueued(queue: seq<seq<Bytes>>) returns (replies: seq<TxReply>, ghost os: seq<seq<Choice>>)
      requires Ready() && !inMulti && forall j :: 0 <= j < |queue| ==> Queueable(server, queue[j])
      modifies this, store`db, store`entries, store.entryCount, store.shards, store.entries
      ensures Ready() && fresh(store.entries - old(store.entries))
      ensures (View(), store.db, replies) == RunQueue(server, old(View()), old(store.db), queue, os)
      decreases 1, 1
    {
      ghost var c0, db0 := View(), store.db;
      replies, os := [], [];
      for i := 0 to |queue|
        invariant Ready() && fresh(store.entries - old(store.entries))
        invariant !inMulti && |os| == i
        invariant (View(), store.db, replies) == RunQueue(server, c0, db0, queue[..i], os)
      {
        assert Queueable(server, queue[i]);
        var reply, mine := RunOne(queue[i]);
        RunQueueSnoc(server, c0, db0, queue[..i], os, queue[i], mine);
        assert queue[..i + 1] == queue[..i] + [queue[i]];
        replies := replies + [reply];
        os := os + [mine];
      }
      assert queue[..|queue|] == queue;
    }

    /** An ordinary handler: store commands, each seeing the replies before it. */
    method HandleOther(args: seq<Bytes>) returns (r: TxReply, ghost o: seq<Choice>)
      requires Ready()
      modifies this, store`db, store`entries, store.entryCount, store.shards, store.entries
      ensures Ready() && fresh(store.entries - old(store.entries))
      ensures (View(), store.db, r) == CallOther(server, old(View()), old(store.db), args, o)
    {
      var done: seq<Reply> := [];
      o := [];
      var more := true;
      while more && |done| < server.bound(args)
        invariant Ready() && fresh(store.entries - old(store.entries)) && View() == old(View())
        invariant |o| == |done|
        invariant (store.db, done) == RunHandler(server, args, workspace, old(store.db), [], o)
        decreases more, server.bound(args) - |done|
      {
        var a := server.next(args, workspace, done);
        if a == None {
          more := false;
        } else {
          var now: int := *;
          var reply, victim := store.Perform(a.value, now);
          RunHandlerSnoc(server, args, workspace, old(store.db), [], o, Choice(now, victim));
          done := done + [reply];
          o := o + [Choice(now, victim)];
        }
      }
      var (ws, auth) := server.login(args, workspace, authenticated);
      workspace, authenticated := ws, auth;
      r := Data(server.answer(args, done));
    }

    /** The single entry point for a request. */
    method Handle(args: seq<Bytes>) returns (r: TxReply, ghost os: seq<seq<Choice>>)
      requires Ready()
      modifies this, store`db, store`entries, store.entryCount, store.shards, store.entries
      ensures Ready() && fresh(store.entries - old(store.entries))
      ensures |os| <= 1 || IsExec(server, args)
      ensures (View(), store.db, r) == Tx.Handle(server, old(View()), old(store.db), args, os)
      decreases if IsExec(server, args) then 2 else 0, 1
    {
      os := [];
      var refused := Screen(args);
      if refused.Some? { return refused.value, []; }
      r, os := Dispatch(args);
    }

    /** The handler of a command that nothing speaks against. */
    method Dispatch(args: seq<Bytes>) returns (r: TxReply, ghost os: seq<seq<Choice>>)
      requires Ready() && Refusal(server, View(), args).None?
      modifies this, store`db, store`entries, store.entryCount, store.shards, store.entries
      ensures Ready() && fresh(store.entries - old(store.entries))
      ensures |os| <= 1 || IsExec(server, args)
      ensures (View(), store.db, r) == Tx.Handle(server, old(View()), old(store.db), args, os)
      decreases if IsExec(server, args) then 2 else 0, 0
    {
      os := [];
      match server.Find(args).handler
      case Multi => r := HandleMulti();
      case Discard => r := HandleDiscard();
      case Watch => r := HandleWatch(args);
      case Unwatch => r := HandleUnwatch();
      case Exec => r, os := HandleExec();
      case Other =>
        ghost var o;
        r, o := HandleOther(args);
        os := [o];
    }
  }
}
