/** What becomes of a request, told from the command table and the connection alone, and
    what a connection that has not logged in can do. */
module Requests {
  import opened Base
  import opened Keyspace
  import opened Versions
  import opened Tx

  /** The request asks for this command, in whatever case it is spelled. */
  ghost predicate Names(s: Server, args: seq<Bytes>, cmd: Command) {
    args != [] && s.upper(args[0]) in s.commands && s.commands[s.upper(args[0])] == cmd
  }

  ghost predicate MayUse(s: Server, c: Client, cmd: Command) {
    s.authRequired ==> c.authenticated || cmd.allowedNoAuth
  }

  ghost predicate CountFits(cmd: Command, n: nat) {
    cmd.minArgs <= n && (0 <= cmd.maxArgs ==> n <= cmd.maxArgs)
  }

  /** Nothing keeps the request from its handler. */
  ghost predicate GetsThrough(s: Server, c: Client, args: seq<Bytes>, cmd: Command) {
    Names(s, args, cmd) && MayUse(s, c, cmd) && CountFits(cmd, |args|) && (c.inMulti ==> cmd.noQueue)
  }

  // --------------------------------------------------------- turned away, or not

  lemma EmptyRequest(s: Server, c: Client, db: DB, os: seq<seq<Choice>>)
    requires s.WellFormed() && QueueOK(s, c)
    ensures Handle(s, c, db, [], os) == (c, db, NoReply)
  {}

  /** Exactly the names that are not registered are unknown, and inside a transaction they spoil it. */
  lemma UnknownExactlyWhen(s: Server, c: Client, db: DB, args: seq<Bytes>, os: seq<seq<Choice>>)
    requires s.WellFormed() && QueueOK(s, c)
    ensures var (d, e, r) := Handle(s, c, db, args, os);
      && (r == UnknownCommand <==> args != [] && s.upper(args[0]) !in s.commands)
      && (r == UnknownCommand ==> e == db && d == if c.inMulti then c.(multiError := true) else c)
  {}

  /** A request is turned away for want of a login exactly when one is required and missing and
      the command is not open to everybody; then nothing happens at all. */
  lemma TurnedAwayExactlyWhen(s: Server, c: Client, db: DB, args: seq<Bytes>, os: seq<seq<Choice>>)
    requires s.WellFormed() && QueueOK(s, c)
    ensures var h := Handle(s, c, db, args, os);
      && (h.2 == NoAuth <==>
            s.authRequired && !c.authenticated && exists cmd :: Names(s, args, cmd) && !cmd.allowedNoAuth)
      && (h.2 == NoAuth ==> h == (c, db, NoAuth))
  {
    if args != [] && s.upper(args[0]) in s.commands { assert Names(s, args, s.commands[s.upper(args[0])]); }
  }

  /** Among the requests not turned away exactly those with too few or too many arguments are
      refused for their number, and one that would have been queued spoils the transaction. */
  lemma MiscountedExactlyWhen(s: Server, c: Client, db: DB, args: seq<Bytes>, os: seq<seq<Choice>>, cmd: Command)
    requires s.WellFormed() && QueueOK(s, c) && Names(s, args, cmd) && MayUse(s, c, cmd)
    ensures var (d, e, r) := Handle(s, c, db, args, os);
      && (r == WrongNumberOfArgs <==> !CountFits(cmd, |args|))
      && (r == WrongNumberOfArgs ==> e == db && d == if c.inMulti && !cmd.noQueue then c.(multiError := true) else c)
  {}

  /** Of the rest exactly those in an open transaction that can be queued are queued, last. */
  lemma QueuedExactlyWhen(s: Server, c: Client, db: DB, args: seq<Bytes>, os: seq<seq<Choice>>, cmd: Command)
    requires s.WellFormed() && QueueOK(s, c) && Names(s, args, cmd) && MayUse(s, c, cmd) && CountFits(cmd, |args|)
    ensures var (d, e, r) := Handle(s, c, db, args, os);
      && (r == Queued <==> c.inMulti && !cmd.noQueue)
      && (r == Queued ==> e == db && d == c.(queued := c.queued + [args]))
  {}

  // ------------------------------------------------------ the transaction commands

  /** MULTI, DISCARD, WATCH and UNWATCH never touch the store. */
  lemma BracketsLeaveStore(s: Server, c: Client, db: DB, args: seq<Bytes>, os: seq<seq<Choice>>, cmd: Command)
    requires s.WellFormed() && QueueOK(s, c) && Names(s, args, cmd)
    requires cmd.handler == Multi || cmd.handler == Discard || cmd.handler == Watch || cmd.handler == Unwatch
    ensures Handle(s, c, db, args, os).1 == db
  {}

  /** MULTI opens a transaction with nothing in it, DISCARD throws an open one away. */
  lemma MultiAndDiscard(s: Server, c: Client, db: DB, args: seq<Bytes>, os: seq<seq<Choice>>, cmd: Command)
    requires s.WellFormed() && QueueOK(s, c) && GetsThrough(s, c, args, cmd)
    ensures var (d, e, r) := Handle(s, c, db, args, os);
      && (cmd.handler == Multi ==>
            && (r == OK <==> !c.inMulti)
            && (r == OK ==> d.inMulti && !d.multiError && d.queued == [] && d.watched == c.watched)
            && (r != OK ==> r == NestedMulti && d == c))
      && (cmd.handler == Discard ==>
            && (r == OK <==> c.inMulti)
            && (r == OK ==> !d.inMulti && !d.multiError && d.queued == [] && d.watched == map[])
            && (r != OK ==> r == DiscardWithoutMulti && d == c))
  {}

  /** WATCH records the present version of every key it names and forgets no other; UNWATCH
      forgets them all. */
  lemma WatchAndUnwatch(s: Server, c: Client, db: DB, args: seq<Bytes>, os: seq<seq<Choice>>, cmd: Command, key: Bytes)
    requires s.WellFormed() && QueueOK(s, c) && GetsThrough(s, c, args, cmd)
    ensures var (d, e, r) := Handle(s, c, db, args, os);
      && (cmd.handler == Watch ==>
            && (r == OK <==> !c.inMulti)
            && (r == OK ==> if key in args[1..] then key in d.watched && d.watched[key] == VersionOf(db, NsKey(c.workspace, key))
                            else (key in d.watched <==> key in c.watched) && (key in c.watched ==> d.watched[key] == c.watched[key]))
            && (r != OK ==> r == WatchInsideMulti && d == c))
      && (cmd.handler == Unwatch ==> r == OK && d == c.(watched := map[]))
  {
    if cmd.handler == Watch { WatchAllRecords(c.watched, db, c.workspace, args[1..], key); }
  }

  /** EXEC: outside a transaction an error; otherwise the transaction is over, and the queue has
      run, been given up for an earlier error, or been given up for a changed watched key. */
  lemma ExecExactlyWhen(s: Server, c: Client, db: DB, args: seq<Bytes>, os: seq<seq<Choice>>, cmd: Command)
    requires s.WellFormed() && QueueOK(s, c) && GetsThrough(s, c, args, cmd) && cmd.handler == Exec
    ensures var (d, e, r) := Handle(s, c, db, args, os);
      var changed := exists k :: k in c.watched && VersionOf(db, NsKey(c.workspace, k)) != c.watched[k];
      && (r == ExecWithoutMulti <==> !c.inMulti)
      && (r == ExecAbort <==> c.inMulti && c.multiError)
      && (r == NullArray <==> c.inMulti && !c.multiError && changed)
      && (r.Array? <==> c.inMulti && !c.multiError && !changed)
      && (r.Array? ==> |r.replies| == |c.queued|)
      && (c.inMulti ==> !d.inMulti && !d.multiError && d.queued == [] && d.watched == map[])
      && (!r.Array? ==> e == db)
  {}

  // ---------------------------------------------------------- ordinary handlers

  ghost predicate Issues(s: Server, args: seq<Bytes>, ws: Bytes, before: DB, done: seq<Reply>, c: Choice, after: DB, r: Reply) {
    var a := s.next(args, ws, done);
    a.Some? && (after, r) == Step(before, a.value, c.now, c.victim)
  }

  /** The stores and the replies of a handler at work: each command is chosen from the replies before
      it and finds the store that the one before it left. */
  ghost predicate Works(s: Server, args: seq<Bytes>, ws: Bytes, dbs: seq<DB>, done: seq<Reply>, o: seq<Choice>) {
    |dbs| == |done| + 1 && |done| <= |o|
    && forall i :: 0 <= i < |done| ==> Issues(s, args, ws, dbs[i], done[..i], o[i], dbs[i + 1], done[i])
  }

  lemma {:induction false} HandlerWorks(s: Server, args: seq<Bytes>, ws: Bytes, dbs: seq<DB>, done: seq<Reply>, o: seq<Choice>)
    returns (dbs': seq<DB>, done': seq<Reply>)
    requires Works(s, args, ws, dbs, done, o)
    ensures Works(s, args, ws, dbs', done', o) && done <= done' && dbs <= dbs'
    ensures RunHandler(s, args, ws, dbs[|done|], done, o[|done|..]) == (dbs'[|done'|], done')
    ensures |done'| == |o| || s.next(args, ws, done').None?
    decreases |o| - |done|
  {
    dbs', done' := dbs, done;
    var a := s.next(args, ws, done);
    if |done| < |o| && a.Some? {
      var (d, r) := Step(dbs[|done|], a.value, o[|done|].now, o[|done|].victim);
      OneMoreCommand(s, args, ws, dbs, done, o, d, r);
      assert o[|done|..][1..] == o[|done| + 1..];
      dbs', done' := HandlerWorks(s, args, ws, dbs + [d], done + [r], o);
    }
  }

  lemma OneMoreCommand(s: Server, args: seq<Bytes>, ws: Bytes, dbs: seq<DB>, done: seq<Reply>, o: seq<Choice>, d: DB, r: Reply)
    requires Works(s, args, ws, dbs, done, o) && |done| < |o|
    requires Issues(s, args, ws, dbs[|done|], done, o[|done|], d, r)
    ensures Works(s, args, ws, dbs + [d], done + [r], o)
  {
    forall i | 0 <= i < |done| + 1
      ensures Issues(s, args, ws, (dbs + [d])[i], (done + [r])[..i], o[i], (dbs + [d])[i + 1], (done + [r])[i])
    {
      assert (done + [r])[..i] == done[..i] && done[..|done|] == done;
      if i < |done| { assert Issues(s, args, ws, dbs[i], done[..i], o[i], dbs[i + 1], done[i]); }
    }
  }

  /** An ordinary command that gets through: its handler issues its store commands one after another
      and its reply is made from theirs; the transaction state stays, and the login is the handler's. */
  lemma OrdinaryCommandWorks(s: Server, c: Client, db: DB, args: seq<Bytes>, o: seq<Choice>, cmd: Command)
    returns (dbs: seq<DB>, done: seq<Reply>)
    requires s.WellFormed() && QueueOK(s, c) && GetsThrough(s, c, args, cmd) && cmd.handler == Other
    ensures Works(s, args, c.workspace, dbs, done, o) && dbs[0] == db
    ensures |done| == |o| || s.next(args, c.workspace, done).None?
    ensures var (ws, auth) := s.login(args, c.workspace, c.authenticated);
      Handle(s, c, db, args, [o]) == (c.(workspace := ws, authenticated := auth), dbs[|done|], Data(s.answer(args, done)))
  {
    dbs, done := HandlerWorks(s, args, c.workspace, [db], [], o);
    assert o[0..] == o;
    assert Handle(s, c, db, args, [o]) == CallOther(s, c, db, args, o);
  }

  // ------------------------------------------------------------ before the login

  /** The request is for a command open to everybody. */
  ghost predicate Open(s: Server, args: seq<Bytes>) {
    exists cmd :: Names(s, args, cmd) && cmd.allowedNoAuth
  }

  /** Without a login every other request leaves the store and the login as they are. */
  lemma ClosedToStrangers(s: Server, c: Client, db: DB, args: seq<Bytes>, os: seq<seq<Choice>>)
    requires s.WellFormed() && QueueOK(s, c) && s.authRequired && !c.authenticated && !Open(s, args)
    ensures var (d, e, r) := Handle(s, c, db, args, os);
      e == db && !d.authenticated && d.workspace == c.workspace && r in {NoReply, UnknownCommand, NoAuth}
  {
    if args == [] {
      EmptyRequest(s, c, db, os);
    } else {
      UnknownExactlyWhen(s, c, db, args, os);
      TurnedAwayExactlyWhen(s, c, db, args, os);
      if s.upper(args[0]) in s.commands {
        var cmd := s.commands[s.upper(args[0])];
        assert Names(s, args, cmd) && !cmd.allowedNoAuth;
      }
    }
  }

  ghost predicate Stranger(s: Server, y: System, id: nat) {
    s.authRequired && id in y.clients && !y.clients[id].authenticated
  }

  /** Over every run, a connection that is not logged in moves the store only by commands that
      are open to everybody. */
  lemma StrangersMoveNothing(s: Server, ys: seq<System>, es: seq<Event>, i: nat)
    requires Tx.Run(s, ys, es) && i < |es| && es[i].Request? && Stranger(s, ys[i], es[i].id)
    ensures ys[i + 1].db != ys[i].db ==> Open(s, es[i].args)
  {
    assert ys[i + 1] == Advance(s, ys[i], es[i]);
    if !Open(s, es[i].args) { ClosedToStrangers(s, ys[i].clients[es[i].id], ys[i].db, es[i].args, es[i].os); }
  }

  /** A connection that ends up logged in has sent such a command on the way. */
  lemma {:induction false} LoginIsThroughTheDoor(s: Server, ys: seq<System>, es: seq<Event>, id: nat, i: nat, j: nat)
    requires Tx.Run(s, ys, es) && i <= j <= |es| && Stranger(s, ys[i], id)
    ensures id in ys[j].clients
    ensures ys[j].clients[id].authenticated ==>
              exists m :: i <= m < j && es[m].Request? && es[m].id == id && Open(s, es[m].args)
    decreases j
  {
    if i < j {
      LoginIsThroughTheDoor(s, ys, es, id, i, j - 1);
      assert ys[j - 1 + 1] == Advance(s, ys[j - 1], es[j - 1]);
      if es[j - 1].Request? && es[j - 1].id == id && !ys[j - 1].clients[id].authenticated && !Open(s, es[j - 1].args) {
        ClosedToStrangers(s, ys[j - 1].clients[id], ys[j - 1].db, es[j - 1].args, es[j - 1].os);
      }
    }
  }
}
