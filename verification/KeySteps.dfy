/** Ways a one-key command can act, as equations about the specification: what a
    method must have done to the store when the command's outcome is of a given form. */
module KeySteps {
  import opened Base
  import opened Keyspace
  import opened Numbers
  import opened ValueLoops

  /** The store after the wanted entry has been found or created. */
  function Ensured(db: DB, k: Bytes, kind: Kind, now: int, victim: Option<Bytes>): DB {
    var d := Purge(db, k, now);
    if k in d.data then d
    else
      var v := Evict(d, victim);
      DB(v.data[k := Record(Slot(Empty(kind), None), now, 0)], Bump(v.versions, k, 1))
  }

  /** A stored entry rewritten in place and its version moved. */
  function Rewritten(db: DB, k: Bytes, val: Value, accessed: bool, now: int): DB
    requires k in db.data
  {
    DB(db.data[k := Revalued(db.data[k], val, accessed, now)], Bump(db.versions, k, 1))
  }

  function Revalued(r: Record, val: Value, accessed: bool, now: int): Record {
    if accessed then Record(r.slot.(val := val), now, r.accessCount + 1) else r.(slot := r.slot.(val := val))
  }

  lemma PurgeLeavesLive(db: DB, k: Bytes, now: int)
    ensures Lookup(Purge(db, k, now), k) == Live(db, k, now)
    ensures k in db.data && !db.data[k].slot.Expired(now) ==> Purge(db, k, now) == db
  {}

  lemma UnchangedStep(db: DB, k: Bytes, op: Op, now: int, reply: Reply)
    requires Run(op, Live(db, k, now), now) == Unchanged(reply, Live(db, k, now))
    ensures !Creates(db, k, op, now)
    ensures StepKey(db, k, op, now, None) == (Purge(db, k, now), reply)
  {}

  /** The kind of collection a command adds to. */
  function Wants(op: Op): Option<Kind> {
    match op
    case HSet(_) => Some(HashKind)
    case HIncrBy(_, _) => Some(HashKind)
    case LPush(_) => Some(ListKind)
    case RPush(_) => Some(ListKind)
    case SAdd(_) => Some(SetKind)
    case ZAdd(_) => Some(ZSetKind)
    case ZIncrBy(_, _) => Some(ZSetKind)
    case _ => None
  }

  lemma WrongTypeStep(db: DB, k: Bytes, op: Op, now: int)
    requires Wants(op).Some? && Mismatch(Live(db, k, now), Wants(op).value)
    ensures !Creates(db, k, op, now)
    ensures StepKey(db, k, op, now, None) == (Purge(db, k, now), WrongType)
  {
    UnchangedStep(db, k, op, now, WrongType);
  }

  lemma ZRangeStep(db: DB, k: Bytes, start: int, stop: int, now: int)
    requires Live(db, k, now).Some? && !Mismatch(Live(db, k, now), ZSetKind)
    ensures !Creates(db, k, Op.ZRange(start, stop), now)
    ensures StepKey(db, k, Op.ZRange(start, stop), now, None)
         == (db, Ranked(Between(SortedMembers(Live(db, k, now).value.val.scores), start, stop)))
  {
    UnchangedStep(db, k, Op.ZRange(start, stop), now,
                  Ranked(Between(SortedMembers(Live(db, k, now).value.val.scores), start, stop)));
  }

  lemma AccessStep(db: DB, k: Bytes, op: Op, now: int, reply: Reply)
    requires Live(db, k, now).Some?
    requires Run(op, Live(db, k, now), now) == Outcome(reply, Live(db, k, now), 0, Access)
    ensures !Creates(db, k, op, now)
    ensures StepKey(db, k, op, now, None)
         == (db.(data := db.data[k := Record(db.data[k].slot, now, db.data[k].accessCount + 1)]), reply)
  {}

  lemma GrownApplied(db: DB, k: Bytes, kind: Kind, now: int, victim: Option<Bytes>,
                     reply: Reply, val: Value, accessed: bool)
    requires Live(db, k, now).Some? ==> victim == None
    ensures var d := Ensured(db, k, kind, now, victim);
      k in d.data && Applied(db, k, Grown(reply, Live(db, k, now), val, if accessed then Access else Keep), now, victim)
                     == Rewritten(d, k, val, accessed, now)
  {
    PurgeLeavesLive(db, k, now);
    if Live(db, k, now).None? {
      var v := Evict(Purge(db, k, now), victim);
      BumpTwice(v.versions, k);
      var r := Record(Slot(Empty(kind), None), now, 0);
      assert v.data[k := r][k := Revalued(r, val, accessed, now)] == v.data[k := Revalued(r, val, accessed, now)];
    }
  }

  /** A step is its outcome applied. */
  lemma StepIs(db: DB, k: Bytes, op: Op, now: int, victim: Option<Bytes>, o: Outcome)
    requires Run(op, Live(db, k, now), now) == o
    ensures StepKey(db, k, op, now, victim) == (Applied(db, k, o, now, victim), o.reply)
    ensures Creates(db, k, op, now) <==> Live(db, k, now).None? && o.slot.Some?
  {}

  lemma GrownStep(db: DB, k: Bytes, op: Op, kind: Kind, now: int, victim: Option<Bytes>,
                  reply: Reply, val: Value, accessed: bool)
    requires Live(db, k, now).Some? ==> victim == None
    requires Run(op, Live(db, k, now), now)
          == Grown(reply, Live(db, k, now), val, if accessed then Access else Keep)
    ensures Creates(db, k, op, now) <==> Live(db, k, now).None?
    ensures var d := Ensured(db, k, kind, now, victim);
      k in d.data && StepKey(db, k, op, now, victim) == (Rewritten(d, k, val, accessed, now), reply)
  {
    StepIs(db, k, op, now, victim, Grown(reply, Live(db, k, now), val, if accessed then Access else Keep));
    GrownApplied(db, k, kind, now, victim, reply, val, accessed);
  }

  lemma HSetStep(db: DB, k: Bytes, fields: map<Bytes, Bytes>, now: int, victim: Option<Bytes>, h: map<Bytes, Bytes>, added: int)
    requires Live(db, k, now).Some? ==> victim == None
    requires !Mismatch(Live(db, k, now), HashKind)
    requires var old_ := Current(Live(db, k, now), HashKind).fields;
      h == old_ + fields && added == |fields.Keys - old_.Keys|
    ensures Creates(db, k, Op.HSet(fields), now) <==> Live(db, k, now).None?
    ensures var d := Ensured(db, k, HashKind, now, victim);
      k in d.data && StepKey(db, k, Op.HSet(fields), now, victim) == (Rewritten(d, k, HashValue(h), true, now), Number(added))
  {
    GrownStep(db, k, Op.HSet(fields), HashKind, now, victim, Number(added), HashValue(h), true);
  }

  lemma HIncrByStep(db: DB, k: Bytes, field: Bytes, by_: int, now: int, victim: Option<Bytes>, n: int)
    requires Live(db, k, now).Some? ==> victim == None
    requires !Mismatch(Live(db, k, now), HashKind)
    requires Counted(Current(Live(db, k, now), HashKind).fields, field, by_) == Some(n)
    ensures Creates(db, k, Op.HIncrBy(field, by_), now) <==> Live(db, k, now).None?
    ensures var d, h := Ensured(db, k, HashKind, now, victim), Current(Live(db, k, now), HashKind).fields[field := Itoa(n)];
      k in d.data && StepKey(db, k, Op.HIncrBy(field, by_), now, victim) == (Rewritten(d, k, HashValue(h), true, now), Number(n))
  {
    var h := Current(Live(db, k, now), HashKind).fields[field := Itoa(n)];
    GrownStep(db, k, Op.HIncrBy(field, by_), HashKind, now, victim, Number(n), HashValue(h), true);
  }

  lemma LPushStep(db: DB, k: Bytes, vals: seq<Bytes>, now: int, victim: Option<Bytes>, l: seq<Bytes>)
    requires Live(db, k, now).Some? ==> victim == None
    requires !Mismatch(Live(db, k, now), ListKind)
    requires l == Backwards(vals) + Current(Live(db, k, now), ListKind).items
    ensures Creates(db, k, Op.LPush(vals), now) <==> Live(db, k, now).None?
    ensures var d := Ensured(db, k, ListKind, now, victim);
      k in d.data && StepKey(db, k, Op.LPush(vals), now, victim) == (Rewritten(d, k, ListValue(l), true, now), Number(|l|))
  {
    GrownStep(db, k, Op.LPush(vals), ListKind, now, victim, Number(|l|), ListValue(l), true);
  }

  lemma SAddStep(db: DB, k: Bytes, members: seq<Bytes>, now: int, victim: Option<Bytes>, m: set<Bytes>, added: int)
    requires Live(db, k, now).Some? ==> victim == None
    requires !Mismatch(Live(db, k, now), SetKind)
    requires var old_ := Current(Live(db, k, now), SetKind).members;
      m == old_ + Elements(members) && added == |Elements(members) - old_|
    ensures Creates(db, k, Op.SAdd(members), now) <==> Live(db, k, now).None?
    ensures var d := Ensured(db, k, SetKind, now, victim);
      k in d.data && StepKey(db, k, Op.SAdd(members), now, victim) == (Rewritten(d, k, SetValue(m), true, now), Number(added))
  {
    GrownStep(db, k, Op.SAdd(members), SetKind, now, victim, Number(added), SetValue(m), true);
  }

  lemma ZAddStep(db: DB, k: Bytes, scores: map<Bytes, real>, now: int, victim: Option<Bytes>, z: map<Bytes, real>, added: int)
    requires Live(db, k, now).Some? ==> victim == None
    requires !Mismatch(Live(db, k, now), ZSetKind)
    requires var old_ := Current(Live(db, k, now), ZSetKind).scores;
      z == old_ + scores && added == |scores.Keys - old_.Keys|
    ensures Creates(db, k, Op.ZAdd(scores), now) <==> Live(db, k, now).None?
    ensures var d := Ensured(db, k, ZSetKind, now, victim);
      k in d.data && StepKey(db, k, Op.ZAdd(scores), now, victim) == (Rewritten(d, k, ZSetValue(z), true, now), Number(added))
  {
    GrownStep(db, k, Op.ZAdd(scores), ZSetKind, now, victim, Number(added), ZSetValue(z), true);
  }

  lemma ZIncrByStep(db: DB, k: Bytes, m: Bytes, delta: real, now: int, victim: Option<Bytes>, score: real)
    requires Live(db, k, now).Some? ==> victim == None
    requires !Mismatch(Live(db, k, now), ZSetKind)
    requires var old_ := Current(Live(db, k, now), ZSetKind).scores;
      score == (if m in old_ then old_[m] else 0.0) + delta
    ensures Creates(db, k, Op.ZIncrBy(m, delta), now) <==> Live(db, k, now).None?
    ensures var d, z := Ensured(db, k, ZSetKind, now, victim), Current(Live(db, k, now), ZSetKind).scores[m := score];
      k in d.data && StepKey(db, k, Op.ZIncrBy(m, delta), now, victim) == (Rewritten(d, k, ZSetValue(z), false, now), Score(score))
  {
    var z := Current(Live(db, k, now), ZSetKind).scores[m := score];
    GrownStep(db, k, Op.ZIncrBy(m, delta), ZSetKind, now, victim, Score(score), ZSetValue(z), false);
  }

  lemma ShrunkStep(db: DB, k: Bytes, op: Op, now: int, reply: Reply, val: Value)
    requires Live(db, k, now).Some?
    requires Run(op, Live(db, k, now), now) == Shrunk(reply, Live(db, k, now).value, val)
    ensures !Creates(db, k, op, now)
    ensures StepKey(db, k, op, now, None)
         == (if val.Hollow() then Without(db, k) else Rewritten(db, k, val, false, now), reply)
  {}

  lemma LRemStep(db: DB, k: Bytes, count: int, val: Bytes, now: int, l: seq<Bytes>, removed: int)
    requires Live(db, k, now).Some? && db.data[k].slot.val.ListValue?
    requires l == ListWithout(db.data[k].slot.val.items, count, val)
    requires removed == |db.data[k].slot.val.items| - |l|
    ensures removed >= 0 && !Creates(db, k, Op.LRem(count, val), now)
    ensures StepKey(db, k, Op.LRem(count, val), now, None)
         == (if removed == 0 then db else if l == [] then Without(db, k) else Rewritten(db, k, ListValue(l), false, now),
             Number(removed))
  {
    var op := Op.LRem(count, val);
    ListWithoutAll(db.data[k].slot.val.items, count, val);
    if removed == 0 {
      UnchangedStep(db, k, op, now, Number(0));
    } else {
      ShrunkStep(db, k, op, now, Number(removed), ListValue(l));
    }
  }

  lemma HDelStep(db: DB, k: Bytes, names: seq<Bytes>, now: int, left: map<Bytes, Bytes>, removed: int)
    requires Live(db, k, now).Some? && db.data[k].slot.val.HashValue?
    requires left == db.data[k].slot.val.fields - Elements(names)
    requires removed == |Elements(names) * db.data[k].slot.val.fields.Keys|
    ensures !Creates(db, k, Op.HDel(names), now)
    ensures StepKey(db, k, Op.HDel(names), now, None)
         == (if removed == 0 then db else if left == map[] then Without(db, k) else Rewritten(db, k, HashValue(left), false, now),
             Number(removed))
  {
    if removed == 0 {
      UnchangedStep(db, k, Op.HDel(names), now, Number(0));
    } else {
      ShrunkStep(db, k, Op.HDel(names), now, Number(removed), HashValue(left));
    }
  }

  lemma SRemStep(db: DB, k: Bytes, names: seq<Bytes>, now: int, left: set<Bytes>, removed: int)
    requires Live(db, k, now).Some? && db.data[k].slot.val.SetValue?
    requires left == db.data[k].slot.val.members - Elements(names)
    requires removed == |Elements(names) * db.data[k].slot.val.members|
    ensures !Creates(db, k, Op.SRem(names), now)
    ensures StepKey(db, k, Op.SRem(names), now, None)
         == (if removed == 0 then db else if left == {} then Without(db, k) else Rewritten(db, k, SetValue(left), false, now),
             Number(removed))
  {
    if removed == 0 {
      UnchangedStep(db, k, Op.SRem(names), now, Number(0));
    } else {
      ShrunkStep(db, k, Op.SRem(names), now, Number(removed), SetValue(left));
    }
  }

  lemma ZRemStep(db: DB, k: Bytes, names: seq<Bytes>, now: int, left: map<Bytes, real>, removed: int)
    requires Live(db, k, now).Some? && db.data[k].slot.val.ZSetValue?
    requires left == db.data[k].slot.val.scores - Elements(names)
    requires removed == |Elements(names) * db.data[k].slot.val.scores.Keys|
    ensures !Creates(db, k, Op.ZRem(names), now)
    ensures StepKey(db, k, Op.ZRem(names), now, None)
         == (if removed == 0 then db else if left == map[] then Without(db, k) else Rewritten(db, k, ZSetValue(left), false, now),
             Number(removed))
  {
    if removed == 0 {
      UnchangedStep(db, k, Op.ZRem(names), now, Number(0));
    } else {
      ShrunkStep(db, k, Op.ZRem(names), now, Number(removed), ZSetValue(left));
    }
  }

  lemma OverwriteStep(db: DB, k: Bytes, op: Op, now: int, victim: Option<Bytes>, reply: Reply, slot: Slot)
    requires Live(db, k, now).Some? ==> victim == None
    requires Run(op, Live(db, k, now), now) == Outcome(reply, Some(slot), 1, Fresh)
    ensures Creates(db, k, op, now) <==> Live(db, k, now).None?
    ensures var d := Evict(Purge(db, k, now), victim);
      StepKey(db, k, op, now, victim)
      == (DB(d.data[k := Record(slot, now, 1)], Bump(d.versions, k, 1)), reply)
  {}

  function PlainSet(): Op { Set([], SetOpts(0, false, false, false)) }

  lemma SetNew(db: DB, k: Bytes, now: int)
    requires k !in db.data
    ensures StepKey(db, k, PlainSet(), now, None)
         == (DB(db.data[k := Record(Slot(StringValue([]), None), now, 1)], Bump(db.versions, k, 1)),
             SetDone(true, None))
    ensures Creates(db, k, PlainSet(), now)
  {
    OverwriteStep(db, k, PlainSet(), now, None, SetDone(true, None), Slot(StringValue([]), None));
  }

  lemma DeadlineStep(db: DB, k: Bytes, op: Op, now: int, reply: Reply, deadline: Option<int>)
    requires Live(db, k, now).Some?
    requires Run(op, Live(db, k, now), now)
          == Outcome(reply, Some(Live(db, k, now).value.(deadline := deadline)), 1, Keep)
    ensures !Creates(db, k, op, now)
    ensures StepKey(db, k, op, now, None)
         == (DB(db.data[k := db.data[k].(slot := db.data[k].slot.(deadline := deadline))],
                Bump(db.versions, k, 1)), reply)
  {}

  lemma ExpireStep(db: DB, k: Bytes, ttl: int, now: int)
    requires Live(db, k, now).Some? && ttl > 0
    ensures !Creates(db, k, Op.Expire(ttl), now)
    ensures StepKey(db, k, Op.Expire(ttl), now, None)
         == (DB(db.data[k := db.data[k].(slot := db.data[k].slot.(deadline := Some(now + ttl)))],
                Bump(db.versions, k, 1)), Flag(true))
  {
    DeadlineStep(db, k, Op.Expire(ttl), now, Flag(true), Some(now + ttl));
  }

  lemma RemovalStep(db: DB, k: Bytes, op: Op, now: int, reply: Reply)
    requires Live(db, k, now).Some?
    requires Run(op, Live(db, k, now), now) == Outcome(reply, None, 1, Keep)
    ensures !Creates(db, k, op, now)
    ensures StepKey(db, k, op, now, None) == (Without(db, k), reply)
  {}

  /** An outcome that moves no version leaves the slot as it was. */
  lemma RunMovesVersion(op: Op, cur: Option<Slot>, now: int)
    ensures Run(op, cur, now).slot != cur ==> Run(op, cur, now).bumps > 0
  {}

  lemma AppliedStores(db: DB, k: Bytes, o: Outcome, now: int, victim: Option<Bytes>)
    requires victim != Some(k) && (o.slot != Live(db, k, now) ==> o.bumps > 0)
    ensures var d := Applied(db, k, o, now, victim);
      Lookup(d, k) == o.slot && forall j :: j != k && j in d.data ==> j in db.data && d.data[j] == db.data[j]
  {
    PurgeLeavesLive(db, k, now);
  }

  /** What a one-key command leaves stored: its outcome's slot under its own key,
      and nothing new anywhere else. */
  lemma StepKeyStores(db: DB, k: Bytes, op: Op, now: int, victim: Option<Bytes>)
    requires victim != Some(k)
    ensures var d := StepKey(db, k, op, now, victim).0;
      && Lookup(d, k) == Run(op, Live(db, k, now), now).slot
      && forall j :: j != k && j in d.data ==> j in db.data && d.data[j] == db.data[j]
  {
    RunMovesVersion(op, Live(db, k, now), now);
    AppliedStores(db, k, Run(op, Live(db, k, now), now), now, victim);
  }
}
