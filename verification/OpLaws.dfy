/** What the commands on one key mean, in plain terms and independently of how each is written
    down: what a reader finds afterwards, what the reply counts, and when a command is refused. */
module OpLaws {
  import opened Base
  import opened Keyspace
  import opened KeySteps
  import opened ListLaws
  import opened ValueLoops

  // ------------------------------------------------------------ counting by size

  lemma UnionGrows<T>(a: set<T>, b: set<T>)
    ensures |a + b| - |a| == |b - a|
  {
    assert a + b == a + (b - a);
  }

  lemma DifferenceShrinks<T>(a: set<T>, b: set<T>)
    ensures |a| - |a - b| == |b * a|
  {
    assert a == (a - b) + (b * a);
  }

  /** What was given is there as given, and the rest as it was. */
  ghost predicate Merged<K(!new), V(!new)>(before: map<K, V>, given: map<K, V>, after: map<K, V>) {
    && (forall k :: k in after <==> k in before || k in given)
    && (forall k :: k in after ==> after[k] == if k in given then given[k] else before[k])
  }

  /** What was named is not there, and the rest as it was. */
  ghost predicate Reduced<K(!new), V(!new)>(before: map<K, V>, names: seq<K>, after: map<K, V>) {
    && (forall k :: k in after <==> k in before && k !in names)
    && (forall k :: k in after ==> after[k] == before[k])
  }

  lemma MergeGrows<K(!new), V(!new)>(before: map<K, V>, given: map<K, V>, after: map<K, V>)
    requires after == before + given
    ensures Merged(before, given, after) && |after.Keys| - |before.Keys| == |given.Keys - before.Keys|
  {
    assert after.Keys == before.Keys + given.Keys;
    UnionGrows(before.Keys, given.Keys);
  }

  lemma RemovalShrinks<V(!new)>(before: map<Bytes, V>, names: seq<Bytes>, after: map<Bytes, V>)
    requires after == before - Elements(names)
    ensures Reduced(before, names, after) && |before.Keys| - |after.Keys| == |Elements(names) * before.Keys|
  {
    assert after.Keys == before.Keys - Elements(names);
    DifferenceShrinks(before.Keys, Elements(names));
  }

  lemma NothingRemoved<V>(before: map<Bytes, V>, names: seq<Bytes>)
    requires Elements(names) * before.Keys == {}
    ensures before == before - Elements(names)
  {
    forall k | k in before ensures k !in Elements(names) { assert k !in Elements(names) * before.Keys; }
  }

  // ------------------------------------------------------------------ wrong kind

  /** The kind of value a command works on; none if any will do. */
  function Needs(op: Op): Option<Kind> {
    if op.Get? || (op.Set? && op.opts.getOld) then Some(StringKind)
    else if op.HSet? || op.HGet? || op.HDel? || op.HIncrBy? then Some(HashKind)
    else if op.LPush? || op.RPush? || op.LPop? || op.RPop? || op.LRange? || op.LSet? || op.LRem? then Some(ListKind)
    else if op.SAdd? || op.SRem? then Some(SetKind)
    else if op.ZAdd? || op.ZRem? || op.ZIncrBy? || op.ZRange? || op.ZRank? then Some(ZSetKind)
    else if op.Query? then Some(op.kind)
    else None
  }

  /** Exactly a live value of another kind is refused as such, and stays as it is, version and all. */
  lemma WrongTypeExactlyWhen(op: Op, cur: Option<Slot>, now: int)
    requires op.Query? ==> op.absent != WrongType && forall v :: op.show(v) != WrongType
    ensures var o := Run(op, cur, now);
      && (o.reply == WrongType <==> cur.Some? && Needs(op).Some? && cur.value.val.Kind() != Needs(op).value)
      && (o.reply == WrongType ==> o.slot == cur && o.bumps == 0 && o.touch == Keep)
  {}

  // --------------------------------------------------------------- SET, GET, deadlines

  /** SET goes through exactly if NX finds no key and XX finds one; then the key holds exactly the
      value, for as long as asked, and otherwise everything stays. The old value is told exactly
      under GET. */
  lemma SetExactlyWhen(val: Bytes, opts: SetOpts, cur: Option<Slot>, now: int)
    requires opts.getOld && cur.Some? ==> cur.value.val.StringValue?
    ensures var o := Run(Op.Set(val, opts), cur, now);
      && o.reply.SetDone?
      && (o.reply.done <==> (opts.onlyIfNX ==> cur.None?) && (opts.onlyIfXX ==> cur.Some?))
      && (o.reply.done ==> o.slot.Some? && o.slot.value.val == StringValue(val)
                           && forall t :: o.slot.value.Expired(t) <==> opts.ttl > 0 && now + opts.ttl <= t)
      && (!o.reply.done ==> o.slot == cur && o.bumps == 0)
      && (o.reply.prev.Some? <==> opts.getOld && cur.Some?)
      && (o.reply.prev.Some? ==> o.reply.prev.value.GetOr([]) == cur.value.val.bytes)
  {}

  /** On the store: after a SET that goes through, GET finds the value until the time to live is
      over and nothing from then on. */
  lemma SetThenGet(db: DB, k: Bytes, val: Bytes, opts: SetOpts, now: int, victim: Option<Bytes>, later: int)
    requires !opts.getOld && victim != Some(k)
    requires (opts.onlyIfNX ==> Live(db, k, now).None?) && (opts.onlyIfXX ==> Live(db, k, now).Some?)
    ensures var d := StepKey(db, k, Op.Set(val, opts), now, victim).0;
      StepKey(d, k, Op.Get, later, None).1
      == if opts.ttl > 0 && now + opts.ttl <= later then Nil else Bulk(if val == [] then None else Some(val))
  {
    SetExactlyWhen(val, opts, Live(db, k, now), now);
    StepKeyStores(db, k, Op.Set(val, opts), now, victim);
  }

  /** EXPIRE answers whether the key is there; a positive time to live is then what it has, value
      unchanged, and any other removes it. */
  lemma ExpireMeans(ttl: int, cur: Option<Slot>, now: int)
    ensures var o := Run(Expire(ttl), cur, now);
      && (o.reply == Flag(true) <==> cur.Some?) && (o.reply == Flag(false) <==> cur.None?)
      && (o.slot.Some? <==> cur.Some? && ttl > 0)
      && (o.slot.Some? ==> o.slot.value.val == cur.value.val
                           && forall t :: o.slot.value.Expired(t) <==> now + ttl <= t)
  {}

  /** TTL tells whether the key is there, whether it will ever expire, and if so after how much
      time: it expires at a moment exactly if the remaining time has passed by then. */
  lemma TTLTells(cur: Option<Slot>, now: int)
    requires cur.Some? ==> !cur.value.Expired(now)
    ensures var r := Run(TTL, cur, now).reply;
      && r.Remaining? && (r.exists_ <==> cur.Some?)
      && (r.hasTTL <==> cur.Some? && exists t :: cur.value.Expired(t))
      && (r.hasTTL ==> forall t :: cur.value.Expired(t) <==> now + r.left <= t)
      && Run(TTL, cur, now).slot == cur
  {
    if cur.Some? && cur.value.deadline.Some? { assert cur.value.Expired(cur.value.deadline.value); }
  }

  /** PERSIST answers whether there was a deadline to drop; afterwards the value never expires. */
  lemma PersistMeans(cur: Option<Slot>, now: int)
    ensures var o := Run(Persist, cur, now);
      && (o.reply == Flag(true) <==> cur.Some? && exists t :: cur.value.Expired(t))
      && (o.reply == Flag(true) || o.reply == Flag(false))
      && (o.slot.Some? <==> cur.Some?)
      && (cur.Some? ==> o.slot.value.val == cur.value.val && forall t :: !o.slot.value.Expired(t))
  {
    if cur.Some? && cur.value.deadline.Some? { assert cur.value.Expired(cur.value.deadline.value); }
  }

  /** GET and the other accessors show the value and leave it. */
  lemma GetMeans(cur: Option<Slot>, now: int)
    ensures var o := Run(Get, cur, now);
      && o.slot == cur && o.bumps == 0
      && (o.reply == Nil <==> cur.None?)
      && (cur.Some? && cur.value.val.StringValue? ==>
            o.reply.Bulk? && o.reply.slice.GetOr([]) == cur.value.val.bytes)
  {}

  lemma QueryMeans(kind: Kind, show: Value -> Reply, absent: Reply, cur: Option<Slot>, now: int)
    ensures var o := Run(Query(kind, show, absent), cur, now);
      && o.slot == cur && o.bumps == 0
      && (cur.None? ==> o.reply == absent)
      && (cur.Some? && cur.value.val.Kind() == kind ==> o.reply == show(cur.value.val))
  {}

  // ---------------------------------------------------------------------- hashes

  function FieldsOf(cur: Option<Slot>): map<Bytes, Bytes>
    requires cur.Some? ==> cur.value.val.HashValue?
  {
    if cur.Some? then cur.value.val.fields else map[]
  }

  /** HSET: a field that was given has the new value, any other the one it had; the reply is by how
      many fields the hash has grown. */
  lemma HSetMeans(fields: map<Bytes, Bytes>, cur: Option<Slot>, now: int)
    requires cur.Some? ==> cur.value.val.HashValue?
    ensures var o := Run(HSet(fields), cur, now);
      && o.slot.Some? && o.slot.value.val.HashValue?
      && o.slot.value.deadline == (if cur.Some? then cur.value.deadline else None)
      && Merged(FieldsOf(cur), fields, FieldsOf(o.slot))
      && o.reply == Number(|FieldsOf(o.slot).Keys| - |FieldsOf(cur).Keys|)
  {
    HSetLeaves(fields, cur, now);
    MergeGrows(FieldsOf(cur), fields, FieldsOf(cur) + fields);
  }

  /** So HGET finds the new value where there is one. */
  lemma HSetThenHGet(fields: map<Bytes, Bytes>, cur: Option<Slot>, now: int, f: Bytes)
    requires cur.Some? ==> cur.value.val.HashValue?
    ensures var o := Run(HSet(fields), cur, now);
      Run(HGet(f), o.slot, now).reply
      == if f in fields then Bulk(if fields[f] == [] then None else Some(fields[f])) else Run(HGet(f), cur, now).reply
  {
    HSetLeaves(fields, cur, now);
    HGetReply(f, Run(HSet(fields), cur, now).slot, now);
    HGetReply(f, cur, now);
  }

  lemma HSetLeaves(fields: map<Bytes, Bytes>, cur: Option<Slot>, now: int)
    requires cur.Some? ==> cur.value.val.HashValue?
    ensures var o := Run(HSet(fields), cur, now);
      && o.slot == Some(Slot(HashValue(FieldsOf(cur) + fields), if cur.Some? then cur.value.deadline else None))
      && o.reply == Number(|fields.Keys - FieldsOf(cur).Keys|)
  {
    HSetGrows(fields, cur);
  }

  lemma HSetGrows(fields: map<Bytes, Bytes>, cur: Option<Slot>)
    requires cur.Some? ==> cur.value.val.HashValue?
    ensures RunHSet(fields, cur)
         == Grown(Number(|fields.Keys - FieldsOf(cur).Keys|), cur, HashValue(FieldsOf(cur) + fields), Access)
  {}

  lemma HGetReply(f: Bytes, cur: Option<Slot>, now: int)
    requires cur.Some? ==> cur.value.val.HashValue?
    ensures Run(HGet(f), cur, now).reply
         == if f !in FieldsOf(cur) then Nil else Bulk(if FieldsOf(cur)[f] == [] then None else Some(FieldsOf(cur)[f]))
  {}

  /** HGET shows the field if it is there. */
  lemma HGetMeans(f: Bytes, cur: Option<Slot>, now: int)
    requires cur.Some? ==> cur.value.val.HashValue?
    ensures var o := Run(HGet(f), cur, now);
      && o.slot == cur && o.bumps == 0
      && (o.reply == Nil <==> f !in FieldsOf(cur))
      && (f in FieldsOf(cur) ==> o.reply.Bulk? && o.reply.slice.GetOr([]) == FieldsOf(cur)[f])
  {}

  /** HDEL: exactly the named fields are gone, the reply is by how many the hash has shrunk, and the
      key is gone exactly with its last field. */
  lemma HDelMeans(names: seq<Bytes>, cur: Slot, now: int)
    requires cur.val.HashValue? && cur.val.fields != map[]
    ensures var o := Run(HDel(names), Some(cur), now);
      && (o.slot.Some? ==> o.slot.value.val.HashValue? && o.slot.value.deadline == cur.deadline)
      && Reduced(cur.val.fields, names, FieldsOf(o.slot))
      && (o.slot.None? <==> FieldsOf(o.slot) == map[])
      && o.reply == Number(|cur.val.fields.Keys| - |FieldsOf(o.slot).Keys|)
  {
    HDelLeaves(names, cur);
    RemovalShrinks(cur.val.fields, names, cur.val.fields - Elements(names));
  }

  lemma HDelLeaves(names: seq<Bytes>, cur: Slot)
    requires cur.val.HashValue? && cur.val.fields != map[]
    ensures var o, left := RunHDel(names, Some(cur)), cur.val.fields - Elements(names);
      && o.slot == (if left == map[] then None else Some(Slot(HashValue(left), cur.deadline)))
      && o.reply == Number(|Elements(names) * cur.val.fields.Keys|)
  {
    if Elements(names) * cur.val.fields.Keys == {} { NothingRemoved(cur.val.fields, names); }
  }

  /** HINCRBY leaves the other fields alone. */
  lemma HIncrByElsewhere(field: Bytes, by_: int, cur: Option<Slot>, now: int, f: Bytes)
    requires (cur.Some? ==> cur.value.val.HashValue?) && f != field
    ensures Run(HGet(f), Run(HIncrBy(field, by_), cur, now).slot, now).reply == Run(HGet(f), cur, now).reply
  {}

  // ----------------------------------------------------------------------- lists

  function ItemsOf(cur: Option<Slot>): seq<Bytes>
    requires cur.Some? ==> cur.value.val.ListValue?
  {
    if cur.Some? then cur.value.val.items else []
  }

  lemma {:induction false} BackwardsAt(s: seq<Bytes>, i: nat)
    requires i < |s|
    ensures |Backwards(s)| == |s| && Backwards(s)[|s| - 1 - i] == s[i]
  {
    if i > 0 { BackwardsAt(s[1..], i - 1); } else if |s| > 1 { BackwardsAt(s[1..], 0); }
  }

  lemma BackwardsLength(s: seq<Bytes>)
    ensures |Backwards(s)| == |s|
  {
    if s != [] { BackwardsAt(s, 0); }
  }

  /** LPUSH: the list has grown at the head by the values, the last one first; RPUSH: at the tail,
      in order. The reply is the new length. */
  lemma PushMeans(vals: seq<Bytes>, cur: Option<Slot>, now: int)
    requires cur.Some? ==> cur.value.val.ListValue?
    ensures var o := Run(LPush(vals), cur, now);
      && o.slot.Some? && o.slot.value.val.ListValue?
      && o.slot.value.deadline == (if cur.Some? then cur.value.deadline else None)
      && o.reply == Number(|ItemsOf(cur)| + |vals|) && |ItemsOf(o.slot)| == |ItemsOf(cur)| + |vals|
      && (forall i :: 0 <= i < |vals| ==> ItemsOf(o.slot)[|vals| - 1 - i] == vals[i])
      && ItemsOf(o.slot)[|vals|..] == ItemsOf(cur)
    ensures var o := Run(RPush(vals), cur, now);
      && o.slot.Some? && o.slot.value.val.ListValue?
      && o.slot.value.deadline == (if cur.Some? then cur.value.deadline else None)
      && o.reply == Number(|ItemsOf(cur)| + |vals|) && |ItemsOf(o.slot)| == |ItemsOf(cur)| + |vals|
      && ItemsOf(o.slot)[..|ItemsOf(cur)|] == ItemsOf(cur) && ItemsOf(o.slot)[|ItemsOf(cur)|..] == vals
  {
    BackwardsLength(vals);
    forall i | 0 <= i < |vals| ensures Backwards(vals)[|vals| - 1 - i] == vals[i] { BackwardsAt(vals, i); }
  }

  /** LPOP takes the first element, RPOP the last; an absent key answers nothing, and the key goes
      with its last element. */
  lemma PopMeans(cur: Option<Slot>, now: int)
    requires cur.Some? ==> cur.value.val.ListValue? && cur.value.val.items != []
    ensures var o := Run(LPop, cur, now);
      && (o.reply == Nil <==> cur.None?) && (o.slot.None? <==> |ItemsOf(cur)| <= 1)
      && (o.slot.Some? ==> o.slot.value.val.ListValue? && o.slot.value.deadline == cur.value.deadline)
      && (cur.Some? ==> o.reply.Bulk? && [o.reply.slice.GetOr([])] + ItemsOf(o.slot) == ItemsOf(cur))
    ensures var o := Run(RPop, cur, now);
      && (o.reply == Nil <==> cur.None?) && (o.slot.None? <==> |ItemsOf(cur)| <= 1)
      && (o.slot.Some? ==> o.slot.value.val.ListValue? && o.slot.value.deadline == cur.value.deadline)
      && (cur.Some? ==> o.reply.Bulk? && ItemsOf(o.slot) + [o.reply.slice.GetOr([])] == ItemsOf(cur))
  {}

  /** LSET replaces the element at the position, counted from the end when negative, and no other;
      it is refused exactly for an absent key and for a position outside the list. */
  lemma LSetMeans(index: int, val: Bytes, cur: Option<Slot>, now: int)
    requires cur.Some? ==> cur.value.val.ListValue?
    ensures var o := Run(LSet(index, val), cur, now);
      var n := |ItemsOf(cur)|;
      && (o.reply == NoSuchKey <==> cur.None?)
      && (o.reply == OutOfRange <==> cur.Some? && !(-n <= index < n))
      && (o.reply != Flag(true) ==> o.slot == cur && o.bumps == 0)
      && (o.reply == Flag(true) <==> cur.Some? && -n <= index < n)
      && (o.reply == Flag(true) ==>
            && o.slot.Some? && o.slot.value.val.ListValue? && o.slot.value.deadline == cur.value.deadline
            && |ItemsOf(o.slot)| == n
            && forall i :: 0 <= i < n ==>
                 ItemsOf(o.slot)[i] == if i == index || i == n + index then val else ItemsOf(cur)[i])
  {}

  /** LRANGE hands out the elements at the positions from the one index to the other. */
  lemma LRangeMeans(start: int, stop: int, cur: Option<Slot>, now: int)
    requires cur.Some? ==> cur.value.val.ListValue?
    ensures var o, l := Run(LRange(start, stop), cur, now), ItemsOf(cur);
      var window := At(l, if start < 0 then |l| + start else start, if stop < 0 then |l| + stop else stop);
      && o.slot == cur && o.bumps == 0
      && o.reply.Slices? && |o.reply.slices| == |window|
      && forall j :: 0 <= j < |window| ==> o.reply.slices[j].GetOr([]) == window[j]
  {
    WindowIsPositions(ItemsOf(cur), start, stop);
  }

  /** LREM answers by how many elements the list has shrunk. */
  lemma LRemCounts(count: int, val: Bytes, cur: Option<Slot>, now: int)
    requires cur.Some? ==> cur.value.val.ListValue? && cur.value.val.items != []
    ensures var o := Run(LRem(count, val), cur, now);
      && (o.slot.Some? ==> o.slot.value.val.ListValue? && o.slot.value.deadline == cur.value.deadline)
      && ItemsOf(o.slot) == ListWithout(ItemsOf(cur), count, val)
      && o.reply == Number(|ItemsOf(cur)| - |ItemsOf(o.slot)|)
  {
    if cur.Some? { ListWithoutAll(ItemsOf(cur), count, val); }
  }

  // ------------------------------------------------------------------------ sets

  function MembersOf(cur: Option<Slot>): set<Bytes>
    requires cur.Some? ==> cur.value.val.SetValue?
  {
    if cur.Some? then cur.value.val.members else {}
  }

  /** SADD: the members given are in it besides the old ones; the reply is by how many it has grown. */
  lemma SAddMeans(members: seq<Bytes>, cur: Option<Slot>, now: int)
    requires cur.Some? ==> cur.value.val.SetValue?
    ensures var o := Run(SAdd(members), cur, now);
      && o.slot.Some? && o.slot.value.val.SetValue?
      && o.slot.value.deadline == (if cur.Some? then cur.value.deadline else None)
      && (forall m :: m in MembersOf(o.slot) <==> m in MembersOf(cur) || m in members)
      && o.reply == Number(|MembersOf(o.slot)| - |MembersOf(cur)|)
  {
    SAddGrows(members, cur);
    UnionGrows(MembersOf(cur), Elements(members));
  }

  lemma SAddGrows(members: seq<Bytes>, cur: Option<Slot>)
    requires cur.Some? ==> cur.value.val.SetValue?
    ensures RunSAdd(members, cur)
         == Grown(Number(|Elements(members) - MembersOf(cur)|), cur, SetValue(MembersOf(cur) + Elements(members)), Access)
  {}

  /** SREM: exactly the members given are gone, the reply is by how many it has shrunk, and the key
      is gone exactly with its last member. */
  lemma SRemMeans(members: seq<Bytes>, cur: Slot, now: int)
    requires cur.val.SetValue? && cur.val.members != {}
    ensures var o := Run(SRem(members), Some(cur), now);
      && (o.slot.Some? ==> o.slot.value.val.SetValue? && o.slot.value.deadline == cur.deadline)
      && (forall m :: m in MembersOf(o.slot) <==> m in cur.val.members && m !in members)
      && (o.slot.None? <==> MembersOf(o.slot) == {})
      && o.reply == Number(|cur.val.members| - |MembersOf(o.slot)|)
  {
    DifferenceShrinks(cur.val.members, Elements(members));
    if Elements(members) * cur.val.members == {} {
      forall m | m in cur.val.members ensures m !in members { assert m !in Elements(members) * cur.val.members; }
    }
  }

  // ----------------------------------------------------------------- sorted sets

  function ScoresOf(cur: Option<Slot>): map<Bytes, real>
    requires cur.Some? ==> cur.value.val.ZSetValue?
  {
    if cur.Some? then cur.value.val.scores else map[]
  }

  /** ZADD: a member given has the score given, any other the one it had; the reply is by how many
      members the set has grown. */
  lemma ZAddMeans(scores: map<Bytes, real>, cur: Option<Slot>, now: int)
    requires cur.Some? ==> cur.value.val.ZSetValue?
    ensures var o := Run(ZAdd(scores), cur, now);
      && o.slot.Some? && o.slot.value.val.ZSetValue?
      && o.slot.value.deadline == (if cur.Some? then cur.value.deadline else None)
      && Merged(ScoresOf(cur), scores, ScoresOf(o.slot))
      && o.reply == Number(|ScoresOf(o.slot).Keys| - |ScoresOf(cur).Keys|)
  {
    ZAddLeaves(scores, cur, now);
    MergeGrows(ScoresOf(cur), scores, ScoresOf(cur) + scores);
  }

  lemma ZAddLeaves(scores: map<Bytes, real>, cur: Option<Slot>, now: int)
    requires cur.Some? ==> cur.value.val.ZSetValue?
    ensures var o := Run(ZAdd(scores), cur, now);
      && o.slot == Some(Slot(ZSetValue(ScoresOf(cur) + scores), if cur.Some? then cur.value.deadline else None))
      && o.reply == Number(|scores.Keys - ScoresOf(cur).Keys|)
  {
    ZAddGrows(scores, cur);
  }

  lemma ZAddGrows(scores: map<Bytes, real>, cur: Option<Slot>)
    requires cur.Some? ==> cur.value.val.ZSetValue?
    ensures RunZAdd(scores, cur)
         == Grown(Number(|scores.Keys - ScoresOf(cur).Keys|), cur, ZSetValue(ScoresOf(cur) + scores), Access)
  {}

  /** ZREM: exactly the members given are gone. */
  lemma ZRemMeans(names: seq<Bytes>, cur: Slot, now: int)
    requires cur.val.ZSetValue? && cur.val.scores != map[]
    ensures var o := Run(ZRem(names), Some(cur), now);
      && (o.slot.Some? ==> o.slot.value.val.ZSetValue? && o.slot.value.deadline == cur.deadline)
      && Reduced(cur.val.scores, names, ScoresOf(o.slot))
      && (o.slot.None? <==> ScoresOf(o.slot) == map[])
      && o.reply == Number(|cur.val.scores.Keys| - |ScoresOf(o.slot).Keys|)
  {
    ZRemLeaves(names, cur);
    RemovalShrinks(cur.val.scores, names, cur.val.scores - Elements(names));
  }

  lemma ZRemLeaves(names: seq<Bytes>, cur: Slot)
    requires cur.val.ZSetValue? && cur.val.scores != map[]
    ensures var o, left := RunZRem(names, Some(cur)), cur.val.scores - Elements(names);
      && o.slot == (if left == map[] then None else Some(Slot(ZSetValue(left), cur.deadline)))
      && o.reply == Number(|Elements(names) * cur.val.scores.Keys|)
  {
    if Elements(names) * cur.val.scores.Keys == {} { NothingRemoved(cur.val.scores, names); }
  }

  /** ZINCRBY: the member has its old score, or 0, plus the amount, which is also the reply. */
  lemma ZIncrByMeans(member: Bytes, delta: real, cur: Option<Slot>, now: int)
    requires cur.Some? ==> cur.value.val.ZSetValue?
    ensures var o := Run(ZIncrBy(member, delta), cur, now);
      && o.slot.Some? && o.slot.value.val.ZSetValue?
      && o.slot.value.deadline == (if cur.Some? then cur.value.deadline else None)
      && ScoresOf(o.slot).Keys == ScoresOf(cur).Keys + {member}
      && ScoresOf(o.slot)[member] == (if member in ScoresOf(cur) then ScoresOf(cur)[member] else 0.0) + delta
      && (forall m :: m in ScoresOf(cur) && m != member ==> ScoresOf(o.slot)[m] == ScoresOf(cur)[m])
      && o.reply == Score(ScoresOf(o.slot)[member])
  {}
}
