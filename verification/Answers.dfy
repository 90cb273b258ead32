/** From what the store hands out to the bytes a client reads: GET, HGET, the pops and SET
    with GET. A stored empty string is handed out as a nil slice, and nil is written as the
    null bulk string, which is also how an absent one is answered. */
module Answers {
  import opened Base
  import opened Numbers
  import opened Keyspace
  import R = Resp
  import opened KeySteps
  import F = FlatMap

  /** The handlers of GET, HGET, LPOP and RPOP. */
  function ValueReply(r: Reply, wrongType: Bytes): R.Reply {
    match r
    case Bulk(slice) => R.Bulk(slice)
    case Nil => R.Bulk(None)
    case _ => R.Error(wrongType)
  }

  /** The handler of SET. */
  function SetReply(r: Reply, getOld: bool, ok: Bytes, wrongType: Bytes): R.Reply {
    match r
    case SetDone(done, prev) =>
      if getOld then (if prev.Some? then R.Bulk(prev.value) else R.Bulk(None))
      else if done then R.Simple(ok) else R.Bulk(None)
    case _ => R.Error(wrongType)
  }

  // ------------------------------------------------ what can be told apart

  lemma {:induction false} LongerNumber(m: nat, n: nat)
    requires m <= n
    ensures |Decimal(m)| <= |Decimal(n)|
  {
    if m >= 10 { LongerNumber(m / 10, n / 10); }
  }

  lemma NullStandsOut(v: Bytes)
    ensures R.Encoded(R.Bulk(None)) != R.Encoded(R.Bulk(Some(v)))
  {
    assert R.Encoded(R.Bulk(None))[1] == MINUS && R.Encoded(R.Bulk(Some(v)))[1] == Decimal(|v|)[0];
  }

  lemma LengthShows(a: Bytes, b: Bytes)
    requires |a| < |b|
    ensures |R.Encoded(R.Bulk(Some(a)))| < |R.Encoded(R.Bulk(Some(b)))|
  {
    LongerNumber(|a|, |b|);
  }

  lemma PayloadShows(head: Bytes, a: Bytes, b: Bytes, end: Bytes)
    requires head + a + end == head + b + end && |a| == |b|
    ensures a == b
  {
    assert a == (head + a + end)[|head|..|head| + |a|];
  }

  /** A bulk string can be told from the null one, and from another, by its bytes. */
  lemma BulkIsReadable(a: Option<Bytes>, b: Option<Bytes>)
    ensures R.Encoded(R.Bulk(a)) == R.Encoded(R.Bulk(b)) <==> a == b
  {
    match (a, b)
    case (None, None) =>
    case (None, Some(v)) => NullStandsOut(v);
    case (Some(v), None) => NullStandsOut(v);
    case (Some(v), Some(w)) =>
      if |v| < |w| { LengthShows(v, w); }
      else if |w| < |v| { LengthShows(w, v); }
      else if R.Encoded(R.Bulk(a)) == R.Encoded(R.Bulk(b)) {
        PayloadShows([R.DOLLAR] + Itoa(|v|) + R.CRLF, v, w, R.CRLF);
      }
  }

  /** The bytes a client reads after GET. */
  ghost function GetBytes(db: DB, ws: Bytes, key: Bytes, now: int, wrongType: Bytes): Bytes {
    R.Encoded(ValueReply(StepKey(db, NsKey(ws, key), Op.Get, now, None).1, wrongType))
  }

  lemma ErrorStandsOut(text: Bytes, v: Option<Bytes>)
    ensures R.Encoded(R.Error(text)) != R.Encoded(R.Bulk(v))
  {
    assert R.Encoded(R.Error(text))[0] == MINUS && R.Encoded(R.Bulk(v))[0] == R.DOLLAR;
  }

  /** GET is answered by the null bulk string exactly if the key is absent or its value empty ... */
  lemma GetIsNullExactlyWhen(db: DB, ws: Bytes, key: Bytes, now: int, wrongType: Bytes)
    ensures var cur := Live(db, NsKey(ws, key), now);
      GetBytes(db, ws, key, now, wrongType) == R.Encoded(R.Bulk(None)) <==>
        cur.None? || cur.value.val == StringValue([])
  {
    var cur := Live(db, NsKey(ws, key), now);
    ErrorStandsOut(wrongType, None);
    if cur.Some? && cur.value.val.StringValue? { BulkIsReadable(Copied(cur.value.val.bytes), None); }
  }

  /** ... and by the stored value exactly if that is not empty. */
  lemma GetIsValueExactlyWhen(db: DB, ws: Bytes, key: Bytes, now: int, wrongType: Bytes)
    requires var cur := Live(db, NsKey(ws, key), now); cur.Some? && cur.value.val.StringValue?
    ensures var v := Live(db, NsKey(ws, key), now).value.val.bytes;
      GetBytes(db, ws, key, now, wrongType) == R.Encoded(R.Bulk(Some(v))) <==> v != []
  {
    var v := Live(db, NsKey(ws, key), now).value.val.bytes;
    BulkIsReadable(Copied(v), Some(v));
  }

  /** The same for the field of a hash. */
  lemma HGetIsNullExactlyWhen(cur: Option<Slot>, field: Bytes, wrongType: Bytes)
    requires !Mismatch(cur, HashKind)
    ensures R.Encoded(ValueReply(RunHGet(field, cur).reply, wrongType)) == R.Encoded(R.Bulk(None)) <==>
      var h := Current(cur, HashKind).fields; field !in h || h[field] == []
  {
    var h := Current(cur, HashKind).fields;
    if field in h { BulkIsReadable(Copied(h[field]), None); }
  }

  /** The same for the head of a list, which is gone all the same, and for its tail. */
  lemma PopIsNullExactlyWhen(cur: Slot, wrongType: Bytes)
    requires cur.val.ListValue? && cur.val.items != []
    ensures var l := cur.val.items;
      && (R.Encoded(ValueReply(RunLPop(Some(cur)).reply, wrongType)) == R.Encoded(R.Bulk(None)) <==> l[0] == [])
      && (R.Encoded(ValueReply(RunRPop(Some(cur)).reply, wrongType)) == R.Encoded(R.Bulk(None)) <==> l[|l| - 1] == [])
  {
    BulkIsReadable(Copied(cur.val.items[0]), None);
    BulkIsReadable(Copied(cur.val.items[|cur.val.items| - 1]), None);
  }

  /** The same for the old value that SET with GET answers. */
  lemma SetGetIsNullExactlyWhen(val: Bytes, opts: SetOpts, cur: Option<Slot>, now: int, ok: Bytes, wrongType: Bytes)
    requires opts.getOld && !Mismatch(cur, StringKind)
    ensures R.Encoded(SetReply(RunSet(val, opts, cur, now).reply, true, ok, wrongType)) == R.Encoded(R.Bulk(None)) <==>
      cur.None? || cur.value.val == StringValue([])
  {
    if cur.Some? { BulkIsReadable(Copied(cur.value.val.bytes), None); }
  }

  /** A case: SET of the empty string, which EXISTS finds and GET does not. */
  lemma EmptyLooksAbsent(ws: Bytes, key: Bytes, now: int, wrongType: Bytes)
    ensures var d := Step(DB(map[], map[]), OnKey(ws, key, PlainSet()), now, None).0;
      && GetBytes(d, ws, key, now, wrongType) == R.Encoded(R.Bulk(None))
      && Step(d, Exists(ws, [key]), now, None).1 == Number(1)
  {
    var d := Step(DB(map[], map[]), OnKey(ws, key, PlainSet()), now, None).0;
    SetNew(DB(map[], map[]), NsKey(ws, key), now);
    assert Live(d, NsKey(ws, key), now) == Some(Slot(StringValue([]), None));
    GetIsNullExactlyWhen(d, ws, key, now, wrongType);
    F.CountOfOne(d, map[], ws, key, now);
  }
}
