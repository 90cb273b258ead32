/** What HINCRBY does to a counter over several calls. */
module HashLaws {
  import opened Base
  import opened Numbers
  import opened Keyspace

  lemma CountedTwice(h: map<Bytes, Bytes>, field: Bytes, a: int, b: int)
    requires Counted(h, field, a).Some?
    ensures Counted(h[field := Itoa(Counted(h, field, a).value)], field, b) == Counted(h, field, a + b)
  {
    AtoiItoa(Counted(h, field, a).value);
    WrapAgain(if field in h then Atoi(h[field]).value + a else a, b);
  }

  /** Counting by a and then by b is counting by a + b once, also across the 64-bit edge:
      the same reply and the same slot. */
  lemma IncrementsAdd(cur: Option<Slot>, field: Bytes, a: int, b: int)
    requires RunHIncrBy(field, a, cur).reply.Number?
    ensures var mid := RunHIncrBy(field, a, cur).slot;
      var twice, once := RunHIncrBy(field, b, mid), RunHIncrBy(field, a + b, cur);
      once.reply.Number? && twice.reply == once.reply && twice.slot == once.slot
  {
    var h := Current(cur, HashKind).fields;
    CountedTwice(h, field, a, b);
    Overwritten(h, field, Itoa(Counted(h, field, a).value), Itoa(Counted(h, field, a + b).value));
  }

  lemma Overwritten(h: map<Bytes, Bytes>, field: Bytes, x: Bytes, y: Bytes)
    ensures h[field := x][field := y] == h[field := y]
  {}

  /** Exactly the fields that hold something other than a 64-bit number refuse to count,
      and then nothing changes. */
  lemma RefusesExactlyWhen(cur: Option<Slot>, field: Bytes, by_: int)
    requires !Mismatch(cur, HashKind)
    ensures var o := RunHIncrBy(field, by_, cur);
      var h := Current(cur, HashKind).fields;
      && (o.reply == NotInteger <==> field in h && Atoi(h[field]).None?)
      && (o.reply == NotInteger ==> o == Unchanged(NotInteger, cur))
  {}

  /** HINCRBY answers the true sum exactly when it fits 64 bits ... */
  lemma TrueSumExactlyWhen(cur: Option<Slot>, field: Bytes, by_: int)
    requires !Mismatch(cur, HashKind)
    requires field in Current(cur, HashKind).fields ==> Atoi(Current(cur, HashKind).fields[field]).Some?
    ensures var h := Current(cur, HashKind).fields;
      var sum := (if field in h then Atoi(h[field]).value else 0) + by_;
      var o := RunHIncrBy(field, by_, cur);
      && (o.reply == Number(sum) <==> -MAX_INT - 1 <= sum <= MAX_INT)
      && (o.reply == Number(sum) <==> Atoi(o.slot.value.val.fields[field]) == Some(sum))
  {
    var h := Current(cur, HashKind).fields;
    AtoiItoa(Counted(h, field, by_).value);
  }

  /** ... and an amount that is one itself overshoots or undershoots by two to the 64th, unannounced. */
  lemma OverflowWraps(h: map<Bytes, Bytes>, field: Bytes, by_: int)
    requires field in h && Atoi(h[field]).Some? && -MAX_INT - 1 <= by_ <= MAX_INT
    ensures var sum := Atoi(h[field]).value + by_;
      Counted(h, field, by_) ==
      Some(if sum > MAX_INT then sum - 2 * (MAX_INT + 1)
           else if sum < -MAX_INT - 1 then sum + 2 * (MAX_INT + 1) else sum)
  {}

  lemma Written(n: int) returns (text: Bytes)
    requires -MAX_INT - 1 <= n <= MAX_INT
    ensures Atoi(text) == Some(n)
  {
    text := Itoa(n);
    AtoiItoa(n);
  }

  lemma ReplyIsCounted(cur: Option<Slot>, field: Bytes, by_: int)
    requires !Mismatch(cur, HashKind) && Counted(Current(cur, HashKind).fields, field, by_).Some?
    ensures RunHIncrBy(field, by_, cur).reply == Number(Counted(Current(cur, HashKind).fields, field, by_).value)
  {}

  function OneField(text: Bytes): map<Bytes, Bytes> {
    map[[] := text]
  }

  lemma HSetStores(text: Bytes)
    ensures RunHSet(OneField(text), None).slot == Some(Slot(HashValue(OneField(text)), None))
  {
    assert map[] + OneField(text) == OneField(text);
  }

  lemma CountAfterHSet(text: Bytes, by_: int)
    requires Atoi(text).Some?
    ensures RunHIncrBy([], by_, RunHSet(OneField(text), None).slot).reply
         == Number(Wrap64(Atoi(text).value + by_))
  {
    HSetStores(text);
    ReplyIsCounted(Some(Slot(HashValue(OneField(text)), None)), [], by_);
  }

  /** A client can set any 64-bit number by HSET and count from there, also over either edge. */
  lemma OverflowIsReachable(n: int, by_: int) returns (text: Bytes)
    requires -MAX_INT - 1 <= n <= MAX_INT
    ensures Atoi(text) == Some(n)
    ensures RunHIncrBy([], by_, RunHSet(OneField(text), None).slot).reply == Number(Wrap64(n + by_))
  {
    text := Written(n);
    CountAfterHSet(text, by_);
  }

  lemma WrapsAtTheEdge()
    ensures Wrap64(MAX_INT + 1) == -MAX_INT - 1
  {}

  /** A case: HSET of the largest number, then HINCRBY by 1. */
  lemma LargestPlusOne() returns (text: Bytes, reply: Reply)
    ensures Atoi(text) == Some(MAX_INT)
    ensures reply == RunHIncrBy([], 1, RunHSet(OneField(text), None).slot).reply
    ensures reply == Number(-MAX_INT - 1)
  {
    text := OverflowIsReachable(MAX_INT, 1);
    reply := Number(Wrap64(MAX_INT + 1));
    WrapsAtTheEdge();
  }
}
