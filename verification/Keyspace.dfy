/** What the key-value store holds and what each command does to it, as values:
    the specification the heap-based store is verified against. Time is a number
    passed to every command. */
module Keyspace {
  import opened Base
  import opened Numbers
  import Glob

  // ---------------------------------------------------------------- entries

  datatype Kind = StringKind | HashKind | ListKind | SetKind | ZSetKind

  datatype Value =
    | StringValue(bytes: Bytes)
    | HashValue(fields: map<Bytes, Bytes>)
    | ListValue(items: seq<Bytes>)
    | SetValue(members: set<Bytes>)
    | ZSetValue(scores: map<Bytes, real>)
  {
    function Kind(): Kind {
      match this
      case StringValue(_) => StringKind
      case HashValue(_) => HashKind
      case ListValue(_) => ListKind
      case SetValue(_) => SetKind
      case ZSetValue(_) => ZSetKind
    }

    predicate Hollow() {
      match this
      case StringValue(_) => false
      case HashValue(f) => f == map[]
      case ListValue(l) => l == []
      case SetValue(m) => m == {}
      case ZSetValue(z) => z == map[]
    }
  }

  function Empty(kind: Kind): Value {
    match kind
    case StringKind => StringValue([])
    case HashKind => HashValue(map[])
    case ListKind => ListValue([])
    case SetKind => SetValue({})
    case ZSetKind => ZSetValue(map[])
  }

  /** What a client can observe of an entry. */
  datatype Slot = Slot(val: Value, deadline: Option<int>) {
    predicate Expired(now: int) {
      deadline.Some? && deadline.value <= now
    }
  }

  /** A stored entry: the slot and the bookkeeping that feeds eviction scores. */
  datatype Record = Record(slot: Slot, lastAccess: int, accessCount: nat)

  /** The whole store: entries by composite key, expired ones not yet removed
      included, and the mutation counter of every key ever written. */
  datatype DB = DB(data: map<Bytes, Record>, versions: map<Bytes, nat>)

  const NUL: Byte := 0

  function Prefix(ws: Bytes): Bytes { ws + [NUL] }

  function NsKey(ws: Bytes, key: Bytes): Bytes { Prefix(ws) + key }

  function Version(versions: map<Bytes, nat>, k: Bytes): nat {
    if k in versions then versions[k] else 0
  }

  function Bump(versions: map<Bytes, nat>, k: Bytes, n: nat): map<Bytes, nat> {
    versions[k := Version(versions, k) + n]
  }

  lemma BumpTwice(versions: map<Bytes, nat>, k: Bytes)
    ensures Bump(Bump(versions, k, 1), k, 1) == Bump(versions, k, 2)
  {}

  // --------------------------------------------------------------- commands

  datatype Reply =
    | Nil
    | Bulk(slice: Option<Bytes>)
    | Number(n: int)
    | Flag(ok: bool)
    | Score(score: real)
    | SetDone(done: bool, prev: Option<Option<Bytes>>)
    | Remaining(left: int, hasTTL: bool, exists_: bool)
    | Strings(items: seq<Bytes>)
    | Ranked(members: seq<(Bytes, real)>)
    | Page(next: nat, keys: seq<Bytes>)
    | KindName(kind: Option<Kind>)
    | Fields(fields: map<Bytes, Bytes>)
    | Members(set_: set<Bytes>)
    | Slices(slices: seq<Option<Bytes>>)
    | WrongType
    | NoSuchKey
    | OutOfRange
    | NotInteger

  datatype SetOpts = SetOpts(ttl: int, onlyIfNX: bool, onlyIfXX: bool, getOld: bool)

  /** Commands on one key. Query stands for the read-only accessors, which differ
      only in the kind they ask for and in what they show of the value. */
  datatype Op =
    | Get
    | Set(val: Bytes, opts: SetOpts)
    | Expire(ttl: int)
    | TTL
    | Persist
    | Query(kind: Kind, show: Value -> Reply, absent: Reply)
    | HSet(fields: map<Bytes, Bytes>)
    | HGet(field: Bytes)
    | HDel(names: seq<Bytes>)
    | HIncrBy(field: Bytes, by_: int)
    | LPush(vals: seq<Bytes>)
    | RPush(vals: seq<Bytes>)
    | LPop
    | RPop
    | LRange(start: int, stop: int)
    | LSet(index: int, val: Bytes)
    | LRem(count: int, val: Bytes)
    | SAdd(members: seq<Bytes>)
    | SRem(members: seq<Bytes>)
    | ZAdd(scores: map<Bytes, real>)
    | ZRem(names: seq<Bytes>)
    | ZIncrBy(member: Bytes, delta: real)
    | ZRange(start: int, stop: int)
    | ZRank(member: Bytes)

  datatype Action =
    | OnKey(ws: Bytes, key: Bytes, op: Op)
    | Del(ws: Bytes, keys: seq<Bytes>)
    | Exists(ws: Bytes, keys: seq<Bytes>)
    | TypeOf(ws: Bytes, key: Bytes)
    | Rename(ws: Bytes, from: Bytes, to: Bytes)
    | Keys(ws: Bytes, pattern: Bytes)
    | Scan(ws: Bytes, cursor: nat, pattern: Bytes, count: int)
    | FlushDB(ws: Bytes)

  // ------------------------------------------------------- values and lists

  function Elements(s: seq<Bytes>): set<Bytes> { set x | x in s }

  function Backwards(s: seq<Bytes>): seq<Bytes> {
    if s == [] then [] else Backwards(s[1..]) + [s[0]]
  }

  function NormalizeIndex(idx: int, n: int): int {
    if idx < 0 then n + idx else idx
  }

  function Between<T>(s: seq<T>, start: int, stop: int): seq<T> {
    var lo := if NormalizeIndex(start, |s|) < 0 then 0 else NormalizeIndex(start, |s|);
    var hi := if NormalizeIndex(stop, |s|) >= |s| then |s| - 1 else NormalizeIndex(stop, |s|);
    if lo > hi then [] else s[lo..hi + 1]
  }

  /** s without the first limit occurrences of v. */
  function DropFirst(s: seq<Bytes>, v: Bytes, limit: nat): seq<Bytes> {
    if s == [] then []
    else if s[0] == v && limit > 0 then DropFirst(s[1..], v, limit - 1)
    else [s[0]] + DropFirst(s[1..], v, limit)
  }

  /** LREM: a positive count drops from the head, a negative one from the tail, zero everywhere. */
  function ListWithout(s: seq<Bytes>, count: int, v: Bytes): seq<Bytes> {
    if count == 0 then DropFirst(s, v, |s|)
    else if count > 0 then DropFirst(s, v, count)
    else Backwards(DropFirst(Backwards(s), v, -count))
  }

  /** Ascending by score, then by member. */
  predicate RankLess(a: (Bytes, real), b: (Bytes, real)) {
    if a.1 != b.1 then a.1 < b.1 else BytesLess(a.0, b.0)
  }

  lemma RankLessIsTotal()
    ensures StrictTotal(RankLess)
  {
    BytesLessIsTotal();
  }

  function Pairs(z: map<Bytes, real>): set<(Bytes, real)> {
    set m | m in z :: (m, z[m])
  }

  ghost function SortedMembers(z: map<Bytes, real>): seq<(Bytes, real)> {
    RankLessIsTotal();
    InOrder(RankLess, Pairs(z))
  }

  ghost function RankOf(z: map<Bytes, real>, m: Bytes): (r: nat)
    requires m in z
    ensures r < |SortedMembers(z)| && SortedMembers(z)[r] == (m, z[m])
  {
    assert (m, z[m]) in SortedMembers(z);
    var r :| 0 <= r < |SortedMembers(z)| && SortedMembers(z)[r] == (m, z[m]);
    r
  }

  /** HINCRBY: the new number in the field, unless it holds something else. */
  function Counted(h: map<Bytes, Bytes>, field: Bytes, by_: int): Option<int> {
    if field !in h then Some(Wrap64(by_))
    else match Atoi(h[field])
      case None => None
      case Some(n) => Some(Wrap64(n + by_))
  }

  // ------------------------------------------------- one key, one live slot

  datatype Touch = Keep | Access | Fresh

  /** The reply, the slot left behind, how often the version counter moves, and
      what becomes of the access bookkeeping. */
  datatype Outcome = Outcome(reply: Reply, slot: Option<Slot>, bumps: nat, touch: Touch)

  function Unchanged(reply: Reply, cur: Option<Slot>): Outcome {
    Outcome(reply, cur, 0, Keep)
  }

  /** A collection written back: the key goes away when nothing is left. */
  function Shrunk(reply: Reply, cur: Slot, val: Value): Outcome {
    Outcome(reply, if val.Hollow() then None else Some(cur.(val := val)), 1, Keep)
  }

  /** A collection command that creates the key when it is absent: storing the
      empty entry moves the version once, the mutation itself once more. */
  function Grown(reply: Reply, cur: Option<Slot>, val: Value, touch: Touch): Outcome {
    match cur
    case None => Outcome(reply, Some(Slot(val, None)), 2, touch)
    case Some(s) => Outcome(reply, Some(s.(val := val)), 1, touch)
  }

  function Current(cur: Option<Slot>, kind: Kind): (v: Value) {
    if cur.Some? then cur.value.val else Empty(kind)
  }

  predicate Mismatch(cur: Option<Slot>, kind: Kind) {
    cur.Some? && cur.value.val.Kind() != kind
  }

  /** A byte slice as it is handed out, nil being None: a copy made by appending to nothing, so
      that of an empty slice is nil. */
  function Copied(v: Bytes): Option<Bytes> {
    if v == [] then None else Some(v)
  }

  function CopiedAll(s: seq<Bytes>): seq<Option<Bytes>> {
    seq(|s|, i requires 0 <= i < |s| => Copied(s[i]))
  }

  function RunGet(cur: Option<Slot>): Outcome {
    if cur.None? then Unchanged(Nil, cur)
    else if Mismatch(cur, StringKind) then Unchanged(WrongType, cur)
    else Outcome(Bulk(Copied(cur.value.val.bytes)), cur, 0, Access)
  }

  function RunSet(val: Bytes, opts: SetOpts, cur: Option<Slot>, now: int): Outcome {
    if opts.getOld && Mismatch(cur, StringKind) then Unchanged(WrongType, cur)
    else
      var prev := if opts.getOld && cur.Some? then Some(Copied(cur.value.val.bytes)) else None;
      if (opts.onlyIfNX && cur.Some?) || (opts.onlyIfXX && cur.None?) then Unchanged(SetDone(false, prev), cur)
      else
        var deadline := if opts.ttl > 0 then Some(now + opts.ttl) else None;
        Outcome(SetDone(true, prev), Some(Slot(StringValue(val), deadline)), 1, Fresh)
  }

  function RunExpire(ttl: int, cur: Option<Slot>, now: int): Outcome {
    if cur.None? then Unchanged(Flag(false), cur)
    else if ttl <= 0 then Outcome(Flag(true), None, 1, Keep)
    else Outcome(Flag(true), Some(cur.value.(deadline := Some(now + ttl))), 1, Keep)
  }

  function RunTTL(cur: Option<Slot>, now: int): Outcome {
    if cur.None? then Unchanged(Remaining(0, false, false), cur)
    else if cur.value.deadline.None? then Unchanged(Remaining(0, false, true), cur)
    else
      var left := cur.value.deadline.value - now;
      Unchanged(Remaining(if left < 0 then 0 else left, true, true), cur)
  }

  function RunPersist(cur: Option<Slot>): Outcome {
    if cur.None? || cur.value.deadline.None? then Unchanged(Flag(false), cur)
    else Outcome(Flag(true), Some(cur.value.(deadline := None)), 1, Keep)
  }

  function RunQuery(kind: Kind, show: Value -> Reply, absent: Reply, cur: Option<Slot>): Outcome {
    if cur.None? then Unchanged(absent, cur)
    else if Mismatch(cur, kind) then Unchanged(WrongType, cur)
    else Unchanged(show(cur.value.val), cur)
  }

  function RunHSet(fields: map<Bytes, Bytes>, cur: Option<Slot>): Outcome {
    if Mismatch(cur, HashKind) then Unchanged(WrongType, cur)
    else
      var h := Current(cur, HashKind).fields;
      Grown(Number(|fields.Keys - h.Keys|), cur, HashValue(h + fields), Access)
  }

  function RunHGet(field: Bytes, cur: Option<Slot>): Outcome {
    if cur.None? then Unchanged(Nil, cur)
    else if Mismatch(cur, HashKind) then Unchanged(WrongType, cur)
    else if field !in cur.value.val.fields then Unchanged(Nil, cur)
    else Outcome(Bulk(Copied(cur.value.val.fields[field])), cur, 0, Access)
  }

  function RunHDel(names: seq<Bytes>, cur: Option<Slot>): Outcome {
    if cur.None? then Unchanged(Number(0), cur)
    else if Mismatch(cur, HashKind) then Unchanged(WrongType, cur)
    else
      var gone := Elements(names) * cur.value.val.fields.Keys;
      if gone == {} then Unchanged(Number(0), cur)
      else Shrunk(Number(|gone|), cur.value, HashValue(cur.value.val.fields - Elements(names)))
  }

  function RunHIncrBy(field: Bytes, by_: int, cur: Option<Slot>): Outcome {
    if Mismatch(cur, HashKind) then Unchanged(WrongType, cur)
    else
      var h := Current(cur, HashKind).fields;
      var n := Counted(h, field, by_);
      if n.None? then Unchanged(NotInteger, cur)
      else Grown(Number(n.value), cur, HashValue(h[field := Itoa(n.value)]), Access)
  }

  function RunLPush(vals: seq<Bytes>, cur: Option<Slot>): Outcome {
    if Mismatch(cur, ListKind) then Unchanged(WrongType, cur)
    else
      var l := Backwards(vals) + Current(cur, ListKind).items;
      Grown(Number(|l|), cur, ListValue(l), Access)
  }

  function RunRPush(vals: seq<Bytes>, cur: Option<Slot>): Outcome {
    if Mismatch(cur, ListKind) then Unchanged(WrongType, cur)
    else
      var l := Current(cur, ListKind).items + vals;
      Grown(Number(|l|), cur, ListValue(l), Access)
  }

  function RunLPop(cur: Option<Slot>): Outcome {
    if cur.None? then Unchanged(Nil, cur)
    else if Mismatch(cur, ListKind) then Unchanged(WrongType, cur)
    else
      var l := cur.value.val.items;
      if l == [] then Unchanged(Nil, cur)
      else Shrunk(Bulk(Copied(l[0])), cur.value, ListValue(l[1..]))
  }

  function RunRPop(cur: Option<Slot>): Outcome {
    if cur.None? then Unchanged(Nil, cur)
    else if Mismatch(cur, ListKind) then Unchanged(WrongType, cur)
    else
      var l := cur.value.val.items;
      if l == [] then Unchanged(Nil, cur)
      else Shrunk(Bulk(Copied(l[|l| - 1])), cur.value, ListValue(l[..|l| - 1]))
  }

  function RunLRange(start: int, stop: int, cur: Option<Slot>): Outcome {
    if cur.None? then Unchanged(Slices([]), cur)
    else if Mismatch(cur, ListKind) then Unchanged(WrongType, cur)
    else Unchanged(Slices(CopiedAll(Between(cur.value.val.items, start, stop))), cur)
  }

  function RunLSet(index: int, val: Bytes, cur: Option<Slot>): Outcome {
    if cur.None? then Unchanged(NoSuchKey, cur)
    else if Mismatch(cur, ListKind) then Unchanged(WrongType, cur)
    else
      var l := cur.value.val.items;
      var i := NormalizeIndex(index, |l|);
      if i < 0 || i >= |l| then Unchanged(OutOfRange, cur)
      else Outcome(Flag(true), Some(cur.value.(val := ListValue(l[i := val]))), 1, Keep)
  }

  function RunLRem(count: int, val: Bytes, cur: Option<Slot>): Outcome {
    if cur.None? then Unchanged(Number(0), cur)
    else if Mismatch(cur, ListKind) then Unchanged(WrongType, cur)
    else
      var l := cur.value.val.items;
      var left := ListWithout(l, count, val);
      if |left| == |l| then Unchanged(Number(0), cur)
      else Shrunk(Number(|l| - |left|), cur.value, ListValue(left))
  }

  function RunSAdd(members: seq<Bytes>, cur: Option<Slot>): Outcome {
    if Mismatch(cur, SetKind) then Unchanged(WrongType, cur)
    else
      var m := Current(cur, SetKind).members;
      Grown(Number(|Elements(members) - m|), cur, SetValue(m + Elements(members)), Access)
  }

  function RunSRem(members: seq<Bytes>, cur: Option<Slot>): Outcome {
    if cur.None? then Unchanged(Number(0), cur)
    else if Mismatch(cur, SetKind) then Unchanged(WrongType, cur)
    else
      var gone := Elements(members) * cur.value.val.members;
      if gone == {} then Unchanged(Number(0), cur)
      else Shrunk(Number(|gone|), cur.value, SetValue(cur.value.val.members - Elements(members)))
  }

  function RunZAdd(scores: map<Bytes, real>, cur: Option<Slot>): Outcome {
    if Mismatch(cur, ZSetKind) then Unchanged(WrongType, cur)
    else
      var z := Current(cur, ZSetKind).scores;
      Grown(Number(|scores.Keys - z.Keys|), cur, ZSetValue(z + scores), Access)
  }

  function RunZRem(names: seq<Bytes>, cur: Option<Slot>): Outcome {
    if cur.None? then Unchanged(Number(0), cur)
    else if Mismatch(cur, ZSetKind) then Unchanged(WrongType, cur)
    else
      var gone := Elements(names) * cur.value.val.scores.Keys;
      if gone == {} then Unchanged(Number(0), cur)
      else Shrunk(Number(|gone|), cur.value, ZSetValue(cur.value.val.scores - Elements(names)))
  }

  function RunZIncrBy(member: Bytes, delta: real, cur: Option<Slot>): Outcome {
    if Mismatch(cur, ZSetKind) then Unchanged(WrongType, cur)
    else
      var z := Current(cur, ZSetKind).scores;
      var score := (if member in z then z[member] else 0.0) + delta;
      Grown(Score(score), cur, ZSetValue(z[member := score]), Keep)
  }

  ghost function RunZRange(start: int, stop: int, cur: Option<Slot>): Outcome {
    if cur.None? then Unchanged(Ranked([]), cur)
    else if Mismatch(cur, ZSetKind) then Unchanged(WrongType, cur)
    else Unchanged(Ranked(Between(SortedMembers(cur.value.val.scores), start, stop)), cur)
  }

  ghost function RunZRank(member: Bytes, cur: Option<Slot>): Outcome {
    if cur.None? then Unchanged(Nil, cur)
    else if Mismatch(cur, ZSetKind) then Unchanged(WrongType, cur)
    else if member !in cur.value.val.scores then Unchanged(Nil, cur)
    else Unchanged(Number(RankOf(cur.value.val.scores, member)), cur)
  }

  /** What a command on one key does to the live slot it finds. */
  ghost function Run(op: Op, cur: Option<Slot>, now: int): Outcome {
    match op
    case Get => RunGet(cur)
    case Set(val, opts) => RunSet(val, opts, cur, now)
    case Expire(ttl) => RunExpire(ttl, cur, now)
    case TTL => RunTTL(cur, now)
    case Persist => RunPersist(cur)
    case Query(kind, show, absent) => RunQuery(kind, show, absent, cur)
    case HSet(fields) => RunHSet(fields, cur)
    case HGet(field) => RunHGet(field, cur)
    case HDel(names) => RunHDel(names, cur)
    case HIncrBy(field, by_) => RunHIncrBy(field, by_, cur)
    case LPush(vals) => RunLPush(vals, cur)
    case RPush(vals) => RunRPush(vals, cur)
    case LPop => RunLPop(cur)
    case RPop => RunRPop(cur)
    case LRange(start, stop) => RunLRange(start, stop, cur)
    case LSet(index, val) => RunLSet(index, val, cur)
    case LRem(count, val) => RunLRem(count, val, cur)
    case SAdd(members) => RunSAdd(members, cur)
    case SRem(members) => RunSRem(members, cur)
    case ZAdd(scores) => RunZAdd(scores, cur)
    case ZRem(names) => RunZRem(names, cur)
    case ZIncrBy(member, delta) => RunZIncrBy(member, delta, cur)
    case ZRange(start, stop) => RunZRange(start, stop, cur)
    case ZRank(member) => RunZRank(member, cur)
  }

  // ------------------------------------------------------- the stored keyspace

  function Without(db: DB, k: Bytes): DB {
    DB(db.data - {k}, Bump(db.versions, k, 1))
  }

  /** Passive expiry of one key. */
  function Purge(db: DB, k: Bytes, now: int): DB {
    if k in db.data && db.data[k].slot.Expired(now) then Without(db, k) else db
  }

  function Evict(db: DB, victim: Option<Bytes>): DB {
    match victim
    case None => db
    case Some(v) => Without(db, v)
  }

  function Lookup(db: DB, k: Bytes): Option<Slot> {
    if k in db.data then Some(db.data[k].slot) else None
  }

  /** The slot a client can see: stored and not expired. */
  function Live(db: DB, k: Bytes, now: int): Option<Slot> {
    if k in db.data && !db.data[k].slot.Expired(now) then Some(db.data[k].slot) else None
  }

  function Touched(db: DB, k: Bytes, slot: Slot, touch: Touch, now: int): Record {
    var (at, count) := if k in db.data then (db.data[k].lastAccess, db.data[k].accessCount) else (now, 0);
    match touch
    case Keep => Record(slot, at, count)
    case Access => Record(slot, now, count + 1)
    case Fresh => Record(slot, now, 1)
  }

  /** The outcome of a command stored; one that mutates nothing leaves all as it is. */
  function Write(db: DB, k: Bytes, o: Outcome, now: int): DB {
    if o.bumps == 0 && o.touch == Keep then db
    else if o.bumps == 0 && o.slot.Some? then db.(data := db.data[k := Touched(db, k, o.slot.value, o.touch, now)])
    else DB(match o.slot
       case None => db.data - {k}
       case Some(s) => db.data[k := Touched(db, k, s, o.touch, now)],
       Bump(db.versions, k, o.bumps))
  }

  /** A new key is about to be stored: the one moment eviction may strike. */
  ghost predicate Creates(db: DB, k: Bytes, op: Op, now: int) {
    Live(db, k, now).None? && Run(op, None, now).slot.Some?
  }

  ghost function StepKey(db: DB, k: Bytes, op: Op, now: int, victim: Option<Bytes>): (DB, Reply) {
    var o := Run(op, Live(db, k, now), now);
    (Applied(db, k, o, now, victim), o.reply)
  }

  /** Passive expiry, then eviction if the key is new, then the outcome. */
  function Applied(db: DB, k: Bytes, o: Outcome, now: int, victim: Option<Bytes>): DB {
    var d := Purge(db, k, now);
    Write(if Live(db, k, now).None? && o.slot.Some? then Evict(d, victim) else d, k, o, now)
  }

  function DeleteAll(db: DB, ws: Bytes, keys: seq<Bytes>, now: int): (DB, int) {
    if keys == [] then (db, 0)
    else
      var k := NsKey(ws, keys[|keys| - 1]);
      var (d, n) := DeleteAll(db, ws, keys[..|keys| - 1], now);
      var p := Purge(d, k, now);
      if k in p.data then (Without(p, k), n + 1) else (p, n)
  }

  function CountLive(db: DB, ws: Bytes, keys: seq<Bytes>, now: int): int {
    if keys == [] then 0
    else CountLive(db, ws, keys[..|keys| - 1], now)
         + (if Live(db, NsKey(ws, keys[|keys| - 1]), now).Some? then 1 else 0)
  }

  /** The entry moves as it is, deadline and bookkeeping included; whatever the
      new name held is overwritten. */
  function Renamed(db: DB, from: Bytes, to: Bytes, now: int): (DB, bool) {
    var d := Purge(db, from, now);
    if from !in d.data then (d, false)
    else (DB((d.data - {from})[to := d.data[from]], Bump(Bump(d.versions, to, 1), from, 1)), true)
  }

  function LiveNames(db: DB, ws: Bytes, now: int): set<Bytes> {
    set k | k in db.data && Prefix(ws) <= k && !db.data[k].slot.Expired(now) :: k[|Prefix(ws)|..]
  }

  ghost function Sorted(names: set<Bytes>): seq<Bytes> {
    BytesLessIsTotal();
    InOrder(BytesLess, names)
  }

  ghost predicate Selected(pattern: Bytes, name: Bytes) {
    pattern == [] || pattern == [Glob.STAR] || Glob.Accepts(Glob.Tokens(pattern, true), name)
  }

  ghost function Matching(names: seq<Bytes>, pattern: Bytes): seq<Bytes> {
    if names == [] then []
    else Matching(names[..|names| - 1], pattern)
         + (if Selected(pattern, names[|names| - 1]) then [names[|names| - 1]] else [])
  }

  ghost function AllKeys(names: set<Bytes>, pattern: Bytes): seq<Bytes> {
    Sorted(set n | n in names && Selected(pattern, n))
  }

  ghost function ScanPage(names: seq<Bytes>, cursor: nat, pattern: Bytes, count: int): (nat, seq<Bytes>) {
    var size := if count <= 0 then 10 else count;
    if cursor >= |names| then (0, [])
    else
      var end := if cursor + size > |names| then |names| else cursor + size;
      (if end == |names| then 0 else end, Matching(names[cursor..end], pattern))
  }

  function Owned(db: DB, ws: Bytes): set<Bytes> {
    set k | k in db.data && Prefix(ws) <= k
  }

  function BumpAll(versions: map<Bytes, nat>, ks: set<Bytes>): map<Bytes, nat> {
    map k | k in versions.Keys + ks :: Version(versions, k) + (if k in ks then 1 else 0)
  }

  lemma BumpAllOneMore(versions: map<Bytes, nat>, ks: set<Bytes>, k: Bytes)
    requires k !in ks
    ensures BumpAll(versions, ks + {k}) == Bump(BumpAll(versions, ks), k, 1)
  {}

  lemma BumpAllNone(versions: map<Bytes, nat>)
    ensures BumpAll(versions, {}) == versions
  {}

  /** Several keys removed at once, each moving its version. */
  function WithoutAll(db: DB, gone: set<Bytes>): DB {
    DB(db.data - gone, BumpAll(db.versions, gone))
  }

  lemma WithoutAllOneMore(db: DB, gone: set<Bytes>, k: Bytes)
    requires k !in gone
    ensures WithoutAll(db, gone + {k}) == Without(WithoutAll(db, gone), k)
  {
    MinusOneMore(db.data, gone, k);
    BumpAllOneMore(db.versions, gone, k);
  }

  lemma WithoutAllTwice(db: DB, a: set<Bytes>, b: set<Bytes>)
    requires a !! b
    ensures WithoutAll(WithoutAll(db, a), b) == WithoutAll(db, a + b)
  {
    assert db.data - a - b == db.data - (a + b);
  }

  /** What FLUSHDB finds in one shard. */
  function OwnedIn(db: DB, ws: Bytes, shard: Bytes -> nat, i: nat): set<Bytes> {
    set k | k in db.data && Prefix(ws) <= k && shard(k) == i
  }

  function OwnedBefore(db: DB, ws: Bytes, shard: Bytes -> nat, i: nat): set<Bytes> {
    set k | k in db.data && Prefix(ws) <= k && shard(k) < i
  }

  /** FLUSHDB after the first n shards. */
  function Flushed(db: DB, ws: Bytes, shard: Bytes -> nat, n: nat): DB {
    if n == 0 then db
    else
      var d := Flushed(db, ws, shard, n - 1);
      WithoutAll(d, OwnedIn(d, ws, shard, n - 1))
  }

  lemma {:induction false} FlushedSoFar(db: DB, ws: Bytes, shard: Bytes -> nat, n: nat)
    ensures Flushed(db, ws, shard, n) == WithoutAll(db, OwnedBefore(db, ws, shard, n))
  {
    if n == 0 {
      WithoutNone(db);
      assert OwnedBefore(db, ws, shard, 0) == {};
    } else {
      FlushedSoFar(db, ws, shard, n - 1);
      FlushNext(db, ws, shard, n - 1);
    }
  }

  lemma FlushedIsWithoutOwned(db: DB, ws: Bytes, shard: Bytes -> nat, n: nat)
    requires forall k :: shard(k) < n
    ensures Flushed(db, ws, shard, n) == WithoutAll(db, Owned(db, ws))
  {
    FlushedSoFar(db, ws, shard, n);
    assert OwnedBefore(db, ws, shard, n) == Owned(db, ws);
  }

  lemma FlushNext(db: DB, ws: Bytes, shard: Bytes -> nat, i: nat)
    ensures var d := WithoutAll(db, OwnedBefore(db, ws, shard, i));
      WithoutAll(d, OwnedIn(d, ws, shard, i)) == WithoutAll(db, OwnedBefore(db, ws, shard, i + 1))
  {
    var a, b := OwnedBefore(db, ws, shard, i), OwnedIn(db, ws, shard, i);
    assert OwnedIn(WithoutAll(db, a), ws, shard, i) == b;
    WithoutAllTwice(db, a, b);
    assert a + b == OwnedBefore(db, ws, shard, i + 1);
  }

  lemma BumpAllVersion(versions: map<Bytes, nat>, ks: set<Bytes>, k: Bytes)
    ensures Version(BumpAll(versions, ks), k) == Version(versions, k) + (if k in ks then 1 else 0)
  {}

  lemma WithoutNone(db: DB)
    ensures WithoutAll(db, {}) == db
  {
    BumpAllNone(db.versions);
    assert db.data - {} == db.data;
  }

  lemma LiveNamesAre(db: DB, ws: Bytes, now: int, n: Bytes)
    ensures n in LiveNames(db, ws, now) <==> Live(db, NsKey(ws, n), now).Some?
  {
    assert NsKey(ws, n)[|Prefix(ws)|..] == n;
    forall k | Prefix(ws) <= k ensures k == NsKey(ws, k[|Prefix(ws)|..]) {}
  }

  /** One command. The victim is the key evicted on the way, if any. */
  ghost function Step(db: DB, a: Action, now: int, victim: Option<Bytes>): (DB, Reply) {
    match a
    case OnKey(ws, key, op) => StepKey(db, NsKey(ws, key), op, now, victim)
    case Del(ws, keys) => var (d, n) := DeleteAll(db, ws, keys, now); (d, Number(n))
    case Exists(ws, keys) => (db, Number(CountLive(db, ws, keys, now)))
    case TypeOf(ws, key) =>
      var s := Live(db, NsKey(ws, key), now);
      (db, KindName(if s.None? then None else Some(s.value.val.Kind())))
    case Rename(ws, from, to) =>
      var (d, ok) := Renamed(db, NsKey(ws, from), NsKey(ws, to), now); (d, Flag(ok))
    case Keys(ws, pattern) => (db, Strings(AllKeys(LiveNames(db, ws, now), pattern)))
    case Scan(ws, cursor, pattern, count) =>
      var (next, page) := ScanPage(Sorted(LiveNames(db, ws, now)), cursor, pattern, count);
      (db, Page(next, page))
    case FlushDB(ws) => (WithoutAll(db, Owned(db, ws)), Flag(true))
  }

  /** The reaper may remove any expired keys it comes across. */
  ghost predicate Sweepable(db: DB, gone: set<Bytes>, now: int) {
    forall k :: k in gone ==> k in db.data && db.data[k].slot.Expired(now)
  }

  // --------------------------------------------------------------- eviction

  /** Which keys may be evicted when k is about to be stored: none while the cap
      is respected, else one from the shard that k is routed to, if that shard
      holds any. */
  ghost predicate MayEvict(db: DB, shard: Bytes -> nat, cap: int, k: Bytes, victim: Option<Bytes>) {
    if cap <= 0 || |db.data| + 1 <= cap then victim == None
    else match victim
      case None => forall v :: v in db.data ==> shard(v) != shard(k)
      case Some(v) => v in db.data && shard(v) == shard(k)
  }

  ghost predicate Legal(db: DB, a: Action, now: int, victim: Option<Bytes>, shard: Bytes -> nat, cap: int) {
    if a.OnKey? && Creates(db, NsKey(a.ws, a.key), a.op, now)
    then MayEvict(Purge(db, NsKey(a.ws, a.key), now), shard, cap, NsKey(a.ws, a.key), victim)
    else victim == None
  }
}
