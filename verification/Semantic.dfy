/** The similarity cache: a lookup compacts its partition in place while it looks for
    the closest prompt. The embedding of a prompt comes with the call, since the
    provider may fail; cosine similarity is an arbitrary function, undefined as None. */
module SemanticCaches {
  import opened Base
  import opened MemoryTypes
  import FlatMap

  const NUL: Byte := 0

  type Similarity = (Vector, Vector) -> Option<real>

  datatype Entry = Entry(prompt: Bytes, embedding: Vector, response: Bytes, expiresAt: Option<int>, cost: real) {
    predicate Expired(now: int) {
      expiresAt.Some? && expiresAt.value <= now
    }
  }

  datatype Answer = Failed | Miss | Hit(response: Bytes, cost: real)

  datatype Event =
    | Set(embedded: Option<Vector>, prompt: Bytes, model: Bytes, temp: Bytes, response: Bytes, ttl: int, cost: real, now: int)
    | Get(embedded: Option<Vector>, model: Bytes, temp: Bytes, threshold: real, now: int)
  {
    function Key(): Bytes {
      PartitionKey(model, temp)
    }

    /** The entry a store adds; a time to live that is not positive means no expiry. */
    function Stored(): Entry
      requires Set? && embedded.Some?
    {
      Entry(prompt, embedded.value, response, if ttl > 0 then Some(now + ttl) else None, cost)
    }
  }

  /** The entries of every partition; a partition never used is an empty one. */
  type Cache = map<Bytes, seq<Entry>>

  function PartitionKey(model: Bytes, temp: Bytes): Bytes {
    model + [NUL] + temp
  }

  function Partition(c: Cache, key: Bytes): seq<Entry> {
    if key in c then c[key] else []
  }

  function Unexpired(es: seq<Entry>, now: int): seq<Entry> {
    if es == [] then []
    else
      var kept := Unexpired(es[..|es| - 1], now);
      if es[|es| - 1].Expired(now) then kept else kept + [es[|es| - 1]]
  }

  /** The position of the first entry with the greatest defined score, or -1. */
  function Best(es: seq<Entry>, vec: Vector, cosine: Similarity): (r: int)
    ensures -1 <= r < |es|
    ensures r >= 0 ==> cosine(vec, es[r].embedding).Some?
  {
    if es == [] then -1
    else
      var best := Best(es[..|es| - 1], vec, cosine);
      var score := cosine(vec, es[|es| - 1].embedding);
      if score.Some? && (best < 0 || score.value > cosine(vec, es[best].embedding).value) then |es| - 1 else best
  }

  /** The first position with the greatest defined score; -1 if no score is defined. */
  ghost predicate IsBest(es: seq<Entry>, best: int, vec: Vector, cosine: Similarity) {
    -1 <= best < |es| &&
    if best == -1 then forall i :: 0 <= i < |es| ==> cosine(vec, es[i].embedding).None?
    else
      && cosine(vec, es[best].embedding).Some?
      && (forall i :: 0 <= i < |es| && cosine(vec, es[i].embedding).Some? ==>
            && cosine(vec, es[i].embedding).value <= cosine(vec, es[best].embedding).value
            && (i < best ==> cosine(vec, es[i].embedding).value < cosine(vec, es[best].embedding).value))
  }

  lemma {:induction false} BestIsTheOnlyBest(es: seq<Entry>, best: int, vec: Vector, cosine: Similarity)
    ensures IsBest(es, best, vec, cosine) <==> best == Best(es, vec, cosine)
  {
    if es != [] {
      var init := es[..|es| - 1];
      BestIsTheOnlyBest(init, Best(init, vec, cosine), vec, cosine);
      assert forall i :: 0 <= i < |init| ==> es[i] == init[i];
      assert IsBest(es, Best(es, vec, cosine), vec, cosine);
    }
  }

  function AnswerTo(es: seq<Entry>, cosine: Similarity, get: Event): Answer
    requires get.Get?
  {
    if get.embedded.None? then Failed
    else
      var kept := Unexpired(es, get.now);
      var best := Best(kept, get.embedded.value, cosine);
      if best < 0 || cosine(get.embedded.value, kept[best].embedding).value < get.threshold then Miss
      else Hit(kept[best].response, kept[best].cost)
  }

  function Next(c: Cache, e: Event): Cache {
    if e.embedded.None? then c else c[e.Key() := NextPartition(Partition(c, e.Key()), e)]
  }

  function NextPartition(es: seq<Entry>, e: Event): seq<Entry>
    requires e.embedded.Some?
  {
    match e
    case Set(_, _, _, _, _, _, _, _) => es + [e.Stored()]
    case Get(_, _, _, _, _) => Unexpired(es, e.now)
  }

  // ------------------------------------------------------------- the class

  /** A slice: the first len elements of a buffer. */
  datatype Slice = Slice(buf: array<Entry>, len: nat)

  class SemanticCache {
    const cosine: Similarity
    var partitions: map<Bytes, Slice>
    ghost var contents: Cache

    constructor (cosine: Similarity)
      ensures Valid() && contents == map[] && Buffers() == {} && this.cosine == cosine
    {
      this.cosine, partitions, contents := cosine, map[], map[];
    }

    ghost function Buffers(): set<object>
      reads this
    {
      set k | k in partitions :: partitions[k].buf
    }

    ghost predicate Holds(key: Bytes)
      reads this, Buffers()
    {
      && (key in partitions <==> key in contents)
      && (key in partitions ==>
            && partitions[key].len <= partitions[key].buf.Length
            && contents[key] == partitions[key].buf[..partitions[key].len])
    }

    /** No two partitions share a buffer. */
    ghost predicate Valid()
      reads this, Buffers()
    {
      && (forall k :: Holds(k))
      && (forall k, k' :: k in partitions && k' in partitions && k != k' ==> partitions[k].buf != partitions[k'].buf)
    }

    /** Appending writes into spare capacity when there is some. */
    method Set(embedded: Option<Vector>, prompt: Bytes, model: Bytes, temp: Bytes, response: Bytes, ttl: int, cost: real, now: int)
      returns (ok: bool)
      requires Valid()
      modifies this, Buffers()
      ensures Valid() && fresh(Buffers() - old(Buffers()))
      ensures ok == embedded.Some?
      ensures contents == Next(old(contents), Event.Set(embedded, prompt, model, temp, response, ttl, cost, now))
    {
      if embedded.None? { return false; }
      var expiresAt := None;
      if ttl > 0 { expiresAt := Some(now + ttl); }
      var e := Entry(prompt, embedded.value, response, expiresAt, cost);
      var key := PartitionKey(model, temp);
      assert Holds(key);
      if key in partitions && partitions[key].len < partitions[key].buf.Length {
        var slice := partitions[key];
        slice.buf[slice.len] := e;
        assert slice.buf[..slice.len + 1] == old(slice.buf[..slice.len]) + [e];
        partitions := partitions[key := Slice(slice.buf, slice.len + 1)];
      } else {
        var slice := Grown(key, e);
        partitions := partitions[key := slice];
      }
      contents := contents[key := Partition(contents, key) + [e]];
      OthersKept(key);
      ok := true;
    }

    /** A call that writes only to the buffer of one partition leaves the others alone. */
    twostate lemma OthersKept(key: Bytes)
      requires old(Valid()) && key in partitions && key in contents && Holds(key)
      requires partitions == old(partitions)[key := partitions[key]] && contents == old(contents)[key := contents[key]]
      requires fresh(partitions[key].buf) || (key in old(partitions) && partitions[key].buf == old(partitions[key].buf))
      requires forall k :: k in old(partitions) && k != key ==> unchanged(old(partitions)[k].buf)
      ensures Valid()
    {
      forall k ensures Holds(k) {
        assert old(Holds(k));
      }
    }

    /** A copy of a partition in a larger buffer, with one more entry. */
    method Grown(key: Bytes, e: Entry) returns (slice: Slice)
      requires Valid()
      ensures fresh(slice.buf) && slice.len <= slice.buf.Length
      ensures slice.buf[..slice.len] == Partition(contents, key) + [e]
    {
      assert Holds(key);
      var len := if key in partitions then partitions[key].len else 0;
      var buf := new Entry[2 * len + 1];
      for i := 0 to len
        invariant key in partitions ==> len == partitions[key].len
        invariant len > 0 ==> key in partitions && buf[..i] == partitions[key].buf[..i]
      {
        buf[i] := partitions[key].buf[i];
      }
      buf[len] := e;
      slice := Slice(buf, len + 1);
    }

    method Get(embedded: Option<Vector>, model: Bytes, temp: Bytes, threshold: real, now: int) returns (answer: Answer)
      requires Valid()
      modifies this, Buffers()
      ensures Valid() && fresh(Buffers() - old(Buffers()))
      ensures var get := Event.Get(embedded, model, temp, threshold, now);
        && answer == AnswerTo(Partition(old(contents), get.Key()), cosine, get)
        && contents == Next(old(contents), get)
    {
      if embedded.None? { return Failed; }
      var key := PartitionKey(model, temp);
      assert Holds(key);
      var slice: Slice;
      if key in partitions {
        slice := partitions[key];
      } else {
        var empty := new Entry[0];
        slice := Slice(empty, 0);
      }
      var kept, bestIdx, bestScore := Compact(slice, now, embedded.value);
      partitions := partitions[key := Slice(slice.buf, kept)];
      contents := contents[key := Unexpired(Partition(contents, key), now)];
      OthersKept(key);
      BestIsTheOnlyBest(slice.buf[..kept], bestIdx, embedded.value, cosine);
      if bestIdx < 0 || bestScore < threshold { return Miss; }
      return Hit(slice.buf[bestIdx].response, slice.buf[bestIdx].cost);
    }

    /** The scan: the write index never runs ahead of the read index. */
    method Compact(slice: Slice, now: int, vec: Vector) returns (kept: nat, bestIdx: int, bestScore: real)
      requires slice.len <= slice.buf.Length
      modifies slice.buf
      ensures kept <= slice.len
      ensures slice.buf[..kept] == Unexpired(old(slice.buf[..slice.len]), now)
      ensures IsBest(slice.buf[..kept], bestIdx, vec, cosine)
      ensures bestIdx >= 0 ==> cosine(vec, slice.buf[bestIdx].embedding) == Some(bestScore)
    {
      var buf := slice.buf;
      ghost var all := buf[..slice.len];
      ghost var done: seq<Entry> := [];
      kept, bestIdx, bestScore := 0, -1, 0.0;
      for i := 0 to slice.len
        invariant kept == |done| <= i
        invariant forall j :: 0 <= j < kept ==> buf[j] == done[j]
        invariant forall j :: i <= j < slice.len ==> buf[j] == all[j]
        invariant done == UnexpiredUpTo(all, i, now)
        invariant IsBest(done, bestIdx, vec, cosine)
        invariant bestIdx >= 0 ==> cosine(vec, done[bestIdx].embedding) == Some(bestScore)
      {
        var e := buf[i];
        if !e.Expired(now) {
          var score := cosine(vec, e.embedding);
          BestGrows(done, bestIdx, e, vec, cosine);
          if score.Some? && (bestIdx < 0 || score.value > bestScore) {
            bestIdx, bestScore := kept, score.value;
          }
          buf[kept], kept, done := e, kept + 1, done + [e];
        }
      }
      UpToIsUnexpired(all, slice.len, now);
      assert all[..slice.len] == all && buf[..kept] == done;
    }
  }

  lemma BestGrows(es: seq<Entry>, best: int, e: Entry, vec: Vector, cosine: Similarity)
    requires IsBest(es, best, vec, cosine)
    ensures var score := cosine(vec, e.embedding);
      var better := score.Some? && (best < 0 || score.value > cosine(vec, es[best].embedding).value);
      IsBest(es + [e], if better then |es| else best, vec, cosine)
  {}

  lemma OneMoreEntry(es: seq<Entry>, e: Entry, now: int)
    ensures Unexpired(es + [e], now) == if e.Expired(now) then Unexpired(es, now) else Unexpired(es, now) + [e]
  {
    assert (es + [e])[..|es|] == es;
  }

  /** The scan's progress: the unexpired ones among the first n. */
  function UnexpiredUpTo(es: seq<Entry>, n: nat, now: int): seq<Entry>
    requires n <= |es|
  {
    if n == 0 then []
    else if es[n - 1].Expired(now) then UnexpiredUpTo(es, n - 1, now)
    else UnexpiredUpTo(es, n - 1, now) + [es[n - 1]]
  }

  lemma {:induction false} UpToIsUnexpired(es: seq<Entry>, n: nat, now: int)
    requires n <= |es|
    ensures UnexpiredUpTo(es, n, now) == Unexpired(es[..n], now)
  {
    if n > 0 {
      UpToIsUnexpired(es, n - 1, now);
      assert es[..n] == es[..n - 1] + [es[n - 1]];
    }
  }

  // -------------------------------------------------- which entry answers

  ghost predicate Comparable(es: seq<Entry>, i: int, vec: Vector, now: int, cosine: Similarity) {
    0 <= i < |es| && !es[i].Expired(now) && cosine(vec, es[i].embedding).Some?
  }

  /** Entry i answers: unexpired, with the greatest defined score, and the first such. */
  ghost predicate Wins(es: seq<Entry>, i: int, vec: Vector, now: int, cosine: Similarity) {
    && Comparable(es, i, vec, now, cosine)
    && (forall j :: Comparable(es, j, vec, now, cosine) ==>
          && cosine(vec, es[j].embedding).value <= cosine(vec, es[i].embedding).value
          && (j < i ==> cosine(vec, es[j].embedding).value < cosine(vec, es[i].embedding).value))
  }

  /** What Best finds in the compacted partition, in terms of the stored one. */
  ghost predicate Explains(es: seq<Entry>, kept: seq<Entry>, best: int, vec: Vector, now: int, cosine: Similarity) {
    -1 <= best < |kept| &&
    if best < 0 then forall i :: !Comparable(es, i, vec, now, cosine)
    else exists i :: Wins(es, i, vec, now, cosine) && es[i] == kept[best]
  }

  lemma {:induction false} BestWins(es: seq<Entry>, vec: Vector, now: int, cosine: Similarity)
    ensures Explains(es, Unexpired(es, now), Best(Unexpired(es, now), vec, cosine), vec, now, cosine)
  {
    if es != [] {
      var init, e := es[..|es| - 1], es[|es| - 1];
      BestWins(init, vec, now, cosine);
      assert es == init + [e];
      BestWinsNext(init, e, vec, now, cosine);
    }
  }

  lemma BestNext(es: seq<Entry>, e: Entry, vec: Vector, cosine: Similarity)
    ensures var best, score := Best(es, vec, cosine), cosine(vec, e.embedding);
      Best(es + [e], vec, cosine)
      == if score.Some? && (best < 0 || score.value > cosine(vec, es[best].embedding).value) then |es| else best
  {
    assert (es + [e])[..|es|] == es;
  }

  lemma BestWinsNext(es: seq<Entry>, e: Entry, vec: Vector, now: int, cosine: Similarity)
    requires Explains(es, Unexpired(es, now), Best(Unexpired(es, now), vec, cosine), vec, now, cosine)
    ensures Explains(es + [e], Unexpired(es + [e], now), Best(Unexpired(es + [e], now), vec, cosine), vec, now, cosine)
  {
    OneMoreEntry(es, e, now);
    var kept := Unexpired(es, now);
    BestNext(kept, e, vec, cosine);
    if Comparable(es + [e], |es|, vec, now, cosine) {
      NewEntryCounts(es, e, kept, Best(kept, vec, cosine), vec, now, cosine);
    } else {
      OldEntriesStand(es, e, kept, Best(kept, vec, cosine), vec, now, cosine);
    }
  }

  lemma OldEntriesStand(es: seq<Entry>, e: Entry, kept: seq<Entry>, best: int, vec: Vector, now: int, cosine: Similarity)
    requires Explains(es, kept, best, vec, now, cosine)
    requires !Comparable(es + [e], |es|, vec, now, cosine)
    ensures Explains(es + [e], kept, best, vec, now, cosine) && Explains(es + [e], kept + [e], best, vec, now, cosine)
  {
    forall i | Comparable(es + [e], i, vec, now, cosine) ensures Comparable(es, i, vec, now, cosine) {}
    if best >= 0 {
      var i :| Wins(es, i, vec, now, cosine) && es[i] == kept[best];
      assert Wins(es + [e], i, vec, now, cosine);
    }
  }

  lemma NewEntryCounts(es: seq<Entry>, e: Entry, kept: seq<Entry>, best: int, vec: Vector, now: int, cosine: Similarity)
    requires Explains(es, kept, best, vec, now, cosine)
    requires Comparable(es + [e], |es|, vec, now, cosine)
    requires best >= 0 ==> cosine(vec, kept[best].embedding).Some?
    ensures var beaten := best < 0 || cosine(vec, e.embedding).value > cosine(vec, kept[best].embedding).value;
      Explains(es + [e], kept + [e], if beaten then |kept| else best, vec, now, cosine)
  {
    var score := cosine(vec, e.embedding).value;
    if best < 0 {
      forall j | 0 <= j < |es| ensures !Comparable(es + [e], j, vec, now, cosine) { assert !Comparable(es, j, vec, now, cosine); }
      assert Wins(es + [e], |es|, vec, now, cosine);
    } else {
      var i :| Wins(es, i, vec, now, cosine) && es[i] == kept[best];
      if score > cosine(vec, es[i].embedding).value {
        assert Wins(es + [e], |es|, vec, now, cosine);
      } else {
        assert Wins(es + [e], i, vec, now, cosine);
      }
    }
  }

  /** A hit is the earliest unexpired entry with the greatest defined score, if that
      score reaches the threshold; otherwise no unexpired entry's score reaches it. */
  lemma LookupFindsTheClosest(es: seq<Entry>, cosine: Similarity, get: Event)
    requires get.Get? && get.embedded.Some?
    ensures var vec := get.embedded.value;
      match AnswerTo(es, cosine, get)
      case Failed => false
      case Hit(response, cost) =>
        (exists i :: Wins(es, i, vec, get.now, cosine) && cosine(vec, es[i].embedding).value >= get.threshold
                  && es[i].response == response && es[i].cost == cost)
      case Miss => forall i :: Comparable(es, i, vec, get.now, cosine) ==> cosine(vec, es[i].embedding).value < get.threshold
  {
    BestWins(es, get.embedded.value, get.now, cosine);
  }

  // ------------------------------------------------- lookups over whole runs

  function Run(c: Cache, es: seq<Event>): Cache {
    if es == [] then c else Next(Run(c, es[..|es| - 1]), es[|es| - 1])
  }

  /** The run without the lookups at the given positions. */
  function Without(es: seq<Event>, dropped: set<nat>): seq<Event> {
    if es == [] then []
    else
      var init, e := es[..|es| - 1], es[|es| - 1];
      Without(init, dropped) + if e.Get? && |init| in dropped then [] else [e]
  }

  /** The clock never goes back, and has not passed now. */
  ghost predicate ClockUpTo(es: seq<Event>, now: int) {
    && (forall i, j :: 0 <= i < j < |es| ==> es[i].now <= es[j].now)
    && (forall i :: 0 <= i < |es| ==> es[i].now <= now)
  }

  lemma {:induction false} UnexpiredLater(es: seq<Entry>, then_: int, now: int)
    requires then_ <= now
    ensures Unexpired(Unexpired(es, then_), now) == Unexpired(es, now)
  {
    if es != [] {
      var init, e := es[..|es| - 1], es[|es| - 1];
      UnexpiredLater(init, then_, now);
      OneMoreEntry(Unexpired(init, then_), e, now);
    }
  }

  ghost predicate SameUnexpired(c: Cache, d: Cache, now: int) {
    forall k :: Unexpired(Partition(c, k), now) == Unexpired(Partition(d, k), now)
  }

  lemma LookupStepsKeepIt(c: Cache, d: Cache, e: Event, now: int)
    requires SameUnexpired(c, d, now) && e.Get? && e.now <= now
    ensures SameUnexpired(Next(c, e), d, now)
  {
    forall k ensures Unexpired(Partition(Next(c, e), k), now) == Unexpired(Partition(d, k), now) {
      assert Unexpired(Partition(c, k), now) == Unexpired(Partition(d, k), now);
      UnexpiredLater(Partition(c, k), e.now, now);
    }
  }

  lemma StoreStepKeepsKey(c: Cache, d: Cache, e: Event, now: int, k: Bytes)
    requires Unexpired(Partition(c, k), now) == Unexpired(Partition(d, k), now) && e.Set?
    ensures Unexpired(Partition(Next(c, e), k), now) == Unexpired(Partition(Next(d, e), k), now)
  {
    if e.embedded.Some? && k == e.Key() {
      var es, fs := Partition(c, k), Partition(d, k);
      assert Partition(Next(c, e), k) == es + [e.Stored()] && Partition(Next(d, e), k) == fs + [e.Stored()];
      OneMoreEntry(es, e.Stored(), now);
      OneMoreEntry(fs, e.Stored(), now);
    }
  }

  lemma StoreStepsKeepIt(c: Cache, d: Cache, e: Event, now: int)
    requires SameUnexpired(c, d, now) && e.Set?
    ensures SameUnexpired(Next(c, e), Next(d, e), now)
  {
    forall k ensures Unexpired(Partition(Next(c, e), k), now) == Unexpired(Partition(Next(d, e), k), now) {
      StoreStepKeepsKey(c, d, e, now, k);
    }
  }

  lemma {:induction false} DroppedLookupsLeaveNoTrace(c: Cache, es: seq<Event>, dropped: set<nat>, now: int)
    requires ClockUpTo(es, now)
    ensures SameUnexpired(Run(c, es), Run(c, Without(es, dropped)), now)
  {
    if es != [] {
      var init, e := es[..|es| - 1], es[|es| - 1];
      var rest := Without(init, dropped);
      DroppedLookupsLeaveNoTrace(c, init, dropped, now);
      assert (rest + [e])[..|rest|] == rest && rest + [] == rest;
      if e.Set? {
        StoreStepsKeepIt(Run(c, init), Run(c, rest), e, now);
      } else {
        LookupStepsKeepIt(Run(c, init), Run(c, rest), e, now);
        LookupStepsKeepIt(Run(c, rest), Run(c, es), e, now);
      }
    }
  }

  /** With a clock that never goes back, deleting any earlier lookups changes no later one. */
  lemma LookupsDoNotInterfere(c: Cache, es: seq<Event>, dropped: set<nat>, get: Event, cosine: Similarity)
    requires get.Get? && ClockUpTo(es, get.now)
    ensures AnswerTo(Partition(Run(c, es), get.Key()), cosine, get)
         == AnswerTo(Partition(Run(c, Without(es, dropped)), get.Key()), cosine, get)
  {
    DroppedLookupsLeaveNoTrace(c, es, dropped, get.now);
  }

  /** One lookup never changes what another in the same partition finds, whatever is stored,
      if and only if its clock reading is no later; given only that the other can hit at all. */
  lemma LookupIsHarmlessExactlyWhen(first: Event, then_: Event, hit: Vector, cosine: Similarity)
    requires first.Get? && then_.Get? && first.embedded.Some? && then_.embedded.Some? && first.Key() == then_.Key()
    requires cosine(then_.embedded.value, hit).Some? && cosine(then_.embedded.value, hit).value >= then_.threshold
    ensures (forall c: Cache :: FindsTheSame(c, first, then_, cosine)) <==> first.now <= then_.now
  {
    if first.now <= then_.now {
      forall c: Cache ensures FindsTheSame(c, first, then_, cosine) {
        UnexpiredLater(Partition(c, then_.Key()), first.now, then_.now);
      }
    } else {
      var stored := Entry([], hit, [7], Some(first.now), 0.0);
      var c: Cache := map[then_.Key() := [stored]];
      ExpiredIsDropped(stored, first.now);
      UnexpiredAnswers(stored, then_, cosine);
      assert Partition(Next(c, first), then_.Key()) == [] && Partition(c, then_.Key()) == [stored];
      assert !FindsTheSame(c, first, then_, cosine);
    }
  }

  lemma ExpiredIsDropped(e: Entry, now: int)
    ensures Unexpired([e], now) == if e.Expired(now) then [] else [e]
  {
    assert [e] == [] + [e];
    OneMoreEntry([], e, now);
  }

  lemma UnexpiredAnswers(e: Entry, get: Event, cosine: Similarity)
    requires get.Get? && get.embedded.Some? && !e.Expired(get.now)
    requires cosine(get.embedded.value, e.embedding).Some?
    requires cosine(get.embedded.value, e.embedding).value >= get.threshold
    ensures AnswerTo([e], cosine, get) == Hit(e.response, e.cost) && AnswerTo([], cosine, get) == Miss
  {
    ExpiredIsDropped(e, get.now);
    assert [e][..0] == [];
  }

  ghost predicate FindsTheSame(c: Cache, first: Event, then_: Event, cosine: Similarity)
    requires then_.Get?
  {
    AnswerTo(Partition(Next(c, first), then_.Key()), cosine, then_) == AnswerTo(Partition(c, then_.Key()), cosine, then_)
  }

  /** With a clock that goes back a lookup can lose an entry for a later lookup. */
  lemma ClockGoingBackLosesEntries(vec: Vector, cosine: Similarity)
    requires cosine(vec, vec) == Some(1.0)
    ensures var set_ := Event.Set(Some(vec), [], [], [], [7], 5, 0.0, 0);
      var late, early := Get(Some(vec), [], [], 0.5, 9), Get(Some(vec), [], [], 0.5, 1);
      && AnswerTo(Partition(Run(map[], [set_]), early.Key()), cosine, early) == Hit([7], 0.0)
      && AnswerTo(Partition(Run(map[], [set_, late]), early.Key()), cosine, early) == Miss
  {
    var set_ := Event.Set(Some(vec), [], [], [], [7], 5, 0.0, 0);
    var late := Get(Some(vec), [], [], 0.5, 9);
    var stored := Entry([], vec, [7], Some(5), 0.0);
    assert [set_][..0] == [] && [set_, late][..1] == [set_];
    assert Partition(Run(map[], [set_]), late.Key()) == [stored];
    assert [stored] == [] + [stored];
    OneMoreEntry([], stored, 9);
    OneMoreEntry([], stored, 1);
  }

  // ------------------------------------------------------- the partitions

  /** Two pairs of model and temperature, the first model no longer than the second, have one
      partition exactly when they are equal or the second model continues the first past a NUL. */
  lemma PartitionsCollideExactlyWhen(model: Bytes, temp: Bytes, model': Bytes, temp': Bytes)
    requires |model| <= |model'|
    ensures PartitionKey(model, temp) == PartitionKey(model', temp') <==>
      (model == model' && temp == temp') || exists x :: model' == model + [NUL] + x && temp == x + [NUL] + temp'
  {
    FlatMap.CollidesExactlyWhen(model, temp, model', temp');
  }

  /** A case: two models that share a partition. */
  lemma NulMixesPartitions()
    ensures PartitionKey([1], [2, NUL, 3]) == PartitionKey([1, NUL, 2], [3])
  {
    FlatMap.NulBreaksIsolation();
  }

  /** Temperatures without NUL keep the partitions apart, whatever the models; so do models. */
  lemma PartitionKeyInjective(model: Bytes, temp: Bytes, model': Bytes, temp': Bytes)
    requires (NUL !in temp && NUL !in temp') || (NUL !in model && NUL !in model')
    ensures PartitionKey(model, temp) == PartitionKey(model', temp') <==> model == model' && temp == temp'
  {
    if |model| <= |model'| {
      PartitionsCollideExactlyWhen(model, temp, model', temp');
    } else {
      PartitionsCollideExactlyWhen(model', temp', model, temp);
    }
  }

  ghost predicate Ignores(c: Cache, e: Event, get: Event, cosine: Similarity)
    requires get.Get?
  {
    AnswerTo(Partition(Next(c, e), get.Key()), cosine, get) == AnswerTo(Partition(c, get.Key()), cosine, get)
  }

  lemma OtherPartition(c: Cache, e: Event, get: Event, cosine: Similarity)
    requires get.Get? && e.Key() != get.Key()
    ensures Ignores(c, e, get, cosine)
  {}

  /** What is stored or looked up under another model or temperature never matters, as long
      as the temperatures, or else the models, are free of NUL. */
  lemma PartitionsAreApart(c: Cache, e: Event, get: Event, cosine: Similarity)
    requires get.Get? && (e.model != get.model || e.temp != get.temp)
    requires (NUL !in e.temp && NUL !in get.temp) || (NUL !in e.model && NUL !in get.model)
    ensures Ignores(c, e, get, cosine)
  {
    PartitionKeyInjective(e.model, e.temp, get.model, get.temp);
    OtherPartition(c, e, get, cosine);
  }

  /** Something stored under one model and temperature, close enough and not expired, can answer
      a lookup under another, in some cache, if and only if the two share a partition. */
  lemma CrossMatchesExactlyWhen(store: Event, get: Event, cosine: Similarity)
    requires store.Set? && store.embedded.Some? && get.Get? && get.embedded.Some?
    requires !store.Stored().Expired(get.now)
    requires cosine(get.embedded.value, store.embedded.value).Some?
    requires cosine(get.embedded.value, store.embedded.value).value >= get.threshold
    ensures (exists c: Cache :: !Ignores(c, store, get, cosine)) <==> store.Key() == get.Key()
  {
    if store.Key() == get.Key() {
      var c: Cache := map[];
      UnexpiredAnswers(store.Stored(), get, cosine);
      assert [] + [store.Stored()] == [store.Stored()];
      assert !Ignores(c, store, get, cosine);
    } else {
      forall c: Cache ensures Ignores(c, store, get, cosine) { OtherPartition(c, store, get, cosine); }
    }
  }
}
