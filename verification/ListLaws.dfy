/** What LREM removes, said without reference to how it walks the list. */
module ListLaws {
  import opened Base
  import opened Keyspace
  import opened ValueLoops

  function Occurrences(s: seq<Bytes>, v: Bytes): nat { multiset(s)[v] }

  /** Everything but v, in order. */
  function Others(s: seq<Bytes>, v: Bytes): seq<Bytes> {
    if s == [] then [] else (if s[0] == v then [] else [s[0]]) + Others(s[1..], v)
  }

  function Least(a: nat, b: nat): nat { if a < b then a else b }

  lemma OccurrencesCons(s: seq<Bytes>, v: Bytes)
    requires s != []
    ensures Occurrences(s, v) == (if s[0] == v then 1 else 0) + Occurrences(s[1..], v)
  {
    assert s == [s[0]] + s[1..];
  }

  lemma {:induction false} OthersLength(s: seq<Bytes>, v: Bytes)
    ensures |Others(s, v)| == |s| - Occurrences(s, v) && Occurrences(s, v) <= |s|
  {
    if s != [] {
      OccurrencesCons(s, v);
      OthersLength(s[1..], v);
    }
  }

  lemma {:induction false} OthersAppend(s: seq<Bytes>, t: seq<Bytes>, v: Bytes)
    ensures Others(s + t, v) == Others(s, v) + Others(t, v)
  {
    if s == [] {
      assert s + t == t;
    } else {
      assert (s + t)[1..] == s[1..] + t;
      OthersAppend(s[1..], t, v);
    }
  }

  lemma {:induction false} BackwardsAppend(s: seq<Bytes>, t: seq<Bytes>)
    ensures Backwards(s + t) == Backwards(t) + Backwards(s)
  {
    if s == [] {
      assert s + t == t;
    } else {
      assert (s + t)[1..] == s[1..] + t;
      BackwardsAppend(s[1..], t);
    }
  }

  lemma {:induction false} BackwardsOthers(s: seq<Bytes>, v: Bytes)
    ensures Others(Backwards(s), v) == Backwards(Others(s, v))
  {
    if s != [] {
      var rest := s[1..];
      BackwardsOthers(rest, v);
      OthersAppend(Backwards(rest), [s[0]], v);
      assert Others([s[0]], v) == if s[0] == v then [] else [s[0]];
      BackwardsAppend(if s[0] == v then [] else [s[0]], Others(rest, v));
      assert Backwards([s[0]]) == [s[0]];
    }
  }

  lemma {:induction false} BackwardsElements(s: seq<Bytes>)
    ensures multiset(Backwards(s)) == multiset(s)
  {
    if s != [] {
      BackwardsElements(s[1..]);
      assert s == [s[0]] + s[1..];
    }
  }

  /** The cut up to which the occurrences go. */
  lemma {:induction false} DropFirstCut(s: seq<Bytes>, v: Bytes, limit: nat) returns (p: nat)
    ensures p <= |s| && Occurrences(s[..p], v) == Least(limit, Occurrences(s, v))
    ensures DropFirst(s, v, limit) == Others(s[..p], v) + s[p..]
  {
    if s == [] {
      p := 0;
    } else if limit == 0 {
      p := 0;
      DropNone(s, v);
    } else {
      var hit := s[0] == v;
      var q := DropFirstCut(s[1..], v, if hit then limit - 1 else limit);
      p := q + 1;
      OccurrencesCons(s, v);
      assert s[..p][1..] == s[1..][..q] && s[p..] == s[1..][q..];
      OccurrencesCons(s[..p], v);
    }
  }

  lemma {:induction false} DropNone(s: seq<Bytes>, v: Bytes)
    ensures DropFirst(s, v, 0) == s
  {
    if s != [] { DropNone(s[1..], v); }
  }

  /** LREM with count: min(|count|, occurrences) of v go (all of them for 0), the
      ones nearest the head for a positive count and nearest the tail for a
      negative one; everything else stays, in order. */
  lemma LRemRemoves(s: seq<Bytes>, count: int, v: Bytes) returns (p: nat)
    ensures p <= |s|
    ensures var n := Occurrences(s, v);
      var removed := if count == 0 then n else Least(if count > 0 then count else -count, n);
      && |ListWithout(s, count, v)| == |s| - removed
      && (count >= 0 ==> Occurrences(s[..p], v) == removed && ListWithout(s, count, v) == Others(s[..p], v) + s[p..])
      && (count < 0 ==> Occurrences(s[p..], v) == removed && ListWithout(s, count, v) == s[..p] + Others(s[p..], v))
  {
    OthersLength(s, v);
    if count >= 0 {
      p := DropFirstCut(s, v, if count == 0 then |s| else count);
      OthersLength(s[..p], v);
    } else {
      var b := Backwards(s);
      var q := DropFirstCut(b, v, -count);
      BackwardsLength(s);
      p := |s| - q;
      BackwardsAppend(s[..p], s[p..]);
      assert s[..p] + s[p..] == s;
      BackwardsLength(s[..p]);
      BackwardsLength(s[p..]);
      assert b[..q] == Backwards(s[p..]) && b[q..] == Backwards(s[..p]);
      BackwardsOthers(s[p..], v);
      BackwardsElements(s[p..]);
      BackwardsElements(s);
      BackwardsAppend(Others(b[..q], v), b[q..]);
      BackwardsTwice(s[..p]);
      BackwardsTwice(Others(s[p..], v));
      OthersLength(s[p..], v);
    }
  }

  /** A negative count is the mirror image of the positive one, zero is its own. */
  lemma LRemMirror(s: seq<Bytes>, count: int, v: Bytes)
    ensures ListWithout(s, -count, v) == Backwards(ListWithout(Backwards(s), count, v))
  {
    BackwardsTwice(s);
    if count == 0 {
      BackwardsLength(s);
      DropAll(s, v, |s|);
      DropAll(Backwards(s), v, |s|);
      BackwardsOthers(s, v);
      BackwardsTwice(Others(s, v));
    } else if count < 0 {
      BackwardsTwice(DropFirst(s, v, -count));
    }
  }

  lemma {:induction false} DropAll(s: seq<Bytes>, v: Bytes, limit: nat)
    requires limit >= |s|
    ensures DropFirst(s, v, limit) == Others(s, v)
  {
    if s != [] {
      DropAll(s[1..], v, if s[0] == v then limit - 1 else limit);
    }
  }

  /** The key vanishes exactly when every element was removed. */
  lemma LRemVanishes(cur: Slot, count: int, v: Bytes, now: int)
    requires cur.val.ListValue? && cur.val.items != []
    ensures Run(LRem(count, v), Some(cur), now).slot.None? <==>
      (forall x :: x in cur.val.items ==> x == v)
      && (count == 0 || |cur.val.items| <= if count > 0 then count else -count)
  {
    NothingLeft(cur.val.items, count, v);
  }

  lemma NothingLeft(s: seq<Bytes>, count: int, v: Bytes)
    ensures ListWithout(s, count, v) == [] <==>
      (forall x :: x in s ==> x == v) && (count == 0 || |s| <= if count > 0 then count else -count)
  {
    var p := LRemRemoves(s, count, v);
    OthersLength(s, v);
    AllSame(s, v);
  }

  lemma {:induction false} AllSame(s: seq<Bytes>, v: Bytes)
    ensures Occurrences(s, v) == |s| <==> forall x :: x in s ==> x == v
  {
    if s != [] {
      OccurrencesCons(s, v);
      OthersLength(s[1..], v);
      AllSame(s[1..], v);
      assert s == [s[0]] + s[1..];
      assert s[0] in s && forall x :: x in s <==> x == s[0] || x in s[1..];
      if forall x :: x in s ==> x == v {
        assert forall x :: x in s[1..] ==> x in s;
      }
    }
  }

  /** LPUSH then LPOP, RPUSH then RPOP give the value back and leave the list alone. */
  lemma PushThenPop(cur: Slot, v: Bytes, now: int)
    requires cur.val.ListValue? && cur.val.items != []
    ensures var l := Run(LPush([v]), Some(cur), now).slot;
      Run(LPop, l, now).reply == Bulk(Copied(v)) && Run(LPop, l, now).slot == Some(cur)
    ensures var r := Run(RPush([v]), Some(cur), now).slot;
      Run(RPop, r, now).reply == Bulk(Copied(v)) && Run(RPop, r, now).slot == Some(cur)
  {
    assert Backwards([v]) == Backwards([]) + [v];
    assert ([v] + cur.val.items)[1..] == cur.val.items;
    assert (cur.val.items + [v])[..|cur.val.items|] == cur.val.items;
  }

  // ----------------------------------------------------------------- windows

  /** The elements at the positions from the one to the other, in order. */
  function At<T>(s: seq<T>, from: int, to: int): seq<T> {
    if s == [] then []
    else At(s[..|s| - 1], from, to) + if from <= |s| - 1 <= to then [s[|s| - 1]] else []
  }

  lemma {:induction false} AtNothing<T>(s: seq<T>, from: int, to: int)
    requires from > to || from >= |s| || to < 0 || s == []
    ensures At(s, from, to) == []
  {
    if s != [] { AtNothing(s[..|s| - 1], from, to); }
  }

  lemma FrontSlice<T>(s: seq<T>, lo: nat, n: nat)
    requires lo <= n < |s|
    ensures s[..|s| - 1][lo..n] == s[lo..n]
  {}

  lemma SliceGrows<T>(s: seq<T>, lo: nat, n: nat)
    requires lo <= n < |s|
    ensures s[lo..n + 1] == s[lo..n] + [s[n]]
  {}

  lemma {:induction false} AtIs<T>(s: seq<T>, from: int, to: int, lo: nat, hi: nat)
    requires lo <= hi < |s| && (lo == from || (lo == 0 && from < 0)) && (hi == to || (hi == |s| - 1 && to > hi))
    ensures At(s, from, to) == s[lo..hi + 1]
  {
    var last := |s| - 1;
    if hi < last {
      AtIs(s[..last], from, to, lo, hi);
      FrontSlice(s, lo, hi + 1);
    } else {
      if lo < last {
        AtIs(s[..last], from, to, lo, last - 1);
        FrontSlice(s, lo, last);
      } else {
        AtNothing(s[..last], from, to);
      }
      SliceGrows(s, lo, last);
    }
  }

  /** LRANGE and ZRANGE give exactly the elements at the positions between the two indexes, both
      included, counted from the end when negative; indexes past either end do no harm. */
  lemma WindowIsPositions<T>(s: seq<T>, start: int, stop: int)
    ensures Between(s, start, stop) == At(s, NormalizeIndex(start, |s|), NormalizeIndex(stop, |s|))
  {
    var from, to := NormalizeIndex(start, |s|), NormalizeIndex(stop, |s|);
    var lo := if from < 0 then 0 else from;
    var hi := if to >= |s| then |s| - 1 else to;
    if lo <= hi { AtIs(s, from, to, lo, hi); } else { AtNothing(s, from, to); }
  }
}
