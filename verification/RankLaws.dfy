/** Sorted sets: what ZRANGE and ZRANK mean by comparison of scores and names. */
module RankLaws {
  import opened Base
  import opened Keyspace
  import opened ListLaws
  import opened OpLaws

  /** The members come with their scores, each once, by ascending score, and those of one score by
      ascending name. */
  lemma SortedMembersAscend(z: map<Bytes, real>)
    ensures var s := SortedMembers(z);
      && (forall m, x :: (m, x) in s <==> m in z && z[m] == x)
      && |s| == |z|
      && forall i, j :: 0 <= i < j < |s| ==> s[i].1 <= s[j].1 && (s[i].1 == s[j].1 ==> BytesLess(s[i].0, s[j].0))
  {
    RankLessIsTotal();
    DistinctCardinality(SortedMembers(z), Pairs(z));
    PairsOfMembers(z, z.Keys);
    assert Pairs(z) == set m | m in z.Keys :: (m, z[m]);
  }

  lemma {:induction false} PairsOfMembers(z: map<Bytes, real>, ms: set<Bytes>)
    requires ms <= z.Keys
    ensures |set m | m in ms :: (m, z[m])| == |ms|
  {
    var pairs := set m | m in ms :: (m, z[m]);
    if ms == {} {
      assert pairs == {};
    } else {
      var m :| m in ms;
      PairsOfMembers(z, ms - {m});
      var rest := set k | k in ms - {m} :: (k, z[k]);
      assert pairs == rest + {(m, z[m])};
      assert (m, z[m]) !in rest;
    }
  }

  /** ZRANGE: the members at the positions between the two indexes, counted from the lowest. */
  lemma ZRangeMeans(start: int, stop: int, cur: Option<Slot>, now: int)
    requires cur.Some? ==> cur.value.val.ZSetValue?
    ensures var o, n := Run(ZRange(start, stop), cur, now), |ScoresOf(cur)|;
      && o.slot == cur && o.bumps == 0
      && o.reply == Ranked(At(SortedMembers(ScoresOf(cur)), if start < 0 then n + start else start,
                              if stop < 0 then n + stop else stop))
  {
    var z := ScoresOf(cur);
    WindowOfMembers(z, start, stop);
    ZRangeReply(start, stop, cur);
  }

  lemma WindowOfMembers(z: map<Bytes, real>, start: int, stop: int)
    ensures Between(SortedMembers(z), start, stop)
         == At(SortedMembers(z), if start < 0 then |z| + start else start, if stop < 0 then |z| + stop else stop)
  {
    SortedMembersAscend(z);
    WindowIsPositions(SortedMembers(z), start, stop);
  }

  lemma ZRangeReply(start: int, stop: int, cur: Option<Slot>)
    requires cur.Some? ==> cur.value.val.ZSetValue?
    ensures RunZRange(start, stop, cur) == Unchanged(Ranked(Between(SortedMembers(ScoresOf(cur)), start, stop)), cur)
  {
    NoMembers(start, stop);
  }

  lemma NoMembers(start: int, stop: int)
    ensures Between(SortedMembers(map[]), start, stop) == []
  {
    SortedMembersAscend(map[]);
  }

  /** Those that rank before a member: a lower score, or the same score and a lesser name. */
  function Ahead(z: map<Bytes, real>, member: Bytes): set<Bytes>
    requires member in z
  {
    set m | m in z && (z[m] < z[member] || (z[m] == z[member] && BytesLess(m, member)))
  }

  function FirstNames(s: seq<(Bytes, real)>, n: nat): set<Bytes>
    requires n <= |s|
  {
    set i | 0 <= i < n :: s[i].0
  }

  lemma {:induction false} FirstNamesCount(s: seq<(Bytes, real)>, n: nat)
    requires n <= |s| && forall i, j :: 0 <= i < j < |s| ==> s[i].0 != s[j].0
    ensures |FirstNames(s, n)| == n
  {
    if n > 0 {
      FirstNamesCount(s, n - 1);
      assert FirstNames(s, n) == FirstNames(s, n - 1) + {s[n - 1].0};
    }
  }

  lemma PlaceIsAhead(z: map<Bytes, real>, member: Bytes, r: nat)
    requires member in z && r < |SortedMembers(z)| && SortedMembers(z)[r] == (member, z[member])
    ensures FirstNames(SortedMembers(z), r) == Ahead(z, member)
  {
    var s := SortedMembers(z);
    SortedMembersAscend(z);
    BytesLessIsTotal();
    forall m | m in Ahead(z, member) ensures m in FirstNames(s, r) {
      assert (m, z[m]) in s;
      var i :| 0 <= i < |s| && s[i] == (m, z[m]);
      assert i < r;
    }
    forall m | m in FirstNames(s, r) ensures m in Ahead(z, member) {
      var i :| 0 <= i < r && s[i].0 == m;
      assert s[i] in s && s[i] == (m, z[m]);
    }
  }

  lemma RankIsAhead(z: map<Bytes, real>, member: Bytes)
    requires member in z
    ensures RankOf(z, member) == |Ahead(z, member)|
  {
    var r, s := RankOf(z, member), SortedMembers(z);
    PlaceIsAhead(z, member, r);
    forall i, j | 0 <= i < j < |s| ensures s[i].0 != s[j].0 { NamesDiffer(z, i, j); }
    FirstNamesCount(s, r);
  }

  /** ZRANK: the number of members that rank before; none exactly for what is no member. */
  lemma ZRankCounts(member: Bytes, cur: Option<Slot>, now: int)
    requires cur.Some? ==> cur.value.val.ZSetValue?
    ensures var o, z := Run(ZRank(member), cur, now), ScoresOf(cur);
      && o.slot == cur && o.bumps == 0
      && (o.reply == Nil <==> member !in z)
      && (member in z ==> o.reply == Number(|Ahead(z, member)|))
  {
    if member in ScoresOf(cur) { RankIsAhead(ScoresOf(cur), member); }
  }

  lemma NamesDiffer(z: map<Bytes, real>, i: nat, j: nat)
    requires i < j < |SortedMembers(z)|
    ensures SortedMembers(z)[i].0 != SortedMembers(z)[j].0
  {
    var s := SortedMembers(z);
    SortedMembersAscend(z);
    BytesLessTrichotomy(s[i].0, s[j].0);
    assert s[i] in s && s[j] in s;
  }

  /** A case: a with score 1 and b with score 2 come in this order. */
  lemma LowerScoreFirst(a: Bytes, b: Bytes)
    requires a != b
    ensures SortedMembers(map[a := 1.0, b := 2.0]) == [(a, 1.0), (b, 2.0)]
    ensures Ahead(map[a := 1.0, b := 2.0], a) == {} && Ahead(map[a := 1.0, b := 2.0], b) == {a}
  {
    var z := map[a := 1.0, b := 2.0];
    BytesLessTrichotomy(a, a);
    BytesLessTrichotomy(b, b);
    SortedMembersAscend(z);
    var s := SortedMembers(z);
    assert z.Keys == {a, b} && |s| == 2;
    assert (a, 1.0) in s && (b, 2.0) in s && s[0] in s && s[1] in s;
  }
}
