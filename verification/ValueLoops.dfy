/** The loops inside the collection commands, each proved against the function
    that says what it computes. */
module ValueLoops {
  import opened Base
  import opened Keyspace
  import opened Numbers
  import Glob

  lemma {:induction false} BackwardsSnoc(s: seq<Bytes>, x: Bytes)
    ensures Backwards(s + [x]) == [x] + Backwards(s)
  {
    if s != [] {
      assert (s + [x])[1..] == s[1..] + [x];
      BackwardsSnoc(s[1..], x);
    }
  }

  lemma {:induction false} BackwardsAt(s: seq<Bytes>, i: nat)
    requires i < |s|
    ensures |Backwards(s)| == |s| && Backwards(s)[i] == s[|s| - 1 - i]
  {
    if |s| > 1 { BackwardsAt(s[1..], if i < |s| - 1 then i else 0); }
  }

  lemma TakeNext<T>(s: seq<T>, i: nat)
    requires i < |s|
    ensures s[..i + 1] == s[..i] + [s[i]]
  {}

  method PushFront(l0: seq<Bytes>, vals: seq<Bytes>) returns (l: seq<Bytes>)
    ensures l == Backwards(vals) + l0
  {
    l := l0;
    for i := 0 to |vals|
      invariant l == Backwards(vals[..i]) + l0
    {
      l := [vals[i]] + l;
      TakeNext(vals, i);
      BackwardsSnoc(vals[..i], vals[i]);
    }
    assert vals[..|vals|] == vals;
  }

  method PushBack(l0: seq<Bytes>, vals: seq<Bytes>) returns (l: seq<Bytes>)
    ensures l == l0 + vals
  {
    l := l0;
    for i := 0 to |vals|
      invariant l == l0 + vals[..i]
    {
      l := l + [vals[i]];
    }
  }

  /** HSET and ZADD: the given fields are visited in arbitrary order. */
  method Merge<V>(h0: map<Bytes, V>, fields: map<Bytes, V>) returns (h: map<Bytes, V>, added: int)
    ensures h == h0 + fields && added == |fields.Keys - h0.Keys|
  {
    h, added := h0, 0;
    var rest := fields.Keys;
    ghost var new_: set<Bytes> := {};
    while rest != {}
      invariant forall f :: f in rest ==> f in fields
      invariant forall f :: f in h <==> f in h0 || (f in fields && f !in rest)
      invariant forall f :: f in h ==> h[f] == if f in fields && f !in rest then fields[f] else h0[f]
      invariant forall f :: f in new_ <==> f in fields && f !in rest && f !in h0
      invariant added == |new_|
      decreases rest
    {
      var f :| f in rest;
      if f !in h {
        added := added + 1;
        new_ := new_ + {f};
      }
      h := h[f := fields[f]];
      rest := rest - {f};
    }
    Merged(h0, fields, h, new_);
  }

  lemma Merged<V>(h0: map<Bytes, V>, fields: map<Bytes, V>, h: map<Bytes, V>, new_: set<Bytes>)
    requires forall f :: f in h <==> f in h0 || f in fields
    requires forall f :: f in h ==> h[f] == if f in fields then fields[f] else h0[f]
    requires forall f :: f in new_ <==> f in fields && f !in h0
    ensures h == h0 + fields && new_ == fields.Keys - h0.Keys
  {}

  /** HINCRBY: parse, add in 64 bits. */
  method Count(h: map<Bytes, Bytes>, field: Bytes, delta: int) returns (r: Option<int>)
    ensures r == Counted(h, field, delta)
  {
    var cur := 0;
    if field in h {
      var n := Atoi(h[field]);
      if n == None { return None; }
      cur := n.value;
    }
    cur := Wrap64(cur + delta);
    return Some(cur);
  }

  /** SADD. */
  method MergeMembers(m0: set<Bytes>, members: seq<Bytes>) returns (m: set<Bytes>, added: int)
    ensures m == m0 + Elements(members) && added == |Elements(members) - m0|
  {
    m, added := m0, 0;
    ghost var new_: set<Bytes> := {};
    for i := 0 to |members|
      invariant forall x :: x in m <==> x in m0 || x in members[..i]
      invariant forall x :: x in new_ <==> x in members[..i] && x !in m0
      invariant added == |new_|
    {
      TakeNext(members, i);
      if members[i] !in m {
        m := m + {members[i]};
        added := added + 1;
        new_ := new_ + {members[i]};
      }
    }
    assert members[..|members|] == members;
    MembersAre(m0, members, m, new_);
  }

  lemma MembersAre(m0: set<Bytes>, members: seq<Bytes>, m: set<Bytes>, new_: set<Bytes>)
    requires forall x :: x in m <==> x in m0 || x in members
    requires forall x :: x in new_ <==> x in members && x !in m0
    ensures m == m0 + Elements(members) && new_ == Elements(members) - m0
  {}

  /** HDEL and ZREM. */
  method RemoveNames<V>(h0: map<Bytes, V>, names: seq<Bytes>) returns (h: map<Bytes, V>, removed: int)
    ensures h == h0 - Elements(names) && removed == |Elements(names) * h0.Keys|
  {
    h, removed := h0, 0;
    ghost var gone: set<Bytes> := {};
    for i := 0 to |names|
      invariant forall f :: f in h <==> f in h0 && f !in names[..i]
      invariant forall f :: f in h ==> h[f] == h0[f]
      invariant forall f :: f in gone <==> f in names[..i] && f in h0
      invariant removed == |gone|
    {
      TakeNext(names, i);
      if names[i] in h {
        h := h - {names[i]};
        removed := removed + 1;
        gone := gone + {names[i]};
      }
    }
    assert names[..|names|] == names;
    NamesAreGone(h0, names, h, gone);
  }

  lemma NamesAreGone<V>(h0: map<Bytes, V>, names: seq<Bytes>, h: map<Bytes, V>, gone: set<Bytes>)
    requires forall f :: f in h <==> f in h0 && f !in names
    requires forall f :: f in h ==> h[f] == h0[f]
    requires forall f :: f in gone <==> f in names && f in h0
    ensures h == h0 - Elements(names) && gone == Elements(names) * h0.Keys
  {}

  /** SREM. */
  method RemoveMembers(m0: set<Bytes>, members: seq<Bytes>) returns (m: set<Bytes>, removed: int)
    ensures m == m0 - Elements(members) && removed == |Elements(members) * m0|
  {
    m, removed := m0, 0;
    ghost var gone: set<Bytes> := {};
    for i := 0 to |members|
      invariant forall x :: x in m <==> x in m0 && x !in members[..i]
      invariant forall x :: x in gone <==> x in members[..i] && x in m0
      invariant removed == |gone|
    {
      TakeNext(members, i);
      if members[i] in m {
        m := m - {members[i]};
        removed := removed + 1;
        gone := gone + {members[i]};
      }
    }
    assert members[..|members|] == members;
    MembersAreGone(m0, members, m, gone);
  }

  lemma MembersAreGone(m0: set<Bytes>, members: seq<Bytes>, m: set<Bytes>, gone: set<Bytes>)
    requires forall x :: x in m <==> x in m0 && x !in members
    requires forall x :: x in gone <==> x in members && x in m0
    ensures m == m0 - Elements(members) && gone == Elements(members) * m0
  {}

  lemma {:induction false} DropFirstSnoc(s: seq<Bytes>, v: Bytes, limit: nat, x: Bytes)
    ensures |DropFirst(s, v, limit)| <= |s|
    ensures DropFirst(s + [x], v, limit) ==
            if x == v && |s| - |DropFirst(s, v, limit)| < limit then DropFirst(s, v, limit)
            else DropFirst(s, v, limit) + [x]
  {
    if s == [] {
      assert (s + [x])[1..] == [];
    } else {
      assert (s + [x])[1..] == s[1..] + [x];
      DropFirstSnoc(s[1..], v, if s[0] == v && limit > 0 then limit - 1 else limit, x);
    }
  }

  lemma {:induction false} DropFirstNothing(s: seq<Bytes>, v: Bytes, limit: nat)
    ensures |DropFirst(s, v, limit)| <= |s|
    ensures |DropFirst(s, v, limit)| == |s| ==> DropFirst(s, v, limit) == s
  {
    if s != [] {
      DropFirstNothing(s[1..], v, if s[0] == v && limit > 0 then limit - 1 else limit);
    }
  }

  lemma {:induction false} BackwardsTwice(s: seq<Bytes>)
    ensures Backwards(Backwards(s)) == s
  {
    if s != [] {
      BackwardsTwice(s[1..]);
      BackwardsSnoc(Backwards(s[1..]), s[0]);
    }
  }

  /** LREM that removes nothing leaves the list as it is. */
  lemma ListWithoutAll(s: seq<Bytes>, count: int, v: Bytes)
    ensures |ListWithout(s, count, v)| <= |s|
    ensures |ListWithout(s, count, v)| == |s| ==> ListWithout(s, count, v) == s
  {
    DropFirstNothing(s, v, if count == 0 then |s| else if count > 0 then count else -count);
    DropFirstNothing(Backwards(s), v, if count < 0 then -count else 0);
    BackwardsLength(s);
    BackwardsLength(DropFirst(Backwards(s), v, if count < 0 then -count else 0));
    BackwardsTwice(s);
  }

  /** LREM: both directions of the loop, in the source's own bookkeeping. */
  method RemoveOccurrences(l: seq<Bytes>, count: int, val: Bytes) returns (out: seq<Bytes>, removed: int)
    ensures out == ListWithout(l, count, val) && removed == |l| - |out|
  {
    removed, out := 0, [];
    if count >= 0 {
      ghost var limit := if count == 0 then |l| else count;
      for i := 0 to |l|
        invariant out == DropFirst(l[..i], val, limit)
        invariant removed == i - |out|
      {
        DropFirstSnoc(l[..i], val, limit, l[i]);
        TakeNext(l, i);
        if l[i] == val && (count == 0 || removed < count) {
          removed := removed + 1;
          continue;
        }
        out := out + [l[i]];
      }
      assert l[..|l|] == l;
    } else {
      var limit := -count;
      ghost var back := Backwards(l);
      BackwardsLength(l);
      var tmp: seq<Bytes> := [];
      var i := |l| - 1;
      while i >= 0
        invariant -1 <= i < |l| && |back| == |l|
        invariant tmp == DropFirst(back[..|l| - 1 - i], val, limit)
        invariant removed == |l| - 1 - i - |tmp|
      {
        BackwardsAt(l, |l| - 1 - i);
        DropFirstSnoc(back[..|l| - 1 - i], val, limit, l[i]);
        TakeNext(back, |l| - 1 - i);
        i := i - 1;
        if l[i + 1] == val && removed < limit {
          removed := removed + 1;
          continue;
        }
        tmp := tmp + [l[i + 1]];
      }
      assert back[..|l|] == back;
      BackwardsLength(tmp);
      out := Reversed(tmp);
    }
  }

  lemma {:induction false} BackwardsLength(s: seq<Bytes>)
    ensures |Backwards(s)| == |s|
  {
    if s != [] { BackwardsLength(s[1..]); }
  }

  method Reversed(tmp: seq<Bytes>) returns (out: seq<Bytes>)
    ensures out == Backwards(tmp)
  {
    out := tmp;
    BackwardsLength(tmp);
    for i := 0 to |tmp|
      invariant |out| == |tmp|
      invariant forall j :: 0 <= j < i ==> out[|tmp| - 1 - j] == tmp[j]
    {
      out := out[|tmp| - 1 - i := tmp[i]];
    }
    forall j | 0 <= j < |tmp| ensures out[j] == Backwards(tmp)[j] {
      BackwardsAt(tmp, j);
      assert out[|tmp| - 1 - (|tmp| - 1 - j)] == tmp[|tmp| - 1 - j];
    }
  }

  /** The members of a sorted set by rank: collected in arbitrary order, then sorted. */
  method CollectSorted(z: map<Bytes, real>) returns (out: seq<(Bytes, real)>)
    ensures out == SortedMembers(z)
  {
    out := [];
    var rest := z.Keys;
    while rest != {}
      invariant rest <= z.Keys
      invariant forall p :: p in out <==> p.0 in z && p.0 !in rest && p.1 == z[p.0]
      invariant Distinct(out)
      decreases rest
    {
      var m :| m in rest;
      out := out + [(m, z[m])];
      rest := rest - {m};
    }
    RankLessIsTotal();
    SortByIsInOrder(RankLess, out, Pairs(z));
    out := SortBy(RankLess, out);
  }

  /** ZRANK's search through the ranking. */
  method FindRank(z: map<Bytes, real>, member: Bytes) returns (r: nat)
    requires member in z
    ensures r == RankOf(z, member)
  {
    var all := CollectSorted(z);
    RankLessIsTotal();
    ghost var rank := RankOf(z, member);
    for i := 0 to |all|
      invariant i <= rank
    {
      if all[i].0 == member {
        assert all[i] in Pairs(z);
        return i;
      }
    }
    assert false;
  }

  /** The index arithmetic of LRANGE and ZRANGE. */
  method Window<T>(all: seq<T>, start0: int, stop0: int) returns (w: seq<T>)
    ensures w == Between(all, start0, stop0)
  {
    var n := |all|;
    var start, stop := NormalizeIndex(start0, n), NormalizeIndex(stop0, n);
    if start < 0 { start := 0; }
    if stop >= n { stop := n - 1; }
    if start > stop || n == 0 { return []; }
    w := all[start..stop + 1];
  }

  /** KEYS: the selected names, sorted. */
  method SelectAndSort(all: seq<Bytes>, pattern: Bytes) returns (out: seq<Bytes>)
    requires Distinct(all)
    ensures out == AllKeys(Elements(all), pattern)
  {
    BytesLessIsTotal();
    ghost var wanted := set n | n in all && Selected(pattern, n);
    assert wanted == set n | n in Elements(all) && Selected(pattern, n);
    if pattern == [] || pattern == [Glob.STAR] {
      SortByIsInOrder(BytesLess, all, wanted);
      return SortBy(BytesLess, all);
    }
    out := [];
    for i := 0 to |all|
      invariant Distinct(out)
      invariant forall n :: n in out <==> n in all[..i] && Selected(pattern, n)
    {
      assert all[i] !in all[..i];
      TakeNext(all, i);
      var m := Glob.GlobMatch(pattern, all[i]);
      if m { out := out + [all[i]]; }
    }
    SortByIsInOrder(BytesLess, out, wanted);
    out := SortBy(BytesLess, out);
  }

  method SelectFrom(window: seq<Bytes>, pattern: Bytes) returns (out: seq<Bytes>)
    ensures out == Matching(window, pattern)
  {
    out := [];
    for i := 0 to |window|
      invariant out == Matching(window[..i], pattern)
    {
      assert window[..i + 1][..i] == window[..i];
      var m := pattern == [] || pattern == [Glob.STAR];
      if !m { m := Glob.GlobMatch(pattern, window[i]); }
      if m { out := out + [window[i]]; }
    }
    assert window[..|window|] == window;
  }

  /** SCAN: one page of the sorted names. */
  method PageOf(all0: seq<Bytes>, cursor: nat, pattern: Bytes, count: int) returns (next: nat, out: seq<Bytes>)
    requires Distinct(all0)
    ensures (next, out) == ScanPage(Sorted(Elements(all0)), cursor, pattern, count)
  {
    BytesLessIsTotal();
    SortByIsInOrder(BytesLess, all0, Elements(all0));
    next, out := CutPage(SortBy(BytesLess, all0), cursor, pattern, count);
  }

  method CutPage(all: seq<Bytes>, cursor: nat, pattern: Bytes, count0: int) returns (next: nat, out: seq<Bytes>)
    ensures (next, out) == ScanPage(all, cursor, pattern, count0)
  {
    var count := count0;
    if count <= 0 { count := 10; }
    if cursor >= |all| { return 0, []; }
    var end := cursor + count;
    if end > |all| { end := |all|; }
    out := SelectFrom(all[cursor..end], pattern);
    next := end;
    if next >= |all| { next := 0; }
  }
}
