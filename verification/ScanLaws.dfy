/** SCAN, iterated to the end on an unchanged store, is KEYS. */
module ScanLaws {
  import opened Base
  import opened Keyspace
  import Glob

  /** What SCAN answers. */
  ghost function PageAt(db: DB, ws: Bytes, cursor: nat, pattern: Bytes, count: int, now: int): (r: (nat, seq<Bytes>))
    ensures Step(db, Scan(ws, cursor, pattern, count), now, None).1 == Page(r.0, r.1)
  {
    ScanPage(Sorted(LiveNames(db, ws, now)), cursor, pattern, count)
  }

  /** The pages a client collects from a cursor on, asking with any COUNT each time. */
  ghost function Collect(db: DB, ws: Bytes, cursor: nat, pattern: Bytes, counts: nat -> int, i: nat, now: int): seq<Bytes>
    requires cursor <= |LiveNames(db, ws, now)|
    decreases |LiveNames(db, ws, now)| - cursor
  {
    SortedLength(LiveNames(db, ws, now));
    var (next, keys) := PageAt(db, ws, cursor, pattern, counts(i), now);
    if next == 0 then keys else keys + Collect(db, ws, next, pattern, counts, i + 1, now)
  }

  /** The shortcuts for no pattern and for "*" are no exceptions to the matcher. */
  lemma SelectedIsAccepted(pattern: Bytes, name: Bytes)
    ensures Selected(pattern, name) <==> pattern == [] || Glob.Accepts(Glob.Tokens(pattern, true), name)
  {
    if pattern == [Glob.STAR] { Glob.StarAcceptsAll(name); }
  }

  lemma SortedLength(names: set<Bytes>)
    ensures |Sorted(names)| == |names|
  {
    BytesLessIsTotal();
    DistinctCardinality(Sorted(names), names);
  }

  lemma {:induction false} MatchingAppend(a: seq<Bytes>, b: seq<Bytes>, pattern: Bytes)
    ensures Matching(a + b, pattern) == Matching(a, pattern) + Matching(b, pattern)
  {
    if b == [] {
      assert a + b == a;
    } else {
      assert (a + b)[..|a + b| - 1] == a + b[..|b| - 1];
      MatchingAppend(a, b[..|b| - 1], pattern);
    }
  }

  /** One page and what comes after it. */
  lemma PageThenRest(names: seq<Bytes>, cursor: nat, pattern: Bytes, count: int)
    requires cursor <= |names|
    ensures var (next, page) := ScanPage(names, cursor, pattern, count);
      && (next == 0 || cursor < next < |names|)
      && page + (if next == 0 then [] else Matching(names[next..], pattern)) == Matching(names[cursor..], pattern)
  {
    var (next, page) := ScanPage(names, cursor, pattern, count);
    if next == 0 {
      assert names[cursor..|names|] == names[cursor..];
      assert page == Matching(names[cursor..], pattern);
    } else {
      assert names[cursor..next] + names[next..] == names[cursor..];
      MatchingAppend(names[cursor..next], names[next..], pattern);
    }
  }

  lemma {:induction false} CollectIsMatching(db: DB, ws: Bytes, cursor: nat, pattern: Bytes,
                                             counts: nat -> int, i: nat, now: int)
    requires cursor <= |LiveNames(db, ws, now)|
    ensures var names := Sorted(LiveNames(db, ws, now));
      |names| == |LiveNames(db, ws, now)|
      && Collect(db, ws, cursor, pattern, counts, i, now) == Matching(names[cursor..], pattern)
    decreases |LiveNames(db, ws, now)| - cursor
  {
    var names := Sorted(LiveNames(db, ws, now));
    SortedLength(LiveNames(db, ws, now));
    PageThenRest(names, cursor, pattern, counts(i));
    var next := ScanPage(names, cursor, pattern, counts(i)).0;
    if next != 0 {
      CollectIsMatching(db, ws, next, pattern, counts, i + 1, now);
    }
  }

  lemma {:induction false} MatchingSelects(names: seq<Bytes>, pattern: Bytes)
    requires Increasing(BytesLess, names)
    ensures Increasing(BytesLess, Matching(names, pattern))
    ensures forall n :: n in Matching(names, pattern) <==> n in names && Selected(pattern, n)
  {
    if names != [] {
      var init := names[..|names| - 1];
      var last := names[|names| - 1];
      MatchingSelects(init, pattern);
      assert names == init + [last];
      forall n | n in Matching(init, pattern) ensures BytesLess(n, last) {
        assert n in init;
      }
      var m := Matching(init, pattern);
      assert forall j :: 0 <= j < |m| ==> m[j] in m;
    }
  }

  /** Whatever the COUNTs, iterating SCAN from cursor 0 ends, and its pages
      together are the answer of KEYS: every match once, in sorted order. */
  lemma ScanIsKeys(db: DB, ws: Bytes, pattern: Bytes, counts: nat -> int, now: int)
    ensures Strings(Collect(db, ws, 0, pattern, counts, 0, now)) == Step(db, Keys(ws, pattern), now, None).1
  {
    var all := LiveNames(db, ws, now);
    var names := Sorted(all);
    CollectIsMatching(db, ws, 0, pattern, counts, 0, now);
    assert names[0..] == names;
    BytesLessIsTotal();
    MatchingSelects(names, pattern);
    IncreasingUnique(BytesLess, Matching(names, pattern), AllKeys(all, pattern));
  }
}
