/** Types shared by every component: byte strings, optional values, and the
    byte-wise order that Go's string comparison uses. */
module Base {

  newtype Byte = x: int | 0 <= x < 256

  type Bytes = seq<Byte>

  datatype Option<+T> = None | Some(value: T) {
    function GetOr(default: T): T {
      match this
      case Some(v) => v
      case None => default
    }
  }

  /** The lexicographic order on byte strings. */
  predicate BytesLess(a: Bytes, b: Bytes) {
    if b == [] then false
    else if a == [] then true
    else if a[0] != b[0] then a[0] < b[0]
    else BytesLess(a[1..], b[1..])
  }

  lemma {:induction false} BytesLessTransitive(a: Bytes, b: Bytes, c: Bytes)
    requires BytesLess(a, b) && BytesLess(b, c)
    ensures BytesLess(a, c)
  {
    if a != [] && a[0] == b[0] && b[0] == c[0] {
      BytesLessTransitive(a[1..], b[1..], c[1..]);
    }
  }

  lemma {:induction false} BytesLessTrichotomy(a: Bytes, b: Bytes)
    ensures !(BytesLess(a, b) && BytesLess(b, a))
    ensures a == b <==> !BytesLess(a, b) && !BytesLess(b, a)
  {
    if a != [] && b != [] && a[0] == b[0] {
      BytesLessTrichotomy(a[1..], b[1..]);
      assert a == [a[0]] + a[1..] && b == [b[0]] + b[1..];
    }
  }

  /** A proper prefix comes first, and otherwise the first byte that differs decides. */
  lemma {:induction false} BytesLessMeans(a: Bytes, b: Bytes)
    ensures BytesLess(a, b) <==> a < b || exists i :: 0 <= i < |a| && i < |b| && a[..i] == b[..i] && a[i] < b[i]
  {
    if a != [] && b != [] {
      if a[0] != b[0] {
        assert a[0] < b[0] ==> a[..0] == b[..0];
        forall i | 0 < i < |a| && i < |b| ensures a[..i] != b[..i] { assert a[..i][0] != b[..i][0]; }
      } else {
        BytesLessMeans(a[1..], b[1..]);
        FirstDifference(a, b);
      }
    }
  }

  /** A common first byte decides nothing. */
  lemma FirstDifference(a: Bytes, b: Bytes)
    requires a != [] && b != [] && a[0] == b[0]
    ensures a < b <==> a[1..] < b[1..]
    ensures (exists i :: 0 <= i < |a| && i < |b| && a[..i] == b[..i] && a[i] < b[i]) <==>
            exists i :: 0 <= i < |a[1..]| && i < |b[1..]| && a[1..][..i] == b[1..][..i] && a[1..][i] < b[1..][i]
  {
    assert a == [a[0]] + a[1..] && b == [b[0]] + b[1..];
    if i :| 0 <= i < |a| && i < |b| && a[..i] == b[..i] && a[i] < b[i] {
      assert a[1..][..i - 1] == a[..i][1..] && b[1..][..i - 1] == b[..i][1..] && a[1..][i - 1] < b[1..][i - 1];
    }
    if i :| 0 <= i < |a[1..]| && i < |b[1..]| && a[1..][..i] == b[1..][..i] && a[1..][i] < b[1..][i] {
      assert a[..i + 1] == [a[0]] + a[1..][..i] && b[..i + 1] == [b[0]] + b[1..][..i] && a[i + 1] < b[i + 1];
    }
  }

  lemma BytesLessIsTotal()
    ensures StrictTotal(BytesLess)
  {
    forall a, b, c | BytesLess(a, b) && BytesLess(b, c) ensures BytesLess(a, c) {
      BytesLessTransitive(a, b, c);
    }
    forall a, b
      ensures !(BytesLess(a, b) && BytesLess(b, a))
      ensures a != b ==> BytesLess(a, b) || BytesLess(b, a)
    {
      BytesLessTrichotomy(a, b);
    }
  }

  /** A strict total order. */
  ghost predicate StrictTotal<T(!new)>(lt: (T, T) -> bool) {
    && Asymmetric(lt)
    && (forall a, b :: a != b ==> lt(a, b) || lt(b, a))
    && (forall a, b, c :: lt(a, b) && lt(b, c) ==> lt(a, c))
  }

  /** Strictly increasing, hence duplicate-free. */
  ghost predicate Increasing<T(!new)>(lt: (T, T) -> bool, s: seq<T>) {
    forall i, j :: 0 <= i < j < |s| ==> lt(s[i], s[j])
  }

  /** Insertion into a list that is in order. */
  function Insert<T>(lt: (T, T) -> bool, x: T, s: seq<T>): (r: seq<T>)
    ensures multiset(r) == multiset{x} + multiset(s)
  {
    if s == [] || lt(x, s[0]) then [x] + s
    else
      assert s == [s[0]] + s[1..];
      [s[0]] + Insert(lt, x, s[1..])
  }

  /** The library sort, modelled as an insertion sort; every proof uses only
      that its result is an ordered permutation of its argument. */
  function SortBy<T>(lt: (T, T) -> bool, s: seq<T>): (r: seq<T>)
    ensures multiset(r) == multiset(s)
  {
    if s == [] then []
    else
      assert s == [s[0]] + s[1..];
      Insert(lt, s[0], SortBy(lt, s[1..]))
  }

  ghost predicate Distinct<T(!new)>(s: seq<T>) {
    forall i, j :: 0 <= i < j < |s| ==> s[i] != s[j]
  }

  lemma SameMultisetSameElements<T(!new)>(a: seq<T>, b: seq<T>)
    requires multiset(a) == multiset(b)
    ensures |a| == |b|
    ensures forall x :: x in a <==> x in b
  {
    forall x ensures x in a <==> x in b {
      assert x in multiset(a) <==> x in a;
      assert x in multiset(b) <==> x in b;
    }
    assert |multiset(a)| == |a| && |multiset(b)| == |b|;
  }

  lemma {:induction false} InsertIncreasing<T(!new)>(lt: (T, T) -> bool, x: T, s: seq<T>)
    requires StrictTotal(lt) && Increasing(lt, s) && x !in s
    ensures Increasing(lt, Insert(lt, x, s))
  {
    if s != [] && !lt(x, s[0]) {
      InsertIncreasing(lt, x, s[1..]);
      SameMultisetSameElements(Insert(lt, x, s[1..]), [x] + s[1..]);
      var t := Insert(lt, x, s[1..]);
      forall j | 0 <= j < |t| ensures lt(s[0], t[j]) {
        assert t[j] in t;
      }
    }
  }

  /** Sorting distinct elements under a total order gives a strictly increasing list. */
  lemma {:induction false} SortByIncreasing<T(!new)>(lt: (T, T) -> bool, s: seq<T>)
    requires StrictTotal(lt) && Distinct(s)
    ensures Increasing(lt, SortBy(lt, s))
    ensures |SortBy(lt, s)| == |s| && forall x :: x in SortBy(lt, s) <==> x in s
  {
    SameMultisetSameElements(SortBy(lt, s), s);
    if s != [] {
      SortByIncreasing(lt, s[1..]);
      InsertIncreasing(lt, s[0], SortBy(lt, s[1..]));
    }
  }

  ghost predicate Asymmetric<T(!new)>(lt: (T, T) -> bool) {
    forall a, b :: !(lt(a, b) && lt(b, a))
  }

  /** A strictly increasing list is determined by its elements. */
  lemma {:induction false} IncreasingUnique<T(!new)>(lt: (T, T) -> bool, a: seq<T>, b: seq<T>)
    requires Asymmetric(lt) && Increasing(lt, a) && Increasing(lt, b)
    requires forall x :: x in a <==> x in b
    ensures a == b
  {
    if a == [] {
      assert forall i :: 0 <= i < |b| ==> b[i] in b;
    } else {
      assert a[0] in b && b[0] in a;
      assert a[0] == b[0];
      forall x ensures x in a[1..] <==> x in b[1..] {
        if x in a[1..] { assert x in a && x != a[0]; assert x in b; }
        if x in b[1..] { assert x in b && x != b[0]; assert x in a; }
      }
      IncreasingUnique(lt, a[1..], b[1..]);
      assert a == [a[0]] + a[1..] && b == [b[0]] + b[1..];
    }
  }

  lemma {:induction false} HasLeast<T(!new)>(lt: (T, T) -> bool, s: set<T>)
    requires StrictTotal(lt) && s != {}
    ensures exists m :: m in s && forall y :: y in s && y != m ==> lt(m, y)
  {
    var x :| x in s;
    if s == {x} {
    } else {
      var t := s - {x};
      HasLeast(lt, t);
      var m :| m in t && forall y :: y in t && y != m ==> lt(m, y);
      if lt(m, x) {
        assert forall y :: y in s && y != m ==> lt(m, y);
      } else {
        assert forall y :: y in s && y != x ==> lt(x, y);
      }
    }
  }

  /** The elements of a finite set in increasing order. */
  ghost function InOrder<T(!new)>(lt: (T, T) -> bool, s: set<T>): (r: seq<T>)
    requires StrictTotal(lt)
    ensures Increasing(lt, r)
    ensures forall x :: x in r <==> x in s
  {
    if s == {} then []
    else
      HasLeast(lt, s);
      var m :| m in s && forall y :: y in s && y != m ==> lt(m, y);
      [m] + InOrder(lt, s - {m})
  }

  /** Sorting any duplicate-free listing of a set gives the set in order. */
  lemma SortByIsInOrder<T(!new)>(lt: (T, T) -> bool, s: seq<T>, xs: set<T>)
    requires StrictTotal(lt) && Distinct(s)
    requires forall x :: x in s <==> x in xs
    ensures SortBy(lt, s) == InOrder(lt, xs)
  {
    SortByIncreasing(lt, s);
    IncreasingUnique(lt, SortBy(lt, s), InOrder(lt, xs));
  }

  lemma {:induction false} DistinctCardinality<T(!new)>(s: seq<T>, xs: set<T>)
    requires Distinct(s) && forall x :: x in s <==> x in xs
    ensures |s| == |xs|
  {
    if s == [] {
      assert xs == {};
    } else {
      forall x ensures x in s[1..] <==> x in xs - {s[0]} {
        if x in s[1..] { assert x in s; }
      }
      DistinctCardinality(s[1..], xs - {s[0]});
    }
  }

  lemma MinusOneMore<K, V>(m: map<K, V>, ks: set<K>, k: K)
    ensures m - (ks + {k}) == m - ks - {k}
  {}

  lemma SetMinusOneMore<K>(m: set<K>, ks: set<K>, k: K)
    ensures m - (ks + {k}) == m - ks - {k}
  {}
}
