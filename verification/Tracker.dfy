/** Money saved by cache hits, with the bounded list of the most expensive entries. */
module Tracker {
  import opened Base

  const MAX_TOP_ENTRIES: nat := 20

  datatype Key = Key(cacheType: Bytes, prompt: Bytes)
  datatype ExpensiveEntry = ExpensiveEntry(key: Key, cost: real, hits: nat)
  datatype Hit = Hit(key: Key, cost: real)
  datatype Savings = Savings(total: real, top: seq<ExpensiveEntry>)

  /** Where the key stands in the list, from position i on; the length if nowhere. */
  function Find(top: seq<ExpensiveEntry>, key: Key, i: nat): (r: nat)
    requires i <= |top|
    ensures i <= r <= |top| && (r < |top| ==> top[r].key == key)
    ensures forall j :: i <= j < r ==> top[j].key != key
    decreases |top| - i
  {
    if i == |top| || top[i].key == key then i else Find(top, key, i + 1)
  }

  /** The first of the cheapest among the first n entries. */
  function MinIndex(top: seq<ExpensiveEntry>, n: nat): (m: nat)
    requires 1 <= n <= |top|
    ensures m < n && forall j :: 0 <= j < n ==> top[m].cost <= top[j].cost
  {
    if n == 1 then 0
    else
      var m := MinIndex(top, n - 1);
      if top[n - 1].cost < top[m].cost then n - 1 else m
  }

  function Record(s: Savings, h: Hit): Savings {
    if h.cost <= 0.0 then s
    else Savings(s.total + h.cost, Update(s.top, h))
  }

  function Update(top: seq<ExpensiveEntry>, h: Hit): seq<ExpensiveEntry> {
    var i := Find(top, h.key, 0);
    var entry := ExpensiveEntry(h.key, h.cost, 1);
    if i < |top| then
      top[i := ExpensiveEntry(h.key, if h.cost > top[i].cost then h.cost else top[i].cost, top[i].hits + 1)]
    else if |top| < MAX_TOP_ENTRIES then top + [entry]
    else
      var m := MinIndex(top, |top|);
      if h.cost > top[m].cost then top[m := entry] else top
  }

  class Tracker {
    var moneySavedTotalUSD: real
    var top: seq<ExpensiveEntry>

    constructor ()
      ensures View() == Savings(0.0, [])
    {
      moneySavedTotalUSD, top := 0.0, [];
    }

    ghost function View(): Savings
      reads this
    {
      Savings(moneySavedTotalUSD, top)
    }

    method RecordCacheHitSavings(key: Key, cost: real)
      modifies this
      ensures View() == Record(old(View()), Hit(key, cost))
    {
      if cost <= 0.0 { return; }
      moneySavedTotalUSD := moneySavedTotalUSD + cost;
      for i := 0 to |top|
        invariant top == old(top) && moneySavedTotalUSD == old(moneySavedTotalUSD) + cost
        invariant Find(top, key, 0) == Find(top, key, i)
      {
        if top[i].key == key {
          var best := if cost > top[i].cost then cost else top[i].cost;
          top := top[i := ExpensiveEntry(key, best, top[i].hits + 1)];
          return;
        }
      }
      var entry := ExpensiveEntry(key, cost, 1);
      if |top| < MAX_TOP_ENTRIES {
        top := top + [entry];
        return;
      }
      var minIdx := 0;
      for i := 1 to |top|
        invariant top == old(top) && moneySavedTotalUSD == old(moneySavedTotalUSD) + cost
        invariant minIdx < i && minIdx == MinIndex(top, i)
      {
        if top[i].cost < top[minIdx].cost { minIdx := i; }
      }
      if entry.cost > top[minIdx].cost {
        top := top[minIdx := entry];
      }
    }
  }

  // ------------------------------------------------------------ over whole runs

  function Run(log: seq<Hit>): Savings {
    if log == [] then Savings(0.0, []) else Record(Run(log[..|log| - 1]), log[|log| - 1])
  }

  /** The greatest positive cost ever reported for the key; 0 if there was none. */
  function MaxCost(log: seq<Hit>, key: Key): (r: real)
    ensures r >= 0.0
  {
    if log == [] then 0.0
    else
      var m := MaxCost(log[..|log| - 1], key);
      var h := log[|log| - 1];
      if h.key == key && h.cost > m then h.cost else m
  }

  function Reports(log: seq<Hit>, key: Key): nat {
    if log == [] then 0
    else Reports(log[..|log| - 1], key) + (if log[|log| - 1].key == key && log[|log| - 1].cost > 0.0 then 1 else 0)
  }

  function PositiveTotal(log: seq<Hit>): real {
    if log == [] then 0.0
    else PositiveTotal(log[..|log| - 1]) + (if log[|log| - 1].cost > 0.0 then log[|log| - 1].cost else 0.0)
  }

  ghost predicate Lists(top: seq<ExpensiveEntry>, key: Key) {
    exists i :: 0 <= i < |top| && top[i].key == key
  }

  /** The list is a true top 20 of the log. */
  ghost predicate TrueTop(log: seq<Hit>, top: seq<ExpensiveEntry>) {
    && |top| <= MAX_TOP_ENTRIES
    && (forall i, j :: 0 <= i < j < |top| ==> top[i].key != top[j].key)
    && (forall i :: 0 <= i < |top| ==> Faithful(log, top[i]))
    && (|top| < MAX_TOP_ENTRIES ==> forall k :: MaxCost(log, k) > 0.0 ==> Lists(top, k))
    && (forall k, i :: 0 <= i < |top| && !Lists(top, k) ==> MaxCost(log, k) <= top[i].cost)
  }

  /** The listed cost is the maximum ever reported, also after a displacement and a return. */
  ghost predicate Faithful(log: seq<Hit>, e: ExpensiveEntry) {
    e.cost == MaxCost(log, e.key) && e.cost > 0.0 && 1 <= e.hits <= Reports(log, e.key)
  }

  lemma OneMoreReport(log: seq<Hit>, h: Hit, k: Key)
    ensures MaxCost(log + [h], k) == if k == h.key && h.cost > MaxCost(log, k) then h.cost else MaxCost(log, k)
    ensures Reports(log + [h], k) == Reports(log, k) + (if k == h.key && h.cost > 0.0 then 1 else 0)
  {
    assert (log + [h])[..|log|] == log;
  }

  lemma UpdateKeepsTrueTop(log: seq<Hit>, top: seq<ExpensiveEntry>, h: Hit)
    requires TrueTop(log, top) && h.cost > 0.0
    ensures TrueTop(log + [h], Update(top, h))
  {
    if Find(top, h.key, 0) < |top| {
      HitAgain(log, top, h);
    } else {
      assert !Lists(top, h.key);
      if |top| < MAX_TOP_ENTRIES { NewEntry(log, top, h); } else { Displacement(log, top, h); }
    }
  }

  /** A listed key is reported again: its cost is raised in place. */
  lemma HitAgain(log: seq<Hit>, top: seq<ExpensiveEntry>, h: Hit)
    requires TrueTop(log, top) && h.cost > 0.0 && Find(top, h.key, 0) < |top|
    ensures TrueTop(log + [h], Update(top, h))
  {
    var log', i, top' := log + [h], Find(top, h.key, 0), Update(top, h);
    KeysKept(top, i, top'[i]);
    forall j | 0 <= j < |top'| ensures Faithful(log', top'[j]) {
      assert Faithful(log, top[j]);
      OneMoreReport(log, h, top[j].key);
    }
    forall k ensures k != h.key ==> MaxCost(log', k) == MaxCost(log, k) { OneMoreReport(log, h, k); }
    RaisedKeepsTop(log, log', top, top', h.key);
  }

  lemma RaisedKeepsTop(log: seq<Hit>, log': seq<Hit>, top: seq<ExpensiveEntry>, top': seq<ExpensiveEntry>, key: Key)
    requires TrueTop(log, top) && Lists(top, key) && |top'| == |top|
    requires forall j :: 0 <= j < |top| ==> top'[j].key == top[j].key && top'[j].cost >= top[j].cost
    requires forall j :: 0 <= j < |top'| ==> Faithful(log', top'[j])
    requires forall k :: Lists(top', k) <==> Lists(top, k)
    requires forall k :: k != key ==> MaxCost(log', k) == MaxCost(log, k)
    ensures TrueTop(log', top')
  {}

  /** A new key while there is room. */
  lemma NewEntry(log: seq<Hit>, top: seq<ExpensiveEntry>, h: Hit)
    requires TrueTop(log, top) && h.cost > 0.0 && !Lists(top, h.key) && |top| < MAX_TOP_ENTRIES
    ensures TrueTop(log + [h], Update(top, h))
  {
    var log', top' := log + [h], Update(top, h);
    assert top' == top + [ExpensiveEntry(h.key, h.cost, 1)];
    forall j | 0 <= j < |top'| ensures Faithful(log', top'[j]) {
      OneMoreReport(log, h, top'[j].key);
      if j < |top| { assert Faithful(log, top[j]); }
    }
    forall k ensures Lists(top', k) <==> Lists(top, k) || k == h.key {
      if Lists(top, k) { var j :| 0 <= j < |top| && top[j].key == k; assert top'[j].key == k; }
      assert top'[|top|].key == h.key;
    }
    forall k | MaxCost(log', k) > 0.0 ensures Lists(top', k) { OneMoreReport(log, h, k); }
  }

  lemma KeysKept(top: seq<ExpensiveEntry>, i: nat, e: ExpensiveEntry)
    requires i < |top| && e.key == top[i].key
    ensures forall k :: Lists(top[i := e], k) <==> Lists(top, k)
  {
    forall k ensures Lists(top[i := e], k) <==> Lists(top, k) {
      if Lists(top, k) { var j :| 0 <= j < |top| && top[j].key == k; assert top[i := e][j].key == k; }
      if Lists(top[i := e], k) { var j :| 0 <= j < |top| && top[i := e][j].key == k; assert top[j].key == k; }
    }
  }

  /** The full list: only a cost above the cheapest gets in, at the cheapest's expense. */
  lemma Displacement(log: seq<Hit>, top: seq<ExpensiveEntry>, h: Hit)
    requires TrueTop(log, top) && |top| == MAX_TOP_ENTRIES && h.cost > 0.0 && !Lists(top, h.key)
    ensures TrueTop(log + [h], Update(top, h))
  {
    forall k ensures MaxCost(log + [h], k) == (if k == h.key && h.cost > MaxCost(log, k) then h.cost else MaxCost(log, k))
             ensures Reports(log + [h], k) == Reports(log, k) + (if k == h.key then 1 else 0) {
      OneMoreReport(log, h, k);
    }
    forall j | 0 <= j < |top| ensures Faithful(log + [h], top[j]) { assert Faithful(log, top[j]) && top[j].key != h.key; }
    if h.cost > top[MinIndex(top, |top|)].cost {
      Displaced(log, top, h);
    } else {
      assert Update(top, h) == top;
      forall k, j | 0 <= j < |top| && !Lists(top, k) ensures MaxCost(log + [h], k) <= top[j].cost {
        assert MaxCost(log, k) <= top[j].cost && top[MinIndex(top, |top|)].cost <= top[j].cost;
      }
    }
  }

  lemma Displaced(log: seq<Hit>, top: seq<ExpensiveEntry>, h: Hit)
    requires TrueTop(log, top) && |top| == MAX_TOP_ENTRIES && !Lists(top, h.key)
    requires h.cost > top[MinIndex(top, |top|)].cost
    requires forall j :: 0 <= j < |top| ==> Faithful(log + [h], top[j])
    requires forall k :: k != h.key ==> MaxCost(log + [h], k) == MaxCost(log, k)
    requires Reports(log + [h], h.key) >= 1
    requires MaxCost(log + [h], h.key) == if h.cost > MaxCost(log, h.key) then h.cost else MaxCost(log, h.key)
    ensures TrueTop(log + [h], Update(top, h))
  {
    var m := MinIndex(top, |top|);
    var top' := Update(top, h);
    assert MaxCost(log, h.key) <= top[m].cost && Faithful(log, top[m]);
    assert top' == top[m := ExpensiveEntry(h.key, h.cost, 1)];
    assert top'[m].key == h.key && Lists(top', h.key);
    forall i | 0 <= i < |top| ensures top[i].key != h.key { assert !Lists(top, h.key); }
    forall i, j | 0 <= i < j < |top'| ensures top'[i].key != top'[j].key {}
    forall i | 0 <= i < |top| && i != m ensures Lists(top', top[i].key) { assert top'[i] == top[i]; }
    forall k, j | 0 <= j < |top'| && !Lists(top', k) ensures MaxCost(log + [h], k) <= top'[j].cost {
      assert MaxCost(log, k) <= top[m].cost by {
        if Lists(top, k) { var i :| 0 <= i < |top| && top[i].key == k; assert i == m; }
      }
    }
  }

  /** After any run of hits the list is a true top 20 and the total is what was saved. */
  lemma {:induction false} RunIsTrueTop(log: seq<Hit>)
    ensures TrueTop(log, Run(log).top) && Run(log).total == PositiveTotal(log)
  {
    if log != [] {
      var init, h := log[..|log| - 1], log[|log| - 1];
      RunIsTrueTop(init);
      assert log == init + [h];
      if h.cost > 0.0 {
        UpdateKeepsTrueTop(init, Run(init).top, h);
      } else {
        assert forall k :: MaxCost(log, k) == MaxCost(init, k) && Reports(log, k) == Reports(init, k);
        forall i | 0 <= i < |Run(init).top| ensures Faithful(log, Run(init).top[i]) {
          assert Faithful(init, Run(init).top[i]);
        }
      }
    }
  }

  /** A key whose best cost beats some listed cost is listed. */
  lemma ExpensiveIsListed(log: seq<Hit>, key: Key, i: nat)
    requires i < |Run(log).top| && MaxCost(log, key) > Run(log).top[i].cost
    ensures exists j :: 0 <= j < |Run(log).top| && Run(log).top[j].key == key && Run(log).top[j].cost == MaxCost(log, key)
  {
    RunIsTrueTop(log);
    assert Lists(Run(log).top, key);
    var j :| 0 <= j < |Run(log).top| && Run(log).top[j].key == key;
    assert Faithful(log, Run(log).top[j]);
  }

  /** MaxCost is the greatest positive cost reported. */
  lemma {:induction false} MaxCostMeans(log: seq<Hit>, key: Key)
    ensures forall h :: h in log && h.key == key ==> h.cost <= MaxCost(log, key)
    ensures MaxCost(log, key) > 0.0 ==> exists h :: h in log && h.key == key && h.cost == MaxCost(log, key)
  {
    if log != [] {
      var init, last := log[..|log| - 1], log[|log| - 1];
      MaxCostMeans(init, key);
      assert log == init + [last];
      if MaxCost(log, key) > 0.0 {
        if last.key == key && last.cost > MaxCost(init, key) {
          assert last in log;
        } else {
          var h :| h in init && h.key == key && h.cost == MaxCost(init, key);
          assert h in log;
        }
      }
    }
  }

  /** The list in plain terms: at most twenty different keys, each with a positive cost that was
      reported for it and that none of its reports exceeds; and a key with a positive cost is missing
      only if twenty are listed, none of which costs less. */
  lemma TopTwenty(log: seq<Hit>, hit: Hit)
    ensures var top := Run(log).top;
      && |top| <= 20
      && (forall i, j :: 0 <= i < j < |top| ==> top[i].key != top[j].key)
      && (forall i :: 0 <= i < |top| ==>
            && top[i].cost > 0.0
            && (exists h :: h in log && h.key == top[i].key && h.cost == top[i].cost)
            && (forall h :: h in log && h.key == top[i].key ==> h.cost <= top[i].cost))
      && (hit in log && hit.cost > 0.0 && (forall i :: 0 <= i < |top| ==> top[i].key != hit.key) ==>
            |top| == 20 && forall i :: 0 <= i < |top| ==> top[i].cost >= hit.cost)
  {
    RunIsTrueTop(log);
    var top := Run(log).top;
    forall i | 0 <= i < |top|
      ensures top[i].cost > 0.0
      ensures exists h :: h in log && h.key == top[i].key && h.cost == top[i].cost
      ensures forall h :: h in log && h.key == top[i].key ==> h.cost <= top[i].cost
    {
      assert Faithful(log, top[i]);
      MaxCostMeans(log, top[i].key);
    }
    MaxCostMeans(log, hit.key);
  }
}
