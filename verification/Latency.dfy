/** The lock-free latency accumulator: any number of record calls interleave, one atomic
    operation at a time, and the maximum is kept by a compare-and-swap retry loop. */
module Latency {

  /** What a call does next. Swapping holds the value it loaded and found too small. */
  datatype Phase = Counting | Summing | Loading | Swapping(cur: int) | Done

  datatype Recorder = Recorder(d: int, phase: Phase)

  datatype State = State(count: nat, sum: int, max: int, calls: seq<Recorder>)

  function Start(ds: seq<int>): State {
    State(0, 0, 0, seq(|ds|, i requires 0 <= i < |ds| => Recorder(ds[i], Counting)))
  }

  /** The next atomic operation of call i. A call that has returned does nothing. */
  function Step(s: State, i: nat): (t: State)
    requires i < |s.calls|
    ensures |t.calls| == |s.calls| && t.calls[i].d == s.calls[i].d
    ensures forall j :: 0 <= j < |s.calls| && j != i ==> t.calls[j] == s.calls[j]
  {
    var d := s.calls[i].d;
    match s.calls[i].phase
    case Counting => s.(count := s.count + 1, calls := s.calls[i := Recorder(d, Summing)])
    case Summing => s.(sum := s.sum + d, calls := s.calls[i := Recorder(d, Loading)])
    case Loading => s.(calls := s.calls[i := Recorder(d, if d <= s.max then Done else Swapping(s.max))])
    case Swapping(cur) =>
      if s.max == cur then s.(max := d, calls := s.calls[i := Recorder(d, Done)])
      else s.(calls := s.calls[i := Recorder(d, Loading)])
    case Done => s
  }

  function Run(s: State, schedule: seq<nat>): (t: State)
    requires forall k :: 0 <= k < |schedule| ==> schedule[k] < |s.calls|
    ensures |t.calls| == |s.calls|
  {
    if schedule == [] then s else Step(Run(s, schedule[..|schedule| - 1]), schedule[|schedule| - 1])
  }

  function Max(a: int, b: int): int {
    if a < b then b else a
  }

  function Greatest(base: int, xs: seq<int>): int {
    if xs == [] then base else Max(Greatest(base, xs[..|xs| - 1]), xs[|xs| - 1])
  }

  /** The accumulator as one goroutine sees it. */
  class LatencyAccumulator {
    var count: nat
    var sumNanos: int
    var maxNanos: int

    constructor ()
      ensures count == 0 && sumNanos == 0 && maxNanos == 0
    {
      count, sumNanos, maxNanos := 0, 0, 0;
    }

    method CompareAndSwap(cur: int, n: int) returns (swapped: bool)
      modifies this`maxNanos
      ensures swapped <==> old(maxNanos) == cur
      ensures maxNanos == if swapped then n else old(maxNanos)
    {
      swapped := maxNanos == cur;
      if swapped { maxNanos := n; }
    }

    /** One call. The rivals are the values other goroutines record between this call's load
        and its swap, one for each attempt; `met` is how many of them it came across. */
    method Record(d: int, rivals: seq<int>) returns (met: nat)
      modifies this
      ensures count == old(count) + 1 && sumNanos == old(sumNanos) + d
      ensures met <= |rivals| && maxNanos == Max(d, Greatest(old(maxNanos), rivals[..met]))
    {
      count := count + 1;
      sumNanos := sumNanos + d;
      met := 0;
      while true
        invariant count == old(count) + 1 && sumNanos == old(sumNanos) + d
        invariant met <= |rivals| && maxNanos == Greatest(old(maxNanos), rivals[..met])
        decreases |rivals| - met
      {
        var cur := maxNanos;
        if d <= cur { return; }
        if met < |rivals| {
          assert rivals[..met + 1][..met] == rivals[..met];
          maxNanos := Max(maxNanos, rivals[met]);
          met := met + 1;
        }
        var swapped := CompareAndSwap(cur, d);
        if swapped { return; }
      }
    }
  }

  // ------------------------------------------------- what every interleaving keeps

  function Sum(xs: seq<int>): int {
    if xs == [] then 0 else Sum(xs[..|xs| - 1]) + xs[|xs| - 1]
  }

  /** Changing one element changes the sum by the difference; lifting the others by at most
      c lifts it by at most c times their number. */
  lemma {:induction false} SumOfChanged(a: seq<int>, b: seq<int>, i: nat, c: nat)
    requires |a| == |b| && i < |a|
    requires forall j :: 0 <= j < |a| && j != i ==> b[j] <= a[j] + c
    ensures Sum(b) <= Sum(a) + c * (|a| - 1) + b[i] - a[i]
  {
    var n := |a| - 1;
    if i < n {
      SumOfChanged(a[..n], b[..n], i, c);
      assert c * n == c * (n - 1) + c;
    } else {
      SumOfLifted(a[..n], b[..n], c);
    }
  }

  lemma {:induction false} SumOfLifted(a: seq<int>, b: seq<int>, c: nat)
    requires |a| == |b|
    requires forall j :: 0 <= j < |a| ==> b[j] <= a[j] + c
    ensures Sum(b) <= Sum(a) + c * |a|
  {
    if a != [] {
      var n := |a| - 1;
      SumOfLifted(a[..n], b[..n], c);
      assert c * |a| == c * n + c;
    }
  }

  lemma SumOfUpdated(a: seq<int>, b: seq<int>, i: nat)
    requires |a| == |b| && i < |a|
    requires forall j :: 0 <= j < |a| && j != i ==> b[j] == a[j]
    ensures Sum(b) == Sum(a) + b[i] - a[i]
  {
    SumOfChanged(a, b, i, 0);
    SumOfChanged(b, a, i, 0);
  }

  /** What a call has added to the count and to the sum so far. */
  function Counted(s: State): seq<int> {
    seq(|s.calls|, i requires 0 <= i < |s.calls| => if s.calls[i].phase.Counting? then 0 else 1)
  }

  function Summed(s: State): seq<int> {
    seq(|s.calls|, i requires 0 <= i < |s.calls| =>
      if s.calls[i].phase.Counting? || s.calls[i].phase.Summing? then 0 else s.calls[i].d)
  }

  /** The maximum is 0 or the value of a call that has returned, no returned call is above it,
      and a call about to swap holds an earlier, no larger maximum. */
  ghost predicate Inv(s: State) {
    && s.count == Sum(Counted(s)) && s.sum == Sum(Summed(s))
    && s.max >= 0 && (s.max == 0 || Returned(s, s.max))
    && forall i :: 0 <= i < |s.calls| ==> CallInv(s.calls[i], s.max)
  }

  ghost predicate Returned(s: State, v: int) {
    exists i :: 0 <= i < |s.calls| && s.calls[i].d == v && s.calls[i].phase.Done?
  }

  predicate CallInv(c: Recorder, max: int) {
    match c.phase
    case Swapping(cur) => 0 <= cur < c.d && cur <= max
    case Done => c.d <= max
    case _ => true
  }

  lemma StepKeepsInv(s: State, i: nat)
    requires Inv(s) && i < |s.calls|
    ensures Inv(Step(s, i)) && s.max <= Step(s, i).max
  {
    var t := Step(s, i);
    SumOfUpdated(Counted(s), Counted(t), i);
    SumOfUpdated(Summed(s), Summed(t), i);
    if t.max == s.max {
      if s.max != 0 {
        var k :| 0 <= k < |s.calls| && s.calls[k].d == s.max && s.calls[k].phase.Done?;
        assert t.calls[k] == s.calls[k];
      }
    } else {
      assert t.calls[i].d == t.max && t.calls[i].phase.Done?;
    }
    assert CallInv(s.calls[i], s.max);
    forall j | 0 <= j < |t.calls| ensures CallInv(t.calls[j], t.max) {
      assert CallInv(s.calls[j], s.max);
    }
  }

  lemma {:induction false} StartIsInv(ds: seq<int>)
    ensures Inv(Start(ds))
  {
    SumOfZeros(Counted(Start(ds)));
    SumOfZeros(Summed(Start(ds)));
  }

  lemma {:induction false} SumOfZeros(xs: seq<int>)
    requires forall i :: 0 <= i < |xs| ==> xs[i] == 0
    ensures Sum(xs) == 0
  {
    if xs != [] { SumOfZeros(xs[..|xs| - 1]); }
  }

  ghost predicate Scheduled(ds: seq<int>, schedule: seq<nat>) {
    forall k :: 0 <= k < |schedule| ==> schedule[k] < |ds|
  }

  lemma {:induction false} EveryInterleavingKeepsInv(ds: seq<int>, schedule: seq<nat>)
    requires Scheduled(ds, schedule)
    ensures Inv(Run(Start(ds), schedule))
    ensures forall i :: 0 <= i < |ds| ==> Run(Start(ds), schedule).calls[i].d == ds[i]
  {
    if schedule == [] {
      StartIsInv(ds);
    } else {
      var init := schedule[..|schedule| - 1];
      EveryInterleavingKeepsInv(ds, init);
      StepKeepsInv(Run(Start(ds), init), schedule[|schedule| - 1]);
    }
  }

  /** At any moment of any interleaving the maximum is 0 or one of the recorded values, and at
      least the value of every call that has returned; one more step never lowers it. */
  lemma MaxIsSound(ds: seq<int>, schedule: seq<nat>, next: nat)
    requires Scheduled(ds, schedule) && next < |ds|
    ensures var s := Run(Start(ds), schedule);
      && (s.max == 0 || s.max in ds)
      && (forall i :: 0 <= i < |ds| && s.calls[i].phase.Done? ==> ds[i] <= s.max)
      && s.max <= Step(s, next).max
  {
    EveryInterleavingKeepsInv(ds, schedule);
    var s := Run(Start(ds), schedule);
    StepKeepsInv(s, next);
    forall i | 0 <= i < |ds| && s.calls[i].phase.Done? ensures ds[i] <= s.max {
      assert CallInv(s.calls[i], s.max);
    }
  }

  /** Once every call has returned, the count and the sum are exact and the maximum is the
      greatest recorded value, or 0. */
  lemma ExactAtRest(ds: seq<int>, schedule: seq<nat>)
    requires Scheduled(ds, schedule)
    requires forall i :: 0 <= i < |ds| ==> Run(Start(ds), schedule).calls[i].phase.Done?
    ensures var s := Run(Start(ds), schedule);
      && s.count == |ds| && s.sum == Sum(ds)
      && (s.max == 0 || s.max in ds) && s.max >= 0 && (forall d :: d in ds ==> d <= s.max)
  {
    EveryInterleavingKeepsInv(ds, schedule);
    var s := Run(Start(ds), schedule);
    SumOfOnes(Counted(s));
    assert Summed(s) == ds;
    forall d | d in ds ensures d <= s.max {
      var i :| 0 <= i < |ds| && ds[i] == d;
      assert CallInv(s.calls[i], s.max);
    }
  }

  lemma {:induction false} SumOfOnes(xs: seq<int>)
    requires forall i :: 0 <= i < |xs| ==> xs[i] == 1
    ensures Sum(xs) == |xs|
  {
    if xs != [] { SumOfOnes(xs[..|xs| - 1]); }
  }

  /** A swap fails only because another call has raised the maximum since it was loaded. */
  lemma FailedSwapMeansProgress(ds: seq<int>, schedule: seq<nat>, i: nat)
    requires Scheduled(ds, schedule) && i < |ds|
    ensures var s := Run(Start(ds), schedule);
      s.calls[i].phase.Swapping? && Step(s, i).calls[i].phase.Loading? ==> s.calls[i].phase.cur < s.max
  {
    EveryInterleavingKeepsInv(ds, schedule);
    assert CallInv(Run(Start(ds), schedule).calls[i], Run(Start(ds), schedule).max);
  }

  // ------------------------------------------------------- every schedule ends

  /** How far a call is from returning if the maximum stays as it is; an unreturned call also
      pays for the swaps it may make fail. */
  function Weight(c: Recorder, max: int, n: nat): int {
    match c.phase
    case Counting => 4 + 2 * n
    case Summing => 3 + 2 * n
    case Loading => 2 + 2 * n
    case Swapping(cur) => (if cur == max then 1 else 3) + 2 * n
    case Done => 0
  }

  function Weights(s: State): seq<int> {
    seq(|s.calls|, i requires 0 <= i < |s.calls| => Weight(s.calls[i], s.max, |s.calls|))
  }

  lemma StepLosesWeight(s: State, i: nat)
    requires Inv(s) && i < |s.calls| && !s.calls[i].phase.Done?
    ensures Sum(Weights(Step(s, i))) < Sum(Weights(s))
  {
    var t := Step(s, i);
    var n := |s.calls|;
    assert CallInv(s.calls[i], s.max);
    if t.max == s.max {
      SumOfUpdated(Weights(s), Weights(t), i);
    } else {
      SumOfChanged(Weights(s), Weights(t), i, 2);
    }
  }

  /** No step of the schedule is wasted on a call that has already returned. */
  ghost predicate Busy(ds: seq<int>, schedule: seq<nat>)
    requires Scheduled(ds, schedule)
  {
    forall k :: 0 <= k < |schedule| ==> !Run(Start(ds), schedule[..k]).calls[schedule[k]].phase.Done?
  }

  lemma {:induction false} WeightBounds(ds: seq<int>, schedule: seq<nat>)
    requires Scheduled(ds, schedule) && Busy(ds, schedule)
    ensures |schedule| + Sum(Weights(Run(Start(ds), schedule))) <= Sum(Weights(Start(ds)))
  {
    if schedule != [] {
      var n := |schedule| - 1;
      var init := schedule[..n];
      forall k | 0 <= k < n ensures !Run(Start(ds), init[..k]).calls[init[k]].phase.Done? {
        assert init[..k] == schedule[..k];
      }
      WeightBounds(ds, init);
      EveryInterleavingKeepsInv(ds, init);
      StepLosesWeight(Run(Start(ds), init), schedule[n]);
    }
  }

  lemma {:induction false} SumOfSame(xs: seq<int>, x: int)
    requires forall i :: 0 <= i < |xs| ==> xs[i] == x
    ensures Sum(xs) == x * |xs|
  {
    if xs != [] {
      SumOfSame(xs[..|xs| - 1], x);
      assert x * |xs| == x * (|xs| - 1) + x;
    }
  }

  lemma {:induction false} SumIsNonNegative(xs: seq<int>)
    requires forall i :: 0 <= i < |xs| ==> xs[i] >= 0
    ensures Sum(xs) >= 0
  {
    if xs != [] { SumIsNonNegative(xs[..|xs| - 1]); }
  }

  /** Retries end: n calls together take at most n (2n + 4) atomic operations, however they
      are interleaved. */
  lemma EveryScheduleEnds(ds: seq<int>, schedule: seq<nat>)
    requires Scheduled(ds, schedule) && Busy(ds, schedule)
    ensures |schedule| <= |ds| * (2 * |ds| + 4)
  {
    WeightBounds(ds, schedule);
    SumOfSame(Weights(Start(ds)), 4 + 2 * |ds|);
    SumIsNonNegative(Weights(Run(Start(ds), schedule)));
  }
}
