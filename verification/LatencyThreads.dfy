/** Any number of concurrent `record` calls as a transition system: each step is one atomic
    read-modify-write, one load, or one weak compare-exchange that may fail for no reason. */
module LatencyThreads {
  import opened Latency

  datatype Stage = AddBucket | AddCount | AddSum | LoadMax | SwapMax | LoadMin | SwapMin | Done

  /** One call: its sample, where it is, and its local copy `cur` of the extreme it works on. */
  datatype Call = Call(ns: int, stage: Stage, cur: int)

  datatype Shared = Shared(buckets: seq<nat>, count: nat, sum: int, max: int, min: int)

  datatype World = World(shared: Shared, calls: seq<Call>)

  /** `Begin(ns)`: some thread enters `record`, which returns at once for a negative argument.
      `Step(i, fails)`: call `i` takes its next atomic step; a compare-exchange may fail although the
      values agree. */
  datatype Event = Begin(ns: int) | Step(i: nat, fails: bool)

  const RESET := Shared(ZEROES, 0, 0, 0, INT64_MAX)
  const ZEROES: seq<nat> := Zeroes(BUCKETS)

  function Zeroes(n: nat): (r: seq<nat>)
    ensures |r| == n && forall i :: 0 <= i < n ==> r[i] == 0
  {
    if n == 0 then [] else Zeroes(n - 1) + [0]
  }

  predicate CanHappen(w: World, e: Event) {
    match e
    case Begin(ns) => ns <= INT64_MAX
    case Step(i, _) =>
      i < |w.calls| && !w.calls[i].stage.Done? && IsSample(w.calls[i].ns) && |w.shared.buckets| == BUCKETS
  }

  /** The step of call `c` on the shared counters. */
  function Act(s: Shared, c: Call, fails: bool): (Shared, Call)
    requires IsSample(c.ns) && |s.buckets| == BUCKETS && !c.stage.Done?
  {
    BucketRange(c.ns);
    match c.stage
    case AddBucket =>
      var b := BucketOf(c.ns);
      (s.(buckets := s.buckets[b := s.buckets[b] + 1]), c.(stage := AddCount))
    case AddCount => (s.(count := s.count + 1), c.(stage := AddSum))
    case AddSum => (s.(sum := s.sum + c.ns), c.(stage := LoadMax))
    case LoadMax => (s, c.(stage := SwapMax, cur := s.max))
    case SwapMax =>
      if c.ns <= c.cur then (s, c.(stage := LoadMin))
      else if s.max == c.cur && !fails then (s.(max := c.ns), c.(stage := LoadMin))
      else (s, c.(cur := s.max))
    case LoadMin => (s, c.(stage := SwapMin, cur := s.min))
    case SwapMin =>
      if c.ns >= c.cur then (s, c.(stage := Done))
      else if s.min == c.cur && !fails then (s.(min := c.ns), c.(stage := Done))
      else (s, c.(cur := s.min))
  }

  /** A call that just began; zero counts as one. */
  function Entered(ns: int): Call { Call(if ns == 0 then 1 else ns, AddBucket, 0) }

  function Happen(w: World, e: Event): World
    requires CanHappen(w, e)
  {
    match e
    case Begin(ns) => if ns < 0 then w else w.(calls := w.calls + [Entered(ns)])
    case Step(i, fails) =>
      var (s, c) := Act(w.shared, w.calls[i], fails);
      World(s, w.calls[i := c])
  }

  predicate Unfolds(events: seq<Event>)
    decreases |events|, 0
  {
    if events == [] then true
    else Unfolds(events[..|events| - 1]) && CanHappen(After(events[..|events| - 1]), events[|events| - 1])
  }

  /** The counters and calls after these events, from a tracker that was just reset. */
  function After(events: seq<Event>): World
    requires Unfolds(events)
    decreases |events|, 1
  {
    if events == [] then World(RESET, [])
    else Happen(After(events[..|events| - 1]), events[|events| - 1])
  }

  // ---------------------------------------------------------------------------------------------
  // Sums over calls

  function Tally(calls: seq<Call>, f: Call -> int): int {
    if calls == [] then 0 else f(calls[0]) + Tally(calls[1..], f)
  }

  lemma {:induction false} TallyUpdate(calls: seq<Call>, i: nat, c: Call, f: Call -> int)
    requires i < |calls|
    ensures Tally(calls[i := c], f) == Tally(calls, f) - f(calls[i]) + f(c)
  {
    if i == 0 {
      assert calls[0 := c][1..] == calls[1..];
    } else {
      assert calls[i := c][1..] == calls[1..][i - 1 := c];
      TallyUpdate(calls[1..], i - 1, c, f);
    }
  }

  lemma {:induction false} TallyAppend(calls: seq<Call>, c: Call, f: Call -> int)
    ensures Tally(calls + [c], f) == Tally(calls, f) + f(c)
  {
    if calls != [] {
      assert (calls + [c])[1..] == calls[1..] + [c];
      TallyAppend(calls[1..], c, f);
    } else {
      assert [c][1..] == [];
    }
  }

  function Position(s: Stage): nat {
    match s
    case AddBucket => 0 case AddCount => 1 case AddSum => 2 case LoadMax => 3
    case SwapMax => 4 case LoadMin => 5 case SwapMin => 6 case Done => 7
  }

  /** What call `c` has added so far to bucket `b`, the count and the sum. */
  function ToBucket(b: int): Call -> int { (c: Call) => if Position(c.stage) > 0 then Hit(c.ns, b) else 0 }
  function ToCount(c: Call): int { if Position(c.stage) > 1 then 1 else 0 }
  function ToSum(c: Call): int { if Position(c.stage) > 2 then c.ns else 0 }

  // ---------------------------------------------------------------------------------------------
  // What every interleaving keeps

  ghost predicate Totals(w: World) {
    && |w.shared.buckets| == BUCKETS
    && (forall b :: 0 <= b < BUCKETS ==> w.shared.buckets[b] == Tally(w.calls, ToBucket(b)))
    && w.shared.count == Tally(w.calls, ToCount)
    && w.shared.sum == Tally(w.calls, ToSum)
  }

  /** What call `c` knows about the extremes. */
  predicate Knows(s: Shared, c: Call) {
    && IsSample(c.ns)
    && (c.stage.SwapMax? ==> c.cur <= s.max)
    && (Position(c.stage) > 4 ==> c.ns <= s.max)
    && (c.stage.SwapMin? ==> s.min <= c.cur)
    && (c.stage.Done? ==> s.min <= c.ns)
  }

  ghost predicate Extremes(w: World) {
    && (forall i :: 0 <= i < |w.calls| ==> Knows(w.shared, w.calls[i]))
    && (w.shared.max == 0 || exists i :: 0 <= i < |w.calls| && w.calls[i].ns == w.shared.max)
    && (w.shared.min == INT64_MAX || exists i :: 0 <= i < |w.calls| && w.calls[i].ns == w.shared.min)
  }

  /** The maximum only rises and the minimum only falls. */
  lemma ActMonotone(s: Shared, c: Call, fails: bool)
    requires Knows(s, c) && |s.buckets| == BUCKETS && !c.stage.Done?
    ensures var (s', c') := Act(s, c, fails);
      && s'.max >= s.max && s'.min <= s.min && c'.ns == c.ns && Knows(s', c')
      && (s'.max == s.max || s'.max == c.ns) && (s'.min == s.min || s'.min == c.ns)
  {
    hide BucketOf;
  }

  lemma StepKeepsExtremes(w: World, e: Event)
    requires Totals(w) && Extremes(w) && CanHappen(w, e)
    ensures Extremes(Happen(w, e))
    ensures Happen(w, e).shared.max >= w.shared.max && Happen(w, e).shared.min <= w.shared.min
  {
    hide Totals, Act;
    var n := Happen(w, e);
    match e
    case Begin(ns) =>
      forall i | 0 <= i < |n.calls| ensures Knows(n.shared, n.calls[i]) {}
      assert forall i :: 0 <= i < |w.calls| ==> n.calls[i] == w.calls[i];
    case Step(i, fails) =>
      ActMonotone(w.shared, w.calls[i], fails);
      assert n.calls[i].ns == w.calls[i].ns;
      forall j | 0 <= j < |n.calls| ensures Knows(n.shared, n.calls[j]) && n.calls[j].ns == w.calls[j].ns {
        assert Knows(w.shared, w.calls[j]);
      }
  }

  lemma StepKeepsTotals(w: World, e: Event)
    requires Totals(w) && Extremes(w) && CanHappen(w, e)
    ensures Totals(Happen(w, e))
  {
    hide BucketOf, Tally, Extremes;
    var n := Happen(w, e);
    match e
    case Begin(ns) =>
      var c := Entered(ns);
      forall b | 0 <= b < BUCKETS ensures n.shared.buckets[b] == Tally(n.calls, ToBucket(b)) {
        TallyAppend(w.calls, c, ToBucket(b));
      }
      TallyAppend(w.calls, c, ToCount);
      TallyAppend(w.calls, c, ToSum);
    case Step(i, fails) =>
      var c := n.calls[i];
      BucketRange(w.calls[i].ns);
      forall b | 0 <= b < BUCKETS ensures n.shared.buckets[b] == Tally(n.calls, ToBucket(b)) {
        TallyUpdate(w.calls, i, c, ToBucket(b));
      }
      TallyUpdate(w.calls, i, c, ToCount);
      TallyUpdate(w.calls, i, c, ToSum);
  }

  lemma {:induction false} AlwaysConsistent(events: seq<Event>)
    requires Unfolds(events)
    ensures Totals(After(events)) && Extremes(After(events))
    decreases |events|
  {
    hide Totals, Extremes, Happen;
    if events == [] {
      ResetConsistent();
    } else {
      AlwaysConsistent(events[..|events| - 1]);
      StepKeepsTotals(After(events[..|events| - 1]), events[|events| - 1]);
      StepKeepsExtremes(After(events[..|events| - 1]), events[|events| - 1]);
    }
  }

  lemma ResetConsistent()
    ensures Totals(World(RESET, [])) && Extremes(World(RESET, []))
  {}

  /** The samples of all calls begun so far, in the order they began. */
  function SamplesOf(calls: seq<Call>): (r: seq<int>)
    ensures |r| == |calls| && forall i :: 0 <= i < |r| ==> r[i] == calls[i].ns
  {
    if calls == [] then [] else [calls[0].ns] + SamplesOf(calls[1..])
  }

  lemma {:induction false} DoneTallies(calls: seq<Call>)
    requires forall i :: 0 <= i < |calls| ==> calls[i].stage.Done?
    ensures Tally(calls, ToCount) == |calls|
    ensures Tally(calls, ToSum) == Sum(SamplesOf(calls))
    ensures forall b :: 0 <= b < BUCKETS ==> Tally(calls, ToBucket(b)) == InBucket(SamplesOf(calls), b)
  {
    hide Hit;
    if calls != [] {
      DoneTallies(calls[1..]);
      assert SamplesOf(calls)[1..] == SamplesOf(calls[1..]);
    }
  }

  /** What the calls were asked to record, in the order they began: negative arguments are dropped and zero
      counts as one. */
  function Recorded(events: seq<Event>): seq<int> {
    if events == [] then []
    else
      var before, e := Recorded(events[..|events| - 1]), events[|events| - 1];
      if e.Begin? && e.ns > 0 then before + [e.ns]
      else if e.Begin? && e.ns == 0 then before + [1]
      else before
  }

  lemma {:induction false} CallsAreRecorded(events: seq<Event>)
    requires Unfolds(events)
    ensures SamplesOf(After(events).calls) == Recorded(events)
    decreases |events|
  {
    hide Act, Totals, Extremes;
    if events != [] {
      var prefix, e := events[..|events| - 1], events[|events| - 1];
      CallsAreRecorded(prefix);
      var w := After(prefix);
      if e.Step? {
        AlwaysConsistent(prefix);
        StepKeepsSample(w, e.i, e.fails);
      }
    }
  }

  lemma StepKeepsSample(w: World, i: nat, fails: bool)
    requires Totals(w) && Extremes(w) && CanHappen(w, Step(i, fails))
    ensures SamplesOf(Happen(w, Step(i, fails)).calls) == SamplesOf(w.calls)
  {
    hide Act, Totals;
    ActMonotone(w.shared, w.calls[i], fails);
  }

  /** In every interleaving, once all calls begun have finished, the counters are exactly those of one
      thread recording the same arguments: buckets, count, sum, maximum and minimum. */
  lemma AllDoneSummarises(events: seq<Event>)
    requires Unfolds(events)
    requires forall i :: 0 <= i < |After(events).calls| ==> After(events).calls[i].stage.Done?
    ensures var s := After(events).shared;
      Summarises(Recorded(events), s.buckets, s.count, s.sum, s.max, s.min)
  {
    hide After, Unfolds, Tally, InBucket, Sum;
    AlwaysConsistent(events);
    CallsAreRecorded(events);
    var w := After(events);
    DoneTallies(w.calls);
    ExtremesOfDone(w);
  }

  lemma ExtremesOfDone(w: World)
    requires Extremes(w) && forall i :: 0 <= i < |w.calls| ==> w.calls[i].stage.Done?
    ensures Samples(SamplesOf(w.calls))
    ensures IsMax(SamplesOf(w.calls), w.shared.max) && IsMin(SamplesOf(w.calls), w.shared.min)
  {
    var samples, s := SamplesOf(w.calls), w.shared;
    forall i | 0 <= i < |samples| ensures IsSample(samples[i]) && s.min <= samples[i] <= s.max {
      assert Knows(s, w.calls[i]);
    }
    if samples != [] {
      assert IsSample(samples[0]) && s.min <= samples[0] <= s.max;
    }
  }

  /** In every interleaving, between any moment and any later one, the maximum does not fall and the
      minimum does not rise. */
  lemma {:induction false} ExtremesAreMonotone(events: seq<Event>, k: nat)
    requires Unfolds(events) && k <= |events|
    ensures Unfolds(events[..k])
    ensures After(events).shared.max >= After(events[..k]).shared.max
    ensures After(events).shared.min <= After(events[..k]).shared.min
    decreases |events|
  {
    hide Happen, CanHappen, Totals, Extremes;
    if k == |events| {
      assert events[..k] == events;
    } else {
      var prefix, e := events[..|events| - 1], events[|events| - 1];
      assert prefix[..k] == events[..k];
      ExtremesAreMonotone(prefix, k);
      AlwaysConsistent(prefix);
      StepKeepsExtremes(After(prefix), e);
    }
  }

  /** No call ever waits: any argument can be recorded at any time, and until a call is done it can take its
      next step. */
  lemma NeverStuck(events: seq<Event>, i: nat, fails: bool, ns: int)
    requires Unfolds(events) && ns <= INT64_MAX
    ensures CanHappen(After(events), Begin(ns))
    ensures i < |After(events).calls| && !After(events).calls[i].stage.Done? ==>
      CanHappen(After(events), Step(i, fails))
  {
    hide After, Unfolds;
    AlwaysConsistent(events);
    if i < |After(events).calls| { assert Knows(After(events).shared, After(events).calls[i]); }
  }

  /** How many steps call `c` still needs if no other call moves and no exchange fails for no reason. */
  function Left(s: Shared, c: Call): nat {
    match c.stage
    case AddBucket => 7
    case AddCount => 6
    case AddSum => 5
    case LoadMax => 4
    case SwapMax => if c.ns <= c.cur || c.cur == s.max then 3 else 4
    case LoadMin => 2
    case SwapMin => if c.ns >= c.cur || c.cur == s.min then 1 else 2
    case Done => 0
  }

  lemma ActAlone(s: Shared, c: Call)
    requires IsSample(c.ns) && |s.buckets| == BUCKETS && !c.stage.Done?
    ensures var (s', c') := Act(s, c, false); Left(s', c') == Left(s, c) - 1
  {
    hide BucketOf;
  }

  lemma Extend(events: seq<Event>, e: Event)
    requires Unfolds(events) && CanHappen(After(events), e)
    ensures Unfolds(events + [e]) && After(events + [e]) == Happen(After(events), e)
  {
    hide Happen;
    assert (events + [e])[..|events|] == events;
  }

  /** Calls finish: from any moment of any interleaving, a call that is left alone is done after at most
      seven steps. */
  lemma {:induction false} FinishesAlone(events: seq<Event>, i: nat) returns (all: seq<Event>)
    requires Unfolds(events) && i < |After(events).calls|
    ensures |events| <= |all| <= |events| + 7 && all[..|events|] == events
    ensures forall k :: |events| <= k < |all| ==> all[k] == Step(i, false)
    ensures Unfolds(all) && i < |After(all).calls| && After(all).calls[i].stage.Done?
    ensures |all| == |events| + Left(After(events).shared, After(events).calls[i])
    decreases Left(After(events).shared, After(events).calls[i])
  {
    hide After, Unfolds, Act;
    var w := After(events);
    if w.calls[i].stage.Done? {
      all := events;
    } else {
      NeverStuck(events, i, false, 0);
      Extend(events, Step(i, false));
      ActAlone(w.shared, w.calls[i]);
      all := FinishesAlone(events + [Step(i, false)], i);
      assert all[..|events|] == all[..|events| + 1][..|events|];
      assert all[|events|] == all[..|events| + 1][|events|];
    }
  }
}
