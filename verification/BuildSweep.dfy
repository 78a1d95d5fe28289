/**
 Weighted build times: a sweep over start and stop events that shares the elapsed time among the
 tasks running at each moment. Times are exact reals.
 */
module BuildSweep {
  import opened OrderedSets

  class Target {
    const start: real
    const end: real
    var weightedDuration: real

    constructor (start: real, end: real)
      ensures this.start == start && this.end == end && weightedDuration == 0.0
    {
      this.start, this.end := start, end;
      weightedDuration := 0.0;
    }
  }

  datatype Event = Event(time: real, stop: bool, task: Target)

  function Start(t: Target): Event { Event(t.start, false, t) }
  function Stop(t: Target): Event { Event(t.end, true, t) }

  /** The sort key: time first, then "start" before "stop". */
  predicate KeyLeq(a: Event, b: Event) {
    a.time < b.time || (a.time == b.time && (b.stop || !a.stop))
  }

  ghost predicate Sorted(ev: seq<Event>) {
    forall i, j {:trigger KeyLeq(ev[i], ev[j])} :: 0 <= i < j < |ev| ==> KeyLeq(ev[i], ev[j])
  }

  /** `ev` holds the start and the stop of every task of `tasks`, each once, in key order. */
  ghost predicate Schedule(tasks: set<Target>, ev: seq<Event>) {
    && Sorted(ev) && Distinct(ev)
    && (forall t {:trigger Listed(ev, t)} :: t in tasks ==> Listed(ev, t))
    && (forall i {:trigger Owned(tasks, ev[i])} :: 0 <= i < |ev| ==> Owned(tasks, ev[i]))
  }

  ghost predicate Listed(ev: seq<Event>, t: Target) {
    Start(t) in ev && Stop(t) in ev
  }

  ghost predicate Owned(tasks: set<Target>, e: Event) {
    e.task in tasks && (e == Start(e.task) || e == Stop(e.task))
  }

  ghost function Times(ev: seq<Event>): (r: seq<real>)
    ensures |r| == |ev| && forall i :: 0 <= i < |ev| ==> r[i] == ev[i].time
  {
    seq(|ev|, i requires 0 <= i < |ev| => ev[i].time)
  }

  // ----- What the weights mean

  /** The tasks running at time `tau`. */
  ghost function Running(tasks: set<Target>, tau: real): set<Target> {
    set t | t in tasks && t.start <= tau < t.end
  }

  /** `x` taken `n` times. */
  ghost function Multiple(n: nat, x: real): real {
    if n == 0 then 0.0 else Multiple(n - 1, x) + x
  }

  lemma {:induction false} MultipleIsProduct(n: nat, x: real)
    ensures Multiple(n, x) == n as real * x
  {
    if n > 0 { MultipleIsProduct(n - 1, x); }
  }

  lemma {:induction false} MultipleOfSum(n: nat, x: real, y: real)
    ensures Multiple(n, x + y) == Multiple(n, x) + Multiple(n, y)
  {
    if n > 0 { MultipleOfSum(n - 1, x, y); }
  }

  lemma {:induction false} MultipleGrows(m: nat, n: nat, x: real)
    requires m <= n && x >= 0.0
    ensures Multiple(m, x) <= Multiple(n, x)
  {
    if m < n { MultipleGrows(m, n - 1, x); }
  }

  /** An equal part of `gap` for each of `count`: the amount that makes up the gap when taken `count` times. */
  ghost function Part(gap: real, count: nat): (part: real)
    ensures count == 0 ==> part == 0.0
    ensures count > 0 ==> Multiple(count, part) == gap
  {
    if count == 0 then 0.0
    else
      QuotientIsPart(gap, count);
      var part :| Multiple(count, part) == gap;
      part
  }

  lemma QuotientIsPart(gap: real, count: nat)
    requires count > 0
    ensures Multiple(count, gap / count as real) == gap
  {
    MultipleIsProduct(count, gap / count as real);
  }

  lemma PartIsQuotient(gap: real, count: nat)
    requires count > 0
    ensures Part(gap, count) == gap / count as real
  {
    MultipleIsProduct(count, Part(gap, count));
    Divide(gap, count as real, Part(gap, count));
  }

  lemma Divide(x: real, n: real, y: real)
    requires n > 0.0 && n * y == x
    ensures y == x / n
  {
  }

  lemma {:induction false} PartNotNegative(gap: real, count: nat)
    requires gap >= 0.0
    ensures Part(gap, count) >= 0.0
    ensures gap == 0.0 ==> Part(gap, count) == 0.0
  {
    if count > 0 {
      PartIsQuotient(gap, count);
    }
  }

  /** The charges of one gap add up to the gap, or to nothing when it is idle. */
  ghost predicate FairAt(tasks: set<Target>, times: seq<real>, c: seq<real>, i: nat)
    requires |c| + 1 == |times| && i < |c|
  {
    var gap, count := times[i + 1] - times[i], |Running(tasks, times[i])|;
    c[i] >= 0.0 && if count == 0 then c[i] == 0.0 else Multiple(count, c[i]) == gap
  }

  ghost predicate Fair(tasks: set<Target>, times: seq<real>, c: seq<real>) {
    |c| + 1 == |times| && forall i {:trigger FairAt(tasks, times, c, i)} :: 0 <= i < |c| ==> FairAt(tasks, times, c, i)
  }

  ghost predicate ChargedAt(tasks: set<Target>, times: seq<real>, c: seq<real>, i: nat)
    requires |c| + 1 == |times| && i < |c|
  {
    c[i] == Part(times[i + 1] - times[i], |Running(tasks, times[i])|)
  }

  /** `c` is what each running task is charged for the gap after each event: an equal part of it. */
  ghost predicate Charged(tasks: set<Target>, times: seq<real>, c: seq<real>) {
    && |c| + 1 == |times|
    && forall i {:trigger ChargedAt(tasks, times, c, i)} :: 0 <= i < |c| ==> ChargedAt(tasks, times, c, i)
  }

  ghost function Charges(tasks: set<Target>, times: seq<real>): (c: seq<real>)
    requires times != []
    ensures Charged(tasks, times, c)
  {
    if |times| == 1 then []
    else
      var n := |times| - 1;
      var rest := Charges(tasks, times[..n]);
      var c := rest + [Part(times[n] - times[n - 1], |Running(tasks, times[n - 1])|)];
      assert forall i :: 0 <= i < |c| ==> ChargedAt(tasks, times, c, i) by {
        forall i | 0 <= i < |c| ensures ChargedAt(tasks, times, c, i) {
          if i < n - 1 { assert ChargedAt(tasks, times[..n], rest, i); }
        }
      }
      c
  }

  lemma ChargedIsFair(tasks: set<Target>, times: seq<real>, c: seq<real>)
    requires Charged(tasks, times, c) && Ascending(times)
    ensures Fair(tasks, times, c)
  {
    forall i | 0 <= i < |c| ensures FairAt(tasks, times, c, i) {
      assert ChargedAt(tasks, times, c, i);
      PartNotNegative(times[i + 1] - times[i], |Running(tasks, times[i])|);
    }
  }

  lemma FairIsCharge(tasks: set<Target>, times: seq<real>, c: seq<real>)
    requires Fair(tasks, times, c) && Ascending(times)
    ensures ChargesFor(times, c)
  {
    forall i | 0 <= i < |c| && times[i] == times[i + 1] ensures c[i] == 0.0 {
      assert FairAt(tasks, times, c, i);
      if Running(tasks, times[i]) != {} { MultipleGrows(1, |Running(tasks, times[i])|, c[i]); }
    }
  }

  ghost function Sum(c: seq<real>, n: nat): real
    requires n <= |c|
  {
    if n == 0 then 0.0 else Sum(c, n - 1) + c[n - 1]
  }

  /** The part of the first `n` charges that falls on `t`. */
  ghost function ShareOf(t: Target, times: seq<real>, c: seq<real>, n: nat): real
    requires |c| + 1 == |times| && n <= |c|
  {
    if n == 0 then 0.0 else ShareOf(t, times, c, n - 1) + if t.start <= times[n - 1] < t.end then c[n - 1] else 0.0
  }

  ghost predicate Ascending(times: seq<real>) {
    forall i, j :: 0 <= i <= j < |times| ==> times[i] <= times[j]
  }

  /** Nothing is charged for an empty gap. */
  ghost predicate ChargesFor(times: seq<real>, c: seq<real>) {
    && |c| + 1 == |times| && Ascending(times)
    && forall i :: 0 <= i < |c| && times[i] == times[i + 1] ==> c[i] == 0.0
  }

  /** The weighted duration of `t`: its charges over all the gaps. */
  ghost function Weighted(tasks: set<Target>, times: seq<real>, t: Target): real
    requires times != []
  {
    ShareOf(t, times, Charges(tasks, times), |times| - 1)
  }

  /** The time during which at least one task runs, over the first `n` gaps. */
  ghost function Busy(tasks: set<Target>, times: seq<real>, n: nat): real
    requires n < |times|
  {
    if n == 0 then 0.0
    else Busy(tasks, times, n - 1) + if Running(tasks, times[n - 1]) != {} then times[n] - times[n - 1] else 0.0
  }

  // ----- Charges over the life of one task

  lemma {:induction false} ShareBefore(t: Target, times: seq<real>, c: seq<real>, a: nat, n: nat)
    requires ChargesFor(times, c) && n <= a < |times| && times[a] == t.start
    ensures ShareOf(t, times, c, n) == 0.0
  {
    if n > 0 {
      ShareBefore(t, times, c, a, n - 1);
      assert times[n - 1] <= times[n - 1 + 1] <= times[a];
    }
  }

  lemma {:induction false} ShareDuring(t: Target, times: seq<real>, c: seq<real>, a: nat, n: nat, b: nat)
    requires ChargesFor(times, c) && a <= n <= b < |times|
    requires times[a] == t.start && times[b] == t.end
    ensures ShareOf(t, times, c, n) == Sum(c, n) - Sum(c, a)
  {
    if n == a {
      ShareBefore(t, times, c, a, a);
    } else {
      ShareDuring(t, times, c, a, n - 1, b);
      assert times[a] <= times[n - 1] <= times[n - 1 + 1] <= times[b];
    }
  }

  lemma {:induction false} ShareAfter(t: Target, times: seq<real>, c: seq<real>, a: nat, b: nat, n: nat)
    requires ChargesFor(times, c) && a <= b <= n < |times|
    requires times[a] == t.start && times[b] == t.end
    ensures ShareOf(t, times, c, n) == Sum(c, b) - Sum(c, a)
  {
    if n == b {
      ShareDuring(t, times, c, a, b, b);
    } else {
      ShareAfter(t, times, c, a, b, n - 1);
      assert times[b] <= times[n - 1];
    }
  }

  /** Larger charges while `t` runs give `t` a larger share. */
  lemma {:induction false} ShareMonotone(t: Target, times: seq<real>, c: seq<real>, larger: seq<real>, n: nat)
    requires |c| + 1 == |larger| + 1 == |times| && n <= |c|
    requires forall i :: 0 <= i < n && t.start <= times[i] < t.end ==> c[i] <= larger[i]
    ensures ShareOf(t, times, c, n) <= ShareOf(t, times, larger, n)
  {
    if n > 0 { ShareMonotone(t, times, c, larger, n - 1); }
  }

  /** The gaps themselves. */
  ghost function Gaps(times: seq<real>): (c: seq<real>)
    requires times != []
    ensures |c| == |times| - 1 && forall i :: 0 <= i < |c| ==> c[i] == times[i + 1] - times[i]
  {
    seq(|times| - 1, i requires 0 <= i < |times| - 1 => times[i + 1] - times[i])
  }

  lemma {:induction false} SumOfGaps(times: seq<real>, n: nat)
    requires n < |times|
    ensures Sum(Gaps(times), n) == times[n] - times[0]
  {
    if n > 0 { SumOfGaps(times, n - 1); }
  }

  /** The gaps during which `t` runs make up its duration. */
  lemma ShareOfGaps(t: Target, times: seq<real>, a: nat, b: nat, n: nat)
    requires Ascending(times) && a <= b <= n < |times| && times[a] == t.start && times[b] == t.end
    ensures ShareOf(t, times, Gaps(times), n) == t.end - t.start
  {
    ShareAfter(t, times, Gaps(times), a, b, n);
    SumOfGaps(times, a);
    SumOfGaps(times, b);
  }

  lemma TakenOnce(k: nat, share: real, charge: real, soFar: real, gap: real)
    requires soFar <= Multiple(k, share) && gap <= Multiple(k, charge)
    ensures soFar + gap <= Multiple(k, share + charge)
  {
    MultipleOfSum(k, share, charge);
  }

  /** Charges that are worth the gap when taken `n` times are worth the duration when taken `n` times. */
  lemma {:induction false} ShareTaken(t: Target, times: seq<real>, gaps: seq<real>, c: seq<real>, k: nat, n: nat)
    requires |gaps| == |c| == |times| - 1 && n <= |c|
    requires forall i :: 0 <= i < n && t.start <= times[i] < t.end ==> gaps[i] <= Multiple(k, c[i])
    ensures ShareOf(t, times, gaps, n) <= Multiple(k, ShareOf(t, times, c, n))
  {
    if n == 0 {
      NothingTaken(k);
    } else {
      ShareTaken(t, times, gaps, c, k, n - 1);
      if t.start <= times[n - 1] < t.end {
        TakenOnce(k, ShareOf(t, times, c, n - 1), c[n - 1], ShareOf(t, times, gaps, n - 1), gaps[n - 1]);
      }
    }
  }

  lemma {:induction false} NothingTaken(k: nat)
    ensures Multiple(k, 0.0) == 0.0
  {
    if k > 0 { NothingTaken(k - 1); }
  }

  // ----- Where a task sits in the schedule

  /** The positions of the two events of a task that does not end before it starts. */
  lemma Places(tasks: set<Target>, ev: seq<Event>, t: Target) returns (a: nat, b: nat)
    requires Schedule(tasks, ev) && t in tasks
    ensures a < |ev| && b < |ev| && ev[a] == Start(t) && ev[b] == Stop(t)
    ensures a < b <==> t.start <= t.end
  {
    assert Listed(ev, t);
    a :| 0 <= a < |ev| && ev[a] == Start(t);
    b :| 0 <= b < |ev| && ev[b] == Stop(t);
    assert a != b;
    if a < b { assert KeyLeq(ev[a], ev[b]); } else { assert KeyLeq(ev[b], ev[a]); }
  }

  lemma TimesAscend(ev: seq<Event>)
    requires Sorted(ev)
    ensures Ascending(Times(ev))
  {
    forall i, j | 0 <= i <= j < |ev| ensures Times(ev)[i] <= Times(ev)[j] {
      if i < j { assert KeyLeq(ev[i], ev[j]); }
    }
  }

  ghost predicate Orderly(tasks: set<Target>) {
    forall t :: t in tasks ==> t.start <= t.end
  }

  lemma SubsetSize<T>(a: set<T>, b: set<T>)
    requires a <= b
    ensures |a| <= |b|
  {
    assert b == a + (b - a);
    assert |b| == |a| + |b - a|;
  }

  lemma ChargeBounds(tasks: set<Target>, times: seq<real>, c: seq<real>, i: nat, t: Target)
    requires Fair(tasks, times, c) && i < |c| && t in Running(tasks, times[i])
    ensures c[i] <= Gaps(times)[i] <= Multiple(|tasks|, c[i])
  {
    var running := Running(tasks, times[i]);
    assert FairAt(tasks, times, c, i);
    SubsetSize(running, tasks);
    MultipleGrows(|running|, |tasks|, c[i]);
    assert running != {};
    MultipleGrows(1, |running|, c[i]);
  }

  lemma WeightedTaken(tasks: set<Target>, ev: seq<Event>, t: Target) returns (w: real)
    requires Schedule(tasks, ev) && t in tasks && t.start <= t.end
    ensures ev != [] && w == Weighted(tasks, Times(ev), t)
    ensures w <= t.end - t.start <= Multiple(|tasks|, w)
  {
    var times := Times(ev);
    var a, b := Places(tasks, ev, t);
    TimesAscend(ev);
    w := ChargedShareTaken(tasks, times, t, a, b);
  }

  lemma ChargedShareTaken(tasks: set<Target>, times: seq<real>, t: Target, a: nat, b: nat) returns (w: real)
    requires Ascending(times) && t in tasks && a <= b < |times| && times[a] == t.start && times[b] == t.end
    ensures w == Weighted(tasks, times, t) && w <= t.end - t.start <= Multiple(|tasks|, w)
  {
    ChargedIsFair(tasks, times, Charges(tasks, times));
    w := FairShareTaken(tasks, times, Charges(tasks, times), t, a, b, |times| - 1);
  }

  lemma FairShareTaken(tasks: set<Target>, times: seq<real>, c: seq<real>, t: Target, a: nat, b: nat, n: nat)
    returns (w: real)
    requires Fair(tasks, times, c) && Ascending(times) && t in tasks
    requires a <= b < |times| && times[a] == t.start && times[b] == t.end && n == |times| - 1
    ensures w == ShareOf(t, times, c, n) && w <= t.end - t.start <= Multiple(|tasks|, w)
  {
    forall i | 0 <= i < |c| && t.start <= times[i] < t.end
      ensures c[i] <= Gaps(times)[i] <= Multiple(|tasks|, c[i])
    {
      ChargeBounds(tasks, times, c, i, t);
    }
    w := ShareOf(t, times, c, n);
    ShareTaken(t, times, Gaps(times), c, |tasks|, n);
    ShareMonotone(t, times, c, Gaps(times), n);
    ShareOfGaps(t, times, a, b, n);
  }

  /**
   The weighted duration of a task is at most its duration and at least its duration divided by
   the number of tasks, so the assertion in `WeightedDuration` holds in exact arithmetic.
   */
  lemma WeightedBounds(tasks: set<Target>, ev: seq<Event>, t: Target)
    requires Schedule(tasks, ev) && t in tasks && t.start <= t.end
    ensures ev != [] && tasks != {}
    ensures Quotient(t.end - t.start, |tasks|) <= Weighted(tasks, Times(ev), t) <= t.end - t.start
  {
    var w := WeightedTaken(tasks, ev, t);
    QuotientBounds(t.end - t.start, |tasks|, w);
  }

  ghost function Quotient(x: real, n: nat): real
    requires n > 0
  {
    x / n as real
  }

  lemma QuotientBounds(x: real, n: nat, y: real)
    requires n > 0 && x <= Multiple(n, y)
    ensures Quotient(x, n) <= y
  {
    MultipleIsProduct(n, y);
  }

  // ----- Conservation

  /** All shares over the first `n` gaps. */
  ghost function TotalShare(entries: seq<Target>, times: seq<real>, c: seq<real>, n: nat): real
    requires |c| + 1 == |times| && n <= |c|
  {
    if entries == [] then 0.0 else ShareOf(entries[0], times, c, n) + TotalShare(entries[1..], times, c, n)
  }

  ghost function CountRunning(entries: seq<Target>, tau: real): nat {
    if entries == [] then 0
    else (if entries[0].start <= tau < entries[0].end then 1 else 0) + CountRunning(entries[1..], tau)
  }

  lemma {:induction false} CountIsSize(entries: seq<Target>, tau: real)
    requires Distinct(entries)
    ensures CountRunning(entries, tau) == |Running(Elems(entries), tau)|
  {
    if entries == [] {
      assert Running(Elems(entries), tau) == {};
    } else {
      ElemsCons(entries);
      CountIsSize(entries[1..], tau);
      RunningCons(entries[0], Elems(entries[1..]), Elems(entries), tau);
    }
  }

  lemma RunningCons(t: Target, rest: set<Target>, all: set<Target>, tau: real)
    requires t !in rest && all == {t} + rest
    ensures t !in Running(rest, tau)
    ensures Running(all, tau) == if t.start <= tau < t.end then {t} + Running(rest, tau) else Running(rest, tau)
  {
  }

  lemma {:induction false} TotalStep(entries: seq<Target>, times: seq<real>, c: seq<real>, n: nat)
    requires |c| + 1 == |times| && 0 < n <= |c|
    ensures TotalShare(entries, times, c, n)
         == TotalShare(entries, times, c, n - 1) + Multiple(CountRunning(entries, times[n - 1]), c[n - 1])
  {
    if entries != [] { TotalStep(entries[1..], times, c, n); }
  }

  lemma {:induction false} TotalOfNothing(entries: seq<Target>, times: seq<real>, c: seq<real>)
    requires |c| + 1 == |times|
    ensures TotalShare(entries, times, c, 0) == 0.0
  {
    if entries != [] { TotalOfNothing(entries[1..], times, c); }
  }

  lemma {:induction false} TotalIsBusy(entries: seq<Target>, times: seq<real>, c: seq<real>, n: nat)
    requires Distinct(entries) && Fair(Elems(entries), times, c) && n <= |c|
    ensures TotalShare(entries, times, c, n) == Busy(Elems(entries), times, n)
  {
    if n == 0 {
      TotalOfNothing(entries, times, c);
    } else {
      TotalIsBusy(entries, times, c, n - 1);
      TotalStep(entries, times, c, n);
      CountIsSize(entries, times[n - 1]);
      assert FairAt(Elems(entries), times, c, n - 1);
    }
  }

  lemma {:induction false} BusyBounds(tasks: set<Target>, times: seq<real>, n: nat)
    requires Ascending(times) && n < |times|
    ensures Busy(tasks, times, n) <= times[n] - times[0]
    ensures Busy(tasks, times, n) == times[n] - times[0] <==>
      forall i :: 0 <= i < n && Running(tasks, times[i]) == {} ==> times[i] == times[i + 1]
  {
    if n > 0 { BusyBounds(tasks, times, n - 1); }
  }

  /** The times at which `tasks` start and stop. */
  ghost predicate Marks(tasks: set<Target>, times: seq<real>) {
    Ascending(times) && forall t :: t in tasks ==> t.start in times && t.end in times
  }

  /** Between two neighbouring events nothing starts or stops. */
  lemma RunningIsConstant(tasks: set<Target>, times: seq<real>, i: nat, tau: real)
    requires Marks(tasks, times) && i + 1 < |times| && times[i] <= tau < times[i + 1]
    ensures Running(tasks, tau) == Running(tasks, times[i])
  {
    forall t | t in tasks ensures t.start <= tau < t.end <==> t.start <= times[i] < t.end {
      var a :| 0 <= a < |times| && times[a] == t.start;
      var b :| 0 <= b < |times| && times[b] == t.end;
      if a <= i { assert times[a] <= times[i]; } else { assert times[i + 1] <= times[a]; }
      if b <= i { assert times[b] <= times[i]; } else { assert times[i + 1] <= times[b]; }
    }
  }

  lemma {:induction false} GapAround(times: seq<real>, n: nat, tau: real) returns (i: nat)
    requires n < |times| && times[0] <= tau < times[n]
    ensures i < n && times[i] <= tau < times[i + 1]
  {
    if times[n - 1] <= tau { i := n - 1; } else { i := GapAround(times, n - 1, tau); }
  }

  /** No moment between the first and the last event is idle. */
  ghost predicate NeverIdle(tasks: set<Target>, from: real, until: real) {
    forall tau: real {:trigger Running(tasks, tau)} :: from <= tau < until ==> Running(tasks, tau) != {}
  }

  /** The busy time is the whole elapsed time iff some task runs at every moment of it. */
  lemma BusyIffNeverIdle(tasks: set<Target>, times: seq<real>)
    requires Marks(tasks, times) && times != []
    ensures Busy(tasks, times, |times| - 1) <= times[|times| - 1] - times[0]
    ensures Busy(tasks, times, |times| - 1) == times[|times| - 1] - times[0] <==>
      NeverIdle(tasks, times[0], times[|times| - 1])
  {
    var n := |times| - 1;
    BusyBounds(tasks, times, n);
    if Busy(tasks, times, n) == times[n] - times[0] {
      forall tau: real | times[0] <= tau < times[n] ensures Running(tasks, tau) != {} {
        var i := GapAround(times, n, tau);
        RunningIsConstant(tasks, times, i, tau);
      }
    } else {
      var i :| 0 <= i < n && Running(tasks, times[i]) == {} && times[i] != times[i + 1];
      assert times[0] <= times[i] < times[i + 1] <= times[n];
      assert Running(tasks, times[i]) == {};
    }
  }
}
