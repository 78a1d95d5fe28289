/** The event loop of the build summary, and why its result does not depend on the order of anything. */
module BuildSummary {
  import opened OrderedSets
  import opened BuildSweep

  // ----- The state of the loop after `i` events

  /** Tasks started but not stopped by the first `i` events. */
  ghost function Alive(tasks: set<Target>, ev: seq<Event>, i: nat): set<Target>
    requires i <= |ev|
  {
    set t | t in tasks && Start(t) in ev[..i] && Stop(t) !in ev[..i]
  }

  /** Tasks stopped by the first `i` events. */
  ghost function Done(tasks: set<Target>, ev: seq<Event>, i: nat): set<Target>
    requires i <= |ev|
  {
    set t | t in tasks && Stop(t) in ev[..i]
  }

  /** An event has been handled iff its position has. */
  lemma HandledIff(ev: seq<Event>, i: nat, k: nat)
    requires Distinct(ev) && i <= |ev| && k < |ev|
    ensures ev[k] in ev[..i] <==> k < i
  {
    if k < i { assert ev[..i][k] == ev[k]; }
  }

  /** When time moves on, the tasks alive are those running at the last event. */
  lemma AliveIsRunning(tasks: set<Target>, ev: seq<Event>, i: nat)
    requires Schedule(tasks, ev) && 0 < i < |ev| && ev[i - 1].time < ev[i].time
    ensures Alive(tasks, ev, i) == Running(tasks, ev[i - 1].time)
  {
    forall t | t in tasks ensures t in Alive(tasks, ev, i) <==> t in Running(tasks, ev[i - 1].time) {
      var a, b := Places(tasks, ev, t);
      HandledIff(ev, i, a);
      HandledIff(ev, i, b);
      Before(ev, i, a);
      Before(ev, i, b);
    }
  }

  lemma Before(ev: seq<Event>, i: nat, k: nat)
    requires Sorted(ev) && 0 < i < |ev| && k < |ev|
    ensures if k < i then ev[k].time <= ev[i - 1].time else ev[i].time <= ev[k].time
  {
    if k < i - 1 { assert KeyLeq(ev[k], ev[i - 1]); }
    if i < k { assert KeyLeq(ev[i], ev[k]); }
  }

  /** What the loop adds to the weighted clock at event `i` is the charge of the gap before it. */
  lemma ClockStep(tasks: set<Target>, ev: seq<Event>, c: seq<real>, i: nat)
    requires Schedule(tasks, ev) && Charged(tasks, Times(ev), c) && 0 < i < |ev|
    ensures Part(ev[i].time - ev[i - 1].time, |Alive(tasks, ev, i)|) == c[i - 1]
  {
    assert ChargedAt(tasks, Times(ev), c, i - 1);
    if ev[i - 1].time < ev[i].time {
      AliveIsRunning(tasks, ev, i);
    } else {
      Before(ev, i, i);
      Before(ev, i, i - 1);
      assert KeyLeq(ev[i - 1], ev[i]);
      PartNotNegative(0.0, |Alive(tasks, ev, i)|);
      PartNotNegative(0.0, |Running(tasks, Times(ev)[i - 1])|);
    }
  }

  lemma AliveStep(tasks: set<Target>, ev: seq<Event>, i: nat)
    requires Schedule(tasks, ev) && i < |ev|
    ensures ev[i].task in tasks
    ensures !ev[i].stop ==>
      Alive(tasks, ev, i + 1) == Alive(tasks, ev, i) + (if Stop(ev[i].task) in ev[..i] then {} else {ev[i].task})
    ensures !ev[i].stop ==> Done(tasks, ev, i + 1) == Done(tasks, ev, i) && ev[i] == Start(ev[i].task)
    ensures ev[i].stop ==> Alive(tasks, ev, i + 1) == Alive(tasks, ev, i) - {ev[i].task}
    ensures ev[i].stop ==> Done(tasks, ev, i + 1) == Done(tasks, ev, i) + {ev[i].task} && ev[i] == Stop(ev[i].task)
    ensures ev[i] !in ev[..i]
  {
    assert Owned(tasks, ev[i]);
    assert ev[..i + 1] == ev[..i] + [ev[i]];
    HandledIff(ev, i, i);
  }

  /** A task is found running when its stop event comes up iff it does not end before it starts. */
  lemma FoundIff(tasks: set<Target>, ev: seq<Event>, i: nat, t: Target)
    requires Schedule(tasks, ev) && i < |ev| && t in tasks && ev[i] == Stop(t)
    ensures t in Alive(tasks, ev, i) <==> t.start <= t.end
  {
    var a, b := Places(tasks, ev, t);
    HandledIff(ev, i, a);
    HandledIff(ev, i, b);
    assert b == i;
  }

  lemma StartsBeforeStop(tasks: set<Target>, ev: seq<Event>, i: nat, t: Target)
    requires Schedule(tasks, ev) && i < |ev| && t in tasks && ev[i] == Start(t) && t.start <= t.end
    ensures Stop(t) !in ev[..i]
  {
    var a, b := Places(tasks, ev, t);
    HandledIff(ev, i, a);
    HandledIff(ev, i, b);
  }

  /** `v` is what the weighted clock showed when `t` started. */
  ghost predicate StartedAt(ev: seq<Event>, c: seq<real>, i: nat, t: Target, v: real)
    requires |c| + 1 == |ev| && i <= |ev|
  {
    exists a :: 0 <= a < i && ev[a] == Start(t) && v == Sum(c, a)
  }

  /** The clock at the stop minus the clock at the start is the task's share of all the charges. */
  lemma ClockDifference(tasks: set<Target>, ev: seq<Event>, c: seq<real>, i: nat, t: Target, v: real)
    requires Schedule(tasks, ev) && Charged(tasks, Times(ev), c)
    requires i < |ev| && t in tasks && ev[i] == Stop(t) && StartedAt(ev, c, i, t, v)
    ensures Sum(c, i) - v == ShareOf(t, Times(ev), c, |c|)
  {
    var a :| 0 <= a < i && ev[a] == Start(t) && v == Sum(c, a);
    TimesAscend(ev);
    ChargedIsFair(tasks, Times(ev), c);
    FairDifference(tasks, Times(ev), c, a, i, |c|, t);
  }

  lemma FairDifference(tasks: set<Target>, times: seq<real>, c: seq<real>, a: nat, b: nat, n: nat, t: Target)
    requires Fair(tasks, times, c) && Ascending(times)
    requires a <= b <= n < |times| && times[a] == t.start && times[b] == t.end
    ensures ShareOf(t, times, c, n) == Sum(c, b) - Sum(c, a)
  {
    FairIsCharge(tasks, times, c);
    ShareAfter(t, times, c, a, b, n);
  }

  /** The shares of the tasks in `done`, added up. */
  ghost function TotalOf(entries: seq<Target>, times: seq<real>, c: seq<real>, done: set<Target>): real
    requires |c| + 1 == |times|
  {
    if entries == [] then 0.0
    else
      (if entries[0] in done then ShareOf(entries[0], times, c, |c|) else 0.0)
      + TotalOf(entries[1..], times, c, done)
  }

  lemma {:induction false} TotalGrows(entries: seq<Target>, times: seq<real>, c: seq<real>, done: set<Target>,
                                      t: Target)
    requires |c| + 1 == |times| && Distinct(entries) && t !in done
    ensures TotalOf(entries, times, c, done + {t}) ==
      TotalOf(entries, times, c, done) + if t in entries then ShareOf(t, times, c, |c|) else 0.0
  {
    if entries != [] {
      ElemsCons(entries);
      TotalGrows(entries[1..], times, c, done, t);
    }
  }

  lemma {:induction false} TotalOfNone(entries: seq<Target>, times: seq<real>, c: seq<real>)
    requires |c| + 1 == |times|
    ensures TotalOf(entries, times, c, {}) == 0.0
  {
    if entries != [] { TotalOfNone(entries[1..], times, c); }
  }

  lemma {:induction false} TotalOfAll(entries: seq<Target>, times: seq<real>, c: seq<real>, done: set<Target>)
    requires |c| + 1 == |times| && Elems(entries) <= done
    ensures TotalOf(entries, times, c, done) == TotalShare(entries, times, c, |c|)
  {
    if entries != [] {
      ElemsCons(entries);
      TotalOfAll(entries[1..], times, c, done);
    }
  }

  lemma TotalIsBusyTime(entries: seq<Target>, times: seq<real>, c: seq<real>, done: set<Target>)
    requires Charged(Elems(entries), times, c) && Ascending(times) && Distinct(entries) && Elems(entries) <= done
    ensures TotalOf(entries, times, c, done) == Busy(Elems(entries), times, |c|)
  {
    TotalOfAll(entries, times, c, done);
    ChargedIsFair(Elems(entries), times, c);
    TotalIsBusy(entries, times, c, |c|);
  }

  /** `i` events are enough to have stopped everything iff all are. */
  lemma AllDone(tasks: set<Target>, ev: seq<Event>)
    requires Schedule(tasks, ev)
    ensures Done(tasks, ev, |ev|) == tasks && Alive(tasks, ev, |ev|) == {}
  {
    assert ev[..|ev|] == ev;
    forall t | t in tasks ensures Listed(ev, t) { }
  }

  // ----- The loop

  /** The running tasks and the two clocks after `i` events. */
  ghost predicate Clocked(tasks: set<Target>, ev: seq<Event>, c: seq<real>, i: nat, running: map<Target, real>,
                          lastTime: real, lastWeighted: real)
    requires i <= |ev| && |c| + 1 == |ev|
  {
    && running.Keys == Alive(tasks, ev, i)
    && (i == 0 ==> lastTime == ev[0].time && lastWeighted == 0.0)
    && (i > 0 ==> lastTime == ev[i - 1].time && lastWeighted == Sum(c, i - 1))
    && forall t {:trigger running[t]} :: t in running ==> StartedAt(ev, c, i, t, running[t])
  }

  lemma ClockInit(tasks: set<Target>, ev: seq<Event>, c: seq<real>)
    requires |c| + 1 == |ev|
    ensures Clocked(tasks, ev, c, 0, map[], ev[0].time, 0.0) && Done(tasks, ev, 0) == {}
  {
  }

  lemma FirstTick(tasks: set<Target>, ev: seq<Event>, c: seq<real>, i: nat, running: map<Target, real>, lastTime: real,
                  lastWeighted: real)
    requires Schedule(tasks, ev) && Charged(tasks, Times(ev), c)
    requires i < |ev| && Clocked(tasks, ev, c, i, running, lastTime, lastWeighted)
    requires i == 0
    ensures lastWeighted + Part(ev[i].time - lastTime, |running|) == Sum(c, i)
  {
    SameSize(running);
    assert running.Keys == {} by { NothingAlive(tasks, ev); }
  }

  lemma NextTick(tasks: set<Target>, ev: seq<Event>, c: seq<real>, i: nat, running: map<Target, real>, lastTime: real,
                 lastWeighted: real)
    requires Schedule(tasks, ev) && Charged(tasks, Times(ev), c)
    requires i < |ev| && Clocked(tasks, ev, c, i, running, lastTime, lastWeighted)
    requires i > 0
    ensures lastWeighted + Part(ev[i].time - lastTime, |running|) == Sum(c, i)
  {
    SameSize(running);
    ClockAdvancesFrom(tasks, ev, c, i, running.Keys);
  }

  /** The weighted clock shows the sum of the charges so far. */
  lemma ClockAdvances(tasks: set<Target>, ev: seq<Event>, c: seq<real>, i: nat, running: map<Target, real>,
                      lastTime: real, lastWeighted: real)
    requires Schedule(tasks, ev) && Charged(tasks, Times(ev), c)
    requires i < |ev| && Clocked(tasks, ev, c, i, running, lastTime, lastWeighted)
    ensures lastWeighted + Part(ev[i].time - lastTime, |running|) == Sum(c, i)
  {
    if i == 0 {
      FirstTick(tasks, ev, c, i, running, lastTime, lastWeighted);
    } else {
      NextTick(tasks, ev, c, i, running, lastTime, lastWeighted);
    }
  }

  lemma SameSize<K, V>(m: map<K, V>)
    ensures |m| == |m.Keys|
  {
  }

  lemma NothingAlive(tasks: set<Target>, ev: seq<Event>)
    ensures Alive(tasks, ev, 0) == {}
  {
  }

  lemma ClockAdvancesFrom(tasks: set<Target>, ev: seq<Event>, c: seq<real>, i: nat, running: set<Target>)
    requires Schedule(tasks, ev) && Charged(tasks, Times(ev), c)
    requires 0 < i < |ev| && running == Alive(tasks, ev, i)
    ensures Sum(c, i - 1) + Part(ev[i].time - ev[i - 1].time, |running|) == Sum(c, i)
  {
    ClockStep(tasks, ev, c, i);
  }

  lemma StartedStays(ev: seq<Event>, c: seq<real>, i: nat, t: Target, v: real)
    requires |c| + 1 == |ev| && i < |ev| && StartedAt(ev, c, i, t, v)
    ensures StartedAt(ev, c, i + 1, t, v)
  {
  }

  lemma AfterStart(tasks: set<Target>, ev: seq<Event>, c: seq<real>, i: nat, running: map<Target, real>, lastTime: real,
                   lastWeighted: real)
    requires Schedule(tasks, ev) && |c| + 1 == |ev|
    requires i < |ev| && Clocked(tasks, ev, c, i, running, lastTime, lastWeighted) && !ev[i].stop
    requires forall t :: t in Done(tasks, ev, i) ==> t.start <= t.end
    ensures Clocked(tasks, ev, c, i + 1, running[ev[i].task := Sum(c, i)], ev[i].time, Sum(c, i))
    ensures Done(tasks, ev, i + 1) == Done(tasks, ev, i)
  {
    var target := ev[i].task;
    AliveStep(tasks, ev, i);
    if Stop(target) in ev[..i] {
      assert target in Done(tasks, ev, i);
      StartsBeforeStop(tasks, ev, i, target);
    }
    var after := running[target := Sum(c, i)];
    assert after.Keys == Alive(tasks, ev, i + 1);
    forall t | t in after ensures StartedAt(ev, c, i + 1, t, after[t]) {
      if t != target { StartedStays(ev, c, i, t, running[t]); }
    }
  }

  lemma AfterStop(tasks: set<Target>, ev: seq<Event>, c: seq<real>, i: nat, running: map<Target, real>, lastTime: real,
                  lastWeighted: real)
    requires Schedule(tasks, ev) && Charged(tasks, Times(ev), c)
    requires i < |ev| && Clocked(tasks, ev, c, i, running, lastTime, lastWeighted) && ev[i].stop
    ensures ev[i].task in running <==> ev[i].task.start <= ev[i].task.end
    ensures ev[i].task in running ==> Sum(c, i) - running[ev[i].task] == ShareOf(ev[i].task, Times(ev), c, |c|)
    ensures Clocked(tasks, ev, c, i + 1, running - {ev[i].task}, ev[i].time, Sum(c, i))
    ensures ev[i].task in tasks && ev[i].task !in Done(tasks, ev, i)
    ensures Done(tasks, ev, i + 1) == Done(tasks, ev, i) + {ev[i].task}
  {
    var target := ev[i].task;
    AliveStep(tasks, ev, i);
    FoundIff(tasks, ev, i, target);
    if target in running {
      ClockDifference(tasks, ev, c, i, target, running[target]);
    }
    var after := running - {target};
    assert after.Keys == Alive(tasks, ev, i + 1);
    forall t | t in after ensures StartedAt(ev, c, i + 1, t, after[t]) {
      StartedStays(ev, c, i, t, running[t]);
    }
  }

  /** The clock advances by the gap shared among the running tasks, and stands still when nothing runs. */
  method Tick(lastWeighted: real, gap: real, count: nat) returns (weighted: real)
    ensures weighted == lastWeighted + Part(gap, count)
  {
    weighted := lastWeighted;
    if count > 0 {
      PartIsQuotient(gap, count);
      weighted := weighted + gap / count as real;
    }
  }

  /** Finished tasks carry their share. */
  ghost predicate Settled(done: set<Target>, times: seq<real>, c: seq<real>)
    reads done
    requires |c| + 1 == |times|
  {
    forall t :: t in done ==> t.start <= t.end && t.weightedDuration == ShareOf(t, times, c, |c|)
  }

  /** A stop event. `ok` is false where the source raises `KeyError`: the task is not running. */
  method StopTask(entries: seq<Target>, ev: seq<Event>, ghost c: seq<real>, i: nat, running: map<Target, real>,
                  ghost lastTime: real, ghost before: real, lastWeighted: real)
    returns (ok: bool, running': map<Target, real>, weighted: real)
    requires Distinct(entries) && Schedule(Elems(entries), ev) && Charged(Elems(entries), Times(ev), c)
    requires i < |ev| && Clocked(Elems(entries), ev, c, i, running, lastTime, before) && ev[i].stop
    requires lastWeighted == Sum(c, i)
    requires Settled(Done(Elems(entries), ev, i), Times(ev), c)
    modifies ev[i].task
    ensures ok <==> ev[i].task.start <= ev[i].task.end
    ensures !ok ==> !Orderly(Elems(entries))
    ensures running' == running - {ev[i].task}
    ensures Clocked(Elems(entries), ev, c, i + 1, running', ev[i].time, lastWeighted)
    ensures ok ==> Settled(Done(Elems(entries), ev, i + 1), Times(ev), c)
    ensures ok ==>
      TotalOf(entries, Times(ev), c, Done(Elems(entries), ev, i)) + weighted
      == TotalOf(entries, Times(ev), c, Done(Elems(entries), ev, i + 1))
  {
    var target := ev[i].task;
    AfterStop(Elems(entries), ev, c, i, running, lastTime, before);
    running' := running - {target};
    if target !in running {
      return false, running', 0.0;
    }
    weighted := lastWeighted - running[target];
    target.weightedDuration := weighted;
    TotalGrows(entries, Times(ev), c, Done(Elems(entries), ev, i), target);
    ok := true;
  }

  /** A start event: its task runs from now on, and nothing has finished. */
  method StartTask(ghost tasks: set<Target>, ev: seq<Event>, ghost c: seq<real>, i: nat, running: map<Target, real>,
                   ghost lastTime: real, ghost before: real, lastWeighted: real)
    returns (running': map<Target, real>)
    requires Schedule(tasks, ev) && |c| + 1 == |ev|
    requires i < |ev| && Clocked(tasks, ev, c, i, running, lastTime, before) && !ev[i].stop
    requires lastWeighted == Sum(c, i)
    requires Settled(Done(tasks, ev, i), Times(ev), c)
    ensures Clocked(tasks, ev, c, i + 1, running', ev[i].time, lastWeighted)
    ensures Done(tasks, ev, i + 1) == Done(tasks, ev, i)
  {
    AfterStart(tasks, ev, c, i, running, lastTime, before);
    running' := running[ev[i].task := lastWeighted];
  }

  /** One turn of the event loop: the clock ticks, then the event starts or stops its task. */
  method HandleEvent(entries: seq<Target>, ev: seq<Event>, ghost c: seq<real>, i: nat, running: map<Target, real>,
                     lastTime: real, lastWeighted: real)
    returns (ok: bool, running': map<Target, real>, lastWeighted': real, weighted: real)
    requires Distinct(entries) && Schedule(Elems(entries), ev) && Charged(Elems(entries), Times(ev), c)
    requires i < |ev| && Clocked(Elems(entries), ev, c, i, running, lastTime, lastWeighted)
    requires Settled(Done(Elems(entries), ev, i), Times(ev), c)
    modifies ev[i].task
    ensures !ok ==> !Orderly(Elems(entries))
    ensures ok ==> Clocked(Elems(entries), ev, c, i + 1, running', ev[i].time, lastWeighted')
    ensures ok ==> Settled(Done(Elems(entries), ev, i + 1), Times(ev), c)
    ensures ok ==>
      TotalOf(entries, Times(ev), c, Done(Elems(entries), ev, i)) + weighted
      == TotalOf(entries, Times(ev), c, Done(Elems(entries), ev, i + 1))
  {
    ghost var tasks := Elems(entries);
    lastWeighted' := Tick(lastWeighted, ev[i].time - lastTime, |running|);
    ClockAdvances(tasks, ev, c, i, running, lastTime, lastWeighted);
    if !ev[i].stop {
      running' := StartTask(tasks, ev, c, i, running, lastTime, lastWeighted, lastWeighted');
      ok, weighted := true, 0.0;
    } else {
      ok, running', weighted := StopTask(entries, ev, c, i, running, lastTime, lastWeighted, lastWeighted');
    }
  }

  lemma OwnTask(entries: seq<Target>, ev: seq<Event>, i: nat)
    requires Schedule(Elems(entries), ev) && i < |ev|
    ensures ev[i].task in entries
  {
    assert Owned(Elems(entries), ev[i]);
  }

  /**
   The event loop, with `c` the charges that its clock will run through. `ok` is false where the
   source raises `KeyError`: a stop event for a task that is not running. The loop's own
   assertion, nothing left running, holds at the end.
   */
  method Sweep(entries: seq<Target>, ev: seq<Event>, ghost c: seq<real>) returns (ok: bool, weightedTotal: real)
    requires Distinct(entries) && Schedule(Elems(entries), ev) && Charged(Elems(entries), Times(ev), c)
    modifies entries
    ensures ok <==> Orderly(Elems(entries))
    ensures ok ==> forall t :: t in entries ==> t.weightedDuration == ShareOf(t, Times(ev), c, |c|)
    ensures ok ==> weightedTotal == Busy(Elems(entries), Times(ev), |c|)
  {
    ghost var tasks, times := Elems(entries), Times(ev);
    var running: map<Target, real> := map[];
    var lastTime, lastWeighted := ev[0].time, 0.0;
    ok, weightedTotal := true, 0.0;
    ClockInit(tasks, ev, c);
    TotalOfNone(entries, times, c);
    for i := 0 to |ev|
      invariant ok && Clocked(tasks, ev, c, i, running, lastTime, lastWeighted)
      invariant Settled(Done(tasks, ev, i), times, c)
      invariant weightedTotal == TotalOf(entries, times, c, Done(tasks, ev, i))
    {
      var weighted;
      OwnTask(entries, ev, i);
      ok, running, lastWeighted, weighted := HandleEvent(entries, ev, c, i, running, lastTime, lastWeighted);
      if !ok {
        return;
      }
      weightedTotal := weightedTotal + weighted;
      lastTime := ev[i].time;
    }
    AllDone(tasks, ev);
    assert |running| == 0;
    TimesAscend(ev);
    TotalIsBusyTime(entries, times, c, Done(tasks, ev, |ev|));
  }

  // ----- Order does not matter

  lemma RemoveAt<T>(s: seq<T>, k: nat)
    requires k < |s|
    ensures multiset(s) == multiset(s[..k] + s[k + 1..]) + multiset{s[k]}
  {
    assert s == s[..k] + [s[k]] + s[k + 1..];
  }

  lemma RemoveFirst<T>(s: seq<T>)
    requires s != []
    ensures multiset(s) == multiset(s[1..]) + multiset{s[0]}
  {
    assert s == [s[0]] + s[1..];
  }

  lemma TimesSplit(ev: seq<Event>, k: nat)
    requires k < |ev|
    ensures multiset(Times(ev)) == multiset(Times(ev[..k] + ev[k + 1..])) + multiset{ev[k].time}
  {
    RemoveAt(Times(ev), k);
    assert Times(ev[..k] + ev[k + 1..]) == Times(ev)[..k] + Times(ev)[k + 1..];
  }

  lemma {:induction false} SameTimesMultiset(a: seq<Event>, b: seq<Event>)
    requires multiset(a) == multiset(b)
    ensures multiset(Times(a)) == multiset(Times(b))
  {
    if a == [] {
      assert |b| == |multiset(b)|;
    } else {
      var k := Matching(a, b);
      SameTimesMultiset(a[1..], b[..k] + b[k + 1..]);
      TimesSplitFirst(a);
      TimesSplit(b, k);
    }
  }

  lemma Matching(a: seq<Event>, b: seq<Event>) returns (k: nat)
    requires multiset(a) == multiset(b) && a != []
    ensures k < |b| && b[k] == a[0] && multiset(a[1..]) == multiset(b[..k] + b[k + 1..])
  {
    assert a[0] in multiset(b);
    k :| 0 <= k < |b| && b[k] == a[0];
    RemoveFirst(a);
    RemoveAt(b, k);
    SameRest(multiset(a), multiset(a[1..]), multiset(b[..k] + b[k + 1..]), a[0]);
  }

  lemma TimesSplitFirst(ev: seq<Event>)
    requires ev != []
    ensures multiset(Times(ev)) == multiset(Times(ev[1..])) + multiset{ev[0].time}
  {
    RemoveFirst(Times(ev));
    assert Times(ev[1..]) == Times(ev)[1..];
  }

  lemma SameRest<T>(whole: multiset<T>, restA: multiset<T>, restB: multiset<T>, x: T)
    requires whole == restA + multiset{x} && whole == restB + multiset{x}
    ensures restA == restB
  {
    assert restA == whole - multiset{x} && restB == whole - multiset{x};
  }

  lemma LeastFirst(a: seq<real>, x: real)
    requires Ascending(a) && x in multiset(a)
    ensures a != [] && a[0] <= x
  {
    var k :| 0 <= k < |a| && a[k] == x;
  }

  lemma AscendingTail(a: seq<real>)
    requires Ascending(a) && a != []
    ensures Ascending(a[1..])
  {
  }

  lemma {:induction false} AscendingUnique(a: seq<real>, b: seq<real>)
    requires Ascending(a) && Ascending(b) && multiset(a) == multiset(b)
    ensures a == b
  {
    if a == [] {
      assert |b| == |multiset(b)|;
    } else {
      LeastFirst(b, a[0]);
      LeastFirst(a, b[0]);
      RemoveFirst(a);
      RemoveFirst(b);
      SameRest(multiset(a), multiset(a[1..]), multiset(b[1..]), a[0]);
      AscendingTail(a);
      AscendingTail(b);
      AscendingUnique(a[1..], b[1..]);
    }
  }

  lemma SameMultiset(a: seq<Event>, b: seq<Event>)
    requires Distinct(a) && Distinct(b)
    requires (forall i :: 0 <= i < |a| ==> a[i] in b) && (forall i :: 0 <= i < |b| ==> b[i] in a)
    ensures multiset(a) == multiset(b)
  {
    forall e: Event ensures multiset(a)[e] == multiset(b)[e] {
      CountOnce(a, e);
      CountOnce(b, e);
    }
  }

  lemma {:induction false} CountOnce(a: seq<Event>, e: Event)
    requires Distinct(a)
    ensures multiset(a)[e] == if e in a then 1 else 0
  {
    if a != [] {
      ElemsCons(a);
      assert a == [a[0]] + a[1..];
      CountOnce(a[1..], e);
    }
  }

  lemma ScheduleCovers(tasks: set<Target>, a: seq<Event>, b: seq<Event>)
    requires Schedule(tasks, a) && Schedule(tasks, b)
    ensures forall i :: 0 <= i < |a| ==> a[i] in b
  {
    forall i | 0 <= i < |a| ensures a[i] in b {
      assert Owned(tasks, a[i]);
      assert Listed(b, a[i].task);
    }
  }

  /** Every schedule of the same tasks has the same times, whatever the order of entries and of ties. */
  lemma TimesUnique(tasks: set<Target>, a: seq<Event>, b: seq<Event>)
    requires Schedule(tasks, a) && Schedule(tasks, b)
    ensures Times(a) == Times(b)
  {
    ScheduleCovers(tasks, a, b);
    ScheduleCovers(tasks, b, a);
    SameMultiset(a, b);
    SameTimesMultiset(a, b);
    TimesAscend(a);
    TimesAscend(b);
    AscendingUnique(Times(a), Times(b));
  }

  // ----- The summary

  /** Insertion of an event in front of the first one with a larger or equal key. */
  function Insert(e: Event, ev: seq<Event>): (r: seq<Event>)
    ensures multiset(r) == multiset(ev) + multiset{e}
    ensures r != [] && (r[0] == e || (ev != [] && r[0] == ev[0]))
  {
    if ev == [] || KeyLeq(e, ev[0]) then [e] + ev
    else RemoveFirst(ev); [ev[0]] + Insert(e, ev[1..])
  }

  lemma {:induction false} InsertKeepsSorted(e: Event, ev: seq<Event>)
    requires Sorted(ev)
    ensures Sorted(Insert(e, ev))
  {
    if ev == [] {
    } else if KeyLeq(e, ev[0]) {
      Prepend(e, ev);
    } else {
      var tail := ev[1..];
      forall i, j | 0 <= i < j < |tail| ensures KeyLeq(tail[i], tail[j]) {
        assert KeyLeq(ev[i + 1], ev[j + 1]);
      }
      InsertKeepsSorted(e, tail);
      if tail != [] { assert KeyLeq(ev[0], ev[1]); }
      Prepend(ev[0], Insert(e, tail));
    }
  }

  lemma Prepend(e: Event, ev: seq<Event>)
    requires Sorted(ev) && (ev == [] || KeyLeq(e, ev[0]))
    ensures Sorted([e] + ev)
  {
    var r := [e] + ev;
    forall i, j | 0 <= i < j < |r| ensures KeyLeq(r[i], r[j]) {
      if i > 0 { assert KeyLeq(ev[i - 1], ev[j - 1]); }
      else if j > 1 { assert KeyLeq(ev[0], ev[j - 1]); }
    }
  }

  /** Stable sort by key. */
  function SortEvents(ev: seq<Event>): (r: seq<Event>)
    ensures Sorted(r) && multiset(r) == multiset(ev)
  {
    if ev == [] then []
    else
      RemoveFirst(ev);
      InsertKeepsSorted(ev[0], SortEvents(ev[1..]));
      Insert(ev[0], SortEvents(ev[1..]))
  }

  // ----- Summaries

  datatype Summary = Summary(length: real, totalCpuTime: real, weightedTotal: real)

  datatype Outcome = Crash | Report(summary: Summary)

  /** The events of the entries, in the order in which they are collected. */
  function EventsOf(entries: seq<Target>): (ev: seq<Event>)
    ensures |ev| == 2 * |entries|
  {
    if entries == [] then []
    else EventsOf(entries[..|entries| - 1]) + [Start(entries[|entries| - 1]), Stop(entries[|entries| - 1])]
  }

  lemma {:induction false} EventsComplete(entries: seq<Target>)
    requires Distinct(entries)
    ensures Distinct(EventsOf(entries))
    ensures forall t :: t in entries ==> Listed(EventsOf(entries), t)
    ensures forall i :: 0 <= i < |EventsOf(entries)| ==> Owned(Elems(entries), EventsOf(entries)[i])
  {
    if entries != [] {
      var init, last := entries[..|entries| - 1], entries[|entries| - 1];
      assert entries == init + [last];
      EventsComplete(init);
      EventsSnoc(init, last);
    }
  }

  lemma EventsSnoc(init: seq<Target>, last: Target)
    requires last !in init
    requires Distinct(EventsOf(init))
    requires forall t :: t in init ==> Listed(EventsOf(init), t)
    requires forall i :: 0 <= i < |EventsOf(init)| ==> Owned(Elems(init), EventsOf(init)[i])
    ensures EventsOf(init + [last]) == EventsOf(init) + [Start(last), Stop(last)]
    ensures Distinct(EventsOf(init + [last]))
    ensures forall t :: t in init + [last] ==> Listed(EventsOf(init + [last]), t)
    ensures forall i :: 0 <= i < |EventsOf(init + [last])| ==> Owned(Elems(init + [last]), EventsOf(init + [last])[i])
  {
    assert (init + [last])[..|init|] == init;
    var ev := EventsOf(init) + [Start(last), Stop(last)];
    forall t | t in init + [last] ensures Listed(ev, t) {
      if t == last {
        assert ev[|ev| - 2] == Start(last) && ev[|ev| - 1] == Stop(last);
      } else {
        assert Listed(EventsOf(init), t);
      }
    }
    forall i | 0 <= i < |ev| ensures Owned(Elems(init + [last]), ev[i]) {
      if i < |ev| - 2 { assert Owned(Elems(init), EventsOf(init)[i]); }
    }
    forall i, j | 0 <= i < j < |ev| ensures ev[i] != ev[j] {
      if i < |ev| - 2 { assert Owned(Elems(init), EventsOf(init)[i]); }
    }
  }

  lemma PermutationKeeps(a: seq<Event>, b: seq<Event>)
    requires multiset(a) == multiset(b) && Distinct(a)
    ensures Distinct(b)
  {
    forall i, j | 0 <= i < j < |b| ensures b[i] != b[j] {
      if b[i] == b[j] {
        CountOnce(a, b[i]);
        CountTwice(b, i, j);
      }
    }
  }

  lemma MemberOfPermutation<T>(a: seq<T>, b: seq<T>, x: T)
    requires multiset(a) == multiset(b) && x in a
    ensures x in b
  {
    assert x in multiset(a) && x in multiset(b);
  }

  lemma CountTwice(b: seq<Event>, i: nat, j: nat)
    requires i < j < |b| && b[i] == b[j]
    ensures multiset(b)[b[i]] >= 2
  {
    assert b == b[..i] + [b[i]] + b[i + 1..j] + [b[j]] + b[j + 1..];
  }

  lemma SortedIsSchedule(entries: seq<Target>)
    requires Distinct(entries)
    ensures Schedule(Elems(entries), SortEvents(EventsOf(entries)))
  {
    var ev, sorted := EventsOf(entries), SortEvents(EventsOf(entries));
    EventsComplete(entries);
    PermutationKeeps(ev, sorted);
    forall t | t in Elems(entries) ensures Listed(sorted, t) {
      assert Listed(ev, t);
      MemberOfPermutation(ev, sorted, Start(t));
      MemberOfPermutation(ev, sorted, Stop(t));
    }
    forall i | 0 <= i < |sorted| ensures Owned(Elems(entries), sorted[i]) {
      MemberOfPermutation(sorted, ev, sorted[i]);
      var k :| 0 <= k < |ev| && ev[k] == sorted[i];
      assert Owned(Elems(entries), ev[k]);
    }
  }

  ghost predicate FromZero(tasks: set<Target>) {
    forall t :: t in tasks ==> 0.0 <= t.start
  }

  /** What the first pass over the entries finds: the extent of the build and the sum of durations. */
  method Scan(entries: seq<Target>) returns (earliest: real, latest: real, totalCpuTime: real, ev: seq<Event>)
    ensures ev == EventsOf(entries)
    ensures totalCpuTime == TotalDuration(entries)
    ensures FromZero(Elems(entries)) && entries != [] ==> exists t :: t in entries && t.start == earliest
    ensures FromZero(Elems(entries)) ==> forall t :: t in entries ==> earliest <= t.start
    ensures forall t :: t in entries ==> t.end <= latest
    ensures latest == 0.0 || exists t :: t in entries && t.end == latest
  {
    earliest, latest, totalCpuTime, ev := -1.0, 0.0, 0.0, [];
    for i := 0 to |entries|
      invariant ev == EventsOf(entries[..i]) && totalCpuTime == TotalDuration(entries[..i])
      invariant i == 0 ==> earliest == -1.0
      invariant FromZero(Elems(entries)) && i > 0 ==>
        earliest >= 0.0 && exists t :: t in entries[..i] && t.start == earliest
      invariant FromZero(Elems(entries)) && i > 0 ==> forall t :: t in entries[..i] ==> earliest <= t.start
      invariant forall t :: t in entries[..i] ==> t.end <= latest
      invariant latest == 0.0 || exists t :: t in entries[..i] && t.end == latest
    {
      var target := entries[i];
      assert entries[..i + 1] == entries[..i] + [target];
      assert entries[..i + 1][..i] == entries[..i];
      assert target in Elems(entries);
      if earliest < 0.0 || target.start < earliest { earliest := target.start; }
      if target.end > latest { latest := target.end; }
      totalCpuTime := totalCpuTime + (target.end - target.start);
      ev := ev + [Start(target), Stop(target)];
    }
    assert entries[..|entries|] == entries;
  }

  ghost function TotalDuration(entries: seq<Target>): real {
    if entries == [] then 0.0
    else TotalDuration(entries[..|entries| - 1]) + (entries[|entries| - 1].end - entries[|entries| - 1].start)
  }

  /** The durations add up: one entry counts its own, and stretches of entries count apart. */
  lemma {:induction false} DurationsAddUp(t: Target, a: seq<Target>, b: seq<Target>)
    ensures TotalDuration([t]) == t.end - t.start
    ensures TotalDuration(a + b) == TotalDuration(a) + TotalDuration(b)
  {
    assert [t][..0] == [];
    if b == [] {
      assert a + b == a;
    } else {
      var n := |b| - 1;
      DurationsAddUp(t, a, b[..n]);
      assert (a + b)[..|a| + n] == a + b[..n];
    }
  }

  /** The first and the last event of an orderly schedule are its earliest start and its latest end. */
  lemma Extent(tasks: set<Target>, ev: seq<Event>, first: Target, last: Target)
    requires Schedule(tasks, ev) && Orderly(tasks) && first in tasks && last in tasks
    requires forall t :: t in tasks ==> first.start <= t.start && t.end <= last.end
    ensures ev != [] && Times(ev)[0] == first.start && Times(ev)[|ev| - 1] == last.end
  {
    var a, _ := Places(tasks, ev, first);
    var _, b := Places(tasks, ev, last);
    TimesAscend(ev);
    assert Owned(tasks, ev[0]) && Owned(tasks, ev[|ev| - 1]);
    assert Times(ev)[0] <= Times(ev)[a] && Times(ev)[b] <= Times(ev)[|ev| - 1];
  }

  lemma ScheduleMarks(tasks: set<Target>, ev: seq<Event>)
    requires Schedule(tasks, ev)
    ensures Marks(tasks, Times(ev))
  {
    TimesAscend(ev);
    forall t | t in tasks ensures t.start in Times(ev) && t.end in Times(ev) {
      var a, b := Places(tasks, ev, t);
      assert Times(ev)[a] == t.start && Times(ev)[b] == t.end;
    }
  }

  /** All start and stop times of the entries, in order. */
  ghost function EventTimes(entries: seq<Target>): (times: seq<real>)
    ensures |times| == 2 * |entries|
  {
    assert |SortEvents(EventsOf(entries))| == |EventsOf(entries)| by {
      assert |multiset(SortEvents(EventsOf(entries)))| == |multiset(EventsOf(entries))|;
    }
    Times(SortEvents(EventsOf(entries)))
  }

  /** Neither the order of the entries nor the order of events with equal keys changes the event times. */
  lemma OrderIrrelevant(entries: seq<Target>, ev: seq<Event>)
    requires Distinct(entries) && Schedule(Elems(entries), ev)
    ensures EventTimes(entries) == Times(ev)
  {
    SortedIsSchedule(entries);
    TimesUnique(Elems(entries), SortEvents(EventsOf(entries)), ev);
  }

  /** Reordering the entries changes no weighted duration and no busy time. */
  lemma EntriesOrderIrrelevant(entries: seq<Target>, shuffled: seq<Target>, t: Target)
    requires Distinct(entries) && Distinct(shuffled) && Elems(entries) == Elems(shuffled) && entries != []
    ensures shuffled != [] && EventTimes(entries) == EventTimes(shuffled)
    ensures Weighted(Elems(entries), EventTimes(entries), t) == Weighted(Elems(shuffled), EventTimes(shuffled), t)
  {
    assert entries[0] in Elems(shuffled);
    SortedIsSchedule(shuffled);
    OrderIrrelevant(entries, SortEvents(EventsOf(shuffled)));
  }

  /**
   `SummarizeEntries` up to its check for leftover tasks. It crashes on no entries and on a task
   that ends before it starts, and on nothing else.
   */
  method SummarizeEntries(entries: seq<Target>) returns (r: Outcome)
    requires Distinct(entries)
    modifies entries
    ensures r.Crash? <==> entries == [] || !Orderly(Elems(entries))
    ensures r.Report? ==> forall t :: t in entries ==>
      t.weightedDuration == Weighted(Elems(entries), EventTimes(entries), t)
    ensures r.Report? ==> r.summary.totalCpuTime == TotalDuration(entries)
    ensures r.Report? && FromZero(Elems(entries)) ==> SpansBuild(entries, r.summary)
  {
    var earliest, latest, totalCpuTime, events := Scan(entries);
    var length := latest - earliest;
    if events == [] {
      return Crash;
    }
    var ev := SortEvents(events);
    SortedIsSchedule(entries);
    ghost var tasks, times := Elems(entries), EventTimes(entries);
    ghost var c := Charges(tasks, times);
    var ok, weightedTotal := Sweep(entries, ev, c);
    if !ok {
      return Crash;
    }
    r := Report(Summary(length, totalCpuTime, weightedTotal));
    if FromZero(tasks) {
      ghost var first :| first in entries && first.start == earliest;
      ghost var last :| last in entries && last.end == latest;
      Extent(tasks, ev, first, last);
      ScheduleMarks(tasks, ev);
      BusyIffNeverIdle(tasks, times);
      assert Spans(entries, first, last, r.summary);
    }
  }

  /** The two kinds of input that crash: no entries, and a task that ends before it starts. */
  method CrashingInputs() returns (empty: Outcome, backward: Target, disorderly: Outcome)
    ensures empty == Crash
    ensures backward.start == 2.0 && backward.end == 1.0 && disorderly == Crash
  {
    empty := SummarizeEntries([]);
    backward := new Target(2.0, 1.0);
    assert backward in Elems([backward]);
    disorderly := SummarizeEntries([backward]);
  }

  ghost predicate SpansBuild(entries: seq<Target>, s: Summary) {
    entries != [] && exists first, last :: first in entries && last in entries && Spans(entries, first, last, s)
  }

  /**
   The build runs from the start of `first` to the end of `last`; the weighted total is the time
   during which something runs: at most the length, and equal to it iff there is no idle moment.
   */
  ghost predicate Spans(entries: seq<Target>, first: Target, last: Target, s: Summary)
    requires entries != []
  {
    && (forall t :: t in entries ==> first.start <= t.start && t.end <= last.end)
    && s.length == last.end - first.start
    && s.weightedTotal == Busy(Elems(entries), EventTimes(entries), |EventTimes(entries)| - 1)
    && s.weightedTotal <= s.length
    && (s.weightedTotal == s.length <==> NeverIdle(Elems(entries), first.start, last.end))
  }
}
