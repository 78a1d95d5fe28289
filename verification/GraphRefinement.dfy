/** Calling the partitions through their signatures refines running the whole node list. */
module GraphRefinement {
  import opened Basics
  import opened OrderedSets
  import opened GraphPartition
  import opened GraphMeaning
  import opened GraphLiveness

  type Kernel<!V> = (nat, map<Name, V>, Name) -> V

  ghost predicate Agree<V>(local: map<Name, V>, store: map<Name, V>) {
    forall x :: x in local ==> x in store && local[x] == store[x]
  }

  /** `later` is `store` with at most the names in `written` changed or added. */
  ghost predicate Rewrites<V>(store: map<Name, V>, later: map<Name, V>, written: set<Name>) {
    store.Keys <= later.Keys && forall x :: x in store && x !in written ==> later[x] == store[x]
  }

  lemma StepAgrees<V>(g: Graph, kernel: Kernel<V>, local: map<Name, V>, store: map<Name, V>, n: Node)
    returns (local': map<Name, V>, store': map<Name, V>)
    requires Needs(g, n) <= local.Keys && Agree(local, store)
    ensures Step(g, kernel, local, n) == Some(local') && Step(g, kernel, store, n) == Some(store')
    ensures Agree(local', store') && local'.Keys == local.Keys + Stores(g, n)
    ensures Rewrites(store, store', Stores(g, n))
  {
    assert (map x | x in Needs(g, n) :: local[x]) == (map x | x in Needs(g, n) :: store[x]);
    local', store' := Step(g, kernel, local, n).value, Step(g, kernel, store, n).value;
  }

  /** Inside a slice every node finds what it needs among the inputs and what was stored before it. */
  lemma NeedsAreMet(g: Graph, nodes: Partition, a: nat, j: nat, b: nat)
    requires WellScheduled(g, nodes) && a <= j < b <= |nodes|
    ensures Needs(g, nodes[j]) <= InputNames(g, nodes[a..b]) + Stored(g, nodes[a..j])
  {
    var p := nodes[a..b];
    SliceOfSlice(nodes, a, j - a, b);
    assert p[j - a] in p;
    forall s | s in Needs(g, nodes[j]) ensures s in InputNames(g, p) + Stored(g, nodes[a..j]) {
      var x :|
        && x in nodes[j].readNames + nodes[j].writeNames && x !in nodes[j].outputs
        && !IsNoneLayout(g, x) && Real(g, x) == s;
      assert x in Accessed(p);
      if x in Outputs(p) {
        UsedIsGiven(g, nodes, j, x);
        var i := ProducerBefore(g, nodes, a, j, b, x);
        StoredAt(g, nodes, a, i, j, x);
      }
    }
  }

  lemma StoredAt(g: Graph, nodes: Partition, a: nat, i: nat, j: nat, x: Name)
    requires a <= i < j <= |nodes| && x in nodes[i].outputs && !IsNoneLayout(g, x)
    ensures Real(g, x) in Stored(g, nodes[a..j])
  {
    assert nodes[a..j][i - a] == nodes[i];
    assert Real(g, x) in Stores(g, nodes[i]);
  }

  lemma StoredSnoc(g: Graph, p: Partition, i: nat)
    requires i < |p|
    ensures Stored(g, p[..i + 1]) == Stored(g, p[..i]) + Stores(g, p[i])
    ensures Stores(g, p[i]) <= Stored(g, p)
  {
    assert p[..i + 1] == p[..i] + [p[i]];
  }

  lemma RunHead<V>(g: Graph, kernel: Kernel<V>, store: map<Name, V>, p: Partition, i: nat)
    requires i < |p| && Step(g, kernel, store, p[i]).Some?
    ensures Run(g, kernel, store, p[i..]) == Run(g, kernel, Step(g, kernel, store, p[i]).value, p[i + 1..])
  {
    assert p[i..][1..] == p[i + 1..];
  }

  /** With these inputs every node of the partition finds what it needs when its turn comes. */
  ghost predicate SelfContained(g: Graph, p: Partition, inputs: set<Name>) {
    forall i :: 0 <= i < |p| ==> Needs(g, p[i]) <= inputs + Stored(g, p[..i])
  }

  lemma NeedsInSlice(g: Graph, nodes: Partition, a: nat, b: nat, i: nat)
    requires WellScheduled(g, nodes) && a + i < b <= |nodes|
    ensures Needs(g, nodes[a..b][i]) <= InputNames(g, nodes[a..b]) + Stored(g, nodes[a..b][..i])
  {
    NeedsAreMet(g, nodes, a, a + i, b);
    SliceOfSlice(nodes, a, i, b);
  }

  lemma PartitionSelfContained(g: Graph, parts: seq<Partition>, k: nat)
    requires WellScheduled(g, Flatten(parts)) && k < |parts|
    ensures SelfContained(g, parts[k], InputNames(g, parts[k]))
  {
    CutSlice(parts, k);
    forall i | 0 <= i < |parts[k]| ensures Needs(g, parts[k][i]) <= InputNames(g, parts[k]) + Stored(g, parts[k][..i]) {
      NeedsInSlice(g, Flatten(parts), Cut(parts, k), Cut(parts, k + 1), i);
    }
  }

  /** A run on the inputs alone and a run on the whole store stay in agreement. */
  lemma {:induction false} RunsAgree<V>(g: Graph, kernel: Kernel<V>, p: Partition, inputs: set<Name>, i: nat,
                                        local: map<Name, V>, store: map<Name, V>)
    returns (local': map<Name, V>, store': map<Name, V>)
    requires SelfContained(g, p, inputs) && i <= |p|
    requires local.Keys == inputs + Stored(g, p[..i]) && Agree(local, store)
    ensures Run(g, kernel, local, p[i..]) == Some(local') && Run(g, kernel, store, p[i..]) == Some(store')
    ensures Agree(local', store') && local'.Keys == inputs + Stored(g, p)
    ensures Rewrites(store, store', Stored(g, p))
    decreases |p| - i
  {
    if i == |p| {
      local', store' := local, store;
      assert p[..i] == p;
    } else {
      var local1, store1 := StepAgrees(g, kernel, local, store, p[i]);
      StoredSnoc(g, p, i);
      local', store' := RunsAgree(g, kernel, p, inputs, i + 1, local1, store1);
      RunHead(g, kernel, local, p, i);
      RunHead(g, kernel, store, p, i);
    }
  }

  lemma {:induction false} RunConcat<V>(g: Graph, kernel: Kernel<V>, store: map<Name, V>, first: Partition,
                                        second: Partition)
    requires Run(g, kernel, store, first).Some?
    ensures Run(g, kernel, store, first + second) == Run(g, kernel, Run(g, kernel, store, first).value, second)
    decreases |first|
  {
    if first == [] {
      assert first + second == second;
    } else {
      assert (first + second)[1..] == first[1..] + second;
      RunConcat(g, kernel, Step(g, kernel, store, first[0]).value, first[1..], second);
    }
  }

  // ----- Calling the partitions

  /** Somebody still looks at storage `s` once partitions `..k` are done. */
  ghost predicate Demanded(g: Graph, parts: seq<Partition>, k: nat, s: Name) {
    s in RealImage(g, Elems(g.outputNames)) || exists q :: k <= q < |parts| && s in InputNames(g, parts[q])
  }

  /** Between partitions, the environment holds the right value of everything still demanded. */
  ghost predicate Faithful<V>(g: Graph, parts: seq<Partition>, k: nat, env: map<Name, V>, store: map<Name, V>)
    requires k <= |parts|
  {
    forall s :: s in Storage(g, Flatten(parts[..k])) ==>
      s in store && (Demanded(g, parts, k, s) ==> s in env && env[s] == store[s])
  }

  lemma InputsFaithful<V>(g: Graph, parts: seq<Partition>, k: nat, env: map<Name, V>, store: map<Name, V>, s: Name)
    requires WellScheduled(g, Flatten(parts)) && k < |parts| && Faithful(g, parts, k, env, store)
    requires s in InputNames(g, parts[k])
    ensures s in env && s in store && env[s] == store[s] && s in g.known + g.constants
  {
    CutSlice(parts, k);
    InputExists(g, Flatten(parts), Cut(parts, k), Cut(parts, k + 1), s);
  }

  lemma VisibleIsInputs(g: Graph, parts: seq<Partition>, k: nat, unmet: set<Name>, skip: bool, sig: Signature)
    requires WellScheduled(g, Flatten(parts)) && k < |parts|
    requires Signs(g, parts[k], unmet, skip, sig)
    ensures Elems(sig.inputNames) + Elems(sig.constantNames) == InputNames(g, parts[k])
  {
    forall s | s in InputNames(g, parts[k]) ensures s in g.known + g.constants {
      CutSlice(parts, k);
      InputExists(g, Flatten(parts), Cut(parts, k), Cut(parts, k + 1), s);
    }
  }

  /** Everything a partition returns is in its hands when it ends. */
  lemma OutputsHeld(g: Graph, parts: seq<Partition>, k: nat, unmet: set<Name>, s: Name)
    requires WellScheduled(g, Flatten(parts)) && k < |parts|
    requires s in Returned(g, parts[k], unmet) && !IsNoneLayout(g, s)
    ensures s in InputNames(g, parts[k]) + Stored(g, parts[k])
  {
    var y := WhyReturned(g, parts[k], unmet, s);
    if y in Kept(g, parts[k]) {
      InputIsReal(g, parts, k, y);
    } else {
      RealNamesAreFixed(g, Flatten(parts), y);
      ProducedIsStored(g, parts[k], y);
    }
  }

  lemma ProducedIsStored(g: Graph, p: Partition, y: Name)
    requires y in Outputs(p) && !IsNoneLayout(g, y)
    ensures Real(g, y) in Stored(g, p)
  {
    var i := ProducerOf(p, y);
    assert Real(g, y) in Stores(g, p[i]);
  }

  lemma WhyStored(g: Graph, p: Partition, s: Name) returns (y: Name)
    requires s in Stored(g, p)
    ensures y in Outputs(p) && !IsNoneLayout(g, y) && Real(g, y) == s
  {
    var n :| n in p && s in Stores(g, n);
    y :| y in n.outputs && !IsNoneLayout(g, y) && Real(g, y) == s;
  }

  /** A graph output that renames storage allocated in partition `k` is reached from there. */
  lemma RenamedOutputReached(g: Graph, parts: seq<Partition>, k: nat, s: Name, y: Name)
    requires WellScheduled(g, Flatten(parts)) && k < |parts|
    requires s in Outputs(parts[k]) && !IsNoneLayout(g, s)
    requires y in g.outputNames && y in g.realName && Real(g, y) == s
    ensures WantedFrom(g, parts, k + 1, s) || OutputAlias(g, parts[k], s)
  {
    var q := PartitionOf(parts, y);
    RealNamesAreFixed(g, Flatten(parts), y);
    if q < k {
      CutSlice(parts, k);
      ProducedOnce(g, Flatten(parts), Cut(parts, k), Cut(parts, k + 1), s);
      ProducedIsAvailable(g, parts, q, k, y);
      RealIsGiven(g, Flatten(parts), Cut(parts, k), y);
    } else if q > k {
      ProducedByOne(g, parts, k, q, s);
      MutatedByPartition(g, parts, q, y);
    }
  }

  lemma ProducedIsAvailable(g: Graph, parts: seq<Partition>, q: nat, k: nat, y: Name)
    requires q < k < |parts| && y in Outputs(parts[q])
    ensures Cut(parts, k) <= |Flatten(parts)| && y in Available(g, Flatten(parts)[..Cut(parts, k)])
  {
    CutSlice(parts, q);
    CutOrder(parts, q + 1, k);
    PrefixSplit(g, Flatten(parts), Cut(parts, q + 1), Cut(parts, k));
    PrefixSplit(g, Flatten(parts), Cut(parts, q), Cut(parts, q + 1));
  }

  lemma {:induction false} PartitionOf(parts: seq<Partition>, y: Name) returns (q: nat)
    requires y in Outputs(Flatten(parts))
    ensures q < |parts| && y in Outputs(parts[q])
  {
    OutputsSplit(parts[0], Flatten(parts[1..]));
    if y in Outputs(parts[0]) {
      q := 0;
    } else {
      q := PartitionOf(parts[1..], y);
      q := q + 1;
    }
  }

  /** Storage that a partition wrote and that is still demanded afterwards is returned by it. */
  lemma WrittenIsReturned(g: Graph, parts: seq<Partition>, k: nat, skip: bool, sig: Signature, s: Name)
    requires WellScheduled(g, Flatten(parts)) && k < |parts|
    requires Signs(g, parts[k], Unmet(g, parts, k + 1), skip, sig)
    requires s in Stored(g, parts[k]) && Demanded(g, parts, k + 1, s)
    ensures s in sig.outputNames
  {
    var y := WhyStored(g, parts[k], s);
    RealNamesAreFixed(g, Flatten(parts), y);
    if s in Outputs(parts[k]) {
      AllocatedReturnedExactly(g, parts, k, skip, sig, s);
      if !WantedFrom(g, parts, k + 1, s) {
        var z :| z in Elems(g.outputNames) && Real(g, z) == s;
        RenamedOutputReached(g, parts, k, s, z);
      }
    } else {
      MutatedByPartition(g, parts, k, y);
      ProducedKnown(g, parts, k, y);
      NotFreedWhenDemanded(g, parts, k, s);
      KeptIsReturned(g, parts, k, skip, sig, s);
    }
  }

  lemma KeptIsReturned(g: Graph, parts: seq<Partition>, k: nat, skip: bool, sig: Signature, s: Name)
    requires WellScheduled(g, Flatten(parts)) && k < |parts|
    requires Signs(g, parts[k], Unmet(g, parts, k + 1), skip, sig)
    requires s in InputNames(g, parts[k]) && s in g.known && s !in Freed(parts[k]) && s !in Outputs(parts[k])
    ensures s in sig.outputNames
  {
    assert s in Elems(sig.inputNames);
    OthersReturnedExactly(g, parts, k, skip, sig, s);
  }

  lemma NotFreedWhenDemanded(g: Graph, parts: seq<Partition>, k: nat, s: Name)
    requires WellScheduled(g, Flatten(parts)) && k < |parts|
    requires Demanded(g, parts, k + 1, s)
    ensures s !in Freed(parts[k])
  {
    if s in Freed(parts[k]) { FreedIsOutOfUse(g, parts, k, s); }
  }

  /** The effect of one call, seen from the caller and from the unpartitioned run. */
  ghost predicate CallMatches<V>(p: Partition, sig: Signature, env: map<Name, V>, store: map<Name, V>,
                                 env': map<Name, V>, store': map<Name, V>) {
    && (forall x :: x in sig.outputNames ==> x in env' && x in store' && env'[x] == store'[x])
    && (forall x :: x in env && x !in Freed(p) && x !in sig.outputNames ==> x in env' && env'[x] == env[x])
  }

  lemma CallAgrees<V>(g: Graph, kernel: Kernel<V>, parts: seq<Partition>, k: nat, skip: bool, sig: Signature,
                      env: map<Name, V>, store: map<Name, V>)
    returns (env': map<Name, V>, store': map<Name, V>)
    requires WellScheduled(g, Flatten(parts)) && k < |parts| && Faithful(g, parts, k, env, store)
    requires Signs(g, parts[k], Unmet(g, parts, k + 1), skip, sig)
    ensures Call(g, kernel, env, parts[k], sig) == Some(env') && Run(g, kernel, store, parts[k]) == Some(store')
    ensures CallMatches(parts[k], sig, env, store, env', store')
    ensures Rewrites(store, store', Stored(g, parts[k])) && Stored(g, parts[k]) <= store'.Keys
  {
    var p := parts[k];
    VisibleIsInputs(g, parts, k, Unmet(g, parts, k + 1), skip, sig);
    forall s | s in InputNames(g, p) ensures s in env && s in store && env[s] == store[s] {
      InputsFaithful(g, parts, k, env, store, s);
    }
    var local := map x | x in InputNames(g, p) :: env[x];
    PartitionSelfContained(g, parts, k);
    var local';
    local', store' := RunsAgree(g, kernel, p, InputNames(g, p), 0, local, store);
    assert p[0..] == p;
    forall s | s in Elems(sig.outputNames) ensures s in local' {
      OutputsHeld(g, parts, k, Unmet(g, parts, k + 1), s);
    }
    env' := CallResult(g, kernel, env, p, Unmet(g, parts, k + 1), skip, sig, local');
  }

  lemma CallResult<V>(g: Graph, kernel: Kernel<V>, env: map<Name, V>, p: Partition, unmet: set<Name>, skip: bool,
                      sig: Signature, local': map<Name, V>)
    returns (env': map<Name, V>)
    requires Signs(g, p, unmet, skip, sig) && InputNames(g, p) <= env.Keys
    requires Elems(sig.inputNames) + Elems(sig.constantNames) == InputNames(g, p)
    requires Run(g, kernel, map x | x in InputNames(g, p) :: env[x], p) == Some(local')
    requires Elems(sig.outputNames) <= local'.Keys
    ensures Call(g, kernel, env, p, sig) == Some(env')
    ensures forall x :: x in sig.outputNames ==> x in env' && x in local' && env'[x] == local'[x]
    ensures forall x :: x in env && x !in Freed(p) && x !in sig.outputNames ==> x in env' && env'[x] == env[x]
  {
    env' := Call(g, kernel, env, p, sig).value;
    assert forall x :: x in sig.outputNames <==> x in Elems(sig.outputNames);
  }

  lemma StorageSnoc(g: Graph, parts: seq<Partition>, k: nat)
    requires k < |parts|
    ensures Storage(g, Flatten(parts[..k + 1])) == Storage(g, Flatten(parts[..k])) + Stored(g, parts[k])
  {
    FlattenSplit(parts, k);
    StoredSplit(g, Flatten(parts[..k]), parts[k]);
  }

  lemma StaysFaithful<V>(g: Graph, parts: seq<Partition>, k: nat, skip: bool, sig: Signature, env: map<Name, V>,
                         store: map<Name, V>, env': map<Name, V>, store': map<Name, V>)
    requires WellScheduled(g, Flatten(parts)) && k < |parts| && Faithful(g, parts, k, env, store)
    requires Signs(g, parts[k], Unmet(g, parts, k + 1), skip, sig)
    requires CallMatches(parts[k], sig, env, store, env', store')
    requires Rewrites(store, store', Stored(g, parts[k])) && Stored(g, parts[k]) <= store'.Keys
    ensures Faithful(g, parts, k + 1, env', store')
  {
    StorageSnoc(g, parts, k);
    forall s | s in Storage(g, Flatten(parts[..k + 1]))
      ensures s in store' && (Demanded(g, parts, k + 1, s) ==> s in env' && env'[s] == store'[s])
    {
      if Demanded(g, parts, k + 1, s) && s !in sig.outputNames {
        if s in Stored(g, parts[k]) {
          WrittenIsReturned(g, parts, k, skip, sig, s);
        } else {
          NotFreedWhenDemanded(g, parts, k, s);
        }
      }
    }
  }

  /** Every partition is signed for what the rest of the schedule wants. */
  ghost predicate AllSigned(g: Graph, parts: seq<Partition>, sigs: seq<Signature>) {
    |sigs| == |parts| && forall k :: 0 <= k < |parts| ==> SignedAt(g, parts, k, sigs[k])
  }

  ghost predicate SignedAt(g: Graph, parts: seq<Partition>, k: nat, sig: Signature)
    requires k < |parts|
  {
    Signs(g, parts[k], Unmet(g, parts, k + 1), sig.skipCudagraph, sig)
  }

  /** On a well-formed schedule the pass meets no endless renaming. */
  lemma LayoutsEnd(g: Graph, parts: seq<Partition>)
    requires WellScheduled(g, Flatten(parts))
    ensures LayoutsResolve(g)
  {
    forall x: Name ensures NoneLayoutFrom(g, x, g.buffers.Keys).Some? {
      RealNamesAreFixed(g, Flatten(parts), x);
    }
  }

  /** On a well-formed schedule the pass meets no unknown name and no endless renaming. */
  lemma PassNeverFails(g: Graph, parts: seq<Partition>, k: nat)
    requires WellScheduled(g, Flatten(parts)) && k < |parts|
    ensures LayoutsResolve(g) && LookupsResolve(g, parts[k])
  {
    LayoutsEnd(g, parts);
    forall x | x in Outputs(parts[k]) + Kept(g, parts[k]) ensures Real(g, x) in g.known {
      if x in Kept(g, parts[k]) { InputIsReal(g, parts, k, x); } else { ProducedKnown(g, parts, k, x); }
    }
  }

  /** With one skip flag per partition, the pass signs them all. */
  lemma PassSignsAll(g: Graph, parts: seq<Partition>, skips: seq<bool>, sigs: seq<Signature>)
    requires |skips| == |parts| == |sigs|
    requires forall i :: 0 <= i < |sigs| ==> SignedFromEnd(g, parts, skips, |sigs| - 1 - i, sigs[i])
    ensures AllSigned(g, parts, sigs)
  {
    forall k | 0 <= k < |parts| ensures SignedAt(g, parts, k, sigs[k]) {
      assert SignedFromEnd(g, parts, skips, |sigs| - 1 - k, sigs[k]);
      FromEndIsAt(g, parts, skips, k, sigs[k]);
    }
  }

  lemma FromEndIsAt(g: Graph, parts: seq<Partition>, skips: seq<bool>, k: nat, sig: Signature)
    requires k < |parts| == |skips| && SignedFromEnd(g, parts, skips, |parts| - 1 - k, sig)
    ensures SignedAt(g, parts, k, sig)
  {
  }

  lemma {:induction false} CallsFromAgree<V>(g: Graph, kernel: Kernel<V>, parts: seq<Partition>, sigs: seq<Signature>,
                                             k: nat, env: map<Name, V>, store: map<Name, V>)
    returns (env': map<Name, V>, store': map<Name, V>)
    requires WellScheduled(g, Flatten(parts)) && AllSigned(g, parts, sigs)
    requires k <= |parts| && Faithful(g, parts, k, env, store)
    ensures CallAll(g, kernel, env, parts[k..], sigs[k..]) == Some(env')
    ensures Run(g, kernel, store, Flatten(parts[k..])) == Some(store')
    ensures Faithful(g, parts, |parts|, env', store')
    decreases |parts| - k
  {
    if k == |parts| {
      env', store' := env, store;
    } else {
      assert SignedAt(g, parts, k, sigs[k]);
      var env1, store1 := CallAgrees(g, kernel, parts, k, sigs[k].skipCudagraph, sigs[k], env, store);
      StaysFaithful(g, parts, k, sigs[k].skipCudagraph, sigs[k], env, store, env1, store1);
      env', store' := CallsFromAgree(g, kernel, parts, sigs, k + 1, env1, store1);
      assert parts[k..][1..] == parts[k + 1..] && sigs[k..][1..] == sigs[k + 1..];
      RunConcat(g, kernel, store, parts[k], Flatten(parts[k + 1..]));
    }
  }

  /** Every graph output that has storage is there in both, with the same value. */
  ghost predicate SameOutputs<V>(g: Graph, env: map<Name, V>, store: map<Name, V>) {
    forall x :: x in g.outputNames && !IsNoneLayout(g, x) ==>
      Real(g, x) in env && Real(g, x) in store && env[Real(g, x)] == store[Real(g, x)]
  }

  /**
   Partitioned and unpartitioned execution: from any environment that holds the graph inputs and
   constants, no partition ever misses an input, and every graph output that has storage ends up
   with the value that the plain node list gives it. `kernel` is any meaning of the nodes.
   */
  lemma PartitioningPreservesMeaning<V>(g: Graph, kernel: Kernel<V>, parts: seq<Partition>, sigs: seq<Signature>,
                                        env: map<Name, V>)
    requires WellScheduled(g, Flatten(parts)) && AllSigned(g, parts, sigs)
    requires g.graphInputs + g.constants <= env.Keys
    ensures CallAll(g, kernel, env, parts, sigs).Some? && Run(g, kernel, env, Flatten(parts)).Some?
    ensures SameOutputs(g, CallAll(g, kernel, env, parts, sigs).value, Run(g, kernel, env, Flatten(parts)).value)
  {
    assert parts[0..] == parts && sigs[0..] == sigs && parts[..|parts|] == parts;
    var env', store' := CallsFromAgree(g, kernel, parts, sigs, 0, env, env);
    forall x | x in g.outputNames && !IsNoneLayout(g, x)
      ensures Real(g, x) in env' && Real(g, x) in store' && env'[Real(g, x)] == store'[Real(g, x)]
    {
      AvailableIsStored(g, Flatten(parts), Flatten(parts), x);
      assert x in Elems(g.outputNames);
    }
  }

  lemma NoLookupFails(g: Graph, parts: seq<Partition>)
    requires WellScheduled(g, Flatten(parts))
    ensures LayoutsResolve(g) && AllResolve(g, parts)
  {
    LayoutsEnd(g, parts);
    forall k: nat | k < |parts| ensures ResolvesAt(g, parts, k) { PassNeverFails(g, parts, k); }
  }

  /** On a well-formed schedule the pass signs every partition with its own flag. */
  method SignAll(g: Graph, parts: seq<Partition>, skips: seq<bool>) returns (sigs: seq<Signature>)
    requires WellScheduled(g, Flatten(parts)) && |skips| == |parts|
    ensures AllSigned(g, parts, sigs) && OwnFlags(skips, sigs)
  {
    NoLookupFails(g, parts);
    sigs := GetSignatures(g, parts, skips);
    PassSignsAll(g, parts, skips, sigs);
  }

  /**
   The pass and what it is for: on a well-formed schedule it meets no failing lookup, signs every
   partition, and calling the partitions by these signatures gives the outputs of the plain node list.
   */
  method SignAndPreserve<V>(g: Graph, ghost kernel: Kernel<V>, parts: seq<Partition>, skips: seq<bool>,
                            ghost env: map<Name, V>)
    returns (sigs: seq<Signature>)
    requires WellScheduled(g, Flatten(parts)) && |skips| == |parts|
    requires g.graphInputs + g.constants <= env.Keys
    ensures AllSigned(g, parts, sigs) && NoneUnallocated(g, sigs)
    ensures OwnFlags(skips, sigs)
    ensures CallAll(g, kernel, env, parts, sigs).Some? && Run(g, kernel, env, Flatten(parts)).Some?
    ensures SameOutputs(g, CallAll(g, kernel, env, parts, sigs).value, Run(g, kernel, env, Flatten(parts)).value)
  {
    sigs := SignAll(g, parts, skips);
    SignedUnallocated(g, parts, sigs);
    PartitioningPreservesMeaning(g, kernel, parts, sigs, env);
  }

  /** No signature names a buffer that is never allocated. */
  ghost predicate NoneUnallocated(g: Graph, sigs: seq<Signature>) {
    forall k, x :: 0 <= k < |sigs| && x in g.buffers && g.buffers[x] == Buffer(true, false) ==>
      x !in sigs[k].inputNames && x !in sigs[k].outputNames
  }

  lemma SignedUnallocated(g: Graph, parts: seq<Partition>, sigs: seq<Signature>)
    requires WellScheduled(g, Flatten(parts)) && AllSigned(g, parts, sigs)
    ensures NoneUnallocated(g, sigs)
  {
    forall k, x | 0 <= k < |sigs| && x in g.buffers && g.buffers[x] == Buffer(true, false)
      ensures x !in sigs[k].inputNames && x !in sigs[k].outputNames
    {
      assert SignedAt(g, parts, k, sigs[k]);
      UnallocatedNeverPassed(g, parts, k, sigs[k].skipCudagraph, sigs[k], x);
    }
  }
}
