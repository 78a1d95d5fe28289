/**
 What the partition signatures are for: running the partitions one after the other, each seeing
 nothing but its declared inputs, computes what the unpartitioned node list computes.
 */
module GraphMeaning {
  import opened Basics
  import opened OrderedSets
  import opened GraphPartition

  // ----- Well-formed schedules

  /** All nodes in execution order. */
  ghost function Flatten(parts: seq<Partition>): Partition {
    if parts == [] then [] else parts[0] + Flatten(parts[1..])
  }

  ghost function Available(g: Graph, pre: Partition): set<Name> {
    g.graphInputs + g.constants + Outputs(pre)
  }

  /** The storage a node needs to find before it runs. */
  ghost function Needs(g: Graph, n: Node): set<Name> {
    set x | x in n.readNames + n.writeNames && x !in n.outputs && !IsNoneLayout(g, x) :: Real(g, x)
  }

  /** The storage a node (re)writes. */
  ghost function Stores(g: Graph, n: Node): set<Name> {
    set x | x in n.outputs && !IsNoneLayout(g, x) :: Real(g, x)
  }

  ghost function Stored(g: Graph, p: Partition): set<Name> {
    set n, x | n in p && x in Stores(g, n) :: x
  }

  /** `x` is out of use after this point: neither the nodes `post` nor the caller look at it. */
  ghost predicate OutOfUse(g: Graph, post: Partition, x: Name) {
    && x !in RealImage(g, Elems(g.outputNames))
    && forall n :: n in post ==> x !in Needs(g, n) && x !in Stores(g, n) && x !in n.lastUsage
  }

  /** Single assignment, topological order, mutations that name their target, true last uses. */
  ghost predicate WellPlaced(g: Graph, pre: Partition, n: Node, post: Partition) {
    && (forall x :: x in n.outputs ==> x !in Available(g, pre))
    && (forall x :: x in n.readNames + n.writeNames && !IsNoneLayout(g, x) ==> x in Available(g, pre) || x in n.outputs)
    && (forall x :: x in n.outputs && x in g.realName ==>
          && Real(g, x) in g.graphInputs + Outputs(pre)
          && (!IsNoneLayout(g, x) ==> Real(g, x) in Needs(g, n)))
    && (forall x :: x in n.lastUsage ==>
          && x !in g.realName && !IsNoneLayout(g, x)
          && (x in Available(g, pre) || x in n.outputs)
          && OutOfUse(g, post, x))
  }

  /** A renamed name is the mutation output of some node, and its real name is not renamed again. */
  ghost predicate RenamesResolve(g: Graph, nodes: Partition) {
    forall x :: x in g.realName ==>
      && x in Outputs(nodes) && x in g.buffers && g.buffers[x] == Buffer(true, true)
      && g.realName[x] !in g.realName && g.realName[x].text != ""
  }

  ghost predicate PlacedAt(g: Graph, nodes: Partition, j: nat)
    requires j < |nodes|
  {
    WellPlaced(g, nodes[..j], nodes[j], nodes[j + 1..])
  }

  ghost predicate WellScheduled(g: Graph, nodes: Partition) {
    && g.known == g.graphInputs + Outputs(nodes) && g.constants !! g.known
    && g.graphInputs !! Outputs(nodes)
    && RenamesResolve(g, nodes)
    && Elems(g.outputNames) <= Available(g, nodes)
    && forall j :: 0 <= j < |nodes| ==> PlacedAt(g, nodes, j)
  }

  // ----- Running nodes and partitions

  /** Runs one node on a store: `kernel(id, view, x)` is what node `id` writes into `x`. */
  ghost function Step<V>(g: Graph, kernel: (nat, map<Name, V>, Name) -> V, store: map<Name, V>,
                         n: Node): Option<map<Name, V>> {
    if Needs(g, n) <= store.Keys then
      var view := map x | x in Needs(g, n) :: store[x];
      Some(store + map x | x in Stores(g, n) :: kernel(n.id, view, x))
    else None
  }

  /** Runs nodes in order; `None` as soon as one misses an input. */
  ghost function Run<V>(g: Graph, kernel: (nat, map<Name, V>, Name) -> V, store: map<Name, V>,
                        nodes: Partition): Option<map<Name, V>>
    decreases |nodes|
  {
    if nodes == [] then Some(store)
    else
      match Step(g, kernel, store, nodes[0])
      case None => None
      case Some(next) => Run(g, kernel, next, nodes[1..])
  }

  /** Calls a partition: it sees its declared inputs and constants only, and hands back its declared outputs. */
  ghost function Call<V>(g: Graph, kernel: (nat, map<Name, V>, Name) -> V, env: map<Name, V>, p: Partition,
                         sig: Signature): Option<map<Name, V>> {
    var visible := Elems(sig.inputNames) + Elems(sig.constantNames);
    if !(visible <= env.Keys) then None
    else
      match Run(g, kernel, map x | x in visible :: env[x], p)
      case None => None
      case Some(local) =>
        if !(Elems(sig.outputNames) <= local.Keys) then None
        else
          var dropped := set x | x in sig.deallocation && sig.deallocation[x];
          Some((env - dropped) + map x | x in Elems(sig.outputNames) :: local[x])
  }

  ghost function CallAll<V>(g: Graph, kernel: (nat, map<Name, V>, Name) -> V, env: map<Name, V>, parts: seq<Partition>,
                            sigs: seq<Signature>): Option<map<Name, V>>
    requires |parts| == |sigs|
    decreases |parts|
  {
    if parts == [] then Some(env)
    else
      match Call(g, kernel, env, parts[0], sigs[0])
      case None => None
      case Some(next) => CallAll(g, kernel, next, parts[1..], sigs[1..])
  }

  // ----- Names and places

  lemma RealNamesAreFixed(g: Graph, nodes: Partition, x: Name)
    requires RenamesResolve(g, nodes)
    ensures Real(g, Real(g, x)) == Real(g, x) && Real(g, x) !in g.realName
    ensures IsNoneLayout(g, x) == IsNoneLayout(g, Real(g, x))
    ensures NoneLayoutFrom(g, x, g.buffers.Keys).Some?
  {
    if x in g.realName {
      var y := g.realName[x];
      assert NoneLayoutFrom(g, x, g.buffers.Keys) == NoneLayoutFrom(g, y, g.buffers.Keys - {x});
      assert y !in g.realName;
    }
  }

  /** Buffers without a layout: exactly those that are one under their real name. */
  lemma LayoutExactly(g: Graph, nodes: Partition, x: Name)
    requires RenamesResolve(g, nodes)
    ensures var y := if x in g.realName then g.realName[x] else x;
      IsNoneLayout(g, x) <==> y in g.buffers && g.buffers[y].noneLayout
  {
    RealNamesAreFixed(g, nodes, x);
  }

  lemma TailOfInit<T>(s: seq<T>, k: nat)
    requires 0 < k <= |s|
    ensures s[..k][1..] == s[1..][..k - 1] && s[..k][0] == s[0]
  {
  }

  lemma TailOfTail<T>(s: seq<T>, k: nat)
    requires k < |s|
    ensures s[1..][k..] == s[k + 1..]
  {
  }

  /** The first `k + 1` partitions are the first `k` and one more. */
  lemma {:induction false} FlattenInit(parts: seq<Partition>, k: nat)
    requires k < |parts|
    ensures Flatten(parts[..k + 1]) == Flatten(parts[..k]) + parts[k]
  {
    TailOfInit(parts, k + 1);
    if k > 0 {
      TailOfInit(parts, k);
      FlattenInit(parts[1..], k - 1);
      JoinAssociative(parts[0], Flatten(parts[1..][..k - 1]), parts[k]);
    }
  }

  lemma {:induction false} FlattenRest(parts: seq<Partition>, k: nat)
    requires k <= |parts|
    ensures Flatten(parts) == Flatten(parts[..k]) + Flatten(parts[k..])
  {
    if k > 0 {
      TailOfInit(parts, k);
      TailOfTail(parts, k - 1);
      FlattenRest(parts[1..], k - 1);
      JoinAssociative(parts[0], Flatten(parts[1..][..k - 1]), Flatten(parts[k..]));
    } else {
      assert parts[0..] == parts;
    }
  }

  lemma FlattenSplit(parts: seq<Partition>, k: nat)
    requires k < |parts|
    ensures Flatten(parts) == Flatten(parts[..k]) + parts[k] + Flatten(parts[k + 1..])
    ensures Flatten(parts[..k + 1]) == Flatten(parts[..k]) + parts[k]
  {
    FlattenInit(parts, k);
    FlattenRest(parts, k + 1);
  }

  /** Where a name produced by some nodes comes from. */
  lemma ProducerOf(p: Partition, x: Name) returns (i: nat)
    requires x in Outputs(p)
    ensures i < |p| && x in p[i].outputs
  {
    var n :| n in p && x in n.outputs;
    i :| 0 <= i < |p| && p[i] == n;
  }

  lemma OutputsSplit(a: Partition, b: Partition)
    ensures Outputs(a + b) == Outputs(a) + Outputs(b)
  {
  }

  lemma StoredSplit(g: Graph, a: Partition, b: Partition)
    ensures Stored(g, a + b) == Stored(g, a) + Stored(g, b)
  {
  }

  lemma SliceOfSlice(nodes: Partition, a: nat, i: nat, b: nat)
    requires a + i < b <= |nodes|
    ensures nodes[a..b][i] == nodes[a + i] && nodes[a..b][..i] == nodes[a..a + i]
  {
  }

  /** Splits a prefix of the schedule at `a`. */
  lemma PrefixSplit(g: Graph, nodes: Partition, a: nat, b: nat)
    requires a <= b <= |nodes|
    ensures Outputs(nodes[..b]) == Outputs(nodes[..a]) + Outputs(nodes[a..b])
    ensures Stored(g, nodes[..b]) == Stored(g, nodes[..a]) + Stored(g, nodes[a..b])
    ensures Outputs(nodes[..b]) <= Outputs(nodes)
  {
    assert nodes[..b] == nodes[..a] + nodes[a..b];
    OutputsSplit(nodes[..a], nodes[a..b]);
    StoredSplit(g, nodes[..a], nodes[a..b]);
    assert nodes == nodes[..b] + nodes[b..];
    OutputsSplit(nodes[..b], nodes[b..]);
  }

  lemma Placed(g: Graph, nodes: Partition, i: nat)
    requires WellScheduled(g, nodes) && i < |nodes|
    ensures WellPlaced(g, nodes[..i], nodes[i], nodes[i + 1..])
  {
    assert PlacedAt(g, nodes, i);
  }

  /** Real names never point forward. */
  lemma RealIsGiven(g: Graph, nodes: Partition, j: nat, x: Name)
    requires WellScheduled(g, nodes) && j <= |nodes|
    requires x in Available(g, nodes[..j])
    ensures Real(g, x) in Available(g, nodes[..j])
    ensures x !in g.constants ==> Real(g, x) in g.known
  {
    if x in g.realName {
      var i := ProducerOf(nodes[..j], x);
      TargetIsGiven(g, nodes, i, x);
      PrefixSplit(g, nodes, i, j);
    }
    PrefixSplit(g, nodes, j, j);
  }

  lemma TargetIsGiven(g: Graph, nodes: Partition, j: nat, x: Name)
    requires WellScheduled(g, nodes) && j < |nodes| && x in nodes[j].outputs && x in g.realName
    ensures Real(g, x) in g.graphInputs + Outputs(nodes[..j])
  {
    Placed(g, nodes, j);
  }

  /** A name that the slice `a..b` does not produce was there before it. */
  lemma GivenBefore(g: Graph, nodes: Partition, a: nat, j: nat, b: nat, x: Name)
    requires a <= j <= b <= |nodes|
    requires x in Available(g, nodes[..j]) && x !in Outputs(nodes[a..b])
    ensures x in Available(g, nodes[..a])
  {
    PrefixSplit(g, nodes, a, j);
    assert nodes[a..b] == nodes[a..j] + nodes[j..b];
    OutputsSplit(nodes[a..j], nodes[j..b]);
  }

  /** The storage that exists once the nodes `pre` have run. */
  ghost function Storage(g: Graph, pre: Partition): set<Name> {
    g.graphInputs + g.constants + Stored(g, pre)
  }

  lemma AvailableIsStored(g: Graph, nodes: Partition, pre: Partition, x: Name)
    requires RenamesResolve(g, nodes) && g.graphInputs + g.constants !! Outputs(nodes)
    requires x in Available(g, pre) && !IsNoneLayout(g, x)
    ensures Real(g, x) in Storage(g, pre)
  {
    if x in Outputs(pre) {
      var i := ProducerOf(pre, x);
      assert Real(g, x) in Stores(g, pre[i]);
    }
  }

  /** Why a name is an input: some node frees it or accesses it under some name. */
  lemma WhyInput(g: Graph, p: Partition, s: Name) returns (i: nat, x: Name)
    requires s in InputNames(g, p)
    ensures i < |p| && x !in Outputs(p) && x !in p[i].outputs
    ensures (x in p[i].lastUsage && x == s)
         || (x in p[i].readNames + p[i].writeNames && !IsNoneLayout(g, x) && Real(g, x) == s)
  {
    if s in (Freed(p) - Outputs(p)) * g.known {
      x := s;
      var n :| n in p && s in n.lastUsage;
      i :| 0 <= i < |p| && p[i] == n;
    } else {
      x :| x in Accessed(p) && x !in Outputs(p) && !IsNoneLayout(g, x) && Real(g, x) == s;
      var n :| n in p && x in n.readNames + n.writeNames;
      i :| 0 <= i < |p| && p[i] == n;
    }
  }

  lemma UsedIsGiven(g: Graph, nodes: Partition, j: nat, x: Name)
    requires WellScheduled(g, nodes) && j < |nodes| && x !in nodes[j].outputs
    requires x in nodes[j].lastUsage || (x in nodes[j].readNames + nodes[j].writeNames && !IsNoneLayout(g, x))
    ensures x in Available(g, nodes[..j]) && !IsNoneLayout(g, x)
    ensures x in nodes[j].lastUsage ==> x !in g.realName
  {
    Placed(g, nodes, j);
  }

  /** The name under which a slice gets hold of one of its inputs. */
  lemma InputOrigin(g: Graph, nodes: Partition, a: nat, b: nat, s: Name) returns (x: Name)
    requires WellScheduled(g, nodes) && a <= b <= |nodes|
    requires s in InputNames(g, nodes[a..b])
    ensures Real(g, x) == s && !IsNoneLayout(g, x) && x in Available(g, nodes[..a])
  {
    var i;
    i, x := WhyInput(g, nodes[a..b], s);
    SliceOfSlice(nodes, a, i, b);
    UsedIsGiven(g, nodes, a + i, x);
    GivenBefore(g, nodes, a, a + i, b, x);
  }

  /** Every declared input is storage that exists before the slice runs, under its real name. */
  lemma InputExists(g: Graph, nodes: Partition, a: nat, b: nat, s: Name)
    requires WellScheduled(g, nodes) && a <= b <= |nodes|
    requires s in InputNames(g, nodes[a..b])
    ensures s in Storage(g, nodes[..a]) && s in Available(g, nodes[..a])
    ensures s in g.known + g.constants && Real(g, s) == s && !IsNoneLayout(g, s)
  {
    var x := InputOrigin(g, nodes, a, b, s);
    AvailableIsStored(g, nodes, nodes[..a], x);
    RealNamesAreFixed(g, nodes, x);
    RealIsGiven(g, nodes, a, x);
  }

  lemma OutputIsNew(g: Graph, nodes: Partition, j: nat, x: Name)
    requires WellScheduled(g, nodes) && j < |nodes| && x in nodes[j].outputs
    ensures x !in Available(g, nodes[..j])
  {
    Placed(g, nodes, j);
  }

  /** What one node produces was not there before, and nobody before it produced it. */
  lemma ProducedOnce(g: Graph, nodes: Partition, a: nat, b: nat, x: Name)
    requires WellScheduled(g, nodes) && a <= b <= |nodes|
    requires x in Outputs(nodes[a..b])
    ensures x !in Available(g, nodes[..a]) && x in g.known
  {
    var i := ProducerOf(nodes[a..b], x);
    SliceOfSlice(nodes, a, i, b);
    OutputIsNew(g, nodes, a + i, x);
    PrefixSplit(g, nodes, a, a + i);
    PrefixSplit(g, nodes, a, b);
  }

  /** A slice that rewrites storage it did not produce declares that storage as an input. */
  lemma {:induction false} MutatedIsInput(g: Graph, nodes: Partition, a: nat, j: nat, b: nat, y: Name)
    requires WellScheduled(g, nodes) && a <= j < b <= |nodes|
    requires y in nodes[j].outputs && !IsNoneLayout(g, y) && Real(g, y) !in Outputs(nodes[a..b])
    ensures Real(g, y) in InputNames(g, nodes[a..b])
    decreases j
  {
    var p := nodes[a..b];
    SliceOfSlice(nodes, a, j - a, b);
    assert p[j - a] in p && y in Outputs(p);
    var m := MutationNames(g, nodes, j, y);
    assert m in Accessed(p);
    if m in Outputs(p) {
      var i := ProducerBefore(g, nodes, a, j, b, m);
      MutatedIsInput(g, nodes, a, i, b, m);
    }
  }

  lemma MutationNames(g: Graph, nodes: Partition, j: nat, y: Name) returns (m: Name)
    requires WellScheduled(g, nodes) && j < |nodes|
    requires y in nodes[j].outputs && y in g.realName && !IsNoneLayout(g, y)
    ensures m in nodes[j].readNames + nodes[j].writeNames && m !in nodes[j].outputs && !IsNoneLayout(g, m)
    ensures Real(g, m) == Real(g, y) && m in Available(g, nodes[..j])
  {
    var n := nodes[j];
    assert Real(g, y) in Needs(g, n) by { Placed(g, nodes, j); }
    m :| m in n.readNames + n.writeNames && m !in n.outputs && !IsNoneLayout(g, m) && Real(g, m) == Real(g, y);
    UsedIsGiven(g, nodes, j, m);
  }

  /** A name both available before node `j` and produced in the slice is produced before `j` in it. */
  lemma ProducerBefore(g: Graph, nodes: Partition, a: nat, j: nat, b: nat, x: Name) returns (i: nat)
    requires WellScheduled(g, nodes) && a <= j <= b <= |nodes|
    requires x in Available(g, nodes[..j]) && x in Outputs(nodes[a..b])
    ensures a <= i < j && x in nodes[i].outputs
  {
    ProducedOnce(g, nodes, a, b, x);
    PrefixSplit(g, nodes, a, j);
    i := ProducerOf(nodes[a..j], x);
    i := a + i;
  }
}
