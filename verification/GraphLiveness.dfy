/** The reverse pass computes liveness exactly. */
module GraphLiveness {
  import opened Basics
  import opened OrderedSets
  import opened GraphPartition
  import opened GraphMeaning

  /** Position of partition `k` in the whole schedule. */
  ghost function Cut(parts: seq<Partition>, k: nat): nat
    requires k <= |parts|
  {
    |Flatten(parts[..k])|
  }

  lemma CutSlice(parts: seq<Partition>, k: nat)
    requires k < |parts|
    ensures Cut(parts, k) <= Cut(parts, k + 1) <= |Flatten(parts)|
    ensures Flatten(parts)[Cut(parts, k)..Cut(parts, k + 1)] == parts[k]
    ensures Flatten(parts)[..Cut(parts, k)] == Flatten(parts[..k])
  {
    FlattenSplit(parts, k);
  }

  lemma {:induction false} CutOrder(parts: seq<Partition>, k: nat, q: nat)
    requires k <= q <= |parts|
    ensures Cut(parts, k) <= Cut(parts, q) <= |Flatten(parts)|
    decreases q - k
  {
    if k < q {
      CutSlice(parts, k);
      CutOrder(parts, k + 1, q);
    } else if q < |parts| {
      CutSlice(parts, q);
    } else {
      assert parts[..q] == parts;
    }
  }

  /** What partition `k` takes in existed before any later partition, so none of those produces it. */
  lemma InputNotProducedLater(g: Graph, parts: seq<Partition>, k: nat, q: nat, s: Name)
    requires WellScheduled(g, Flatten(parts)) && k <= q < |parts|
    requires s in InputNames(g, parts[k])
    ensures s !in Outputs(parts[q])
  {
    var nodes, a := Flatten(parts), Cut(parts, k);
    CutSlice(parts, k);
    InputExists(g, nodes, a, Cut(parts, k + 1), s);
    if s in Outputs(parts[q]) {
      CutSlice(parts, q);
      CutOrder(parts, k, q);
      ProducedOnce(g, nodes, Cut(parts, q), Cut(parts, q + 1), s);
      PrefixSplit(g, nodes, a, Cut(parts, q));
    }
  }

  lemma ProducedByOne(g: Graph, parts: seq<Partition>, k: nat, q: nat, x: Name)
    requires WellScheduled(g, Flatten(parts)) && k < q < |parts|
    requires x in Outputs(parts[k])
    ensures x !in Outputs(parts[q])
  {
    if x in Outputs(parts[q]) {
      CutSlice(parts, k);
      CutSlice(parts, q);
      CutOrder(parts, k + 1, q);
      PrefixSplit(g, Flatten(parts), Cut(parts, k + 1), Cut(parts, q));
      PrefixSplit(g, Flatten(parts), Cut(parts, k), Cut(parts, k + 1));
      ProducedOnce(g, Flatten(parts), Cut(parts, q), Cut(parts, q + 1), x);
    }
  }

  lemma MutatedByPartition(g: Graph, parts: seq<Partition>, k: nat, y: Name)
    requires WellScheduled(g, Flatten(parts)) && k < |parts|
    requires y in Outputs(parts[k]) && !IsNoneLayout(g, y) && Real(g, y) !in Outputs(parts[k])
    ensures Real(g, y) in InputNames(g, parts[k])
  {
    CutSlice(parts, k);
    MutatedBySlice(g, Flatten(parts), Cut(parts, k), Cut(parts, k + 1), y);
  }

  lemma MutatedBySlice(g: Graph, nodes: Partition, a: nat, b: nat, y: Name)
    requires WellScheduled(g, nodes) && a <= b <= |nodes|
    requires y in Outputs(nodes[a..b]) && !IsNoneLayout(g, y) && Real(g, y) !in Outputs(nodes[a..b])
    ensures Real(g, y) in InputNames(g, nodes[a..b])
  {
    var i := ProducerOf(nodes[a..b], y);
    SliceOfSlice(nodes, a, i, b);
    MutatedIsInput(g, nodes, a, a + i, b, y);
  }

  lemma InputIsReal(g: Graph, parts: seq<Partition>, k: nat, s: Name)
    requires WellScheduled(g, Flatten(parts)) && k < |parts|
    requires s in InputNames(g, parts[k])
    ensures Real(g, s) == s && s !in g.realName && !IsNoneLayout(g, s)
  {
    CutSlice(parts, k);
    InputExists(g, Flatten(parts), Cut(parts, k), Cut(parts, k + 1), s);
  }

  // ----- What the pass still wants

  /** `x` is a graph output or an input of one of the partitions `k..`. */
  ghost predicate WantedFrom(g: Graph, parts: seq<Partition>, k: nat, x: Name) {
    x in g.outputNames || exists q :: k <= q < |parts| && x in InputNames(g, parts[q])
  }

  lemma {:induction false} UnmetIsWanted(g: Graph, parts: seq<Partition>, k: nat, x: Name)
    requires k <= |parts| && x in Unmet(g, parts, k)
    ensures WantedFrom(g, parts, k, x)
    decreases |parts| - k
  {
    if k < |parts| && x !in InputNames(g, parts[k]) {
      UnmetIsWanted(g, parts, k + 1, x);
    }
  }

  lemma ReturnsWanted(g: Graph, p: Partition, unmet: set<Name>, y: Name)
    requires y in Outputs(p) && y in unmet
    ensures Real(g, y) in Returned(g, p, unmet)
  {
    assert y in Outputs(p) * unmet + Kept(g, p);
  }

  lemma WhyReturned(g: Graph, p: Partition, unmet: set<Name>, s: Name) returns (y: Name)
    requires s in Returned(g, p, unmet)
    ensures Real(g, y) == s && ((y in Outputs(p) && y in unmet) || y in Kept(g, p))
  {
    y :| y in Outputs(p) * unmet + Kept(g, p) && Real(g, y) == s;
  }

  /** A returned name that the partition does not produce is one of its unfreed inputs. */
  lemma ReturnedElsewhere(g: Graph, parts: seq<Partition>, k: nat, unmet: set<Name>, s: Name)
    requires WellScheduled(g, Flatten(parts)) && k < |parts|
    requires s in Returned(g, parts[k], unmet) && s !in Outputs(parts[k]) && !IsNoneLayout(g, s)
    ensures s in InputNames(g, parts[k])
  {
    var y := WhyReturned(g, parts[k], unmet, s);
    if y in Kept(g, parts[k]) {
      InputIsReal(g, parts, k, y);
    } else {
      RealNamesAreFixed(g, Flatten(parts), y);
      MutatedByPartition(g, parts, k, y);
    }
  }

  lemma {:induction false} WantedIsUnmet(g: Graph, parts: seq<Partition>, k: nat, x: Name)
    requires WellScheduled(g, Flatten(parts)) && k <= |parts|
    requires !IsNoneLayout(g, x) && forall q :: k <= q < |parts| ==> x !in Outputs(parts[q])
    requires WantedFrom(g, parts, k, x)
    ensures x in Unmet(g, parts, k)
    decreases |parts| - k
  {
    if k < |parts| && x !in InputNames(g, parts[k]) {
      WantedIsUnmet(g, parts, k + 1, x);
      if x in Returned(g, parts[k], Unmet(g, parts, k + 1)) {
        ReturnedElsewhere(g, parts, k, Unmet(g, parts, k + 1), x);
      }
    }
  }

  /** A buffer is still wanted after its partition iff the caller or a later partition uses it. */
  lemma UnmetExactly(g: Graph, parts: seq<Partition>, k: nat, x: Name)
    requires WellScheduled(g, Flatten(parts)) && k < |parts|
    requires x in Outputs(parts[k]) && !IsNoneLayout(g, x)
    ensures x in Unmet(g, parts, k + 1) <==> WantedFrom(g, parts, k + 1, x)
  {
    if x in Unmet(g, parts, k + 1) {
      UnmetIsWanted(g, parts, k + 1, x);
    } else if WantedFrom(g, parts, k + 1, x) {
      WantedStaysUnmet(g, parts, k, x);
    }
  }

  lemma WantedStaysUnmet(g: Graph, parts: seq<Partition>, k: nat, x: Name)
    requires WellScheduled(g, Flatten(parts)) && k < |parts|
    requires x in Outputs(parts[k]) && !IsNoneLayout(g, x) && WantedFrom(g, parts, k + 1, x)
    ensures x in Unmet(g, parts, k + 1)
  {
    forall q | k + 1 <= q < |parts| ensures x !in Outputs(parts[q]) {
      ProducedByOne(g, parts, k, q, x);
    }
    WantedIsUnmet(g, parts, k + 1, x);
  }

  /** The caller gets `x` under the name of a mutation of it made in this partition. */
  ghost predicate OutputAlias(g: Graph, p: Partition, x: Name) {
    exists y :: y in Outputs(p) && y in g.outputNames && y in g.realName && Real(g, y) == x
  }

  lemma RenamedWantedOnlyByCaller(g: Graph, parts: seq<Partition>, k: nat, y: Name)
    requires WellScheduled(g, Flatten(parts))
    requires y in g.realName && WantedFrom(g, parts, k, y)
    ensures y in g.outputNames
  {
    if y !in g.outputNames {
      var q :| k <= q < |parts| && y in InputNames(g, parts[q]);
      InputIsReal(g, parts, q, y);
    }
  }

  /**
   A buffer allocated in partition `k` is returned by it iff it is a graph output (under its own
   name or under that of a mutation made there) or an input of a later partition.
   */
  lemma AllocatedReturnedExactly(g: Graph, parts: seq<Partition>, k: nat, skip: bool, sig: Signature, x: Name)
    requires WellScheduled(g, Flatten(parts)) && k < |parts|
    requires Signs(g, parts[k], Unmet(g, parts, k + 1), skip, sig)
    requires x in Outputs(parts[k]) && x !in g.realName && !IsNoneLayout(g, x)
    ensures x in sig.outputNames <==> WantedFrom(g, parts, k + 1, x) || OutputAlias(g, parts[k], x)
  {
    var unmet := Unmet(g, parts, k + 1);
    assert x in sig.outputNames <==> x in Returned(g, parts[k], unmet) by {
      assert x in sig.outputNames <==> x in Elems(sig.outputNames);
    }
    UnmetExactly(g, parts, k, x);
    if x in Returned(g, parts[k], unmet) {
      var y := WhyReturned(g, parts[k], unmet, x);
      if y in Kept(g, parts[k]) {
        InputNotProducedLater(g, parts, k, k, y);
        InputIsReal(g, parts, k, y);
      } else if y in g.realName {
        UnmetIsWanted(g, parts, k + 1, y);
        RenamedWantedOnlyByCaller(g, parts, k + 1, y);
      }
    } else if WantedFrom(g, parts, k + 1, x) {
      ReturnsWanted(g, parts[k], unmet, x);
    } else if OutputAlias(g, parts[k], x) {
      var y :| y in Outputs(parts[k]) && y in g.outputNames && y in g.realName && Real(g, y) == x;
      RealNamesAreFixed(g, Flatten(parts), y);
      UnmetExactly(g, parts, k, y);
      ReturnsWanted(g, parts[k], unmet, y);
    }
  }

  lemma FreedAt(g: Graph, parts: seq<Partition>, k: nat, x: Name) returns (j: nat)
    requires WellScheduled(g, Flatten(parts)) && k < |parts|
    requires x in Freed(parts[k])
    ensures Cut(parts, k) <= j < Cut(parts, k + 1) <= |Flatten(parts)|
    ensures OutOfUse(g, Flatten(parts)[j + 1..], x)
  {
    var i := FreedBy(parts[k], x);
    j := Cut(parts, k) + i;
    CutSlice(parts, k);
    SliceOfSlice(Flatten(parts), Cut(parts, k), i, Cut(parts, k + 1));
    FreedOutOfUse(g, Flatten(parts), j, x);
  }

  lemma FreedBy(p: Partition, x: Name) returns (i: nat)
    requires x in Freed(p)
    ensures i < |p| && x in p[i].lastUsage
  {
    var n :| n in p && x in n.lastUsage;
    i :| 0 <= i < |p| && p[i] == n;
  }

  lemma FreedOutOfUse(g: Graph, nodes: Partition, j: nat, x: Name)
    requires WellScheduled(g, nodes) && j < |nodes| && x in nodes[j].lastUsage
    ensures OutOfUse(g, nodes[j + 1..], x)
  {
    Placed(g, nodes, j);
  }

  /** Nothing that partition `k` frees is used after it. */
  lemma FreedIsOutOfUse(g: Graph, parts: seq<Partition>, k: nat, x: Name)
    requires WellScheduled(g, Flatten(parts)) && k < |parts|
    requires x in Freed(parts[k])
    ensures x !in RealImage(g, Elems(g.outputNames))
    ensures forall q :: k < q < |parts| ==> x !in InputNames(g, parts[q])
  {
    var j := FreedAt(g, parts, k, x);
    forall q | k < q < |parts| ensures x !in InputNames(g, parts[q]) {
      CutSlice(parts, q);
      CutOrder(parts, k + 1, q);
      NotInputWhenUnused(g, Flatten(parts), j + 1, Cut(parts, q), Cut(parts, q + 1), x);
    }
  }

  lemma NotInputWhenUnused(g: Graph, nodes: Partition, j: nat, a: nat, b: nat, x: Name)
    requires j <= a <= b <= |nodes| && OutOfUse(g, nodes[j..], x)
    ensures x !in InputNames(g, nodes[a..b])
  {
    var p := nodes[a..b];
    forall n | n in p ensures n in nodes[j..] {
      var i :| 0 <= i < |p| && p[i] == n;
      assert nodes[j..][a + i - j] == n;
    }
  }

  /** A buffer that is never allocated is no input and no output of any partition. */
  lemma UnallocatedNeverPassed(g: Graph, parts: seq<Partition>, k: nat, skip: bool, sig: Signature, x: Name)
    requires WellScheduled(g, Flatten(parts)) && k < |parts|
    requires Signs(g, parts[k], Unmet(g, parts, k + 1), skip, sig)
    requires x in g.buffers && g.buffers[x] == Buffer(true, false)
    ensures x !in sig.inputNames && x !in sig.outputNames
  {
    LayoutWithoutRenaming(g, x);
    if x in Elems(sig.inputNames) { InputIsReal(g, parts, k, x); }
    assert x !in Elems(sig.outputNames);
  }

  /** What a partition accesses and does not produce, if it may have storage, is handed to it. */
  lemma AccessedIsPassed(g: Graph, parts: seq<Partition>, k: nat, skip: bool, sig: Signature, n: Node, x: Name)
    requires WellScheduled(g, Flatten(parts)) && k < |parts|
    requires Signs(g, parts[k], Unmet(g, parts, k + 1), skip, sig)
    requires n in parts[k] && x in n.readNames + n.writeNames && forall m :: m in parts[k] ==> x !in m.outputs
    requires x !in g.buffers || !g.buffers[x].noneLayout
    ensures x in g.known ==> x in sig.inputNames
    ensures x in g.constants ==> x in sig.constantNames
  {
    LayoutWithoutRenaming(g, x);
    assert x in Accessed(parts[k]) && x !in Outputs(parts[k]);
    assert Real(g, x) == x && x in InputNames(g, parts[k]);
    assert x in g.known ==> x in Elems(sig.inputNames);
    assert x in g.constants ==> x in Elems(sig.constantNames);
  }

  /** What a partition frees and does not produce is handed to it for good. */
  lemma FreedIsTakenIn(g: Graph, parts: seq<Partition>, k: nat, skip: bool, sig: Signature, n: Node, x: Name)
    requires WellScheduled(g, Flatten(parts)) && k < |parts|
    requires Signs(g, parts[k], Unmet(g, parts, k + 1), skip, sig)
    requires n in parts[k] && x in n.lastUsage && x in g.known && forall m :: m in parts[k] ==> x !in m.outputs
    ensures x in sig.inputNames && x in sig.deallocation && sig.deallocation[x] && x !in sig.outputNames
  {
    assert x in Freed(parts[k]) && x !in Outputs(parts[k]);
    assert x in Elems(sig.inputNames);
    OthersReturnedExactly(g, parts, k, skip, sig, x);
  }

  /** Everything else a partition returns is an input it does not free, and all of those are returned. */
  lemma OthersReturnedExactly(g: Graph, parts: seq<Partition>, k: nat, skip: bool, sig: Signature, x: Name)
    requires WellScheduled(g, Flatten(parts)) && k < |parts|
    requires Signs(g, parts[k], Unmet(g, parts, k + 1), skip, sig)
    requires x !in Outputs(parts[k])
    ensures x in sig.outputNames <==> x in sig.inputNames && !sig.deallocation[x]
  {
    var unmet, p := Unmet(g, parts, k + 1), parts[k];
    assert x in sig.outputNames <==> x in Elems(sig.outputNames);
    assert x in sig.inputNames <==> x in Elems(sig.inputNames);
    if x in sig.outputNames {
      ReturnedIsKept(g, parts, k, x);
    } else if x in sig.inputNames && !sig.deallocation[x] {
      InputIsReal(g, parts, k, x);
    }
  }

  lemma ReturnedIsKept(g: Graph, parts: seq<Partition>, k: nat, x: Name)
    requires WellScheduled(g, Flatten(parts)) && k < |parts|
    requires x in Returned(g, parts[k], Unmet(g, parts, k + 1))
    requires x !in Outputs(parts[k]) && !IsNoneLayout(g, x)
    ensures x in Kept(g, parts[k])
  {
    var y := WhyReturned(g, parts[k], Unmet(g, parts, k + 1), x);
    if y in Kept(g, parts[k]) {
      InputIsReal(g, parts, k, y);
    } else {
      ReturnedElsewhere(g, parts, k, Unmet(g, parts, k + 1), x);
      UnmetIsWanted(g, parts, k + 1, y);
      RenamedWantedOnlyByCaller(g, parts, k + 1, y);
      if x in Freed(parts[k]) { FreedIsOutOfUse(g, parts, k, x); }
      ProducedKnown(g, parts, k, y);
    }
  }

  lemma ProducedKnown(g: Graph, parts: seq<Partition>, k: nat, y: Name)
    requires WellScheduled(g, Flatten(parts)) && k < |parts|
    requires y in Outputs(parts[k])
    ensures Real(g, y) in g.known
  {
    CutSlice(parts, k);
    ProducedOnce(g, Flatten(parts), Cut(parts, k), Cut(parts, k + 1), y);
    PrefixSplit(g, Flatten(parts), Cut(parts, k), Cut(parts, k + 1));
    RealIsGiven(g, Flatten(parts), Cut(parts, k + 1), y);
  }

  /**
   After the whole pass a produced buffer is still unmet iff it is a graph output that was
   renamed: returning it under its real name does not strike it off.
   */
  lemma LeftUnmetExactly(g: Graph, parts: seq<Partition>, k: nat, x: Name)
    requires WellScheduled(g, Flatten(parts)) && k < |parts|
    requires x in Outputs(parts[k])
    ensures x in Unmet(g, parts, 0) <==> x in g.outputNames && x in g.realName
  {
    if x in g.realName {
      if x in g.outputNames { RenamedStaysUnmet(g, Flatten(parts), parts, 0, x); }
      else if x in Unmet(g, parts, 0) {
        UnmetIsWanted(g, parts, 0, x);
        RenamedWantedOnlyByCaller(g, parts, 0, x);
      }
    } else if x in Unmet(g, parts, 0) {
      UnmetUpTo(g, parts, k, 0, x);
    }
  }

  lemma {:induction false} RenamedStaysUnmet(g: Graph, nodes: Partition, parts: seq<Partition>, k: nat, x: Name)
    requires RenamesResolve(g, nodes) && k <= |parts|
    requires x in g.realName && x in g.outputNames
    ensures x in Unmet(g, parts, k)
    decreases |parts| - k
  {
    if k < |parts| {
      RenamedStaysUnmet(g, nodes, parts, k + 1, x);
      if x in Returned(g, parts[k], Unmet(g, parts, k + 1)) {
        var y := WhyReturned(g, parts[k], Unmet(g, parts, k + 1), x);
        RealNamesAreFixed(g, nodes, y);
      }
    }
  }

  /** A buffer kept under its own name is never unmet at or before its partition. */
  lemma {:induction false} UnmetUpTo(g: Graph, parts: seq<Partition>, k: nat, i: nat, x: Name)
    requires WellScheduled(g, Flatten(parts)) && i <= k < |parts|
    requires x in Outputs(parts[k]) && x !in g.realName
    ensures x !in Unmet(g, parts, i)
    decreases k - i
  {
    if x in InputNames(g, parts[i]) {
      InputNotProducedLater(g, parts, i, k, x);
    } else if i < k {
      UnmetUpTo(g, parts, k, i + 1, x);
    } else if x in Unmet(g, parts, k + 1) {
      assert Real(g, x) in Returned(g, parts[k], Unmet(g, parts, k + 1));
    }
  }

  // ----- A graph whose output stays unmet: one node that rewrites its input under a new name

  const GIVEN := Name("a")
  const RENAMED := Name("m")
  const REWRITE := Node(0, [RENAMED], [GIVEN], [RENAMED], [])
  const REWRITTEN := Graph({GIVEN}, {}, [RENAMED], {GIVEN, RENAMED}, map[RENAMED := Buffer(true, true)],
                           map[RENAMED := GIVEN], (_, _) => {})

  lemma RewriteOutputs()
    ensures Flatten([[REWRITE]]) == [REWRITE] && Outputs([REWRITE]) == {RENAMED}
  {
    var parts := [[REWRITE]];
    assert parts[1..] == [];
    assert REWRITE in [REWRITE] && RENAMED in REWRITE.outputs;
    assert forall o, x :: o in [REWRITE] && x in o.outputs ==> x == RENAMED;
  }

  lemma RewriteLayouts()
    ensures !IsNoneLayout(REWRITTEN, RENAMED) && !IsNoneLayout(REWRITTEN, GIVEN)
  {
    assert GIVEN !in REWRITTEN.buffers && RENAMED in REWRITTEN.buffers.Keys;
    assert NoneLayoutFrom(REWRITTEN, RENAMED, REWRITTEN.buffers.Keys)
        == NoneLayoutFrom(REWRITTEN, GIVEN, REWRITTEN.buffers.Keys - {RENAMED}) == Some(false);
  }

  lemma RewriteScheduled()
    ensures WellScheduled(REWRITTEN, [REWRITE])
  {
    RewriteOutputs();
    RewriteLayouts();
    assert Real(REWRITTEN, GIVEN) in Needs(REWRITTEN, REWRITE) by {
      assert GIVEN in REWRITE.readNames + REWRITE.writeNames;
    }
    assert WellPlaced(REWRITTEN, [], REWRITE, []);
    assert PlacedAt(REWRITTEN, [REWRITE], 0) by { assert [REWRITE][..0] == [] && [REWRITE][1..] == []; }
  }

  /** The condition matters: here a produced buffer is still unmet after the pass. */
  lemma RenamedOutputLeftUnmet()
    ensures exists g: Graph, parts: seq<Partition>, x: Name ::
      && WellScheduled(g, Flatten(parts)) && x in Outputs(Flatten(parts)) && !IsNoneLayout(g, x)
      && x in Unmet(g, parts, 0)
  {
    RewriteOutputs();
    RewriteLayouts();
    RewriteScheduled();
    LeftUnmetExactly(REWRITTEN, [[REWRITE]], 0, RENAMED);
  }
}
