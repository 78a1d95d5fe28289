/**
 The reverse liveness pass over a partitioned scheduler graph: which buffers every partition
 takes in, which it hands back, and which inputs it may free.
 */
module GraphPartition {
  import opened Basics
  import opened OrderedSets

  datatype Name = Name(text: string)

  /** What the pass looks at in a scheduled buffer. */
  datatype Buffer = Buffer(noneLayout: bool, mutationOutput: bool)

  /** A scheduler node; all its name collections are insertion ordered. */
  datatype Node = Node(id: nat, outputs: seq<Name>, readNames: seq<Name>, writeNames: seq<Name>, lastUsage: seq<Name>)

  type Partition = seq<Node>

  /**
   The scheduler state: `known` are the names that `name_to_node` maps, `symbolsOf` is the compiler's
   choice of symbols for a partition with given inputs.
   */
  datatype Graph = Graph(
    graphInputs: set<Name>, constants: set<Name>, outputNames: seq<Name>, known: set<Name>,
    buffers: map<Name, Buffer>, realName: map<Name, Name>, symbolsOf: (Partition, seq<Name>) -> set<Name>)

  datatype Signature = Signature(
    symbolInputs: set<Name>, inputNames: seq<Name>, outputNames: seq<Name>, deallocation: map<Name, bool>,
    skipCudagraph: bool, constantNames: seq<Name>)

  // ----- Layout test and renaming

  /** `is_none_layout`, `None` where its recursion through renamed buffers never returns. */
  function NoneLayoutFrom(g: Graph, name: Name, unseen: set<Name>): Option<bool>
    decreases |unseen|
  {
    if name !in g.buffers || !g.buffers[name].noneLayout then Some(false)
    else if g.buffers[name].mutationOutput && name in g.realName && g.realName[name].text != "" then
      if name in unseen then NoneLayoutFrom(g, g.realName[name], unseen - {name}) else None
    else Some(true)
  }

  predicate IsNoneLayout(g: Graph, name: Name) {
    NoneLayoutFrom(g, name, g.buffers.Keys) == Some(true)
  }

  ghost predicate LayoutsResolve(g: Graph) {
    forall name: Name :: NoneLayoutFrom(g, name, g.buffers.Keys).Some?
  }

  /** In any graph: a buffer with a layout, or no buffer, has storage; one without a layout and real name has none. */
  lemma LayoutWithoutRenaming(g: Graph, x: Name)
    ensures x !in g.buffers || !g.buffers[x].noneLayout ==> !IsNoneLayout(g, x)
    ensures x in g.buffers && g.buffers[x] == Buffer(true, false) ==> IsNoneLayout(g, x)
    ensures x in g.buffers && g.buffers[x].noneLayout && (x in g.realName ==> g.realName[x].text == "") ==>
      IsNoneLayout(g, x)
  {
  }

  /** A mutation output that is its own real name is asked about for ever. */
  lemma EndlessRenaming(g: Graph, x: Name)
    requires x in g.buffers && g.buffers[x] == Buffer(true, true)
    requires x in g.realName && g.realName[x] == x && x.text != ""
    ensures !LayoutsResolve(g)
  {
    assert NoneLayoutFrom(g, x, g.buffers.Keys) == NoneLayoutFrom(g, x, g.buffers.Keys - {x}) == None;
  }

  /** The buffer that really holds the contents of `name`. */
  function Real(g: Graph, name: Name): Name {
    if name in g.realName then g.realName[name] else name
  }

  ghost function RealImage(g: Graph, names: set<Name>): set<Name> {
    set x | x in names :: Real(g, x)
  }

  // ----- What one partition produces, touches and frees

  ghost function Outputs(p: Partition): set<Name> {
    set n, x | n in p && x in n.outputs :: x
  }

  ghost function Accessed(p: Partition): set<Name> {
    set n, x | n in p && x in n.readNames + n.writeNames :: x
  }

  ghost function Freed(p: Partition): set<Name> {
    set n, x | n in p && x in n.lastUsage :: x
  }

  ghost function InputNames(g: Graph, p: Partition): set<Name> {
    RealImage(g, set x | x in Accessed(p) && x !in Outputs(p) && !IsNoneLayout(g, x))
    + (Freed(p) - Outputs(p)) * g.known
  }

  /** The inputs that a partition hands back because nothing in it frees them. */
  ghost function Kept(g: Graph, p: Partition): set<Name> {
    InputNames(g, p) * g.known - Freed(p)
  }

  ghost function Returned(g: Graph, p: Partition, unmet: set<Name>): set<Name> {
    RealImage(g, Outputs(p) * unmet + Kept(g, p))
  }

  /** Names still wanted by someone once partitions `k..` have been handled, last one first. */
  ghost function Unmet(g: Graph, parts: seq<Partition>, k: nat): set<Name>
    requires k <= |parts|
    decreases |parts| - k
  {
    if k == |parts| then Elems(g.outputNames)
    else InputNames(g, parts[k]) + (Unmet(g, parts, k + 1) - Returned(g, parts[k], Unmet(g, parts, k + 1)))
  }

  /** The signature the pass owes partition `p` when `unmet` is wanted after it. */
  ghost predicate Signs(g: Graph, p: Partition, unmet: set<Name>, skip: bool, sig: Signature) {
    && Distinct(sig.inputNames) && Distinct(sig.outputNames) && Distinct(sig.constantNames)
    && Elems(sig.inputNames) == InputNames(g, p) * g.known
    && Elems(sig.constantNames) == InputNames(g, p) * g.constants
    && Elems(sig.outputNames) == (set x | x in Returned(g, p, unmet) && !IsNoneLayout(g, x))
    && sig.deallocation.Keys == Elems(sig.inputNames)
    && (forall x :: x in sig.deallocation ==> sig.deallocation[x] == (x in Freed(p)))
    && sig.skipCudagraph == skip && sig.symbolInputs == g.symbolsOf(p, sig.inputNames)
  }

  /** Every `name_to_node` lookup finds its key: what is returned resolves to a known name. */
  ghost predicate LookupsResolve(g: Graph, p: Partition) {
    RealImage(g, Outputs(p) + Kept(g, p)) <= g.known
  }

  ghost predicate ResolvesAt(g: Graph, parts: seq<Partition>, i: nat) { i < |parts| && LookupsResolve(g, parts[i]) }

  ghost predicate AllResolve(g: Graph, parts: seq<Partition>) {
    forall i {:trigger ResolvesAt(g, parts, i)} :: 0 <= i < |parts| ==> ResolvesAt(g, parts, i)
  }

  // ----- The pass itself

  /** The names that have storage, in their old order. */
  function Allocated(g: Graph, names: seq<Name>): (r: seq<Name>)
    ensures Elems(r) == set x | x in names && !IsNoneLayout(g, x)
    ensures Distinct(names) ==> Distinct(r)
  {
    Intersection(names, set x | x in names && !IsNoneLayout(g, x))
  }

  /** The real names of `names`, each once. */
  function RealNames(g: Graph, names: seq<Name>): (r: seq<Name>)
    ensures Distinct(r) && Elems(r) == RealImage(g, Elems(names))
  {
    if names == [] then []
    else
      var init, last := names[..|names| - 1], names[|names| - 1];
      assert names == init + [last];
      assert Elems(names) == Elems(init) + {last};
      Update(RealNames(g, init), [Real(g, last)])
  }

  lemma MoreNames(p: Partition, i: nat)
    requires i < |p|
    ensures Outputs(p[..i + 1]) == Outputs(p[..i]) + Elems(p[i].outputs)
    ensures Accessed(p[..i + 1]) == Accessed(p[..i]) + Elems(p[i].readNames + p[i].writeNames)
    ensures Freed(p[..i + 1]) == Freed(p[..i]) + Elems(p[i].lastUsage)
  {
    PrefixSnoc(p, i);
  }

  method CollectNames(p: Partition) returns (outputs: seq<Name>, accessed: seq<Name>, freed: seq<Name>)
    ensures Distinct(outputs) && Elems(outputs) == Outputs(p)
    ensures Distinct(accessed) && Elems(accessed) == Accessed(p)
    ensures Distinct(freed) && Elems(freed) == Freed(p)
  {
    outputs, accessed, freed := [], [], [];
    for i := 0 to |p|
      invariant Distinct(outputs) && Elems(outputs) == Outputs(p[..i])
      invariant Distinct(accessed) && Elems(accessed) == Accessed(p[..i])
      invariant Distinct(freed) && Elems(freed) == Freed(p[..i])
    {
      MoreNames(p, i);
      outputs := Update(outputs, p[i].outputs);
      accessed := Update(accessed, p[i].readNames + p[i].writeNames);
      freed := Update(freed, p[i].lastUsage);
    }
    assert p[..|p|] == p;
  }

  /** What is accessed but not produced here, and what is freed but not produced here. */
  method CollectInputs(g: Graph, ghost p: Partition, outputs: seq<Name>, accessed: seq<Name>, freed: seq<Name>)
    returns (inputs: seq<Name>)
    requires Distinct(accessed) && Distinct(freed)
    requires Elems(outputs) == Outputs(p) && Elems(accessed) == Accessed(p) && Elems(freed) == Freed(p)
    ensures Distinct(inputs) && Elems(inputs) == InputNames(g, p)
  {
    inputs := RealNames(g, Difference(Allocated(g, accessed), Elems(outputs)));
    inputs := Update(inputs, Intersection(Difference(freed, Elems(outputs)), g.known));
    assert Elems(Difference(Allocated(g, accessed), Elems(outputs)))
        == set x | x in Accessed(p) && x !in Outputs(p) && !IsNoneLayout(g, x);
  }

  /** What is wanted of the partition's own outputs, and the inputs that it does not free. */
  method CollectReturned(g: Graph, ghost p: Partition, ghost unmet: seq<Name>, wanted: seq<Name>,
                         inputNodes: seq<Name>, freed: seq<Name>)
    returns (returned: seq<Name>)
    requires Distinct(wanted) && Distinct(inputNodes) && Elems(wanted) == Outputs(p) * Elems(unmet)
    requires Elems(inputNodes) == InputNames(g, p) * g.known && Elems(freed) == Freed(p)
    ensures Distinct(returned) && Elems(returned) == Returned(g, p, Elems(unmet))
  {
    var kept := Difference(inputNodes, Elems(freed));
    returned := RealNames(g, Update(wanted, kept));
  }

  method SignPartition(g: Graph, p: Partition, unmet: seq<Name>, skip: bool)
    returns (sig: Signature, unmetBefore: seq<Name>)
    requires Distinct(unmet)
    requires LookupsResolve(g, p)
    ensures Signs(g, p, Elems(unmet), skip, sig)
    ensures Distinct(unmetBefore)
    ensures Elems(unmetBefore) == InputNames(g, p) + (Elems(unmet) - Returned(g, p, Elems(unmet)))
  {
    var outputs, accessed, freed := CollectNames(p);
    var returned := Intersection(outputs, Elems(unmet));
    var inputs := CollectInputs(g, p, outputs, accessed, freed);
    var inputNodes := Intersection(inputs, g.known);
    var deallocation := map x | x in Elems(inputNodes) :: x in freed;
    returned := CollectReturned(g, p, unmet, returned, inputNodes, freed);

    var outputNodes := Allocated(g, returned);
    // every name_to_node lookup finds its key
    assert Elems(outputNodes) <= g.known;
    var constantNames := Intersection(inputs, g.constants);
    var symbolInputs := g.symbolsOf(p, inputNodes);
    sig := Signature(symbolInputs, inputNodes, outputNodes, deallocation, skip, constantNames);
    unmetBefore := Update(inputs, Difference(unmet, Elems(returned)));
  }

  /** The `j`-th signature counted from the end is the one its partition is owed. */
  ghost predicate SignedFromEnd(g: Graph, parts: seq<Partition>, skips: seq<bool>, j: nat, sig: Signature)
    requires j < |parts| && j < |skips|
  {
    Signs(g, parts[|parts| - 1 - j], Unmet(g, parts, |parts| - j), skips[|skips| - 1 - j], sig)
  }

  ghost predicate AllFromEnd(g: Graph, parts: seq<Partition>, skips: seq<bool>, sigs: seq<Signature>)
    requires |sigs| <= |parts| && |sigs| <= |skips|
  {
    forall j {:trigger SignedFromEnd(g, parts, skips, j, sigs[j])} ::
      0 <= j < |sigs| ==> SignedFromEnd(g, parts, skips, j, sigs[j])
  }

  lemma ReversedFromEnd(g: Graph, parts: seq<Partition>, skips: seq<bool>, reversed: seq<Signature>)
    requires |reversed| <= |parts| && |reversed| <= |skips| && AllFromEnd(g, parts, skips, reversed)
    ensures forall i :: 0 <= i < |reversed| ==>
      SignedFromEnd(g, parts, skips, |reversed| - 1 - i, Reversed(reversed)[i])
  {
    forall i | 0 <= i < |reversed|
      ensures SignedFromEnd(g, parts, skips, |reversed| - 1 - i, Reversed(reversed)[i])
    {
      assert SignedFromEnd(g, parts, skips, |reversed| - 1 - i, reversed[|reversed| - 1 - i]);
    }
  }

  lemma OneMoreFromEnd(g: Graph, parts: seq<Partition>, skips: seq<bool>, sigs: seq<Signature>, sig: Signature)
    requires |sigs| < |parts| && |sigs| < |skips| && AllFromEnd(g, parts, skips, sigs)
    requires SignedFromEnd(g, parts, skips, |sigs|, sig)
    ensures AllFromEnd(g, parts, skips, sigs + [sig])
  {
    var more := sigs + [sig];
    forall j | 0 <= j < |more| ensures SignedFromEnd(g, parts, skips, j, more[j]) {
      assert j < |sigs| ==> SignedFromEnd(g, parts, skips, j, sigs[j]);
    }
  }

  /** The list of names that the partitions from `n` on need from before them. */
  ghost predicate IsUnmet(g: Graph, parts: seq<Partition>, n: nat, unmet: seq<Name>)
    requires n <= |parts|
  {
    Distinct(unmet) && Elems(unmet) == Unmet(g, parts, n)
  }

  /** One turn of the reverse loop: signs partition `k`, which is `i` places from the end. */
  method SignFromEnd(g: Graph, parts: seq<Partition>, skips: seq<bool>, i: nat, k: nat, unmet: seq<Name>)
    returns (sig: Signature, unmetBefore: seq<Name>)
    requires i < |parts| && i < |skips| && k == |parts| - 1 - i
    requires LookupsResolve(g, parts[k]) && IsUnmet(g, parts, k + 1, unmet)
    ensures SignedFromEnd(g, parts, skips, i, sig) && IsUnmet(g, parts, k, unmetBefore)
  {
    sig, unmetBefore := SignPartition(g, parts[k], unmet, skips[|skips| - 1 - i]);
    SignedHere(g, parts, skips, i, k, Elems(unmet), sig);
    UnmetHere(g, parts, k, Elems(unmet), unmetBefore);
  }

  lemma SignedHere(g: Graph, parts: seq<Partition>, skips: seq<bool>, i: nat, k: nat, unmet: set<Name>,
                   sig: Signature)
    requires i < |parts| && i < |skips| && k == |parts| - 1 - i && unmet == Unmet(g, parts, k + 1)
    requires Signs(g, parts[k], unmet, skips[|skips| - 1 - i], sig)
    ensures SignedFromEnd(g, parts, skips, i, sig)
  {
  }

  lemma UnmetHere(g: Graph, parts: seq<Partition>, k: nat, unmet: set<Name>, names: seq<Name>)
    requires k < |parts| && unmet == Unmet(g, parts, k + 1) && Distinct(names)
    requires Elems(names) == InputNames(g, parts[k]) + (unmet - Returned(g, parts[k], unmet))
    ensures IsUnmet(g, parts, k, names)
  {
  }

  /** The state of the reverse loop: what is signed so far and what is unmet before it. */
  ghost predicate SignedSoFar(g: Graph, parts: seq<Partition>, skips: seq<bool>, reversed: seq<Signature>, k: nat,
                              unmet: seq<Name>) {
    && k + |reversed| == |parts| && |reversed| <= |skips|
    && IsUnmet(g, parts, k, unmet) && AllFromEnd(g, parts, skips, reversed)
  }

  method SignNext(g: Graph, parts: seq<Partition>, skips: seq<bool>, reversed: seq<Signature>, k: nat,
                  unmet: seq<Name>)
    returns (sig: Signature, unmetBefore: seq<Name>)
    requires AllResolve(g, parts) && |reversed| < |skips|
    requires SignedSoFar(g, parts, skips, reversed, k + 1, unmet)
    ensures SignedSoFar(g, parts, skips, reversed + [sig], k, unmetBefore)
  {
    assert ResolvesAt(g, parts, k);
    sig, unmetBefore := SignFromEnd(g, parts, skips, |reversed|, k, unmet);
    OneMoreFromEnd(g, parts, skips, reversed, sig);
  }

  /** The reverse loop over the last `count` partitions. */
  method SignLast(g: Graph, parts: seq<Partition>, skips: seq<bool>, count: nat) returns (reversed: seq<Signature>)
    requires LayoutsResolve(g) && count <= |parts| && count <= |skips|
    requires AllResolve(g, parts)
    ensures |reversed| == count && AllFromEnd(g, parts, skips, reversed)
  {
    var unmet := Update([], g.outputNames);
    reversed := [];
    for i := 0 to count
      invariant |reversed| == i && SignedSoFar(g, parts, skips, reversed, |parts| - i, unmet)
    {
      var sig;
      sig, unmet := SignNext(g, parts, skips, reversed, |parts| - 1 - i, unmet);
      reversed := reversed + [sig];
    }
  }

  lemma FlagAndSymbols(g: Graph, parts: seq<Partition>, skips: seq<bool>, j: nat, sig: Signature)
    requires j < |parts| && j < |skips| && SignedFromEnd(g, parts, skips, j, sig)
    ensures sig.skipCudagraph == skips[|skips| - 1 - j]
    ensures sig.symbolInputs == g.symbolsOf(parts[|parts| - 1 - j], sig.inputNames)
  {
  }

  /** The flags are those of the last partitions. */
  ghost predicate OwnFlags(skips: seq<bool>, sigs: seq<Signature>) {
    |sigs| <= |skips| && forall i :: 0 <= i < |sigs| ==> sigs[i].skipCudagraph == skips[|skips| - |sigs| + i]
  }

  /** The symbols are those that the compiler chooses for the last partitions and their inputs. */
  ghost predicate OwnSymbols(g: Graph, parts: seq<Partition>, sigs: seq<Signature>) {
    && |sigs| <= |parts|
    && forall i :: 0 <= i < |sigs| ==>
      sigs[i].symbolInputs == g.symbolsOf(parts[|parts| - |sigs| + i], sigs[i].inputNames)
  }

  lemma FlagsAndSymbols(g: Graph, parts: seq<Partition>, skips: seq<bool>, sigs: seq<Signature>)
    requires |sigs| <= |parts| && |sigs| <= |skips|
    requires forall i :: 0 <= i < |sigs| ==> SignedFromEnd(g, parts, skips, |sigs| - 1 - i, sigs[i])
    ensures OwnFlags(skips, sigs) && OwnSymbols(g, parts, sigs)
  {
    forall i | 0 <= i < |sigs|
      ensures sigs[i].skipCudagraph == skips[|skips| - |sigs| + i]
      ensures sigs[i].symbolInputs == g.symbolsOf(parts[|parts| - |sigs| + i], sigs[i].inputNames)
    {
      FlagAndSymbols(g, parts, skips, |sigs| - 1 - i, sigs[i]);
    }
  }

  /**
   `get_graph_partition_signature`: walks the partitions from the last to the first. The two
   lists are zipped from their ends, so the shorter one decides how many partitions are signed.
   */
  method GetSignatures(g: Graph, parts: seq<Partition>, skips: seq<bool>) returns (sigs: seq<Signature>)
    requires LayoutsResolve(g)
    requires AllResolve(g, parts)
    ensures |sigs| == Min(|parts|, |skips|)
    ensures forall i :: 0 <= i < |sigs| ==> SignedFromEnd(g, parts, skips, |sigs| - 1 - i, sigs[i])
    ensures OwnFlags(skips, sigs) && OwnSymbols(g, parts, sigs)
  {
    var reversed := SignLast(g, parts, skips, Min(|parts|, |skips|));
    ReversedFromEnd(g, parts, skips, reversed);
    sigs := Reversed(reversed);
    FlagsAndSymbols(g, parts, skips, sigs);
  }
}
