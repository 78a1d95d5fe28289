/** The output objects that `add` updates in place. */
module OutputStream {
  import opened Basics
  import opened LogprobRows
  import opened OutputMerge

  class CompletionOutput {
    const index: int
    const origin: Origin
    var text: string
    var tokenIds: seq<int>
    var logprobs: Option<seq<Dict>>
    var cumulativeLogprob: Option<real>
    var finishReason: Option<Text>
    var stopReason: Option<Text>

    function Value(): Completion
      reads this
    {
      Completion(index, text, tokenIds, logprobs, Ending(cumulativeLogprob, finishReason, stopReason), origin)
    }

    constructor (c: Completion)
      ensures Value() == c
    {
      index, origin := c.index, c.origin;
      text, tokenIds, logprobs := c.text, c.tokenIds, c.logprobs;
      cumulativeLogprob := c.ending.cumulativeLogprob;
      finishReason := c.ending.finishReason;
      stopReason := c.ending.stopReason;
    }

    /** Takes in a delta with the same index; false where the source's assertion fails. */
    method Absorb(delta: CompletionOutput) returns (ok: bool)
      modifies this
      ensures ok <==> Mergeable(old(Value()), old(delta.Value()))
      ensures ok ==> Value() == Merge(old(Value()), old(delta.Value()))
    {
      text := text + delta.text;
      tokenIds := tokenIds + delta.tokenIds;
      if Items(delta.logprobs) != [] {
        if logprobs == None {
          return false;
        }
        logprobs := Some(logprobs.value + delta.logprobs.value);
      } else if logprobs.Some? {
        assert logprobs.value + Items(delta.logprobs) == logprobs.value;
      }
      cumulativeLogprob := delta.cumulativeLogprob;
      finishReason := delta.finishReason;
      stopReason := delta.stopReason;
      ok := true;
    }
  }

  /** No object appears twice. */
  ghost predicate Unaliased(objects: seq<CompletionOutput>) {
    forall i, j :: 0 <= i < j < |objects| ==> objects[i] != objects[j]
  }

  ghost function Values(objects: seq<CompletionOutput>): (v: seq<Completion>)
    reads objects
    ensures |v| == |objects| && forall i :: 0 <= i < |objects| ==> v[i] == objects[i].Value()
  {
    seq(|objects|, i requires 0 <= i < |objects| reads objects => objects[i].Value())
  }

  lemma FindUnique(list: seq<Completion>, index: int, k: nat)
    requires k <= |list| && (k < |list| ==> list[k].index == index) && forall i :: 0 <= i < k ==> list[i].index != index
    ensures k == OutputMerge.Find(list, index)
  {
  }

  /** The completion that the delta is merged into is listed once, or the merge leaves it as it is. */
  ghost predicate FitsOnce(objects: seq<CompletionOutput>, values: seq<Completion>, delta: Completion, aggregate: bool)
    requires |values| == |objects|
  {
    var k := OutputMerge.Find(values, delta.index);
    aggregate && k < |objects| ==>
      Merge(values[k], delta) == values[k] || forall j :: 0 <= j < |objects| && j != k ==> objects[j] != objects[k]
  }

  /** Changing one object changes its values at all its places. */
  lemma MergedEverywhere(objects: seq<CompletionOutput>, before: seq<Completion>, after: seq<Completion>, i: nat,
                         merged: Completion)
    requires |before| == |after| == |objects| && i < |objects|
    requires forall j :: 0 <= j < |objects| ==> after[j] == if objects[j] == objects[i] then merged else before[j]
    requires forall j :: 0 <= j < |objects| && objects[j] == objects[i] ==> before[j] == before[i]
    ensures after == before[i := merged] <==>
      merged == before[i] || forall j :: 0 <= j < |objects| && j != i ==> objects[j] != objects[i]
  {
    if j :| 0 <= j < |objects| && j != i && objects[j] == objects[i] {
      assert before[i := merged][j] == before[i] && after[j] == merged;
    }
  }

  class RequestOutput {
    var outputs: seq<CompletionOutput>
    var finished: bool
    var kvTransferParams: Option<Text>

    constructor (outputs: seq<CompletionOutput>, finished: bool, kvTransferParams: Option<Text>)
      ensures this.outputs == outputs && this.finished == finished && this.kvTransferParams == kvTransferParams
    {
      this.outputs, this.finished, this.kvTransferParams := outputs, finished, kvTransferParams;
    }

    /** The body of the outer loop: one delta completion is merged, replaces, or is appended. */
    method AddCompletion(delta: CompletionOutput, aggregate: bool) returns (ok: bool)
      modifies this`outputs, outputs
      ensures ok <==> CanAdd(old(Values(outputs)), old(delta.Value()), aggregate)
      ensures ok ==>
        (Values(outputs) == AddOne(old(Values(outputs)), old(delta.Value()), aggregate) <==>
         old(FitsOnce(outputs, Values(outputs), delta.Value(), aggregate)))
      ensures forall o :: o in outputs ==> o in old(outputs) || o == delta
      ensures old(Unaliased(outputs)) && delta !in old(outputs) ==> Unaliased(outputs)
    {
      ghost var before := Values(outputs);
      for i := 0 to |outputs|
        invariant outputs == old(outputs) && Values(outputs) == before
        invariant forall k :: 0 <= k < i ==> before[k].index != delta.index
      {
        if outputs[i].index == delta.index {
          FindUnique(before, delta.index, i);
          if aggregate {
            ok := outputs[i].Absorb(delta);
            if ok { MergedEverywhere(outputs, before, Values(outputs), i, Merge(before[i], old(delta.Value()))); }
          } else {
            outputs := outputs[i := delta];
            ok := true;
          }
          return;
        }
      }
      FindUnique(before, delta.index, |before|);
      outputs := outputs + [delta];
      ok := true;
    }

    /** The outer loop of `add`, over the completions of `next`. */
    method AddDeltas(next: RequestOutput, aggregate: bool, ghost list: seq<Completion>, ghost deltas: seq<Completion>)
      returns (ok: bool)
      requires next != this && Unaliased(outputs + next.outputs) && list == Values(outputs)
      requires deltas == Values(next.outputs)
      modifies this`outputs, outputs, next.outputs
      ensures ok <==> CanAddAll(list, deltas, aggregate)
      ensures ok ==> Values(outputs) == AddAll(list, deltas, aggregate)
      ensures Unaliased(outputs) && forall o :: o in outputs ==> o in old(outputs) || o in next.outputs
    {
      SplitUnaliased(outputs, next.outputs);
      for i := 0 to |next.outputs|
        invariant CanAddAll(list, deltas[..i], aggregate) && Values(outputs) == AddAll(list, deltas[..i], aggregate)
        invariant Unaliased(outputs) && Within(outputs, old(outputs), next.outputs, i)
        invariant forall j :: i <= j < |next.outputs| ==> next.outputs[j].Value() == deltas[j]
      {
        StillOutside(old(outputs), next.outputs, outputs, i);
        CanAddSnoc(list, deltas, i, aggregate);
        ghost var before := outputs;
        ok := AddCompletion(next.outputs[i], aggregate);
        OneMoreWithin(before, outputs, old(outputs), next.outputs, i);
        if !ok {
          CannotAddAll(list, deltas, i + 1, aggregate);
          return;
        }
      }
      assert deltas[..|deltas|] == deltas;
      ok := true;
    }

    /**
     `add`. False where the source's assertion fails. Objects of `next` may become outputs of this
     one, so a later `add` may change them.
     */
    method Add(next: RequestOutput, aggregate: bool) returns (ok: bool)
      requires next != this && Unaliased(outputs + next.outputs)
      modifies this, outputs, next.outputs
      ensures finished == (old(finished) || next.finished) && kvTransferParams == next.kvTransferParams
      ensures ok <==> CanAddAll(old(Values(outputs)), old(Values(next.outputs)), aggregate)
      ensures ok ==> Values(outputs) == AddAll(old(Values(outputs)), old(Values(next.outputs)), aggregate)
      ensures Unaliased(outputs) && forall o :: o in outputs ==> o in old(outputs) || o in next.outputs
    {
      finished := finished || next.finished;
      kvTransferParams := next.kvTransferParams;
      ok := AddDeltas(next, aggregate, Values(outputs), Values(next.outputs));
    }
  }

  /** Listing matters: a delta merged into an object that is listed twice shows up at both places. */
  method ListedTwice() returns (request: RequestOutput, before: seq<Completion>, delta: Completion)
    ensures Values(request.outputs) != AddOne(before, delta, true) && CanAdd(before, delta, true)
    ensures before == [OnlyText("a"), OnlyText("a")] && delta == OnlyText("b")
  {
    var listed := new CompletionOutput(OnlyText("a"));
    var next := new CompletionOutput(OnlyText("b"));
    request := new RequestOutput([listed, listed], false, None);
    before, delta := [OnlyText("a"), OnlyText("a")], OnlyText("b");
    assert Values(request.outputs) == before;
    assert Merge(before[0], delta).text == "ab" && request.outputs[1] == request.outputs[0];
    assert OutputMerge.Find(before, 0) == 0;
    var ok := request.AddCompletion(next, true);
  }

  function OnlyText(text: string): Completion {
    Completion(0, text, [], None, Ending(None, None, None), Origin(None, None))
  }

  ghost predicate Disjoint(a: seq<CompletionOutput>, b: seq<CompletionOutput>) {
    forall i, j :: 0 <= i < |a| && 0 <= j < |b| ==> a[i] != b[j]
  }

  lemma JoinUnaliased(a: seq<CompletionOutput>, b: seq<CompletionOutput>)
    requires Unaliased(a) && Unaliased(b) && Disjoint(a, b)
    ensures Unaliased(a + b)
  {
  }

  /** No completion object is shared between the given outputs. */
  ghost predicate AllApart(outputs: seq<CompletionOutput>, nexts: seq<RequestOutput>, n: nat)
    reads nexts
  {
    && (forall j :: n <= j < |nexts| ==> Unaliased(nexts[j].outputs) && Disjoint(outputs, nexts[j].outputs))
    && (forall i, j :: n <= i < j < |nexts| ==> Disjoint(nexts[i].outputs, nexts[j].outputs))
  }

  /** The outputs from the `n`-th on still hold the given values, in objects of the given set. */
  ghost predicate Pending(nexts: seq<RequestOutput>, deltas: seq<seq<Completion>>, objects: set<CompletionOutput>,
                          n: nat)
    reads nexts, objects
  {
    && |nexts| == |deltas|
    && (forall j :: 0 <= j < |nexts| ==> forall o :: o in nexts[j].outputs ==> o in objects)
    && (forall j :: n <= j < |nexts| ==> Values(nexts[j].outputs) == deltas[j])
  }

  /** One turn of a run: the next output is added, and those after it still hold their values. */
  method AddNext(first: RequestOutput, nexts: seq<RequestOutput>, i: nat, aggregate: bool,
                 ghost deltas: seq<seq<Completion>>, ghost objects: set<CompletionOutput>)
    returns (ok: bool)
    requires i < |nexts| && first !in nexts && Unaliased(first.outputs) && AllApart(first.outputs, nexts, i)
    requires Pending(nexts, deltas, objects, i) && forall k :: 0 <= k < |first.outputs| ==> first.outputs[k] in objects
    modifies first, objects
    ensures ok <==> CanAddAll(old(Values(first.outputs)), deltas[i], aggregate)
    ensures ok ==> Values(first.outputs) == AddAll(old(Values(first.outputs)), deltas[i], aggregate)
    ensures Unaliased(first.outputs) && AllApart(first.outputs, nexts, i + 1)
    ensures Pending(nexts, deltas, objects, i + 1)
    ensures forall k :: 0 <= k < |first.outputs| ==> first.outputs[k] in objects
  {
    ghost var before := first.outputs;
    JoinUnaliased(before, nexts[i].outputs);
    StillApart(before, nexts[i].outputs, nexts, i);
    ok := first.Add(nexts[i], aggregate);
    StillApart(before, first.outputs, nexts, i);
    assert forall k :: 0 <= k < |first.outputs| ==> first.outputs[k] in first.outputs;
  }

  /**
   Adding a whole run of outputs in place, with `deltas` the values that they hold at the start.
   Objects that one `add` appends are changed by later ones; the result is still the fold.
   */
  method AddRun(first: RequestOutput, nexts: seq<RequestOutput>, aggregate: bool,
                ghost deltas: seq<seq<Completion>>, ghost objects: set<CompletionOutput>)
    returns (ok: bool)
    requires first !in nexts && Unaliased(first.outputs) && AllApart(first.outputs, nexts, 0)
    requires Pending(nexts, deltas, objects, 0) && forall k :: 0 <= k < |first.outputs| ==> first.outputs[k] in objects
    modifies first, objects
    ensures ok <==> CanFold(old(Values(first.outputs)), deltas, aggregate)
    ensures ok ==> Values(first.outputs) == Fold(old(Values(first.outputs)), deltas, aggregate)
  {
    ghost var list := Values(first.outputs);
    for i := 0 to |nexts|
      invariant CanFold(list, deltas[..i], aggregate) && Values(first.outputs) == Fold(list, deltas[..i], aggregate)
      invariant Unaliased(first.outputs) && AllApart(first.outputs, nexts, i)
      invariant Pending(nexts, deltas, objects, i)
      invariant forall k :: 0 <= k < |first.outputs| ==> first.outputs[k] in objects
    {
      FoldSnoc(list, deltas, i, aggregate);
      ok := AddNext(first, nexts, i, aggregate, deltas, objects);
      if !ok {
        CannotFold(list, deltas, i + 1, aggregate);
        return;
      }
    }
    assert deltas[..|deltas|] == deltas;
    ok := true;
  }

  lemma StillApart(before: seq<CompletionOutput>, after: seq<CompletionOutput>, nexts: seq<RequestOutput>, i: nat)
    requires i < |nexts| && AllApart(before, nexts, i)
    requires forall o :: o in after ==> o in before || o in nexts[i].outputs
    ensures AllApart(after, nexts, i + 1)
  {
    forall j, k, l | i < j < |nexts| && 0 <= k < |after| && 0 <= l < |nexts[j].outputs|
      ensures after[k] != nexts[j].outputs[l]
    {
      assert after[k] in after;
      assert Disjoint(before, nexts[j].outputs) && Disjoint(nexts[i].outputs, nexts[j].outputs);
    }
  }

  lemma FoldSnoc(list: seq<Completion>, deltas: seq<seq<Completion>>, i: nat, aggregate: bool)
    requires i < |deltas|
    ensures Fold(list, deltas[..i + 1], aggregate) == AddAll(Fold(list, deltas[..i], aggregate), deltas[i], aggregate)
    ensures CanFold(list, deltas[..i + 1], aggregate)
       <==> CanFold(list, deltas[..i], aggregate) && CanAddAll(Fold(list, deltas[..i], aggregate), deltas[i], aggregate)
  {
    assert deltas[..i + 1][..i] == deltas[..i];
  }

  lemma {:induction false} CannotFold(list: seq<Completion>, deltas: seq<seq<Completion>>, i: nat, aggregate: bool)
    requires i <= |deltas| && !CanFold(list, deltas[..i], aggregate)
    ensures !CanFold(list, deltas, aggregate)
    decreases |deltas| - i
  {
    if i == |deltas| {
      assert deltas[..i] == deltas;
    } else {
      FoldSnoc(list, deltas, i, aggregate);
      CannotFold(list, deltas, i + 1, aggregate);
    }
  }

  lemma SplitUnaliased(a: seq<CompletionOutput>, b: seq<CompletionOutput>)
    requires Unaliased(a + b)
    ensures Unaliased(a) && Unaliased(b) && forall i, j :: 0 <= i < |a| && 0 <= j < |b| ==> a[i] != b[j]
  {
    forall i, j | 0 <= i < j < |a| ensures a[i] != a[j] { assert (a + b)[i] != (a + b)[j]; }
    forall i, j | 0 <= i < j < |b| ensures b[i] != b[j] { assert (a + b)[|a| + i] != (a + b)[|a| + j]; }
    forall i, j | 0 <= i < |a| && 0 <= j < |b| ensures a[i] != b[j] { assert (a + b)[i] != (a + b)[|a| + j]; }
  }

  ghost predicate Within(objects: seq<CompletionOutput>, a: seq<CompletionOutput>, b: seq<CompletionOutput>, n: nat) {
    n <= |b| && forall k :: 0 <= k < |objects| ==> objects[k] in a || objects[k] in b[..n]
  }

  lemma OneMoreWithin(before: seq<CompletionOutput>, after: seq<CompletionOutput>, a: seq<CompletionOutput>,
                      b: seq<CompletionOutput>, n: nat)
    requires n < |b| && Within(before, a, b, n) && forall o :: o in after ==> o in before || o == b[n]
    ensures Within(after, a, b, n + 1)
  {
    assert b[..n + 1] == b[..n] + [b[n]];
    forall k | 0 <= k < |after| ensures after[k] in a || after[k] in b[..n + 1] {
      assert after[k] in after;
      if after[k] != b[n] {
        var i :| 0 <= i < |before| && before[i] == after[k];
      }
    }
  }

  /** Deltas that are still to come are not among the outputs. */
  lemma StillOutside(a: seq<CompletionOutput>, b: seq<CompletionOutput>, outputs: seq<CompletionOutput>, n: nat)
    requires Unaliased(a + b) && Within(outputs, a, b, n)
    ensures forall j :: n <= j < |b| ==> b[j] !in outputs
  {
    SplitUnaliased(a, b);
  }

  lemma CanAddSnoc(list: seq<Completion>, cs: seq<Completion>, i: nat, aggregate: bool)
    requires i < |cs|
    ensures AddAll(list, cs[..i + 1], aggregate) == AddOne(AddAll(list, cs[..i], aggregate), cs[i], aggregate)
    ensures CanAddAll(list, cs[..i + 1], aggregate) <==>
      CanAddAll(list, cs[..i], aggregate) && CanAdd(AddAll(list, cs[..i], aggregate), cs[i], aggregate)
  {
    assert cs[..i + 1][..i] == cs[..i];
  }

  /** A failing prefix makes the whole fail. */
  lemma {:induction false} CannotAddAll(list: seq<Completion>, cs: seq<Completion>, i: nat, aggregate: bool)
    requires i <= |cs| && !CanAddAll(list, cs[..i], aggregate)
    ensures !CanAddAll(list, cs, aggregate)
    decreases |cs| - i
  {
    if i == |cs| {
      assert cs[..i] == cs;
    } else {
      CanAddSnoc(list, cs, i, aggregate);
      CannotAddAll(list, cs, i + 1, aggregate);
    }
  }
}
