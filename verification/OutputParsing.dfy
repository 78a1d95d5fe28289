/** Reading the output buffer of the rejection sampler. */
module OutputParsing {
  import opened Basics
  import opened RejectionSampler

  predicate IsToken(cell: int, vocab: nat) { cell != PLACEHOLDER && cell < vocab }

  /** The tokens of one row: everything that is neither a placeholder nor outside the vocabulary. */
  function ParseRow(cells: seq<int>, vocab: nat): seq<int> {
    if cells == [] then []
    else (if IsToken(cells[0], vocab) then [cells[0]] else []) + ParseRow(cells[1..], vocab)
  }

  /** What belongs to the tokens of one row. */
  function Keep<L>(cells: seq<int>, vocab: nat, data: seq<L>): (r: seq<L>)
    requires |cells| == |data|
    ensures |r| == |ParseRow(cells, vocab)|
  {
    if cells == [] then []
    else (if IsToken(cells[0], vocab) then [data[0]] else []) + Keep(cells[1..], vocab, data[1..])
  }

  /** A cell is dropped exactly if it is a placeholder or outside the vocabulary, and its data with it. */
  lemma ParseOne<L>(cell: int, vocab: nat, datum: L)
    ensures cell == -1 || cell >= vocab ==> ParseRow([cell], vocab) == [] && Keep([cell], vocab, [datum]) == []
    ensures cell != -1 && cell < vocab ==>
      ParseRow([cell], vocab) == [cell] && Keep([cell], vocab, [datum]) == [datum]
  {
    assert ParseRow([cell], vocab) == (if IsToken(cell, vocab) then [cell] else []) + ParseRow([], vocab);
    assert Keep([cell], vocab, [datum])
        == (if IsToken(cell, vocab) then [datum] else []) + Keep([], vocab, [datum][1..]);
  }

  /** What is left of two stretches of cells is what is left of each. */
  lemma {:induction false} ParseJoin<L>(a: seq<int>, b: seq<int>, vocab: nat, data: seq<L>, more: seq<L>)
    requires |data| == |a| && |more| == |b|
    ensures ParseRow(a + b, vocab) == ParseRow(a, vocab) + ParseRow(b, vocab)
    ensures Keep(a + b, vocab, data + more) == Keep(a, vocab, data) + Keep(b, vocab, more)
  {
    if a == [] {
      assert a + b == b && data + more == more;
    } else {
      ConsOfJoin(a, b);
      ConsOfJoin(data, more);
      ParseJoin(a[1..], b, vocab, data[1..], more);
      JoinAssociative(if IsToken(a[0], vocab) then [a[0]] else [], ParseRow(a[1..], vocab), ParseRow(b, vocab));
      JoinAssociative(if IsToken(a[0], vocab) then [data[0]] else [], Keep(a[1..], vocab, data[1..]),
                      Keep(b, vocab, more));
    }
  }

  /** Parsing a verified row gives back exactly its tokens, and of its data the part that goes with them. */
  lemma {:induction false} ParseTokens<L>(row: seq<int>, blanks: seq<int>, vocab: nat, data: seq<L>)
    requires forall i :: 0 <= i < |row| ==> 0 <= row[i] < vocab
    requires forall i :: 0 <= i < |blanks| ==> blanks[i] == PLACEHOLDER
    requires |data| == |row| + |blanks|
    ensures ParseRow(row + blanks, vocab) == row && Keep(row + blanks, vocab, data) == data[..|row|]
    decreases |row| + |blanks|
  {
    if row != [] {
      ConsOfJoin(row, blanks);
      ParseTokens(row[1..], blanks, vocab, data[1..]);
      ConsOfData(data, |row|);
    } else if blanks != [] {
      ConsOfJoin([], blanks);
      ParseTokens([], blanks[1..], vocab, data[1..]);
    }
  }

  lemma ConsOfJoin<T>(a: seq<T>, b: seq<T>)
    requires a + b != []
    ensures a != [] ==> (a + b)[0] == a[0] && (a + b)[1..] == a[1..] + b
    ensures a == [] ==> (a + b)[0] == b[0] && (a + b)[1..] == a + b[1..]
  {
  }

  lemma ConsOfData<T>(s: seq<T>, n: nat)
    requires 0 < n <= |s|
    ensures [s[0]] + s[1..][..n - 1] == s[..n]
  {
  }

  /** The part of `kept` between the bounds of row `i` belongs to that row. */
  ghost predicate KeptAt<L(!new)>(rows: seq<seq<int>>, vocab: nat, data: seq<seq<L>>, kept: seq<L>, cu: seq<nat>,
                                  i: nat)
    requires |rows| == |data| && forall k :: 0 <= k < |rows| ==> |rows[k]| == |data[k]|
  {
    && i < |rows| && i + 1 < |cu| && cu[i] <= cu[i + 1] <= |kept|
    && kept[cu[i]..cu[i + 1]] == Keep(rows[i], vocab, data[i])
  }

  lemma KeptStays<L(!new)>(rows: seq<seq<int>>, vocab: nat, data: seq<seq<L>>, kept: seq<L>, cu: seq<nat>,
                           more: seq<L>, end: nat, i: nat)
    requires |rows| == |data| && forall k :: 0 <= k < |rows| ==> |rows[k]| == |data[k]|
    requires KeptAt(rows, vocab, data, kept, cu, i)
    ensures KeptAt(rows, vocab, data, kept + more, cu + [end], i)
  {
    SliceOfJoin(kept, more, cu[i], cu[i + 1]);
  }

  lemma KeptNext<L(!new)>(rows: seq<seq<int>>, vocab: nat, data: seq<seq<L>>, kept: seq<L>, cu: seq<nat>, n: nat)
    requires |rows| == |data| && forall k :: 0 <= k < |rows| ==> |rows[k]| == |data[k]|
    requires n < |rows| && |cu| == n + 1 && cu[n] == |kept|
    ensures var more := Keep(rows[n], vocab, data[n]); KeptAt(rows, vocab, data, kept + more, cu + [|kept + more|], n)
  {
    TailOfJoin(kept, Keep(rows[n], vocab, data[n]));
  }

  /** The first `n` rows have their parts, one after the other. */
  ghost predicate AllKept<L(!new)>(rows: seq<seq<int>>, vocab: nat, data: seq<seq<L>>, kept: seq<L>, cu: seq<nat>,
                                   n: nat)
    requires |rows| == |data| && forall k :: 0 <= k < |rows| ==> |rows[k]| == |data[k]|
  {
    && |cu| == n + 1 && cu[0] == 0 && cu[n] == |kept|
    && forall i {:trigger KeptAt(rows, vocab, data, kept, cu, i)} ::
      0 <= i < n ==> KeptAt(rows, vocab, data, kept, cu, i)
  }

  lemma OneMoreKept<L(!new)>(rows: seq<seq<int>>, vocab: nat, data: seq<seq<L>>, kept: seq<L>, cu: seq<nat>, n: nat)
    requires |rows| == |data| && forall k :: 0 <= k < |rows| ==> |rows[k]| == |data[k]|
    requires n < |rows| && AllKept(rows, vocab, data, kept, cu, n)
    ensures var after := kept + Keep(rows[n], vocab, data[n]);
      AllKept(rows, vocab, data, after, cu + [|after|], n + 1)
  {
    var more := Keep(rows[n], vocab, data[n]);
    KeptNext(rows, vocab, data, kept, cu, n);
    forall i: nat | i < n ensures KeptAt(rows, vocab, data, kept + more, cu + [|kept + more|], i) {
      KeptStays(rows, vocab, data, kept, cu, more, |kept + more|, i);
    }
  }

  /** What a request gets to see of its row. */
  function Visible(row: seq<int>, vocab: nat, discarded: bool): seq<int> {
    if discarded then [] else ParseRow(row, vocab)
  }

  ghost predicate AllVisible(rows: seq<seq<int>>, vocab: nat, discard: set<nat>, outputs: seq<seq<int>>, n: nat)
    requires n <= |rows|
  {
    |outputs| == n && forall i :: 0 <= i < n ==> outputs[i] == Visible(rows[i], vocab, i in discard)
  }

  lemma OneMoreVisible(rows: seq<seq<int>>, vocab: nat, discard: set<nat>, outputs: seq<seq<int>>, n: nat)
    requires n < |rows| && AllVisible(rows, vocab, discard, outputs, n)
    ensures AllVisible(rows, vocab, discard, outputs + [Visible(rows[n], vocab, n in discard)], n + 1)
  {
  }

  /**
   `parse_output`: discarded rows lose their tokens but not their log probabilities, whose bounds
   are running counts.
   */
  method ParseOutput<L(!new)>(rows: seq<seq<int>>, vocab: nat, discard: set<nat>, data: seq<seq<L>>)
    returns (outputs: seq<seq<int>>, kept: seq<L>, cu: seq<nat>)
    requires |rows| == |data| && forall i :: 0 <= i < |rows| ==> |rows[i]| == |data[i]|
    ensures |outputs| == |rows|
    ensures forall i :: 0 <= i < |rows| && i in discard ==> outputs[i] == []
    ensures forall i :: 0 <= i < |rows| && i !in discard ==> outputs[i] == ParseRow(rows[i], vocab)
    ensures AllKept(rows, vocab, data, kept, cu, |rows|)
  {
    outputs, kept, cu := [], [], [0];
    for n := 0 to |rows|
      invariant AllVisible(rows, vocab, discard, outputs, n)
      invariant AllKept(rows, vocab, data, kept, cu, n)
    {
      OneMoreKept(rows, vocab, data, kept, cu, n);
      OneMoreVisible(rows, vocab, discard, outputs, n);
      outputs := outputs + [Visible(rows[n], vocab, n in discard)];
      kept := kept + Keep(rows[n], vocab, data[n]);
      cu := cu + [|kept|];
    }
  }
}
