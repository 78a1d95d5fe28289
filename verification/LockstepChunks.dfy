/** Data-parallel ranks work through their tokens in lockstep, one chunk per round. */
module LockstepChunks {
  import opened Basics
  // ----- Sequence-parallel token counts

  function CeilDiv(x: nat, d: nat): nat
    requires 0 < d
  {
    (x + d - 1) / d
  }

  lemma CeilDivBounds(x: nat, d: nat)
    requires 0 < d
    ensures x <= CeilDiv(x, d) * d < x + d
  {
    DivMod(x + d - 1, d);
  }

  /** `repeat_interleave`: every element `times` times in a row. */
  function RepeatInterleave(s: seq<nat>, times: nat): (r: seq<nat>)
    ensures |r| == |s| * times
  {
    if s == [] then [] else RepeatInterleave(s[..|s| - 1], times) + seq(times, _ => s[|s| - 1])
  }

  function PerShard(tokens: seq<nat>, spSize: nat): (r: seq<nat>)
    requires 0 < spSize
    ensures |r| == |tokens| && forall i :: 0 <= i < |tokens| ==> r[i] == CeilDiv(tokens[i], spSize)
  {
    seq(|tokens|, i requires 0 <= i < |tokens| => CeilDiv(tokens[i], spSize))
  }

  /** `_compute_sp_num_tokens` */
  function SpNumTokens(tokens: seq<nat>, spSize: nat): (r: seq<nat>)
    requires 0 < spSize
    ensures |r| == |tokens| * spSize
  {
    RepeatInterleave(PerShard(tokens, spSize), spSize)
  }

  /** Shard `j` of data-parallel rank `i` gets its part of that rank's tokens, rounded up. */
  lemma ShardTokens(tokens: seq<nat>, spSize: nat, i: nat, j: nat)
    requires i < |tokens| && j < spSize
    ensures i * spSize + j < |SpNumTokens(tokens, spSize)|
    ensures SpNumTokens(tokens, spSize)[i * spSize + j] == CeilDiv(tokens[i], spSize)
  {
    Interleaved(PerShard(tokens, spSize), spSize, i, j);
  }

  lemma {:induction false} Interleaved(s: seq<nat>, times: nat, i: nat, j: nat)
    requires i < |s| && j < times
    ensures i * times + j < |RepeatInterleave(s, times)| && RepeatInterleave(s, times)[i * times + j] == s[i]
  {
    var n := |s| - 1;
    OneTimeMore(n, times);
    if i < n { Interleaved(s[..n], times, i, j); }
  }

  // ----- One rank through all rounds

  /** What a rank with `total` tokens does in round `round`. */
  function LocalSize(total: nat, chunk: nat, round: nat): int {
    var size := Min(chunk, total - chunk * round);
    if size <= 0 then 1 else size
  }

  /** What it does in the first `rounds` rounds. */
  ghost function Worked(total: nat, chunk: nat, rounds: nat): int {
    if rounds == 0 then 0 else Worked(total, chunk, rounds - 1) + LocalSize(total, chunk, rounds - 1)
  }

  lemma SizeInChunk(total: nat, chunk: nat, round: nat)
    requires 1 <= chunk
    ensures 1 <= LocalSize(total, chunk, round) <= chunk
  {
  }

  /** Full chunks before the last busy round, the rest in it, and single tokens from then on. */
  lemma RoundSize(total: nat, chunk: nat, round: nat)
    requires 1 <= chunk
    ensures round < CeilDiv(total, chunk) ==>
      LocalSize(total, chunk, round) == Min(chunk, total - chunk * round) && chunk * round < total
    ensures round >= CeilDiv(total, chunk) ==> LocalSize(total, chunk, round) == 1 && total <= chunk * round
  {
    CeilDivBounds(total, chunk);
    if round < CeilDiv(total, chunk) {
      Monotone(round + 1, CeilDiv(total, chunk), chunk);
      assert (round + 1) * chunk == round * chunk + chunk;
    } else {
      Monotone(CeilDiv(total, chunk), round, chunk);
    }
    assert round * chunk == chunk * round;
  }

  /** Busy rounds work off the tokens, chunk by chunk. */
  lemma {:induction false} WorkedSoFar(total: nat, chunk: nat, rounds: nat)
    requires 1 <= chunk && rounds <= CeilDiv(total, chunk)
    ensures Worked(total, chunk, rounds) == Min(total, chunk * rounds)
  {
    if rounds > 0 {
      WorkedSoFar(total, chunk, rounds - 1);
      RoundSize(total, chunk, rounds - 1);
      OneChunkMore(chunk, rounds);
    }
  }

  lemma OneChunkMore(chunk: nat, rounds: nat)
    requires rounds > 0
    ensures chunk * rounds == chunk * (rounds - 1) + chunk
  {
  }

  /** The busy rounds do exactly the rank's tokens; every further round adds one. */
  lemma {:induction false} WorkedInAll(total: nat, chunk: nat, rounds: nat)
    requires 1 <= chunk && CeilDiv(total, chunk) <= rounds
    ensures Worked(total, chunk, rounds) == total + (rounds - CeilDiv(total, chunk))
    decreases rounds
  {
    if rounds == CeilDiv(total, chunk) {
      WorkedSoFar(total, chunk, rounds);
      CeilDivBounds(total, chunk);
    } else {
      WorkedInAll(total, chunk, rounds - 1);
      RoundSize(total, chunk, rounds - 1);
    }
  }

  // ----- All ranks in one round

  /** `_compute_chunked_local_num_tokens` */
  method ChunkedLocalNumTokens(tokens: seq<nat>, spSize: nat, maxNumTokens: nat, chunkIdx: nat)
    returns (localSize: seq<int>)
    requires 0 < spSize
    ensures |localSize| == |tokens| * spSize
    ensures forall i :: 0 <= i < |localSize| ==>
      localSize[i] == LocalSize(SpNumTokens(tokens, spSize)[i], maxNumTokens, chunkIdx)
  {
    var spTokens := SpNumTokens(tokens, spSize);
    localSize := seq(|spTokens|, _ => -1);
    for i := 0 to |spTokens|
      invariant |localSize| == |spTokens|
      invariant forall k :: 0 <= k < i ==> localSize[k] == LocalSize(spTokens[k], maxNumTokens, chunkIdx)
    {
      localSize := localSize[i := Min(maxNumTokens, spTokens[i] - maxNumTokens * chunkIdx)];
      if localSize[i] <= 0 {
        localSize := localSize[i := 1];
      }
    }
  }

  class DPMetadata {
    const numTokensAcrossDp: seq<nat>
    var localSizes: Option<seq<int>>

    constructor (numTokensAcrossDp: seq<nat>)
      ensures this.numTokensAcrossDp == numTokensAcrossDp && localSizes == None
    {
      this.numTokensAcrossDp := numTokensAcrossDp;
      localSizes := None;
    }

    /** Entering `chunked_sizes`. */
    method EnterChunkedSizes(spSize: nat, maxChunkSize: nat, chunkIdx: nat)
      requires 0 < spSize
      modifies this
      ensures localSizes.Some? && |localSizes.value| == |numTokensAcrossDp| * spSize
      ensures forall i :: 0 <= i < |localSizes.value| ==>
        localSizes.value[i] == LocalSize(SpNumTokens(numTokensAcrossDp, spSize)[i], maxChunkSize, chunkIdx)
    {
      var sizes := ChunkedLocalNumTokens(numTokensAcrossDp, spSize, maxChunkSize, chunkIdx);
      localSizes := Some(sizes);
    }

    /** Leaving a context, normally or by an exception. */
    method ExitContext()
      modifies this
      ensures localSizes == None
    {
      localSizes := None;
    }

    /** `get_chunk_sizes_across_dp_rank`: no sizes outside a context, where the source asserts. */
    method GetChunkSizes() returns (sizes: Option<seq<int>>)
      ensures sizes == localSizes
    {
      sizes := localSizes;
    }

    /** A chunked forward pass: what shard `i` works in all rounds. */
    method Forward(spSize: nat, maxChunkSize: nat, rounds: nat, i: nat) returns (worked: int)
      requires 0 < spSize && 1 <= maxChunkSize && i < |numTokensAcrossDp| * spSize
      modifies this
      ensures localSizes == None
      ensures worked == Worked(SpNumTokens(numTokensAcrossDp, spSize)[i], maxChunkSize, rounds)
    {
      worked := 0;
      localSizes := None;
      for round := 0 to rounds
        invariant localSizes == None
        invariant worked == Worked(SpNumTokens(numTokensAcrossDp, spSize)[i], maxChunkSize, round)
      {
        EnterChunkedSizes(spSize, maxChunkSize, round);
        var sizes := GetChunkSizes();
        worked := worked + sizes.value[i];
        ExitContext();
      }
    }
  }

  // ----- Prefix sums

  /** `cu_tokens_across_sp`: the running totals of the shard counts. */
  method CuTokensAcrossSp(tokens: seq<nat>, spSize: nat) returns (cu: seq<nat>)
    requires 0 < spSize
    ensures |cu| == |tokens| * spSize
    ensures forall i: nat :: i < |cu| ==> cu[i] == Sum(SpNumTokens(tokens, spSize), i + 1)
  {
    var counts := SpNumTokens(tokens, spSize);
    cu := [];
    var total := 0;
    for i := 0 to |counts|
      invariant |cu| == i && total == Sum(counts, i)
      invariant forall k: nat :: k < i ==> cu[k] == Sum(counts, k + 1)
    {
      total := total + counts[i];
      cu := cu + [total];
    }
  }

  lemma {:induction false} SumPrefix(s: seq<nat>, t: seq<nat>, n: nat)
    requires n <= |s|
    ensures Sum(s + t, n) == Sum(s, n)
  {
    if n > 0 { SumPrefix(s, t, n - 1); }
  }

  lemma {:induction false} SumOfJoin(s: seq<nat>, t: seq<nat>, n: nat)
    requires n <= |t|
    ensures Sum(s + t, |s| + n) == Sum(s, |s|) + Sum(t, n)
  {
    if n == 0 { SumPrefix(s, t, |s|); } else { SumOfJoin(s, t, n - 1); }
  }

  lemma {:induction false} SumOfSame(x: nat, times: nat, n: nat)
    requires n <= times
    ensures Sum(seq(times, _ => x), n) == x * n
  {
    if n > 0 {
      SumOfSame(x, times, n - 1);
      assert x * n == x * (n - 1) + x;
    }
  }

  /** Rounding up adds at most `spSize - 1` tokens per data-parallel rank, and never loses one. */
  lemma {:induction false} TotalOvershoot(tokens: seq<nat>, spSize: nat)
    requires 0 < spSize
    ensures var counts := SpNumTokens(tokens, spSize);
      Sum(tokens, |tokens|) <= Sum(counts, |counts|) <= Sum(tokens, |tokens|) + |tokens| * (spSize - 1)
  {
    if tokens != [] {
      var n := |tokens| - 1;
      TotalOvershoot(tokens[..n], spSize);
      CountsTotal(tokens, spSize);
      TokensTotal(tokens);
      CeilDivBounds(tokens[n], spSize);
      OneTimeMore(n, spSize - 1);
    }
  }

  lemma CountsSnoc(tokens: seq<nat>, spSize: nat)
    requires 0 < spSize && tokens != []
    ensures SpNumTokens(tokens, spSize)
         == SpNumTokens(tokens[..|tokens| - 1], spSize) + seq(spSize, _ => CeilDiv(tokens[|tokens| - 1], spSize))
  {
    assert PerShard(tokens, spSize)[..|tokens| - 1] == PerShard(tokens[..|tokens| - 1], spSize);
  }

  lemma CountsTotal(tokens: seq<nat>, spSize: nat)
    requires 0 < spSize && tokens != []
    ensures var counts, before := SpNumTokens(tokens, spSize), SpNumTokens(tokens[..|tokens| - 1], spSize);
      Sum(counts, |counts|) == Sum(before, |before|) + CeilDiv(tokens[|tokens| - 1], spSize) * spSize
  {
    CountsSnoc(tokens, spSize);
    LastRank(SpNumTokens(tokens[..|tokens| - 1], spSize), CeilDiv(tokens[|tokens| - 1], spSize), spSize);
  }

  lemma TokensTotal(tokens: seq<nat>)
    requires tokens != []
    ensures Sum(tokens, |tokens|) == Sum(tokens[..|tokens| - 1], |tokens| - 1) + tokens[|tokens| - 1]
  {
    SumOfSlice(tokens, |tokens| - 1, |tokens| - 1);
  }

  lemma {:induction false} SumOfSlice(s: seq<nat>, k: nat, n: nat)
    requires n <= k <= |s|
    ensures Sum(s[..k], n) == Sum(s, n)
  {
    if n > 0 { SumOfSlice(s, k, n - 1); }
  }

  lemma LastRank(counts: seq<nat>, x: nat, times: nat)
    ensures var all := counts + seq(times, _ => x); Sum(all, |all|) == Sum(counts, |counts|) + x * times
  {
    SumOfJoin(counts, seq(times, _ => x), times);
    SumOfSame(x, times, times);
  }
}
