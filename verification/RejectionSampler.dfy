/**
 Accepting and rejecting draft tokens. The kernels fill one output row per request; the rows
 make speculative decoding lossless, which SpeculativeDecoding proves.
 */
module RejectionSampler {
  import opened Residuals

  const PLACEHOLDER: int := -1

  /**
   One verified row: draft tokens while they are accepted, then the substitute at the first
   rejection, or the bonus token if there is none.
   */
  function VerifiedRow(draft: seq<int>, accepted: seq<bool>, substitute: seq<int>, bonus: int): (row: seq<int>)
    requires |draft| == |accepted| == |substitute|
    ensures 1 <= |row| <= |draft| + 1
    ensures forall i :: 0 <= i < |row| - 1 ==> accepted[i] && row[i] == draft[i]
    ensures |row| <= |draft| ==> !accepted[|row| - 1] && row[|row| - 1] == substitute[|row| - 1]
    ensures |row| == |draft| + 1 ==> row[|draft|] == bonus
  {
    if draft == [] then [bonus]
    else if accepted[0] then [draft[0]] + VerifiedRow(draft[1..], accepted[1..], substitute[1..], bonus)
    else [substitute[0]]
  }

  /** The four promises of `VerifiedRow` leave no choice. */
  lemma RowUnique(draft: seq<int>, accepted: seq<bool>, substitute: seq<int>, bonus: int, row: seq<int>)
    requires |draft| == |accepted| == |substitute| && 1 <= |row| <= |draft| + 1
    requires forall i :: 0 <= i < |row| - 1 ==> accepted[i] && row[i] == draft[i]
    requires |row| <= |draft| ==> !accepted[|row| - 1] && row[|row| - 1] == substitute[|row| - 1]
    requires |row| == |draft| + 1 ==> row[|draft|] == bonus
    ensures row == VerifiedRow(draft, accepted, substitute, bonus)
  {
    var spec := VerifiedRow(draft, accepted, substitute, bonus);
    if |row| <= |draft| { assert !accepted[|row| - 1]; }
    if |spec| <= |draft| { assert !accepted[|spec| - 1]; }
  }

  /** A row of the output buffer: the tokens, then placeholders. */
  ghost predicate HoldsRow(out: array2<int>, r: nat, row: seq<int>)
    reads out
    requires r < out.Length0
  {
    |row| <= out.Length1 && forall j :: 0 <= j < out.Length1 ==> out[r, j] == if j < |row| then row[j] else -1
  }

  ghost predicate Blank(out: array2<int>, r: nat)
    reads out
    requires r < out.Length0
  {
    forall j :: 0 <= j < out.Length1 ==> out[r, j] == -1
  }

  // ----- Draft tokens of the requests, flattened

  ghost predicate Cumulative(cu: seq<nat>, total: nat) {
    && (forall r, s :: 0 <= r <= s < |cu| ==> cu[r] <= cu[s])
    && (forall r :: 0 <= r < |cu| ==> cu[r] <= total)
  }

  function First(cu: seq<nat>, r: nat): nat
    requires r < |cu|
  {
    if r == 0 then 0 else cu[r - 1]
  }

  /** The part of a flat sequence that belongs to request `r`. */
  function Part<T>(flat: seq<T>, cu: seq<nat>, r: nat): seq<T>
    requires r < |cu| && Cumulative(cu, |flat|)
  {
    flat[First(cu, r)..cu[r]]
  }

  /** The parts of the first `n` requests, one after the other. */
  ghost function JoinedParts<T>(flat: seq<T>, cu: seq<nat>, n: nat): seq<T>
    requires n <= |cu| && Cumulative(cu, |flat|)
  {
    if n == 0 then [] else JoinedParts(flat, cu, n - 1) + Part(flat, cu, n - 1)
  }

  /** The requests share the flat sequence out: their parts are a prefix of it, and all of it if they end there. */
  lemma {:induction false} PartsTile<T>(flat: seq<T>, cu: seq<nat>, n: nat)
    requires 0 < n <= |cu| && Cumulative(cu, |flat|)
    ensures JoinedParts(flat, cu, n) == flat[..cu[n - 1]]
    ensures n == |cu| && cu[n - 1] == |flat| ==> JoinedParts(flat, cu, n) == flat
  {
    if n > 1 { PartsTile(flat, cu, n - 1); }
  }

  ghost function Agreement(draft: seq<int>, argmax: seq<int>): (accepted: seq<bool>)
    requires |draft| == |argmax|
    ensures |accepted| == |draft| && forall i :: 0 <= i < |draft| ==> accepted[i] == (draft[i] == argmax[i])
  {
    seq(|draft|, i requires 0 <= i < |draft| => draft[i] == argmax[i])
  }

  /** What a greedy request owes: its draft checked against the target's argmax. */
  ghost function GreedyRow(draft: seq<int>, argmax: seq<int>, bonus: int): seq<int>
    requires |draft| == |argmax|
  {
    VerifiedRow(draft, Agreement(draft, argmax), argmax, bonus)
  }

  /** The acceptance test: a draft token of probability zero is rejected. */
  predicate Accepts(targetProb: real, draftProb: real, uniform: real) {
    draftProb > 0.0 && targetProb / draftProb >= uniform
  }

  /** Probabilities per draft position; `draft` is empty for drafts without probabilities. */
  datatype Probs = Probs(target: seq<Dist>, draft: seq<Dist>, noDraftProbs: bool)

  ghost predicate ValidProbs(probs: Probs, draftIds: seq<int>, vocab: nat) {
    && |probs.target| == |draftIds|
    && (!probs.noDraftProbs ==> |probs.draft| == |draftIds|)
    && (forall i :: 0 <= i < |draftIds| ==> |probs.target[i]| == vocab)
    && (!probs.noDraftProbs ==> forall i :: 0 <= i < |draftIds| ==> |probs.draft[i]| == vocab)
    && (forall i :: 0 <= i < |draftIds| ==> 0 <= draftIds[i] < vocab)
  }

  /** What the random kernel reads besides: uniform draws and recovered tokens. */
  datatype Draws = Draws(probs: Probs, uniform: seq<real>, recovered: seq<int>)

  ghost predicate ValidDraws(d: Draws, draftIds: seq<int>, vocab: nat) {
    |d.uniform| == |d.recovered| == |draftIds| && ValidProbs(d.probs, draftIds, vocab)
  }

  /** Whether the draft token at flat position `i` passes the test. */
  predicate AcceptsAt(d: Draws, draftIds: seq<int>, vocab: nat, i: nat)
    requires ValidDraws(d, draftIds, vocab) && i < |draftIds|
  {
    Accepts(d.probs.target[i][draftIds[i]], if d.probs.noDraftProbs then 1.0 else d.probs.draft[i][draftIds[i]],
            d.uniform[i])
  }

  ghost function Acceptance(d: Draws, draftIds: seq<int>, vocab: nat): (accepted: seq<bool>)
    requires ValidDraws(d, draftIds, vocab)
    ensures |accepted| == |draftIds|
    ensures forall i {:trigger AcceptsAt(d, draftIds, vocab, i)} ::
      0 <= i < |draftIds| ==> accepted[i] == AcceptsAt(d, draftIds, vocab, i)
  {
    seq(|draftIds|, i requires 0 <= i < |draftIds| => AcceptsAt(d, draftIds, vocab, i))
  }

  /** What a random request owes. */
  ghost function RandomRow(d: Draws, draftIds: seq<int>, vocab: nat, cu: seq<nat>, r: nat, bonus: int): seq<int>
    requires ValidDraws(d, draftIds, vocab) && r < |cu| && Cumulative(cu, |draftIds|)
  {
    VerifiedRow(Part(draftIds, cu, r), Part(Acceptance(d, draftIds, vocab), cu, r), Part(d.recovered, cu, r), bonus)
  }

  // ----- Recovered tokens

  /** What the recovered token at flat position `i` is drawn from. */
  function ResidualAt(probs: Probs, draftIds: seq<int>, vocab: nat, i: nat): (r: Dist)
    requires ValidProbs(probs, draftIds, vocab) && i < |draftIds|
    ensures |r| == vocab
  {
    if probs.noDraftProbs then MaskedTarget(probs.target[i], draftIds[i]) else Residual(probs.target[i], probs.draft[i])
  }

  /** One row of positive noise per request, and target probabilities that are not negative. */
  ghost predicate ValidNoise(probs: Probs, noise: seq<seq<real>>, draftIds: seq<int>, vocab: nat, requests: nat)
    requires ValidProbs(probs, draftIds, vocab)
  {
    && |noise| == requests
    && (forall r :: 0 <= r < requests ==> |noise[r]| == vocab)
    && (forall r, v :: 0 <= r < requests && 0 <= v < vocab ==> noise[r][v] > 0.0)
    && (forall i, v :: 0 <= i < |draftIds| && 0 <= v < vocab ==> probs.target[i][v] >= 0.0)
  }

  lemma ScoresAt(probs: Probs, noise: seq<seq<real>>, draftIds: seq<int>, vocab: nat, requests: nat, r: nat, i: nat)
    requires ValidProbs(probs, draftIds, vocab) && ValidNoise(probs, noise, draftIds, vocab, requests)
    requires r < requests && i < |draftIds|
    ensures Scores(ResidualAt(probs, draftIds, vocab, i), noise[r])
  {
  }

  /** `id` is the recovered token of request `r` at flat position `i`. */
  ghost predicate RecoveredAt(probs: Probs, noise: seq<seq<real>>, draftIds: seq<int>, vocab: nat, r: nat, i: nat,
                              id: int)
    requires ValidProbs(probs, draftIds, vocab) && ValidNoise(probs, noise, draftIds, vocab, |noise|)
    requires r < |noise| && i < |draftIds|
  {
    ScoresAt(probs, noise, draftIds, vocab, |noise|, r, i);
    IsRecovered(ResidualAt(probs, draftIds, vocab, i), noise[r], id)
  }

  ghost predicate AreRecovered(probs: Probs, noise: seq<seq<real>>, draftIds: seq<int>, vocab: nat, cu: seq<nat>,
                               recovered: seq<int>, n: nat)
    requires ValidProbs(probs, draftIds, vocab) && ValidNoise(probs, noise, draftIds, vocab, |noise|)
    requires n <= |cu| == |noise| && Cumulative(cu, |draftIds|)
  {
    && |recovered| == |draftIds|
    && forall r, i {:trigger RecoveredAt(probs, noise, draftIds, vocab, r, i, recovered[i])} ::
      0 <= r < n && First(cu, r) <= i < cu[r] ==> RecoveredAt(probs, noise, draftIds, vocab, r, i, recovered[i])
  }

  /** In a batch: no token has more residual for the noise of its request than the recovered one. */
  lemma RecoveredInBatch(probs: Probs, noise: seq<seq<real>>, draftIds: seq<int>, vocab: nat, cu: seq<nat>,
                         recovered: seq<int>, r: nat, j: nat, v: nat)
    requires ValidProbs(probs, draftIds, vocab) && ValidNoise(probs, noise, draftIds, vocab, |noise|)
    requires r < |cu| == |noise| && Cumulative(cu, |draftIds|) && v < vocab
    requires AreRecovered(probs, noise, draftIds, vocab, cu, recovered, |cu|)
    requires (if r == 0 then 0 else cu[r - 1]) <= j < cu[r]
    ensures 0 <= recovered[j] < vocab
    ensures ResidualAt(probs, draftIds, vocab, j)[v] * noise[r][recovered[j]]
         <= ResidualAt(probs, draftIds, vocab, j)[recovered[j]] * noise[r][v]
  {
    assert RecoveredAt(probs, noise, draftIds, vocab, r, j, recovered[j]);
    ScoresAt(probs, noise, draftIds, vocab, |noise|, r, j);
    RecoveredWinsRace(ResidualAt(probs, draftIds, vocab, j), noise[r], recovered[j], v);
  }

  /** `sample_recovered_tokens` for one request. */
  method RecoverRow(probs: Probs, noise: seq<seq<real>>, draftIds: seq<int>, vocab: nat, cu: seq<nat>, r: nat,
                    recovered: seq<int>)
    returns (recovered': seq<int>)
    requires ValidProbs(probs, draftIds, vocab) && ValidNoise(probs, noise, draftIds, vocab, |noise|)
    requires r < |cu| == |noise| && Cumulative(cu, |draftIds|) && |recovered| == |draftIds|
    ensures |recovered'| == |recovered|
    ensures forall i :: 0 <= i < |recovered| && !(First(cu, r) <= i < cu[r]) ==> recovered'[i] == recovered[i]
    ensures forall i :: First(cu, r) <= i < cu[r] ==> RecoveredAt(probs, noise, draftIds, vocab, r, i, recovered'[i])
  {
    recovered' := recovered;
    for i := First(cu, r) to cu[r]
      invariant |recovered'| == |recovered|
      invariant forall k :: 0 <= k < |recovered| && !(First(cu, r) <= k < i) ==> recovered'[k] == recovered[k]
      invariant forall k :: First(cu, r) <= k < i ==> RecoveredAt(probs, noise, draftIds, vocab, r, k, recovered'[k])
    {
      ScoresAt(probs, noise, draftIds, vocab, |noise|, r, i);
      assert 0 <= draftIds[i] < vocab;
      var id := RecoverToken(ResidualAt(probs, draftIds, vocab, i), noise[r]);
      recovered' := recovered'[i := id];
    }
  }

  /** `sample_recovered_tokens`: the noise of a request serves all its positions. */
  method SampleRecovered(probs: Probs, noise: seq<seq<real>>, draftIds: seq<int>, vocab: nat, cu: seq<nat>)
    returns (recovered: seq<int>)
    requires ValidProbs(probs, draftIds, vocab) && ValidNoise(probs, noise, draftIds, vocab, |noise|)
    requires |cu| == |noise| && Cumulative(cu, |draftIds|)
    ensures AreRecovered(probs, noise, draftIds, vocab, cu, recovered, |cu|)
  {
    recovered := seq(|draftIds|, _ => 0);
    for r := 0 to |cu|
      invariant AreRecovered(probs, noise, draftIds, vocab, cu, recovered, r)
    {
      ghost var before := recovered;
      recovered := RecoverRow(probs, noise, draftIds, vocab, cu, r, recovered);
      OneMoreRecovered(probs, noise, draftIds, vocab, cu, before, recovered, r);
    }
  }

  lemma OneMoreRecovered(probs: Probs, noise: seq<seq<real>>, draftIds: seq<int>, vocab: nat, cu: seq<nat>,
                         before: seq<int>, after: seq<int>, r: nat)
    requires ValidProbs(probs, draftIds, vocab) && ValidNoise(probs, noise, draftIds, vocab, |noise|)
    requires r < |cu| == |noise| && Cumulative(cu, |draftIds|) && |after| == |before|
    requires AreRecovered(probs, noise, draftIds, vocab, cu, before, r)
    requires forall i :: 0 <= i < |before| && !(First(cu, r) <= i < cu[r]) ==> after[i] == before[i]
    requires forall i :: First(cu, r) <= i < cu[r] ==> RecoveredAt(probs, noise, draftIds, vocab, r, i, after[i])
    ensures AreRecovered(probs, noise, draftIds, vocab, cu, after, r + 1)
  {
    forall s, i | 0 <= s <= r && First(cu, s) <= i < cu[s]
      ensures RecoveredAt(probs, noise, draftIds, vocab, s, i, after[i])
    {
      if s < r {
        assert cu[s] <= First(cu, r);
        assert RecoveredAt(probs, noise, draftIds, vocab, s, i, before[i]);
      }
    }
  }

  // ----- Kernels

  /** The loop state after `pos` positions: everything accepted so far, or a row that ended in a substitute. */
  ghost predicate AcceptedSoFar(draft: seq<int>, accepted: seq<bool>, substitute: seq<int>, row: seq<int>,
                                rejected: bool, pos: nat)
    requires |draft| == |accepted| == |substitute| && pos <= |draft|
  {
    && (!rejected ==> |row| == pos)
    && (rejected ==> 1 <= |row| <= pos && !accepted[|row| - 1] && row[|row| - 1] == substitute[|row| - 1])
    && forall i :: 0 <= i < (if rejected then |row| - 1 else |row|) ==> accepted[i] && row[i] == draft[i]
  }

  /** One more position: its token goes to the row, and a failed test ends it. */
  lemma OneMore(draft: seq<int>, accepted: seq<bool>, substitute: seq<int>, row: seq<int>, pos: nat, token: int)
    requires |draft| == |accepted| == |substitute| && pos < |draft|
    requires AcceptedSoFar(draft, accepted, substitute, row, false, pos)
    requires token == if accepted[pos] then draft[pos] else substitute[pos]
    ensures AcceptedSoFar(draft, accepted, substitute, row + [token], !accepted[pos], pos + 1)
  {
  }

  /** `rejection_greedy_sample_kernel` for one request. */
  method GreedyKernel(out: array2<int>, cu: seq<nat>, draftIds: seq<int>, argmax: seq<int>, bonus: seq<int>,
                      isGreedy: bool, r: nat)
    requires r < |cu| == |bonus| == out.Length0 && |draftIds| == |argmax| && Cumulative(cu, |draftIds|)
    requires cu[r] - First(cu, r) < out.Length1 && Blank(out, r)
    modifies out
    ensures forall s, j :: 0 <= s < out.Length0 && s != r && 0 <= j < out.Length1 ==> out[s, j] == old(out[s, j])
    ensures isGreedy ==> HoldsRow(out, r, GreedyRow(Part(draftIds, cu, r), Part(argmax, cu, r), bonus[r]))
    ensures !isGreedy ==> Blank(out, r)
  {
    if !isGreedy {
      return;
    }
    var start := First(cu, r);
    var numDraft := cu[r] - start;
    ghost var draft, best := Part(draftIds, cu, r), Part(argmax, cu, r);
    ghost var accepted := Agreement(draft, best);
    var rejected := false;
    ghost var row: seq<int> := [];
    for pos := 0 to numDraft
      invariant forall s, j :: 0 <= s < out.Length0 && s != r && 0 <= j < out.Length1 ==> out[s, j] == old(out[s, j])
      invariant HoldsRow(out, r, row)
      invariant AcceptedSoFar(draft, accepted, best, row, rejected, pos)
    {
      if !rejected {
        OneMore(draft, accepted, best, row, pos, argmax[start + pos]);
        out[r, pos] := argmax[start + pos];
        row := row + [argmax[start + pos]];
        if draftIds[start + pos] != argmax[start + pos] {
          rejected := true;
        }
      }
    }
    if !rejected {
      out[r, numDraft] := bonus[r];
      row := row + [bonus[r]];
    }
    RowUnique(draft, accepted, best, bonus[r], row);
  }

  /** The test at one position, and the token that it puts there. */
  method Test(d: Draws, draftIds: seq<int>, vocab: nat, ghost cu: seq<nat>, ghost r: nat, ghost pos: nat, i: nat)
    returns (passes: bool, token: int)
    requires ValidDraws(d, draftIds, vocab) && r < |cu| && Cumulative(cu, |draftIds|)
    requires i == First(cu, r) + pos < cu[r]
    ensures passes == Part(Acceptance(d, draftIds, vocab), cu, r)[pos]
    ensures token == if passes then Part(draftIds, cu, r)[pos] else Part(d.recovered, cu, r)[pos]
  {
    passes := AcceptsAt(d, draftIds, vocab, i);
    token := if passes then draftIds[i] else d.recovered[i];
  }

  /** `rejection_random_sample_kernel` for one request. */
  method RandomKernel(out: array2<int>, cu: seq<nat>, draftIds: seq<int>, d: Draws, vocab: nat, bonus: seq<int>,
                      isGreedy: bool, r: nat)
    requires r < |cu| == |bonus| == out.Length0 && Cumulative(cu, |draftIds|) && ValidDraws(d, draftIds, vocab)
    requires cu[r] - First(cu, r) < out.Length1 && (!isGreedy ==> Blank(out, r))
    modifies out
    ensures forall s, j :: 0 <= s < out.Length0 && s != r && 0 <= j < out.Length1 ==> out[s, j] == old(out[s, j])
    ensures !isGreedy ==> HoldsRow(out, r, RandomRow(d, draftIds, vocab, cu, r, bonus[r]))
    ensures isGreedy ==> forall j :: 0 <= j < out.Length1 ==> out[r, j] == old(out[r, j])
  {
    if isGreedy {
      return;
    }
    var start := First(cu, r);
    var numDraft := cu[r] - start;
    ghost var draft, substitute := Part(draftIds, cu, r), Part(d.recovered, cu, r);
    ghost var accepted := Part(Acceptance(d, draftIds, vocab), cu, r);
    var rejected := false;
    ghost var row: seq<int> := [];
    for pos := 0 to numDraft
      invariant forall s, j :: 0 <= s < out.Length0 && s != r && 0 <= j < out.Length1 ==> out[s, j] == old(out[s, j])
      invariant HoldsRow(out, r, row)
      invariant AcceptedSoFar(draft, accepted, substitute, row, rejected, pos)
    {
      if !rejected {
        var passes, token := Test(d, draftIds, vocab, cu, r, pos, start + pos);
        rejected := !passes;
        OneMore(draft, accepted, substitute, row, pos, token);
        out[r, pos] := token;
        row := row + [token];
      }
    }
    if !rejected {
      out[r, numDraft] := bonus[r];
      row := row + [bonus[r]];
    }
    RowUnique(draft, accepted, substitute, bonus[r], row);
  }

  /** The row that request `r` owes, by its kind. */
  ghost predicate RowDone(out: array2<int>, cu: seq<nat>, draftIds: seq<int>, argmax: seq<int>, d: Draws, vocab: nat,
                          bonus: seq<int>, greedy: bool, r: nat)
    reads out
    requires r < |cu| == |bonus| == out.Length0 && |draftIds| == |argmax| && Cumulative(cu, |draftIds|)
    requires ValidDraws(d, draftIds, vocab)
  {
    HoldsRow(out, r, if greedy then GreedyRow(Part(draftIds, cu, r), Part(argmax, cu, r), bonus[r])
                     else RandomRow(d, draftIds, vocab, cu, r, bonus[r]))
  }

  ghost predicate Fits(cu: seq<nat>, maxSpecLen: int) {
    forall r :: 0 <= r < |cu| ==> cu[r] - First(cu, r) <= maxSpecLen
  }

  /** The greedy kernel over all requests. */
  method GreedyPass(out: array2<int>, cu: seq<nat>, draftIds: seq<int>, argmax: seq<int>, bonus: seq<int>,
                    isGreedy: seq<bool>)
    requires |cu| == |bonus| == |isGreedy| == out.Length0 && |draftIds| == |argmax| && Cumulative(cu, |draftIds|)
    requires Fits(cu, out.Length1 - 1) && forall r :: 0 <= r < |cu| ==> Blank(out, r)
    modifies out
    ensures forall r :: 0 <= r < |cu| && isGreedy[r] ==>
      HoldsRow(out, r, GreedyRow(Part(draftIds, cu, r), Part(argmax, cu, r), bonus[r]))
    ensures forall r :: 0 <= r < |cu| && !isGreedy[r] ==> Blank(out, r)
  {
    for r := 0 to |cu|
      invariant forall s :: 0 <= s < r && isGreedy[s] ==>
        HoldsRow(out, s, GreedyRow(Part(draftIds, cu, s), Part(argmax, cu, s), bonus[s]))
      invariant forall s :: 0 <= s < |cu| && (r <= s || !isGreedy[s]) ==> Blank(out, s)
    {
      GreedyKernel(out, cu, draftIds, argmax, bonus, isGreedy[r], r);
    }
  }

  /** The random kernel over all requests leaves greedy rows alone. */
  method RandomPass(out: array2<int>, cu: seq<nat>, draftIds: seq<int>, d: Draws, vocab: nat, bonus: seq<int>,
                    isGreedy: seq<bool>)
    requires |cu| == |bonus| == |isGreedy| == out.Length0 && Cumulative(cu, |draftIds|)
    requires ValidDraws(d, draftIds, vocab)
    requires Fits(cu, out.Length1 - 1) && forall r :: 0 <= r < |cu| && !isGreedy[r] ==> Blank(out, r)
    modifies out
    ensures forall r :: 0 <= r < |cu| && !isGreedy[r] ==>
      HoldsRow(out, r, RandomRow(d, draftIds, vocab, cu, r, bonus[r]))
    ensures forall r, j :: 0 <= r < |cu| && isGreedy[r] && 0 <= j < out.Length1 ==> out[r, j] == old(out[r, j])
  {
    for r := 0 to |cu|
      invariant forall s :: 0 <= s < r && !isGreedy[s] ==>
        HoldsRow(out, s, RandomRow(d, draftIds, vocab, cu, s, bonus[s]))
      invariant forall s :: r <= s < |cu| && !isGreedy[s] ==> Blank(out, s)
      invariant forall s, j :: 0 <= s < |cu| && isGreedy[s] && 0 <= j < out.Length1 ==> out[s, j] == old(out[s, j])
    {
      RandomKernel(out, cu, draftIds, d, vocab, bonus, isGreedy[r], r);
    }
  }

  /**
   `rejection_sample`: a blank buffer, the greedy kernel unless every request is random, then
   recovered tokens and the random kernel unless every request is greedy. Each kernel skips the
   other kind.
   */
  method RejectionSample(cu: seq<nat>, draftIds: seq<int>, maxSpecLen: nat, argmax: seq<int>, probs: Probs,
                         uniform: seq<real>,
                         noise: seq<seq<real>>, vocab: nat, bonus: seq<int>,
                         isGreedy: seq<bool>, allGreedy: bool, allRandom: bool)
    returns (out: array2<int>, recovered: seq<int>)
    requires |cu| == |bonus| == |isGreedy| == |noise| && |draftIds| == |argmax| == |uniform|
    requires Cumulative(cu, |draftIds|) && Fits(cu, maxSpecLen)
    requires ValidProbs(probs, draftIds, vocab) && ValidNoise(probs, noise, draftIds, vocab, |noise|)
    requires allGreedy ==> !allRandom && forall r :: 0 <= r < |cu| ==> isGreedy[r]
    requires allRandom ==> forall r :: 0 <= r < |cu| ==> !isGreedy[r]
    ensures fresh(out) && out.Length0 == |cu| && out.Length1 == maxSpecLen + 1 && |recovered| == |draftIds|
    ensures !allGreedy ==> AreRecovered(probs, noise, draftIds, vocab, cu, recovered, |cu|)
    ensures forall r :: 0 <= r < |cu| ==>
      RowDone(out, cu, draftIds, argmax, Draws(probs, uniform, recovered), vocab, bonus, isGreedy[r], r)
  {
    out := new int[|cu|, maxSpecLen + 1]((r, j) => PLACEHOLDER);
    recovered := seq(|draftIds|, _ => 0);
    if !allRandom {
      GreedyPass(out, cu, draftIds, argmax, bonus, isGreedy);
    }
    if !allGreedy {
      recovered := SampleRecovered(probs, noise, draftIds, vocab, cu);
      RandomPass(out, cu, draftIds, Draws(probs, uniform, recovered), vocab, bonus, isGreedy);
    }
  }

  /** Of the substitutes only the one at the first rejection matters, so sharing noise between positions does not. */
  lemma OthersIrrelevant(draft: seq<int>, accepted: seq<bool>, substitute: seq<int>, other: seq<int>, bonus: int)
    requires |draft| == |accepted| == |substitute| == |other|
    requires var k := |VerifiedRow(draft, accepted, substitute, bonus)|; k <= |draft| ==>
      other[k - 1] == substitute[k - 1]
    ensures VerifiedRow(draft, accepted, other, bonus) == VerifiedRow(draft, accepted, substitute, bonus)
  {
    RowUnique(draft, accepted, other, bonus, VerifiedRow(draft, accepted, substitute, bonus));
  }
}
