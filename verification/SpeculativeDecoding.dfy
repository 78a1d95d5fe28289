/**
 Speculative decoding is lossless: whatever the drafts, greedy requests produce the tokens of
 plain greedy decoding.
 */
module SpeculativeDecoding {
  import opened RejectionSampler

  /** The token that the target model prefers after a context. */
  type Argmax = seq<int> -> int

  /** Plain greedy decoding for `n` steps. */
  ghost function Dense(target: Argmax, context: seq<int>, n: nat): (r: seq<int>)
    ensures |r| == |context| + n && context <= r
    decreases n
  {
    if n == 0 then context else Dense(target, context + [target(context)], n - 1)
  }

  /** The target's choice at every draft position, as one verify pass computes it. */
  ghost function VerifyPass(target: Argmax, context: seq<int>, draft: seq<int>): (r: seq<int>)
    ensures |r| == |draft| && forall i :: 0 <= i < |r| ==> r[i] == target(context + draft[..i])
  {
    seq(|draft|, i requires 0 <= i < |draft| => target(context + draft[..i]))
  }

  /** One round: draft, verify, keep what the rejection sampler returns. */
  ghost function Round(target: Argmax, context: seq<int>, draft: seq<int>): (r: seq<int>)
  {
    context + GreedyRow(draft, VerifyPass(target, context, draft), target(context + draft))
  }

  lemma {:induction false} DenseSplit(target: Argmax, context: seq<int>, m: nat, n: nat)
    ensures Dense(target, Dense(target, context, m), n) == Dense(target, context, m + n)
    decreases m
  {
    if m > 0 { DenseSplit(target, context + [target(context)], m - 1, n); }
  }

  /** Extending a context by agreeing tokens is dense decoding. */
  lemma {:induction false} AgreeingIsDense(target: Argmax, context: seq<int>, tokens: seq<int>)
    requires forall i :: 0 <= i < |tokens| ==> tokens[i] == target(context + tokens[..i])
    ensures context + tokens == Dense(target, context, |tokens|)
  {
    if tokens != [] {
      var init, last := tokens[..|tokens| - 1], tokens[|tokens| - 1];
      forall i | 0 <= i < |init| ensures init[i] == target(context + init[..i]) {
        assert init[..i] == tokens[..i];
      }
      AgreeingIsDense(target, context, init);
      DenseSplit(target, context, |init|, 1);
      var soFar := context + init;
      assert Dense(target, soFar, 1) == soFar + [target(soFar)];
      assert context + tokens == soFar + [last];
    } else {
      assert context + tokens == context;
    }
  }

  /** A round makes progress and its tokens are those of dense decoding. */
  lemma RoundIsDense(target: Argmax, context: seq<int>, draft: seq<int>) returns (n: nat)
    ensures 1 <= n <= |draft| + 1
    ensures Round(target, context, draft) == Dense(target, context, n)
  {
    var best := VerifyPass(target, context, draft);
    var row := GreedyRow(draft, best, target(context + draft));
    n := |row|;
    forall i | 0 <= i < |row| ensures row[i] == target(context + row[..i]) {
      if i < |draft| {
        assert row[i] == best[i];
        assert row[..i] == draft[..i];
      } else {
        assert row[..i] == draft && i == |draft|;
      }
    }
    AgreeingIsDense(target, context, row);
  }

  /** How many draft tokens a round accepts: as many as dense decoding would have produced itself. */
  lemma AcceptedExactly(target: Argmax, context: seq<int>, draft: seq<int>, k: nat)
    requires k <= |draft|
    ensures |Round(target, context, draft)| > |context| + k <==> context + draft[..k] == Dense(target, context, k)
  {
    var best := VerifyPass(target, context, draft);
    var row := GreedyRow(draft, best, target(context + draft));
    if |row| > k {
      assert row[..k] == draft[..k];
      AgreeingPrefix(target, context, draft, k);
    } else {
      var i := |row| - 1;
      assert draft[i] != best[i] && draft[..k][..i] == draft[..i];
      if context + draft[..k] == Dense(target, context, k) {
        DenseTokens(target, context, draft[..k], i);
      }
    }
  }

  lemma AgreeingPrefix(target: Argmax, context: seq<int>, draft: seq<int>, k: nat)
    requires k <= |draft| && forall i :: 0 <= i < k ==> draft[i] == VerifyPass(target, context, draft)[i]
    ensures context + draft[..k] == Dense(target, context, k)
  {
    var tokens := draft[..k];
    forall i | 0 <= i < |tokens| ensures tokens[i] == target(context + tokens[..i]) {
      assert tokens[..i] == draft[..i];
    }
    AgreeingIsDense(target, context, tokens);
  }

  /** Each token of dense decoding is the target's choice after those before it. */
  lemma {:induction false} DenseTokens(target: Argmax, context: seq<int>, tokens: seq<int>, i: nat)
    requires context + tokens == Dense(target, context, |tokens|) && i < |tokens|
    ensures tokens[i] == target(context + tokens[..i])
    decreases i
  {
    var next := context + [target(context)];
    assert next <= context + tokens;
    assert tokens[0] == (context + tokens)[|context|] == target(context);
    if i == 0 {
      assert context + tokens[..0] == context;
    } else {
      assert next + tokens[1..] == context + tokens;
      DenseTokens(target, next, tokens[1..], i - 1);
      assert next + tokens[1..][..i - 1] == context + tokens[..i];
    }
  }

  /** Any number of rounds, each with any draft. */
  ghost function Rounds(target: Argmax, context: seq<int>, drafts: seq<seq<int>>): seq<int>
    decreases |drafts|
  {
    if drafts == [] then context else Rounds(target, Round(target, context, drafts[0]), drafts[1..])
  }

  /** Losslessness of greedy speculative decoding over whole runs. */
  lemma {:induction false} RunsAreDense(target: Argmax, context: seq<int>, drafts: seq<seq<int>>) returns (n: nat)
    ensures n >= |drafts|
    ensures Rounds(target, context, drafts) == Dense(target, context, n)
    decreases |drafts|
  {
    if drafts == [] {
      n := 0;
    } else {
      var first := RoundIsDense(target, context, drafts[0]);
      var rest := RunsAreDense(target, Round(target, context, drafts[0]), drafts[1..]);
      DenseSplit(target, context, first, rest);
      n := first + rest;
    }
  }
}
