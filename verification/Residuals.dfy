/** Distributions over tokens, what a draft distribution leaves of the target's, and drawing from it. */
module Residuals {
  /** Exact probabilities, indexed by token. */
  type Dist = seq<real>

  function Excess(x: real, y: real): real { if x > y then x - y else 0.0 }

  /** What the recovered token is drawn from, before normalisation. */
  function Residual(p: Dist, q: Dist): (r: Dist)
    requires |p| == |q|
    ensures |r| == |p| && forall x :: 0 <= x < |p| ==> r[x] == Excess(p[x], q[x])
  {
    seq(|p|, x requires 0 <= x < |p| => Excess(p[x], q[x]))
  }

  /** The same for a draft without probabilities: the target's distribution without the draft token. */
  function MaskedTarget(p: Dist, draft: int): (r: Dist)
    ensures |r| == |p| && forall x :: 0 <= x < |p| ==> r[x] == if x == draft then 0.0 else p[x]
  {
    seq(|p|, x requires 0 <= x < |p| => if x == draft then 0.0 else p[x])
  }

  // ----- The recovered token

  ghost predicate Scores(residual: Dist, noise: seq<real>) {
    |residual| == |noise| && forall v :: 0 <= v < |residual| ==> residual[v] >= 0.0 && noise[v] > 0.0
  }

  lemma QuotientSign(x: real, y: real)
    requires x >= 0.0 && y > 0.0
    ensures x / y >= 0.0 && (x > 0.0 <==> x / y > 0.0)
  {
    if x > 0.0 { PositiveQuotient(x, y); }
  }

  lemma PositiveQuotient(x: real, y: real)
    requires x > 0.0 && y > 0.0
    ensures x / y > 0.0
  {
  }

  function Score(residual: Dist, noise: seq<real>, v: nat): real
    requires Scores(residual, noise) && v < |residual|
  {
    residual[v] / noise[v]
  }

  /** The first token with the largest ratio of residual to noise. */
  ghost predicate IsRecovered(residual: Dist, noise: seq<real>, best: int)
    requires Scores(residual, noise)
  {
    && 0 <= best < |residual|
    && (forall v :: 0 <= v < |residual| ==> Score(residual, noise, v) <= Score(residual, noise, best))
    && (forall v :: 0 <= v < best ==> Score(residual, noise, v) < Score(residual, noise, best))
  }

  /** `sample_recovered_tokens_kernel` at one position. */
  method RecoverToken(residual: Dist, noise: seq<real>) returns (best: nat)
    requires Scores(residual, noise) && residual != []
    ensures IsRecovered(residual, noise, best)
  {
    best := 0;
    for v := 1 to |residual|
      invariant best < |residual| && best < v
      invariant forall w :: 0 <= w < v ==> Score(residual, noise, w) <= Score(residual, noise, best)
      invariant forall w :: 0 <= w < best ==> Score(residual, noise, w) < Score(residual, noise, best)
    {
      if Score(residual, noise, v) > Score(residual, noise, best) {
        best := v;
      }
    }
  }

  /** A token outside the residual is recovered only when the residual is empty, and then it is the first one. */
  lemma RecoveredFromResidual(residual: Dist, noise: seq<real>, best: nat)
    requires Scores(residual, noise) && IsRecovered(residual, noise, best)
    ensures (exists v :: 0 <= v < |residual| && residual[v] > 0.0) ==> residual[best] > 0.0
    ensures (forall v :: 0 <= v < |residual| ==> residual[v] == 0.0) ==> best == 0
  {
    QuotientSign(residual[best], noise[best]);
    if v :| 0 <= v < |residual| && residual[v] > 0.0 {
      QuotientSign(residual[v], noise[v]);
      assert Score(residual, noise, v) <= Score(residual, noise, best);
    }
    QuotientSign(residual[0], noise[0]);
    assert best == 0 || Score(residual, noise, 0) < Score(residual, noise, best);
  }

  lemma QuotientOrder(x: real, y: real, a: real, b: real)
    requires a > 0.0 && b > 0.0
    ensures x / a <= y / b <==> x * b <= y * a
  {
    var p, q := x / a, y / b;
    assert x == p * a && y == q * b;
    ProductOrder(p, q, a, b);
  }

  lemma ProductOrder(p: real, q: real, a: real, b: real)
    requires a > 0.0 && b > 0.0
    ensures p <= q <==> (p * a) * b <= (q * b) * a
  {
    var ab := a * b;
    assert ab > 0.0 && (p * a) * b == p * ab && (q * b) * a == q * ab;
    assert (q - p) * ab == q * ab - p * ab;
  }

  /** Without dividing: no token has more residual for its noise than the recovered one. */
  lemma RecoveredWinsRace(residual: Dist, noise: seq<real>, best: nat, v: nat)
    requires Scores(residual, noise) && IsRecovered(residual, noise, best) && v < |residual|
    ensures residual[v] * noise[best] <= residual[best] * noise[v]
  {
    QuotientOrder(residual[v], residual[best], noise[v], noise[best]);
    assert Score(residual, noise, v) <= Score(residual, noise, best);
  }
}
