/**
 One position of a random request: drafting from any distribution, testing, and substituting on
 rejection emits every token with its target probability. Probabilities are exact reals.
 */
module RandomDecoding {
  import opened Residuals
  import opened RejectionSampler

  ghost function Total(d: Dist): real {
    if d == [] then 0.0 else Total(d[..|d| - 1]) + d[|d| - 1]
  }

  ghost predicate IsDist(d: Dist, vocab: nat) {
    |d| == vocab && Total(d) == 1.0 && forall x :: 0 <= x < vocab ==> d[x] >= 0.0
  }

  lemma {:induction false} TotalBounds(d: Dist, x: nat)
    requires x < |d| && forall i :: 0 <= i < |d| ==> d[i] >= 0.0
    ensures 0.0 <= d[x] <= Total(d)
  {
    var init := d[..|d| - 1];
    if x < |d| - 1 { TotalBounds(init, x); } else { TotalNotNegative(init); }
  }

  lemma {:induction false} TotalNotNegative(d: Dist)
    requires forall i :: 0 <= i < |d| ==> d[i] >= 0.0
    ensures Total(d) >= 0.0
  {
    if d != [] { TotalNotNegative(d[..|d| - 1]); }
  }

  /** Sequences that balance element by element balance in total. */
  lemma {:induction false} TotalsBalance(a: Dist, b: Dist, c: Dist, d: Dist)
    requires |a| == |b| == |c| == |d| && forall i :: 0 <= i < |a| ==> a[i] + b[i] == c[i] + d[i]
    ensures Total(a) + Total(b) == Total(c) + Total(d)
  {
    if a != [] {
      var n := |a| - 1;
      TotalsBalance(a[..n], b[..n], c[..n], d[..n]);
    }
  }

  /** `b` is `k` times `a`. */
  ghost predicate IsMultiple(a: Dist, k: real, b: Dist) {
    |a| == |b| && forall i {:trigger MultipleAt(a, k, b, i)} :: 0 <= i < |a| ==> MultipleAt(a, k, b, i)
  }

  ghost predicate MultipleAt(a: Dist, k: real, b: Dist, i: nat) {
    i < |a| && i < |b| && b[i] == k * a[i]
  }

  lemma {:induction false} TotalOfMultiple(a: Dist, k: real, b: Dist)
    requires IsMultiple(a, k, b)
    ensures Total(b) == k * Total(a)
  {
    if a != [] {
      var n := |a| - 1;
      forall i | 0 <= i < n ensures MultipleAt(a[..n], k, b[..n], i) { assert MultipleAt(a, k, b, i); }
      TotalOfMultiple(a[..n], k, b[..n]);
      assert MultipleAt(a, k, b, n);
      Distribute(k, Total(a[..n]), a[n]);
    }
  }

  lemma Distribute(k: real, x: real, y: real)
    ensures k * (x + y) == k * x + k * y
  {
  }

  // ----- The acceptance test

  /** The probability that a draft token passes the test, over uniform draws from [0, 1). */
  ghost function AcceptProb(target: real, draft: real): real {
    if draft <= 0.0 then 0.0 else if target >= draft then 1.0 else target / draft
  }

  /** That probability is the measure of the passing draws: those below it pass, those above it fail. */
  lemma AcceptProbIsMeasure(target: real, draft: real, u: real)
    requires 0.0 <= target && 0.0 <= draft && 0.0 <= u < 1.0
    ensures 0.0 <= AcceptProb(target, draft) <= 1.0
    ensures u < AcceptProb(target, draft) ==> Accepts(target, draft, u)
    ensures u > AcceptProb(target, draft) ==> !Accepts(target, draft, u)
  {
    if draft > 0.0 {
      if target >= draft { AtLeastOne(target, draft); } else { LessThanOne(target, draft); }
    }
  }

  lemma AtLeastOne(x: real, y: real)
    requires x >= y > 0.0
    ensures x / y >= 1.0
  {
  }

  lemma LessThanOne(x: real, y: real)
    requires y > x >= 0.0
    ensures 0.0 <= x / y < 1.0
  {
  }

  ghost function Lesser(x: real, y: real): real { if x <= y then x else y }

  /** Drafting a token and accepting it has the smaller of the two probabilities. */
  lemma DraftAndAccept(target: real, draft: real)
    requires 0.0 <= target && 0.0 <= draft
    ensures draft * AcceptProb(target, draft) == Lesser(target, draft)
  {
    if draft > 0.0 && target < draft { TimesQuotient(target, draft); }
  }

  lemma DraftAndReject(target: real, draft: real)
    requires 0.0 <= target && 0.0 <= draft
    ensures draft * (1.0 - AcceptProb(target, draft)) == Excess(draft, target)
  {
    if draft > 0.0 && target < draft { TimesQuotient(target, draft); }
  }

  lemma TimesQuotient(x: real, y: real)
    requires y > 0.0
    ensures y * (x / y) == x && y * (1.0 - x / y) == y - x
  {
  }

  // ----- One position

  /** Drafted and accepted, token by token. */
  ghost function Accepted(p: Dist, q: Dist): (r: Dist)
    requires |p| == |q|
    ensures |r| == |p|
  {
    seq(|p|, x requires 0 <= x < |p| => q[x] * AcceptProb(p[x], q[x]))
  }

  lemma AcceptedAt(p: Dist, q: Dist, x: nat)
    requires x < |p| == |q| && 0.0 <= p[x] && 0.0 <= q[x]
    ensures Accepted(p, q)[x] == q[x] * AcceptProb(p[x], q[x]) == Lesser(p[x], q[x])
  {
    DraftAndAccept(p[x], q[x]);
  }

  /** Drafted and rejected, token by token. */
  ghost function Rejected(p: Dist, q: Dist): (r: Dist)
    requires |p| == |q|
    ensures |r| == |p|
  {
    seq(|p|, x requires 0 <= x < |p| => q[x] * (1.0 - AcceptProb(p[x], q[x])))
  }

  lemma RejectedAt(p: Dist, q: Dist, x: nat)
    requires x < |p| == |q| && 0.0 <= p[x] && 0.0 <= q[x]
    ensures Rejected(p, q)[x] == q[x] * (1.0 - AcceptProb(p[x], q[x])) == Excess(q[x], p[x])
  {
    DraftAndReject(p[x], q[x]);
  }

  /** The probability of rejecting at this position. */
  ghost function RejectProb(p: Dist, q: Dist): real
    requires |p| == |q|
  {
    Total(Rejected(p, q))
  }

  /** Rejections weigh what the residual weighs. */
  lemma RejectIsResidual(p: Dist, q: Dist, vocab: nat)
    requires IsDist(p, vocab) && IsDist(q, vocab)
    ensures RejectProb(p, q) == Total(Residual(p, q))
  {
    forall x | 0 <= x < vocab ensures p[x] + Rejected(p, q)[x] == q[x] + Residual(p, q)[x] { RejectedAt(p, q, x); }
    TotalsBalance(p, Rejected(p, q), q, Residual(p, q));
  }

  ghost function PointMass(d: nat, vocab: nat): (r: Dist)
    requires d < vocab
    ensures |r| == vocab && forall x :: 0 <= x < vocab ==> r[x] == if x == d then 1.0 else 0.0
  {
    seq(vocab, x => if x == d then 1.0 else 0.0)
  }

  lemma PointMassIsDist(d: nat, vocab: nat)
    requires d < vocab
    ensures IsDist(PointMass(d, vocab), vocab)
  {
    PointMassTotal(PointMass(d, vocab), d, vocab);
  }

  lemma {:induction false} PointMassTotal(r: Dist, d: nat, n: nat)
    requires |r| == n && forall x :: 0 <= x < n ==> r[x] == if x == d then 1.0 else 0.0
    ensures Total(r) == if d < n then 1.0 else 0.0
  {
    if n > 0 { PointMassTotal(r[..n - 1], d, n - 1); }
  }

  /**
   The law of the substitute: the normalised residual. Where nothing is left the first token is
   taken, as the recovered token is.
   */
  ghost function SubstituteLaw(p: Dist, q: Dist, vocab: nat): (r: Dist)
    requires |p| == |q| == vocab && vocab > 0
    ensures |r| == vocab
  {
    var left := Total(Residual(p, q));
    if left == 0.0 then PointMass(0, vocab) else seq(vocab, x requires 0 <= x < vocab => Residual(p, q)[x] / left)
  }

  lemma NormalisedAt(p: Dist, q: Dist, vocab: nat, left: real, x: nat)
    requires |p| == |q| == vocab && x < vocab && left == Total(Residual(p, q)) && left > 0.0
    ensures MultipleAt(SubstituteLaw(p, q, vocab), left, Residual(p, q), x)
  {
    TimesQuotient(Residual(p, q)[x], left);
  }

  /** Rejecting weighs the substitutes by what the draft distribution lacks. */
  lemma SubstituteAt(p: Dist, q: Dist, vocab: nat, x: nat)
    requires IsDist(p, vocab) && IsDist(q, vocab) && x < vocab
    ensures SubstituteLaw(p, q, vocab)[x] >= 0.0
    ensures RejectProb(p, q) * SubstituteLaw(p, q, vocab)[x] == Excess(p[x], q[x])
  {
    var left := Total(Residual(p, q));
    RejectIsResidual(p, q, vocab);
    TotalBounds(Residual(p, q), x);
    if left != 0.0 {
      NormalisedAt(p, q, vocab, left, x);
      QuotientSign(Residual(p, q)[x], left);
    }
  }

  lemma DistNotEmpty(d: Dist, vocab: nat)
    requires IsDist(d, vocab)
    ensures vocab > 0
  {
  }

  /** It is a distribution. */
  lemma SubstituteIsDist(p: Dist, q: Dist, vocab: nat)
    requires IsDist(p, vocab) && IsDist(q, vocab)
    ensures vocab > 0 && IsDist(SubstituteLaw(p, q, vocab), vocab)
  {
    if Total(Residual(p, q)) == 0.0 {
      PointMassIsDist(0, vocab);
    } else {
      forall x | 0 <= x < vocab ensures SubstituteLaw(p, q, vocab)[x] >= 0.0 { SubstituteAt(p, q, vocab, x); }
      NormalisedTotal(p, q, vocab, Total(Residual(p, q)));
    }
  }

  lemma NormalisedTotal(p: Dist, q: Dist, vocab: nat, left: real)
    requires |p| == |q| == vocab && vocab > 0 && left == Total(Residual(p, q)) && left != 0.0
    ensures Total(SubstituteLaw(p, q, vocab)) == 1.0
  {
    var law := SubstituteLaw(p, q, vocab);
    TotalNotNegative(Residual(p, q));
    forall x | 0 <= x < vocab ensures MultipleAt(law, left, Residual(p, q), x) { NormalisedAt(p, q, vocab, left, x); }
    TotalOfMultiple(law, left, Residual(p, q));
    OneTimes(left, Total(law), Total(Residual(p, q)));
  }

  lemma OneTimes(x: real, y: real, product: real)
    requires x != 0.0 && product == x * y && product == x
    ensures y == 1.0
  {
    assert x * (y - 1.0) == x * y - x;
  }

  /** The emitted token, accepted or substituted, has exactly the target distribution. */
  lemma EmittedIsTarget(p: Dist, q: Dist, vocab: nat, x: nat)
    requires IsDist(p, vocab) && IsDist(q, vocab) && x < vocab
    ensures Accepted(p, q)[x] + RejectProb(p, q) * SubstituteLaw(p, q, vocab)[x] == p[x]
  {
    AcceptedAt(p, q, x);
    SubstituteAt(p, q, vocab, x);
  }

  /** A draft without probabilities is a draft from a point mass: its masked target is that residual. */
  lemma NoDraftProbsIsPointMass(p: Dist, vocab: nat, d: nat)
    requires IsDist(p, vocab) && d < vocab
    ensures Residual(p, PointMass(d, vocab)) == MaskedTarget(p, d)
  {
    forall x | 0 <= x < vocab ensures Residual(p, PointMass(d, vocab))[x] == MaskedTarget(p, d)[x] {
      TotalBounds(p, x);
    }
  }

  lemma RejectedIsExcess(target: real, draft: real, u: real)
    requires 0.0 <= target && draft > 0.0 && 0.0 <= u < 1.0 && !Accepts(target, draft, u)
    ensures target < draft
  {
    if target >= draft { AtLeastOne(target, draft); }
  }

  /** Where a draft token has too much probability, some other token has too little. */
  lemma SomethingLeft(p: Dist, q: Dist, vocab: nat, d: nat) returns (v: nat)
    requires IsDist(p, vocab) && IsDist(q, vocab) && d < vocab && p[d] < q[d]
    ensures v < vocab && Residual(p, q)[v] > 0.0
  {
    RejectedAt(p, q, d);
    TotalBounds(Rejected(p, q), d);
    RejectIsResidual(p, q, vocab);
    v := PositiveSomewhere(Residual(p, q));
  }

  lemma {:induction false} PositiveSomewhere(d: Dist) returns (v: nat)
    requires Total(d) > 0.0
    ensures v < |d| && d[v] > 0.0
  {
    v := |d| - 1;
    if d[v] <= 0.0 { v := PositiveSomewhere(d[..v]); }
  }

  /** A rejected draft token is never what is recovered, whatever the noise. */
  lemma RejectedNotRecovered(p: Dist, q: Dist, vocab: nat, d: nat, u: real, noise: seq<real>)
    requires IsDist(p, vocab) && IsDist(q, vocab) && d < vocab && 0.0 <= u < 1.0
    requires q[d] > 0.0 && !Accepts(p[d], q[d], u) && Scores(Residual(p, q), noise)
    ensures !IsRecovered(Residual(p, q), noise, d)
  {
    RejectedIsExcess(p[d], q[d], u);
    var v := SomethingLeft(p, q, vocab, d);
    if IsRecovered(Residual(p, q), noise, d) { RecoveredFromResidual(Residual(p, q), noise, d); }
  }

  // ----- The kernels in these terms

  /** The law that the draft token at flat position `i` was drawn from; without probabilities it is a point mass. */
  ghost function LawAt(probs: Probs, draftIds: seq<int>, vocab: nat, i: nat): (q: Dist)
    requires ValidProbs(probs, draftIds, vocab) && i < |draftIds|
    ensures |q| == vocab
  {
    if probs.noDraftProbs then PointMass(draftIds[i], vocab) else probs.draft[i]
  }

  lemma QuotientAtLeast(x: real, y: real, u: real)
    requires y > 0.0
    ensures x / y >= u <==> x >= u * y
  {
    TimesQuotient(x, y);
    ScaledOrder(x / y, u, y);
  }

  lemma ScaledOrder(a: real, b: real, y: real)
    requires y > 0.0
    ensures a >= b <==> a * y >= b * y
  {
    assert (a - b) * y == a * y - b * y;
    if a > b { PositiveProduct(a - b, y); }
    if a < b { PositiveProduct(b - a, y); }
  }

  lemma PositiveProduct(x: real, y: real)
    requires x > 0.0 && y > 0.0
    ensures x * y > 0.0 && (0.0 - x) * y < 0.0
  {
  }

  /** The kernel accepts a draft token exactly when its target probability is at least the draw's part of its law. */
  lemma KernelAcceptsIff(d: Draws, draftIds: seq<int>, vocab: nat, i: nat)
    requires ValidDraws(d, draftIds, vocab) && i < |draftIds|
    ensures var x := draftIds[i]; var q := LawAt(d.probs, draftIds, vocab, i)[x];
      Acceptance(d, draftIds, vocab)[i] <==> q > 0.0 && d.probs.target[i][x] >= d.uniform[i] * q
  {
    assert Acceptance(d, draftIds, vocab)[i] == AcceptsAt(d, draftIds, vocab, i);
    var x := draftIds[i];
    var q := LawAt(d.probs, draftIds, vocab, i)[x];
    if q > 0.0 { QuotientAtLeast(d.probs.target[i][x], q, d.uniform[i]); }
  }

  /** Over uniform draws from [0, 1), the kernel accepts with the probability that the law of a round counts with. */
  lemma KernelAcceptProb(d: Draws, draftIds: seq<int>, vocab: nat, i: nat)
    requires ValidDraws(d, draftIds, vocab) && i < |draftIds| && 0.0 <= d.uniform[i] < 1.0
    requires 0.0 <= d.probs.target[i][draftIds[i]] && 0.0 <= LawAt(d.probs, draftIds, vocab, i)[draftIds[i]]
    ensures var x := draftIds[i]; var accept := AcceptProb(d.probs.target[i][x], LawAt(d.probs, draftIds, vocab, i)[x]);
      && (d.uniform[i] < accept ==> Acceptance(d, draftIds, vocab)[i])
      && (d.uniform[i] > accept ==> !Acceptance(d, draftIds, vocab)[i])
  {
    var x := draftIds[i];
    assert Acceptance(d, draftIds, vocab)[i] == AcceptsAt(d, draftIds, vocab, i);
    AcceptProbIsMeasure(d.probs.target[i][x], LawAt(d.probs, draftIds, vocab, i)[x], d.uniform[i]);
  }

  /** What the kernel recovers from is what the target has more of than the draft token's law. */
  lemma KernelResidual(probs: Probs, draftIds: seq<int>, vocab: nat, i: nat)
    requires ValidProbs(probs, draftIds, vocab) && i < |draftIds| && IsDist(probs.target[i], vocab)
    ensures ResidualAt(probs, draftIds, vocab, i) == Residual(probs.target[i], LawAt(probs, draftIds, vocab, i))
  {
    if probs.noDraftProbs { NoDraftProbsIsPointMass(probs.target[i], vocab, draftIds[i]); }
  }
}
