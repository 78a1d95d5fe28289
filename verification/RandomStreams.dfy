/**
 Whole runs of random requests. A round drafts, tests, draws substitutes and a bonus token, and
 emits exactly the verified row of these draws. Whatever the drafter does, and however it depends
 on everything that happened before, the emitted stream has the law of the target model.
 */
module RandomStreams {
  import opened Basics
  import opened Residuals
  import opened RejectionSampler
  import opened RandomDecoding

  // ----- Finite expectations

  ghost function Terms(d: Dist, v: seq<real>): (t: seq<real>)
    requires |d| == |v|
    ensures |t| == |d|
  {
    seq(|d|, i requires 0 <= i < |d| => d[i] * v[i])
  }

  /** The mean of `v` under `d`. */
  ghost function Mean(d: Dist, v: seq<real>): real
    requires |d| == |v|
  {
    Total(Terms(d, v))
  }

  ghost predicate Constant(v: seq<real>, c: real) { forall i :: 0 <= i < |v| ==> v[i] == c }

  lemma MeanOfConstant(d: Dist, v: seq<real>, c: real)
    requires |d| == |v| && Constant(v, c) && Total(d) == 1.0
    ensures Mean(d, v) == c
  {
    forall i | 0 <= i < |d| ensures MultipleAt(d, c, Terms(d, v), i) { Commute(d[i], c); }
    TotalOfMultiple(d, c, Terms(d, v));
  }

  lemma Commute(x: real, y: real)
    ensures x * y == y * x
  {
  }

  lemma {:induction false} TotalOfPoint(t: Dist, x: nat)
    requires x < |t| && forall i :: 0 <= i < |t| && i != x ==> t[i] == 0.0
    ensures Total(t) == t[x]
  {
    var n := |t| - 1;
    if x < n { TotalOfPoint(t[..n], x); } else { TotalOfZeros(t[..n]); }
  }

  lemma {:induction false} TotalOfZeros(t: Dist)
    requires forall i :: 0 <= i < |t| ==> t[i] == 0.0
    ensures Total(t) == 0.0
  {
    if t != [] { TotalOfZeros(t[..|t| - 1]); }
  }

  lemma MeanOfPoint(d: Dist, v: seq<real>, x: nat)
    requires x < |d| == |v| && forall i :: 0 <= i < |v| && i != x ==> v[i] == 0.0
    ensures Mean(d, v) == d[x] * v[x]
  {
    forall i | 0 <= i < |d| && i != x ensures Terms(d, v)[i] == 0.0 { TimesZero(d[i]); }
    TotalOfPoint(Terms(d, v), x);
  }

  lemma TimesZero(x: real)
    ensures x * 0.0 == 0.0
  {
  }

  // ----- One position: draft, test, substitute

  /** `hit` with probability `a`, otherwise `miss`. */
  ghost function Mixed(a: real, hit: real, miss: real): real { a * hit + (1.0 - a) * miss }

  /** The value after drafting `x`: `v[x]` when it is accepted, the mean `c` of the substitutes when it is not. */
  ghost predicate MixAt(p: Dist, q: Dist, u: seq<real>, v: seq<real>, c: real, x: nat)
    requires |p| == |q| == |u| == |v|
  {
    x < |u| && u[x] == Mixed(AcceptProb(p[x], q[x]), v[x], c)
  }

  ghost predicate Mixes(p: Dist, q: Dist, u: seq<real>, v: seq<real>, c: real)
    requires |p| == |q| == |u| == |v|
  {
    forall x {:trigger MixAt(p, q, u, v, c, x)} :: 0 <= x < |u| ==> MixAt(p, q, u, v, c, x)
  }

  ghost function Multiplied(k: real, d: Dist): (r: Dist)
    ensures |r| == |d|
  {
    seq(|d|, i requires 0 <= i < |d| => k * d[i])
  }

  lemma TotalMultiplied(k: real, d: Dist)
    ensures Total(Multiplied(k, d)) == k * Total(d)
  {
    forall i | 0 <= i < |d| ensures MultipleAt(d, k, Multiplied(k, d), i) { }
    TotalOfMultiple(d, k, Multiplied(k, d));
  }

  /** Four sequences balance at `x`. */
  ghost predicate BalancedAt(a: Dist, b: Dist, c: Dist, d: Dist, x: nat) {
    x < |a| && x < |b| && x < |c| && x < |d| && a[x] + b[x] == c[x] + d[x]
  }

  ghost predicate Balanced(a: Dist, b: Dist, c: Dist, d: Dist) {
    && |a| == |b| == |c| == |d|
    && forall x {:trigger BalancedAt(a, b, c, d, x)} :: 0 <= x < |a| ==> BalancedAt(a, b, c, d, x)
  }

  lemma BalancedTotals(a: Dist, b: Dist, c: Dist, d: Dist)
    requires Balanced(a, b, c, d)
    ensures Total(a) + Total(b) == Total(c) + Total(d)
  {
    forall x | 0 <= x < |a| ensures a[x] + b[x] == c[x] + d[x] { assert BalancedAt(a, b, c, d, x); }
    TotalsBalance(a, b, c, d);
  }

  lemma Balance(q: real, a: real, v: real, c: real, reject: real, law: real, p: real)
    requires q * a + reject * law == p
    ensures q * (a * v + (1.0 - a) * c) + reject * (law * v) == p * v + c * (q * (1.0 - a))
  {
    assert q * (a * v) == (q * a) * v;
    assert q * ((1.0 - a) * c) == c * (q * (1.0 - a));
    assert reject * (law * v) == (reject * law) * v;
    assert (q * a) * v + (reject * law) * v == (q * a + reject * law) * v;
  }

  lemma EmittedMass(p: Dist, q: Dist, vocab: nat, x: nat)
    requires IsDist(p, vocab) && IsDist(q, vocab) && x < vocab
    ensures q[x] * AcceptProb(p[x], q[x]) + RejectProb(p, q) * SubstituteLaw(p, q, vocab)[x] == p[x]
  {
    EmittedIsTarget(p, q, vocab, x);
    AcceptedAt(p, q, x);
  }

  /** What is drafted, tested and substituted at one token balances with what the target draws there. */
  lemma BalanceAt(p: Dist, q: Dist, vocab: nat, u: seq<real>, v: seq<real>, c: real, x: nat)
    requires IsDist(p, vocab) && IsDist(q, vocab) && |u| == |v| == vocab && x < vocab && MixAt(p, q, u, v, c, x)
    ensures BalancedAt(Terms(q, u), Multiplied(RejectProb(p, q), Terms(SubstituteLaw(p, q, vocab), v)),
                       Terms(p, v), Multiplied(c, Rejected(p, q)), x)
  {
    EmittedMass(p, q, vocab, x);
    RejectedAt(p, q, x);
    BalanceSeqs(p, q, u, v, SubstituteLaw(p, q, vocab), Rejected(p, q), AcceptProb(p[x], q[x]), RejectProb(p, q), c, x);
  }

  lemma BalanceSeqs(p: Dist, q: Dist, u: seq<real>, v: seq<real>, law: Dist, rejected: Dist, a: real, reject: real,
                    c: real, x: nat)
    requires x < |p| == |q| == |u| == |v| == |law| == |rejected|
    requires u[x] == a * v[x] + (1.0 - a) * c && rejected[x] == q[x] * (1.0 - a) && q[x] * a + reject * law[x] == p[x]
    ensures BalancedAt(Terms(q, u), Multiplied(reject, Terms(law, v)), Terms(p, v), Multiplied(c, rejected), x)
  {
    Balance(q[x], a, v[x], c, reject, law[x], p[x]);
  }

  lemma MixBalances(p: Dist, q: Dist, vocab: nat, u: seq<real>, v: seq<real>, c: real)
    requires IsDist(p, vocab) && IsDist(q, vocab) && vocab > 0 && |u| == |v| == vocab && Mixes(p, q, u, v, c)
    ensures Balanced(Terms(q, u), Multiplied(RejectProb(p, q), Terms(SubstituteLaw(p, q, vocab), v)),
                     Terms(p, v), Multiplied(c, Rejected(p, q)))
  {
    var a, b := Terms(q, u), Multiplied(RejectProb(p, q), Terms(SubstituteLaw(p, q, vocab), v));
    var e, f := Terms(p, v), Multiplied(c, Rejected(p, q));
    forall x | 0 <= x < vocab ensures BalancedAt(a, b, e, f, x) {
      assert MixAt(p, q, u, v, c, x);
      BalanceAt(p, q, vocab, u, v, c, x);
    }
  }

  /** Drafting from any distribution, testing and substituting has the mean of the target's own draw. */
  lemma MixIsTarget(p: Dist, q: Dist, vocab: nat, u: seq<real>, v: seq<real>, c: real)
    requires IsDist(p, vocab) && IsDist(q, vocab) && vocab > 0 && |u| == |v| == vocab
    requires c == Mean(SubstituteLaw(p, q, vocab), v) && Mixes(p, q, u, v, c)
    ensures Mean(q, u) == Mean(p, v)
  {
    var drawn := Terms(SubstituteLaw(p, q, vocab), v);
    MixBalances(p, q, vocab, u, v, c);
    BalancedTotals(Terms(q, u), Multiplied(RejectProb(p, q), drawn), Terms(p, v), Multiplied(c, Rejected(p, q)));
    BothWays(drawn, Rejected(p, q), c, RejectProb(p, q));
  }

  /** What is substituted in all equals what is rejected in all, at the mean of the substitutes. */
  lemma BothWays(drawn: Dist, rejected: Dist, c: real, reject: real)
    requires c == Total(drawn) && reject == Total(rejected)
    ensures Total(Multiplied(reject, drawn)) == Total(Multiplied(c, rejected))
  {
    TotalMultiplied(reject, drawn);
    TotalMultiplied(c, rejected);
    Commute(reject, c);
  }

  // ----- The target's own stream

  /** A model: the law of the next token after a context. */
  type Model = seq<int> -> Dist

  ghost predicate IsModel(m: Model, vocab: nat) {
    forall context: seq<int> :: IsDist(m(context), vocab)
  }

  ghost predicate InVocab(y: seq<int>, vocab: nat) {
    forall i :: 0 <= i < |y| ==> 0 <= y[i] < vocab
  }

  /** The probability that the target model's own stream continues with `y`. */
  ghost function TargetProb(target: Model, vocab: nat, context: seq<int>, y: seq<int>): real
    requires IsModel(target, vocab) && InVocab(y, vocab)
    decreases |y|
  {
    if y == [] then 1.0
    else target(context)[y[0]] * TargetProb(target, vocab, context + [y[0]], y[1..])
  }

  /** The probability that the target's stream continues with `y` once `row` has been emitted. */
  ghost function RowValue(target: Model, vocab: nat, context: seq<int>, y: seq<int>, row: seq<int>): real
    requires IsModel(target, vocab) && InVocab(y, vocab)
  {
    if y <= row then 1.0
    else if row <= y then TargetProb(target, vocab, context + row, y[|row|..])
    else 0.0
  }

  ghost function NextValues(target: Model, vocab: nat, context: seq<int>, y: seq<int>, row: seq<int>): (v: seq<real>)
    requires IsModel(target, vocab) && InVocab(y, vocab)
    ensures |v| == vocab && forall x :: 0 <= x < vocab ==> v[x] == RowValue(target, vocab, context, y, row + [x])
  {
    seq(vocab, x => RowValue(target, vocab, context, y, row + [x]))
  }

  /** Emitting one more token from the target's distribution changes nothing in the mean. */
  lemma NextFromTarget(target: Model, vocab: nat, context: seq<int>, y: seq<int>, row: seq<int>)
    requires IsModel(target, vocab) && InVocab(y, vocab)
    ensures |target(context + row)| == vocab
    ensures Mean(target(context + row), NextValues(target, vocab, context, y, row))
         == RowValue(target, vocab, context, y, row)
  {
    var p, v := target(context + row), NextValues(target, vocab, context, y, row);
    assert IsDist(p, vocab);
    if y <= row {
      forall x | 0 <= x < vocab ensures v[x] == 1.0 { LongerStill(y, row, x); }
      MeanOfConstant(p, v, 1.0);
    } else if row <= y {
      NextWithin(target, vocab, context, y, row, y[|row|]);
    } else {
      forall x | 0 <= x < vocab ensures v[x] == 0.0 { StillApart(y, row, x); }
      MeanOfConstant(p, v, 0.0);
    }
  }

  lemma LongerStill(y: seq<int>, row: seq<int>, x: int)
    requires y <= row
    ensures y <= row + [x]
  {
  }

  lemma StillApart(y: seq<int>, row: seq<int>, x: int)
    requires !(y <= row) && !(row <= y)
    ensures !(y <= row + [x]) && !(row + [x] <= y)
  {
  }

  lemma NextOf(y: seq<int>, row: seq<int>, x: int)
    requires row <= y && row != y
    ensures row + [x] <= y <==> x == y[|row|]
    ensures y <= row + [x] <==> x == y[|row|] && |y| == |row| + 1
    ensures y[|row|..][1..] == y[|row| + 1..]
  {
  }

  /** Of all next tokens only the next one of `y` counts, with the value of the rest of `y`. */
  lemma OnlyNext(target: Model, vocab: nat, context: seq<int>, y: seq<int>, row: seq<int>, x: nat)
    requires IsModel(target, vocab) && InVocab(y, vocab) && row <= y && row != y && x < vocab
    ensures RowValue(target, vocab, context, y, row + [x])
         == if x == y[|row|] then TargetProb(target, vocab, context + row + [x], y[|row| + 1..]) else 0.0
  {
    NextOf(y, row, x);
    JoinAssociative(context, row, [x]);
  }

  /** A value at one token, nothing elsewhere. */
  ghost function OnlyAt(vocab: nat, next: int, value: real): (v: seq<real>)
    ensures |v| == vocab && forall x :: 0 <= x < vocab ==> v[x] == if x == next then value else 0.0
  {
    seq(vocab, x => if x == next then value else 0.0)
  }

  lemma MeanOnlyAt(p: Dist, next: int, value: real, mean: real)
    requires 0 <= next < |p| && mean == p[next] * value
    ensures Mean(p, OnlyAt(|p|, next, value)) == mean
  {
    MeanOfPoint(p, OnlyAt(|p|, next, value), next);
  }

  lemma TargetOfCons(target: Model, vocab: nat, context: seq<int>, y: seq<int>, next: int, rest: seq<int>)
    requires IsModel(target, vocab) && InVocab(y, vocab) && y != [] && next == y[0] && rest == y[1..]
    ensures TargetProb(target, vocab, context, y)
         == target(context)[next] * TargetProb(target, vocab, context + [next], rest)
  {
  }

  /** The target's stream as a mean over its next token. */
  lemma TargetMean(target: Model, vocab: nat, context: seq<int>, y: seq<int>, next: int, rest: seq<int>)
    requires IsModel(target, vocab) && InVocab(y, vocab) && y != [] && next == y[0] && rest == y[1..]
    ensures |target(context)| == vocab
    ensures Mean(target(context), OnlyAt(vocab, next, TargetProb(target, vocab, context + [next], rest)))
         == TargetProb(target, vocab, context, y)
  {
    assert IsDist(target(context), vocab);
    TargetOfCons(target, vocab, context, y, next, rest);
    MeanOnlyAt(target(context), next, TargetProb(target, vocab, context + [next], rest),
               TargetProb(target, vocab, context, y));
  }

  lemma NextValuesAre(target: Model, vocab: nat, context: seq<int>, y: seq<int>, row: seq<int>, next: int)
    requires IsModel(target, vocab) && InVocab(y, vocab) && row <= y && row != y && next == y[|row|]
    ensures NextValues(target, vocab, context, y, row)
         == OnlyAt(vocab, next, TargetProb(target, vocab, context + row + [next], y[|row| + 1..]))
  {
    forall x: nat | x < vocab
      ensures RowValue(target, vocab, context, y, row + [x])
           == if x == next then TargetProb(target, vocab, context + row + [next], y[|row| + 1..]) else 0.0
    {
      OnlyNext(target, vocab, context, y, row, x);
    }
  }

  lemma NextWithin(target: Model, vocab: nat, context: seq<int>, y: seq<int>, row: seq<int>, next: int)
    requires IsModel(target, vocab) && InVocab(y, vocab) && row <= y && row != y && next == y[|row|]
    ensures |target(context + row)| == vocab
    ensures Mean(target(context + row), NextValues(target, vocab, context, y, row))
         == TargetProb(target, vocab, context + row, y[|row|..])
  {
    NextValuesAre(target, vocab, context, y, row, next);
    NextOf(y, row, next);
    TargetMean(target, vocab, context + row, y[|row|..], next, y[|row| + 1..]);
  }

  // ----- Rounds

  /** What a finished round leaves to be seen: the text it began with, its drafts and the row it emitted. */
  datatype Seen = Seen(start: seq<int>, draft: seq<int>, row: seq<int>)

  /** A drafter for one round: whether it goes on and the law of its next token, given what it has drafted. */
  datatype Drafter = Drafter(maxTokens: nat, goesOn: seq<int> -> bool, law: Model)

  /** Any way of choosing the drafter of a round from the rounds before it and the text so far. */
  type Plan = (seq<Seen>, seq<int>) -> Drafter

  datatype Decoder = Decoder(target: Model, vocab: nat, plan: Plan)

  ghost predicate IsDecoder(d: Decoder) {
    && IsModel(d.target, d.vocab)
    && forall history: seq<Seen>, start: seq<int> :: IsModel(d.plan(history, start).law, d.vocab)
  }

  /** The draws of a round so far: drafts, results of the test, substitutes. */
  datatype Trial = Trial(draft: seq<int>, accepted: seq<bool>, substitute: seq<int>)

  ghost predicate IsTrial(r: Trial, drafter: Drafter) {
    |r.draft| == |r.accepted| == |r.substitute| <= drafter.maxTokens
  }

  ghost function Extend(r: Trial, x: int, bit: bool, z: int): Trial {
    Trial(r.draft + [x], r.accepted + [bit], r.substitute + [z])
  }

  /** The probability that the stream continues with `y`, from the start of a round. */
  ghost function StreamProb(d: Decoder, history: seq<Seen>, start: seq<int>, y: seq<int>): real
    requires IsDecoder(d) && InVocab(y, d.vocab)
    decreases |y|, 3, 0, 0
  {
    if y == [] then 1.0 else RoundProb(d, history, start, y, Trial([], [], []))
  }

  /**
   The same inside a round, as an expectation over the draws that are still to come: at each
   position a draft token, the result of its test and a substitute, and at the end the bonus token.
   */
  ghost function RoundProb(d: Decoder, history: seq<Seen>, start: seq<int>, y: seq<int>, r: Trial): real
    requires IsDecoder(d) && InVocab(y, d.vocab) && y != [] && IsTrial(r, d.plan(history, start))
    decreases |y|, 2, d.plan(history, start).maxTokens - |r.draft|, 3
  {
    var drafter := d.plan(history, start);
    if |r.draft| < drafter.maxTokens && drafter.goesOn(r.draft) then
      Mean(drafter.law(r.draft), DraftValues(d, history, start, y, r))
    else
      Mean(d.target(start + r.draft), BonusValues(d, history, start, y, r))
  }

  ghost function DraftValues(d: Decoder, history: seq<Seen>, start: seq<int>, y: seq<int>, r: Trial): (u: seq<real>)
    requires IsDecoder(d) && InVocab(y, d.vocab) && y != []
    requires IsTrial(r, d.plan(history, start)) && |r.draft| < d.plan(history, start).maxTokens
    ensures |u| == d.vocab
    decreases |y|, 2, d.plan(history, start).maxTokens - |r.draft|, 2
  {
    seq(d.vocab, x requires 0 <= x < d.vocab => DraftValue(d, history, start, y, r, x))
  }

  /** The value of drafting `x`: accepted or not, and over all substitutes. */
  ghost function DraftValue(d: Decoder, history: seq<Seen>, start: seq<int>, y: seq<int>, r: Trial, x: nat): real
    requires IsDecoder(d) && InVocab(y, d.vocab) && y != [] && x < d.vocab
    requires IsTrial(r, d.plan(history, start)) && |r.draft| < d.plan(history, start).maxTokens
    decreases |y|, 2, d.plan(history, start).maxTokens - |r.draft|, 1
  {
    var p, q := d.target(start + r.draft), d.plan(history, start).law(r.draft);
    var accept, law := AcceptProb(p[x], q[x]), SubstituteLaw(p, q, d.vocab);
    Mixed(accept, Mean(law, TestedValues(d, history, start, y, r, x, true)),
          Mean(law, TestedValues(d, history, start, y, r, x, false)))
  }

  ghost function TestedValues(d: Decoder, history: seq<Seen>, start: seq<int>, y: seq<int>, r: Trial, x: nat,
                              bit: bool): (v: seq<real>)
    requires IsDecoder(d) && InVocab(y, d.vocab) && y != []
    requires IsTrial(r, d.plan(history, start)) && |r.draft| < d.plan(history, start).maxTokens
    ensures |v| == d.vocab
    decreases |y|, 2, d.plan(history, start).maxTokens - |r.draft|, 0
  {
    seq(d.vocab, z => RoundProb(d, history, start, y, Extend(r, x, bit, z)))
  }

  ghost function BonusValues(d: Decoder, history: seq<Seen>, start: seq<int>, y: seq<int>, r: Trial): (v: seq<real>)
    requires IsDecoder(d) && InVocab(y, d.vocab) && y != [] && IsTrial(r, d.plan(history, start))
    ensures |v| == d.vocab
    decreases |y|, 1, 0, 0
  {
    seq(d.vocab, b => EmittedProb(d, history, start, y, r, b))
  }

  /** The round is over: it emits the verified row of its draws, and the next round goes on after that row. */
  ghost function EmittedProb(d: Decoder, history: seq<Seen>, start: seq<int>, y: seq<int>, r: Trial, bonus: int): real
    requires IsDecoder(d) && InVocab(y, d.vocab) && y != [] && IsTrial(r, d.plan(history, start))
    decreases |y|, 0, 0, 0
  {
    var row := VerifiedRow(r.draft, r.accepted, r.substitute, bonus);
    if y <= row then 1.0
    else if row <= y then StreamProb(d, history + [Seen(start, r.draft, row)], start + row, y[|row|..])
    else 0.0
  }

  // ----- The kernel as a trial

  /** Whether the draws at flat position `i` pass the test, by the target's probability and the draft token's law. */
  ghost predicate Passes(d: Draws, draftIds: seq<int>, vocab: nat, i: nat)
    requires ValidDraws(d, draftIds, vocab) && i < |draftIds|
  {
    var x := draftIds[i];
    var q := LawAt(d.probs, draftIds, vocab, i)[x];
    q > 0.0 && d.probs.target[i][x] >= d.uniform[i] * q
  }

  /** The draws of request `r` in a batch. */
  ghost function TrialOf(d: Draws, draftIds: seq<int>, vocab: nat, cu: seq<nat>, r: nat): (t: Trial)
    requires ValidDraws(d, draftIds, vocab) && r < |cu| && Cumulative(cu, |draftIds|)
    ensures |t.draft| == |t.accepted| == |t.substitute|
  {
    var first := if r == 0 then 0 else cu[r - 1];
    var n := cu[r] - first;
    Trial(draftIds[first..cu[r]], seq(n, j requires 0 <= j < n => Passes(d, draftIds, vocab, first + j)),
          d.recovered[first..cu[r]])
  }

  lemma SameTests(d: Draws, draftIds: seq<int>, vocab: nat, cu: seq<nat>, r: nat)
    requires ValidDraws(d, draftIds, vocab) && r < |cu| && Cumulative(cu, |draftIds|)
    ensures Part(Acceptance(d, draftIds, vocab), cu, r) == TrialOf(d, draftIds, vocab, cu, r).accepted
  {
    var bits, accepted := Part(Acceptance(d, draftIds, vocab), cu, r), TrialOf(d, draftIds, vocab, cu, r).accepted;
    var first := if r == 0 then 0 else cu[r - 1];
    forall j: nat | j < |accepted| ensures bits[j] == accepted[j] {
      KernelAcceptsIff(d, draftIds, vocab, first + j);
      assert accepted[j] == Passes(d, draftIds, vocab, first + j);
    }
    SameElements(bits, accepted);
  }

  /** The row that the random kernel writes is the verified row of its draws. */
  lemma KernelRowIsTrial(d: Draws, draftIds: seq<int>, vocab: nat, cu: seq<nat>, r: nat, bonus: int)
    requires ValidDraws(d, draftIds, vocab) && r < |cu| && Cumulative(cu, |draftIds|)
    ensures var t := TrialOf(d, draftIds, vocab, cu, r);
      RandomRow(d, draftIds, vocab, cu, r, bonus) == VerifiedRow(t.draft, t.accepted, t.substitute, bonus)
  {
    SameTests(d, draftIds, vocab, cu, r);
  }

  // ----- What has been emitted so far

  ghost predicate AllAccepted(r: Trial) { forall i :: 0 <= i < |r.accepted| ==> r.accepted[i] }

  /** The accepted drafts, or the row that is already decided. */
  ghost function SoFar(r: Trial): seq<int>
    requires |r.draft| == |r.accepted| == |r.substitute|
  {
    if AllAccepted(r) then r.draft else VerifiedRow(r.draft, r.accepted, r.substitute, 0)
  }

  lemma RowAtEnd(r: Trial, bonus: int)
    requires |r.draft| == |r.accepted| == |r.substitute|
    ensures VerifiedRow(r.draft, r.accepted, r.substitute, bonus)
         == if AllAccepted(r) then r.draft + [bonus] else SoFar(r)
  {
    if AllAccepted(r) {
      RowUnique(r.draft, r.accepted, r.substitute, bonus, r.draft + [bonus]);
    } else {
      RowUnique(r.draft, r.accepted, r.substitute, bonus, SoFar(r));
    }
  }

  lemma RowAfterDraft(r: Trial, x: int, bit: bool, z: int)
    requires |r.draft| == |r.accepted| == |r.substitute|
    ensures SoFar(Extend(r, x, bit, z))
         == if !AllAccepted(r) then SoFar(r) else if bit then r.draft + [x] else r.draft + [z]
  {
    var e := Extend(r, x, bit, z);
    if AllAccepted(r) {
      assert AllAccepted(e) <==> bit by { assert e.accepted[|r.accepted|] == bit; }
      if !bit { RowUnique(e.draft, e.accepted, e.substitute, 0, r.draft + [z]); }
    } else {
      var i :| 0 <= i < |r.accepted| && !r.accepted[i];
      assert !e.accepted[i];
      RowUnique(e.draft, e.accepted, e.substitute, 0, SoFar(r));
    }
  }

  // ----- Losslessness

  lemma MixConstant(a: real, c: real)
    ensures Mixed(a, c, c) == c
  {
  }

  /** Where a rejection has happened, the value of a draft is the value of the decided row. */
  lemma DecidedValue(d: Decoder, history: seq<Seen>, start: seq<int>, y: seq<int>, r: Trial, x: nat, c: real)
    requires IsDecoder(d) && InVocab(y, d.vocab) && y != [] && x < d.vocab
    requires IsTrial(r, d.plan(history, start)) && |r.draft| < d.plan(history, start).maxTokens
    requires Constant(TestedValues(d, history, start, y, r, x, true), c)
    requires Constant(TestedValues(d, history, start, y, r, x, false), c)
    ensures DraftValue(d, history, start, y, r, x) == c
  {
    var p, q := d.target(start + r.draft), d.plan(history, start).law(r.draft);
    SubstituteIsDist(p, q, d.vocab);
    MeanOfConstant(SubstituteLaw(p, q, d.vocab), TestedValues(d, history, start, y, r, x, true), c);
    MeanOfConstant(SubstituteLaw(p, q, d.vocab), TestedValues(d, history, start, y, r, x, false), c);
    MixConstant(AcceptProb(p[x], q[x]), c);
  }

  /** Where nothing is rejected yet, it mixes the accepted token with the substitutes. */
  lemma OpenValue(d: Decoder, history: seq<Seen>, start: seq<int>, y: seq<int>, r: Trial, x: nat, v: seq<real>)
    requires IsDecoder(d) && InVocab(y, d.vocab) && y != [] && x < d.vocab == |v|
    requires IsTrial(r, d.plan(history, start)) && |r.draft| < d.plan(history, start).maxTokens
    requires Constant(TestedValues(d, history, start, y, r, x, true), v[x])
    requires TestedValues(d, history, start, y, r, x, false) == v
    ensures var p, q := d.target(start + r.draft), d.plan(history, start).law(r.draft);
      MixAt(p, q, DraftValues(d, history, start, y, r), v, Mean(SubstituteLaw(p, q, d.vocab), v), x)
  {
    OpenDraft(d, history, start, y, r, x, v);
    ValueOfDraft(d, history, start, y, r, x);
  }

  lemma ValueOfDraft(d: Decoder, history: seq<Seen>, start: seq<int>, y: seq<int>, r: Trial, x: nat)
    requires IsDecoder(d) && InVocab(y, d.vocab) && y != [] && x < d.vocab
    requires IsTrial(r, d.plan(history, start)) && |r.draft| < d.plan(history, start).maxTokens
    ensures DraftValues(d, history, start, y, r)[x] == DraftValue(d, history, start, y, r, x)
  {
  }

  lemma OpenDraft(d: Decoder, history: seq<Seen>, start: seq<int>, y: seq<int>, r: Trial, x: nat, v: seq<real>)
    requires IsDecoder(d) && InVocab(y, d.vocab) && y != [] && x < d.vocab == |v|
    requires IsTrial(r, d.plan(history, start)) && |r.draft| < d.plan(history, start).maxTokens
    requires Constant(TestedValues(d, history, start, y, r, x, true), v[x])
    requires TestedValues(d, history, start, y, r, x, false) == v
    ensures var p, q := d.target(start + r.draft), d.plan(history, start).law(r.draft);
      DraftValue(d, history, start, y, r, x) == Mixed(AcceptProb(p[x], q[x]), v[x],
                 Mean(SubstituteLaw(p, q, d.vocab), v))
  {
    var p, q := d.target(start + r.draft), d.plan(history, start).law(r.draft);
    SubstituteIsDist(p, q, d.vocab);
    MeanOfConstant(SubstituteLaw(p, q, d.vocab), TestedValues(d, history, start, y, r, x, true), v[x]);
  }

  /** Every result of a test is worth the row that it leads to. */
  lemma {:induction false} TestedIsTarget(d: Decoder, history: seq<Seen>, start: seq<int>, y: seq<int>, r: Trial,
                                          x: nat, bit: bool, z: nat)
    requires IsDecoder(d) && InVocab(y, d.vocab) && y != [] && z < d.vocab
    requires IsTrial(r, d.plan(history, start)) && |r.draft| < d.plan(history, start).maxTokens
    ensures TestedValues(d, history, start, y, r, x, bit)[z]
         == RowValue(d.target, d.vocab, start, y, SoFar(Extend(r, x, bit, z)))
    decreases |y|, 2, d.plan(history, start).maxTokens - |r.draft|, 0
  {
    RoundIsTarget(d, history, start, y, Extend(r, x, bit, z));
  }

  lemma {:induction false} DraftIsTarget(d: Decoder, history: seq<Seen>, start: seq<int>, y: seq<int>, r: Trial)
    requires IsDecoder(d) && InVocab(y, d.vocab) && y != []
    requires IsTrial(r, d.plan(history, start)) && |r.draft| < d.plan(history, start).maxTokens
    ensures |d.plan(history, start).law(r.draft)| == d.vocab
    ensures Mean(d.plan(history, start).law(r.draft), DraftValues(d, history, start, y, r))
         == RowValue(d.target, d.vocab, start, y, SoFar(r))
    decreases |y|, 2, d.plan(history, start).maxTokens - |r.draft|, 2
  {
    var p, q, u := d.target(start + r.draft), d.plan(history, start).law(r.draft), DraftValues(d, history, start, y, r);
    assert IsDist(p, d.vocab) && IsDist(q, d.vocab);
    if AllAccepted(r) {
      var v := NextValues(d.target, d.vocab, start, y, r.draft);
      DistNotEmpty(p, d.vocab);
      forall x: nat | x < d.vocab ensures MixAt(p, q, u, v, Mean(SubstituteLaw(p, q, d.vocab), v), x) {
        OpenTests(d, history, start, y, r, x);
        OpenValue(d, history, start, y, r, x, v);
      }
      MixIsTarget(p, q, d.vocab, u, v, Mean(SubstituteLaw(p, q, d.vocab), v));
      NextFromTarget(d.target, d.vocab, start, y, r.draft);
    } else {
      var c := RowValue(d.target, d.vocab, start, y, SoFar(r));
      forall x: nat | x < d.vocab ensures u[x] == c {
        DecidedTests(d, history, start, y, r, x);
        DecidedValue(d, history, start, y, r, x, c);
      }
      MeanOfConstant(q, u, c);
    }
  }

  lemma {:induction false} OpenTests(d: Decoder, history: seq<Seen>, start: seq<int>, y: seq<int>, r: Trial, x: nat)
    requires IsDecoder(d) && InVocab(y, d.vocab) && y != [] && x < d.vocab && AllAccepted(r)
    requires IsTrial(r, d.plan(history, start)) && |r.draft| < d.plan(history, start).maxTokens
    ensures var v := NextValues(d.target, d.vocab, start, y, r.draft);
      && Constant(TestedValues(d, history, start, y, r, x, true), v[x])
      && TestedValues(d, history, start, y, r, x, false) == v
    decreases |y|, 2, d.plan(history, start).maxTokens - |r.draft|, 1
  {
    forall z: nat | z < d.vocab
      ensures TestedValues(d, history, start, y, r, x, true)[z] == RowValue(d.target, d.vocab, start, y, r.draft + [x])
      ensures TestedValues(d, history, start, y, r, x, false)[z] == RowValue(d.target, d.vocab, start, y, r.draft + [z])
    {
      TestedIsTarget(d, history, start, y, r, x, true, z);
      TestedIsTarget(d, history, start, y, r, x, false, z);
      RowAfterDraft(r, x, true, z);
      RowAfterDraft(r, x, false, z);
    }
  }

  lemma {:induction false} DecidedTests(d: Decoder, history: seq<Seen>, start: seq<int>, y: seq<int>, r: Trial, x: nat)
    requires IsDecoder(d) && InVocab(y, d.vocab) && y != [] && x < d.vocab && !AllAccepted(r)
    requires IsTrial(r, d.plan(history, start)) && |r.draft| < d.plan(history, start).maxTokens
    ensures var c := RowValue(d.target, d.vocab, start, y, SoFar(r));
      && Constant(TestedValues(d, history, start, y, r, x, true), c)
      && Constant(TestedValues(d, history, start, y, r, x, false), c)
    decreases |y|, 2, d.plan(history, start).maxTokens - |r.draft|, 1
  {
    forall z: nat | z < d.vocab
      ensures TestedValues(d, history, start, y, r, x, true)[z] == RowValue(d.target, d.vocab, start, y, SoFar(r))
      ensures TestedValues(d, history, start, y, r, x, false)[z] == RowValue(d.target, d.vocab, start, y, SoFar(r))
    {
      TestedIsTarget(d, history, start, y, r, x, true, z);
      TestedIsTarget(d, history, start, y, r, x, false, z);
      RowAfterDraft(r, x, true, z);
      RowAfterDraft(r, x, false, z);
    }
  }

  /** A finished round is worth its row: what follows is a stream of its own. */
  lemma {:induction false} EmittedIsRow(d: Decoder, history: seq<Seen>, start: seq<int>, y: seq<int>, r: Trial,
                                        bonus: int)
    requires IsDecoder(d) && InVocab(y, d.vocab) && y != [] && IsTrial(r, d.plan(history, start))
    ensures EmittedProb(d, history, start, y, r, bonus)
         == RowValue(d.target, d.vocab, start, y, VerifiedRow(r.draft, r.accepted, r.substitute, bonus))
    decreases |y|, 0, 0, 0
  {
    var row := VerifiedRow(r.draft, r.accepted, r.substitute, bonus);
    if !(y <= row) && row <= y {
      StreamIsTarget(d, history + [Seen(start, r.draft, row)], start + row, y[|row|..]);
    }
  }

  lemma {:induction false} BonusIsTarget(d: Decoder, history: seq<Seen>, start: seq<int>, y: seq<int>, r: Trial)
    requires IsDecoder(d) && InVocab(y, d.vocab) && y != [] && IsTrial(r, d.plan(history, start))
    ensures |d.target(start + r.draft)| == d.vocab
    ensures Mean(d.target(start + r.draft), BonusValues(d, history, start, y, r))
         == RowValue(d.target, d.vocab, start, y, SoFar(r))
    decreases |y|, 1, 0, 0
  {
    var p, v := d.target(start + r.draft), BonusValues(d, history, start, y, r);
    assert IsDist(p, d.vocab);
    forall b: nat | b < d.vocab
      ensures v[b] == RowValue(d.target, d.vocab, start, y, if AllAccepted(r) then r.draft + [b] else SoFar(r))
    {
      EmittedIsRow(d, history, start, y, r, b);
      RowAtEnd(r, b);
    }
    if AllAccepted(r) {
      assert v == NextValues(d.target, d.vocab, start, y, r.draft);
      NextFromTarget(d.target, d.vocab, start, y, r.draft);
    } else {
      MeanOfConstant(p, v, RowValue(d.target, d.vocab, start, y, SoFar(r)));
    }
  }

  /** From anywhere inside a round, the stream has the law of the target model. */
  lemma {:induction false} RoundIsTarget(d: Decoder, history: seq<Seen>, start: seq<int>, y: seq<int>, r: Trial)
    requires IsDecoder(d) && InVocab(y, d.vocab) && y != [] && IsTrial(r, d.plan(history, start))
    ensures RoundProb(d, history, start, y, r) == RowValue(d.target, d.vocab, start, y, SoFar(r))
    decreases |y|, 2, d.plan(history, start).maxTokens - |r.draft|, 3
  {
    var drafter := d.plan(history, start);
    if |r.draft| < drafter.maxTokens && drafter.goesOn(r.draft) {
      DraftIsTarget(d, history, start, y, r);
    } else {
      BonusIsTarget(d, history, start, y, r);
    }
  }

  /** Losslessness over whole runs: every continuation has the probability that the target model gives it. */
  lemma {:induction false} StreamIsTarget(d: Decoder, history: seq<Seen>, start: seq<int>, y: seq<int>)
    requires IsDecoder(d) && InVocab(y, d.vocab)
    ensures StreamProb(d, history, start, y) == TargetProb(d.target, d.vocab, start, y)
    decreases |y|, 3, 0, 0
  {
    if y != [] {
      RoundIsTarget(d, history, start, y, Trial([], [], []));
      assert start + [] == start && y[0..] == y;
    }
  }
}
