/**
 Merging streamed outputs: per completion index, any run of deltas adds up to the in-order
 concatenation of its pieces, and both ways of bracketing agree wherever both work. Values only;
 `OutputStream` holds the objects that are updated in place.
 */
module OutputMerge {
  import opened Basics
  import opened LogprobRows

  /** What a delta overwrites. */
  datatype Ending = Ending(cumulativeLogprob: Option<real>, finishReason: Option<Text>, stopReason: Option<Text>)

  /** What a delta leaves alone. */
  datatype Origin = Origin(routedExperts: Option<seq<int>>, loraRequest: Option<Text>)

  datatype Completion = Completion(index: int, text: string, tokenIds: seq<int>, logprobs: Option<seq<Dict>>,
                                   ending: Ending, origin: Origin)

  function Items<T>(list: Option<seq<T>>): seq<T> { if list.Some? then list.value else [] }

  /** Merging a delta fails where the source asserts: log probabilities arrive and there is nowhere to put them. */
  predicate Mergeable(c: Completion, delta: Completion) { Items(delta.logprobs) != [] ==> c.logprobs.Some? }

  function Merge(c: Completion, delta: Completion): Completion {
    c.(text := c.text + delta.text,
       tokenIds := c.tokenIds + delta.tokenIds,
       logprobs := if c.logprobs.Some? then Some(c.logprobs.value + Items(delta.logprobs)) else None,
       ending := delta.ending)
  }

  // ----- One delta into a list of completions

  function Find(list: seq<Completion>, index: int): (k: nat)
    ensures k <= |list| && (k < |list| ==> list[k].index == index)
    ensures forall i :: 0 <= i < k ==> list[i].index != index
  {
    if list == [] then 0
    else
      var n := |list| - 1;
      var k := Find(list[..n], index);
      if k < n || list[n].index == index then k else |list|
  }

  predicate CanAdd(list: seq<Completion>, c: Completion, aggregate: bool) {
    var k := Find(list, c.index);
    aggregate && k < |list| ==> Mergeable(list[k], c)
  }

  function AddOne(list: seq<Completion>, c: Completion, aggregate: bool): seq<Completion> {
    var k := Find(list, c.index);
    if k == |list| then list + [c] else list[k := if aggregate then Merge(list[k], c) else c]
  }

  predicate CanAddAll(list: seq<Completion>, cs: seq<Completion>, aggregate: bool) {
    cs != [] ==>
      var init, last := cs[..|cs| - 1], cs[|cs| - 1];
      CanAddAll(list, init, aggregate) && CanAdd(AddAll(list, init, aggregate), last, aggregate)
  }

  function AddAll(list: seq<Completion>, cs: seq<Completion>, aggregate: bool): seq<Completion> {
    if cs == [] then list else AddOne(AddAll(list, cs[..|cs| - 1], aggregate), cs[|cs| - 1], aggregate)
  }

  // ----- Indices: distinct, in order of first appearance

  ghost predicate Distinct(list: seq<Completion>) {
    forall i, j :: 0 <= i < j < |list| ==> list[i].index != list[j].index
  }

  ghost function Indices(list: seq<Completion>): (r: seq<int>)
    ensures |r| == |list| && forall i :: 0 <= i < |list| ==> r[i] == list[i].index
  {
    seq(|list|, i requires 0 <= i < |list| => list[i].index)
  }

  /** `ix` without repetitions, in order of first appearance. */
  ghost function Firsts(ix: seq<int>): seq<int> {
    if ix == [] then [] else Seen(Firsts(ix[..|ix| - 1]), ix[|ix| - 1])
  }

  ghost function Seen(seen: seq<int>, x: int): seq<int> { if x in seen then seen else seen + [x] }

  lemma FirstsSnoc(ix: seq<int>, x: int)
    ensures Firsts(ix + [x]) == Seen(Firsts(ix), x)
  {
    assert (ix + [x])[..|ix|] == ix;
  }

  lemma {:induction false} FirstsKeepAll(ix: seq<int>, x: int)
    ensures x in Firsts(ix) <==> x in ix
  {
    if ix != [] {
      FirstsKeepAll(ix[..|ix| - 1], x);
      assert ix == ix[..|ix| - 1] + [ix[|ix| - 1]];
    }
  }

  lemma {:induction false} FirstsAfter(s: seq<int>, t: seq<int>)
    ensures Firsts(s + Firsts(t)) == Firsts(s + t)
  {
    if t != [] {
      var init, x := t[..|t| - 1], t[|t| - 1];
      FirstsAfter(s, init);
      assert s + t == s + init + [x];
      FirstsSnoc(s + init, x);
      if x in Firsts(init) {
        FirstsKeepAll(init, x);
        FirstsKeepAll(s + init, x);
      } else {
        assert s + (Firsts(init) + [x]) == s + Firsts(init) + [x];
        FirstsSnoc(s + Firsts(init), x);
      }
    }
  }

  lemma {:induction false} FirstsBefore(s: seq<int>, t: seq<int>)
    ensures Firsts(Firsts(s) + t) == Firsts(s + t)
  {
    if t == [] {
      FirstsAfter([], s);
      assert [] + Firsts(s) == Firsts(s) && [] + s == s && s + t == s && Firsts(s) + t == Firsts(s);
    } else {
      var init, x := t[..|t| - 1], t[|t| - 1];
      FirstsBefore(s, init);
      assert s + t == s + init + [x] && Firsts(s) + t == Firsts(s) + init + [x];
      FirstsSnoc(s + init, x);
      FirstsSnoc(Firsts(s) + init, x);
    }
  }

  lemma {:induction false} DistinctFirsts(list: seq<Completion>)
    requires Distinct(list)
    ensures Firsts(Indices(list)) == Indices(list)
  {
    if list != [] {
      var init, last := list[..|list| - 1], list[|list| - 1];
      DistinctFirsts(init);
      assert Indices(list) == Indices(init) + [last.index];
      FirstsSnoc(Indices(init), last.index);
    }
  }

  lemma IndicesOfOne(list: seq<Completion>, c: Completion, aggregate: bool)
    ensures Indices(AddOne(list, c, aggregate)) == Seen(Indices(list), c.index)
  {
    var k := Find(list, c.index);
    if k < |list| { assert Indices(list)[k] == c.index; }
  }

  /** Indices stay distinct and appear in order of first appearance, whether deltas are merged or replaced. */
  lemma {:induction false} IndicesOfAll(list: seq<Completion>, cs: seq<Completion>, aggregate: bool)
    requires Distinct(list)
    ensures Distinct(AddAll(list, cs, aggregate))
    ensures Indices(AddAll(list, cs, aggregate)) == Firsts(Indices(list) + Indices(cs))
  {
    if cs == [] {
      DistinctFirsts(list);
      assert Indices(list) + Indices(cs) == Indices(list);
    } else {
      var init, last := cs[..|cs| - 1], cs[|cs| - 1];
      IndicesOfAll(list, init, aggregate);
      IndicesOfOne(AddAll(list, init, aggregate), last, aggregate);
      assert Indices(list) + Indices(cs) == Indices(list) + Indices(init) + [last.index];
      FirstsSnoc(Indices(list) + Indices(init), last.index);
    }
  }

  lemma DistinctAll(list: seq<Completion>, cs: seq<Completion>)
    requires Distinct(list)
    ensures Distinct(AddAll(list, cs, true))
  {
    IndicesOfAll(list, cs, true);
  }

  // ----- Contents: what all pieces of one index add up to

  /** What the first piece decides. */
  datatype First = First(origin: Origin, hasLogprobs: bool)

  datatype Digest = Digest(text: string, tokenIds: seq<int>, logprobs: seq<Dict>,
                           ending: Option<Ending>, first: Option<First>)

  const NOTHING := Digest("", [], [], None, None)

  function Absorb(d: Digest, c: Completion): Digest {
    Digest(d.text + c.text, d.tokenIds + c.tokenIds, d.logprobs + Items(c.logprobs), Some(c.ending),
           if d.first.Some? then d.first else Some(First(c.origin, c.logprobs.Some?)))
  }

  /** The pieces with the given index, in order: contents concatenated, last ending, first origin. */
  ghost function DigestOf(pieces: seq<Completion>, index: int): Digest {
    if pieces == [] then NOTHING
    else
      var d, last := DigestOf(pieces[..|pieces| - 1], index), pieces[|pieces| - 1];
      if last.index == index then Absorb(d, last) else d
  }

  lemma DigestSnoc(pieces: seq<Completion>, c: Completion, index: int)
    ensures DigestOf(pieces + [c], index)
         == if c.index == index then Absorb(DigestOf(pieces, index), c) else DigestOf(pieces, index)
  {
    assert (pieces + [c])[..|pieces|] == pieces;
  }

  lemma {:induction false} DigestOfNone(list: seq<Completion>, index: int)
    requires forall i :: 0 <= i < |list| ==> list[i].index != index
    ensures DigestOf(list, index) == NOTHING
  {
    if list != [] { DigestOfNone(list[..|list| - 1], index); }
  }

  /** In a list with distinct indices the digest is the completion's own data. */
  lemma {:induction false} DigestOfOnly(list: seq<Completion>, k: nat)
    requires Distinct(list) && k < |list|
    ensures DigestOf(list, list[k].index) == Absorb(NOTHING, list[k])
  {
    var n := |list| - 1;
    if k < n { DigestOfOnly(list[..n], k); } else { DigestOfNone(list[..n], list[n].index); }
  }

  lemma {:induction false} DigestOfOthers(list: seq<Completion>, k: nat, c: Completion, index: int)
    requires k < |list| && c.index == list[k].index != index
    ensures DigestOf(list[k := c], index) == DigestOf(list, index)
  {
    var n := |list| - 1;
    if k < n {
      DigestOfOthers(list[..n], k, c, index);
      assert list[k := c][..n] == list[..n][k := c];
    } else {
      assert list[k := c][..n] == list[..n];
    }
  }

  lemma MergeAbsorbs(c: Completion, delta: Completion)
    requires Mergeable(c, delta)
    ensures Absorb(NOTHING, Merge(c, delta)) == Absorb(Absorb(NOTHING, c), delta)
  {
    assert c.logprobs == None ==> Items(delta.logprobs) == [];
  }

  lemma DigestOfMerge(list: seq<Completion>, c: Completion, k: nat, index: int)
    requires Distinct(list) && k < |list| && list[k].index == c.index && Mergeable(list[k], c)
    ensures DigestOf(list[k := Merge(list[k], c)], index) == DigestOf(list + [c], index)
  {
    DigestSnoc(list, c, index);
    if c.index == index {
      DigestOfOnly(list, k);
      DigestOfOnly(list[k := Merge(list[k], c)], k);
      MergeAbsorbs(list[k], c);
    } else {
      DigestOfOthers(list, k, Merge(list[k], c), index);
    }
  }

  lemma DigestOfAddOne(list: seq<Completion>, c: Completion, index: int)
    requires Distinct(list) && CanAdd(list, c, true)
    ensures DigestOf(AddOne(list, c, true), index) == DigestOf(list + [c], index)
  {
    var k := Find(list, c.index);
    if k < |list| { DigestOfMerge(list, c, k, index); }
  }

  /** Merging loses, repeats and reorders nothing: every index keeps the digest of all pieces. */
  lemma {:induction false} DigestOfAll(list: seq<Completion>, cs: seq<Completion>, index: int)
    requires Distinct(list) && CanAddAll(list, cs, true)
    ensures DigestOf(AddAll(list, cs, true), index) == DigestOf(list + cs, index)
  {
    if cs == [] {
      assert list + cs == list;
    } else {
      var init, last := cs[..|cs| - 1], cs[|cs| - 1];
      DigestOfAll(list, init, index);
      DistinctAll(list, init);
      DigestOfNext(AddAll(list, init, true), list + init, last, index);
      JoinSnoc(list, cs);
    }
  }

  lemma DigestOfNext(before: seq<Completion>, pieces: seq<Completion>, c: Completion, index: int)
    requires Distinct(before) && CanAdd(before, c, true) && DigestOf(before, index) == DigestOf(pieces, index)
    ensures DigestOf(AddOne(before, c, true), index) == DigestOf(pieces + [c], index)
  {
    DigestOfAddOne(before, c, index);
    NextPiece(before, pieces, c, index);
  }

  lemma NextPiece(a: seq<Completion>, b: seq<Completion>, c: Completion, index: int)
    requires DigestOf(a, index) == DigestOf(b, index)
    ensures DigestOf(a + [c], index) == DigestOf(b + [c], index)
  {
    DigestSnoc(a, c, index);
    DigestSnoc(b, c, index);
  }

  // ----- Associativity

  /** Digests depend on digests only. */
  lemma {:induction false} DigestOfJoin(a: seq<Completion>, b: seq<Completion>, c: seq<Completion>, index: int)
    requires DigestOf(a, index) == DigestOf(b, index)
    ensures DigestOf(a + c, index) == DigestOf(b + c, index)
  {
    if c == [] {
      assert a + c == a && b + c == b;
    } else {
      var init, last := c[..|c| - 1], c[|c| - 1];
      DigestOfJoin(a, b, init, index);
      NextPiece(a + init, b + init, last, index);
      assert a + c == a + init + [last] && b + c == b + init + [last];
    }
  }

  function Plus(d: Digest, e: Digest): Digest {
    Digest(d.text + e.text, d.tokenIds + e.tokenIds, d.logprobs + e.logprobs,
           if e.ending.Some? then e.ending else d.ending,
           if d.first.Some? then d.first else e.first)
  }

  lemma PlusAbsorb(d: Digest, e: Digest, c: Completion)
    ensures Plus(d, Absorb(e, c)) == Absorb(Plus(d, e), c)
  {
  }

  lemma PlusNothing(d: Digest)
    ensures Plus(d, NOTHING) == d
  {
  }

  lemma {:induction false} DigestOfSum(a: seq<Completion>, b: seq<Completion>, index: int)
    ensures DigestOf(a + b, index) == Plus(DigestOf(a, index), DigestOf(b, index))
  {
    if b == [] {
      PlusNothing(DigestOf(a, index));
      assert a + b == a;
    } else {
      var init, last := b[..|b| - 1], b[|b| - 1];
      DigestOfSum(a, init, index);
      PlusAbsorb(DigestOf(a, index), DigestOf(init, index), last);
      assert a + b == a + init + [last];
      DigestSnoc(a + init, last, index);
    }
  }

  lemma SameCompletion(c: Completion, d: Completion)
    requires c.index == d.index && Absorb(NOTHING, c) == Absorb(NOTHING, d)
    ensures c == d
  {
    assert "" + c.text == c.text && "" + d.text == d.text;
    assert [] + c.tokenIds == c.tokenIds && [] + d.tokenIds == d.tokenIds;
    assert [] + Items(c.logprobs) == Items(c.logprobs) && [] + Items(d.logprobs) == Items(d.logprobs);
  }

  /** Indices and digests determine a list with distinct indices. */
  lemma Determined(a: seq<Completion>, b: seq<Completion>)
    requires Distinct(a) && Indices(a) == Indices(b)
    requires forall index :: DigestOf(a, index) == DigestOf(b, index)
    ensures a == b
  {
    assert |a| == |Indices(a)| == |b|;
    forall i | 0 <= i < |a| ensures a[i] == b[i] {
      assert Indices(a)[i] == Indices(b)[i];
      SameIndices(a, b);
      DigestOfOnly(a, i);
      DigestOfOnly(b, i);
      assert DigestOf(a, a[i].index) == DigestOf(b, a[i].index);
      SameCompletion(a[i], b[i]);
    }
  }

  lemma SameIndices(a: seq<Completion>, b: seq<Completion>)
    requires Distinct(a) && Indices(a) == Indices(b)
    ensures Distinct(b)
  {
    assert |a| == |Indices(a)| == |b|;
    forall i, j | 0 <= i < j < |b| ensures b[i].index != b[j].index {
      assert Indices(a)[i] != Indices(a)[j];
    }
  }

  /** Both ways of merging three lists see the indices in the same order. */
  lemma SameOrder(a: seq<Completion>, b: seq<Completion>, c: seq<Completion>)
    requires Distinct(a) && Distinct(b)
    ensures Distinct(AddAll(AddAll(a, b, true), c, true))
    ensures Indices(AddAll(AddAll(a, b, true), c, true)) == Indices(AddAll(a, AddAll(b, c, true), true))
  {
    IndicesOfAll(a, b, true);
    IndicesOfAll(AddAll(a, b, true), c, true);
    IndicesOfAll(b, c, true);
    IndicesOfAll(a, AddAll(b, c, true), true);
    FirstsAssociative(Indices(a), Indices(b), Indices(c));
  }

  lemma FirstsAssociative(a: seq<int>, b: seq<int>, c: seq<int>)
    ensures Firsts(Firsts(a + b) + c) == Firsts(a + Firsts(b + c))
  {
    FirstsBefore(a + b, c);
    FirstsAfter(a, b + c);
    JoinAssociative(a, b, c);
  }

  lemma SameDigest(a: seq<Completion>, b: seq<Completion>, c: seq<Completion>, index: int)
    requires Distinct(a) && Distinct(b) && CanAddAll(a, b, true) && CanAddAll(b, c, true)
    requires CanAddAll(AddAll(a, b, true), c, true) && CanAddAll(a, AddAll(b, c, true), true)
    ensures DigestOf(AddAll(AddAll(a, b, true), c, true), index) == DigestOf(AddAll(a, AddAll(b, c, true), true), index)
  {
    var ab, bc := AddAll(a, b, true), AddAll(b, c, true);
    DistinctAll(a, b);
    DigestOfAll(a, b, index);
    DigestOfAll(ab, c, index);
    DigestOfAll(b, c, index);
    DigestOfAll(a, bc, index);
    DigestOfThree(a, b, c, ab, bc, index);
  }

  lemma DigestOfThree(a: seq<Completion>, b: seq<Completion>, c: seq<Completion>, ab: seq<Completion>,
                      bc: seq<Completion>, index: int)
    requires DigestOf(ab, index) == DigestOf(a + b, index) && DigestOf(bc, index) == DigestOf(b + c, index)
    ensures DigestOf(ab + c, index) == DigestOf(a + bc, index)
  {
    DigestOfJoin(ab, a + b, c, index);
    DigestAfter(a, bc, b + c, index);
    JoinAssociative(a, b, c);
  }

  lemma DigestAfter(a: seq<Completion>, b: seq<Completion>, c: seq<Completion>, index: int)
    requires DigestOf(b, index) == DigestOf(c, index)
    ensures DigestOf(a + b, index) == DigestOf(a + c, index)
  {
    DigestOfSum(a, b, index);
    DigestOfSum(a, c, index);
  }

  // ----- When merging fails

  /** Log probabilities have arrived only where the first piece made room for them. */
  ghost predicate Settled(d: Digest) {
    d.logprobs != [] ==> d.first.Some? && d.first.value.hasLogprobs
  }

  ghost predicate AllSettled(pieces: seq<Completion>) {
    forall index {:trigger DigestOf(pieces, index)} :: Settled(DigestOf(pieces, index))
  }

  lemma {:induction false} NothingBeforeFirst(pieces: seq<Completion>, index: int)
    ensures DigestOf(pieces, index).first == None ==> DigestOf(pieces, index) == NOTHING
  {
    if pieces != [] { NothingBeforeFirst(pieces[..|pieces| - 1], index); }
  }

  lemma SettledBefore(d: Digest, c: Completion)
    requires Settled(Absorb(d, c)) && (d.first == None ==> d == NOTHING)
    ensures Settled(d)
  {
    if d.logprobs != [] { assert (d.logprobs + Items(c.logprobs))[0] == d.logprobs[0]; }
  }

  /** One more piece: settled before, and settled at its own index. */
  lemma AllSettledSnoc(pieces: seq<Completion>, c: Completion)
    ensures AllSettled(pieces + [c]) <==> AllSettled(pieces) && Settled(DigestOf(pieces + [c], c.index))
  {
    if AllSettled(pieces + [c]) {
      forall index ensures Settled(DigestOf(pieces, index)) {
        DigestSnoc(pieces, c, index);
        assert Settled(DigestOf(pieces + [c], index));
        NothingBeforeFirst(pieces, index);
        if c.index == index { SettledBefore(DigestOf(pieces, index), c); }
      }
    }
    if AllSettled(pieces) && Settled(DigestOf(pieces + [c], c.index)) {
      forall index ensures Settled(DigestOf(pieces + [c], index)) {
        DigestSnoc(pieces, c, index);
        assert Settled(DigestOf(pieces, index));
      }
    }
  }

  lemma SettledOne(c: Completion)
    ensures Settled(Absorb(NOTHING, c))
  {
    assert [] + Items(c.logprobs) == Items(c.logprobs);
  }

  lemma SettledTwo(c: Completion, delta: Completion)
    ensures Settled(Absorb(Absorb(NOTHING, c), delta)) <==> Mergeable(c, delta)
  {
    var items := [] + Items(c.logprobs) + Items(delta.logprobs);
    assert items == Items(c.logprobs) + Items(delta.logprobs);
    assert |items| == |Items(c.logprobs)| + |Items(delta.logprobs)|;
  }

  lemma DistinctSettled(list: seq<Completion>)
    requires Distinct(list)
    ensures AllSettled(list)
  {
    forall index ensures Settled(DigestOf(list, index)) {
      var k := Find(list, index);
      if k < |list| {
        DigestOfOnly(list, k);
        SettledOne(list[k]);
      } else {
        DigestOfNone(list, index);
      }
    }
  }

  lemma CanAddIff(list: seq<Completion>, c: Completion)
    requires Distinct(list)
    ensures CanAdd(list, c, true) <==> Settled(DigestOf(list + [c], c.index))
  {
    var k := Find(list, c.index);
    DigestSnoc(list, c, c.index);
    if k < |list| {
      DigestOfOnly(list, k);
      SettledTwo(list[k], c);
    } else {
      DigestOfNone(list, c.index);
      SettledOne(c);
    }
  }

  /**
   A run of deltas merges without a failing assertion exactly when log probabilities come only where
   there is room.
   */
  lemma {:induction false} CanAddAllIff(list: seq<Completion>, cs: seq<Completion>)
    requires Distinct(list)
    ensures CanAddAll(list, cs, true) <==> AllSettled(list + cs)
  {
    if cs == [] {
      assert list + cs == list;
      DistinctSettled(list);
    } else {
      var init, last := cs[..|cs| - 1], cs[|cs| - 1];
      CanAddAllIff(list, init);
      JoinSnoc(list, cs);
      AllSettledSnoc(list + init, last);
      if CanAddAll(list, init, true) {
        DistinctAll(list, init);
        CanAddIff(AddAll(list, init, true), last);
        DigestOfAll(list, init, last.index);
        NextPiece(AddAll(list, init, true), list + init, last, last.index);
      }
    }
  }

  lemma SameSettled(a: seq<Completion>, b: seq<Completion>)
    requires forall index :: DigestOf(a, index) == DigestOf(b, index)
    ensures AllSettled(a) <==> AllSettled(b)
  {
    if AllSettled(a) {
      forall index ensures Settled(DigestOf(b, index)) { assert Settled(DigestOf(a, index)); }
    }
    if AllSettled(b) {
      forall index ensures Settled(DigestOf(a, index)) { assert Settled(DigestOf(b, index)); }
    }
  }

  lemma {:induction false} SettledPrefix(a: seq<Completion>, b: seq<Completion>)
    requires AllSettled(a + b)
    ensures AllSettled(a)
  {
    if b == [] {
      assert a + b == a;
    } else {
      JoinSnoc(a, b);
      AllSettledSnoc(a + b[..|b| - 1], b[|b| - 1]);
      SettledPrefix(a, b[..|b| - 1]);
    }
  }

  /** Adding `b` and then `c` to `a` meets no failing assertion. */
  predicate LeftWorks(a: seq<Completion>, b: seq<Completion>, c: seq<Completion>) {
    CanAddAll(a, b, true) && CanAddAll(AddAll(a, b, true), c, true)
  }

  /** Adding `c` to `b` and the result to `a` meets no failing assertion. */
  predicate RightWorks(a: seq<Completion>, b: seq<Completion>, c: seq<Completion>) {
    CanAddAll(b, c, true) && CanAddAll(a, AddAll(b, c, true), true)
  }

  /** Merging the last two first works exactly when they are settled by themselves and after the first. */
  lemma SettledRight(a: seq<Completion>, b: seq<Completion>, c: seq<Completion>)
    requires Distinct(a) && Distinct(b)
    ensures RightWorks(a, b, c) <==> AllSettled(b + c) && AllSettled(a + b + c)
  {
    CanAddAllIff(b, c);
    if CanAddAll(b, c, true) {
      var bc := AddAll(b, c, true);
      CanAddAllIff(a, bc);
      JoinAssociative(a, b, c);
      forall index ensures DigestOf(a + bc, index) == DigestOf(a + b + c, index) {
        DigestOfAll(b, c, index);
        DigestAfter(a, bc, b + c, index);
      }
      SameSettled(a + bc, a + b + c);
    }
  }

  /** Merging the first two first works exactly when all three in a row are settled. */
  lemma SettledLeft(a: seq<Completion>, b: seq<Completion>, c: seq<Completion>)
    requires Distinct(a)
    ensures LeftWorks(a, b, c) <==> AllSettled(a + b + c)
  {
    CanAddAllIff(a, b);
    if AllSettled(a + b + c) { SettledPrefix(a + b, c); }
    if CanAddAll(a, b, true) {
      var ab := AddAll(a, b, true);
      DistinctAll(a, b);
      CanAddAllIff(ab, c);
      forall index ensures DigestOf(ab + c, index) == DigestOf(a + b + c, index) {
        DigestOfAll(a, b, index);
        DigestOfJoin(ab, a + b, c, index);
      }
      SameSettled(ab + c, a + b + c);
    }
  }

  lemma SameResult(a: seq<Completion>, b: seq<Completion>, c: seq<Completion>)
    requires Distinct(a) && Distinct(b) && LeftWorks(a, b, c) && RightWorks(a, b, c)
    ensures AddAll(AddAll(a, b, true), c, true) == AddAll(a, AddAll(b, c, true), true)
  {
    SameOrder(a, b, c);
    forall index
      ensures DigestOf(AddAll(AddAll(a, b, true), c, true), index)
           == DigestOf(AddAll(a, AddAll(b, c, true), true), index)
    {
      SameDigest(a, b, c, index);
    }
    Determined(AddAll(AddAll(a, b, true), c, true), AddAll(a, AddAll(b, c, true), true));
  }

  /**
   Both ways of bracketing give the same result wherever both work. From the left works exactly when
   log probabilities come only where there is room; from the right the last two have to make that
   room by themselves as well, so it works exactly when the left does and they do.
   */
  lemma MergeAssociative(a: seq<Completion>, b: seq<Completion>, c: seq<Completion>)
    requires Distinct(a) && Distinct(b)
    ensures LeftWorks(a, b, c) <==> AllSettled(a + b + c)
    ensures RightWorks(a, b, c) <==> LeftWorks(a, b, c) && AllSettled(b + c)
    ensures RightWorks(a, b, c) ==> AddAll(AddAll(a, b, true), c, true) == AddAll(a, AddAll(b, c, true), true)
  {
    SettledLeft(a, b, c);
    SettledRight(a, b, c);
    if RightWorks(a, b, c) { SameResult(a, b, c); }
  }

  /** A completion with index 0 and nothing but the given log probabilities. */
  function OnlyLogprobs(logprobs: Option<seq<Dict>>): Completion {
    Completion(0, "", [], logprobs, Ending(None, None, None), Origin(None, None))
  }

  lemma AddToOne(c: Completion, delta: Completion)
    requires c.index == delta.index
    ensures CanAddAll([c], [delta], true) <==> Mergeable(c, delta)
    ensures AddAll([c], [delta], true) == [Merge(c, delta)]
  {
    assert [delta][..0] == [];
  }

  /** Log probabilities cannot be added to a completion that has none. */
  lemma NoRoomFails()
    ensures !CanAddAll([OnlyLogprobs(None)], [OnlyLogprobs(Some([[]]))], true)
  {
    AddToOne(OnlyLogprobs(None), OnlyLogprobs(Some([[]])));
  }

  /** The bracketings differ: the first of three has room for the log probabilities of the last, the second has none. */
  lemma OnlyLeftWorks()
    ensures var a, b, c := [OnlyLogprobs(Some([]))], [OnlyLogprobs(None)], [OnlyLogprobs(Some([[]]))];
      LeftWorks(a, b, c) && !RightWorks(a, b, c)
  {
    var a, b, c := OnlyLogprobs(Some([])), OnlyLogprobs(None), OnlyLogprobs(Some([[]]));
    AddToOne(a, b);
    AddToOne(Merge(a, b), c);
    NoRoomFails();
  }

  // ----- Runs of deltas

  ghost function Flatten(deltas: seq<seq<Completion>>): seq<Completion> {
    if deltas == [] then [] else Flatten(deltas[..|deltas| - 1]) + deltas[|deltas| - 1]
  }

  ghost function Fold(list: seq<Completion>, deltas: seq<seq<Completion>>, aggregate: bool): seq<Completion> {
    if deltas == [] then list
    else AddAll(Fold(list, deltas[..|deltas| - 1], aggregate), deltas[|deltas| - 1], aggregate)
  }

  lemma {:induction false} AddAllJoin(list: seq<Completion>, a: seq<Completion>, b: seq<Completion>, aggregate: bool)
    ensures AddAll(AddAll(list, a, aggregate), b, aggregate) == AddAll(list, a + b, aggregate)
  {
    if b == [] {
      assert a + b == a;
    } else {
      AddAllJoin(list, a, b[..|b| - 1], aggregate);
      JoinSnoc(a, b);
      AddAllSnoc(list, a + b[..|b| - 1], b[|b| - 1], aggregate);
    }
  }

  lemma AddAllSnoc(list: seq<Completion>, cs: seq<Completion>, c: Completion, aggregate: bool)
    ensures AddAll(list, cs + [c], aggregate) == AddOne(AddAll(list, cs, aggregate), c, aggregate)
  {
    InitOfSnoc(cs, c);
  }

  /** How the stream was cut into deltas does not matter. */
  lemma {:induction false} FoldIsAddAll(list: seq<Completion>, deltas: seq<seq<Completion>>, aggregate: bool)
    ensures Fold(list, deltas, aggregate) == AddAll(list, Flatten(deltas), aggregate)
  {
    if deltas != [] {
      FoldIsAddAll(list, deltas[..|deltas| - 1], aggregate);
      AddAllJoin(list, Flatten(deltas[..|deltas| - 1]), deltas[|deltas| - 1], aggregate);
    }
  }

  ghost predicate CanFold(list: seq<Completion>, deltas: seq<seq<Completion>>, aggregate: bool) {
    deltas != [] ==>
      var init, last := deltas[..|deltas| - 1], deltas[|deltas| - 1];
      CanFold(list, init, aggregate) && CanAddAll(Fold(list, init, aggregate), last, aggregate)
  }

  lemma {:induction false} CanAddAllJoin(list: seq<Completion>, a: seq<Completion>, b: seq<Completion>, aggregate: bool)
    ensures CanAddAll(list, a + b, aggregate) <==>
      CanAddAll(list, a, aggregate) && CanAddAll(AddAll(list, a, aggregate), b, aggregate)
  {
    if b == [] {
      assert a + b == a;
    } else {
      var init, last := b[..|b| - 1], b[|b| - 1];
      CanAddAllJoin(list, a, init, aggregate);
      AddAllJoin(list, a, init, aggregate);
      JoinSnoc(a, b);
      InitOfSnoc(a + init, last);
    }
  }

  /** Nor does it matter for whether an assertion fails. */
  lemma {:induction false} CanFoldIff(list: seq<Completion>, deltas: seq<seq<Completion>>, aggregate: bool)
    ensures CanFold(list, deltas, aggregate) <==> CanAddAll(list, Flatten(deltas), aggregate)
  {
    if deltas != [] {
      var init, last := deltas[..|deltas| - 1], deltas[|deltas| - 1];
      CanFoldIff(list, init, aggregate);
      FoldIsAddAll(list, init, aggregate);
      CanAddAllJoin(list, Flatten(init), last, aggregate);
    }
  }

  /** After any run of deltas, an output holds the concatenation of all pieces of its index, with the last ending. */
  lemma RunIsConcatenation(list: seq<Completion>, deltas: seq<seq<Completion>>, index: int)
    requires Distinct(list) && AllSettled(list + Flatten(deltas))
    ensures CanAddAll(list, Flatten(deltas), true)
    ensures DigestOf(Fold(list, deltas, true), index) == DigestOf(list + Flatten(deltas), index)
    ensures Distinct(Fold(list, deltas, true))
    ensures Indices(Fold(list, deltas, true)) == Firsts(Indices(list) + Indices(Flatten(deltas)))
  {
    CanAddAllIff(list, Flatten(deltas));
    FoldIsAddAll(list, deltas, true);
    DigestOfAll(list, Flatten(deltas), index);
    IndicesOfAll(list, Flatten(deltas), true);
  }

  // ----- Replacing instead of merging

  /** `c` is the last piece with its index. */
  ghost predicate IsLatest(pieces: seq<Completion>, c: Completion) {
    exists k :: 0 <= k < |pieces| && pieces[k] == c && forall j :: k < j < |pieces| ==> pieces[j].index != c.index
  }

  lemma LatestStays(pieces: seq<Completion>, c: Completion, next: Completion)
    requires IsLatest(pieces, c) && c.index != next.index
    ensures IsLatest(pieces + [next], c)
  {
    var k :| 0 <= k < |pieces| && pieces[k] == c && forall j :: k < j < |pieces| ==> pieces[j].index != c.index;
    assert (pieces + [next])[k] == c;
  }

  lemma LatestIsNext(pieces: seq<Completion>, next: Completion)
    ensures IsLatest(pieces + [next], next)
  {
    assert (pieces + [next])[|pieces|] == next;
  }

  /** Without aggregation, an output is the last piece of its index. */
  lemma {:induction false} ReplacedByLatest(list: seq<Completion>, cs: seq<Completion>, i: nat)
    requires Distinct(list) && i < |AddAll(list, cs, false)|
    ensures IsLatest(list + cs, AddAll(list, cs, false)[i])
  {
    if cs == [] {
      assert list + cs == list;
    } else {
      var init, last := cs[..|cs| - 1], cs[|cs| - 1];
      var before := AddAll(list, init, false);
      JoinSnoc(list, cs);
      IndicesOfAll(list, init, false);
      if AddAll(list, cs, false)[i] == last {
        LatestIsNext(list + init, last);
      } else {
        ReplacedByLatest(list, init, i);
        OtherIndex(before, last, i);
        LatestStays(list + init, before[i], last);
      }
    }
  }

  lemma OtherIndex(list: seq<Completion>, c: Completion, i: nat)
    requires Distinct(list) && i < |list| && AddOne(list, c, false)[i] != c
    ensures list[i].index != c.index && AddOne(list, c, false)[i] == list[i]
  {
  }
}
