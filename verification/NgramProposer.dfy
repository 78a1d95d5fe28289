/**
 Prompt-lookup drafting: a linear-time search (failure links over the reversed tokens) for the
 longest n-gram that repeats the end of the text, proved against the plain definition.
 */
module NgramProposer {
  import opened Basics

  // ----- The plain definition

  /** An earlier occurrence, starting at `s`, of the last `v` tokens. */
  ghost predicate Occurs(text: seq<int>, v: nat, s: nat) {
    s + v < |text| && text[s..s + v] == text[|text| - v..]
  }

  /** The longest repeated n-gram of at most `maxN` tokens, at its earliest occurrence. */
  ghost predicate BestMatch(text: seq<int>, maxN: nat, v: nat, s: nat) {
    && 0 < v <= maxN && Occurs(text, v, s)
    && (forall v': nat, s': nat :: v' <= maxN && Occurs(text, v', s') ==> v' <= v)
    && (forall s' :: 0 <= s' < s ==> !Occurs(text, v, s'))
  }

  /** Both parts of a best match are determined by the text. */
  lemma BestMatchUnique(text: seq<int>, maxN: nat, v: nat, s: nat, v': nat, s': nat)
    requires BestMatch(text, maxN, v, s) && BestMatch(text, maxN, v', s')
    ensures v == v' && s == s'
  {
  }

  // ----- Borders of the reversed text

  /** The first `v` tokens are repeated just before and including position `i`. */
  ghost predicate Border(t: seq<int>, v: nat, i: nat) {
    v <= i < |t| && t[..v] == t[i + 1 - v..i + 1]
  }

  lemma Shorten(t: seq<int>, v: nat, i: nat)
    requires 0 < v && Border(t, v, i) && 0 < i
    ensures Border(t, v - 1, i - 1) && t[v - 1] == t[i]
  {
    assert t[v - 1] == t[..v][v - 1] == t[i + 1 - v..i + 1][v - 1] == t[i];
    assert t[..v - 1] == t[..v][..v - 1] && t[i + 1 - v..i] == t[i + 1 - v..i + 1][..v - 1];
  }

  lemma Lengthen(t: seq<int>, v: nat, i: nat)
    requires Border(t, v, i) && i + 1 < |t| && t[v] == t[i + 1]
    ensures Border(t, v + 1, i + 1)
  {
    assert t[..v + 1] == t[..v] + [t[v]] && t[i + 1 - v..i + 2] == t[i + 1 - v..i + 1] + [t[i + 1]];
  }

  /** A shorter border of the same position is a border of the longer one, and the other way round. */
  lemma Nested(t: seq<int>, w: nat, v: nat, i: nat)
    requires w < v && Border(t, v, i)
    ensures Border(t, w, i) <==> Border(t, w, v - 1)
  {
    assert t[v - w..v] == t[..v][v - w..] && t[i + 1 - w..i + 1] == t[i + 1 - v..i + 1][v - w..];
  }

  /** `v` is the longest border at `i` among those of at most `cap` tokens. */
  ghost predicate Longest(t: seq<int>, cap: nat, v: nat, i: nat) {
    v <= cap && Border(t, v, i) && forall w: nat :: w <= cap && Border(t, w, i) ==> w <= v
  }

  /** A failure link, once position `j` has been passed; zero until then. */
  ghost predicate Link(t: seq<int>, lps: seq<nat>, i: nat, j: nat)
    requires j < |lps|
  {
    if j < i then Longest(t, j, lps[j], j) else lps[j] == 0
  }

  ghost predicate FailureLinks(t: seq<int>, lps: seq<nat>, i: nat) {
    forall j {:trigger Link(t, lps, i, j)} :: 0 <= j < |lps| ==> Link(t, lps, i, j)
  }

  /** Nothing longer than `prev` can be extended by the token at `i`. */
  ghost predicate Candidate(t: seq<int>, cap: nat, prev: nat, i: nat)
    requires 0 < i <= |t|
  {
    && prev < cap && Border(t, prev, i - 1)
    && (i < |t| ==> forall w :: prev < w < cap && Border(t, w, i - 1) ==> t[w] != t[i])
  }

  /** The best border over the positions before `i`, at the last position that has it. */
  ghost predicate BestSoFar(t: seq<int>, cap: nat, longest: nat, position: nat, i: nat) {
    && longest <= cap
    && (forall j: nat, w: nat :: 0 < j < i && w <= cap && Border(t, w, j) ==> w <= longest)
    && (longest > 0 ==> 0 < position < i && Border(t, longest, position))
    && (longest > 0 ==> forall j :: position < j < i ==> !Border(t, longest, j))
  }

  lemma ExtendedIsLongest(t: seq<int>, cap: nat, prev: nat, i: nat)
    requires 0 < i < |t| && Candidate(t, cap, prev, i) && t[prev] == t[i]
    ensures Longest(t, cap, prev + 1, i)
  {
    Lengthen(t, prev, i - 1);
    forall w: nat | w <= cap && Border(t, w, i) ensures w <= prev + 1 {
      if w > prev + 1 { Shorten(t, w, i); }
    }
  }

  lemma NothingToExtend(t: seq<int>, cap: nat, i: nat)
    requires 0 < i < |t| && Candidate(t, cap, 0, i) && t[0] != t[i]
    ensures Longest(t, cap, 0, i)
  {
    forall w: nat | w <= cap && Border(t, w, i) ensures w <= 0 {
      if w > 0 { Shorten(t, w, i); }
    }
  }

  /** After a full-length match the search resumes from the failure link of the longest prefix. */
  lemma FallBackFromCap(t: seq<int>, cap: nat, link: nat, i: nat)
    requires 0 < cap && Longest(t, cap, cap, i) && Longest(t, cap - 1, link, cap - 1)
    ensures Candidate(t, cap, link, i + 1)
  {
    Nested(t, link, cap, i);
    forall w | link < w < cap && Border(t, w, i) ensures false {
      Nested(t, w, cap, i);
    }
  }

  lemma FallBack(t: seq<int>, cap: nat, prev: nat, link: nat, i: nat)
    requires 0 < i < |t| && Candidate(t, cap, prev, i) && 0 < prev && t[prev] != t[i]
    requires Longest(t, prev - 1, link, prev - 1)
    ensures Candidate(t, cap, link, i)
  {
    Nested(t, link, prev, i - 1);
    forall w | link < w < cap && Border(t, w, i - 1) ensures t[w] != t[i] {
      if w < prev { Nested(t, w, prev, i - 1); }
    }
  }

  lemma LongestIsCandidate(t: seq<int>, cap: nat, v: nat, i: nat)
    requires Longest(t, cap, v, i) && v < cap
    ensures Candidate(t, cap, v, i + 1)
  {
  }

  lemma BetterAt(t: seq<int>, cap: nat, longest: nat, position: nat, i: nat, v: nat)
    requires 0 < i < |t| && BestSoFar(t, cap, longest, position, i) && Longest(t, cap, v, i)
    ensures v > 0 && v >= longest ==> BestSoFar(t, cap, v, i, i + 1)
    ensures v == 0 || v < longest ==> BestSoFar(t, cap, longest, position, i + 1)
  {
  }

  /** Recording the longest border at `i` completes the failure links up to `i`. */
  lemma LinksGrow(t: seq<int>, links: seq<nat>, i: nat, v: nat)
    requires FailureLinks(t, links, i) && Longest(t, |links|, v, i)
    ensures FailureLinks(t, if i < |links| then links[i := v] else links, i + 1)
  {
    var links' := if i < |links| then links[i := v] else links;
    var next := i + 1;
    forall j | 0 <= j < |links'| ensures Link(t, links', next, j) {
      assert Link(t, links, i, j);
    }
  }

  /** The state of the scan before position `i`. */
  ghost predicate ScanState(t: seq<int>, links: seq<nat>, longest: nat, position: nat, prev: nat, i: nat) {
    && 0 < i <= |t| && links != []
    && FailureLinks(t, links, i)
    && Candidate(t, |links|, prev, i)
    && BestSoFar(t, |links|, longest, position, i)
  }

  lemma ScanInit(t: seq<int>, links: seq<nat>)
    requires t != [] && links != [] && forall j :: 0 <= j < |links| ==> links[j] == 0
    ensures ScanState(t, links, 0, 0, 0, 1)
  {
    forall j | 0 <= j < |links| ensures Link(t, links, 1, j) { }
  }

  /** The token extends the candidate. */
  lemma ScanMatch(t: seq<int>, links: seq<nat>, longest: nat, position: nat, prev: nat, i: nat,
                  links': seq<nat>, longest': nat, position': nat, prev': nat)
    requires ScanState(t, links, longest, position, prev, i) && i < |t| && t[prev] == t[i]
    requires links' == if i < |links| then links[i := prev + 1] else links
    requires prev + 1 >= longest ==> longest' == prev + 1 && position' == i
    requires prev + 1 < longest ==> longest' == longest && position' == position
    requires prev' == if prev + 1 == |links| then links'[|links| - 1] else prev + 1
    ensures ScanState(t, links', longest', position', prev', i + 1)
  {
    ExtendedIsLongest(t, |links|, prev, i);
    BetterAt(t, |links|, longest, position, i, prev + 1);
    LinksGrow(t, links, i, prev + 1);
    NextCandidate(t, links, prev, i, links', prev');
  }

  /** What the scan goes on with after a match: the longer candidate, or at the cap the next shorter one. */
  lemma NextCandidate(t: seq<int>, links: seq<nat>, prev: nat, i: nat, links': seq<nat>, prev': nat)
    requires 0 < i < |t| && links != [] && FailureLinks(t, links, i) && Candidate(t, |links|, prev, i)
    requires t[prev] == t[i] && links' == if i < |links| then links[i := prev + 1] else links
    requires prev' == if prev + 1 == |links| then links'[|links| - 1] else prev + 1
    ensures Candidate(t, |links|, prev', i + 1)
  {
    ExtendedIsLongest(t, |links|, prev, i);
    if prev + 1 == |links| {
      assert Link(t, links, i, |links| - 1);
      FallBackFromCap(t, |links|, links[|links| - 1], i);
    } else {
      LongestIsCandidate(t, |links|, prev + 1, i);
    }
  }

  /** The token does not extend the candidate: try the next shorter one. */
  lemma ScanFallBack(t: seq<int>, links: seq<nat>, longest: nat, position: nat, prev: nat, i: nat)
    requires ScanState(t, links, longest, position, prev, i) && i < |t| && t[prev] != t[i] && prev != 0
    ensures prev - 1 < |links| && links[prev - 1] < prev
    ensures ScanState(t, links, longest, position, links[prev - 1], i)
  {
    assert Link(t, links, i, prev - 1);
    FallBack(t, |links|, prev, links[prev - 1], i);
  }

  /** Nothing left to extend. */
  lemma ScanSkip(t: seq<int>, links: seq<nat>, longest: nat, position: nat, i: nat)
    requires ScanState(t, links, longest, position, 0, i) && i < |t| && t[0] != t[i]
    ensures ScanState(t, links, longest, position, 0, i + 1)
  {
    NothingToExtend(t, |links|, i);
    BetterAt(t, |links|, longest, position, i, 0);
    LinksGrow(t, links, i, 0);
    if i < |links| { assert Link(t, links, i, i); assert links[i := 0] == links; }
    LongestIsCandidate(t, |links|, 0, i);
  }

  /** A matching token extends the candidate, and the table while it has room. */
  method Match(t: seq<int>, lps: array<nat>, longest: nat, position: nat, prev: nat, i: nat)
    returns (longest': nat, position': nat, prev': nat)
    requires ScanState(t, lps[..], longest, position, prev, i) && i < |t| && t[prev] == t[i]
    modifies lps
    ensures ScanState(t, lps[..], longest', position', prev', i + 1)
  {
    ghost var links := lps[..];
    longest', position', prev' := longest, position, prev + 1;
    if prev' >= longest {
      longest', position' := prev', i;
    }
    if i < lps.Length {
      lps[i] := prev';
    }
    assert lps[..] == if i < |links| then links[i := prev'] else links;
    if prev' == lps.Length {
      prev' := lps[lps.Length - 1];
    }
    ScanMatch(t, links, longest, position, prev, i, lps[..], longest', position', prev');
  }

  /** A token that does not match: the next shorter candidate, or the next position if there is none. */
  method Mismatch(t: seq<int>, lps: array<nat>, ghost longest: nat, ghost position: nat, prev: nat, i: nat)
    returns (prev': nat, i': nat)
    requires ScanState(t, lps[..], longest, position, prev, i) && i < |t| && t[prev] != t[i]
    ensures ScanState(t, lps[..], longest, position, prev', i')
    ensures if prev != 0 then i' == i && prev' < prev else i' == i + 1 && prev' == 0
  {
    prev', i' := 0, i + 1;
    if prev != 0 {
      ScanFallBack(t, lps[..], longest, position, prev, i);
      prev', i' := lps[prev - 1], i;
    } else {
      ScanSkip(t, lps[..], longest, position, i);
    }
  }

  /** The scan over the reversed tokens. */
  method Scan(t: seq<int>, maxN: nat) returns (longest: nat, position: nat)
    requires 0 < maxN && t != []
    ensures BestSoFar(t, maxN, longest, position, |t|)
  {
    var lps := new nat[maxN](_ => 0);
    longest, position := 0, 0;
    var prev: nat, i: nat := 0, 1;
    ScanInit(t, lps[..]);
    while i < |t|
      invariant ScanState(t, lps[..], longest, position, prev, i)
      decreases |t| - i, prev
    {
      if t[prev] == t[i] {
        longest, position, prev := Match(t, lps, longest, position, prev, i);
        i := i + 1;
      } else {
        prev, i := Mismatch(t, lps, longest, position, prev, i);
      }
    }
  }

  // ----- Back to the text

  lemma ReversedSlice(text: seq<int>, a: nat, b: nat)
    requires a <= b <= |text|
    ensures Reversed(text)[a..b] == Reversed(text[|text| - b..|text| - a])
  {
  }

  lemma ReversedInjective(a: seq<int>, b: seq<int>)
    ensures Reversed(a) == Reversed(b) <==> a == b
  {
    if Reversed(a) == Reversed(b) {
      forall i | 0 <= i < |a| ensures a[i] == b[i] {
        assert Reversed(a)[|a| - 1 - i] == a[i] && Reversed(b)[|a| - 1 - i] == b[i];
      }
    }
  }

  /** Borders of the reversed text are earlier occurrences of the end of the text. */
  lemma BorderIsOccurrence(text: seq<int>, v: nat, i: nat)
    requires i < |text|
    ensures Border(Reversed(text), v, i) <==> v <= i && Occurs(text, v, |text| - 1 - i)
  {
    if v <= i { ReversedSlices(text, v, i); }
  }

  lemma ReversedSlices(text: seq<int>, v: nat, i: nat)
    requires v <= i < |text|
    ensures Reversed(text)[..v] == Reversed(text)[i + 1 - v..i + 1] <==>
      text[|text| - v..] == text[|text| - 1 - i..|text| - 1 - i + v]
  {
    ReversedSlice(text, 0, v);
    ReversedSlice(text, i + 1 - v, i + 1);
    ReversedInjective(text[|text| - v..], text[|text| - 1 - i..|text| - 1 - i + v]);
  }

  /** The best border over all positions is the best match. */
  lemma BestBorderIsBestMatch(text: seq<int>, maxN: nat, longest: nat, position: nat)
    requires BestSoFar(Reversed(text), maxN, longest, position, |text|)
    ensures longest > 0 ==> position < |text| && BestMatch(text, maxN, longest, |text| - 1 - position)
    ensures forall v: nat, s: nat :: v <= maxN && Occurs(text, v, s) ==> v <= longest
  {
    var n := |text|;
    forall v: nat, s: nat | v <= maxN && Occurs(text, v, s) ensures v <= longest {
      BorderIsOccurrence(text, v, n - 1 - s);
    }
    if longest > 0 {
      BorderIsOccurrence(text, longest, position);
      forall s | 0 <= s < n - 1 - position ensures !Occurs(text, longest, s) {
        BorderIsOccurrence(text, longest, n - 1 - s);
      }
    }
  }

  /** The draft repeats the text from `from` on. */
  ghost predicate Drafts(text: seq<int>, from: nat, draft: seq<int>) {
    draft != [] && from + |draft| <= |text| && text[from..from + |draft|] == draft
  }

  /**
   `_find_longest_matched_ngram_and_propose_tokens`: the tokens after the earliest occurrence of
   the longest n-gram, of `minN` to `maxN` tokens, that also ends the text. The draft ends only at `k`
   tokens, at the model length or at the end of the text.
   */
  method ProposeTokens(text: seq<int>, minN: nat, maxN: nat, maxModelLen: int, k: int) returns (draft: seq<int>)
    requires 0 < minN <= maxN
    ensures draft != [] ==> |draft| <= k && |text| + |draft| <= maxModelLen
    ensures k > 0 && |text| < maxModelLen ==>
      forall v: nat, s: nat :: BestMatch(text, maxN, v, s) && v >= minN ==>
        Drafts(text, s + v, draft) && (|draft| == k || |text| + |draft| == maxModelLen || s + v + |draft| == |text|)
    ensures draft != [] ==> exists v: nat, s: nat :: BestMatch(text, maxN, v, s) && v >= minN
  {
    var n := |text|;
    if n < minN {
      return [];
    }
    var room := Min(k, maxModelLen - n);
    if room <= 0 {
      return [];
    }
    var longest, position := Scan(Reversed(text), maxN);
    BestBorderIsBestMatch(text, maxN, longest, position);
    if longest < minN {
      assert forall v: nat, s: nat :: BestMatch(text, maxN, v, s) ==> Occurs(text, v, s);
      return [];
    }
    var start := n - 1 - position + longest;
    room := Min(room, n - start);
    draft := text[start..start + room];
    forall v: nat, s: nat | BestMatch(text, maxN, v, s) && v >= minN ensures v == longest && s == n - 1 - position {
      BestMatchUnique(text, maxN, v, s, longest, n - 1 - position);
    }
  }
}
