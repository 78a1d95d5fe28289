/** Dictionaries of log probabilities, and the rows of flat columns that stand for them. */
module LogprobRows {
  import opened Basics
  datatype Result<T> = Ok(value: T) | IndexError | ValueError

  datatype Text = Text(chars: string)
  datatype Logprob = Logprob(logprob: real, rank: Option<int>, decodedToken: Option<Text>)

  // ----- Dictionaries, in insertion order

  datatype Entry = Entry(tokenId: int, info: Logprob)
  type Dict = seq<Entry>

  ghost predicate IsDict(d: Dict) {
    forall i, j :: 0 <= i < j < |d| ==> d[i].tokenId != d[j].tokenId
  }

  function Find(d: Dict, tokenId: int): (k: nat)
    ensures k <= |d| && (k < |d| ==> d[k].tokenId == tokenId)
    ensures forall i :: 0 <= i < k ==> d[i].tokenId != tokenId
  {
    if d == [] then 0
    else
      var n := |d| - 1;
      var k := Find(d[..n], tokenId);
      if k < n || d[n].tokenId == tokenId then k else |d|
  }

  /** Setting a key keeps its place when it is there and appends it when it is not. */
  function Insert(d: Dict, e: Entry): Dict {
    var k := Find(d, e.tokenId);
    if k < |d| then d[k := e] else d + [e]
  }

  /** The dictionary that a comprehension over `entries` builds. */
  function DictOf(entries: seq<Entry>): Dict {
    if entries == [] then [] else Insert(DictOf(entries[..|entries| - 1]), entries[|entries| - 1])
  }

  lemma DictOfSnoc(entries: seq<Entry>, e: Entry)
    ensures DictOf(entries + [e]) == Insert(DictOf(entries), e)
  {
    assert (entries + [e])[..|entries|] == entries;
  }

  lemma {:induction false} DictOfIsDict(entries: seq<Entry>)
    ensures IsDict(DictOf(entries))
  {
    if entries != [] { DictOfIsDict(entries[..|entries| - 1]); }
  }

  /** Building a dictionary from the items of a dictionary gives it back. */
  lemma {:induction false} DictOfDict(d: Dict)
    requires IsDict(d)
    ensures DictOf(d) == d
  {
    if d != [] {
      DictOfDict(d[..|d| - 1]);
      assert d == d[..|d| - 1] + [d[|d| - 1]];
    }
  }

  lemma {:induction false} SameTokens(es: seq<Entry>, id: int)
    ensures Find(DictOf(es), id) < |DictOf(es)| <==> Find(es, id) < |es|
  {
    if es != [] {
      var n := |es| - 1;
      SameTokens(es[..n], id);
      TokensAfterInsert(DictOf(es[..n]), es[n], id);
    }
  }

  lemma TokensAfterInsert(d: Dict, e: Entry, id: int)
    ensures Find(Insert(d, e), id) < |Insert(d, e)| <==> Find(d, id) < |d| || id == e.tokenId
  {
    var after, k := Insert(d, e), Find(d, e.tokenId);
    if Find(d, id) < |d| {
      assert after[Find(d, id)].tokenId == id;
    } else if id == e.tokenId {
      assert after[k].tokenId == id;
    } else if Find(after, id) < |after| {
      assert after[Find(after, id)].tokenId == id;
    }
  }

  /** Tokens stand in the order of their first entries. */
  lemma {:induction false} FirstEntriesInOrder(es: seq<Entry>, i: nat, j: nat)
    requires i < j < |DictOf(es)|
    ensures Find(es, DictOf(es)[i].tokenId) < Find(es, DictOf(es)[j].tokenId)
  {
    var n := |es| - 1;
    var init, before := es[..n], DictOf(es[..n]);
    SameTokens(init, es[n].tokenId);
    if j < |before| {
      FirstEntriesInOrder(init, i, j);
      SameTokens(init, before[j].tokenId);
    }
    if i < |before| { SameTokens(init, before[i].tokenId); }
  }

  /** `es[k]` is the last entry for its token. */
  ghost predicate IsLast(es: seq<Entry>, k: nat) {
    k < |es| && forall j :: k < j < |es| ==> es[j].tokenId != es[k].tokenId
  }

  /** The last duplicate wins. */
  lemma {:induction false} LastWins(es: seq<Entry>, k: nat)
    requires IsLast(es, k)
    ensures es[k] in DictOf(es)
  {
    var n := |es| - 1;
    var before := DictOf(es[..n]);
    if k < n {
      assert IsLast(es[..n], k);
      LastWins(es[..n], k);
      var i :| 0 <= i < |before| && before[i] == es[k];
      assert DictOf(es)[i] == es[k];
    } else {
      assert DictOf(es)[Find(before, es[n].tokenId)] == es[n];
    }
  }

  /** A dictionary holds nothing but last entries. */
  lemma {:induction false} OnlyLast(es: seq<Entry>, i: nat) returns (k: nat)
    requires i < |DictOf(es)|
    ensures IsLast(es, k) && DictOf(es)[i] == es[k]
  {
    var n := |es| - 1;
    var before := DictOf(es[..n]);
    DictOfIsDict(es[..n]);
    if DictOf(es)[i] == es[n] {
      k := n;
    } else {
      k := OnlyLast(es[..n], i);
      assert before[i] == es[k];
      assert Find(before, es[n].tokenId) != i;
    }
  }

  // ----- Columns

  function Shortest(a: nat, b: nat, c: nat, d: nat): nat {
    var ab, cd := if a <= b then a else b, if c <= d then c else d;
    if ab <= cd then ab else cd
  }

  /** `zip` of the four columns, as entries. */
  function Zip(tokenIds: seq<int>, logprobs: seq<real>, ranks: seq<Option<int>>,
               decodedTokens: seq<Option<Text>>): (z: seq<Entry>)
    ensures |z| == Shortest(|tokenIds|, |logprobs|, |ranks|, |decodedTokens|)
    ensures forall i :: 0 <= i < |z| ==> z[i] == Entry(tokenIds[i], Logprob(logprobs[i], ranks[i], decodedTokens[i]))
  {
    seq(Shortest(|tokenIds|, |logprobs|, |ranks|, |decodedTokens|),
        i requires 0 <= i < Shortest(|tokenIds|, |logprobs|, |ranks|, |decodedTokens|) =>
          Entry(tokenIds[i], Logprob(logprobs[i], ranks[i], decodedTokens[i])))
  }

  ghost predicate SameLength(tokenIds: seq<int>, logprobs: seq<real>, ranks: seq<Option<int>>,
                             decodedTokens: seq<Option<Text>>) {
    |tokenIds| == |logprobs| == |ranks| == |decodedTokens|
  }

  lemma ZipSnoc(tokenIds: seq<int>, logprobs: seq<real>, ranks: seq<Option<int>>, decodedTokens: seq<Option<Text>>,
                e: Entry)
    requires SameLength(tokenIds, logprobs, ranks, decodedTokens)
    ensures Zip(tokenIds + [e.tokenId], logprobs + [e.info.logprob],
                ranks + [e.info.rank], decodedTokens + [e.info.decodedToken])
         == Zip(tokenIds, logprobs, ranks, decodedTokens) + [e]
  {
  }

  lemma ZipSlice(tokenIds: seq<int>, logprobs: seq<real>, ranks: seq<Option<int>>, decodedTokens: seq<Option<Text>>,
                 lo: nat, hi: nat)
    requires SameLength(tokenIds, logprobs, ranks, decodedTokens) && lo <= hi <= |logprobs|
    ensures Zip(tokenIds[lo..hi], logprobs[lo..hi], ranks[lo..hi], decodedTokens[lo..hi])
         == Zip(tokenIds, logprobs, ranks, decodedTokens)[lo..hi]
  {
  }

  // ----- Positions

  /** Rows in order, possibly with gaps between them, inside `n` entries. */
  ghost predicate Ranges(starts: seq<int>, ends: seq<int>, n: nat) {
    && |starts| == |ends|
    && (forall i :: 0 <= i < |starts| ==> 0 <= starts[i] <= ends[i] <= n)
    && (forall i, j :: 0 <= i < j < |starts| ==> ends[i] <= starts[j])
  }

  /** The dictionaries that the rows stand for. */
  ghost function Rows(starts: seq<int>, ends: seq<int>, es: seq<Entry>): (v: seq<Dict>)
    requires Ranges(starts, ends, |es|)
    ensures |v| == |starts| && forall i :: 0 <= i < |v| ==> v[i] == DictOf(es[starts[i]..ends[i]])
  {
    seq(|starts|, i requires 0 <= i < |starts| => DictOf(es[starts[i]..ends[i]]))
  }

  lemma AppendRange(starts: seq<int>, ends: seq<int>, n: nat, more: nat)
    requires Ranges(starts, ends, n)
    ensures Ranges(starts + [n], ends + [n + more], n + more)
  {
  }

  lemma OldRow(es: seq<Entry>, row: seq<Entry>, start: int, end: int)
    requires 0 <= start <= end <= |es|
    ensures DictOf((es + row)[start..end]) == DictOf(es[start..end])
  {
    SliceOfJoin(es, row, start, end);
  }

  lemma NewRow(es: seq<Entry>, row: seq<Entry>)
    ensures DictOf((es + row)[|es|..|es| + |row|]) == DictOf(row)
  {
    TailOfJoin(es, row);
  }

  lemma AppendRow(starts: seq<int>, ends: seq<int>, es: seq<Entry>, row: seq<Entry>)
    requires Ranges(starts, ends, |es|)
    ensures Ranges(starts + [|es|], ends + [|es| + |row|], |es + row|)
    ensures Rows(starts + [|es|], ends + [|es| + |row|], es + row) == Rows(starts, ends, es) + [DictOf(row)]
  {
    AppendRange(starts, ends, |es|, |row|);
    var before, after := Rows(starts, ends, es), Rows(starts + [|es|], ends + [|es| + |row|], es + row);
    forall i: nat | i < |starts| ensures after[i] == before[i] {
      OldRow(es, row, starts[i], ends[i]);
    }
    NewRow(es, row);
    OneElementMore(before, after, DictOf(row));
  }

  /** The elements of `s` at the given positions. */
  function Picked<T>(s: seq<T>, at: seq<nat>): (r: seq<T>)
    requires forall k :: 0 <= k < |at| ==> at[k] < |s|
    ensures |r| == |at| && forall k :: 0 <= k < |at| ==> r[k] == s[at[k]]
  {
    seq(|at|, k requires 0 <= k < |at| => s[at[k]])
  }

  function Shifted(s: seq<int>, shift: int): (r: seq<int>)
    ensures |r| == |s| && forall k :: 0 <= k < |s| ==> r[k] == s[k] - shift
  {
    seq(|s|, k requires 0 <= k < |s| => s[k] - shift)
  }

  ghost predicate Increasing(at: seq<nat>, n: nat) {
    && (forall k :: 0 <= k < |at| ==> at[k] < n)
    && (forall k, l :: 0 <= k < l < |at| ==> at[k] < at[l])
  }

  /** The row ends are in order too, so picked rows lie between the first start and the last end. */
  lemma PickedBetween(starts: seq<int>, ends: seq<int>, n: nat, at: seq<nat>, k: nat)
    requires Ranges(starts, ends, n) && Increasing(at, |starts|) && k < |at|
    ensures starts[at[0]] <= starts[at[k]] <= ends[at[k]] <= ends[at[|at| - 1]] <= n
  {
    var last := |at| - 1;
    if 0 < k { assert at[0] < at[k]; }
    if k < last { assert at[k] < at[last]; }
  }

  lemma PickedRanges(starts: seq<int>, ends: seq<int>, n: nat, at: seq<nat>, lo: int, hi: int)
    requires Ranges(starts, ends, n) && Increasing(at, |starts|) && at != []
    requires lo == starts[at[0]] && hi == ends[at[|at| - 1]]
    ensures 0 <= lo <= hi <= n
    ensures Ranges(Shifted(Picked(starts, at), lo), Shifted(Picked(ends, at), lo), hi - lo)
  {
    PickedBetween(starts, ends, n, at, 0);
    forall k: nat | k < |at| ensures lo <= starts[at[k]] <= ends[at[k]] <= hi { PickedBetween(starts, ends, n, at, k); }
  }

  /** A picked row, where `first` and `last` are its shifted bounds. */
  lemma PickedRow(starts: seq<int>, ends: seq<int>, es: seq<Entry>, at: seq<nat>, lo: int, hi: int, first: int,
                  last: int, k: nat)
    requires Ranges(starts, ends, |es|) && Increasing(at, |starts|) && k < |at|
    requires lo == starts[at[0]] && hi == ends[at[|at| - 1]]
    requires first == starts[at[k]] - lo && last == ends[at[k]] - lo
    ensures 0 <= lo <= hi <= |es| && 0 <= first <= last <= hi - lo
    ensures DictOf(es[lo..hi][first..last]) == Rows(starts, ends, es)[at[k]]
  {
    PickedBetween(starts, ends, |es|, at, k);
    CutOfSlice(es, lo, hi, first, last);
  }

  lemma PickedRows(starts: seq<int>, ends: seq<int>, es: seq<Entry>, at: seq<nat>, lo: int, hi: int,
                   first: seq<int>, last: seq<int>)
    requires Ranges(starts, ends, |es|) && Increasing(at, |starts|) && at != []
    requires lo == starts[at[0]] && hi == ends[at[|at| - 1]] && 0 <= lo <= hi <= |es|
    requires first == Shifted(Picked(starts, at), lo) && last == Shifted(Picked(ends, at), lo)
    requires Ranges(first, last, |es[lo..hi]|)
    ensures Rows(first, last, es[lo..hi]) == Picked(Rows(starts, ends, es), at)
  {
    var rows, picked := Rows(first, last, es[lo..hi]), Picked(Rows(starts, ends, es), at);
    forall k: nat | k < |at| ensures rows[k] == picked[k] {
      PickedRow(starts, ends, es, at, lo, hi, first[k], last[k], k);
    }
    SameElements(rows, picked);
  }

  /** Picking rows and cutting off what lies outside keeps the rows readable. */
  lemma PickRows(starts: seq<int>, ends: seq<int>, es: seq<Entry>, at: seq<nat>, lo: int, hi: int)
    requires Ranges(starts, ends, |es|) && Increasing(at, |starts|) && at != []
    requires lo == starts[at[0]] && hi == ends[at[|at| - 1]]
    ensures 0 <= lo <= hi <= |es|
    ensures Ranges(Shifted(Picked(starts, at), lo), Shifted(Picked(ends, at), lo), |es[lo..hi]|)
    ensures Rows(Shifted(Picked(starts, at), lo), Shifted(Picked(ends, at), lo), es[lo..hi])
         == Picked(Rows(starts, ends, es), at)
  {
    PickedRanges(starts, ends, |es|, at, lo, hi);
    PickedRows(starts, ends, es, at, lo, hi, Shifted(Picked(starts, at), lo), Shifted(Picked(ends, at), lo));
  }

  /** The positions `lo, lo + step, ...` below `hi`. */
  function Indices(lo: nat, hi: nat, step: nat): (at: seq<nat>)
    requires step > 0
    ensures Increasing(at, hi)
    ensures forall k :: 0 <= k < |at| ==> lo <= at[k]
    ensures at == [] <==> lo >= hi
    decreases hi - lo
  {
    if lo >= hi then [] else [lo] + Indices(lo + step, hi, step)
  }

  lemma {:induction false} IndicesAt(lo: nat, hi: nat, step: nat, k: nat)
    requires step > 0
    ensures k < |Indices(lo, hi, step)| <==> lo + k * step < hi
    ensures k < |Indices(lo, hi, step)| ==> Indices(lo, hi, step)[k] == lo + k * step
    decreases k
  {
    if k > 0 {
      OneTimeMore(k - 1, step);
      Monotone(0, k - 1, step);
      if lo < hi { IndicesAt(lo + step, hi, step, k - 1); }
    }
  }

  ghost predicate Decreasing(at: seq<nat>, n: nat) {
    && (forall k :: 0 <= k < |at| ==> at[k] < n)
    && (forall k, l :: 0 <= k < l < |at| ==> at[k] > at[l])
  }

  /** The positions `lo, lo - step, ...` above `stop`. */
  function IndicesDown(lo: int, stop: int, step: nat, ghost n: nat): (at: seq<nat>)
    requires step > 0 && stop >= -1 && lo < n
    ensures Decreasing(at, n)
    ensures forall k :: 0 <= k < |at| ==> at[k] <= lo
    ensures at == [] <==> lo <= stop
    decreases lo - stop
  {
    if lo <= stop then [] else [lo] + IndicesDown(lo - step, stop, step, n)
  }

  lemma {:induction false} IndicesDownAt(lo: int, stop: int, step: nat, n: nat, k: nat)
    requires step > 0 && stop >= -1 && lo < n
    ensures k < |IndicesDown(lo, stop, step, n)| <==> lo - k * step > stop
    ensures k < |IndicesDown(lo, stop, step, n)| ==> IndicesDown(lo, stop, step, n)[k] == lo - k * step
    decreases k
  {
    if k > 0 {
      OneTimeMore(k - 1, step);
      Monotone(0, k - 1, step);
      if lo > stop { IndicesDownAt(lo - step, stop, step, n, k - 1); }
    }
  }

  /** A Python slice. */
  datatype Slice = Slice(start: Option<int>, stop: Option<int>, step: int)

  /** A slice bound against a list of length `n`: counted from the end when negative, then clamped. */
  function Bound(b: Option<int>, default: nat, n: nat): (r: nat)
    requires default <= n
    ensures r <= n
  {
    match b
    case None => default
    case Some(i) =>
      if i < 0 then (if i + n < 0 then 0 else i + n)
      else if i > n then n else i
  }

  /** The same for a negative step, where the bounds lie one lower. */
  function BoundDown(b: Option<int>, default: int, n: nat): (r: int)
    requires -1 <= default < n
    ensures -1 <= r < n
  {
    match b
    case None => default
    case Some(i) =>
      if i < 0 then (if i + n < 0 then -1 else i + n)
      else if i >= n then n - 1 else i
  }

  /** The positions that a slice of a list of length `n` picks, in its order. */
  function SliceIndices(s: Slice, n: nat): (at: seq<nat>)
    requires s.step != 0
    ensures forall k :: 0 <= k < |at| ==> at[k] < n
    ensures s.step > 0 ==> Increasing(at, n)
    ensures s.step < 0 ==> Decreasing(at, n)
  {
    if s.step > 0 then Indices(Bound(s.start, 0, n), Bound(s.stop, n, n), s.step)
    else if n == 0 then []
    else IndicesDown(BoundDown(s.start, n - 1, n), BoundDown(s.stop, -1, n), -s.step, n)
  }

  // ----- What the bounds mean

  /** A negative bound counts from the end, with either sign of the step. */
  lemma NegativeBounds(s: Slice, j: int, n: nat)
    requires s.step != 0 && 0 < j <= n
    ensures SliceIndices(s.(start := Some(-j)), n) == SliceIndices(s.(start := Some(n - j)), n)
    ensures SliceIndices(s.(stop := Some(-j)), n) == SliceIndices(s.(stop := Some(n - j)), n)
  {
  }

  /** Going forward, bounds beyond the list on either side mean its ends, as missing ones do. */
  lemma BoundsBeyond(s: Slice, i: int, n: nat)
    requires s.step > 0
    ensures i >= n ==> SliceIndices(s.(stop := Some(i)), n) == SliceIndices(s.(stop := None), n)
    ensures i >= n ==> SliceIndices(s.(start := Some(i)), n) == []
    ensures i + n < 0 ==> SliceIndices(s.(start := Some(i)), n) == SliceIndices(s.(start := None), n)
    ensures i + n < 0 ==> SliceIndices(s.(stop := Some(i)), n) == []
  {
  }

  /** The same going backward. */
  lemma BoundsBeyondDown(s: Slice, i: int, n: nat)
    requires s.step < 0
    ensures i >= n ==> SliceIndices(s.(start := Some(i)), n) == SliceIndices(s.(start := None), n)
    ensures i >= n ==> SliceIndices(s.(stop := Some(i)), n) == []
    ensures i + n < 0 ==> SliceIndices(s.(stop := Some(i)), n) == SliceIndices(s.(stop := None), n)
    ensures i + n < 0 ==> SliceIndices(s.(start := Some(i)), n) == []
  {
  }

  lemma StepOne(a: nat, b: nat, k: nat)
    requires a <= b
    ensures |Indices(a, b, 1)| == b - a
    ensures k < b - a ==> Indices(a, b, 1)[k] == a + k
  {
    IndicesAt(a, b, 1, k);
    IndicesAt(a, b, 1, b - a);
    if b > a { IndicesAt(a, b, 1, b - a - 1); }
  }

  /** Between bounds within the list, a slice with step one picks all positions in their order. */
  lemma PickedStretch<T>(list: seq<T>, a: nat, b: nat)
    requires a <= b <= |list|
    ensures Picked(list, SliceIndices(Slice(Some(a), Some(b), 1), |list|)) == list[a..b]
  {
    var picked := Picked(list, Indices(a, b, 1));
    StepOne(a, b, 0);
    forall k: nat | k < b - a ensures picked[k] == list[a..b][k] { StepOne(a, b, k); }
    SameElements(picked, list[a..b]);
  }

  /** A missing start is the first position, a missing stop the end. */
  lemma MissingBounds(a: nat, n: nat)
    requires a <= n
    ensures SliceIndices(Slice(Some(a), None, 1), n) == SliceIndices(Slice(Some(a), Some(n), 1), n)
    ensures SliceIndices(Slice(None, Some(a), 1), n) == SliceIndices(Slice(Some(0), Some(a), 1), n)
  {
  }

  /** `list[-j:]` is the last `j` positions, and `list[:-j]` what comes before them. */
  lemma PickedFromEnd<T>(list: seq<T>, j: int)
    requires 0 < j <= |list|
    ensures Picked(list, SliceIndices(Slice(Some(-j), None, 1), |list|)) == list[|list| - j..]
    ensures Picked(list, SliceIndices(Slice(None, Some(-j), 1), |list|)) == list[..|list| - j]
  {
    var m := |list| - j;
    NegativeBounds(Slice(None, None, 1), j, |list|);
    MissingBounds(m, |list|);
    PickedStretch(list, m, |list|);
    PickedStretch(list, 0, m);
  }

  lemma StepMinusOne(n: nat, k: nat)
    ensures |IndicesDown(n - 1, -1, 1, n)| == n
    ensures k < n ==> IndicesDown(n - 1, -1, 1, n)[k] == n - 1 - k
  {
    IndicesDownAt(n - 1, -1, 1, n, k);
    IndicesDownAt(n - 1, -1, 1, n, n);
    if n > 0 { IndicesDownAt(n - 1, -1, 1, n, n - 1); }
  }

  /** Going backward without bounds, a slice with step minus one reverses the list. */
  lemma PickedReversed<T>(list: seq<T>)
    ensures Picked(list, SliceIndices(Slice(None, None, -1), |list|)) == Reversed(list)
  {
    var n := |list|;
    var picked := Picked(list, SliceIndices(Slice(None, None, -1), n));
    StepMinusOne(n, 0);
    forall k: nat | k < n ensures picked[k] == Reversed(list)[k] { StepMinusOne(n, k); }
    SameElements(picked, Reversed(list));
  }

  // ----- Slices that go backward

  /** `s[lo:hi]` for bounds within the list, which is empty where they cross. */
  function Cut<T>(s: seq<T>, lo: nat, hi: nat): seq<T>
    requires lo <= |s| && hi <= |s|
  {
    if lo <= hi then s[lo..hi] else []
  }

  /** `es[i]`, counted from the end when negative. */
  ghost function EntryAt(es: seq<Entry>, i: int): Entry
    requires -|es| <= i < |es|
  {
    if i < 0 then es[i + |es|] else es[i]
  }

  /** The entries from `start` to `end`. */
  ghost function EntriesFrom(es: seq<Entry>, start: int, end: int): (row: seq<Entry>)
    requires -|es| <= start <= end <= |es|
    ensures |row| == end - start && forall i :: 0 <= i < |row| ==> row[i] == EntryAt(es, start + i)
  {
    seq(end - start, i requires 0 <= i < end - start => EntryAt(es, start + i))
  }

  /** Reading a row; `None` where a position is out of range. */
  ghost function ReadRow(es: seq<Entry>, start: int, end: int): Option<Dict> {
    if start >= end then Some([])
    else if start < -|es| || end > |es| then None
    else Some(DictOf(EntriesFrom(es, start, end)))
  }

  /** The rows read as the given dictionaries. */
  ghost predicate Reads(starts: seq<int>, ends: seq<int>, es: seq<Entry>, view: seq<Dict>) {
    |starts| == |ends| == |view| && forall k :: 0 <= k < |view| ==> ReadRow(es, starts[k], ends[k]) == Some(view[k])
  }

  lemma ReadWithin(es: seq<Entry>, start: int, end: int)
    requires 0 <= start <= end <= |es|
    ensures ReadRow(es, start, end) == Some(DictOf(es[start..end]))
  {
    SameElements(EntriesFrom(es, start, end), es[start..end]);
  }

  /** Well-formed rows read as what they stand for. */
  lemma RowsRead(starts: seq<int>, ends: seq<int>, es: seq<Entry>)
    requires Ranges(starts, ends, |es|)
    ensures Reads(starts, ends, es, Rows(starts, ends, es))
  {
    forall k | 0 <= k < |starts| ensures ReadRow(es, starts[k], ends[k]) == Some(Rows(starts, ends, es)[k]) {
      ReadWithin(es, starts[k], ends[k]);
    }
  }

  lemma EmptyDict(es: seq<Entry>)
    ensures DictOf(es) == [] <==> es == []
  {
    if es != [] { LastWins(es, |es| - 1); }
  }

  /** From no entries only empty rows can be read. */
  lemma ReadFromNothing(start: int, end: int, row: seq<Entry>)
    requires |row| == end - start
    ensures ReadRow([], start, end) == Some(DictOf(row)) <==> DictOf(row) == []
  {
    EmptyDict(row);
  }

  /**
   What a backward slice over two positions or more reads as: the picked rows if and only if all of
   them are empty.
   */
  lemma BackwardReadsIff(starts: seq<int>, ends: seq<int>, es: seq<Entry>, at: seq<nat>, lo: int)
    requires Ranges(starts, ends, |es|) && Decreasing(at, |starts|)
    ensures var view := Picked(Rows(starts, ends, es), at);
      Reads(Shifted(Picked(starts, at), lo), Shifted(Picked(ends, at), lo), [], view) <==> AllEmpty(view)
  {
    var view := Picked(Rows(starts, ends, es), at);
    var first, last := Shifted(Picked(starts, at), lo), Shifted(Picked(ends, at), lo);
    forall k | 0 <= k < |at| ensures ReadRow([], first[k], last[k]) == Some(view[k]) <==> view[k] == [] {
      ReadFromNothing(first[k], last[k], es[starts[at[k]]..ends[at[k]]]);
    }
  }

  /** The smallest rows that read wrong backward: two with an entry each, cut from 1 to 1, read as nothing at all. */
  lemma ReverseIsGarbled(e: Entry, view: seq<Dict>)
    ensures !Reads(Shifted(Picked([0, 1], [1, 0]), 1), Shifted(Picked([1, 2], [1, 0]), 1), Cut([e, e], 1, 1), view)
  {
    var starts, ends := Shifted(Picked([0, 1], [1, 0]), 1), Shifted(Picked([1, 2], [1, 0]), 1);
    assert ReadRow(Cut([e, e], 1, 1), starts[0], ends[0]) == None;
  }

  ghost predicate AllEmpty(view: seq<Dict>) { forall k :: 0 <= k < |view| ==> view[k] == [] }
}
