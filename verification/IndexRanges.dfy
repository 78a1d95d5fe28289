/** Lists of indices printed as ranges can be read back, and numbered children are grouped exactly. */
module IndexRanges {
  import opened Basics
  // ----- A stable sort by an integer key

  ghost predicate Ascending<T>(s: seq<T>, key: T -> int) {
    forall i, j :: 0 <= i < j < |s| ==> key(s[i]) <= key(s[j])
  }

  /** Inserts after everything that is not larger. */
  function Insert<T>(s: seq<T>, x: T, key: T -> int): seq<T> {
    if s == [] || key(s[|s| - 1]) <= key(x) then s + [x] else Insert(s[..|s| - 1], x, key) + [s[|s| - 1]]
  }

  function SortBy<T>(s: seq<T>, key: T -> int): seq<T> {
    if s == [] then [] else Insert(SortBy(s[..|s| - 1], key), s[|s| - 1], key)
  }

  lemma {:induction false} InsertKeeps<T>(s: seq<T>, x: T, key: T -> int)
    ensures multiset(Insert(s, x, key)) == multiset(s) + multiset{x}
  {
    if s != [] && key(s[|s| - 1]) > key(x) {
      InsertKeeps(s[..|s| - 1], x, key);
      assert s == s[..|s| - 1] + [s[|s| - 1]];
    }
  }

  ghost predicate Below<T>(s: seq<T>, key: T -> int, bound: int) {
    forall i :: 0 <= i < |s| ==> key(s[i]) <= bound
  }

  lemma {:induction false} InsertBelow<T>(s: seq<T>, x: T, key: T -> int, bound: int)
    requires Below(s, key, bound) && key(x) <= bound
    ensures Below(Insert(s, x, key), key, bound)
  {
    if s != [] && key(s[|s| - 1]) > key(x) { InsertBelow(s[..|s| - 1], x, key, bound); }
  }

  lemma AscendingSnoc<T>(s: seq<T>, x: T, key: T -> int)
    requires Ascending(s, key) && Below(s, key, key(x))
    ensures Ascending(s + [x], key)
  {
  }

  lemma {:induction false} InsertSorts<T>(s: seq<T>, x: T, key: T -> int)
    requires Ascending(s, key)
    ensures Ascending(Insert(s, x, key), key)
  {
    if s != [] && key(s[|s| - 1]) > key(x) {
      var init, last := s[..|s| - 1], s[|s| - 1];
      InsertSorts(init, x, key);
      InsertBelow(init, x, key, key(last));
      AscendingSnoc(Insert(init, x, key), last, key);
    }
  }

  /** Sorting is sorted and loses nothing. */
  lemma {:induction false} SortBySorts<T>(s: seq<T>, key: T -> int)
    ensures Ascending(SortBy(s, key), key) && multiset(SortBy(s, key)) == multiset(s)
  {
    if s != [] {
      SortBySorts(s[..|s| - 1], key);
      InsertSorts(SortBy(s[..|s| - 1], key), s[|s| - 1], key);
      InsertKeeps(SortBy(s[..|s| - 1], key), s[|s| - 1], key);
      MultisetSnoc(s);
    }
  }

  lemma MultisetSnoc<T>(s: seq<T>)
    requires s != []
    ensures multiset(s) == multiset(s[..|s| - 1]) + multiset{s[|s| - 1]}
  {
    assert s == s[..|s| - 1] + [s[|s| - 1]];
  }

  function Sorted(indices: seq<int>): seq<int> { SortBy(indices, (x: int) => x) }

  // ----- Ranges

  datatype Range = Range(lo: int, hi: int)

  function Single(x: int): Range { Range(x, x) }

  ghost predicate AreRanges(rs: seq<Range>) {
    forall k :: 0 <= k < |rs| ==> rs[k].lo <= rs[k].hi
  }

  /** The indices from `lo` to `hi`. */
  ghost function Expand(r: Range): seq<int>
    decreases r.hi - r.lo
  {
    if r.lo > r.hi then [] else Expand(Range(r.lo, r.hi - 1)) + [r.hi]
  }

  ghost function ExpandAll(rs: seq<Range>): seq<int> {
    if rs == [] then [] else ExpandAll(rs[..|rs| - 1]) + Expand(rs[|rs| - 1])
  }

  lemma ExpandAllSnoc(rs: seq<Range>, r: Range)
    ensures ExpandAll(rs + [r]) == ExpandAll(rs) + Expand(r)
  {
    assert (rs + [r])[..|rs|] == rs;
  }

  lemma ExpandSingle(x: int)
    ensures Expand(Single(x)) == [x]
  {
    assert Expand(Range(x, x - 1)) == [];
  }

  /** No range goes on where the one before it ends. */
  ghost predicate Apart(rs: seq<Range>) {
    forall k :: 0 < k < |rs| ==> rs[k - 1].hi + 1 != rs[k].lo
  }

  /** The ranges stand for `s`, in order, and none could be longer. */
  ghost predicate Spans(rs: seq<Range>, s: seq<int>) { AreRanges(rs) && Apart(rs) && ExpandAll(rs) == s }

  /** The loop: closed ranges, and the open one from `start` to `end`. */
  method CollectRanges(indices: seq<int>) returns (closed: seq<Range>, start: int, end: int)
    requires indices != []
    ensures Spans(closed + [Range(start, end)], indices)
  {
    closed, start, end := [], indices[0], indices[0];
    FirstRange(indices[0]);
    assert indices[..1] == [indices[0]];
    for i := 1 to |indices|
      invariant Spans(closed + [Range(start, end)], indices[..i])
    {
      var idx := indices[i];
      assert indices[..i + 1] == indices[..i] + [idx];
      if idx == end + 1 {
        Longer(closed, start, end, indices[..i]);
        end := idx;
      } else {
        Closed(closed, Range(start, end), idx, indices[..i]);
        closed := closed + [Range(start, end)];
        start, end := idx, idx;
      }
    }
    assert indices[..|indices|] == indices;
  }

  lemma FirstRange(x: int)
    ensures Spans([] + [Single(x)], [x])
  {
    ExpandSingle(x);
    ExpandAllSnoc([], Single(x));
  }

  lemma Longer(closed: seq<Range>, start: int, end: int, s: seq<int>)
    requires Spans(closed + [Range(start, end)], s)
    ensures Spans(closed + [Range(start, end + 1)], s + [end + 1])
  {
    var a := closed + [Range(start, end)];
    assert a[|closed|].lo <= a[|closed|].hi;
    LongerExpands(closed, start, end);
    LongerApart(closed, start, end);
  }

  lemma LongerExpands(closed: seq<Range>, start: int, end: int)
    requires start <= end
    ensures ExpandAll(closed + [Range(start, end + 1)]) == ExpandAll(closed + [Range(start, end)]) + [end + 1]
  {
    ExpandAllSnoc(closed, Range(start, end));
    ExpandAllSnoc(closed, Range(start, end + 1));
    JoinAssociative(ExpandAll(closed), Expand(Range(start, end)), [end + 1]);
  }

  lemma LongerApart(closed: seq<Range>, start: int, end: int)
    requires AreRanges(closed + [Range(start, end)]) && Apart(closed + [Range(start, end)])
    ensures AreRanges(closed + [Range(start, end + 1)]) && Apart(closed + [Range(start, end + 1)])
  {
    var a, b := closed + [Range(start, end)], closed + [Range(start, end + 1)];
    forall k | 0 <= k < |b| ensures b[k].lo <= b[k].hi { assert a[k].lo <= a[k].hi; }
    forall k | 0 < k < |b| ensures b[k - 1].hi + 1 != b[k].lo { assert a[k - 1].hi + 1 != a[k].lo; }
  }

  lemma Closed(closed: seq<Range>, r: Range, idx: int, s: seq<int>)
    requires Spans(closed + [r], s) && idx != r.hi + 1
    ensures Spans(closed + [r] + [Single(idx)], s + [idx])
  {
    ExpandAllSnoc(closed + [r], Single(idx));
    ExpandSingle(idx);
    var a, b := closed + [r], closed + [r] + [Single(idx)];
    forall k | 0 < k < |b| ensures b[k - 1].hi + 1 != b[k].lo {
      if k < |a| { assert a[k - 1].hi + 1 != a[k].lo; }
    }
  }

  lemma {:induction false} ExpandEnds(r: Range)
    requires r.lo <= r.hi
    ensures Expand(r) != [] && Expand(r)[0] == r.lo && Expand(r)[|Expand(r)| - 1] == r.hi
    decreases r.hi - r.lo
  {
    if r.lo < r.hi { ExpandEnds(Range(r.lo, r.hi - 1)); }
  }

  lemma {:induction false} ExpandAllPrefix(rs: seq<Range>, k: nat)
    requires k <= |rs|
    ensures ExpandAll(rs[..k]) <= ExpandAll(rs)
  {
    if k < |rs| {
      ExpandAllPrefix(rs[..|rs| - 1], k);
      assert rs[..|rs| - 1][..k] == rs[..k];
    } else {
      assert rs[..k] == rs;
    }
  }

  /** Of strictly ascending indices the ranges are maximal: at least one index is missing between two of them. */
  lemma RangesMaximal(rs: seq<Range>, s: seq<int>, k: nat)
    requires Spans(rs, s) && 0 < k < |rs| && forall i, j :: 0 <= i < j < |s| ==> s[i] < s[j]
    ensures rs[k - 1].hi + 1 < rs[k].lo
  {
    ExpandAllPrefix(rs, k + 1);
    assert rs[..k + 1][..k] == rs[..k] && rs[..k][..k - 1] == rs[..k - 1];
    ExpandEnds(rs[k]);
    ExpandEnds(rs[k - 1]);
    var p := |ExpandAll(rs[..k])|;
    assert ExpandAll(rs[..k + 1]) == ExpandAll(rs[..k]) + Expand(rs[k]);
    assert s[p - 1] == rs[k - 1].hi && s[p] == rs[k].lo;
  }

  // ----- Text

  function Digit(d: nat): char
    requires d < 10
  {
    "0123456789"[d]
  }

  function Show(n: nat): string {
    if n < 10 then [Digit(n)] else Show(n / 10) + [Digit(n % 10)]
  }

  /** `str` of an integer. */
  function ShowInt(n: int): string { if n < 0 then "-" + Show(-n) else Show(n) }

  function RangeText(r: Range): string { if r.lo == r.hi then ShowInt(r.lo) else ShowInt(r.lo) + "-" + ShowInt(r.hi) }

  /** The ranges joined by commas. */
  function TextOf(rs: seq<Range>): string
    decreases |rs|, 0
  {
    if rs == [] then "" else RangeText(rs[0]) + Rest(rs[1..])
  }

  function Rest(rs: seq<Range>): string
    decreases |rs|, 1
  {
    if rs == [] then "" else ", " + TextOf(rs)
  }

  lemma {:induction false} ShowsDigits(n: nat)
    ensures forall i :: 0 <= i < |Show(n)| ==> IsDigit(Show(n)[i])
  {
    if n >= 10 { ShowsDigits(n / 10); }
  }

  /** A single index is printed as itself, without a dash. */
  lemma DashIff(r: Range)
    requires Natural(r)
    ensures '-' in RangeText(r) <==> r.lo < r.hi
  {
    ShowsDigits(r.lo);
    if r.lo < r.hi { assert RangeText(r)[|Show(r.lo)|] == '-'; }
  }

  lemma NegativeShown(n: int)
    requires n < 0
    ensures ShowInt(n) == "-" + ShowInt(-n)
  {
  }

  /** Two ranges as they are printed. */
  lemma TextOfTwo()
    ensures TextOf([Range(0, 2), Range(4, 6)]) == "0-2, 4-6"
  {
    var rs := [Range(0, 2), Range(4, 6)];
    assert rs[1..] == [Range(4, 6)] && rs[1..][1..] == [];
    assert TextOf(rs[1..]) == RangeText(Range(4, 6)) + Rest([]);
    assert RangeText(Range(0, 2)) == "0-2" && RangeText(Range(4, 6)) == "4-6";
  }

  // ----- Reading the text back

  predicate IsDigit(c: char) { '0' <= c <= '9' }

  function DigitValue(c: char): nat
    requires IsDigit(c)
  {
    c as int - '0' as int
  }

  lemma DigitRoundTrip(d: nat)
    requires d < 10
    ensures IsDigit(Digit(d)) && DigitValue(Digit(d)) == d
  {
  }

  /** Reads as many digits as there are, after `acc`. */
  function ReadDigits(s: string, acc: nat): (r: (nat, string))
    ensures |r.1| <= |s|
  {
    if s == [] || !IsDigit(s[0]) then (acc, s) else ReadDigits(s[1..], 10 * acc + DigitValue(s[0]))
  }

  function ReadRange(s: string): (r: (Range, string))
    ensures |r.1| <= |s|
  {
    var (lo, rest) := ReadDigits(s, 0);
    if rest != [] && rest[0] == '-' then
      var (hi, rest') := ReadDigits(rest[1..], 0);
      (Range(lo, hi), rest')
    else (Single(lo), rest)
  }

  function ReadRanges(s: string): seq<Range>
    decreases |s|
  {
    var (r, rest) := ReadRange(s);
    if |rest| >= 2 && rest[..2] == ", " then [r] + ReadRanges(rest[2..]) else [r]
  }

  ghost predicate Stops(s: string) { s == [] || !IsDigit(s[0]) }

  lemma {:induction false} ReadShown(n: nat, tail: string)
    ensures ReadDigits(Show(n) + tail, 0) == ReadDigits(tail, n)
  {
    if n < 10 {
      ReadOne(n, tail, 0);
    } else {
      ReadShown(n / 10, [Digit(n % 10)] + tail);
      assert Show(n) + tail == Show(n / 10) + ([Digit(n % 10)] + tail);
      ReadOne(n % 10, tail, n / 10);
    }
  }

  lemma ReadOne(d: nat, tail: string, acc: nat)
    requires d < 10
    ensures ReadDigits([Digit(d)] + tail, acc) == ReadDigits(tail, 10 * acc + d)
  {
    DigitRoundTrip(d);
    assert ([Digit(d)] + tail)[1..] == tail;
  }

  lemma ReadNumber(n: nat, tail: string)
    requires Stops(tail)
    ensures ReadDigits(Show(n) + tail, 0) == (n, tail)
  {
    ReadShown(n, tail);
  }

  ghost predicate Natural(r: Range) { 0 <= r.lo <= r.hi }

  /** A comma or the end follows. */
  ghost predicate Ends(tail: string) { tail == [] || tail[0] == ',' }

  lemma ReadRangeBack(r: Range, tail: string)
    requires Natural(r) && Ends(tail)
    ensures ReadRange(RangeText(r) + tail) == (r, tail)
  {
    if r.lo == r.hi {
      ReadNumber(r.lo, tail);
    } else {
      JoinRight(Show(r.lo), "-", Show(r.hi), tail);
      ReadNumber(r.lo, "-" + (Show(r.hi) + tail));
      TailOfCons('-', Show(r.hi) + tail);
      ReadNumber(r.hi, tail);
    }
  }

  lemma JoinRight<T>(a: seq<T>, b: seq<T>, c: seq<T>, d: seq<T>)
    ensures a + b + c + d == a + (b + (c + d))
  {
  }

  lemma TailOfCons<T>(x: T, s: seq<T>)
    ensures ([x] + s)[1..] == s
  {
  }

  lemma RestEnds(rs: seq<Range>)
    ensures Ends(Rest(rs)) && (rs != [] ==> |Rest(rs)| >= 2 && Rest(rs)[..2] == ", " && Rest(rs)[2..] == TextOf(rs))
  {
  }

  /** Reading the printed ranges gives them back. */
  lemma {:induction false} ReadBack(rs: seq<Range>)
    requires rs != [] && forall k :: 0 <= k < |rs| ==> Natural(rs[k])
    ensures ReadRanges(TextOf(rs)) == rs
  {
    var tail := rs[1..];
    ReadRangeBack(rs[0], Rest(tail));
    RestEnds(tail);
    assert rs == [rs[0]] + tail;
    if tail != [] { ReadBack(tail); }
  }

  // ----- The printer

  lemma {:induction false} LoIsIndex(rs: seq<Range>, k: nat)
    requires AreRanges(rs) && k < |rs|
    ensures rs[k].lo in ExpandAll(rs)
  {
    var n := |rs| - 1;
    ExpandEnds(rs[n]);
    if k < n { LoIsIndex(rs[..n], k); }
    assert Expand(rs[n])[0] in Expand(rs[n]);
  }

  lemma NaturalRanges(rs: seq<Range>, indices: seq<int>)
    requires Spans(rs, Sorted(indices)) && forall i :: 0 <= i < |indices| ==> indices[i] >= 0
    ensures forall k :: 0 <= k < |rs| ==> Natural(rs[k])
  {
    SortBySorts(indices, (x: int) => x);
    forall k | 0 <= k < |rs| ensures Natural(rs[k]) {
      LoIsIndex(rs, k);
      assert rs[k].lo in multiset(Sorted(indices));
      assert rs[k].lo in multiset(indices);
    }
  }

  ghost predicate AllDifferent(s: seq<int>) { forall i, j :: 0 <= i < j < |s| ==> s[i] != s[j] }

  /** At least one index is missing between two ranges. */
  ghost predicate WideApart(rs: seq<Range>) { forall k :: 0 < k < |rs| ==> rs[k - 1].hi + 1 < rs[k].lo }

  lemma {:induction false} CountedOnce(s: seq<int>, x: int)
    requires AllDifferent(s)
    ensures multiset(s)[x] <= 1
  {
    if s != [] {
      var n := |s| - 1;
      CountedOnce(s[..n], x);
      InitAndLast(s);
      if s[n] == x { assert x !in multiset(s[..n]); }
    }
  }

  lemma TwiceCounted(s: seq<int>, i: nat, j: nat)
    requires i < j < |s| && s[i] == s[j]
    ensures multiset(s)[s[i]] >= 2
  {
    assert s == s[..j] + s[j..];
    assert s[i] in s[..j] && s[j] in s[j..];
  }

  /** Sorting different indices leaves them strictly ascending. */
  lemma SortedStrictly(indices: seq<int>, i: nat, j: nat)
    requires AllDifferent(indices) && i < j < |Sorted(indices)|
    ensures Sorted(indices)[i] < Sorted(indices)[j]
  {
    var sorted := Sorted(indices);
    SortBySorts(indices, (x: int) => x);
    if sorted[i] == sorted[j] {
      TwiceCounted(sorted, i, j);
      CountedOnce(indices, sorted[i]);
    }
  }

  lemma RangesWideApart(rs: seq<Range>, indices: seq<int>)
    requires Spans(rs, Sorted(indices)) && AllDifferent(indices)
    ensures WideApart(rs)
  {
    var sorted := Sorted(indices);
    forall i, j | 0 <= i < j < |sorted| ensures sorted[i] < sorted[j] { SortedStrictly(indices, i, j); }
    forall k | 0 < k < |rs| ensures rs[k - 1].hi + 1 < rs[k].lo { RangesMaximal(rs, sorted, k); }
  }

  /**
   `_format_index_ranges`. An empty list has no first index. For indices that are not negative,
   reading the text gives back the sorted list. For different indices no two ranges could be one.
   */
  method FormatIndexRanges(indices: seq<int>) returns (text: Option<string>, ghost rs: seq<Range>)
    ensures text == None <==> indices == []
    ensures text.Some? ==> Spans(rs, Sorted(indices)) && text.value == TextOf(rs)
    ensures text.Some? && (forall i :: 0 <= i < |indices| ==> indices[i] >= 0) ==>
      ExpandAll(ReadRanges(text.value)) == Sorted(indices)
    ensures text.Some? && AllDifferent(indices) ==> WideApart(rs)
  {
    if indices == [] {
      return None, [];
    }
    var sorted := Sorted(indices);
    SortBySorts(indices, (x: int) => x);
    assert |multiset(sorted)| == |multiset(indices)| == |indices|;
    var closed, start, end := CollectRanges(sorted);
    var ranges := closed + [Range(start, end)];
    if forall i :: 0 <= i < |indices| ==> indices[i] >= 0 {
      NaturalRanges(ranges, indices);
      ReadBack(ranges);
    }
    if AllDifferent(indices) { RangesWideApart(ranges, indices); }
    return Some(TextOf(ranges)), ranges;
  }

  // ----- Grouping numbered children

  datatype Signature = Signature(text: string)
  datatype Child = Child(index: int, signature: Signature, node: nat)
  datatype Group = Group(signature: Signature, members: seq<Child>)

  /** The children with the given signature, in order. */
  ghost function Members(children: seq<Child>, sig: Signature): seq<Child> {
    if children == [] then []
    else
      var init, last := Members(children[..|children| - 1], sig), children[|children| - 1];
      if last.signature == sig then init + [last] else init
  }

  lemma MembersSnoc(children: seq<Child>, c: Child, sig: Signature)
    ensures Members(children + [c], sig)
         == if c.signature == sig then Members(children, sig) + [c] else Members(children, sig)
  {
    assert (children + [c])[..|children|] == children;
  }

  /** Members are the children of that signature, each as often as it is there. */
  lemma {:induction false} MembersExactly(children: seq<Child>, sig: Signature, c: Child)
    ensures multiset(Members(children, sig))[c] == if c.signature == sig then multiset(children)[c] else 0
  {
    if children != [] {
      MembersExactly(children[..|children| - 1], sig, c);
      assert children == children[..|children| - 1] + [children[|children| - 1]];
    }
  }

  /** A group holds all children of its signature, and every child has a group. */
  ghost predicate IsGroup(children: seq<Child>, g: Group) {
    g.members != [] && g.members == Members(children, g.signature)
  }

  ghost predicate HasGroup(groups: seq<Group>, sig: Signature) {
    exists k :: 0 <= k < |groups| && groups[k].signature == sig
  }

  ghost predicate Grouped(children: seq<Child>, groups: seq<Group>) {
    && (forall k :: 0 <= k < |groups| ==> IsGroup(children, groups[k]))
    && (forall k, l :: 0 <= k < l < |groups| ==> groups[k].signature != groups[l].signature)
    && (forall i :: 0 <= i < |children| ==> HasGroup(groups, children[i].signature))
  }

  method FindGroup(groups: seq<Group>, sig: Signature) returns (k: nat)
    ensures k <= |groups| && (k < |groups| ==> groups[k].signature == sig)
    ensures k == |groups| ==> !HasGroup(groups, sig)
  {
    k := 0;
    while k < |groups|
      invariant k <= |groups| && forall l :: 0 <= l < k ==> groups[l].signature != sig
    {
      if groups[k].signature == sig {
        return;
      }
      k := k + 1;
    }
  }

  lemma {:induction false} NoMembers(children: seq<Child>, sig: Signature)
    requires forall i :: 0 <= i < |children| ==> children[i].signature != sig
    ensures Members(children, sig) == []
  {
    if children != [] { NoMembers(children[..|children| - 1], sig); }
  }

  lemma JoinsGroup(children: seq<Child>, groups: seq<Group>, c: Child, k: nat)
    requires Grouped(children, groups) && k < |groups| && groups[k].signature == c.signature
    ensures Grouped(children + [c], groups[k := Group(c.signature, groups[k].members + [c])])
  {
    var groups' := groups[k := Group(c.signature, groups[k].members + [c])];
    forall l | 0 <= l < |groups'| ensures IsGroup(children + [c], groups'[l]) {
      assert IsGroup(children, groups[l]);
      MembersSnoc(children, c, groups[l].signature);
    }
    forall i | 0 <= i < |children + [c]| ensures HasGroup(groups', (children + [c])[i].signature) {
      StillGrouped(groups, groups', children, c, i, k);
    }
  }

  lemma StillGrouped(groups: seq<Group>, groups': seq<Group>, children: seq<Child>, c: Child, i: nat, k: nat)
    requires i <= |children| && k < |groups'| && groups'[k].signature == c.signature && |groups| <= |groups'|
    requires forall l :: 0 <= l < |groups| ==> groups'[l].signature == groups[l].signature
    requires forall j :: 0 <= j < |children| ==> HasGroup(groups, children[j].signature)
    ensures HasGroup(groups', (children + [c])[i].signature)
  {
    if i < |children| {
      var l :| 0 <= l < |groups| && groups[l].signature == children[i].signature;
      assert groups'[l].signature == children[i].signature;
    }
  }

  lemma FoundsGroup(children: seq<Child>, groups: seq<Group>, c: Child)
    requires Grouped(children, groups) && !HasGroup(groups, c.signature)
    ensures Grouped(children + [c], groups + [Group(c.signature, [c])])
  {
    var groups' := groups + [Group(c.signature, [c])];
    NotAmong(children, groups, c.signature);
    forall l | 0 <= l < |groups'| ensures IsGroup(children + [c], groups'[l]) {
      StillGroup(children, groups, c, l);
    }
    forall i | 0 <= i < |children + [c]| ensures HasGroup(groups', (children + [c])[i].signature) {
      StillGrouped(groups, groups', children, c, i, |groups|);
    }
  }

  lemma NotAmong(children: seq<Child>, groups: seq<Group>, sig: Signature)
    requires Grouped(children, groups) && !HasGroup(groups, sig)
    ensures Members(children, sig) == []
  {
    forall i | 0 <= i < |children| ensures children[i].signature != sig {
      assert HasGroup(groups, children[i].signature);
    }
    NoMembers(children, sig);
  }

  lemma StillGroup(children: seq<Child>, groups: seq<Group>, c: Child, l: nat)
    requires l <= |groups| && Members(children, c.signature) == [] && !HasGroup(groups, c.signature)
    requires forall k :: 0 <= k < |groups| ==> IsGroup(children, groups[k])
    ensures IsGroup(children + [c], (groups + [Group(c.signature, [c])])[l])
  {
    if l < |groups| {
      assert IsGroup(children, groups[l]) && groups[l].signature != c.signature;
      MembersSnoc(children, c, groups[l].signature);
    } else {
      MembersSnoc(children, c, c.signature);
    }
  }

  /** `sig_to_group`, in insertion order. */
  method GroupBySignature(numbered: seq<Child>) returns (groups: seq<Group>)
    ensures Grouped(numbered, groups)
  {
    groups := [];
    for i := 0 to |numbered|
      invariant Grouped(numbered[..i], groups)
    {
      var c := numbered[i];
      assert numbered[..i + 1] == numbered[..i] + [c];
      var k := FindGroup(groups, c.signature);
      if k < |groups| {
        JoinsGroup(numbered[..i], groups, c, k);
        groups := groups[k := Group(c.signature, groups[k].members + [c])];
      } else {
        FoundsGroup(numbered[..i], groups, c);
        groups := groups + [Group(c.signature, [c])];
      }
    }
    assert numbered[..|numbered|] == numbered;
  }

  function FirstIndex(g: Group): int { if g.members == [] then 0 else g.members[0].index }

  ghost predicate OneEach(groups: seq<Group>) {
    forall k, l :: 0 <= k < l < |groups| ==> groups[k].signature != groups[l].signature
  }

  ghost predicate NoneWith(groups: seq<Group>, sig: Signature) {
    forall k :: 0 <= k < |groups| ==> groups[k].signature != sig
  }

  lemma {:induction false} InsertNone(groups: seq<Group>, g: Group, sig: Signature)
    requires NoneWith(groups, sig) && g.signature != sig
    ensures NoneWith(Insert(groups, g, FirstIndex), sig)
  {
    if groups != [] && FirstIndex(groups[|groups| - 1]) > FirstIndex(g) { InsertNone(groups[..|groups| - 1], g, sig); }
  }

  lemma {:induction false} InsertOne(groups: seq<Group>, g: Group)
    requires OneEach(groups) && NoneWith(groups, g.signature)
    ensures OneEach(Insert(groups, g, FirstIndex))
  {
    if groups != [] && FirstIndex(groups[|groups| - 1]) > FirstIndex(g) {
      var init, last := groups[..|groups| - 1], groups[|groups| - 1];
      InsertOne(init, g);
      InsertNone(init, g, last.signature);
    }
  }

  lemma {:induction false} SortNone(groups: seq<Group>, sig: Signature)
    requires NoneWith(groups, sig)
    ensures NoneWith(SortBy(groups, FirstIndex), sig)
  {
    if groups != [] {
      SortNone(groups[..|groups| - 1], sig);
      InsertNone(SortBy(groups[..|groups| - 1], FirstIndex), groups[|groups| - 1], sig);
    }
  }

  lemma {:induction false} SortOne(groups: seq<Group>)
    requires OneEach(groups)
    ensures OneEach(SortBy(groups, FirstIndex))
  {
    if groups != [] {
      var init, last := groups[..|groups| - 1], groups[|groups| - 1];
      SortOne(init);
      SortNone(init, last.signature);
      InsertOne(SortBy(init, FirstIndex), last);
    }
  }

  lemma PlaceIn<T>(a: seq<T>, b: seq<T>, i: nat) returns (j: nat)
    requires multiset(a) == multiset(b) && i < |a|
    ensures j < |b| && b[j] == a[i]
  {
    assert a[i] in multiset(a);
    assert a[i] in multiset(b);
    j :| 0 <= j < |b| && b[j] == a[i];
  }

  /** Sorting the groups keeps the grouping. */
  lemma SortedGrouping(children: seq<Child>, groups: seq<Group>)
    requires Grouped(children, groups)
    ensures Grouped(children, SortBy(groups, FirstIndex)) && Ascending(SortBy(groups, FirstIndex), FirstIndex)
  {
    var sorted := SortBy(groups, FirstIndex);
    SortBySorts(groups, FirstIndex);
    SortOne(groups);
    forall k | 0 <= k < |sorted| ensures IsGroup(children, sorted[k]) {
      var l := PlaceIn(sorted, groups, k);
    }
    forall i | 0 <= i < |children| ensures HasGroup(sorted, children[i].signature) {
      assert HasGroup(groups, children[i].signature);
      var l :| 0 <= l < |groups| && groups[l].signature == children[i].signature;
      var k := PlaceIn(groups, sorted, l);
    }
  }

  /** The groups in the order in which they are printed: by the index of the child that came first in each. */
  method GroupChildren(numbered: seq<Child>) returns (groups: seq<Group>)
    ensures Grouped(numbered, groups)
    ensures forall k, l :: 0 <= k < l < |groups| ==>
      |groups[k].members| > 0 && |groups[l].members| > 0 && groups[k].members[0].index <= groups[l].members[0].index
  {
    var unsorted := GroupBySignature(numbered);
    SortedGrouping(numbered, unsorted);
    groups := SortBy(unsorted, FirstIndex);
    forall k, l | 0 <= k < l < |groups|
      ensures |groups[k].members| > 0 && |groups[l].members| > 0
      ensures groups[k].members[0].index <= groups[l].members[0].index
    {
      assert IsGroup(numbered, groups[k]) && IsGroup(numbered, groups[l]);
      assert FirstIndex(groups[k]) <= FirstIndex(groups[l]);
    }
  }

  /** Every numbered child is in exactly one group, the one of its signature. */
  lemma InExactlyOneGroup(children: seq<Child>, groups: seq<Group>, i: nat) returns (k: nat)
    requires Grouped(children, groups) && i < |children|
    ensures k < |groups| && groups[k].signature == children[i].signature && children[i] in groups[k].members
    ensures forall l :: 0 <= l < |groups| && l != k ==> children[i] !in groups[l].members
  {
    assert HasGroup(groups, children[i].signature);
    k :| 0 <= k < |groups| && groups[k].signature == children[i].signature;
    forall l | 0 <= l < |groups| ensures children[i] in groups[l].members <==> l == k {
      assert IsGroup(children, groups[l]);
      MembersExactly(children, groups[l].signature, children[i]);
      assert children[i] in multiset(children);
      assert children[i] in groups[l].members <==> children[i] in multiset(groups[l].members);
      assert l != k ==> groups[l].signature != groups[k].signature;
    }
  }
}
