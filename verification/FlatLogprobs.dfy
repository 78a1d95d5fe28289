/**
 Log probabilities stored in flat parallel lists read exactly like a list of dictionaries, after
 any sequence of appends, fast appends, extensions (by itself too) and forward slices; which backward
 slices read right is exact too.
 */
module FlatLogprobs {
  import opened Basics
  import opened LogprobRows

  /** What a position is given as: a dictionary, or `None`, which reads as the empty dictionary. */
  type Position = Option<Dict>

  ghost predicate IsPosition(p: Position) { p.Some? ==> IsDict(p.value) }

  function AsDict(p: Position): Dict { if p.Some? then p.value else [] }

  function AsDicts(ps: seq<Position>): (r: seq<Dict>)
    ensures |r| == |ps| && forall i :: 0 <= i < |ps| ==> r[i] == AsDict(ps[i])
  {
    seq(|ps|, i requires 0 <= i < |ps| => AsDict(ps[i]))
  }

  lemma AsDictsJoin(a: seq<Position>, b: seq<Position>)
    ensures AsDicts(a + b) == AsDicts(a) + AsDicts(b)
  {
  }

  lemma AsDictsPicked(list: seq<Position>, at: seq<nat>)
    requires Increasing(at, |list|)
    ensures AsDicts(Picked(list, at)) == Picked(AsDicts(list), at)
  {
  }

  /** Decoded tokens: a list, or `itertools.repeat`, which never ends. */
  datatype Tokens = Listed(tokens: seq<Option<Text>>) | Forever(token: Option<Text>)

  /** As many decoded tokens as `n` steps of `zip` can use. */
  function Supply(decoded: Tokens, n: nat): seq<Option<Text>> {
    match decoded
    case Listed(tokens) => tokens
    case Forever(token) => seq(n, _ => token)
  }

  /** The container. */
  class Container {
    var startIndices: seq<int>
    var endIndices: seq<int>
    var tokenIds: seq<int>
    var logprobs: seq<real>
    var ranks: seq<Option<int>>
    var decodedTokens: seq<Option<Text>>

    ghost predicate Valid()
      reads this
    {
      SameLength(tokenIds, logprobs, ranks, decodedTokens) && Ranges(startIndices, endIndices, |logprobs|)
    }

    ghost function Entries(): (es: seq<Entry>)
      reads this
      requires Valid()
      ensures |es| == |logprobs|
    {
      Zip(tokenIds, logprobs, ranks, decodedTokens)
    }

    /** The list of dictionaries that the container stands for. */
    ghost function View(): (v: seq<Dict>)
      reads this
      requires Valid()
      ensures |v| == |startIndices|
    {
      Rows(startIndices, endIndices, Entries())
    }

    constructor ()
      ensures Valid() && View() == []
    {
      startIndices, endIndices, tokenIds, logprobs, ranks, decodedTokens := [], [], [], [], [], [];
    }

    /** Pushes one entry on the columns. */
    method Push(e: Entry)
      requires SameLength(tokenIds, logprobs, ranks, decodedTokens)
      modifies this`tokenIds, this`logprobs, this`ranks, this`decodedTokens
      ensures SameLength(tokenIds, logprobs, ranks, decodedTokens) && |logprobs| == old(|logprobs|) + 1
      ensures Zip(tokenIds, logprobs, ranks, decodedTokens) == old(Zip(tokenIds, logprobs, ranks, decodedTokens)) + [e]
    {
      ZipSnoc(tokenIds, logprobs, ranks, decodedTokens, e);
      tokenIds := tokenIds + [e.tokenId];
      logprobs := logprobs + [e.info.logprob];
      ranks := ranks + [e.info.rank];
      decodedTokens := decodedTokens + [e.info.decodedToken];
    }

    /** Pushes the entries of one position and records where they are. */
    method AppendEntries(row: seq<Entry>)
      requires Valid()
      modifies this
      ensures Valid() && View() == old(View()) + [DictOf(row)]
    {
      ghost var starts, ends, es := startIndices, endIndices, Entries();
      startIndices := startIndices + [|logprobs|];
      for i := 0 to |row|
        invariant startIndices == starts + [|es|] && endIndices == ends
        invariant SameLength(tokenIds, logprobs, ranks, decodedTokens) && |logprobs| == |es| + i
        invariant Zip(tokenIds, logprobs, ranks, decodedTokens) == es + row[..i]
      {
        Push(row[i]);
        assert row[..i] + [row[i]] == row[..i + 1];
      }
      endIndices := endIndices + [|logprobs|];
      assert row[..|row|] == row;
      AppendRow(starts, ends, es, row);
    }

    /** `append` */
    method Append(position: Position)
      requires Valid() && IsPosition(position)
      modifies this
      ensures Valid() && View() == old(View()) + [AsDict(position)]
      ensures position == None ==> View() == old(View()) + [[]]
    {
      DictOfDict(AsDict(position));
      AppendEntries(AsDict(position));
    }

    /** `append_fast`: the shortest of the four arguments decides. */
    method AppendFast(ids: seq<int>, probs: seq<real>, rankings: seq<Option<int>>, decoded: Tokens)
      requires Valid()
      modifies this
      ensures Valid() && View() == old(View()) + [DictOf(Zip(ids, probs, rankings, Supply(decoded, |ids|)))]
    {
      AppendEntries(Zip(ids, probs, rankings, Supply(decoded, |ids|)));
    }

    /** `extend` by a list. */
    method Extend(positions: seq<Position>)
      requires Valid() && forall i :: 0 <= i < |positions| ==> IsPosition(positions[i])
      modifies this
      ensures Valid() && View() == old(View()) + AsDicts(positions)
    {
      for i := 0 to |positions|
        invariant Valid() && View() == old(View()) + AsDicts(positions)[..i]
      {
        Append(positions[i]);
      }
    }

    /** `self[position]`, negative positions counting from the end. */
    method GetItem(position: int) returns (r: Result<Dict>)
      requires Valid()
      ensures r.Ok? <==> -|View()| <= position < |View()|
      ensures r.Ok? ==> r.value == View()[if position < 0 then |View()| + position else position]
    {
      var i := if position < 0 then |startIndices| + position else position;
      if i < 0 || i >= |startIndices| {
        return IndexError;
      }
      var d := ReadRow(startIndices[i], endIndices[i]);
      return Ok(d);
    }

    /** The dictionary of the entries from `start` to `end`. */
    method ReadRow(start: int, end: int) returns (d: Dict)
      requires Valid() && 0 <= start <= end <= |logprobs|
      ensures d == DictOf(Entries()[start..end])
    {
      d := [];
      ghost var row := Entries()[start..end];
      for k := start to end
        invariant d == DictOf(row[..k - start])
      {
        var e := Entry(tokenIds[k], Logprob(logprobs[k], ranks[k], decodedTokens[k]));
        assert row[k - start] == e;
        DictOfSnoc(row[..k - start], e);
        PrefixSnoc(row, k - start);
        d := Insert(d, e);
      }
      assert row[..|row|] == row;
    }

    /** Iteration yields the view. */
    method Items() returns (items: seq<Dict>)
      requires Valid()
      ensures items == View()
    {
      items := [];
      for i := 0 to |startIndices|
        invariant items == View()[..i]
      {
        var item := GetItem(i);
        items := items + [item.value];
      }
    }

    /** `self.extend(self)`: the number of turns is fixed before the first append. */
    method ExtendBySelf()
      requires Valid()
      modifies this
      ensures Valid() && View() == old(View()) + old(View())
    {
      var turns := |startIndices|;
      for i := 0 to turns
        invariant Valid() && View() == old(View()) + old(View())[..i]
      {
        var item := GetItem(i);
        RowIsDict(i);
        Append(Some(item.value));
      }
    }

    lemma RowIsDict(i: nat)
      requires Valid() && i < |View()|
      ensures IsDict(View()[i])
    {
      DictOfIsDict(Entries()[startIndices[i]..endIndices[i]]);
    }

    /** The positions read as the given dictionaries, whether the container is well formed or not. */
    ghost predicate ReadsAs(view: seq<Dict>)
      reads this
    {
      Reads(startIndices, endIndices, Zip(tokenIds, logprobs, ranks, decodedTokens), view)
    }

    /** `flat` holds the rows at the given positions, cut out between the first one's start and the last one's end. */
    ghost predicate IsCopy(flat: Container, at: seq<nat>)
      reads this, flat
      requires Valid() && at != [] && forall k :: 0 <= k < |at| ==> at[k] < |startIndices|
    {
      var lo, hi := startIndices[at[0]], endIndices[at[|at| - 1]];
      && flat.startIndices == Shifted(Picked(startIndices, at), lo)
      && flat.endIndices == Shifted(Picked(endIndices, at), lo)
      && flat.tokenIds == Cut(tokenIds, lo, hi) && flat.logprobs == Cut(logprobs, lo, hi)
      && flat.ranks == Cut(ranks, lo, hi) && flat.decodedTokens == Cut(decodedTokens, lo, hi)
    }

    method CopyRows(at: seq<nat>) returns (flat: Container)
      requires Valid() && at != [] && forall k :: 0 <= k < |at| ==> at[k] < |startIndices|
      ensures fresh(flat) && IsCopy(flat, at)
    {
      var lo, hi := startIndices[at[0]], endIndices[at[|at| - 1]];
      flat := new Container();
      flat.startIndices := Shifted(Picked(startIndices, at), lo);
      flat.endIndices := Shifted(Picked(endIndices, at), lo);
      flat.tokenIds := Cut(tokenIds, lo, hi);
      flat.logprobs := Cut(logprobs, lo, hi);
      flat.ranks := Cut(ranks, lo, hi);
      flat.decodedTokens := Cut(decodedTokens, lo, hi);
    }

    /** Going forward, the copy is well formed and holds the picked dictionaries. */
    lemma CopyForward(flat: Container, at: seq<nat>)
      requires Valid() && at != [] && Increasing(at, |startIndices|) && IsCopy(flat, at)
      ensures flat.Valid() && flat.View() == Picked(View(), at) && flat.ReadsAs(Picked(View(), at))
    {
      var lo, hi := startIndices[at[0]], endIndices[at[|at| - 1]];
      PickRows(startIndices, endIndices, Entries(), at, lo, hi);
      ZipSlice(tokenIds, logprobs, ranks, decodedTokens, lo, hi);
      RowsRead(flat.startIndices, flat.endIndices, flat.Entries());
    }

    /** Going backward over two positions or more, the bounds cross or meet, and no entry is copied. */
    lemma CopyBackward(flat: Container, at: seq<nat>)
      requires Valid() && |at| >= 2 && Decreasing(at, |startIndices|) && IsCopy(flat, at)
      ensures flat.ReadsAs(Picked(View(), at)) <==> AllEmpty(Picked(View(), at))
    {
      assert at[0] > at[|at| - 1];
      assert flat.tokenIds == [] && Zip(flat.tokenIds, flat.logprobs, flat.ranks, flat.decodedTokens) == [];
      BackwardReadsIff(startIndices, endIndices, Entries(), at, startIndices[at[0]]);
    }

    /**
     `self[slice]`. An empty slice has no first start index. The slice reads like that of the list,
     and stays well formed, where it goes forward or picks one position; a backward slice of more reads
     like it if and only if all that it picks is empty.
     */
    method GetSlice(s: Slice) returns (r: Result<Container>)
      requires Valid()
      ensures r.ValueError? <==> s.step == 0
      ensures s.step != 0 ==> (r.IndexError? <==> SliceIndices(s, |View()|) == [])
      ensures r.Ok? ==> fresh(r.value)
      ensures r.Ok? && (s.step > 0 || |SliceIndices(s, |View()|)| == 1) ==>
        r.value.Valid() && r.value.View() == Picked(View(), SliceIndices(s, |View()|))
      ensures r.Ok? ==>
        (r.value.ReadsAs(Picked(View(), SliceIndices(s, |View()|))) <==>
         SliceReads(s, Picked(View(), SliceIndices(s, |View()|))))
      ensures FromEnd(s, |View()|) ==>
        r.Ok? && r.value.Valid() && r.value.View() == View()[|View()| + s.start.value..]
    {
      if FromEnd(s, |startIndices|) { PickedFromEnd(View(), -s.start.value); }
      if s.step == 0 {
        return ValueError;
      }
      var at := SliceIndices(s, |startIndices|);
      if at == [] {
        return IndexError;
      }
      var flat := CopyRows(at);
      if s.step > 0 || |at| == 1 { CopyForward(flat, at); } else { CopyBackward(flat, at); }
      return Ok(flat);
    }
  }

  /** `[-j:]` with at least `j` positions there. */
  ghost predicate FromEnd(s: Slice, n: nat) {
    s.start.Some? && 0 < -s.start.value <= n && s.stop == None && s.step == 1
  }

  /** The slices that read right, by their step and what they pick. */
  ghost predicate SliceReads(s: Slice, picked: seq<Dict>) { s.step > 0 || |picked| == 1 || AllEmpty(picked) }

  // ----- Agreement with the list of dictionaries

  /** The ranks of one position: the sampled token's, then 1, 2, ... */
  function Ranking(rank: int, numLogprobs: int): seq<Option<int>> {
    [Some(rank)] + seq(if numLogprobs < 0 then 0 else numLogprobs, i => Some(i + 1))
  }

  /** The arguments of `append_logprobs_for_next_position`. */
  datatype Sample = Sample(tokenIds: seq<int>, logprobs: seq<real>, decoded: Tokens, rank: int, numLogprobs: int)

  function NumLogprobs(s: Sample): int { if s.numLogprobs == -1 then |s.logprobs| else s.numLogprobs }

  /** The dictionary that the list branch appends. */
  function SampleDict(s: Sample): Dict {
    DictOf(Zip(s.tokenIds, s.logprobs, Ranking(s.rank, NumLogprobs(s)), Supply(s.decoded, |s.tokenIds|)))
  }

  /** The entries of a sample before duplicates are merged. */
  ghost function SampleEntries(s: Sample): seq<Entry> {
    Zip(s.tokenIds, s.logprobs, Ranking(s.rank, NumLogprobs(s)), Supply(s.decoded, |s.tokenIds|))
  }

  /** The first entry is the sampled token with its rank, the ones after it have the ranks 1, 2, and so on. */
  lemma SampleEntryIs(s: Sample, i: nat)
    requires i < |SampleEntries(s)|
    ensures i < |s.tokenIds| && i < |s.logprobs| && (s.decoded.Listed? ==> i < |s.decoded.tokens|)
    ensures SampleEntries(s)[i]
         == Entry(s.tokenIds[i], Logprob(s.logprobs[i], Some(if i == 0 then s.rank else i),
                                         if s.decoded.Listed? then s.decoded.tokens[i] else s.decoded.token))
  {
  }

  /** There are as many entries as ids, values, decoded tokens and requested ranks allow; -1 requests all. */
  lemma SampleEntriesCount(s: Sample, n: nat)
    requires n == if s.numLogprobs == -1 then |s.logprobs| else if s.numLogprobs < 0 then 0 else s.numLogprobs
    ensures |SampleEntries(s)| <= n + 1
    ensures |SampleEntries(s)| == |s.tokenIds| || |SampleEntries(s)| == |s.logprobs| || |SampleEntries(s)| == n + 1
         || (s.decoded.Listed? && |SampleEntries(s)| == |s.decoded.tokens|)
    ensures SampleDict(s) == DictOf(SampleEntries(s))
  {
  }

  /** `append_logprobs_for_next_position` on a flat container. */
  method AppendSample(flat: Container, s: Sample)
    requires flat.Valid()
    modifies flat
    ensures flat.Valid() && flat.View() == old(flat.View()) + [SampleDict(s)]
  {
    flat.AppendFast(s.tokenIds, s.logprobs, Ranking(s.rank, NumLogprobs(s)), s.decoded);
  }

  /** What a caller can do with either container. */
  datatype Op =
    | DoAppend(position: Position)
    | DoSample(sample: Sample)
    | DoExtend(positions: seq<Position>)
    | DoExtendBySelf
    | DoSlice(s: Slice)

  ghost predicate IsOp(op: Op) {
    match op
    case DoAppend(position) => IsPosition(position)
    case DoExtend(positions) => forall i :: 0 <= i < |positions| ==> IsPosition(positions[i])
    case DoSlice(s) => s.step > 0
    case _ => true
  }

  /** The operation on a plain list; only an empty slice is refused, because the flat form refuses it. */
  ghost function OnList(list: seq<Position>, op: Op): Result<seq<Position>>
    requires IsOp(op)
  {
    match op
    case DoAppend(position) => Ok(list + [position])
    case DoSample(sample) => Ok(list + [Some(SampleDict(sample))])
    case DoExtend(positions) => Ok(list + positions)
    case DoExtendBySelf => Ok(list + list)
    case DoSlice(s) =>
      var at := SliceIndices(s, |list|);
      if at == [] then IndexError else Ok(Picked(list, at))
  }

  ghost function RunOnList(list: seq<Position>, ops: seq<Op>): Result<seq<Position>>
    requires forall i :: 0 <= i < |ops| ==> IsOp(ops[i])
  {
    if ops == [] then Ok(list)
    else
      var before := RunOnList(list, ops[..|ops| - 1]);
      if before.Ok? then OnList(before.value, ops[|ops| - 1]) else before
  }

  /** One operation on the flat form does to its view what it does to the list. */
  method Apply(flat: Container, op: Op, ghost list: seq<Position>) returns (r: Result<Container>)
    requires flat.Valid() && IsOp(op) && flat.View() == AsDicts(list)
    modifies flat
    ensures r.Ok? <==> OnList(list, op).Ok?
    ensures r.Ok? ==>
      (r.value == flat || fresh(r.value)) && r.value.Valid() && r.value.View() == AsDicts(OnList(list, op).value)
  {
    match op
    case DoAppend(position) =>
      AsDictsJoin(list, [position]);
      flat.Append(position);
      return Ok(flat);
    case DoSample(sample) =>
      AsDictsJoin(list, [Some(SampleDict(sample))]);
      AppendSample(flat, sample);
      return Ok(flat);
    case DoExtend(positions) =>
      AsDictsJoin(list, positions);
      flat.Extend(positions);
      return Ok(flat);
    case DoExtendBySelf =>
      AsDictsJoin(list, list);
      flat.ExtendBySelf();
      return Ok(flat);
    case DoSlice(s) =>
      AsDictsPicked(list, SliceIndices(s, |list|));
      r := flat.GetSlice(s);
  }

  /** Over any run of operations, the flat form reads the same as the list fed the same calls. */
  method Replay(ops: seq<Op>) returns (r: Result<Container>)
    requires forall i :: 0 <= i < |ops| ==> IsOp(ops[i])
    ensures r.Ok? <==> RunOnList([], ops).Ok?
    ensures r.Ok? ==> fresh(r.value) && r.value.Valid() && r.value.View() == AsDicts(RunOnList([], ops).value)
  {
    var flat := new Container();
    r := Ok(flat);
    for i := 0 to |ops|
      invariant r.Ok? <==> RunOnList([], ops[..i]).Ok?
      invariant r.Ok? ==> fresh(r.value) && r.value.Valid() && r.value.View() == AsDicts(RunOnList([], ops[..i]).value)
    {
      assert ops[..i + 1][..i] == ops[..i];
      if r.Ok? {
        r := Apply(r.value, ops[i], RunOnList([], ops[..i]).value);
      }
    }
    assert ops[..|ops|] == ops;
  }
}
