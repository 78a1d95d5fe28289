/** Paged addressing: the block table hands out every block once, and slots never collide. */
module SlotMapping {
  import opened Basics
  /** `qLen` new tokens at the end of `kvLen` cached ones. */
  datatype Request = Request(qLen: nat, kvLen: nat)

  ghost predicate Valid(requests: seq<Request>, blockSize: nat) {
    0 < blockSize && forall i :: 0 <= i < |requests| ==> requests[i].qLen <= requests[i].kvLen
  }

  /** The blocks that `kvLen` tokens need. */
  function NumBlocks(kvLen: nat, blockSize: nat): nat
    requires 0 < blockSize
  {
    (kvLen + blockSize - 1) / blockSize
  }

  /** The first block of request `i`: all blocks of the requests before it. */
  ghost function Base(requests: seq<Request>, blockSize: nat, i: nat): nat
    requires 0 < blockSize && i <= |requests|
  {
    if i == 0 then 0 else Base(requests, blockSize, i - 1) + NumBlocks(requests[i - 1].kvLen, blockSize)
  }

  /** The first query token of request `i` in the batch. */
  ghost function QueryStart(requests: seq<Request>, i: nat): nat
    requires i <= |requests|
  {
    if i == 0 then 0 else QueryStart(requests, i - 1) + requests[i - 1].qLen
  }

  // ----- Division

  /** The blocks of a request hold its tokens, and the last of them is needed. */
  lemma BlocksHold(kvLen: nat, blockSize: nat)
    requires 0 < blockSize
    ensures kvLen <= NumBlocks(kvLen, blockSize) * blockSize < kvLen + blockSize
  {
    DivMod(kvLen + blockSize - 1, blockSize);
  }

  /** A cached token lies in a block of its request: no padded table cell is consulted for it. */
  lemma InUsedBlock(kvLen: nat, blockSize: nat, position: nat)
    requires 0 < blockSize && position < kvLen
    ensures position / blockSize < NumBlocks(kvLen, blockSize)
  {
    BlocksHold(kvLen, blockSize);
    DivMod(position, blockSize);
    if NumBlocks(kvLen, blockSize) <= position / blockSize {
      Monotone(NumBlocks(kvLen, blockSize), position / blockSize, blockSize);
    }
  }

  // ----- Block ids

  lemma {:induction false} BaseGrows(requests: seq<Request>, blockSize: nat, i: nat, k: nat)
    requires 0 < blockSize && i < k <= |requests|
    ensures Base(requests, blockSize, i) + NumBlocks(requests[i].kvLen, blockSize) <= Base(requests, blockSize, k)
  {
    if i + 1 < k { BaseGrows(requests, blockSize, i, k - 1); }
  }

  /** Different used cells hold different ids. */
  lemma IdsDistinct(requests: seq<Request>, blockSize: nat, i: nat, j: nat, k: nat, l: nat)
    requires 0 < blockSize && i < |requests| && k < |requests|
    requires j < NumBlocks(requests[i].kvLen, blockSize) && l < NumBlocks(requests[k].kvLen, blockSize)
    requires Base(requests, blockSize, i) + j == Base(requests, blockSize, k) + l
    ensures i == k && j == l
  {
    if i < k { BaseGrows(requests, blockSize, i, k); }
    if k < i { BaseGrows(requests, blockSize, k, i); }
  }

  /** Every block is in some used cell. */
  lemma {:induction false} IdIsUsed(requests: seq<Request>, blockSize: nat, n: nat, id: nat) returns (i: nat, j: nat)
    requires 0 < blockSize && n <= |requests| && id < Base(requests, blockSize, n)
    ensures i < n && j < NumBlocks(requests[i].kvLen, blockSize) && Base(requests, blockSize, i) + j == id
  {
    var before := Base(requests, blockSize, n - 1);
    if id < before {
      i, j := IdIsUsed(requests, blockSize, n - 1, id);
    } else {
      i, j := n - 1, id - before;
    }
  }

  // ----- Slots

  /** The slot of a cached token: its request's blocks lie side by side. */
  ghost function Slot(requests: seq<Request>, blockSize: nat, i: nat, position: nat): nat
    requires 0 < blockSize && i <= |requests|
  {
    Base(requests, blockSize, i) * blockSize + position
  }

  /** Addressing through the block table finds that slot. */
  lemma ThroughTable(base: nat, blockSize: nat, position: nat)
    requires 0 < blockSize
    ensures (base + position / blockSize) * blockSize + position % blockSize == base * blockSize + position
  {
    DivMod(position, blockSize);
    Distribute(base, position / blockSize, blockSize);
  }

  lemma Distribute(a: nat, b: nat, d: nat)
    ensures (a + b) * d == a * d + b * d
  {
  }

  /** A request's slots end before the next request's begin. */
  lemma SlotsBefore(requests: seq<Request>, blockSize: nat, i: nat, k: nat, position: nat)
    requires 0 < blockSize && i < k <= |requests| && position < requests[i].kvLen
    ensures Slot(requests, blockSize, i, position) < Slot(requests, blockSize, k, 0)
  {
    var base, blocks := Base(requests, blockSize, i), NumBlocks(requests[i].kvLen, blockSize);
    BaseGrows(requests, blockSize, i, k);
    BlocksHold(requests[i].kvLen, blockSize);
    Distribute(base, blocks, blockSize);
    Monotone(base + blocks, Base(requests, blockSize, k), blockSize);
  }

  /** Slots are in bounds. */
  lemma SlotInBounds(requests: seq<Request>, blockSize: nat, i: nat, position: nat)
    requires 0 < blockSize && i < |requests| && position < requests[i].kvLen
    ensures Slot(requests, blockSize, i, position) < Base(requests, blockSize, |requests|) * blockSize
  {
    SlotsBefore(requests, blockSize, i, |requests|, position);
  }

  /** Different cached tokens have different slots. */
  lemma SlotsDistinct(requests: seq<Request>, blockSize: nat, i: nat, p: nat, k: nat, q: nat)
    requires 0 < blockSize && i < |requests| && k < |requests| && p < requests[i].kvLen && q < requests[k].kvLen
    requires Slot(requests, blockSize, i, p) == Slot(requests, blockSize, k, q)
    ensures i == k && p == q
  {
    if i < k { SlotsBefore(requests, blockSize, i, k, p); }
    if k < i { SlotsBefore(requests, blockSize, k, i, q); }
  }

  // ----- The builders

  /** Used cells hold the request's blocks in order. */
  ghost predicate TableHolds(table: array2<int>, requests: seq<Request>, blockSize: nat, i: nat, n: nat)
    reads table
    requires 0 < blockSize && i < |requests| == table.Length0
  {
    n <= table.Length1 && forall j :: 0 <= j < n ==> table[i, j] == Base(requests, blockSize, i) + j
  }

  method LongestTable(requests: seq<Request>, blockSize: nat) returns (longest: nat)
    requires 0 < blockSize && requests != []
    ensures forall i :: 0 <= i < |requests| ==> NumBlocks(requests[i].kvLen, blockSize) <= longest
    ensures exists i :: 0 <= i < |requests| && NumBlocks(requests[i].kvLen, blockSize) == longest
  {
    longest := NumBlocks(requests[0].kvLen, blockSize);
    for i := 1 to |requests|
      invariant forall k :: 0 <= k < i ==> NumBlocks(requests[k].kvLen, blockSize) <= longest
      invariant exists k :: 0 <= k < i && NumBlocks(requests[k].kvLen, blockSize) == longest
    {
      if NumBlocks(requests[i].kvLen, blockSize) > longest {
        longest := NumBlocks(requests[i].kvLen, blockSize);
      }
    }
  }

  /** Cell `k, l` is not filled yet when the loops are at `i, j`, or never will be. */
  ghost predicate Unused(requests: seq<Request>, blockSize: nat, i: nat, j: nat, k: nat, l: nat)
    requires 0 < blockSize && k < |requests|
  {
    i < k || (k == i && j <= l) || NumBlocks(requests[k].kvLen, blockSize) <= l
  }

  /** The block table; cells beyond a request's blocks stay zero. */
  method BuildBlockTable(requests: seq<Request>, blockSize: nat) returns (table: array2<int>, currentBlock: nat)
    requires 0 < blockSize && requests != []
    ensures fresh(table) && table.Length0 == |requests|
    ensures forall i :: 0 <= i < |requests| ==>
      TableHolds(table, requests, blockSize, i, NumBlocks(requests[i].kvLen, blockSize))
    ensures forall i, j :: 0 <= i < |requests| && NumBlocks(requests[i].kvLen, blockSize) <= j < table.Length1 ==>
      table[i, j] == 0
    ensures currentBlock == Base(requests, blockSize, |requests|)
  {
    var longest := LongestTable(requests, blockSize);
    table := new int[|requests|, longest]((_, _) => 0);
    currentBlock := 0;
    for i := 0 to |requests|
      invariant currentBlock == Base(requests, blockSize, i)
      invariant forall k :: 0 <= k < i ==>
        TableHolds(table, requests, blockSize, k, NumBlocks(requests[k].kvLen, blockSize))
      invariant forall k, j :: 0 <= k < |requests| && 0 <= j < longest && Unused(requests, blockSize, i, 0, k, j) ==>
        table[k, j] == 0
    {
      var numBlocks := NumBlocks(requests[i].kvLen, blockSize);
      for j := 0 to numBlocks
        invariant currentBlock == Base(requests, blockSize, i) + j && TableHolds(table, requests, blockSize, i, j)
        invariant forall k :: 0 <= k < i ==>
          TableHolds(table, requests, blockSize, k, NumBlocks(requests[k].kvLen, blockSize))
        invariant forall k, l :: 0 <= k < |requests| && 0 <= l < longest && Unused(requests, blockSize, i, j, k, l) ==>
          table[k, l] == 0
      {
        table[i, j] := currentBlock;
        currentBlock := currentBlock + 1;
      }
    }
  }

  /** The slots of one request's query tokens, which are its last cached ones. */
  ghost function RequestSlots(requests: seq<Request>, blockSize: nat, i: nat): (slots: seq<int>)
    requires Valid(requests, blockSize) && i < |requests|
    ensures |slots| == requests[i].qLen
    ensures forall j :: 0 <= j < |slots| ==>
      slots[j] == Slot(requests, blockSize, i, requests[i].kvLen - requests[i].qLen + j)
  {
    seq(requests[i].qLen,
        j requires 0 <= j < requests[i].qLen => Slot(requests, blockSize, i, requests[i].kvLen - requests[i].qLen + j))
  }

  ghost function AllSlots(requests: seq<Request>, blockSize: nat, n: nat): seq<int>
    requires Valid(requests, blockSize) && n <= |requests|
  {
    if n == 0 then [] else AllSlots(requests, blockSize, n - 1) + RequestSlots(requests, blockSize, n - 1)
  }

  lemma {:induction false} AllSlotsLength(requests: seq<Request>, blockSize: nat, n: nat)
    requires Valid(requests, blockSize) && n <= |requests|
    ensures |AllSlots(requests, blockSize, n)| == QueryStart(requests, n)
  {
    if n > 0 { AllSlotsLength(requests, blockSize, n - 1); }
  }

  /** The slot of a query token is found at its place in the batch. */
  lemma {:induction false} SlotOfToken(requests: seq<Request>, blockSize: nat, n: nat, i: nat, j: nat)
    requires Valid(requests, blockSize) && i < n <= |requests| && j < requests[i].qLen
    ensures QueryStart(requests, i) + j < |AllSlots(requests, blockSize, n)|
    ensures AllSlots(requests, blockSize, n)[QueryStart(requests, i) + j]
         == Slot(requests, blockSize, i, requests[i].kvLen - requests[i].qLen + j)
  {
    AllSlotsLength(requests, blockSize, n - 1);
    if i < n - 1 { SlotOfToken(requests, blockSize, n - 1, i, j); }
  }

  /** Every place in the batch belongs to a query token. */
  lemma {:induction false} TokenOfPlace(requests: seq<Request>, n: nat, place: nat) returns (i: nat, j: nat)
    requires n <= |requests| && place < QueryStart(requests, n)
    ensures i < n && j < requests[i].qLen && QueryStart(requests, i) + j == place
  {
    if place < QueryStart(requests, n - 1) {
      i, j := TokenOfPlace(requests, n - 1, place);
    } else {
      i, j := n - 1, place - QueryStart(requests, n - 1);
    }
  }

  /** The slots of a batch are in bounds. */
  lemma BatchInBounds(requests: seq<Request>, blockSize: nat, x: nat)
    requires Valid(requests, blockSize) && x < |AllSlots(requests, blockSize, |requests|)|
    ensures 0 <= AllSlots(requests, blockSize, |requests|)[x] < Base(requests, blockSize, |requests|) * blockSize
  {
    AllSlotsLength(requests, blockSize, |requests|);
    var i, j := TokenOfPlace(requests, |requests|, x);
    SlotOfToken(requests, blockSize, |requests|, i, j);
    SlotInBounds(requests, blockSize, i, requests[i].kvLen - requests[i].qLen + j);
  }

  /** The slots of a batch are pairwise different. */
  lemma BatchDistinct(requests: seq<Request>, blockSize: nat, x: nat, y: nat)
    requires Valid(requests, blockSize) && x < y < |AllSlots(requests, blockSize, |requests|)|
    ensures AllSlots(requests, blockSize, |requests|)[x] != AllSlots(requests, blockSize, |requests|)[y]
  {
    var n := |requests|;
    AllSlotsLength(requests, blockSize, n);
    var i, j := TokenOfPlace(requests, n, x);
    var k, l := TokenOfPlace(requests, n, y);
    SlotOfToken(requests, blockSize, n, i, j);
    SlotOfToken(requests, blockSize, n, k, l);
    var p, q := requests[i].kvLen - requests[i].qLen + j, requests[k].kvLen - requests[k].qLen + l;
    if Slot(requests, blockSize, i, p) == Slot(requests, blockSize, k, q) {
      SlotsDistinct(requests, blockSize, i, p, k, q);
    }
  }

  /** Looking a cached token up in the table. Only used cells are known here, so padded cells cannot matter. */
  method LookUp(requests: seq<Request>, blockSize: nat, table: array2<int>, i: nat, tokenKvIdx: nat) returns (slot: int)
    requires 0 < blockSize && i < |requests| == table.Length0 && tokenKvIdx < requests[i].kvLen
    requires TableHolds(table, requests, blockSize, i, NumBlocks(requests[i].kvLen, blockSize))
    ensures slot == Slot(requests, blockSize, i, tokenKvIdx)
    ensures tokenKvIdx / blockSize < table.Length1
    ensures slot == table[i, tokenKvIdx / blockSize] * blockSize + tokenKvIdx % blockSize
  {
    InUsedBlock(requests[i].kvLen, blockSize, tokenKvIdx);
    ThroughTable(Base(requests, blockSize, i), blockSize, tokenKvIdx);
    var globalBlockId := table[i, tokenKvIdx / blockSize];
    slot := globalBlockId * blockSize + tokenKvIdx % blockSize;
  }

  method BuildSlots(requests: seq<Request>, blockSize: nat, table: array2<int>) returns (slots: seq<int>)
    requires Valid(requests, blockSize) && |requests| == table.Length0
    requires forall i :: 0 <= i < |requests| ==>
      TableHolds(table, requests, blockSize, i, NumBlocks(requests[i].kvLen, blockSize))
    ensures slots == AllSlots(requests, blockSize, |requests|)
  {
    slots := [];
    for i := 0 to |requests|
      invariant slots == AllSlots(requests, blockSize, i)
    {
      var Request(qLen, kvLen) := requests[i];
      var contextLen := kvLen - qLen;
      for j := 0 to qLen
        invariant slots == AllSlots(requests, blockSize, i) + RequestSlots(requests, blockSize, i)[..j]
      {
        var slot := LookUp(requests, blockSize, table, i, contextLen + j);
        slots := slots + [slot];
      }
    }
  }

  /** `[0] + [sum(q_lens[: i + 1]) ...]` */
  method BuildQueryStarts(requests: seq<Request>) returns (starts: seq<nat>)
    ensures |starts| == |requests| + 1 && forall i :: 0 <= i <= |requests| ==> starts[i] == QueryStart(requests, i)
  {
    starts := [0];
    for i := 0 to |requests|
      invariant |starts| == i + 1 && forall k :: 0 <= k <= i ==> starts[k] == QueryStart(requests, k)
    {
      starts := starts + [starts[i] + requests[i].qLen];
    }
  }

  /** What each request has in the cache before its query tokens. */
  function ContextLens(requests: seq<Request>): (r: seq<int>)
    ensures |r| == |requests| && forall i :: 0 <= i < |requests| ==> r[i] + requests[i].qLen == requests[i].kvLen
  {
    seq(|requests|, i requires 0 <= i < |requests| => requests[i].kvLen - requests[i].qLen)
  }

  datatype Metadata = Metadata(queryStarts: seq<nat>, contextLens: seq<int>, table: array2<int>,
                               slots: seq<int>, numBlocks: nat)
  datatype Result = Ok(metadata: Metadata) | ValueError

  /** `_build_attention_metadata`; the maximum of no lengths is an error. */
  method BuildMetadata(requests: seq<Request>, blockSize: nat) returns (r: Result)
    requires Valid(requests, blockSize)
    ensures r.ValueError? <==> requests == []
    ensures r.Ok? ==> r.metadata.contextLens == ContextLens(requests)
    ensures r.Ok? ==> r.metadata.numBlocks == Base(requests, blockSize, |requests|)
    ensures r.Ok? ==> r.metadata.slots == AllSlots(requests, blockSize, |requests|)
    ensures r.Ok? ==> r.metadata.table.Length0 == |requests|
    ensures r.Ok? ==> forall i :: 0 <= i < |requests| ==>
      TableHolds(r.metadata.table, requests, blockSize, i, NumBlocks(requests[i].kvLen, blockSize))
    ensures r.Ok? ==>
      |r.metadata.queryStarts| == |requests| + 1 && r.metadata.queryStarts[|requests|] == |r.metadata.slots|
    ensures r.Ok? ==> forall i :: 0 <= i <= |requests| ==> r.metadata.queryStarts[i] == QueryStart(requests, i)
  {
    if requests == [] {
      return ValueError;
    }
    var starts := BuildQueryStarts(requests);
    var contextLens := ContextLens(requests);
    var table, numBlocks := BuildBlockTable(requests, blockSize);
    var slots := BuildSlots(requests, blockSize, table);
    AllSlotsLength(requests, blockSize, |requests|);
    return Ok(Metadata(starts, contextLens, table, slots, numBlocks));
  }
}
