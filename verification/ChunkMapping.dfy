/**
 Creating, mapping, unmapping and releasing the chunks of one allocation against a driver that
 may fail at any call.
 */
module ChunkMapping {
  import opened Basics
  import opened ChunkPlan

  type Handle = nat
  type Status = int
  const OK: Status := 0
  const INVALID: Status := 1

  datatype Mapping = Mapping(size: nat, handle: Handle)

  /** The driver's memory and the extension's global `error_code`. */
  class Runtime {
    /** The driver's answer to the n-th valid call of each kind; zero means success. */
    const createStatus: nat -> Status
    const mapStatus: nat -> Status
    const cleanupStatus: nat -> Status

    var creates: nat
    var maps: nat
    var cleanups: nat
    var nextHandle: Handle
    var live: map<Handle, nat>
    var mappings: map<nat, Mapping>
    var errorCode: Status
    /** Calls that the driver had to refuse as invalid: unknown handles, overlaps, ranges not mapped. */
    var refused: nat

    ghost predicate Valid()
      reads this
    {
      forall h :: h in live ==> h < nextHandle
    }

    constructor (createStatus: nat -> Status, mapStatus: nat -> Status, cleanupStatus: nat -> Status)
      ensures Valid() && live == map[] && mappings == map[] && errorCode == OK && refused == 0
    {
      this.createStatus, this.mapStatus, this.cleanupStatus := createStatus, mapStatus, cleanupStatus;
      creates, maps, cleanups, nextHandle, refused := 0, 0, 0, 0, 0;
      live, mappings, errorCode := map[], map[], OK;
    }

    method MemCreate(size: nat) returns (status: Status, h: Handle)
      requires Valid()
      modifies this
      ensures Valid() && mappings == old(mappings) && errorCode == old(errorCode) && refused == old(refused)
      ensures cleanups == old(cleanups) && nextHandle >= old(nextHandle)
      ensures status == OK ==> old(nextHandle) <= h < nextHandle && live == old(live)[h := size]
      ensures status != OK ==> live == old(live)
    {
      status, h := createStatus(creates), nextHandle;
      creates := creates + 1;
      if status == OK {
        live, nextHandle := live[h := size], nextHandle + 1;
      }
    }

    method MemMap(addr: nat, size: nat, h: Handle) returns (status: Status)
      requires Valid()
      modifies this
      ensures Valid() && live == old(live) && errorCode == old(errorCode) && cleanups == old(cleanups)
      ensures nextHandle == old(nextHandle)
      ensures h in live && live[h] == size && RangeFree(old(mappings), addr, addr + size) ==> refused == old(refused)
      ensures status == OK ==> mappings == old(mappings)[addr := Mapping(size, h)]
      ensures status != OK ==> mappings == old(mappings)
    {
      if h in live && live[h] == size && RangeFree(mappings, addr, addr + size) {
        status := mapStatus(maps);
        maps := maps + 1;
        if status == OK {
          mappings := mappings[addr := Mapping(size, h)];
        }
      } else {
        status, refused := INVALID, refused + 1;
      }
    }

    method MemUnmap(addr: nat, size: nat) returns (status: Status)
      requires Valid()
      modifies this
      ensures Valid() && live == old(live) && errorCode == old(errorCode) && nextHandle == old(nextHandle)
      ensures addr in old(mappings) && old(mappings)[addr].size == size ==>
        refused == old(refused) && cleanups == old(cleanups) + 1 && status == cleanupStatus(old(cleanups))
      ensures status == OK ==> mappings == old(mappings) - {addr}
      ensures status != OK ==> mappings == old(mappings)
    {
      if addr in mappings && mappings[addr].size == size {
        status := cleanupStatus(cleanups);
        cleanups := cleanups + 1;
        if status == OK {
          mappings := mappings - {addr};
        }
      } else {
        status, refused := INVALID, refused + 1;
      }
    }

    method MemRelease(h: Handle) returns (status: Status)
      requires Valid()
      modifies this
      ensures Valid() && mappings == old(mappings) && errorCode == old(errorCode) && nextHandle == old(nextHandle)
      ensures h in old(live) ==>
        refused == old(refused) && cleanups == old(cleanups) + 1 && status == cleanupStatus(old(cleanups))
      ensures status == OK ==> live == old(live) - {h}
      ensures status != OK ==> live == old(live)
    {
      if h in live {
        status := cleanupStatus(cleanups);
        cleanups := cleanups + 1;
        if status == OK {
          live := live - {h};
        }
      } else {
        status, refused := INVALID, refused + 1;
      }
    }

    /** Unmap and release calls succeed whenever they are valid. */
    ghost predicate CleanupWorks() {
      forall n: nat :: cleanupStatus(n) == OK
    }
  }

  predicate RangeFree(mappings: map<nat, Mapping>, from: nat, until: nat) {
    forall a :: a in mappings ==> a + mappings[a].size <= from || until <= a
  }

  // ----- The layout of an allocation

  ghost predicate Positive(sizes: seq<nat>) {
    forall i :: 0 <= i < |sizes| ==> 0 < sizes[i]
  }

  /** `live` after the first `n` chunks have been created. */
  ghost function WithHandles(live: map<Handle, nat>, handles: seq<Handle>, sizes: seq<nat>, n: nat): map<Handle, nat>
    requires n <= |handles| == |sizes|
  {
    if n == 0 then live else WithHandles(live, handles, sizes, n - 1)[handles[n - 1] := sizes[n - 1]]
  }

  /** `mappings` after the first `n` chunks have been mapped, one after the other from `base`. */
  ghost function WithChunks(mappings: map<nat, Mapping>, base: nat, handles: seq<Handle>, sizes: seq<nat>,
                            n: nat): map<nat, Mapping>
    requires n <= |handles| == |sizes|
  {
    if n == 0 then mappings
    else
      var before := WithChunks(mappings, base, handles, sizes, n - 1);
      before[base + Sum(sizes, n - 1) := Mapping(sizes[n - 1], handles[n - 1])]
  }

  /** Handles that are new, each its own. */
  ghost predicate FreshHandles(live: map<Handle, nat>, handles: seq<Handle>, n: nat)
    requires n <= |handles|
  {
    && (forall i :: 0 <= i < n ==> handles[i] !in live)
    && (forall i, j :: 0 <= i < j < n ==> handles[i] != handles[j])
  }

  lemma {:induction false} SumGrows(sizes: seq<nat>, i: nat, j: nat)
    requires i <= j <= |sizes|
    ensures Sum(sizes, i) <= Sum(sizes, j)
    ensures Positive(sizes) && i < j ==> Sum(sizes, i) + sizes[i] <= Sum(sizes, j) && Sum(sizes, i) < Sum(sizes, j)
  {
    if i < j { SumGrows(sizes, i, j - 1); }
  }

  /** The chunks lie side by side: each range ends where the next one starts, and none overlap. */
  lemma ChunksSideBySide(sizes: seq<nat>, base: nat, i: nat, j: nat)
    requires i < j < |sizes|
    ensures base + Sum(sizes, i) + sizes[i] == base + Sum(sizes, i + 1) <= base + Sum(sizes, j)
  {
    SumGrows(sizes, i + 1, j);
  }

  ghost function Addresses(base: nat, sizes: seq<nat>, n: nat): set<nat>
    requires n <= |sizes|
  {
    set i | 0 <= i < n :: base + Sum(sizes, i)
  }

  ghost function HandleSet(handles: seq<Handle>, n: nat): set<Handle>
    requires n <= |handles|
  {
    set i | 0 <= i < n :: handles[i]
  }

  lemma HandleSetSnoc(handles: seq<Handle>, n: nat)
    requires n < |handles|
    ensures HandleSet(handles, n + 1) == HandleSet(handles, n) + {handles[n]}
  {
  }

  lemma AddressesSnoc(base: nat, sizes: seq<nat>, n: nat)
    requires n < |sizes|
    ensures Addresses(base, sizes, n + 1) == Addresses(base, sizes, n) + {base + Sum(sizes, n)}
  {
  }

  /** The handles of the first `n` chunks come on top of `live`, and nothing else does. */
  lemma {:induction false} WithHandlesKeys(live: map<Handle, nat>, handles: seq<Handle>, sizes: seq<nat>, n: nat)
    requires n <= |handles| == |sizes| && FreshHandles(live, handles, n)
    ensures WithHandles(live, handles, sizes, n).Keys == live.Keys + HandleSet(handles, n)
  {
    if n > 0 {
      WithHandlesKeys(live, handles, sizes, n - 1);
      HandleSetSnoc(handles, n - 1);
    }
  }

  lemma {:induction false} HandleSize(live: map<Handle, nat>, handles: seq<Handle>, sizes: seq<nat>, n: nat, i: nat)
    requires i < n <= |handles| == |sizes| && FreshHandles(live, handles, n)
    ensures handles[i] in WithHandles(live, handles, sizes, n)
    ensures WithHandles(live, handles, sizes, n)[handles[i]] == sizes[i]
  {
    if i < n - 1 { HandleSize(live, handles, sizes, n - 1, i); }
  }

  lemma {:induction false} OldHandlesKept(live: map<Handle, nat>, handles: seq<Handle>, sizes: seq<nat>, n: nat,
                                          h: Handle)
    requires n <= |handles| == |sizes| && FreshHandles(live, handles, n) && h in live
    ensures h in WithHandles(live, handles, sizes, n) && WithHandles(live, handles, sizes, n)[h] == live[h]
  {
    if n > 0 { OldHandlesKept(live, handles, sizes, n - 1, h); }
  }

  lemma HandlesUndone(live: map<Handle, nat>, handles: seq<Handle>, sizes: seq<nat>, n: nat)
    requires n <= |handles| == |sizes| && FreshHandles(live, handles, n)
    ensures WithHandles(live, handles, sizes, n) - HandleSet(handles, n) == live
  {
    WithHandlesKeys(live, handles, sizes, n);
    forall h | h in live ensures WithHandles(live, handles, sizes, n)[h] == live[h] {
      OldHandlesKept(live, handles, sizes, n, h);
    }
  }

  lemma {:induction false} WithChunksKeys(mappings: map<nat, Mapping>, base: nat, handles: seq<Handle>, sizes: seq<nat>,
                                          n: nat)
    requires n <= |handles| == |sizes|
    ensures WithChunks(mappings, base, handles, sizes, n).Keys == mappings.Keys + Addresses(base, sizes, n)
  {
    if n > 0 {
      WithChunksKeys(mappings, base, handles, sizes, n - 1);
      AddressesSnoc(base, sizes, n - 1);
    }
  }

  lemma {:induction false} WithChunk(mappings: map<nat, Mapping>, base: nat, handles: seq<Handle>, sizes: seq<nat>,
                                     n: nat, i: nat)
    requires i < n <= |handles| == |sizes| && Positive(sizes)
    ensures base + Sum(sizes, i) in WithChunks(mappings, base, handles, sizes, n)
    ensures WithChunks(mappings, base, handles, sizes, n)[base + Sum(sizes, i)] == Mapping(sizes[i], handles[i])
  {
    if i < n - 1 {
      WithChunk(mappings, base, handles, sizes, n - 1, i);
      SumGrows(sizes, i, n - 1);
    }
  }

  lemma {:induction false} WithoutChunk(mappings: map<nat, Mapping>, base: nat, handles: seq<Handle>, sizes: seq<nat>,
                                        n: nat, a: nat)
    requires n <= |handles| == |sizes| && a in mappings && a !in Addresses(base, sizes, n)
    ensures a in WithChunks(mappings, base, handles, sizes, n)
    ensures WithChunks(mappings, base, handles, sizes, n)[a] == mappings[a]
  {
    if n > 0 {
      AddressesSnoc(base, sizes, n - 1);
      WithoutChunk(mappings, base, handles, sizes, n - 1, a);
    }
  }

  lemma AddressesAreNew(mappings: map<nat, Mapping>, base: nat, sizes: seq<nat>, n: nat)
    requires n <= |sizes| && Positive(sizes) && RangeFree(mappings, base, base + Sum(sizes, |sizes|))
    requires forall a :: a in mappings ==> 0 < mappings[a].size
    ensures mappings.Keys !! Addresses(base, sizes, n)
  {
    forall i | 0 <= i < n ensures base + Sum(sizes, i) !in mappings {
      SumGrows(sizes, i, |sizes|);
    }
  }

  lemma ChunksUndone(mappings: map<nat, Mapping>, base: nat, handles: seq<Handle>, sizes: seq<nat>, n: nat)
    requires n <= |handles| == |sizes|
    requires mappings.Keys !! Addresses(base, sizes, n)
    ensures WithChunks(mappings, base, handles, sizes, n) - Addresses(base, sizes, n) == mappings
  {
    WithChunksKeys(mappings, base, handles, sizes, n);
    forall a | a in mappings ensures WithChunks(mappings, base, handles, sizes, n)[a] == mappings[a] {
      WithoutChunk(mappings, base, handles, sizes, n, a);
    }
  }

  /** The range of chunk `n` is free when the chunks before it are the only ones in the reserved range. */
  lemma NextChunkFree(mappings: map<nat, Mapping>, base: nat, handles: seq<Handle>, sizes: seq<nat>, n: nat)
    requires n < |handles| == |sizes| && Positive(sizes) && RangeFree(mappings, base, base + Sum(sizes, |sizes|))
    ensures RangeFree(WithChunks(mappings, base, handles, sizes, n),
                      base + Sum(sizes, n), base + Sum(sizes, n) + sizes[n])
  {
    var all := WithChunks(mappings, base, handles, sizes, n);
    WithChunksKeys(mappings, base, handles, sizes, n);
    forall a | a in all ensures a + all[a].size <= base + Sum(sizes, n) || base + Sum(sizes, n) + sizes[n] <= a {
      if a in Addresses(base, sizes, n) {
        var i :| 0 <= i < n && a == base + Sum(sizes, i);
        WithChunk(mappings, base, handles, sizes, n, i);
        SumGrows(sizes, i, n);
      } else {
        WithoutChunk(mappings, base, handles, sizes, n, a);
        SumGrows(sizes, 0, n);
        SumGrows(sizes, n + 1, |sizes|);
      }
    }
  }

  /** Chunk `j` is mapped at its place. */
  ghost predicate MappedAt(mappings: map<nat, Mapping>, base: nat, sizes: seq<nat>, j: nat)
    requires j < |sizes|
  {
    base + Sum(sizes, j) in mappings && mappings[base + Sum(sizes, j)].size == sizes[j]
  }

  ghost predicate Mapped(mappings: map<nat, Mapping>, base: nat, sizes: seq<nat>, n: nat)
    requires n <= |sizes|
  {
    forall j {:trigger MappedAt(mappings, base, sizes, j)} :: 0 <= j < n ==> MappedAt(mappings, base, sizes, j)
  }

  // ----- What the driver answers to cleanup calls

  /** The first failure among `n` answers, or zero. */
  ghost function FirstFailure(answers: nat -> Status, from: nat, n: nat): Status {
    if n == 0 then OK
    else
      var earlier := FirstFailure(answers, from, n - 1);
      if earlier != OK then earlier else answers(from + n - 1)
  }

  ghost predicate AllWork(answers: nat -> Status, from: nat, n: nat) {
    forall k: nat :: from <= k < from + n ==> answers(k) == OK
  }

  /** The addresses among the first `n` chunks whose unmap call is answered with success. */
  ghost function UnmappedOf(answers: nat -> Status, from: nat, base: nat, sizes: seq<nat>, n: nat): set<nat>
    requires n <= |sizes|
  {
    if n == 0 then {}
    else
      var before := UnmappedOf(answers, from, base, sizes, n - 1);
      before + if answers(from + n - 1) == OK then {base + Sum(sizes, n - 1)} else {}
  }

  /** The same for release calls. */
  ghost function ReleasedOf(answers: nat -> Status, from: nat, handles: seq<Handle>, n: nat): set<Handle>
    requires n <= |handles|
  {
    if n == 0 then {}
    else ReleasedOf(answers, from, handles, n - 1) + if answers(from + n - 1) == OK then {handles[n - 1]} else {}
  }

  lemma {:induction false} UnmappedAmong(answers: nat -> Status, from: nat, base: nat, sizes: seq<nat>, n: nat)
    requires n <= |sizes|
    ensures UnmappedOf(answers, from, base, sizes, n) <= Addresses(base, sizes, n)
    ensures AllWork(answers, from, n) ==> UnmappedOf(answers, from, base, sizes, n) == Addresses(base, sizes, n)
  {
    if n > 0 {
      UnmappedAmong(answers, from, base, sizes, n - 1);
      AddressesSnoc(base, sizes, n - 1);
    }
  }

  lemma {:induction false} ReleasedAmong(answers: nat -> Status, from: nat, handles: seq<Handle>, n: nat)
    requires n <= |handles|
    ensures ReleasedOf(answers, from, handles, n) <= HandleSet(handles, n)
    ensures AllWork(answers, from, n) ==> ReleasedOf(answers, from, handles, n) == HandleSet(handles, n)
  {
    if n > 0 {
      ReleasedAmong(answers, from, handles, n - 1);
      HandleSetSnoc(handles, n - 1);
    }
  }

  lemma {:induction false} FirstFailureSplit(answers: nat -> Status, from: nat, m: nat, n: nat)
    ensures var first := FirstFailure(answers, from, m);
      FirstFailure(answers, from, m + n) == if first != OK then first else FirstFailure(answers, from + m, n)
  {
    if n > 0 { FirstFailureSplit(answers, from, m, n - 1); }
  }

  /** There is no failure exactly when all answers are successes. */
  lemma {:induction false} NoFailureIff(answers: nat -> Status, from: nat, n: nat)
    ensures FirstFailure(answers, from, n) == OK <==> AllWork(answers, from, n)
  {
    if n > 0 { NoFailureIff(answers, from, n - 1); }
  }

  lemma NotYetUnmapped(answers: nat -> Status, from: nat, base: nat, sizes: seq<nat>, j: nat)
    requires j < |sizes| && Positive(sizes)
    ensures base + Sum(sizes, j) !in UnmappedOf(answers, from, base, sizes, j)
  {
    UnmappedAmong(answers, from, base, sizes, j);
    forall i | 0 <= i < j ensures Sum(sizes, i) != Sum(sizes, j) { SumGrows(sizes, i, j); }
  }

  // ----- Rolling back, ignoring the answers

  /** Releases the first `n` handles. */
  method ReleaseFirst(rt: Runtime, handles: seq<Handle>, n: nat)
    requires rt.Valid() && n <= |handles|
    requires forall i :: 0 <= i < n ==> handles[i] in rt.live
    requires forall i, j :: 0 <= i < j < n ==> handles[i] != handles[j]
    modifies rt
    ensures rt.Valid() && rt.cleanups == old(rt.cleanups) + n
    ensures rt.live == old(rt.live) - ReleasedOf(rt.cleanupStatus, old(rt.cleanups), handles, n)
    ensures rt.mappings == old(rt.mappings) && rt.errorCode == old(rt.errorCode) && rt.refused == old(rt.refused)
  {
    for j := 0 to n
      invariant rt.Valid() && rt.cleanups == old(rt.cleanups) + j
      invariant rt.live == old(rt.live) - ReleasedOf(rt.cleanupStatus, old(rt.cleanups), handles, j)
      invariant rt.mappings == old(rt.mappings) && rt.errorCode == old(rt.errorCode) && rt.refused == old(rt.refused)
    {
      ReleasedAmong(rt.cleanupStatus, old(rt.cleanups), handles, j);
      var _ := rt.MemRelease(handles[j]);
    }
  }

  /** Unmaps the first `n` chunks. */
  method UnmapFirst(rt: Runtime, base: nat, sizes: seq<nat>, n: nat)
    requires rt.Valid() && n <= |sizes| && Positive(sizes)
    requires Mapped(rt.mappings, base, sizes, n)
    modifies rt
    ensures rt.Valid() && rt.cleanups == old(rt.cleanups) + n
    ensures rt.mappings == old(rt.mappings) - UnmappedOf(rt.cleanupStatus, old(rt.cleanups), base, sizes, n)
    ensures rt.live == old(rt.live) && rt.errorCode == old(rt.errorCode) && rt.refused == old(rt.refused)
  {
    var unmapped := 0;
    for j := 0 to n
      invariant rt.Valid() && unmapped == Sum(sizes, j) && rt.cleanups == old(rt.cleanups) + j
      invariant rt.mappings == old(rt.mappings) - UnmappedOf(rt.cleanupStatus, old(rt.cleanups), base, sizes, j)
      invariant rt.live == old(rt.live) && rt.errorCode == old(rt.errorCode) && rt.refused == old(rt.refused)
    {
      assert MappedAt(old(rt.mappings), base, sizes, j);
      NotYetUnmapped(rt.cleanupStatus, old(rt.cleanups), base, sizes, j);
      var _ := rt.MemUnmap(base + unmapped, sizes[j]);
      unmapped := unmapped + sizes[j];
    }
  }

  // ----- create_and_map

  /** CUDA_CHECK: remembers a failure. */
  method Check(rt: Runtime, status: Status)
    requires rt.Valid()
    modifies rt`errorCode
    ensures rt.Valid() && rt.errorCode == if status != OK then status else old(rt.errorCode)
  {
    if status != OK {
      rt.errorCode := status;
    }
  }

  /** What is left of the first `n` handles after a rollback whose answers begin at `from`. */
  ghost function HandlesLeft(rt: Runtime, from: nat, live0: map<Handle, nat>, handles: seq<Handle>, sizes: seq<nat>,
                             n: nat): map<Handle, nat>
    requires n <= |handles| == |sizes|
  {
    WithHandles(live0, handles, sizes, n) - ReleasedOf(rt.cleanupStatus, from, handles, n)
  }

  ghost function ChunksLeft(rt: Runtime, from: nat, mappings0: map<nat, Mapping>, base: nat, handles: seq<Handle>,
                            sizes: seq<nat>, n: nat): map<nat, Mapping>
    requires n <= |handles| == |sizes|
  {
    WithChunks(mappings0, base, handles, sizes, n) - UnmappedOf(rt.cleanupStatus, from, base, sizes, n)
  }

  /** Tries to release the first `n` handles. */
  method ReleaseCreated(rt: Runtime, handles: seq<Handle>, sizes: seq<nat>, n: nat, ghost live0: map<Handle, nat>)
    requires rt.Valid() && n <= |handles| == |sizes| && FreshHandles(live0, handles, n)
    requires rt.live == WithHandles(live0, handles, sizes, n)
    modifies rt
    ensures rt.Valid() && rt.live == HandlesLeft(rt, old(rt.cleanups), live0, handles, sizes, n)
    ensures rt.mappings == old(rt.mappings) && rt.errorCode == old(rt.errorCode) && rt.refused == old(rt.refused)
  {
    WithHandlesKeys(live0, handles, sizes, n);
    ReleaseFirst(rt, handles, n);
  }

  /** Where the cleanup calls succeed nothing is left. */
  lemma NoHandlesLeft(rt: Runtime, from: nat, live0: map<Handle, nat>, handles: seq<Handle>, sizes: seq<nat>, n: nat)
    requires n <= |handles| == |sizes| && FreshHandles(live0, handles, n) && AllWork(rt.cleanupStatus, from, n)
    ensures HandlesLeft(rt, from, live0, handles, sizes, n) == live0
  {
    ReleasedAmong(rt.cleanupStatus, from, handles, n);
    HandlesUndone(live0, handles, sizes, n);
  }

  lemma NoChunksLeft(rt: Runtime, from: nat, mappings0: map<nat, Mapping>, base: nat, handles: seq<Handle>,
                     sizes: seq<nat>, n: nat)
    requires n <= |handles| == |sizes| && mappings0.Keys !! Addresses(base, sizes, n)
    requires AllWork(rt.cleanupStatus, from, n)
    ensures ChunksLeft(rt, from, mappings0, base, handles, sizes, n) == mappings0
  {
    UnmappedAmong(rt.cleanupStatus, from, base, sizes, n);
    ChunksUndone(mappings0, base, handles, sizes, n);
  }

  /** Creates all chunks, or tries to release the `created` ones and reports the failure. */
  method CreateAll(rt: Runtime, handles: array<Handle>, sizes: seq<nat>) returns (ghost created: nat)
    requires rt.Valid() && rt.errorCode == OK && handles.Length == |sizes|
    modifies rt, handles
    ensures rt.Valid() && rt.mappings == old(rt.mappings) && rt.refused == old(rt.refused)
    ensures created <= |sizes| && (rt.errorCode == OK <==> created == |sizes|)
    ensures FreshHandles(old(rt.live), handles[..], created)
    ensures rt.errorCode == OK ==>
      rt.live == WithHandles(old(rt.live), handles[..], sizes, |sizes|) && rt.cleanups == old(rt.cleanups)
    ensures rt.errorCode != OK ==>
      rt.live == HandlesLeft(rt, old(rt.cleanups), old(rt.live), handles[..], sizes, created)
  {
    created := 0;
    for i := 0 to |sizes|
      invariant rt.Valid() && rt.mappings == old(rt.mappings) && rt.refused == old(rt.refused) && rt.errorCode == OK
      invariant created == i && rt.nextHandle >= old(rt.nextHandle) && rt.cleanups == old(rt.cleanups)
      invariant forall j :: 0 <= j < i ==> old(rt.nextHandle) <= handles[j] < rt.nextHandle
      invariant FreshHandles(old(rt.live), handles[..], i)
      invariant rt.live == WithHandles(old(rt.live), handles[..], sizes, i)
    {
      ghost var before := handles[..];
      var status, h := rt.MemCreate(sizes[i]);
      Check(rt, status);
      if rt.errorCode != OK {
        ReleaseCreated(rt, handles[..], sizes, i, old(rt.live));
        return;
      }
      handles[i] := h;
      SameHandles(old(rt.live), before, handles[..], sizes, i);
      created := i + 1;
    }
  }

  /** Only the first `n` handles matter. */
  lemma {:induction false} SameHandles(live: map<Handle, nat>, handles: seq<Handle>, handles': seq<Handle>,
                                       sizes: seq<nat>, n: nat)
    requires n <= |handles| == |handles'| == |sizes| && forall i :: 0 <= i < n ==> handles[i] == handles'[i]
    ensures WithHandles(live, handles, sizes, n) == WithHandles(live, handles', sizes, n)
  {
    if n > 0 { SameHandles(live, handles, handles', sizes, n - 1); }
  }

  /** Tries to unmap the first `n` chunks and to release every handle. */
  method Rollback(rt: Runtime, base: nat, handles: seq<Handle>, sizes: seq<nat>, n: nat,
                  ghost live0: map<Handle, nat>, ghost mappings0: map<nat, Mapping>)
    requires rt.Valid() && n <= |handles| == |sizes| && Positive(sizes)
    requires rt.mappings == WithChunks(mappings0, base, handles, sizes, n)
    requires FreshHandles(live0, handles, |sizes|) && rt.live == WithHandles(live0, handles, sizes, |sizes|)
    modifies rt
    ensures rt.Valid() && rt.errorCode == old(rt.errorCode) && rt.refused == old(rt.refused)
    ensures rt.mappings == ChunksLeft(rt, old(rt.cleanups), mappings0, base, handles, sizes, n)
    ensures rt.live == HandlesLeft(rt, old(rt.cleanups) + n, live0, handles, sizes, |sizes|)
  {
    ChunksAreThere(mappings0, base, handles, sizes, n);
    UnmapFirst(rt, base, sizes, n);
    ReleaseCreated(rt, handles, sizes, |sizes|, live0);
  }

  lemma ChunksAreThere(mappings: map<nat, Mapping>, base: nat, handles: seq<Handle>, sizes: seq<nat>, n: nat)
    requires n <= |handles| == |sizes| && Positive(sizes)
    ensures Mapped(WithChunks(mappings, base, handles, sizes, n), base, sizes, n)
  {
    forall j | 0 <= j < n ensures MappedAt(WithChunks(mappings, base, handles, sizes, n), base, sizes, j) {
      WithChunk(mappings, base, handles, sizes, n, j);
    }
  }

  /** Maps one more chunk behind the ones that are there, or reports the failure. */
  method MapNext(rt: Runtime, base: nat, handles: seq<Handle>, sizes: seq<nat>, i: nat, allocatedSize: nat,
                 ghost live0: map<Handle, nat>, ghost mappings0: map<nat, Mapping>)
    requires rt.Valid() && rt.errorCode == OK && i < |handles| == |sizes| && Positive(sizes)
    requires RangeFree(mappings0, base, base + Sum(sizes, |sizes|)) && allocatedSize == Sum(sizes, i)
    requires FreshHandles(live0, handles, |sizes|) && rt.live == WithHandles(live0, handles, sizes, |sizes|)
    requires rt.mappings == WithChunks(mappings0, base, handles, sizes, i)
    modifies rt
    ensures rt.Valid() && rt.refused == old(rt.refused) && rt.live == old(rt.live) && rt.cleanups == old(rt.cleanups)
    ensures rt.mappings == WithChunks(mappings0, base, handles, sizes, if rt.errorCode == OK then i + 1 else i)
  {
    NextChunkFree(mappings0, base, handles, sizes, i);
    HandleSize(live0, handles, sizes, |sizes|, i);
    var status := rt.MemMap(base + allocatedSize, sizes[i], handles[i]);
    Check(rt, status);
  }

  /**
   Maps all chunks side by side, or tries to undo the `mapped` ones and to release every handle, and
   reports the failure.
   */
  method MapAll(rt: Runtime, base: nat, handles: seq<Handle>, sizes: seq<nat>, ghost live0: map<Handle, nat>)
    returns (ghost mapped: nat)
    requires rt.Valid() && rt.errorCode == OK && |handles| == |sizes| && Positive(sizes)
    requires RangeFree(rt.mappings, base, base + Sum(sizes, |sizes|))
    requires FreshHandles(live0, handles, |sizes|) && rt.live == WithHandles(live0, handles, sizes, |sizes|)
    modifies rt
    ensures rt.Valid() && rt.refused == old(rt.refused) && mapped <= |sizes|
    ensures (rt.errorCode == OK <==> mapped == |sizes|)
    ensures rt.errorCode == OK ==>
      rt.live == old(rt.live) && rt.mappings == WithChunks(old(rt.mappings), base, handles, sizes, |sizes|)
    ensures rt.errorCode != OK ==>
      rt.mappings == ChunksLeft(rt, old(rt.cleanups), old(rt.mappings), base, handles, sizes, mapped)
    ensures rt.errorCode != OK ==> rt.live == HandlesLeft(rt, old(rt.cleanups) + mapped, live0, handles, sizes, |sizes|)
  {
    var allocatedSize := 0;
    mapped := 0;
    for i := 0 to |sizes|
      invariant rt.Valid() && rt.refused == old(rt.refused) && rt.errorCode == OK && rt.live == old(rt.live)
      invariant mapped == i && allocatedSize == Sum(sizes, i) && rt.cleanups == old(rt.cleanups)
      invariant rt.mappings == WithChunks(old(rt.mappings), base, handles, sizes, i)
    {
      MapNext(rt, base, handles, sizes, i, allocatedSize, live0, old(rt.mappings));
      if rt.errorCode != OK {
        Rollback(rt, base, handles, sizes, i, live0, old(rt.mappings));
        return;
      }
      allocatedSize := allocatedSize + sizes[i];
      mapped := i + 1;
    }
  }

  /** What a failed `create_and_map` leaves behind: exactly the handles and chunks whose cleanup call failed. */
  ghost predicate LeftBehind(rt: Runtime, from: nat, live0: map<Handle, nat>, mappings0: map<nat, Mapping>,
                             base: nat, handles: seq<Handle>, sizes: seq<nat>, created: nat, mapped: nat)
    reads rt
    requires created <= |handles| == |sizes| && mapped <= |sizes|
  {
    if created < |sizes| then
      mapped == 0 && rt.live == HandlesLeft(rt, from, live0, handles, sizes, created) && rt.mappings == mappings0
    else
      && rt.live == HandlesLeft(rt, from + mapped, live0, handles, sizes, created)
      && rt.mappings == ChunksLeft(rt, from, mappings0, base, handles, sizes, mapped)
  }

  /**
   The chunk loops of `create_and_map`. Whatever the driver answers, either every chunk is created
   and mapped, or exactly what could not be cleaned up is left behind, which is nothing when the
   cleanup calls succeed; and no call was invalid, so no handle was released twice.
   */
  method CreateAndMap(rt: Runtime, base: nat, handles: array<Handle>, sizes: seq<nat>)
    returns (ghost created: nat, ghost mapped: nat)
    requires rt.Valid() && rt.errorCode == OK && handles.Length == |sizes| && Positive(sizes)
    requires RangeFree(rt.mappings, base, base + Sum(sizes, |sizes|))
    requires forall a :: a in rt.mappings ==> 0 < rt.mappings[a].size
    modifies rt, handles
    ensures rt.Valid() && rt.refused == old(rt.refused)
    ensures created <= |sizes| && mapped <= |sizes| && FreshHandles(old(rt.live), handles[..], created)
    ensures rt.errorCode == OK <==> created == mapped == |sizes|
    ensures rt.errorCode == OK ==> rt.live == WithHandles(old(rt.live), handles[..], sizes, |sizes|)
    ensures rt.errorCode == OK ==> rt.mappings == WithChunks(old(rt.mappings), base, handles[..], sizes, |sizes|)
    ensures rt.errorCode != OK ==>
      LeftBehind(rt, old(rt.cleanups), old(rt.live), old(rt.mappings), base, handles[..], sizes, created, mapped)
    ensures rt.errorCode != OK && rt.CleanupWorks() ==> rt.live == old(rt.live) && rt.mappings == old(rt.mappings)
  {
    mapped := 0;
    created := CreateAll(rt, handles, sizes);
    if rt.errorCode == OK {
      mapped := MapAll(rt, base, handles[..], sizes, old(rt.live));
    }
    if rt.errorCode != OK && rt.CleanupWorks() {
      AddressesAreNew(old(rt.mappings), base, sizes, mapped);
      NothingLeft(rt, old(rt.cleanups), old(rt.live), old(rt.mappings), base, handles[..], sizes, created, mapped);
    }
  }

  lemma NothingLeft(rt: Runtime, from: nat, live0: map<Handle, nat>, mappings0: map<nat, Mapping>,
                    base: nat, handles: seq<Handle>, sizes: seq<nat>, created: nat, mapped: nat)
    requires created <= |handles| == |sizes| && mapped <= |sizes| && FreshHandles(live0, handles, created)
    requires LeftBehind(rt, from, live0, mappings0, base, handles, sizes, created, mapped)
    requires rt.CleanupWorks() && mappings0.Keys !! Addresses(base, sizes, mapped)
    ensures rt.live == live0 && rt.mappings == mappings0
  {
    if created < |sizes| {
      NoHandlesLeft(rt, from, live0, handles, sizes, created);
    } else {
      NoHandlesLeft(rt, from + mapped, live0, handles, sizes, created);
      NoChunksLeft(rt, from, mappings0, base, handles, sizes, mapped);
    }
  }

  // ----- unmap_and_release

  /** The unmap loop: goes on after a failure and remembers the first one. */
  method UnmapEach(rt: Runtime, base: nat, sizes: seq<nat>) returns (firstError: Status)
    requires rt.Valid() && Positive(sizes) && Mapped(rt.mappings, base, sizes, |sizes|)
    modifies rt
    ensures rt.Valid() && rt.live == old(rt.live) && rt.errorCode == old(rt.errorCode) && rt.refused == old(rt.refused)
    ensures rt.cleanups == old(rt.cleanups) + |sizes|
    ensures rt.mappings == old(rt.mappings) - UnmappedOf(rt.cleanupStatus, old(rt.cleanups), base, sizes, |sizes|)
    ensures firstError == FirstFailure(rt.cleanupStatus, old(rt.cleanups), |sizes|)
  {
    var offset := 0;
    firstError := OK;
    for i := 0 to |sizes|
      invariant rt.Valid() && rt.live == old(rt.live) && rt.errorCode == old(rt.errorCode)
      invariant rt.refused == old(rt.refused)
      invariant rt.cleanups == old(rt.cleanups) + i && offset == Sum(sizes, i)
      invariant rt.mappings == old(rt.mappings) - UnmappedOf(rt.cleanupStatus, old(rt.cleanups), base, sizes, i)
      invariant firstError == FirstFailure(rt.cleanupStatus, old(rt.cleanups), i)
    {
      assert MappedAt(old(rt.mappings), base, sizes, i);
      NotYetUnmapped(rt.cleanupStatus, old(rt.cleanups), base, sizes, i);
      var status := rt.MemUnmap(base + offset, sizes[i]);
      if status != OK && firstError == OK {
        firstError := status;
      }
      offset := offset + sizes[i];
    }
  }

  /** The release loop, continuing with the error remembered so far. */
  method ReleaseEach(rt: Runtime, handles: seq<Handle>, firstError0: Status) returns (firstError: Status)
    requires rt.Valid()
    requires forall i :: 0 <= i < |handles| ==> handles[i] in rt.live
    requires forall i, j :: 0 <= i < j < |handles| ==> handles[i] != handles[j]
    modifies rt
    ensures rt.Valid() && rt.mappings == old(rt.mappings) && rt.errorCode == old(rt.errorCode)
    ensures rt.refused == old(rt.refused)
    ensures rt.cleanups == old(rt.cleanups) + |handles|
    ensures rt.live == old(rt.live) - ReleasedOf(rt.cleanupStatus, old(rt.cleanups), handles, |handles|)
    ensures firstError
         == if firstError0 != OK then firstError0 else FirstFailure(rt.cleanupStatus, old(rt.cleanups), |handles|)
  {
    firstError := firstError0;
    for i := 0 to |handles|
      invariant rt.Valid() && rt.mappings == old(rt.mappings) && rt.errorCode == old(rt.errorCode)
      invariant rt.refused == old(rt.refused)
      invariant rt.cleanups == old(rt.cleanups) + i
      invariant rt.live == old(rt.live) - ReleasedOf(rt.cleanupStatus, old(rt.cleanups), handles, i)
      invariant firstError
           == if firstError0 != OK then firstError0 else FirstFailure(rt.cleanupStatus, old(rt.cleanups), i)
    {
      ReleasedAmong(rt.cleanupStatus, old(rt.cleanups), handles, i);
      var status := rt.MemRelease(handles[i]);
      if status != OK && firstError == OK {
        firstError := status;
      }
    }
  }

  /**
   `unmap_and_release`: every chunk is unmapped and every handle released as far as the driver
   lets it, and the first failure of all, if any, becomes the error code.
   */
  method UnmapAndRelease(rt: Runtime, base: nat, handles: seq<Handle>, sizes: seq<nat>)
    requires rt.Valid() && |handles| == |sizes| && Positive(sizes) && Mapped(rt.mappings, base, sizes, |sizes|)
    requires forall i :: 0 <= i < |handles| ==> handles[i] in rt.live
    requires forall i, j :: 0 <= i < j < |handles| ==> handles[i] != handles[j]
    modifies rt
    ensures rt.Valid() && rt.refused == old(rt.refused)
    ensures rt.mappings == old(rt.mappings) - UnmappedOf(rt.cleanupStatus, old(rt.cleanups), base, sizes, |sizes|)
    ensures rt.live == old(rt.live) - ReleasedOf(rt.cleanupStatus, old(rt.cleanups) + |sizes|, handles, |handles|)
    ensures var failure := FirstFailure(rt.cleanupStatus, old(rt.cleanups), 2 * |sizes|);
      rt.errorCode == if failure != OK then failure else old(rt.errorCode)
  {
    ghost var from, n := rt.cleanups, |sizes|;
    var firstError := UnmapEach(rt, base, sizes);
    firstError := ReleaseEach(rt, handles, firstError);
    FirstFailureSplit(rt.cleanupStatus, from, n, n);
    if firstError != OK {
      Check(rt, firstError);
    }
  }

  // ----- Sleeping and waking

  /** The allocation is there, over and above what was there before it. */
  ghost predicate Allocated(rt: Runtime, base: nat, handles: seq<Handle>, sizes: seq<nat>, live0: map<Handle, nat>,
                            mappings0: map<nat, Mapping>)
    reads rt
    requires |handles| == |sizes|
  {
    && FreshHandles(live0, handles, |sizes|)
    && rt.live == WithHandles(live0, handles, sizes, |sizes|)
    && rt.mappings == WithChunks(mappings0, base, handles, sizes, |sizes|)
  }

  /** The reserved range holds nothing else. */
  ghost predicate Reserved(mappings0: map<nat, Mapping>, base: nat, sizes: seq<nat>) {
    && Positive(sizes) && RangeFree(mappings0, base, base + Sum(sizes, |sizes|))
    && forall a :: a in mappings0 ==> 0 < mappings0[a].size
  }

  lemma NothingStays(rt: Runtime, from: nat, base: nat, handles: seq<Handle>, sizes: seq<nat>,
                     live0: map<Handle, nat>, mappings0: map<nat, Mapping>)
    requires |handles| == |sizes| && FreshHandles(live0, handles, |sizes|) && Reserved(mappings0, base, sizes)
    requires AllWork(rt.cleanupStatus, from, 2 * |sizes|)
    ensures HandlesLeft(rt, from + |sizes|, live0, handles, sizes, |sizes|) == live0
    ensures ChunksLeft(rt, from, mappings0, base, handles, sizes, |sizes|) == mappings0
  {
    AddressesAreNew(mappings0, base, sizes, |sizes|);
    NoChunksLeft(rt, from, mappings0, base, handles, sizes, |sizes|);
    NoHandlesLeft(rt, from + |sizes|, live0, handles, sizes, |sizes|);
  }

  /**
   Going to sleep removes exactly the allocation if and only if no cleanup call fails; otherwise the
   failure is reported.
   */
  method Sleep(rt: Runtime, base: nat, handles: seq<Handle>, sizes: seq<nat>, ghost live0: map<Handle, nat>,
               ghost mappings0: map<nat, Mapping>)
    requires rt.Valid() && rt.errorCode == OK && |handles| == |sizes|
    requires Reserved(mappings0, base, sizes) && Allocated(rt, base, handles, sizes, live0, mappings0)
    modifies rt
    ensures rt.Valid() && rt.refused == old(rt.refused)
    ensures rt.errorCode == OK <==> AllWork(rt.cleanupStatus, old(rt.cleanups), 2 * |sizes|)
    ensures rt.errorCode == OK ==> rt.live == live0 && rt.mappings == mappings0
  {
    ghost var from, n := rt.cleanups, |sizes|;
    ChunksAreThere(mappings0, base, handles, sizes, n);
    WithHandlesKeys(live0, handles, sizes, n);
    UnmapAndRelease(rt, base, handles, sizes);
    NoFailureIff(rt.cleanupStatus, from, 2 * n);
    if rt.errorCode == OK { NothingStays(rt, from, base, handles, sizes, live0, mappings0); }
  }

  /**
   Any number of sleep and wake cycles, up to the first failure: while none is reported, the same
   addresses carry chunks of the same sizes. With cleanup calls that succeed, a failed wake leaves
   the allocation cleanly gone.
   */
  method Cycle(rt: Runtime, base: nat, handles: array<Handle>, sizes: seq<nat>, rounds: nat,
               ghost live0: map<Handle, nat>, ghost mappings0: map<nat, Mapping>)
    requires rt.Valid() && rt.errorCode == OK && handles.Length == |sizes|
    requires Reserved(mappings0, base, sizes) && Allocated(rt, base, handles[..], sizes, live0, mappings0)
    modifies rt, handles
    ensures rt.Valid() && rt.refused == old(rt.refused)
    ensures rt.errorCode == OK ==> Allocated(rt, base, handles[..], sizes, live0, mappings0)
    ensures rt.errorCode != OK && rt.CleanupWorks() ==> rt.live == live0 && rt.mappings == mappings0
  {
    for round := 0 to rounds
      invariant rt.Valid() && rt.refused == old(rt.refused) && rt.errorCode == OK
      invariant Allocated(rt, base, handles[..], sizes, live0, mappings0)
    {
      Sleep(rt, base, handles[..], sizes, live0, mappings0);
      if rt.errorCode == OK {
        ghost var _, _ := CreateAndMap(rt, base, handles, sizes);
      }
      if rt.errorCode != OK {
        return;
      }
    }
  }
}
