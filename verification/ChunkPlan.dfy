/** How an allocation is rounded up and cut into chunks, in 64-bit unsigned arithmetic. */
module ChunkPlan {
  import opened Basics

  const TWO64: nat := 0x1_0000_0000_0000_0000
  const TWO31: nat := 0x8000_0000
  const MB: nat := 1024 * 1024
  const DEFAULT_CHUNK: nat := 256 * MB

  /** `get_memcreate_chunk_size`, given the setting in megabytes if it is there and parses. */
  function BaseChunk(setting: Option<nat>): (r: nat)
    ensures 0 < r < TWO64 && r % MB == 0
    ensures setting.Some? && 0 < setting.value * MB < TWO64 ==> r == setting.value * MB
    ensures setting.None? || setting.value == 0 || setting.value * MB >= TWO64 ==> r == DEFAULT_CHUNK
  {
    if setting.None? || setting.value == 0 || setting.value > (TWO64 - 1) / MB then DEFAULT_CHUNK
    else setting.value * MB
  }

  /** Without a setting a chunk has 268435456 bytes; a setting of one makes it 1048576. */
  lemma ChunkSettings()
    ensures BaseChunk(None) == 268435456 && BaseChunk(Some(1)) == 1048576
  {
  }

  /** The chunk count `(size + chunk - 1) / chunk`, with the same wrap-around. */
  function Count(size: nat, chunk: nat): nat
    requires 0 < chunk
  {
    (size + chunk - 1) % TWO64 / chunk
  }

  /** `((x + unit - 1) / unit) * unit` with a sum that wraps around. */
  function AlignUp(x: nat, unit: nat): nat
    requires 0 < unit
  {
    Product(Count(x, unit), unit)
  }

  function Product(k: nat, unit: nat): (r: nat)
    ensures r == k * unit
  {
    NotNegative(k, unit);
    k * unit
  }

  lemma NotNegative(k: nat, unit: nat)
    ensures k * unit >= 0
  {
  }

  lemma QuotientBounds(x: nat, unit: nat)
    requires 0 < unit
    ensures x / unit * unit <= x < x / unit * unit + unit
    ensures x < unit ==> x / unit == 0
  {
  }

  lemma {:induction false} ModuloOfProduct(k: nat, unit: nat)
    requires 0 < unit
    ensures (k * unit) % unit == 0
  {
    if k > 0 {
      ModuloOfProduct(k - 1, unit);
      assert k * unit == (k - 1) * unit + unit;
      AddUnit((k - 1) * unit, unit);
    }
  }

  lemma AddUnit(x: nat, unit: nat)
    requires 0 < unit && x % unit == 0
    ensures (x + unit) % unit == 0
  {
    assert x == x / unit * unit;
    var q := x / unit;
    assert x + unit == (q + 1) * unit;
    QuotientBounds(x + unit, unit);
    SameQuotient(q + 1, (x + unit) / unit, unit, x + unit);
    assert (x + unit) % unit == (x + unit) - (x + unit) / unit * unit;
  }

  lemma SameQuotient(p: nat, q: nat, unit: nat, x: nat)
    requires 0 < unit && p * unit == x && q * unit <= x < q * unit + unit
    ensures p == q && x == q * unit
  {
    if p < q { NextMultiple(p, q, unit); }
    if q < p { NextMultiple(q, p, unit); }
  }

  lemma {:induction false} NextMultiple(p: nat, q: nat, unit: nat)
    requires p < q
    ensures p * unit + unit <= q * unit
  {
    assert q * unit == (q - 1) * unit + unit;
    if p < q - 1 { NextMultiple(p, q - 1, unit); }
  }

  /** Rounding up is exact iff the sum does not wrap; if it does, the result is zero. */
  lemma AlignUpExact(x: nat, unit: nat)
    requires 0 < x < TWO64 && 0 < unit < TWO64
    ensures x + unit - 1 < TWO64 ==> AlignUp(x, unit) % unit == 0 && x <= AlignUp(x, unit) < x + unit
    ensures x + unit - 1 >= TWO64 ==> AlignUp(x, unit) == 0
  {
    var sum := (x + unit - 1) % TWO64;
    QuotientBounds(sum, unit);
    ModuloOfProduct(sum / unit, unit);
  }

  // ----- Cutting a size into chunks

  /** Chunks of `chunk` bytes, the last one possibly smaller, that make up `size`. */
  ghost predicate Tiles(sizes: seq<nat>, size: nat, chunk: nat, unit: nat) {
    && Sum(sizes, |sizes|) == size
    && (forall i :: 0 <= i < |sizes| ==> 0 < sizes[i] <= chunk)
    && (forall i :: 0 <= i < |sizes| ==> unit > 0 && sizes[i] % unit == 0)
    && (forall i :: 0 <= i < |sizes| - 1 ==> sizes[i] == chunk)
  }

  /** What the source computes for chunk `i`. */
  function ChunkSize(size: nat, chunk: nat, i: nat): int {
    var rest := size - i * chunk;
    if rest < chunk then rest else chunk
  }

  lemma {:induction false} SumOfFullChunks(sizes: seq<nat>, chunk: nat, n: nat)
    requires n <= |sizes| && forall i :: 0 <= i < n ==> sizes[i] == chunk
    ensures Sum(sizes, n) == n * chunk
  {
    if n > 0 {
      SumOfFullChunks(sizes, chunk, n - 1);
      assert n * chunk == (n - 1) * chunk + chunk;
    }
  }

  /** With a count that does not wrap, all chunks but the last are full and the last is not empty. */
  lemma CountExact(size: nat, chunk: nat)
    requires 0 < size && 0 < chunk && size + chunk - 1 < TWO64
    ensures Count(size, chunk) > 0
    ensures (Count(size, chunk) - 1) * chunk < size <= Count(size, chunk) * chunk
  {
    QuotientBounds(size + chunk - 1, chunk);
    var n := Count(size, chunk);
    assert n == 0 ==> n * chunk == 0;
    assert n > 0;
    assert n * chunk == (n - 1) * chunk + chunk;
  }

  lemma {:induction false} BelowIsFull(size: nat, chunk: nat, n: nat, i: nat)
    requires i < n && n * chunk < size
    ensures ChunkSize(size, chunk, i) == chunk
  {
    NextMultiple(i, n, chunk);
  }

  lemma ChunksTile(size: nat, chunk: nat, unit: nat, sizes: seq<nat>)
    requires 0 < size && 0 < unit <= chunk && size % unit == 0 && chunk % unit == 0 && size + chunk - 1 < TWO64
    requires |sizes| == Count(size, chunk) && forall i :: 0 <= i < |sizes| ==> sizes[i] == ChunkSize(size, chunk, i)
    ensures Tiles(sizes, size, chunk, unit)
  {
    CountExact(size, chunk);
    var n := |sizes| - 1;
    forall i | 0 <= i < n ensures sizes[i] == chunk { BelowIsFull(size, chunk, n, i); }
    SumOfFullChunks(sizes, chunk, n);
    assert n * chunk + chunk == |sizes| * chunk;
    assert sizes[n] == size - n * chunk;
    RestIsMultiple(size, chunk, unit, n);
  }

  lemma {:induction false} RestIsMultiple(size: nat, chunk: nat, unit: nat, n: nat)
    requires 0 < unit && size % unit == 0 && chunk % unit == 0 && n * chunk <= size
    ensures (size - n * chunk) % unit == 0
  {
    if n > 0 {
      assert n * chunk == (n - 1) * chunk + chunk;
      RestIsMultiple(size, chunk, unit, n - 1);
      DifferenceOfMultiples(size - (n - 1) * chunk, chunk, unit);
    }
  }

  lemma DifferenceOfMultiples(x: nat, y: nat, unit: nat)
    requires 0 < unit && x % unit == 0 && y % unit == 0 && y <= x
    ensures (x - y) % unit == 0
  {
    var p, q := x / unit, y / unit;
    assert x == p * unit && y == q * unit;
    if p < q { NextMultiple(p, q, unit); }
    assert x - y == (p - q) * unit;
    ModuloOfProduct(p - q, unit);
  }

  // ----- The plan

  /** Host memory may run out in the loop; a missing array or a counter beyond 31 bits leaves the program undefined. */
  datatype Plan = DivisionByZero | OutOfMemory | Undefined | Plan(alignedSize: nat, sizes: seq<nat>)

  /** The rounded size covers the request with less than one unit to spare, and the chunks tile it. */
  ghost predicate Sound(plan: Plan, size: nat, unit: nat, base: nat)
    requires 0 < unit
  {
    && plan.Plan?
    && plan.alignedSize % unit == 0 && size <= plan.alignedSize < size + unit
    && Tiles(plan.sizes, plan.alignedSize, AlignUp(base, unit), unit)
  }

  /** None of the three sums leaves 64 bits. */
  predicate NoWrap(size: nat, unit: nat, base: nat)
    requires 0 < unit
  {
    && size + unit - 1 < TWO64 && base + unit - 1 < TWO64
    && AlignUp(size, unit) + AlignUp(base, unit) - 1 < TWO64
  }

  lemma CountWrapped(size: nat, chunk: nat)
    requires 0 < chunk < TWO64 && size < TWO64 && size + chunk - 1 >= TWO64
    ensures Count(size, chunk) == 0
  {
    QuotientBounds((size + chunk - 1) % TWO64, chunk);
  }

  lemma AlignZero(unit: nat)
    requires 0 < unit < TWO64
    ensures AlignUp(0, unit) == 0
  {
    QuotientBounds(unit - 1, unit);
  }

  lemma AlignBounds(x: nat, unit: nat)
    requires x < TWO64 && 0 < unit < TWO64
    ensures x + unit - 1 < TWO64 ==> AlignUp(x, unit) % unit == 0 && x <= AlignUp(x, unit) < x + unit
    ensures x + unit - 1 >= TWO64 ==> AlignUp(x, unit) == 0
    ensures AlignUp(x, unit) < TWO64
  {
    if x == 0 { AlignZero(unit); } else { AlignUpExact(x, unit); }
  }

  lemma SoundIff(size: nat, unit: nat, base: nat, plan: Plan)
    requires size < TWO64 && 0 < unit < TWO64 && 0 < base < TWO64 && AlignUp(base, unit) > 0
    requires plan.Plan? && plan.alignedSize == AlignUp(size, unit)
    requires |plan.sizes| == Count(plan.alignedSize, AlignUp(base, unit))
    requires forall i :: 0 <= i < |plan.sizes| ==> plan.sizes[i] == ChunkSize(plan.alignedSize, AlignUp(base, unit), i)
    ensures Sound(plan, size, unit, base) <==> NoWrap(size, unit, base)
  {
    var aligned, chunk := AlignUp(size, unit), AlignUp(base, unit);
    AlignBounds(size, unit);
    AlignBounds(base, unit);
    if aligned + chunk - 1 >= TWO64 {
      CountWrapped(aligned, chunk);
      assert aligned > 0 ==> Sum(plan.sizes, |plan.sizes|) != aligned;
    } else if aligned == 0 {
      QuotientBounds(chunk - 1, chunk);
    } else if base + unit - 1 < TWO64 {
      MultipleIsAtLeast(chunk, unit);
      ChunksTile(aligned, chunk, unit, plan.sizes);
    }
  }

  lemma MultipleIsAtLeast(x: nat, unit: nat)
    requires 0 < unit && 0 < x && x % unit == 0
    ensures unit <= x
  {
  }

  /** How many handles the loop asks for before its counter overflows. */
  function Turns(count: nat): nat { Min(count, TWO31) }

  /** What the host answers: whether the two arrays are there, and handle by handle. */
  datatype Host = Host(arrays: bool, handle: nat -> bool)

  ghost predicate Refuses(host: Host, count: nat) {
    exists i: nat :: i < count && i < 0x8000_0000 && !host.handle(i)
  }

  /** The host gives all that is asked for, and the counter is wide enough. */
  ghost predicate Provides(host: Host, count: nat) {
    count > 0 ==> host.arrays && count <= 0x8000_0000 && !Refuses(host, count)
  }

  /** The number of chunks that `my_malloc` arrives at. */
  function NumChunks(size: nat, unit: nat, base: nat): nat
    requires 0 < unit && AlignUp(base, unit) > 0
  {
    Count(AlignUp(size, unit), AlignUp(base, unit))
  }

  /**
   The chunk computation of `my_malloc`. It divides by zero iff rounding the base chunk wraps, and
   its plan is sound iff nothing wraps and the host provides what is asked for.
   */
  method PlanAllocation(size: nat, unit: nat, base: nat, host: Host) returns (plan: Plan)
    requires size < TWO64 && 0 < unit < TWO64 && 0 < base < TWO64
    ensures plan.DivisionByZero? <==> base + unit - 1 >= TWO64
    ensures !plan.DivisionByZero? ==> AlignUp(base, unit) > 0
    ensures !plan.DivisionByZero? ==> (plan.Plan? <==> Provides(host, NumChunks(size, unit, base)))
    ensures !plan.DivisionByZero? ==>
      (plan.OutOfMemory? <==> host.arrays && Refuses(host, NumChunks(size, unit, base)))
    ensures plan.Plan? ==> (Sound(plan, size, unit, base) <==> NoWrap(size, unit, base))
  {
    var alignedSize, chunk := AlignUp(size, unit), AlignUp(base, unit);
    AlignBounds(base, unit);
    if chunk == 0 {
      return DivisionByZero;
    }
    var count := Count(alignedSize, chunk);
    if count > 0 && !host.arrays {
      return Undefined;
    }
    var sizes := new nat[count];
    for i := 0 to Turns(count)
      invariant forall j :: 0 <= j < i ==> host.handle(j)
      invariant forall j :: 0 <= j < i ==> sizes[j] == ChunkSize(alignedSize, chunk, j)
    {
      if !host.handle(i) {
        return OutOfMemory;
      }
      ChunkNotNegative(alignedSize, chunk, i);
      sizes[i] := ChunkSize(alignedSize, chunk, i);
    }
    if count > TWO31 {
      return Undefined;
    }
    plan := Plan(alignedSize, sizes[..]);
    SoundIff(size, unit, base, plan);
  }

  lemma ChunkOfTwo()
    ensures AlignUp(MB, 2 * MB) == 2 * MB
  {
  }

  lemma CountOfTwo()
    ensures Count(0x20_0000_0000_0000, 2 * MB) == 0x1_0000_0000
  {
  }

  lemma SizeOfTwo()
    ensures AlignUp(0x20_0000_0000_0000, 2 * MB) == 0x20_0000_0000_0000
  {
    CountOfTwo();
  }

  /** The counter matters: chunks of 2 megabytes for 2^53 bytes are more than it can count. */
  lemma ManyChunksOverflow(host: Host)
    ensures NoWrap(0x20_0000_0000_0000, 2 * MB, MB) && AlignUp(MB, 2 * MB) > 0
    ensures !Provides(host, NumChunks(0x20_0000_0000_0000, 2 * MB, MB))
  {
    ChunkOfTwo();
    SizeOfTwo();
    CountOfTwo();
  }

  lemma ChunkNotNegative(size: nat, chunk: nat, i: nat)
    requires 0 < chunk && i < Count(size, chunk)
    ensures ChunkSize(size, chunk, i) >= 0
  {
    var n := Count(size, chunk);
    QuotientBounds((size + chunk - 1) % TWO64, chunk);
    NextMultiple(i, n, chunk);
  }

  /** A chunk setting of 2^44 - 1 megabytes passes the guard and still makes the rounding wrap. */
  lemma LargeSettingDividesByZero()
    ensures var base := BaseChunk(Some(0xFFF_FFFF_FFFF));
      base == 0xFFF_FFFF_FFFF * MB && AlignUp(base, 2 * MB) == 0 && !NoWrap(1, 2 * MB, base)
  {
    AlignBounds(BaseChunk(Some(0xFFF_FFFF_FFFF)), 2 * MB);
  }
}
