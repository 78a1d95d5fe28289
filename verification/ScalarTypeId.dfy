/** Type ids pack six fields into one integer, and the registry reads them back. */
module ScalarTypeId {
  import opened Basics
  import opened Bits

  datatype NanRepr = NONE | IEEE_754 | EXTD_RANGE_MAX_MIN {
    function Value(): nat { match this case NONE => 0 case IEEE_754 => 1 case EXTD_RANGE_MAX_MIN => 2 }
  }

  datatype ScalarType = ScalarType(exponent: int, mantissa: int, signed: bool, bias: int,
                                   finiteValuesOnly: bool, nanRepr: NanRepr)

  function Int(b: bool): nat { if b then 1 else 0 }

  // ----- Packing

  datatype Field = Field(member: int, bitWidth: nat) {
    function Bits(): nat { Mask(member, bitWidth) }
  }

  ghost function Width(fields: seq<Field>, n: nat): nat
    requires n <= |fields|
  {
    if n == 0 then 0 else Width(fields, n - 1) + fields[n - 1].bitWidth
  }

  /** The first `n` fields side by side, lowest first. */
  ghost function Packed(fields: seq<Field>, n: nat): nat
    requires n <= |fields|
  {
    if n == 0 then 0 else Packed(fields, n - 1) + fields[n - 1].Bits() * Pow2(Width(fields, n - 1))
  }

  lemma BelowProduct(low: nat, high: nat, d: nat, e: nat)
    requires low < d && high < e
    ensures low + high * d < e * d
  {
    Spare(e - 1 - high, d);
    assert e * d == (e - 1 - high) * d + high * d + d;
  }

  lemma Spare(x: nat, d: nat)
    ensures x * d >= 0
  {
  }

  lemma {:induction false} PackedBelow(fields: seq<Field>, n: nat)
    requires n <= |fields|
    ensures Packed(fields, n) < Pow2(Width(fields, n))
  {
    if n > 0 {
      PackedBelow(fields, n - 1);
      Pow2Add(fields[n - 1].bitWidth, Width(fields, n - 1));
      BelowProduct(Packed(fields, n - 1), fields[n - 1].Bits(), Pow2(Width(fields, n - 1)),
                   Pow2(fields[n - 1].bitWidth));
    }
  }

  lemma Digit(a: nat, b: nat, c: nat, d: nat, base: nat)
    requires a < base && c < base && a + b * base == c + d * base
    ensures a == c && b == d
  {
    if b < d { BelowProduct(a, b, base, d); }
    if d < b { BelowProduct(c, d, base, b); }
  }

  ghost predicate SameWidths(f: seq<Field>, g: seq<Field>) {
    |f| == |g| && forall i :: 0 <= i < |f| ==> f[i].bitWidth == g[i].bitWidth
  }

  lemma {:induction false} WidthsAgree(f: seq<Field>, g: seq<Field>, n: nat)
    requires SameWidths(f, g) && n <= |f|
    ensures Width(f, n) == Width(g, n)
  {
    if n > 0 { WidthsAgree(f, g, n - 1); }
  }

  /** Packings are equal exactly when all fields agree in the bits that are kept. */
  lemma {:induction false} SamePackedIff(f: seq<Field>, g: seq<Field>, n: nat)
    requires SameWidths(f, g) && n <= |f|
    ensures Packed(f, n) == Packed(g, n) <==> forall i :: 0 <= i < n ==> f[i].Bits() == g[i].Bits()
  {
    if n > 0 {
      SamePackedIff(f, g, n - 1);
      SameTopIff(f, g, n);
    }
  }

  lemma SameTopIff(f: seq<Field>, g: seq<Field>, n: nat)
    requires SameWidths(f, g) && 0 < n <= |f|
    ensures Packed(f, n) == Packed(g, n) <==> Packed(f, n - 1) == Packed(g, n - 1) && f[n - 1].Bits() == g[n - 1].Bits()
  {
    WidthsAgree(f, g, n - 1);
    PackedBelow(f, n - 1);
    PackedBelow(g, n - 1);
    if Packed(f, n) == Packed(g, n) {
      Digit(Packed(f, n - 1), f[n - 1].Bits(), Packed(g, n - 1), g[n - 1].Bits(), Pow2(Width(f, n - 1)));
    }
  }

  // ----- The id

  ghost function Fields(t: ScalarType): seq<Field> {
    [Field(t.exponent, 8), Field(t.mantissa, 8), Field(Int(t.signed), 1),
     Field(t.bias, 32), Field(Int(t.finiteValuesOnly), 1), Field(t.nanRepr.Value(), 8)]
  }

  ghost function IdOf(t: ScalarType): nat { Packed(Fields(t), 6) }

  /** One call of `or_and_advance`: the bits meet no bits that are there already. */
  method OrAndAdvance(val: nat, offset: nat, member: int, bitWidth: nat, ghost fields: seq<Field>, ghost n: nat)
    returns (val': nat, offset': nat)
    requires n < |fields| && fields[n] == Field(member, bitWidth) && val == Packed(fields, n)
    requires offset == Width(fields, n)
    ensures val' == Packed(fields, n + 1) && offset' == Width(fields, n + 1)
  {
    PackedBelow(fields, n);
    OrDisjoint(val, Mask(member, bitWidth), offset);
    val' := Or(val, Shift(Mask(member, bitWidth), offset));
    offset' := offset + bitWidth;
  }

  /** `id`, without the registry; it fits into 58 bits. */
  method ComputeId(t: ScalarType) returns (val: nat)
    ensures val == IdOf(t) < Pow2(58)
  {
    ghost var fields := Fields(t);
    var offset;
    val, offset := OrAndAdvance(0, 0, t.exponent, 8, fields, 0);
    val, offset := OrAndAdvance(val, offset, t.mantissa, 8, fields, 1);
    val, offset := OrAndAdvance(val, offset, Int(t.signed), 1, fields, 2);
    val, offset := OrAndAdvance(val, offset, t.bias, 32, fields, 3);
    val, offset := OrAndAdvance(val, offset, Int(t.finiteValuesOnly), 1, fields, 4);
    val, offset := OrAndAdvance(val, offset, t.nanRepr.Value(), 8, fields, 5);
    AllWidths(t);
    assert offset <= 64;
    PackedBelow(fields, 6);
  }

  lemma AllWidths(t: ScalarType)
    ensures Width(Fields(t), 6) == 58
  {
    var f := Fields(t);
    assert Width(f, 1) == 8;
    assert Width(f, 2) == 16;
    assert Width(f, 3) == 17;
    assert Width(f, 4) == 49;
    assert Width(f, 5) == 50;
  }

  lemma LowPowers()
    ensures Pow2(8) == 0x100 && Pow2(16) == 0x1_0000 && Pow2(17) == 0x2_0000
  {
    Pow2Add(4, 4);
    Pow2Add(8, 8);
    Pow2Add(16, 1);
  }

  lemma HighPowers()
    ensures Pow2(32) == 0x1_0000_0000 && Pow2(49) == 0x2_0000_0000_0000 && Pow2(50) == 0x4_0000_0000_0000
  {
    LowPowers();
    Pow2Add(16, 16);
    Pow2Add(32, 17);
    Pow2Add(49, 1);
  }

  lemma PackedSnoc(f: seq<Field>, n: nat, width: nat, low: nat)
    requires n < |f| && Width(f, n) == width && Packed(f, n) == low
    ensures Width(f, n + 1) == width + f[n].bitWidth && Packed(f, n + 1) == low + f[n].Bits() * Pow2(width)
  {
  }

  lemma SixPacked(f: seq<Field>)
    requires |f| == 6 && f[0].bitWidth == f[1].bitWidth == 8 && f[2].bitWidth == f[4].bitWidth == 1
    requires f[3].bitWidth == 32
    ensures Packed(f, 6) == f[0].Bits() + f[1].Bits() * Pow2(8) + f[2].Bits() * Pow2(16) + f[3].Bits() * Pow2(17)
                            + f[4].Bits() * Pow2(49) + f[5].Bits() * Pow2(50)
  {
    PackedSnoc(f, 0, 0, 0);
    var low := f[0].Bits();
    PackedSnoc(f, 1, 8, low);
    low := low + f[1].Bits() * Pow2(8);
    PackedSnoc(f, 2, 16, low);
    low := low + f[2].Bits() * Pow2(16);
    PackedSnoc(f, 3, 17, low);
    low := low + f[3].Bits() * Pow2(17);
    PackedSnoc(f, 4, 49, low);
    low := low + f[4].Bits() * Pow2(49);
    PackedSnoc(f, 5, 50, low);
  }

  /** The layout of an id, field by field from the lowest bit. */
  lemma IdLayout(t: ScalarType)
    ensures IdOf(t) == t.exponent % 0x100 + (t.mantissa % 0x100) * 0x100 + (if t.signed then 0x1_0000 else 0)
                       + (t.bias % 0x1_0000_0000) * 0x2_0000 + (if t.finiteValuesOnly then 0x2_0000_0000_0000 else 0)
                       + match t.nanRepr
                         case NONE => 0
                         case IEEE_754 => 0x4_0000_0000_0000
                         case EXTD_RANGE_MAX_MIN => 0x8_0000_0000_0000
  {
    SixPacked(Fields(t));
    LowPowers();
    HighPowers();
    SmallFields(t);
  }

  /** The bits of the fields that an id keeps. */
  ghost predicate Congruent(t: ScalarType, u: ScalarType) {
    && t.exponent % Pow2(8) == u.exponent % Pow2(8)
    && t.mantissa % Pow2(8) == u.mantissa % Pow2(8) && t.signed == u.signed
    && t.bias % Pow2(32) == u.bias % Pow2(32) && t.finiteValuesOnly == u.finiteValuesOnly && t.nanRepr == u.nanRepr
  }

  lemma SmallFields(t: ScalarType)
    ensures Mask(Int(t.signed), 1) == Int(t.signed) && Mask(Int(t.finiteValuesOnly), 1) == Int(t.finiteValuesOnly)
    ensures Mask(t.nanRepr.Value(), 8) == t.nanRepr.Value()
  {
    Pow2Grows(2, 8);
    SmallMask(Int(t.signed), 1);
    SmallMask(Int(t.finiteValuesOnly), 1);
    SmallMask(t.nanRepr.Value(), 8);
  }

  /** Two types share an id exactly when no field differs in the bits that are kept. */
  lemma SameIdIff(t: ScalarType, u: ScalarType)
    ensures IdOf(t) == IdOf(u) <==> Congruent(t, u)
  {
    var f, g := Fields(t), Fields(u);
    SamePackedIff(f, g, 6);
    SmallFields(t);
    SmallFields(u);
    SixBits(f, g);
  }

  lemma SixBits(f: seq<Field>, g: seq<Field>)
    requires |f| == |g| == 6
    ensures (forall i :: 0 <= i < 6 ==> f[i].Bits() == g[i].Bits()) <==>
      && f[0].Bits() == g[0].Bits() && f[1].Bits() == g[1].Bits() && f[2].Bits() == g[2].Bits()
      && f[3].Bits() == g[3].Bits() && f[4].Bits() == g[4].Bits() && f[5].Bits() == g[5].Bits()
  {
  }

  /** Eight bits for exponent and mantissa, a signed 32-bit bias. */
  ghost predicate InRange(t: ScalarType) {
    0 <= t.exponent < Pow2(8) && 0 <= t.mantissa < Pow2(8) && 0 <= t.bias + Pow2(31) < Pow2(32)
  }

  lemma SameMask(x: int, y: int, width: nat)
    requires x % Pow2(width) == y % Pow2(width) && x - y < Pow2(width) && 0 < x - y + Pow2(width)
    ensures x == y
  {
    Quotient(x, Pow2(width));
    Quotient(y, Pow2(width));
    SameResidue(x, y, Pow2(width), x / Pow2(width), y / Pow2(width));
  }

  /** Over fields in range, ids are injective. */
  lemma IdInjective(t: ScalarType, u: ScalarType)
    requires InRange(t) && InRange(u) && IdOf(t) == IdOf(u)
    ensures t == u
  {
    SameIdIff(t, u);
    SameMask(t.exponent, u.exponent, 8);
    SameMask(t.mantissa, u.mantissa, 8);
    SameMask(t.bias, u.bias, 32);
  }

  /** Out of range, different types can share an id. */
  lemma WideFieldsCollide()
    ensures exists t, u :: t != u && IdOf(t) == IdOf(u)
  {
    var t, u := ScalarType(0, 0, false, 0, false, NONE), ScalarType(0, 0, false, Pow2(32), false, NONE);
    SameIdIff(t, u);
    assert t != u && IdOf(t) == IdOf(u);
  }

  // ----- The registry

  datatype Result<T> = Ok(value: T) | ValueError | AssertionError

  function BiasOf(bias: Option<int>): int { if bias.Some? then bias.value else 0 }

  /** The ways to make a type; the two floating-point ones check their arguments. */
  datatype Making =
    | MakeInt(sizeBits: int, bias: Option<int>)
    | MakeUint(sizeBits: int, bias: Option<int>)
    | MakeFloatIEEE754(exponent: int, mantissa: int)
    | MakeFloat(exponent: int, mantissa: int, finiteValuesOnly: bool, nanRepr: NanRepr)
    | MakeDirectly(t: ScalarType)

  function Made(m: Making): Result<ScalarType> {
    match m
    case MakeInt(sizeBits, bias) => Ok(ScalarType(0, sizeBits - 1, true, BiasOf(bias), false, IEEE_754))
    case MakeUint(sizeBits, bias) => Ok(ScalarType(0, sizeBits, false, BiasOf(bias), false, IEEE_754))
    case MakeFloatIEEE754(exponent, mantissa) =>
      if mantissa > 0 && exponent > 0 then Ok(ScalarType(exponent, mantissa, true, 0, false, IEEE_754))
      else AssertionError
    case MakeFloat(exponent, mantissa, finiteValuesOnly, nanRepr) =>
      if mantissa > 0 && exponent > 0 && nanRepr != IEEE_754 then
        Ok(ScalarType(exponent, mantissa, true, 0, finiteValuesOnly, nanRepr))
      else AssertionError
    case MakeDirectly(t) => Ok(t)
  }

  /** `size_bits` */
  function SizeBits(t: ScalarType): int { t.exponent + t.mantissa + Int(t.signed) }

  /** Integer types have the size, sign and bias that they are made with. */
  lemma MadeInteger(m: Making)
    requires m.MakeInt? || m.MakeUint?
    ensures Made(m).Ok?
    ensures var t := Made(m).value;
      && SizeBits(t) == m.sizeBits && t.exponent == 0 && (t.signed <==> m.MakeInt?)
      && t.bias == (if m.bias == None then 0 else m.bias.value) && !t.finiteValuesOnly && t.nanRepr == IEEE_754
  {
  }

  /** Floating-point types are signed, without bias and with positive widths; only one of the ways makes IEEE types. */
  lemma MadeFloat(m: Making)
    requires m.MakeFloatIEEE754? || m.MakeFloat?
    ensures Made(m).Ok? <==> m.exponent > 0 && m.mantissa > 0 && (m.MakeFloat? ==> m.nanRepr != IEEE_754)
    ensures Made(m).Ok? ==>
      var t := Made(m).value;
      && SizeBits(t) == m.exponent + m.mantissa + 1 && t.exponent == m.exponent && t.signed && t.bias == 0
      && (m.MakeFloatIEEE754? ==> !t.finiteValuesOnly && t.nanRepr == IEEE_754)
      && (m.MakeFloat? ==> t.finiteValuesOnly == m.finiteValuesOnly && t.nanRepr == m.nanRepr)
  {
  }

  ghost function MadeTypes(makings: seq<Making>): set<ScalarType> {
    if makings == [] then {}
    else
      var last := Made(makings[|makings| - 1]);
      MadeTypes(makings[..|makings| - 1]) + if last.Ok? then {last.value} else {}
  }

  /** The ids of the types that were made, in order. */
  ghost function MadeIds(makings: seq<Making>): seq<nat> {
    if makings == [] then []
    else
      var last := Made(makings[|makings| - 1]);
      MadeIds(makings[..|makings| - 1]) + if last.Ok? then [IdOf(last.value)] else []
  }

  /** Entry `id` stands for a registered type with that id. */
  ghost predicate IsEntry(types: map<nat, ScalarType>, registered: set<ScalarType>, id: nat) {
    id in types && types[id] in registered && IdOf(types[id]) == id
  }

  ghost predicate IsFiled(types: map<nat, ScalarType>, t: ScalarType) { IdOf(t) in types }

  ghost predicate Consistent(types: map<nat, ScalarType>, registered: set<ScalarType>) {
    && (forall id {:trigger IsEntry(types, registered, id)} :: id in types ==> IsEntry(types, registered, id))
    && (forall t {:trigger IsFiled(types, t)} :: t in registered ==> IsFiled(types, t))
  }

  ghost predicate AllInRange(registered: set<ScalarType>) {
    forall t {:trigger InRange(t)} :: t in registered ==> InRange(t)
  }

  lemma Entered(types: map<nat, ScalarType>, registered: set<ScalarType>, t: ScalarType, id: nat)
    requires Consistent(types, registered) && id == IdOf(t)
    ensures Consistent(types[id := t], registered + {t})
  {
    var after, all := types[id := t], registered + {t};
    forall i | i in after ensures IsEntry(after, all, i) {
      assert i != id ==> IsEntry(types, registered, i);
    }
    forall u | u in all ensures IsFiled(after, u) {
      assert u in registered ==> IsFiled(types, u);
    }
  }

  lemma StillFiled(types: map<nat, ScalarType>, registered: set<ScalarType>, t: ScalarType)
    requires Consistent(types, registered) && t in registered
    ensures Consistent(types, registered + {t})
  {
    assert registered + {t} == registered;
  }

  /** Every old entry is still there and agrees with what it was. */
  ghost predicate Agrees(before: map<nat, ScalarType>, after: map<nat, ScalarType>) {
    forall id {:trigger AgreesAt(before, after, id)} :: id in before ==> AgreesAt(before, after, id)
  }

  ghost predicate AgreesAt(before: map<nat, ScalarType>, after: map<nat, ScalarType>, id: nat) {
    id in before && id in after && Congruent(after[id], before[id])
  }

  /** Every old entry is still there, unchanged. */
  ghost predicate Keeps(before: map<nat, ScalarType>, after: map<nat, ScalarType>) {
    forall id :: id in before ==> id in after && after[id] == before[id]
  }

  lemma AgreesItself(types: map<nat, ScalarType>, registered: set<ScalarType>)
    requires Consistent(types, registered)
    ensures Agrees(types, types)
  {
  }

  lemma AgreesOn(a: map<nat, ScalarType>, b: map<nat, ScalarType>, c: map<nat, ScalarType>)
    requires Agrees(a, b) && Agrees(b, c)
    ensures Agrees(a, c)
  {
    forall id | id in a ensures AgreesAt(a, c, id) { assert AgreesAt(a, b, id) && AgreesAt(b, c, id); }
  }

  lemma Replaced(types: map<nat, ScalarType>, registered: set<ScalarType>, t: ScalarType, id: nat)
    requires Consistent(types, registered) && id == IdOf(t)
    ensures Agrees(types, types[id := t])
  {
    var after := types[id := t];
    forall i | i in types ensures AgreesAt(types, after, i) {
      assert IsEntry(types, registered, i);
      if i == id { SameIdIff(t, types[i]); }
    }
  }

  /** With everything in range, an id that is taken is taken by the very type. */
  lemma TakenBySame(types: map<nat, ScalarType>, registered: set<ScalarType>, t: ScalarType, id: nat)
    requires Consistent(types, registered) && AllInRange(registered) && InRange(t) && id == IdOf(t)
    ensures id in types ==> types[id] == t
  {
    if id in types {
      assert IsEntry(types, registered, id);
      assert InRange(types[id]);
      IdInjective(types[id], t);
    }
  }

  class Registry {
    var types: map<nat, ScalarType>
    ghost var registered: set<ScalarType>

    ghost predicate Valid()
      reads this
    {
      Consistent(types, registered)
    }

    constructor ()
      ensures Valid() && registered == {}
    {
      types, registered := map[], {};
    }

    /** The first read of `id` on an object enters it; a cached read changes nothing. */
    method ReadId(t: ScalarType, cached: bool) returns (id: nat)
      requires Valid() && (cached ==> t in registered)
      modifies this
      ensures Valid() && id == IdOf(t) && registered == old(registered) + {t}
      ensures types == if cached then old(types) else old(types)[id := t]
    {
      id := ComputeId(t);
      if cached {
        StillFiled(types, registered, t);
      } else {
        Entered(types, registered, t, id);
        types := types[id := t];
      }
      registered := registered + {t};
    }

    /** `from_id` */
    method FromId(id: nat) returns (r: Result<ScalarType>)
      requires Valid()
      ensures r.Ok? <==> id in types
      ensures r.Ok? ==> r.value in registered && IdOf(r.value) == id
    {
      if id !in types {
        return ValueError;
      }
      assert IsEntry(types, registered, id);
      return Ok(types[id]);
    }

    /**
     Reading back the id of a registered type gives a type that agrees with it, and the very type while
     all are in range.
     */
    method RoundTrip(t: ScalarType) returns (r: Result<ScalarType>)
      requires Valid() && t in registered
      ensures r.Ok? && r.value in registered && Congruent(r.value, t)
      ensures AllInRange(registered) ==> r == Ok(t)
    {
      var id := ComputeId(t);
      assert IsFiled(types, t);
      r := FromId(id);
      SameIdIff(r.value, t);
      if AllInRange(registered) {
        assert InRange(t) && InRange(r.value);
        IdInjective(r.value, t);
      }
    }

    /** Entering a type never changes what an entry agrees with, and changes no entry at all while all are in range. */
    method Register(t: ScalarType) returns (id: nat)
      requires Valid()
      modifies this
      ensures Valid() && id == IdOf(t) && registered == old(registered) + {t} && types == old(types)[id := t]
      ensures Agrees(old(types), types)
      ensures AllInRange(registered) ==> Keeps(old(types), types)
    {
      Replaced(types, registered, t, IdOf(t));
      if AllInRange(registered + {t}) { TakenBySame(types, registered, t, IdOf(t)); }
      id := ReadId(t, false);
    }

    /** Any run of constructions, failed ones included: no id ever comes to stand for a type that disagrees. */
    method Run(makings: seq<Making>) returns (ids: seq<nat>)
      requires Valid()
      modifies this
      ensures Valid() && registered == old(registered) + MadeTypes(makings) && ids == MadeIds(makings)
      ensures Agrees(old(types), types)
      ensures AllInRange(registered) ==> Keeps(old(types), types)
    {
      ids := [];
      AgreesItself(types, registered);
      for i := 0 to |makings|
        invariant Valid() && registered == old(registered) + MadeTypes(makings[..i]) && ids == MadeIds(makings[..i])
        invariant Agrees(old(types), types)
        invariant AllInRange(registered) ==> Keeps(old(types), types)
      {
        assert makings[..i + 1][..i] == makings[..i];
        var m := Made(makings[i]);
        if m.Ok? {
          ghost var before := types;
          var id := Register(m.value);
          AgreesOn(old(types), before, types);
          ids := ids + [id];
        }
      }
      assert makings[..|makings|] == makings;
    }
  }
}
