/**
 The largest finite value of a floating-point format, built as the bits of a double. Values are
 exact: they are counted in units of the smallest positive double, 2 to the power -1074.
 */
module FloatFormats {
  import opened Basics
  import opened Bits
  import opened ScalarTypeId

  const DOUBLE_BIAS := 1023
  const TWO52 := 0x10_0000_0000_0000
  const TWO63 := 0x8000_0000_0000_0000

  lemma Powers()
    ensures Pow2(10) == 1024 && Pow2(11) == 2048
  {
    Pow2Add(5, 5);
  }

  lemma Pow2Of52(n: nat)
    requires n == 52
    ensures Pow2(n) == TWO52
  {
    Pow2Of26();
    Pow2Add(26, 26);
  }

  lemma Pow2Of26()
    ensures Pow2(26) == 0x400_0000
  {
    Powers();
    Pow2Add(10, 10);
    Pow2Add(20, 6);
  }

  lemma Pow2Of63(n: nat)
    requires n == 63
    ensures Pow2(n) == TWO63
  {
    Powers();
    Pow2Of52(52);
    Pow2Add(52, 11);
  }

  // ----- Doubles, section 3.4 of IEEE 754-2019

  /** The bits of a double by its two fields below the sign bit. */
  ghost function DoubleBits(exponentField: nat, mantissaField: nat): nat { mantissaField + exponentField * TWO52 }

  ghost predicate IsNormal(exponentField: nat, mantissaField: nat) {
    0 < exponentField < 2047 && mantissaField < TWO52
  }

  /** The magnitude of a finite double; exponent field zero holds the subnormals. */
  ghost function DoubleValue(exponentField: nat, mantissaField: nat): nat {
    if exponentField == 0 then mantissaField else Weight(TWO52 + mantissaField, exponentField - 1)
  }

  /** The weight of a significand at an exponent: doubled `k` times. */
  ghost function Weight(sig: nat, k: nat): nat {
    if k == 0 then sig else 2 * Weight(sig, k - 1)
  }

  /** The value of 64 bits: sign, exponent field and mantissa field. */
  ghost function ValueOfBits(bits: nat): int {
    var magnitude := bits % TWO63;
    var value := DoubleValue(magnitude / TWO52, magnitude % TWO52);
    if bits / TWO63 % 2 == 1 then 0 - value else value
  }

  lemma FieldsOf(exponentField: nat, mantissaField: nat, bits: nat)
    requires IsNormal(exponentField, mantissaField) && bits == DoubleBits(exponentField, mantissaField)
    ensures bits < TWO63 && bits / TWO52 == exponentField && bits % TWO52 == mantissaField
  {
  }

  /** Reading assembled bits gives the value of the fields, negated below a set sign bit. */
  lemma ReadDouble(exponentField: nat, mantissaField: nat, bits: nat)
    requires IsNormal(exponentField, mantissaField) && bits == DoubleBits(exponentField, mantissaField)
    ensures ValueOfBits(bits) == DoubleValue(exponentField, mantissaField)
    ensures ValueOfBits(bits + TWO63) == 0 - DoubleValue(exponentField, mantissaField)
  {
    FieldsOf(exponentField, mantissaField, bits);
  }

  // ----- Formats

  /** A floating-point format that a double can hold, as the source's assertions have it. */
  ghost predicate Representable(t: ScalarType) {
    && 1 <= t.exponent && 0 <= t.mantissa <= 52
    && (t.nanRepr == IEEE_754 ==> t.exponent <= 11)
    && (t.nanRepr != IEEE_754 ==> t.exponent < 11)
  }

  function Bias(t: ScalarType): (b: nat)
    requires t.exponent >= 1
  {
    Pow2(t.exponent - 1) - 1
  }

  /** An encoding: exponent and mantissa fields within their widths. */
  ghost predicate IsEncoding(t: ScalarType, x: nat, f: nat)
    requires Representable(t)
  {
    x < Pow2(t.exponent) && f < Pow2(t.mantissa)
  }

  ghost predicate IsNaN(t: ScalarType, x: nat, f: nat)
    requires Representable(t)
  {
    x == Pow2(t.exponent) - 1 &&
      match t.nanRepr
      case NONE => false
      case IEEE_754 => f != 0
      case EXTD_RANGE_MAX_MIN => f == Pow2(t.mantissa) - 1
  }

  ghost predicate IsInfinity(t: ScalarType, x: nat, f: nat)
    requires Representable(t)
  {
    !t.finiteValuesOnly && x == Pow2(t.exponent) - 1 && f == 0
  }

  ghost predicate IsFinite(t: ScalarType, x: nat, f: nat)
    requires Representable(t)
  {
    IsEncoding(t, x, f) && !IsNaN(t, x, f) && !IsInfinity(t, x, f)
  }

  /** How far the units of the format's smallest exponent lie above those of a double. */
  ghost function Lift(t: ScalarType): (k: int)
    requires Representable(t)
  {
    1074 - Bias(t) - t.mantissa
  }

  lemma BiasBound(t: ScalarType)
    requires Representable(t)
    ensures Bias(t) <= 1023 && Lift(t) + 1 >= 0
  {
    Pow2Grows(t.exponent - 1, 10);
    Powers();
  }

  /** The weight of an encoding; exponent field zero holds the subnormals. */
  ghost function EncodingWeight(m: nat, lift: int, x: nat, f: nat): nat
    requires lift + 1 >= 0
  {
    if x == 0 then Weight(f, lift + 1) else Weight(Pow2(m) + f, lift + x)
  }

  ghost function FormatValue(t: ScalarType, x: nat, f: nat): nat
    requires Representable(t)
  {
    BiasBound(t);
    EncodingWeight(t.mantissa, Lift(t), x, f)
  }

  lemma PowerOfTwo(m: nat, w: nat, n: nat)
    requires m + w == n
    ensures Weight(Pow2(m), w) == Weight(1, n)
  {
    PowerWeighs(m, w);
    PowerWeighs(0, n);
  }

  /**
   What an encoding is worth, without its bias: half-way up the exponents is two, in units of 2 to the
   power -1074.
   */
  lemma EncodingOfTwo(t: ScalarType, n: nat)
    requires Representable(t) && n == 1075
    ensures FormatValue(t, Pow2(t.exponent - 1), 0) == Weight(1, n)
  {
    BiasBound(t);
    PowerOfTwo(t.mantissa, Lift(t) + Pow2(t.exponent - 1), n);
  }

  /** With two exponent bits or more, one exponent lower is one. */
  lemma EncodingOfOne(t: ScalarType, n: nat)
    requires Representable(t) && t.exponent >= 2 && n == 1074
    ensures FormatValue(t, Pow2(t.exponent - 1) - 1, 0) == Weight(1, n)
  {
    BiasBound(t);
    Pow2Grows(1, t.exponent - 1);
    PowerOfTwo(t.mantissa, Lift(t) + Pow2(t.exponent - 1) - 1, n);
  }

  /** The double with exponent field 1023 and mantissa zero is one. */
  lemma DoubleOfOne(x: nat, n: nat)
    requires x == 1023 && n == 1074
    ensures DoubleValue(x, 0) == Weight(1, n)
  {
    Pow2Of52(n - (x - 1));
    PowerOfTwo(n - (x - 1), x - 1, n);
  }

  // ----- The construction

  /** Negative exactly for an extended-range format without mantissa bits. */
  ghost function MaxMantissa(t: ScalarType): int
    requires Representable(t)
  {
    if t.nanRepr == EXTD_RANGE_MAX_MIN then Pow2(t.mantissa) - 2 else Pow2(t.mantissa) - 1
  }

  ghost function MaxExponent(t: ScalarType): nat
    requires Representable(t)
  {
    if t.nanRepr == IEEE_754 then Pow2(t.exponent) - 2 else Pow2(t.exponent) - 1
  }

  /** The double's exponent field that the construction arrives at. */
  ghost function MaxField(t: ScalarType): int
    requires Representable(t)
  {
    MaxExponent(t) - Bias(t) + DOUBLE_BIAS
  }

  lemma FieldBound(t: ScalarType)
    requires Representable(t)
    ensures 0 < MaxField(t) < 2047 && Lift(t) + MaxExponent(t) == 52 - t.mantissa + (MaxField(t) - 1)
  {
    Pow2Grows(t.exponent - 1, if t.nanRepr == IEEE_754 then 10 else 9);
    Powers();
  }

  ghost predicate Constructs(t: ScalarType) { Representable(t) && MaxMantissa(t) >= 0 }

  /** The double's mantissa field. */
  ghost function MaxFraction(t: ScalarType): nat
    requires Constructs(t)
  {
    Weight(MaxMantissa(t), 52 - t.mantissa)
  }

  lemma MantissaFits(m: nat, f: nat, w: nat)
    requires m + w == 52 && f < Pow2(m)
    ensures Weight(f, w) < TWO52
  {
    SameExponent(f, Pow2(m), w);
    PowerWeighs(m, w);
    Pow2Of52(m + w);
  }

  lemma MaxIsNormal(t: ScalarType)
    requires Constructs(t)
    ensures 0 < MaxField(t) && IsNormal(MaxField(t), MaxFraction(t))
  {
    FieldBound(t);
    MantissaFits(t.mantissa, MaxMantissa(t), 52 - t.mantissa);
  }

  /** The value that the construction arrives at. */
  ghost function MaxValue(t: ScalarType): nat
    requires Constructs(t)
  {
    FieldBound(t);
    DoubleValue(MaxField(t), MaxFraction(t))
  }

  /** The largest exponent and mantissa fields, and the assertions on the way to them. */
  method LargestFields(t: ScalarType) returns (fields: Option<(nat, int)>)
    requires t.exponent >= 1 && t.mantissa >= 0
    ensures fields.Some? <==> Representable(t)
    ensures fields.Some? ==> fields.value == (MaxExponent(t), MaxMantissa(t))
  {
    if !(t.mantissa <= 52 && t.exponent <= 11) {
      return None;
    }
    var maxMantissa := Pow2(t.mantissa) - 1;
    if t.nanRepr == EXTD_RANGE_MAX_MIN {
      maxMantissa := maxMantissa - 1;
    }
    var maxExponent := Pow2(t.exponent) - 2;
    if t.nanRepr == EXTD_RANGE_MAX_MIN || t.nanRepr == NONE {
      if !(t.exponent < 11) {
        return None;
      }
      maxExponent := maxExponent + 1;
    }
    return Some((maxExponent, maxMantissa));
  }

  method Assemble(exponentField: nat, mantissaField: nat) returns (bits: nat)
    requires mantissaField < TWO52
    ensures bits == DoubleBits(exponentField, mantissaField)
  {
    var n := 52;
    Pow2Of52(n);
    OrDisjoint(mantissaField, exponentField, n);
    bits := Or(mantissaField, Shift(exponentField, n));
  }

  /** Sets the sign bit, which negates the value. */
  method SetSign(bits: nat, ghost exponentField: nat, ghost mantissaField: nat) returns (signed: nat)
    requires IsNormal(exponentField, mantissaField) && bits == DoubleBits(exponentField, mantissaField)
    ensures signed == bits + TWO63
    ensures ValueOfBits(signed) == 0 - DoubleValue(exponentField, mantissaField)
  {
    FieldsOf(exponentField, mantissaField, bits);
    ReadDouble(exponentField, mantissaField, bits);
    var n := 63;
    Pow2Of63(n);
    OrDisjoint(bits, 1, n);
    signed := Or(bits, Shift(1, n));
  }

  /** The bits of a double; a negative integer cannot be packed. */
  datatype MaxResult = Raw(bits: nat) | AssertionError | PackError

  /** `_floating_point_max_int` and the packing of its result: the bits of a normal double. */
  method FloatingPointMax(t: ScalarType) returns (r: MaxResult)
    requires t.exponent >= 1 && t.mantissa >= 0
    ensures r.AssertionError? <==> !Representable(t)
    ensures r.PackError? <==> Representable(t) && t.nanRepr == EXTD_RANGE_MAX_MIN && t.mantissa == 0
    ensures r.Raw? ==> Constructs(t) && ValueOfBits(r.bits) == MaxValue(t)
    ensures r.Raw? ==>
      0 < MaxField(t) && IsNormal(MaxField(t), MaxFraction(t)) && r.bits == DoubleBits(MaxField(t), MaxFraction(t))
  {
    var fields := LargestFields(t);
    if fields == None {
      return MaxResult.AssertionError;
    }
    if fields.value.1 < 0 {
      return PackError;
    }
    MaxIsNormal(t);
    WeightIsProduct(fields.value.1, 52 - t.mantissa);
    var bits := Assemble(fields.value.0 - Bias(t) + DOUBLE_BIAS, Shift(fields.value.1, 52 - t.mantissa));
    ReadDouble(MaxField(t), MaxFraction(t), bits);
    return Raw(bits);
  }

  /** `_raw_min` of a floating-point type: the maximum below a set sign bit, so the negated value. */
  method FloatingPointMin(t: ScalarType) returns (r: MaxResult)
    requires t.exponent >= 1 && t.mantissa >= 0
    ensures r.AssertionError? <==> !t.signed || !Representable(t)
    ensures r.PackError? <==> t.signed && Representable(t) && t.nanRepr == EXTD_RANGE_MAX_MIN && t.mantissa == 0
    ensures r.Raw? ==> Constructs(t) && ValueOfBits(r.bits) == 0 - MaxValue(t)
  {
    if !t.signed {
      return MaxResult.AssertionError;
    }
    r := FloatingPointMax(t);
    if r.Raw? {
      var signed := SetSign(r.bits, MaxField(t), MaxFraction(t));
      r := Raw(signed);
    }
  }

  // ----- Its value

  lemma {:induction false} WeightIsProduct(sig: nat, k: nat)
    ensures Weight(sig, k) == sig * Pow2(k)
  {
    if k > 0 {
      WeightIsProduct(sig, k - 1);
      Double(Pow2(k - 1), sig);
    }
  }

  lemma {:induction false} WeightOfSum(x: nat, y: nat, k: nat)
    ensures Weight(x + y, k) == Weight(x, k) + Weight(y, k)
  {
    if k > 0 { WeightOfSum(x, y, k - 1); }
  }

  lemma {:induction false} WeightTwice(sig: nat, a: nat, b: nat)
    ensures Weight(Weight(sig, a), b) == Weight(sig, a + b)
  {
    if b > 0 { WeightTwice(sig, a, b - 1); }
  }

  lemma {:induction false} PowerWeighs(m: nat, w: nat)
    ensures Weight(Pow2(m), w) == Pow2(m + w)
  {
    if w > 0 { PowerWeighs(m, w - 1); }
  }

  lemma Widened(m: nat, f: nat, w: nat, e: nat)
    requires m + w == 52
    ensures Weight(TWO52 + Weight(f, w), e) == Weight(Pow2(m) + f, w + e)
  {
    Pow2Of52(m + w);
    PowerWeighs(m, w);
    WeightOfSum(Pow2(m), f, w);
    WeightTwice(Pow2(m) + f, w, e);
  }

  /** The double's value is the format's own significand at the format's own exponent. */
  lemma MaxValueRegrouped(t: ScalarType, k: nat)
    requires Constructs(t) && k == Lift(t) + MaxExponent(t)
    ensures MaxValue(t) == Weight(Pow2(t.mantissa) + MaxMantissa(t), k)
  {
    FieldBound(t);
    Widened(t.mantissa, MaxMantissa(t), 52 - t.mantissa, MaxField(t) - 1);
  }

  lemma LiftedTop(t: ScalarType)
    requires Representable(t)
    ensures Lift(t) + MaxExponent(t) >= 0
  {
    FieldBound(t);
  }

  // ----- Weights in order

  lemma {:induction false} SameExponent(a: nat, b: nat, k: nat)
    requires a < b
    ensures Weight(a, k) < Weight(b, k)
  {
    if k > 0 { SameExponent(a, b, k - 1); }
  }

  lemma {:induction false} HigherExponent(sig: nat, k: nat, l: nat)
    requires k <= l
    ensures Weight(sig, k) <= Weight(sig, l)
  {
    if k < l { HigherExponent(sig, k, l - 1); }
  }

  lemma {:induction false} WeightOfDouble(sig: nat, k: nat)
    ensures Weight(2 * sig, k) == Weight(sig, k + 1)
  {
    if k > 0 { WeightOfDouble(sig, k - 1); }
  }

  /** A significand of at most `m + 1` bits at a lower exponent weighs less than any higher up. */
  lemma LowerExponent(m: nat, sig: nat, k: nat, big: nat, l: nat)
    requires sig < 2 * Pow2(m) && Pow2(m) <= big && k < l
    ensures Weight(sig, k) < Weight(big, l)
  {
    SameExponent(sig, 2 * big, k);
    WeightOfDouble(big, k);
    HigherExponent(big, k + 1, l);
  }

  // ----- It is the largest finite value

  /** Which finite encodings there are at the top. */
  lemma FiniteTop(t: ScalarType, x: nat, f: nat)
    requires Representable(t) && IsFinite(t, x, f) && !(t.nanRepr == IEEE_754 && t.finiteValuesOnly)
    ensures x <= MaxExponent(t) && (x == MaxExponent(t) ==> f <= MaxMantissa(t))
  {
  }

  lemma TopWeighsMore(m: nat, lift: int, x: nat, f: nat, top: nat, g: nat, v: nat)
    requires lift + 1 >= 0 && f < Pow2(m) && x <= top && top > 0 && (x == top ==> f < g)
    requires v == Weight(Pow2(m) + g, lift + top)
    ensures EncodingWeight(m, lift, x, f) < v
  {
    if x == top {
      SameExponent(Pow2(m) + f, Pow2(m) + g, lift + top);
    } else if x > 0 {
      LowerExponent(m, Pow2(m) + f, lift + x, Pow2(m) + g, lift + top);
    } else if top == 1 {
      SameExponent(f, Pow2(m) + g, lift + 1);
    } else {
      LowerExponent(m, f, lift + 1, Pow2(m) + g, lift + top);
    }
  }

  /** Every finite encoding other than the top one weighs less than what is constructed. */
  lemma StrictlyBelow(t: ScalarType, x: nat, f: nat)
    requires Constructs(t) && IsFinite(t, x, f) && !(t.nanRepr == IEEE_754 && t.finiteValuesOnly)
    requires MaxExponent(t) > 0 && !(x == MaxExponent(t) && f == MaxMantissa(t))
    ensures FormatValue(t, x, f) < MaxValue(t)
  {
    FiniteTop(t, x, f);
    BelowTop(t, x, f, MaxMantissa(t), Lift(t));
  }

  lemma BelowTop(t: ScalarType, x: nat, f: nat, g: nat, lift: int)
    requires Constructs(t) && f < Pow2(t.mantissa) && x <= MaxExponent(t) && MaxExponent(t) > 0
    requires g == MaxMantissa(t) && lift == Lift(t) && (x == MaxExponent(t) ==> f < g)
    ensures FormatValue(t, x, f) < MaxValue(t)
  {
    BiasBound(t);
    MaxValueRegrouped(t, lift + MaxExponent(t));
    TopWeighsMore(t.mantissa, lift, x, f, MaxExponent(t), g, MaxValue(t));
  }

  ghost predicate IsLargestFinite(t: ScalarType, v: nat)
    requires Representable(t)
  {
    && (exists x: nat, f: nat :: IsFinite(t, x, f) && FormatValue(t, x, f) == v)
    && (forall x: nat, f: nat :: IsFinite(t, x, f) ==> FormatValue(t, x, f) <= v)
  }

  lemma TopIsValue(t: ScalarType)
    requires Constructs(t) && MaxExponent(t) > 0
    ensures FormatValue(t, MaxExponent(t), MaxMantissa(t)) == MaxValue(t)
  {
    LiftedTop(t);
    MaxValueRegrouped(t, Lift(t) + MaxExponent(t));
  }

  /** Nothing finite is larger. */
  lemma TopIsLargest(t: ScalarType, x: nat, f: nat)
    requires Constructs(t) && IsFinite(t, x, f) && !(t.nanRepr == IEEE_754 && t.finiteValuesOnly) && MaxExponent(t) > 0
    ensures FormatValue(t, x, f) <= MaxValue(t)
  {
    if x == MaxExponent(t) && f == MaxMantissa(t) { TopIsValue(t); } else { StrictlyBelow(t, x, f); }
  }

  /**
   In an IEEE format without infinities the encoding in their place is finite, and larger than what is
   constructed.
   */
  lemma PlaceOfInfinity(t: ScalarType)
    requires Constructs(t) && t.nanRepr == IEEE_754 && t.finiteValuesOnly
    ensures var x := Pow2(t.exponent) - 1; IsFinite(t, x, 0) && FormatValue(t, x, 0) > MaxValue(t)
  {
    assert IsFinite(t, Pow2(t.exponent) - 1, 0);
    PlaceWeighsMore(t, Lift(t), MaxExponent(t));
  }

  lemma PlaceWeighsMore(t: ScalarType, lift: int, top: nat)
    requires Constructs(t) && lift == Lift(t) && top == MaxExponent(t)
    ensures FormatValue(t, top + 1, 0) > MaxValue(t)
  {
    BiasBound(t);
    LiftedTop(t);
    MaxValueRegrouped(t, lift + top);
    NextWeighsMore(t.mantissa, lift, top, MaxMantissa(t), MaxValue(t));
  }

  lemma NextWeighsMore(m: nat, lift: int, top: nat, g: nat, v: nat)
    requires lift + 1 >= 0 && lift + top >= 0 && g < Pow2(m) && v == Weight(Pow2(m) + g, lift + top)
    ensures EncodingWeight(m, lift, top + 1, 0) > v
  {
    LowerExponent(m, Pow2(m) + g, lift + top, Pow2(m), lift + top + 1);
  }

  /** With one exponent bit an IEEE format has subnormals only, and the construction overshoots them all. */
  lemma OneExponentBit(t: ScalarType, x: nat, f: nat)
    requires Constructs(t) && t.nanRepr == IEEE_754 && !t.finiteValuesOnly && t.exponent == 1 && IsFinite(t, x, f)
    ensures FormatValue(t, x, f) < MaxValue(t)
  {
    FiniteTop(t, x, f);
    MaxValueRegrouped(t, Lift(t));
    Overshoots(t.mantissa, f, Pow2(t.mantissa) + MaxMantissa(t), Lift(t), MaxValue(t));
  }

  lemma Overshoots(m: nat, f: nat, sig: nat, k: nat, v: nat)
    requires 2 * f < sig && v == Weight(sig, k)
    ensures EncodingWeight(m, k, 0, f) < v
  {
    WeightOfDouble(f, k);
    SameExponent(2 * f, sig, k);
  }

  /** The formats for which the construction is right. */
  predicate MaxIsRight(t: ScalarType) {
    match t.nanRepr
    case IEEE_754 => t.exponent > 1 && !t.finiteValuesOnly
    case NONE => t.finiteValuesOnly || t.mantissa >= 1
    case EXTD_RANGE_MAX_MIN => t.mantissa >= 1 && (t.finiteValuesOnly || t.mantissa >= 2)
  }

  lemma TopAboveZero(t: ScalarType)
    requires Representable(t) && !(t.nanRepr == IEEE_754 && t.exponent == 1)
    ensures MaxExponent(t) > 0
  {
    if t.exponent > 1 { Pow2Grows(2, t.exponent); }
  }

  lemma TopIsFinite(t: ScalarType)
    requires Representable(t) && MaxIsRight(t)
    ensures MaxMantissa(t) >= 0 && IsFinite(t, MaxExponent(t), MaxMantissa(t))
  {
    if t.mantissa >= 2 { Pow2Grows(2, t.mantissa); }
  }

  lemma RightIsLargest(t: ScalarType)
    requires Representable(t) && MaxIsRight(t)
    ensures Constructs(t) && IsLargestFinite(t, MaxValue(t))
  {
    TopIsFinite(t);
    TopAboveZero(t);
    TopIsValue(t);
    forall x: nat, f: nat | IsFinite(t, x, f) ensures FormatValue(t, x, f) <= MaxValue(t) { TopIsLargest(t, x, f); }
  }

  /** Where the top encoding is an infinity, or an IEEE format has no normal numbers, no finite value is reached. */
  lemma WrongIsMissed(t: ScalarType, x: nat, f: nat)
    requires Constructs(t) && !MaxIsRight(t) && !(t.nanRepr == IEEE_754 && t.finiteValuesOnly) && IsFinite(t, x, f)
    ensures FormatValue(t, x, f) < MaxValue(t)
  {
    if t.nanRepr == IEEE_754 {
      OneExponentBit(t, x, f);
    } else {
      TopAboveZero(t);
      StrictlyBelow(t, x, f);
    }
  }

  /** The construction gives the largest finite value of a format exactly where it is right. */
  lemma MaxIsLargestIff(t: ScalarType)
    requires Representable(t)
    ensures Constructs(t) && IsLargestFinite(t, MaxValue(t)) <==> MaxIsRight(t)
  {
    if MaxIsRight(t) {
      RightIsLargest(t);
    } else if Constructs(t) {
      if t.nanRepr == IEEE_754 && t.finiteValuesOnly {
        PlaceOfInfinity(t);
      } else {
        forall x: nat, f: nat | IsFinite(t, x, f) ensures FormatValue(t, x, f) != MaxValue(t) {
          WrongIsMissed(t, x, f);
        }
      }
    }
  }

  lemma HalfFields(t: ScalarType)
    requires t == ScalarType(5, 10, true, 0, false, IEEE_754)
    ensures Constructs(t) && MaxMantissa(t) == 1023 && Pow2(t.mantissa) == 1024
    ensures Lift(t) == 1049 && MaxExponent(t) == 30
  {
    Powers();
  }

  /** The maximum of the half-precision format is 65504. */
  lemma HalfPrecisionMax(t: ScalarType, n: nat)
    requires t == ScalarType(5, 10, true, 0, false, IEEE_754) && n == 1074
    ensures Constructs(t) && MaxValue(t) == Weight(65504, n)
  {
    HalfFields(t);
    MaxValueRegrouped(t, n + 5);
    WeightIsProduct(2047, 5);
    WeightTwice(2047, 5, n);
  }

  /** A double can hold the doubles themselves: their maximum has the largest normal fields. */
  lemma DoubleMax(t: ScalarType)
    requires t == ScalarType(11, 52, true, 0, false, IEEE_754)
    ensures Constructs(t) && MaxField(t) == 2046 && MaxFraction(t) == TWO52 - 1
  {
    Powers();
    Pow2Of52(t.mantissa);
    assert Pow2(t.exponent) == 2048;
  }

  ghost predicate MaxIsWrong(t: ScalarType) { Constructs(t) && !IsLargestFinite(t, MaxValue(t)) }

  /** A format of each kind for which it is wrong. */
  lemma WrongFormats()
    ensures MaxIsWrong(ScalarType(1, 1, true, 0, false, IEEE_754))
    ensures MaxIsWrong(ScalarType(4, 3, true, 0, true, IEEE_754))
    ensures MaxIsWrong(ScalarType(3, 1, true, 0, false, EXTD_RANGE_MAX_MIN))
    ensures MaxIsWrong(ScalarType(5, 0, true, 0, false, NONE))
    ensures var t := ScalarType(8, 0, false, 0, true, EXTD_RANGE_MAX_MIN); Representable(t) && !Constructs(t)
  {
    MaxIsLargestIff(ScalarType(1, 1, true, 0, false, IEEE_754));
    MaxIsLargestIff(ScalarType(4, 3, true, 0, true, IEEE_754));
    MaxIsLargestIff(ScalarType(3, 1, true, 0, false, EXTD_RANGE_MAX_MIN));
    MaxIsLargestIff(ScalarType(5, 0, true, 0, false, NONE));
  }
}
