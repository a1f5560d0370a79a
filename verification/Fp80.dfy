/** fputils: conversions between binary64 (the 64 bits of a double) and the 80-bit x87 format (16 bits
    of sign and exponent, 64 bits of significand with an explicit integer bit). Masks and shifts are
    written as remainders and quotients by powers of two. */
module Fp80 {
  import opened Arith

  const TWO11 := 0x800
  const TWO52 := 0x10_0000_0000_0000
  const TWO62 := 0x4000_0000_0000_0000
  const TWO63 := 0x8000_0000_0000_0000
  const TWO64 := 0x1_0000_0000_0000_0000

  type Fp64 = b: nat | b < TWO64

  datatype Fp80 = Fp80(se: nat, fi: nat)

  ghost predicate Wellformed(x: Fp80) { x.se < 0x1_0000 && x.fi < TWO64 }

  lemma {:induction false} Pow2Add(m: nat, n: nat)
    ensures Pow2(m + n) == Pow2(m) * Pow2(n)
  {
    if m > 0 {
      Pow2Add(m - 1, n);
      assert Pow2(m + n) == 2 * Pow2(m - 1 + n) == 2 * (Pow2(m - 1) * Pow2(n));
    }
  }

  lemma Pow2Values()
    ensures Pow2(11) == TWO11 && Pow2(52) == TWO52
  {
    assert Pow2(13) == 0x2000;
    Pow2Add(13, 13);
    Pow2Add(26, 26);
  }

  lemma {:induction false} Pow2Monotone(m: nat, n: nat)
    requires m <= n
    ensures Pow2(m) <= Pow2(n)
  {
    if m < n {
      Pow2Monotone(m, n - 1);
    }
  }

  // ---------------------------------------------------------------- fpbits.h

  const EXP80_SPECIAL := 0x7fff
  const EXP80_BIAS := 0x3fff
  const EXP64_SPECIAL := 0x7ff
  const EXP64_BIAS := 0x3ff

  predicate Sign64(b: Fp64) { b >= TWO63 }
  function Exp64(b: Fp64): nat { b / TWO52 % TWO11 }
  function Frac64(b: Fp64): nat { b % TWO52 }

  predicate Sign80(x: Fp80) { x.se / 0x8000 % 2 == 1 }
  function ExpOf80(x: Fp80): nat { x.se % 0x8000 }
  function Frac80(x: Fp80): nat { x.fi % TWO63 }

  /** BUILD_FP64; the three fields do not overlap. */
  function Build64(sign: bool, frac: nat, exp: nat): (b: Fp64)
    ensures Sign64(b) == sign && Exp64(b) == exp % TWO11 && Frac64(b) == frac % TWO52
  {
    (if sign then TWO63 else 0) + exp % TWO11 * TWO52 + frac % TWO52
  }

  /** BUILD_FP80: the integer bit is set unless the exponent is zero. */
  function Build80(sign: bool, frac: nat, exp: nat): (x: Fp80)
    ensures Wellformed(x) && Sign80(x) == sign && ExpOf80(x) == exp % 0x8000 && Frac80(x) == frac % TWO63
  {
    Fp80((if sign then 0x8000 else 0) + exp % 0x8000, (if exp != 0 then TWO63 else 0) + frac % TWO63)
  }

  lemma Fields64(b: Fp64)
    ensures b == (if Sign64(b) then TWO63 else 0) + Exp64(b) * TWO52 + Frac64(b)
    ensures Exp64(b) < TWO11 && Frac64(b) < TWO52
  {
  }

  // ---------------------------------------------------------------- classification

  predicate IsSpecial(x: Fp80) { ExpOf80(x) == EXP80_SPECIAL }
  predicate IsInf(x: Fp80) { IsSpecial(x) && Frac80(x) == 0 }
  predicate IsQnan(x: Fp80) { IsSpecial(x) && Frac80(x) >= TWO62 }
  predicate IsQnani(x: Fp80) { IsQnan(x) && Sign80(x) && x.fi % TWO62 == 0 }
  predicate IsSnan(x: Fp80) { IsSpecial(x) && Frac80(x) < TWO62 && Frac80(x) != 0 }
  predicate IsNan(x: Fp80) { IsSnan(x) || IsQnan(x) }
  predicate IsZero(x: Fp80) { x.fi == 0 && ExpOf80(x) == 0 }
  predicate IsSubnormal(x: Fp80) { Frac80(x) != 0 && ExpOf80(x) == 0 }

  datatype FpClass = ClassSubnormal | ClassZero | ClassInfinite | ClassNan | ClassNormal

  /** fp80_classify. */
  function Classify(x: Fp80): FpClass
  {
    if IsSubnormal(x) then ClassSubnormal
    else if IsZero(x) then ClassZero
    else if IsInf(x) then ClassInfinite
    else if IsNan(x) then ClassNan
    else ClassNormal
  }

  predicate IsNan64(b: Fp64) { Exp64(b) == EXP64_SPECIAL && Frac64(b) != 0 }
  predicate IsQuiet64(b: Fp64) { IsNan64(b) && Frac64(b) >= TWO52 / 2 }

  /** fpclassify of the double. */
  function Classify64(b: Fp64): FpClass
  {
    if Exp64(b) == EXP64_SPECIAL then (if Frac64(b) == 0 then ClassInfinite else ClassNan)
    else if Exp64(b) != 0 then ClassNormal
    else if Frac64(b) == 0 then ClassZero
    else ClassSubnormal
  }

  // ---------------------------------------------------------------- fp80_cvtfp64

  const FRAC64_SNAN := 0x0007_ffff_ffff_ffff
  const FRAC64_QNAN := 0x000f_ffff_ffff_ffff
  const FRAC64_QNANI := 0x0008_0000_0000_0000

  function ToFp64(x: Fp80): Fp64
  {
    var sign := Sign80(x);
    if !IsSpecial(x) then
      var exp := ExpOf80(x) - EXP80_BIAS + EXP64_BIAS;
      var frac := x.fi / TWO11;
      if 0 < exp < EXP64_SPECIAL then Build64(sign, frac, exp)
      else if exp <= 0 then Build64(sign, frac / Pow2(-exp), 0)
      else Build64(sign, 0, EXP64_SPECIAL)
    else if IsInf(x) then Build64(sign, 0, EXP64_SPECIAL)
    else if IsSnan(x) then Build64(sign, FRAC64_SNAN, EXP64_SPECIAL)
    else if IsQnani(x) then Build64(true, FRAC64_QNANI, EXP64_SPECIAL)
    else Build64(sign, FRAC64_QNAN, EXP64_SPECIAL)
  }

  // ---------------------------------------------------------------- fp80_cvffp64

  /** The shift that brings the top bit of `fi` to the integer bit. */
  function ShiftOf(fi: nat): nat
    requires 0 < fi < TWO64
    decreases TWO64 - fi
  {
    if fi >= TWO63 then 0 else 1 + ShiftOf(2 * fi)
  }

  lemma {:induction false} ShiftNormalises(fi: nat)
    requires 0 < fi < TWO64
    ensures TWO63 <= fi * Pow2(ShiftOf(fi)) < TWO64
    decreases TWO64 - fi
  {
    if fi < TWO63 {
      ShiftNormalises(2 * fi);
      assert fi * Pow2(ShiftOf(fi)) == 2 * fi * Pow2(ShiftOf(2 * fi));
    }
  }

  /** A significand of at least 2^(63-n) needs a shift of at most n. */
  lemma {:induction false} ShiftBound(fi: nat, n: nat)
    requires 0 < fi < TWO64 && fi * Pow2(n) >= TWO63
    ensures ShiftOf(fi) <= n
    decreases n
  {
    if fi < TWO63 {
      assert n > 0 && 2 * fi * Pow2(n - 1) == fi * Pow2(n);
      ShiftBound(2 * fi, n - 1);
    }
  }

  lemma DenormalShift(frac: nat)
    requires 0 < frac < TWO52
    ensures 1 <= ShiftOf(frac * TWO11) <= 52
  {
    Pow2Values();
    assert frac * TWO11 * TWO52 >= TWO63;
    ShiftBound(frac * TWO11, 52);
  }

  function FromFp64(b: Fp64): Fp80
  {
    var sign, exp, frac := Sign64(b), Exp64(b), Frac64(b);
    if exp != 0 then
      Build80(sign, frac * TWO11,
              if exp == EXP64_SPECIAL then EXP80_SPECIAL else exp - EXP64_BIAS + EXP80_BIAS)
    else if frac == 0 then Build80(sign, 0, 0)
    else
      DenormalShift(frac);
      var shift := ShiftOf(frac * TWO11);
      Build80(sign, frac * TWO11 * Pow2(shift), EXP80_BIAS - EXP64_BIAS - shift)
  }

  /** fp80_cvffp64 with its normalising loop. */
  method CvfFp64(b: Fp64) returns (x: Fp80)
    ensures x == FromFp64(b)
  {
    var frac, exp := Frac64(b), Exp64(b);
    var fp80Frac := frac * TWO11;
    if exp != 0 {
      var fp80Exp := exp - EXP64_BIAS + EXP80_BIAS;
      if exp == EXP64_SPECIAL {
        fp80Exp := EXP80_SPECIAL;
      }
      x := Build80(Sign64(b), fp80Frac, fp80Exp);
    } else if frac == 0 {
      x := Build80(Sign64(b), 0, 0);
    } else {
      DenormalShift(frac);
      var fi, shift := NormaliseLoop(fp80Frac);
      x := Build80(Sign64(b), fi, EXP80_BIAS - EXP64_BIAS - shift);
    }
  }

  /** The loop: shift left until the integer bit is set. No bit is lost. */
  method NormaliseLoop(fi0: nat) returns (fi: nat, shift: nat)
    requires 0 < fi0 < TWO63
    ensures shift == ShiftOf(fi0) && fi == fi0 * Pow2(shift) && TWO63 <= fi < TWO64
  {
    fi, shift := fi0, 0;
    while fi < TWO63
      invariant 0 < fi < TWO64 && fi == fi0 * Pow2(shift) && shift + ShiftOf(fi) == ShiftOf(fi0)
      decreases TWO64 - fi
    {
      assert fi0 * Pow2(shift + 1) == 2 * (fi0 * Pow2(shift));
      fi := 2 * fi;
      shift := shift + 1;
    }
  }

  // ---------------------------------------------------------------- round trip

  lemma ScaleBack(f: nat, p: nat)
    requires p > 0
    ensures f * TWO11 * p / TWO11 / p == f
  {
    assert f * TWO11 * p == f * p * TWO11;
    MulDiv(f, p);
  }

  /** The fp80 form of a denormal double. */
  lemma DenormalForm(b: Fp64)
    requires Exp64(b) == 0 && Frac64(b) != 0
    ensures var (x, shift) := (FromFp64(b), ShiftOf(Frac64(b) * TWO11));
            && 1 <= shift <= 52 && TWO63 <= x.fi < TWO64
            && x.fi == Frac64(b) * TWO11 * Pow2(shift)
            && Sign80(x) == Sign64(b) && ExpOf80(x) == EXP80_BIAS - EXP64_BIAS - shift
  {
    DenormalShift(Frac64(b));
    ShiftNormalises(Frac64(b) * TWO11);
  }

  lemma ToDenormal(x: Fp80, frac: nat, shift: nat)
    requires 1 <= shift <= 52 && ExpOf80(x) == EXP80_BIAS - EXP64_BIAS - shift
    requires x.fi == frac * TWO11 * Pow2(shift)
    ensures ToFp64(x) == Build64(Sign80(x), frac, 0)
  {
    ScaleBack(frac, Pow2(shift));
  }

  lemma DenormalRoundTrip(b: Fp64)
    requires Exp64(b) == 0 && Frac64(b) != 0
    ensures ToFp64(FromFp64(b)) == b
  {
    DenormalForm(b);
    ToDenormal(FromFp64(b), Frac64(b), ShiftOf(Frac64(b) * TWO11));
    Fields64(b);
  }

  lemma NormalRoundTrip(b: Fp64)
    requires 0 < Exp64(b) < EXP64_SPECIAL
    ensures ToFp64(FromFp64(b)) == b
  {
    var x := FromFp64(b);
    assert x.fi / TWO11 == TWO52 + Frac64(b);
    assert ToFp64(x) == Build64(Sign64(b), TWO52 + Frac64(b), Exp64(b));
    Fields64(b);
  }

  /** Converting a double that is not a NaN to fp80 and back gives the same bits. */
  lemma RoundTrip(b: Fp64)
    requires !IsNan64(b)
    ensures ToFp64(FromFp64(b)) == b
  {
    if Exp64(b) == 0 && Frac64(b) != 0 {
      DenormalRoundTrip(b);
    } else if 0 < Exp64(b) < EXP64_SPECIAL {
      NormalRoundTrip(b);
    } else {
      SpecialRoundTrip(b);
    }
  }

  lemma SpecialRoundTrip(b: Fp64)
    requires Frac64(b) == 0 && (Exp64(b) == 0 || Exp64(b) == EXP64_SPECIAL)
    ensures ToFp64(FromFp64(b)) == b
  {
    Fields64(b);
  }

  /** A NaN comes back as a NaN of the same sign and kind. */
  lemma NanRoundTrip(b: Fp64)
    requires IsNan64(b)
    ensures var r := ToFp64(FromFp64(b));
            IsNan64(r) && Sign64(r) == Sign64(b) && IsQuiet64(r) == IsQuiet64(b)
  {
    var x := FromFp64(b);
    assert Frac80(x) == Frac64(b) * TWO11;
  }

  /** The conversion keeps the class of the number, except that subnormal doubles become normal. */
  lemma ClassKept(b: Fp64)
    ensures Classify(FromFp64(b)) == if Classify64(b) == ClassSubnormal then ClassNormal else Classify64(b)
    ensures Sign80(FromFp64(b)) == Sign64(b)
  {
    var x := FromFp64(b);
    if Exp64(b) != 0 {
      assert Frac80(x) == Frac64(b) * TWO11;
    } else if Frac64(b) != 0 {
      DenormalForm(b);
    }
  }

  // ---------------------------------------------------------------- order

  ghost predicate Finite64(b: Fp64) { Exp64(b) != EXP64_SPECIAL }

  /** The order of non-negative fp80 numbers, by exponent and then by significand. */
  predicate Below(x: Fp80, y: Fp80)
  {
    x.se < y.se || (x.se == y.se && x.fi < y.fi)
  }

  lemma {:induction false} ShiftDecreases(f: nat, g: nat)
    requires 0 < f < g < TWO64
    ensures ShiftOf(g) <= ShiftOf(f)
    decreases TWO64 - f
  {
    if g < TWO63 {
      ShiftDecreases(2 * f, 2 * g);
    }
  }

  lemma ScaledLess(f: nat, g: nat, p: nat)
    requires f < g && p > 0
    ensures f * TWO11 * p < g * TWO11 * p
  {
    assert g * TWO11 * p == f * TWO11 * p + (g - f) * TWO11 * p;
  }

  /** Sign and exponent of a non-negative denormal double in fp80. */
  lemma DenormalSe(b: Fp64)
    requires 0 < b < TWO52
    ensures FromFp64(b).se == EXP80_BIAS - EXP64_BIAS - ShiftOf(b * TWO11)
    ensures FromFp64(b).fi == b * TWO11 * Pow2(ShiftOf(b * TWO11)) && 1 <= ShiftOf(b * TWO11) <= 52
  {
    assert Exp64(b) == 0 && Frac64(b) == b;
    DenormalForm(b);
  }

  lemma DenormalsOrdered(a: Fp64, b: Fp64)
    requires 0 < a < b < TWO52
    ensures Below(FromFp64(a), FromFp64(b))
  {
    DenormalSe(a);
    DenormalSe(b);
    ShiftDecreases(a * TWO11, b * TWO11);
    ScaledLess(a, b, Pow2(ShiftOf(b * TWO11)));
  }

  lemma NormalSe(b: Fp64)
    requires TWO52 <= b < EXP64_SPECIAL * TWO52
    ensures FromFp64(b).se == b / TWO52 + (EXP80_BIAS - EXP64_BIAS)
    ensures FromFp64(b).fi == TWO63 + b % TWO52 * TWO11
  {
    assert Exp64(b) == b / TWO52;
  }

  lemma ZeroForm()
    ensures FromFp64(0) == Fp80(0, 0)
  {
  }

  lemma NormalsOrdered(a: Fp64, b: Fp64)
    requires TWO52 <= a < b < EXP64_SPECIAL * TWO52
    ensures Below(FromFp64(a), FromFp64(b))
  {
    NormalSe(a);
    NormalSe(b);
  }

  lemma NormalAboveDenormal(a: Fp64, b: Fp64)
    requires 0 < a < TWO52 <= b < EXP64_SPECIAL * TWO52
    ensures Below(FromFp64(a), FromFp64(b))
  {
    DenormalSe(a);
    NormalSe(b);
  }

  lemma AboveZero(b: Fp64)
    requires 0 < b < EXP64_SPECIAL * TWO52
    ensures Below(FromFp64(0), FromFp64(b))
  {
    ZeroForm();
    if b < TWO52 {
      DenormalSe(b);
    } else {
      NormalSe(b);
    }
  }

  lemma FiniteRange(b: Fp64)
    requires !Sign64(b) && Finite64(b)
    ensures b < EXP64_SPECIAL * TWO52
  {
  }

  /** The conversion of non-negative finite doubles to fp80 is strictly increasing. */
  lemma ToFp80IsMonotone(a: Fp64, b: Fp64)
    requires a < b && !Sign64(b) && Finite64(b)
    ensures Below(FromFp64(a), FromFp64(b))
  {
    FiniteRange(b);
    if a == 0 {
      AboveZero(b);
    } else if b < TWO52 {
      DenormalsOrdered(a, b);
    } else if a < TWO52 {
      NormalAboveDenormal(a, b);
    } else {
      NormalsOrdered(a, b);
    }
  }

  // ---------------------------------------------------------------- values

  /** The magnitude of a finite double in units of 2^-1138. */
  function Value64(b: Fp64): nat
  {
    if Exp64(b) == 0 then Frac64(b) * TWO64 else (TWO52 + Frac64(b)) * Pow2(Exp64(b) - 1) * TWO64
  }

  /** The magnitude of an fp80 number with exponent field at least 15308, in the same units. */
  function Value80(x: Fp80): nat
    requires ExpOf80(x) >= 15308
  {
    x.fi * Pow2(ExpOf80(x) - 15308)
  }

  /** Value80 of a significand m*2^11 with the exponent of a normal double. */
  lemma ScaleNormal(m: nat, r: nat, e: nat)
    requires e > 0
    ensures (m * TWO11 + r) * Pow2(e + 52) == m * Pow2(e - 1) * TWO64 + r * Pow2(e + 52)
  {
    Pow2Add(e - 1, 53);
    Pow2Values();
    var p := Pow2(e - 1);
    assert Pow2(53) == 2 * TWO52;
    assert Pow2(e + 52) == p * (2 * TWO52);
    assert m * TWO11 * (p * (2 * TWO52)) == m * p * TWO64;
  }

  lemma NormalForm(b: Fp64)
    requires 0 < Exp64(b) < EXP64_SPECIAL
    ensures FromFp64(b).fi == (TWO52 + Frac64(b)) * TWO11 && ExpOf80(FromFp64(b)) == Exp64(b) + 15360
  {
  }

  /** Normal doubles keep their value. */
  lemma NormalsAreExact(b: Fp64)
    requires 0 < Exp64(b) < EXP64_SPECIAL
    ensures ExpOf80(FromFp64(b)) >= 15308 && Value80(FromFp64(b)) == Value64(b)
  {
    NormalForm(b);
    ScaleNormal(TWO52 + Frac64(b), 0, Exp64(b));
  }

  /** Denormal doubles are halved: their fp80 exponent is one too low. */
  lemma DenormalsAreHalved(b: Fp64)
    requires Exp64(b) == 0 && Frac64(b) != 0
    ensures ExpOf80(FromFp64(b)) >= 15308 && 2 * Value80(FromFp64(b)) == Value64(b)
  {
    DenormalForm(b);
    Pow2Values();
    var frac, s := Frac64(b), ShiftOf(Frac64(b) * TWO11);
    Pow2Add(s, 52 - s);
    HalfScale(frac, Pow2(s), Pow2(52 - s));
    assert Value80(FromFp64(b)) == frac * TWO11 * Pow2(s) * Pow2(52 - s);
  }

  lemma HalfScale(frac: nat, p: nat, q: nat)
    requires p * q == TWO52
    ensures 2 * (frac * TWO11 * p * q) == frac * TWO64
  {
    assert frac * TWO11 * p * q == frac * TWO11 * (p * q);
  }

  /** So a finite non-zero double keeps its value exactly when it is normal. */
  lemma ValueExactIffNormal(b: Fp64)
    requires Finite64(b) && (Exp64(b) != 0 || Frac64(b) != 0)
    ensures ExpOf80(FromFp64(b)) >= 15308
    ensures Value80(FromFp64(b)) == Value64(b) <==> Exp64(b) != 0
  {
    if Exp64(b) != 0 {
      NormalsAreExact(b);
    } else {
      DenormalsAreHalved(b);
      assert Value64(b) == Frac64(b) * TWO64 > 0;
    }
  }

  // ---------------------------------------------------------------- fp80 to double

  /** A number with its integer bit set. */
  ghost predicate Canonical(x: Fp80) { Wellformed(x) && x.fi >= TWO63 }

  /** The exponent that the double gets. */
  function TargetExp(x: Fp80): int { ExpOf80(x) - EXP80_BIAS + EXP64_BIAS }

  lemma NormalTarget(x: Fp80)
    requires Canonical(x) && 0 < TargetExp(x) < EXP64_SPECIAL
    ensures var b := ToFp64(x);
            Sign64(b) == Sign80(x) && Exp64(b) == TargetExp(x) && TWO52 + Frac64(b) == x.fi / TWO11
  {
  }

  /** In the range of normal doubles the conversion truncates towards zero, by less than one unit in
      the last place, and keeps the sign. */
  lemma Truncates(x: Fp80)
    requires Canonical(x) && 0 < TargetExp(x) < EXP64_SPECIAL
    ensures var b := ToFp64(x);
            && Sign64(b) == Sign80(x) && Exp64(b) == TargetExp(x)
            && Value64(b) <= Value80(x) < Value64(b) + Pow2(Exp64(b) - 1) * TWO64
  {
    NormalTarget(x);
    var m, r, e := x.fi / TWO11, x.fi % TWO11, TargetExp(x);
    var p := Pow2(e + 52);
    assert ExpOf80(x) - 15308 == e + 52;
    assert Value64(ToFp64(x)) == m * Pow2(e - 1) * TWO64;
    ScaleNormal(m, r, e);
    ScaleNormal(1, 0, e);
    assert Value80(x) == m * Pow2(e - 1) * TWO64 + r * p;
    assert TWO11 * p == Pow2(e - 1) * TWO64;
    RemainderScaled(r, p);
  }

  lemma RemainderScaled(r: nat, p: nat)
    requires r < TWO11 && p > 0
    ensures 0 <= r * p < TWO11 * p
  {
  }

  /** From the range of normal doubles up, the conversion is monotone; numbers that are too large
      become infinity. */
  lemma ToFp64IsMonotone(x: Fp80, y: Fp80)
    requires Canonical(x) && Canonical(y) && !Sign80(x) && !Sign80(y) && !IsSpecial(x) && !IsSpecial(y)
    requires TargetExp(x) > 0 && Below(x, y)
    ensures ToFp64(x) <= ToFp64(y)
    ensures TargetExp(y) >= EXP64_SPECIAL ==> Classify64(ToFp64(y)) == ClassInfinite
  {
    ToMagnitude(x);
    ToMagnitude(y);
    MagnitudeOrdered(x, y);
  }

  lemma ToMagnitude(x: Fp80)
    requires Canonical(x) && !Sign80(x) && !IsSpecial(x) && TargetExp(x) > 0
    ensures ToFp64(x) == MagnitudeBits(x)
    ensures TargetExp(x) >= EXP64_SPECIAL ==> Classify64(ToFp64(x)) == ClassInfinite
  {
  }

  lemma MagnitudeOrdered(x: Fp80, y: Fp80)
    requires Canonical(x) && Canonical(y) && !Sign80(x) && !Sign80(y) && TargetExp(x) > 0 && Below(x, y)
    ensures MagnitudeBits(x) <= MagnitudeBits(y) && TargetExp(x) <= TargetExp(y)
  {
    assert x.fi / TWO11 < 2 * TWO52 && y.fi / TWO11 >= TWO52;
  }

  /** The bits of the conversion of a non-negative canonical number with a positive target exponent. */
  function MagnitudeBits(x: Fp80): nat
  {
    if TargetExp(x) >= EXP64_SPECIAL then EXP64_SPECIAL * TWO52
    else if TargetExp(x) <= 0 || x.fi < TWO63 then 0
    else TargetExp(x) * TWO52 + (x.fi / TWO11 - TWO52)
  }

  /** How far below the normal doubles a number is. */
  function Depth(x: Fp80): nat
    requires TargetExp(x) <= 0
  {
    -TargetExp(x)
  }

  /** The fraction of the denormal double that the number truncates to. */
  function RightFraction(x: Fp80): nat
    requires TargetExp(x) <= 0
  {
    Quotient(x.fi, Pow2(Depth(x) + 12))
  }

  function Quotient(a: nat, b: nat): nat
    requires b > 0
  {
    a / b
  }

  lemma QuotientBounds(a: nat, b: nat)
    requires b > 0
    ensures var f := Quotient(a, b); f * b <= a < (f + 1) * b
  {
    assert a == a / b * b + a % b;
  }

  lemma ScaledBetween(f: nat, v: nat, p: nat, q: nat)
    requires f * p <= v < (f + 1) * p && q > 0
    ensures f * (p * q) <= v * q < (f + 1) * (p * q)
  {
    MulMonotone(f * p, v, q);
    assert f * (p * q) == f * p * q && (f + 1) * (p * q) == (f + 1) * p * q;
    MulMonotone(v + 1, (f + 1) * p, q);
    assert (v + 1) * q == v * q + q;
  }

  /** It is the one whose value is the number's, rounded down to a multiple of the least denormal double. */
  lemma RightFractionIs(x: Fp80)
    requires Canonical(x) && TargetExp(x) <= 0 && Depth(x) <= 52
    ensures var f := RightFraction(x);
            ExpOf80(x) >= 15308 && f * TWO64 <= Value80(x) < (f + 1) * TWO64
  {
    var n, f := Depth(x), RightFraction(x);
    var p, q := Pow2(n + 12), Pow2(52 - n);
    Pow2Add(n + 12, 52 - n);
    Pow2Values();
    assert Pow2(64) == TWO64;
    assert ExpOf80(x) - 15308 == 52 - n;
    QuotientBounds(x.fi, p);
    ScaledBetween(f, x.fi, p, q);
  }

  lemma DeepFractionIsZero(x: Fp80)
    requires Canonical(x) && TargetExp(x) <= 0 && Depth(x) > 52
    ensures RightFraction(x) == 0
  {
    Pow2Values();
    Pow2Monotone(64, Depth(x) + 12);
    assert Pow2(64) == TWO64;
    DivUnique(x.fi, Pow2(Depth(x) + 12), 0, x.fi);
  }

  /** Below the normal doubles, the result is the right denormal only at the top of the first binade or when
      everything is shifted out. Deeper than 63 the C shift is undefined. */
  lemma DenormalRangeIsWrong(x: Fp80)
    requires Canonical(x) && !IsSpecial(x) && TargetExp(x) <= 0 && Depth(x) < 64
    ensures var (n, m) := (Depth(x), x.fi / TWO11);
            Frac64(ToFp64(x)) == RightFraction(x) <==> (n == 0 && m == 2 * TWO52 - 1) || 53 <= n < 64
  {
    var n, m := Depth(x), x.fi / TWO11;
    DenormalFraction(x);
    RightIsHalf(x);
    ShiftedOut(m, n);
    WrongHalf(m / Pow2(n), m, n);
  }

  lemma DenormalFraction(x: Fp80)
    requires Canonical(x) && !IsSpecial(x) && TargetExp(x) <= 0
    ensures TWO52 <= x.fi / TWO11 < 2 * TWO52 && Frac64(ToFp64(x)) == x.fi / TWO11 / Pow2(Depth(x)) % TWO52
  {
  }

  lemma WrongHalf(y: nat, m: nat, n: nat)
    requires TWO52 <= m < 2 * TWO52
    requires if n == 0 then y == m else if n < 53 then 1 <= y < TWO52 else y == 0
    ensures y % TWO52 == y / 2 <==> (n == 0 && m == 2 * TWO52 - 1) || 53 <= n
  {
    if n == 0 {
      DivUnique(y, TWO52, 1, y - TWO52);
    } else {
      DivUnique(y, TWO52, 0, y);
    }
  }

  /** The code shifts one place too few. */
  lemma RightIsHalf(x: Fp80)
    requires TargetExp(x) <= 0
    ensures RightFraction(x) == x.fi / TWO11 / Pow2(Depth(x)) / 2
  {
    var n, m := Depth(x), x.fi / TWO11;
    DivTwice(m, Pow2(n));
    assert m / Pow2(n + 1) == m / Pow2(n) / 2;
    Pow2Add(11, n + 1);
    Pow2Values();
    DivDiv(x.fi, TWO11, Pow2(n + 1), Pow2(n + 12));
  }

  lemma ShiftedOut(m: nat, n: nat)
    requires TWO52 <= m < 2 * TWO52
    ensures n == 0 ==> m / Pow2(n) == m
    ensures 0 < n < 53 ==> 1 <= m / Pow2(n) < TWO52
    ensures n >= 53 ==> m / Pow2(n) == 0
  {
    Pow2Values();
    if n >= 53 {
      Pow2Monotone(53, n);
      assert Pow2(53) == 2 * TWO52;
      DivUnique(m, Pow2(n), 0, m);
    } else if n > 0 {
      Pow2Monotone(n, 52);
      Pow2Monotone(1, n);
      DivBounds(m, Pow2(n), TWO52);
    }
  }

  lemma DoubledFraction(x: Fp80)
    requires Canonical(x) && !IsSpecial(x) && TargetExp(x) <= 0 && 1 <= Depth(x) <= 52
    ensures Frac64(ToFp64(x)) == Quotient(x.fi, Pow2(Depth(x) + 11))
  {
    var n, m := Depth(x), x.fi / TWO11;
    DenormalFraction(x);
    ShiftedOut(m, n);
    Pow2Values();
    Pow2Add(11, n);
    DivDiv(x.fi, TWO11, Pow2(n), Pow2(n + 11));
    DivUnique(m / Pow2(n), TWO52, 0, m / Pow2(n));
  }

  /** Depth 1 to 52: the result is the denormal double of twice the value, rounded down. */
  lemma DenormalRangeIsDoubled(x: Fp80)
    requires Canonical(x) && !IsSpecial(x) && TargetExp(x) <= 0 && 1 <= Depth(x) <= 52
    ensures var f := Frac64(ToFp64(x));
            Exp64(ToFp64(x)) == 0 && ExpOf80(x) >= 15308 && f * TWO64 <= 2 * Value80(x) < (f + 1) * TWO64
  {
    var n := Depth(x);
    var p, q := Pow2(n + 11), Pow2(52 - n);
    DoubledFraction(x);
    Pow2Values();
    Pow2Add(n + 11, 52 - n);
    Pow2Add(11, 52);
    assert p * q == TWO63;
    assert ExpOf80(x) - 15308 == 52 - n;
    QuotientBounds(x.fi, p);
    ScaledBetween(Quotient(x.fi, p), x.fi, p, q);
  }

  // ---------------------------------------------------------------- sign and class

  function Negated80(x: Fp80): Fp80 { x.(se := if x.se < 0x8000 then x.se + 0x8000 else x.se - 0x8000) }

  function Negated64(b: Fp64): Fp64 { if b < TWO63 then b + TWO63 else b - TWO63 }

  /** Every number keeps its sign, the infinities and the NaNs as well. */
  lemma SignKept(x: Fp80)
    ensures Sign64(ToFp64(x)) == Sign80(x)
  {
  }

  lemma NegatedFields(x: Fp80)
    requires Wellformed(x)
    ensures var y := Negated80(x);
            Wellformed(y) && Sign80(y) == !Sign80(x) && ExpOf80(y) == ExpOf80(x) && Frac80(y) == Frac80(x) && y.fi == x.fi
  {
  }

  /** Flipping the sign bit of an fp80 number flips the sign bit of its double and nothing else, except for the
      NaN whose negative is the real indefinite. */
  lemma NegationKeptIff(x: Fp80)
    requires Wellformed(x)
    ensures ToFp64(Negated80(x)) == Negated64(ToFp64(x)) <==> !(IsQnan(x) && x.fi % TWO62 == 0)
  {
    NegatedFields(x);
    var a, b := ToFp64(x), ToFp64(Negated80(x));
    Fields64(a);
    Fields64(b);
    if IsQnan(x) {
      assert Frac64(a) == if Sign80(x) && x.fi % TWO62 == 0 then FRAC64_QNANI else FRAC64_QNAN;
    } else {
      assert Exp64(a) == Exp64(b) && Frac64(a) == Frac64(b);
    }
  }

  /** The result is infinite exactly for the infinities and the numbers that are too large, a NaN exactly for the
      NaNs, quiet exactly for the quiet ones, and normal exactly when the exponent fits. */
  lemma ResultClass(x: Fp80)
    ensures var c := Classify64(ToFp64(x));
            && (c == ClassInfinite <==> IsInf(x) || (!IsSpecial(x) && TargetExp(x) >= EXP64_SPECIAL))
            && (c == ClassNan <==> IsNan(x)) && (IsQuiet64(ToFp64(x)) <==> IsQnan(x))
            && (c == ClassNormal <==> 0 < TargetExp(x) < EXP64_SPECIAL)
  {
    assert IsSpecial(x) ==> TargetExp(x) == 0x43ff;
  }

  /** Of a NaN only sign and quietness are kept: the payload becomes all ones, or that of the real indefinite. */
  lemma NanPatterns(x: Fp80)
    requires IsNan(x)
    ensures ToFp64(x) == (if Sign80(x) then TWO63 else 0) +
      if !IsQnan(x) then 0x7ff7_ffff_ffff_ffff
      else if Sign80(x) && x.fi % TWO62 == 0 then 0x7ff8_0000_0000_0000
      else 0x7fff_ffff_ffff_ffff
  {
  }

  /** Below the normal doubles a number becomes zero exactly when it is a power of two of the first binade, up to
      the bits that are dropped anyway, or when everything is shifted out. */
  lemma ResultIsZeroIff(x: Fp80)
    requires Canonical(x) && TargetExp(x) <= 0
    ensures Classify64(ToFp64(x)) == ClassZero <==> (Depth(x) == 0 && x.fi / TWO11 == TWO52) || Depth(x) >= 53
  {
    var n, m := Depth(x), x.fi / TWO11;
    DenormalFraction(x);
    ShiftedOut(m, n);
    if n == 0 {
      DivUnique(m, TWO52, 1, m - TWO52);
    } else {
      DivUnique(m / Pow2(n), TWO52, 0, m / Pow2(n));
    }
  }

  /** An infinity or a NaN keeps its sign, and all bits of its fraction at the top of the fp80 fraction. */
  lemma SpecialsAreExact(b: Fp64)
    requires Exp64(b) == EXP64_SPECIAL
    ensures var x := FromFp64(b);
            && IsSpecial(x) && Sign80(x) == Sign64(b) && x.fi == TWO63 + Frac64(b) * TWO11
            && (IsQnan(x) <==> IsQuiet64(b))
  {
  }
}
