/**
 What the codec of pack2.c promises: words survive decoding and encoding, exactly the
 representable numbers survive encoding and decoding, the error bound of every other
 number in range, and the order of the decoded values.
 */
module FloatCodecLaws {
  import opened Bits
  import opened FloatCodec

  // ---------------------------------------------------------------------
  // The bit layout
  // ---------------------------------------------------------------------

  /** The word whose fields are the given sign, biased exponent and significand. */
  function Code(sign: nat, e: nat, g: nat, L: Layout): int
    requires L.Valid()
  {
    Shl(Shl(sign, L.expbits) + e, L.SigBits()) + g
  }

  lemma CodeSplits(sign: nat, e: nat, g: nat, L: Layout)
    requires L.Valid()
    ensures Code(sign, e, g, L) == Shl(sign, L.bits - 1) + (Shl(e, L.SigBits()) + g)
  {
    ShlAdd(Shl(sign, L.expbits), e, L.SigBits());
    ShlTwice(sign, L.expbits, L.SigBits());
  }

  /** The fields below the sign stay below the sign bit. */
  lemma BelowSign(e: nat, g: nat, L: Layout)
    requires L.Valid() && e < Pow2(L.expbits) && g < Pow2(L.SigBits())
    ensures 0 <= Shl(e, L.SigBits()) + g < Pow2(L.bits - 1)
  {
    hide Shl, Pow2;
    ShlNat(e, L.SigBits());
    ShlMonotone(e + 1, Pow2(L.expbits), L.SigBits());
    ShlAdd(e, 1, L.SigBits());
    ShlOne(L.SigBits());
    ShlPow2(L.expbits, L.SigBits());
  }

  lemma ShlOne(k: nat)
    ensures Shl(1, k) == Pow2(k)
  {
    ShlPow2(0, k);
  }

  lemma CodeFields(sign: nat, e: nat, g: nat, L: Layout)
    requires L.Valid() && sign <= 1 && e < Pow2(L.expbits) && g < Pow2(L.SigBits())
    ensures 0 <= Code(sign, e, g, L) < Pow2(L.bits)
    ensures var i := Code(sign, e, g, L);
            SigField(i, L) == g && ExpField(i, L) == e && SignField(i, L) == sign
  {
    hide Shl, Shr, Low, Pow2;
    BelowSign(e, g, L);
    CodeSplits(sign, e, g, L);
    ShlNat(sign, L.expbits);
    Fields(Shl(sign, L.expbits) + e, L.SigBits(), g);
    Fields(sign, L.expbits, e);
    Fields(sign, L.bits - 1, Shl(e, L.SigBits()) + g);
    OneBit(sign, L);
  }

  lemma OneBit(sign: nat, L: Layout)
    requires L.Valid() && sign <= 1
    ensures Low(sign, 1) == sign && 0 <= Shl(sign, L.bits - 1) <= Pow2(L.bits - 1)
    ensures Pow2(L.bits) == 2 * Pow2(L.bits - 1)
  {
    LowSmall(sign, 1);
    ShlOne(L.bits - 1);
    ShlZero(L.bits - 1);
  }

  /** Every word of the layout's width is the code of its own fields. */
  lemma WordIsCode(i: nat, L: Layout)
    requires L.Valid() && i < Pow2(L.bits)
    ensures SignField(i, L) <= 1 && i == Code(SignField(i, L), ExpField(i, L), SigField(i, L), L)
  {
    var top := Shr(i, L.SigBits());
    var sign := Shr(top, L.expbits);
    Rejoin(i, L.SigBits());
    Rejoin(top, L.expbits);
    CodeSplits(sign, ExpField(i, L), SigField(i, L), L);
    BelowSign(ExpField(i, L), SigField(i, L), L);
    SignDigit(sign, Shl(ExpField(i, L), L.SigBits()) + SigField(i, L), L);
    CodeFields(sign, ExpField(i, L), SigField(i, L), L);
  }

  lemma SignDigit(sign: nat, rest: nat, L: Layout)
    requires L.Valid() && Shl(sign, L.bits - 1) + rest < Pow2(L.bits)
    ensures sign <= 1
  {
    if sign >= 2 {
      ShlMonotone(2, sign, L.bits - 1);
      ShlPow2(1, L.bits - 1);
    }
  }

  lemma CodeZero(sign: nat, e: nat, g: nat, L: Layout)
    requires L.Valid() && sign <= 1 && e < Pow2(L.expbits) && g < Pow2(L.SigBits())
    ensures Code(sign, e, g, L) == 0 <==> sign == 0 && e == 0 && g == 0
  {
    CodeFields(sign, e, g, L);
    CodeFields(0, 0, 0, L);
    ShlZero(L.expbits);
    ShlZero(L.SigBits());
  }

  // ---------------------------------------------------------------------
  // Joining fields with OR
  // ---------------------------------------------------------------------

  /** The exponent and significand that the joined word really holds. */
  function JoinedExp(e: nat, g: nat, L: Layout): nat
    requires L.Valid()
  {
    if g < Pow2(L.SigBits()) || e % 2 == 1 then e else e + 1
  }

  function JoinedSig(g: nat, L: Layout): nat
    requires L.Valid()
  {
    if g < Pow2(L.SigBits()) then g else 0
  }

  /**
   A significand that fits is joined as it is. One that has reached 2^sigbits is OR-ed
   onto the exponent: an even exponent absorbs it as a carry, an odd one swallows it.
   */
  lemma JoinInRange(sign: nat, e: nat, g: nat, L: Layout)
    requires L.Valid() && sign <= 1 && e < Pow2(L.expbits) && g <= Pow2(L.SigBits())
    ensures JoinedExp(e, g, L) < Pow2(L.expbits) && JoinedSig(g, L) < Pow2(L.SigBits())
    ensures Join(sign, e, g, L) == Code(sign, JoinedExp(e, g, L), JoinedSig(g, L), L)
  {
    hide Shl, Low, BitOr;
    ShlNat(sign, L.expbits);
    var top := Shl(sign, L.expbits) + e;
    JoinTop(sign, e, L);
    EvenTop(sign, e, L);
    if g < Pow2(L.SigBits()) {
      OrDisjoint(top, L.SigBits(), g);
    } else {
      OrCarry(top, L.SigBits());
    }
  }

  lemma EvenTop(sign: nat, e: nat, L: Layout)
    requires L.Valid()
    ensures (Shl(sign, L.expbits) + e) % 2 == e % 2 && Pow2(L.expbits) % 2 == 0
  {
    var half, p := Shl(sign, L.expbits - 1), Pow2(L.expbits - 1);
    assert Shl(sign, L.expbits) == 2 * half && Pow2(L.expbits) == 2 * p;
    hide Shl, Pow2;
    SameParity(half, e);
    SameParity(p, 0);
  }

  lemma SameParity(x: int, e: nat)
    ensures (2 * x + e) % 2 == e % 2
  {
  }

  lemma JoinTop(sign: nat, e: nat, L: Layout)
    requires L.Valid() && sign <= 1 && e < Pow2(L.expbits)
    ensures BitOr(Low(Shl(sign, L.bits - 1), 64), Low(Shl(e, L.SigBits()), 64))
         == Shl(Shl(sign, L.expbits) + e, L.SigBits())
  {
    hide Shl, Low, BitOr, Pow2;
    BelowSign(e, 0, L);
    OneBit(sign, L);
    OrDisjoint(sign, L.bits - 1, Shl(e, L.SigBits()));
    CodeSplits(sign, e, 0, L);
    Pow2Monotone(L.bits, 64);
    LowSmall(Shl(sign, L.bits - 1), 64);
    LowSmall(Shl(e, L.SigBits()), 64);
  }

  // ---------------------------------------------------------------------
  // The significand
  // ---------------------------------------------------------------------

  /** The extra term of the significand factor adds less than one half. */
  function Excess(frac: real, L: Layout): (h: real)
    requires L.Valid() && 0.0 <= frac < 1.0
    ensures 0.0 <= h <= 0.5
  {
    ProductBetween(frac, L.half);
    frac * L.half
  }

  lemma ProductBetween(x: real, h: real)
    requires 0.0 <= x < 1.0 && 0.0 <= h <= 0.5
    ensures 0.0 <= x * h <= 0.5
  {
    ProductSign(x, h);
    ProductSign(1.0 - x, h);
    assert (1.0 - x) * h == h - x * h;
  }

  lemma SignificandIs(frac: real, L: Layout)
    requires L.Valid() && 0.0 <= frac < 1.0
    ensures Significand(frac, L) == (Scale(frac, L.SigBits()) + Excess(frac, L)).Floor
    ensures 0.0 <= Scale(frac, L.SigBits()) < Pow2(L.SigBits()) as real
  {
    hide Scale, Pow2;
    ScaleIsProduct(frac, L.SigBits());
    Distributes(frac, Pow2(L.SigBits()) as real, L.half);
    ScaleZero(L.SigBits());
    ScaleOrder(0.0, frac, L.SigBits());
    ScaleOrder(frac, 1.0, L.SigBits());
    ScaleIsProduct(1.0, L.SigBits());
  }

  lemma Distributes(x: real, y: real, z: real)
    ensures x * (y + z) == x * y + x * z
  {
  }

  /** The decoded fraction, and the significand that it is encoded to again. */
  lemma SignificandExact(e: nat, g: nat, L: Layout)
    requires L.Valid() && g < Pow2(L.SigBits())
    ensures 1.0 <= FieldsForm(e, g, L).mantissa < 2.0
    ensures Significand(FieldsForm(e, g, L).mantissa - 1.0, L) == g
  {
    hide Scale, Pow2, Significand, Excess;
    var k: int := L.SigBits();
    var frac := Scale(g as real, 0 - k);
    UnitFraction(g, k);
    SignificandIs(frac, L);
  }

  lemma UnitFraction(g: nat, k: nat)
    requires g < Pow2(k)
    ensures 0.0 <= Scale(g as real, 0 - k) < 1.0
    ensures Scale(Scale(g as real, 0 - k), k) == g as real
  {
    ScaleTwice(g as real, 0 - k, k);
    ScaleTwice(1.0, k, 0 - k);
    ScaleIsProduct(1.0, k);
    ScaleZero(0 - k);
    ScaleOrder(0.0, g as real, 0 - k);
    ScaleOrder(g as real, Pow2(k) as real, 0 - k);
  }

  // ---------------------------------------------------------------------
  // Words survive decoding and encoding
  // ---------------------------------------------------------------------

  function WordForm(i: nat, L: Layout): Form
    requires L.Valid()
  {
    FieldsForm(ExpField(i, L), SigField(i, L), L)
  }

  /** The sign and normal form of a decoded word. */
  lemma DecodedForm(i: nat, L: Layout)
    requires L.Valid() && i != 0
    ensures var v := Unpack(i, L);
            && Abs(v) == WordForm(i, L).Value() > 0.0
            && Normal(WordForm(i, L).Value()) == WordForm(i, L)
            && (v < 0.0 <==> SignField(i, L) == 1)
  {
    hide Normal, Form.Value, Low, Shr;
    SignificandExact(ExpField(i, L), SigField(i, L), L);
    NormalUnique(WordForm(i, L));
  }

  lemma PackUnpack(i: nat, L: Layout)
    requires L.Valid() && i < Pow2(L.bits)
    ensures Pack(Unpack(i, L), L) == i
  {
    hide Normal, Form.Value, Low, Shr, Significand, Join, Pow2;
    if i != 0 {
      WordIsCode(i, L);
      DecodedForm(i, L);
      SignificandExact(ExpField(i, L), SigField(i, L), L);
      JoinInRange(SignField(i, L), ExpField(i, L), SigField(i, L), L);
      assert SignOf(Unpack(i, L)) == SignField(i, L);
    }
  }

  // ---------------------------------------------------------------------
  // Exactly the representable numbers survive encoding and decoding
  // ---------------------------------------------------------------------

  ghost predicate HasForm(f: real, e: nat, g: nat, L: Layout)
    requires L.Valid()
  {
    f != 0.0 && e < Pow2(L.expbits) && g < Pow2(L.SigBits()) && Abs(f) == FieldsForm(e, g, L).Value()
  }

  /** Zero, and (1 + g/2^sigbits) * 2^(e-bias) with a sign, less the positive number whose fields are all zero. */
  ghost predicate Representable(f: real, L: Layout)
    requires L.Valid()
  {
    f == 0.0 || exists e: nat, g: nat :: HasForm(f, e, g, L) && (f < 0.0 || e != 0 || g != 0)
  }

  lemma FormEncodes(f: real, e: nat, g: nat, L: Layout)
    requires L.Valid() && HasForm(f, e, g, L)
    ensures Pack(f, L) == Code(SignOf(f), e, g, L) < Pow2(L.bits)
    ensures Pack(f, L) != 0 ==> Unpack(Pack(f, L), L) == f
    ensures Pack(f, L) == 0 <==> f > 0.0 && e == 0 && g == 0
  {
    hide Normal, Form.Value, Significand, Join, Pow2, Code;
    SignificandExact(e, g, L);
    NormalUnique(FieldsForm(e, g, L));
    JoinInRange(SignOf(f), e, g, L);
    CodeFields(SignOf(f), e, g, L);
    CodeZero(SignOf(f), e, g, L);
  }

  lemma DecodedIsRepresentable(f: real, i: nat, L: Layout)
    requires L.Valid() && Unpack(i, L) == f
    requires i == Pack(f, L) || i == Low(Pack(f, L), L.bits)
    ensures Representable(f, L)
  {
    hide Normal, Form.Value, Significand, Join, Pow2, Pack;
    if i != 0 {
      DecodedForm(i, L);
      var e, g := ExpField(i, L), SigField(i, L);
      assert HasForm(f, e, g, L);
      FormEncodes(f, e, g, L);
      LowSmall(0, L.bits);
    }
  }

  /** Directly, and through a buffer field that keeps only the layout's width. */
  lemma UnpackPack(f: real, L: Layout)
    requires L.Valid()
    ensures Unpack(Pack(f, L), L) == f <==> Representable(f, L)
    ensures Unpack(Low(Pack(f, L), L.bits), L) == f <==> Representable(f, L)
  {
    hide Normal, Form.Value, Significand, Join, Pow2, HasForm, Low;
    if Representable(f, L) {
      if f != 0.0 {
        var e: nat, g: nat :| HasForm(f, e, g, L) && (f < 0.0 || e != 0 || g != 0);
        FormEncodes(f, e, g, L);
      }
      LowSmall(Pack(f, L), L.bits);
    } else if Unpack(Pack(f, L), L) == f {
      DecodedIsRepresentable(f, Pack(f, L), L);
    } else if Unpack(Low(Pack(f, L), L.bits), L) == f {
      DecodedIsRepresentable(f, Low(Pack(f, L), L.bits), L);
    }
  }

  /** The excluded number: positive 2^-bias is encoded as the word of zero. */
  lemma SmallestIsLost(L: Layout)
    requires L.Valid()
    ensures var f := Scale(1.0, 0 - L.Bias());
            f > 0.0 && Pack(f, L) == 0 && Unpack(Pack(f, L), L) != f
  {
    hide Normal, Pack;
    var f := Scale(1.0, 0 - L.Bias());
    ScaleZero(0 - L.SigBits());
    ScaleZero(0 - L.Bias());
    ScaleOrder(0.0, 1.0, 0 - L.Bias());
    assert HasForm(f, 0, 0, L);
    FormEncodes(f, 0, 0, L);
  }

  // ---------------------------------------------------------------------
  // Exponents out of range
  // ---------------------------------------------------------------------

  /** The three fields, shifted and joined: each is found in its place, the exponent modulo 2^expbits. */
  lemma JoinWraps(sign: nat, exp: int, g: nat, L: Layout)
    requires L.Valid() && sign <= 1 && g < Pow2(L.SigBits())
    ensures SigField(Join(sign, exp, g, L), L) == g
    ensures ExpField(Join(sign, exp, g, L), L) == Low(exp, L.expbits)
  {
    var k, b := L.SigBits(), L.expbits;
    var S, E := Low(Shl(sign, L.bits - 1), 64), Low(Shl(exp, k), 64);
    SignBelow(sign, L);
    ExponentBelow(exp, L);
    SignificandBelow(g, L);
    hide Low, Shl, Shr, Pow2, BitOr;
    LowOr(BitOr(S, E), g, k);
    LowOr(S, E, k);
    ShrOr(BitOr(S, E), g, k);
    ShrOr(S, E, k);
    LowOr(Shr(BitOr(S, E), k), Shr(g, k), b);
    LowOr(Shr(S, k), Shr(E, k), b);
    OrZero(g);
    OrZero(Low(exp, b));
  }

  lemma OrZero(x: nat)
    ensures BitOr(0, x) == x && BitOr(x, 0) == x && BitOr(0, 0) == 0
  {
  }

  /** The sign puts nothing into the other fields. */
  lemma SignBelow(sign: nat, L: Layout)
    requires L.Valid() && sign <= 1
    ensures var S := Low(Shl(sign, L.bits - 1), 64);
            Low(S, L.SigBits()) == 0 && Low(Shr(S, L.SigBits()), L.expbits) == 0
  {
    var k, b := L.SigBits(), L.expbits;
    var S := Low(Shl(sign, L.bits - 1), 64);
    hide Low, Shl, Shr, Pow2;
    LowTwice(Shl(sign, L.bits - 1), L.bits - 1, 64);
    LowOfShl(sign, L.bits - 1, 0);
    LowTwice(S, k, L.bits - 1);
    FieldOfLow(S, k, b);
    Zeros(k, b);
  }

  lemma Zeros(k: nat, b: nat)
    ensures Low(0, k) == 0 && Shr(0, k) == 0 && Low(Shr(0, k), b) == 0
  {
    Pow2Monotone(0, k);
    Pow2Monotone(0, b);
    LowSmall(0, k);
    LowSmall(0, b);
    ShrNone(k);
  }

  lemma {:induction false} ShrNone(k: nat)
    ensures Shr(0, k) == 0
  {
    if k > 0 {
      ShrNone(k - 1);
    }
  }

  lemma ExponentBelow(exp: int, L: Layout)
    requires L.Valid()
    ensures var E := Low(Shl(exp, L.SigBits()), 64);
            Low(E, L.SigBits()) == 0 && Low(Shr(E, L.SigBits()), L.expbits) == Low(exp, L.expbits)
  {
    var k, b := L.SigBits(), L.expbits;
    var E := Low(Shl(exp, k), 64);
    hide Low, Shl, Shr, Pow2;
    LowTwice(Shl(exp, k), k, 64);
    LowTwice(Shl(exp, k), k + b, 64);
    LowOfShl(exp, k, b);
    FieldOfLow(E, k, b);
    PowPositive(k);
    Fields(Low(exp, b), k, 0);
    LowTwice(exp, b, b);
  }

  lemma PowPositive(k: nat)
    ensures 0 < Pow2(k)
  {
  }

  lemma SignificandBelow(g: nat, L: Layout)
    requires L.Valid() && g < Pow2(L.SigBits())
    ensures Low(g, L.SigBits()) == g && Low(Shr(g, L.SigBits()), L.expbits) == 0
  {
    var k, b := L.SigBits(), L.expbits;
    hide Low, Shl, Shr, Pow2;
    LowSmall(g, k);
    ShlZero(k);
    Fields(0, k, g);
    Zeros(k, b);
  }

  /**
   Also for a number whose exponent does not fit its field: the significand is stored as it is
   and the exponent modulo 2^expbits.
   */
  lemma ExponentWraps(f: real, L: Layout)
    requires L.Valid() && f != 0.0 && RawSignificand(f, L) < Pow2(L.SigBits())
    ensures SigField(Pack(f, L), L) == RawSignificand(f, L)
    ensures ExpField(Pack(f, L), L) == Low(Exponent(f, L), L.expbits)
  {
    hide Normal, Significand, Join, Pow2, Low, SigField, ExpField;
    JoinWraps(SignOf(f), Exponent(f, L), RawSignificand(f, L), L);
  }

  // ---------------------------------------------------------------------
  // The error bound
  // ---------------------------------------------------------------------

  function Exponent(f: real, L: Layout): int
    requires L.Valid() && f != 0.0
  {
    Normal(Abs(f)).shift + L.Bias()
  }

  predicate InRange(f: real, L: Layout)
    requires L.Valid()
  {
    f != 0.0 && 0 <= Exponent(f, L) < Pow2(L.expbits)
  }

  /** The significand that pack754 computes before it joins the fields. */
  function RawSignificand(f: real, L: Layout): nat
    requires L.Valid() && f != 0.0
  {
    Significand(Normal(Abs(f)).mantissa - 1.0, L)
  }

  /** The weight of the last significand bit in the binade of f. */
  function Ulp(f: real, L: Layout): real
    requires L.Valid() && f != 0.0
  {
    Scale(1.0, Normal(Abs(f)).shift - L.SigBits())
  }

  /** All fields of a positive number come out zero, which is the word of zero. */
  predicate Vanishes(f: real, L: Layout)
    requires L.Valid() && f != 0.0
  {
    f > 0.0 && Exponent(f, L) == 0 && RawSignificand(f, L) == 0
  }

  /** The significand reached 2^sigbits and met an odd exponent. */
  predicate CarryLost(f: real, L: Layout)
    requires L.Valid() && f != 0.0
  {
    RawSignificand(f, L) == Pow2(L.SigBits()) && Exponent(f, L) % 2 == 1
  }

  predicate WithinBound(f: real, L: Layout)
    requires L.Valid() && f != 0.0
  {
    var error := Abs(Unpack(Pack(f, L), L)) - Abs(f);
    -Ulp(f, L) < error <= Ulp(f, L) / 2.0
  }

  /** The magnitude of f counted in units in the last place. */
  function InUlps(f: real, L: Layout): real
    requires L.Valid() && f != 0.0
  {
    Scale(Normal(Abs(f)).mantissa, L.SigBits())
  }

  /** What the word of f decodes to, counted in units in the last place of f. */
  function DecodedUlps(f: real, L: Layout): real
    requires L.Valid() && f != 0.0
  {
    if Vanishes(f, L) then 0.0
    else if CarryLost(f, L) then Pow2(L.SigBits()) as real
    else (Pow2(L.SigBits()) + RawSignificand(f, L)) as real
  }

  /**
   Every number in range is decoded to within (-1, +1/2] units in the last place of its
   magnitude, except when its word vanishes or an odd exponent swallows the carry.
   */
  lemma ErrorBound(f: real, L: Layout)
    requires L.Valid() && InRange(f, L)
    ensures WithinBound(f, L) <==> !Vanishes(f, L) && !CarryLost(f, L)
  {
    hide Scale, Normal, RawSignificand, Pack, Unpack, Pow2, Exponent;
    var t := Normal(Abs(f)).shift - L.SigBits();
    var d := DecodedUlps(f, L) - InUlps(f, L);
    RoundingBounds(f, L);
    DecodedInUlps(f, L);
    ScaleTwice(Normal(Abs(f)).mantissa, L.SigBits(), t);
    ScaleSum(DecodedUlps(f, L), InUlps(f, L), t);
    ScaleZero(t);
    ScaleSum(0.0, 1.0, t);
    ScaleInside(0.5, t);
    ScaleOrder(-1.0, d, t);
    ScaleOrder(0.5, d, t);
  }

  lemma Sixteenth()
    ensures Pow2(4) == 16 && Pow2(5) == 32 && Pow2(10) == 1024
  {
    assert Pow2(7) == 128;
  }

  /** A carry that is lost: the greatest number below 2 with 12 fraction bits comes out as 1 in 16 bits. */
  lemma CarryIsLost()
    ensures var f := 8191.0 / 4096.0;
            && FLOAT16.Valid() && RawSignificand(f, FLOAT16) == 1024 && Exponent(f, FLOAT16) == 15
            && CarryLost(f, FLOAT16) && !WithinBound(f, FLOAT16)
            && Pack(f, FLOAT16) == Pack(1.0, FLOAT16) && Unpack(Pack(f, FLOAT16), FLOAT16) == 1.0
  {
    Sixteenth();
    var f, L := 8191.0 / 4096.0, FLOAT16;
    assert Scale(f, 0) == f;
    NormalUnique(Form(f, 0));
    assert Normal(f) == Form(f, 0);
    var scaled := (f - 1.0) * (1024.0 + 0.5);
    assert 1024.0 <= scaled < 1025.0;
    assert Significand(f - 1.0, L) == 1024;
    hide Normal, Pow2, Significand, Pack, Unpack, WithinBound;
    ErrorBound(f, L);
    JoinedWord(f, L);
    OneIsWhole();
    FormEncodes(1.0, 15, 0, L);
    CodeZero(0, 15, 0, L);
  }

  lemma OneIsWhole()
    ensures FLOAT16.Valid() && HasForm(1.0, 15, 0, FLOAT16)
  {
    Sixteenth();
    ScaleZero(0 - 10);
    assert Scale(1.0, 0) == 1.0;
  }

  /** Where single precision swallows the half, in 32 and 64 bits, no significand carries. */
  lemma CarryNeedsHalf(f: real, L: Layout)
    requires L.Valid() && f != 0.0 && L.half == 0.0
    ensures RawSignificand(f, L) < Pow2(L.SigBits()) && !CarryLost(f, L)
  {
    hide Scale, Normal, Significand, Pow2;
    var frac := Normal(Abs(f)).mantissa - 1.0;
    SignificandIs(frac, L);
    assert Excess(frac, L) == 0.0;
  }

  /** So in 32 and 64 bits the bound holds for every number in range whose word does not vanish. */
  lemma WideFormatsKeepBound(f: real)
    requires f != 0.0
    ensures FLOAT32.Valid() && FLOAT64.Valid()
    ensures InRange(f, FLOAT32) ==> (WithinBound(f, FLOAT32) <==> !Vanishes(f, FLOAT32))
    ensures InRange(f, FLOAT64) ==> (WithinBound(f, FLOAT64) <==> !Vanishes(f, FLOAT64))
  {
    hide InRange, WithinBound, Vanishes, CarryLost, Normal, Pow2;
    if InRange(f, FLOAT32) {
      InRangeNotZero(f, FLOAT32);
      ErrorBound(f, FLOAT32);
      CarryNeedsHalf(f, FLOAT32);
    }
    if InRange(f, FLOAT64) {
      InRangeNotZero(f, FLOAT64);
      ErrorBound(f, FLOAT64);
      CarryNeedsHalf(f, FLOAT64);
    }
  }

  lemma InRangeNotZero(f: real, L: Layout)
    requires L.Valid() && InRange(f, L)
    ensures f != 0.0
  {
  }

  lemma RoundingBounds(f: real, L: Layout)
    requires L.Valid() && f != 0.0
    ensures RawSignificand(f, L) <= Pow2(L.SigBits()) && Pow2(L.SigBits()) >= 2
    ensures -1.0 < (Pow2(L.SigBits()) + RawSignificand(f, L)) as real - InUlps(f, L) <= 0.5
    ensures CarryLost(f, L) ==> InUlps(f, L) - Pow2(L.SigBits()) as real >= 1.0
    ensures InUlps(f, L) >= 1.0
  {
    hide Scale, Normal, Significand, Excess, Exponent;
    var frac := Normal(Abs(f)).mantissa - 1.0;
    SignificandIs(frac, L);
    ScaleSum(1.0, frac, L.SigBits());
    ScaleIsProduct(1.0, L.SigBits());
    Pow2Monotone(1, L.SigBits());
  }

  lemma DecodedInUlps(f: real, L: Layout)
    requires L.Valid() && InRange(f, L)
    ensures Abs(Unpack(Pack(f, L), L)) == Scale(DecodedUlps(f, L), Normal(Abs(f)).shift - L.SigBits())
  {
    hide Normal, Significand, Join, Pow2, Pack, Unpack, Scale, RawSignificand;
    var s, e, G := Normal(Abs(f)).shift, Exponent(f, L), RawSignificand(f, L);
    JoinedWord(f, L);
    RoundingBounds(f, L);
    ScaleZero(s - L.SigBits());
    var d, g := JoinedExp(e, G, L), JoinedSig(G, L);
    if !Vanishes(f, L) {
      FieldsInUlps(d, g, L);
      if d != e {
        ScaleInside(Pow2(L.SigBits()) as real, s - L.SigBits());
        ScaleStep(Pow2(L.SigBits()) as real, s - L.SigBits());
      }
    }
  }

  lemma FieldsInUlps(e: nat, g: nat, L: Layout)
    requires L.Valid()
    ensures FieldsForm(e, g, L).Value()
         == Scale((Pow2(L.SigBits()) + g) as real, e - L.Bias() - L.SigBits())
  {
    hide Scale, Pow2;
    var k: int, s: int := L.SigBits(), e - L.Bias();
    ScaleIsProduct(1.0, k);
    ScaleTwice(1.0, k, 0 - k);
    assert Scale(1.0, 0) == 1.0 by {
      ScaleIsProduct(1.0, 0);
      assert Pow2(0) == 1 by {
        ScaleAtZero();
      }
    }
    ScaleSum(Pow2(k) as real, g as real, 0 - k);
    ScaleTwice((Pow2(k) + g) as real, 0 - k, s);
  }

  lemma ScaleAtZero()
    ensures Pow2(0) == 1
  {
  }

  /** The fields that a number in range is given, and what they decode to. */
  lemma JoinedWord(f: real, L: Layout)
    requires L.Valid() && InRange(f, L)
    ensures var d, g := JoinedExp(Exponent(f, L), RawSignificand(f, L), L), JoinedSig(RawSignificand(f, L), L);
            && Pack(f, L) == Code(SignOf(f), d, g, L)
            && Abs(Unpack(Pack(f, L), L)) == if Vanishes(f, L) then 0.0 else FieldsForm(d, g, L).Value()
  {
    hide Normal, Significand, Join, Pow2, Form.Value;
    var e, G := Exponent(f, L), RawSignificand(f, L);
    RoundingBounds(f, L);
    JoinInRange(SignOf(f), e, G, L);
    var d, g := JoinedExp(e, G, L), JoinedSig(G, L);
    CodeFields(SignOf(f), d, g, L);
    CodeZero(SignOf(f), d, g, L);
    assert Pack(f, L) == Code(SignOf(f), d, g, L);
    if !Vanishes(f, L) {
      DecodedForm(Pack(f, L), L);
    }
  }

  // ---------------------------------------------------------------------
  // Order
  // ---------------------------------------------------------------------

  /** Non-negative words decode in the order of the words. */
  lemma UnpackIncreasing(i: nat, j: nat, L: Layout)
    requires L.Valid() && i < j < Pow2(L.bits - 1)
    ensures 0.0 <= Unpack(i, L) < Unpack(j, L)
  {
    hide Normal, Form.Value, Pow2, Shr, Low;
    DecodedForm(j, L);
    FieldOrder(i, j, L);
    if i != 0 {
      DecodedForm(i, L);
      MagnitudeOrder(ExpField(i, L), SigField(i, L), ExpField(j, L), SigField(j, L), L);
    }
  }

  lemma MagnitudeOrder(e: nat, g: nat, d: nat, h: nat, L: Layout)
    requires L.Valid() && g < Pow2(L.SigBits()) && h < Pow2(L.SigBits())
    requires e < d || (e == d && g < h)
    ensures FieldsForm(e, g, L).Value() < FieldsForm(d, h, L).Value()
  {
    SignificandExact(e, g, L);
    SignificandExact(d, h, L);
    hide Scale, Pow2, Significand;
    if e < d {
      FormsOrdered(FieldsForm(e, g, L), FieldsForm(d, h, L));
    } else {
      ScaleOrder(g as real, h as real, 0 - L.SigBits());
      ScaleOrder(FieldsForm(e, g, L).mantissa, FieldsForm(d, h, L).mantissa, e - L.Bias());
    }
  }

  lemma FieldOrder(i: nat, j: nat, L: Layout)
    requires L.Valid() && i < j < Pow2(L.bits - 1)
    ensures SignField(i, L) == 0 && SignField(j, L) == 0
    ensures ExpField(i, L) < ExpField(j, L) || (ExpField(i, L) == ExpField(j, L) && SigField(i, L) < SigField(j, L))
  {
    hide Shl, Shr, Low;
    var k := L.SigBits();
    OneBit(0, L);
    LowSmall(i, L.bits - 1);
    LowSmall(j, L.bits - 1);
    WordIsCode(i, L);
    WordIsCode(j, L);
    CodeSplits(0, ExpField(i, L), SigField(i, L), L);
    CodeSplits(0, ExpField(j, L), SigField(j, L), L);
    if ExpField(j, L) < ExpField(i, L) {
      ShlMonotone(ExpField(j, L) + 1, ExpField(i, L), k);
      ShlAdd(ExpField(j, L), 1, k);
      ShlOne(k);
    }
  }
}
