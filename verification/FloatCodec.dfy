/**
 The codec between numbers and IEEE-754-shaped words of pack2.c and pack2b.c.

 `long double` is an exact real here. A word is a natural number; the fields
 are a sign bit, `expbits` bits of biased exponent and the significand bits, as
 in section 3.4 of IEEE 754-2008, but every exponent field is an ordinary one:
 the program has no subnormals, infinities or NaNs, and the word 0 is zero.
 */
module FloatCodec {
  import opened Bits

  /**
   The two width arguments, and the constant that the significand factor adds to
   2^sigbits. The program writes it as 0.5f, so that the sum is formed in single
   precision: the half survives only while 2^sigbits + 0.5 fits 24 significand bits.
   Everything is proved for every constant between 0 and 0.5.
   */
  datatype Layout = Layout(bits: nat, expbits: nat, half: real) {
    predicate Valid() {
      1 <= expbits <= 31 && expbits + 2 <= bits <= 64 && 0.0 <= half <= 0.5
    }

    function SigBits(): (k: nat)
      requires Valid()
    {
      bits - expbits - 1
    }

    function Bias(): nat
      requires Valid()
    {
      Pow2(expbits - 1) - 1
    }
  }

  function HalfLeft(sigbits: nat): real {
    if sigbits <= 22 then 0.5 else 0.0
  }

  const FLOAT16 := Layout(16, 5, HalfLeft(10))
  const FLOAT32 := Layout(32, 8, HalfLeft(23))
  const FLOAT64 := Layout(64, 11, HalfLeft(52))

  function Abs(f: real): (a: real)
    ensures f != 0.0 ==> a > 0.0
  {
    if f < 0.0 then -f else f
  }

  function SignOf(f: real): nat {
    if f < 0.0 then 1 else 0
  }

  // ---------------------------------------------------------------------
  // Normalisation: bring a positive number into [1, 2), counting the shifts
  // ---------------------------------------------------------------------

  datatype Form = Form(mantissa: real, shift: int) {
    /** The number that the form stands for. */
    function Value(): real {
      Scale(mantissa, shift)
    }
  }

  function Halve(x: Form): Form
    decreases x.mantissa.Floor
  {
    if x.mantissa >= 2.0 then Halve(Form(x.mantissa / 2.0, x.shift + 1)) else x
  }

  function Double(x: Form): Form
    requires x.mantissa > 0.0
    decreases (1.0 / x.mantissa).Floor
  {
    if x.mantissa < 1.0 then
      InverseHalves(x.mantissa);
      Double(Form(x.mantissa * 2.0, x.shift - 1))
    else x
  }

  /** Doubling a number below one strictly lowers the floor of its inverse. */
  lemma InverseHalves(x: real)
    requires 0.0 < x < 1.0
    ensures 0 <= (1.0 / (x * 2.0)).Floor < (1.0 / x).Floor
  {
    var y := 1.0 / x;
    assert y * x == 1.0;
    assert y > 1.0;
    QuotientIs(1.0, x * 2.0, y / 2.0);
  }

  lemma QuotientIs(a: real, b: real, q: real)
    requires b != 0.0 && q * b == a
    ensures a / b == q
  {
  }

  lemma {:induction false} HalveKeeps(x: Form)
    requires x.mantissa > 0.0
    ensures 0.0 < Halve(x).mantissa < 2.0 && Halve(x).Value() == x.Value()
    decreases x.mantissa.Floor
  {
    if x.mantissa >= 2.0 {
      HalveKeeps(Form(x.mantissa / 2.0, x.shift + 1));
      ScaleStep(x.mantissa / 2.0, x.shift);
      ScaleInside(x.mantissa / 2.0, x.shift);
    }
  }

  lemma {:induction false} DoubleKeeps(x: Form)
    requires 0.0 < x.mantissa < 2.0
    ensures 1.0 <= Double(x).mantissa < 2.0 && Double(x).Value() == x.Value()
    decreases (1.0 / x.mantissa).Floor
  {
    if x.mantissa < 1.0 {
      InverseHalves(x.mantissa);
      DoubleKeeps(Form(x.mantissa * 2.0, x.shift - 1));
      ScaleStep(x.mantissa, x.shift - 1);
      ScaleInside(x.mantissa, x.shift - 1);
    }
  }

  /** The mantissa in [1, 2) and the exponent of a positive number. */
  function Normal(x: real): (n: Form)
    requires x > 0.0
    ensures 1.0 <= n.mantissa < 2.0 && n.Value() == x
  {
    HalveKeeps(Form(x, 0));
    DoubleKeeps(Halve(Form(x, 0)));
    Double(Halve(Form(x, 0)))
  }

  lemma FormsOrdered(a: Form, b: Form)
    requires 1.0 <= a.mantissa < 2.0 && 1.0 <= b.mantissa && a.shift < b.shift
    ensures a.Value() < b.Value()
  {
    ScaleOrder(a.mantissa, 2.0, a.shift);
    ScaleInside(1.0, a.shift);
    ScaleGrows(1.0, a.shift, b.shift);
    ScaleOrder(1.0, b.mantissa, b.shift);
  }

  /** A normal form is unique, so the loops compute the one there is. */
  lemma NormalUnique(a: Form)
    requires 1.0 <= a.mantissa < 2.0
    ensures a.Value() > 0.0 && Normal(a.Value()) == a
  {
    ScaleZero(a.shift);
    ScaleOrder(0.0, a.mantissa, a.shift);
    var b := Normal(a.Value());
    if a.shift < b.shift {
      FormsOrdered(a, b);
    } else if b.shift < a.shift {
      FormsOrdered(b, a);
    } else {
      ScaleOrder(a.mantissa, b.mantissa, a.shift);
    }
  }

  // ---------------------------------------------------------------------
  // Packing
  // ---------------------------------------------------------------------

  lemma ProductSign(x: real, y: real)
    requires x >= 0.0 && y >= 0.0
    ensures x * y >= 0.0
  {
  }

  /** The significand of 1 + frac; the program truncates, and frac is not negative. */
  function Significand(frac: real, L: Layout): (g: nat)
    requires L.Valid() && frac >= 0.0
  {
    ProductSign(frac, Pow2(L.SigBits()) as real + L.half);
    var scaled := frac * (Pow2(L.SigBits()) as real + L.half);
    scaled.Floor
  }

  /** The three fields shifted into place in a 64-bit word and joined by OR. */
  function Join(sign: nat, exp: int, significand: nat, L: Layout): nat
    requires L.Valid()
  {
    BitOr(BitOr(Low(Shl(sign, L.bits - 1), 64), Low(Shl(exp, L.SigBits()), 64)), significand)
  }

  function Pack(f: real, L: Layout): nat
    requires L.Valid()
  {
    if f == 0.0 then 0
    else
      var n := Normal(Abs(f));
      Join(SignOf(f), n.shift + L.Bias(), Significand(n.mantissa - 1.0, L), L)
  }

  /** The two normalisation loops of pack754. */
  method Normalize(f: real) returns (fnorm: real, shift: int)
    requires f > 0.0
    ensures Form(fnorm, shift) == Normal(f)
  {
    fnorm, shift := f, 0;
    while fnorm >= 2.0
      invariant fnorm > 0.0 && Halve(Form(fnorm, shift)) == Halve(Form(f, 0))
      decreases fnorm.Floor
    {
      fnorm, shift := fnorm / 2.0, shift + 1;
    }
    while fnorm < 1.0
      invariant fnorm > 0.0 && Double(Form(fnorm, shift)) == Normal(f)
      decreases (1.0 / fnorm).Floor
    {
      InverseHalves(fnorm);
      fnorm, shift := fnorm * 2.0, shift - 1;
    }
  }

  method Pack754(f: real, L: Layout) returns (code: nat)
    requires L.Valid()
    ensures code == Pack(f, L)
  {
    hide Normal, Significand, Join;
    if f == 0.0 {
      return 0;
    }
    var sign, fnorm, shift;
    if f < 0.0 {
      sign, fnorm := 1, -f;
    } else {
      sign, fnorm := 0, f;
    }
    fnorm, shift := Normalize(fnorm);
    fnorm := fnorm - 1.0;
    var significand := Significand(fnorm, L);
    var exp := shift + L.Bias();
    code := Join(sign, exp, significand, L);
  }

  // ---------------------------------------------------------------------
  // Unpacking
  // ---------------------------------------------------------------------

  function SigField(i: nat, L: Layout): (g: nat)
    requires L.Valid()
  {
    Low(i, L.SigBits())
  }

  function ExpField(i: nat, L: Layout): (e: nat)
    requires L.Valid()
  {
    Low(Shr(i, L.SigBits()), L.expbits)
  }

  function SignField(i: nat, L: Layout): (s: nat)
    requires L.Valid()
  {
    Low(Shr(i, L.bits - 1), 1)
  }

  /** The magnitude of a word with these fields. */
  function FieldsForm(e: nat, g: nat, L: Layout): Form
    requires L.Valid()
  {
    Form(Scale(g as real, 0 - L.SigBits()) + 1.0, e - L.Bias())
  }

  function Unpack(i: nat, L: Layout): real
    requires L.Valid()
  {
    if i == 0 then 0.0
    else
      var magnitude := FieldsForm(ExpField(i, L), SigField(i, L), L).Value();
      if SignField(i, L) == 1 then -magnitude else magnitude
  }

  method Unpack754(i: nat, L: Layout) returns (result: real)
    requires L.Valid()
    ensures result == Unpack(i, L)
  {
    hide Low, Shr, Pow2, SigField, ExpField, SignField;
    if i == 0 {
      return 0.0;
    }
    result := SigField(i, L) as real;
    ScaleIsQuotient(result, L.SigBits());
    result := result / Pow2(L.SigBits()) as real;
    result := result + 1.0;
    var shift := ExpField(i, L) - L.Bias();
    ghost var value := Scale(result, shift);
    while shift > 0
      invariant Scale(result, shift) == value
      decreases shift
    {
      ScaleInside(result, shift - 1);
      result, shift := result * 2.0, shift - 1;
    }
    while shift < 0
      invariant shift <= 0
      invariant Scale(result, shift) == value
      decreases -shift
    {
      ScaleInside(result / 2.0, shift);
      ScaleStep(result / 2.0, shift);
      result, shift := result / 2.0, shift + 1;
    }
    if SignField(i, L) == 1 {
      result := -result;
    }
  }
}
