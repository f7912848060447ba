/**
 The serializer's promises: `unpack` undoes `pack` for exactly the arguments that fit
 their fields, `pack` undoes `unpack` for exactly the buffers whose strings hold no NUL,
 and a maximum in front of a string changes that string only.
 */
module SerializerLaws {
  import opened Bits
  import opened Decimals
  import opened FloatCodec
  import opened FloatCodecLaws
  import opened Options
  import opened Serializer
  import opened Text

  // ---------------------------------------------------------------------
  // Integers and their bytes
  // ---------------------------------------------------------------------

  lemma LowAtZero(i: nat)
    ensures Low(i, 0) == 0
  {
  }

  lemma {:induction false} UnsignedBigEndian(i: nat, w: nat)
    ensures Unsigned(BigEndian(i, w)) == Low(i, 8 * w)
    decreases w
  {
    hide Low, Shl, BitOr, Shr, Pow2;
    if w == 0 {
      LowAtZero(i);
    } else {
      var s := BigEndian(i, w);
      assert s[..w - 1] == BigEndian(Shr(i, 8), w - 1);
      UnsignedBigEndian(Shr(i, 8), w - 1);
      OrDisjoint(Unsigned(s[..w - 1]), 8, s[w - 1]);
      LowSplit(i, 8, 8 * (w - 1));
    }
  }

  lemma {:induction false} BigEndianUnsigned(s: seq<byte>)
    ensures BigEndian(Unsigned(s), |s|) == s && Unsigned(s) < Pow2(8 * |s|)
    decreases |s|
  {
    hide Low, Shl, BitOr, Shr, Pow2, Octet;
    if s != [] {
      var n := |s| - 1;
      BigEndianUnsigned(s[..n]);
      OneOctet(Unsigned(s[..n]), s[n], n);
      assert BigEndian(Unsigned(s), n + 1) == s[..n] + [s[n]];
    }
  }

  lemma OneOctet(high: nat, last: byte, w: nat)
    requires high < Pow2(8 * w)
    ensures Shl(high, 8) >= 0
    ensures var u := BitOr(Shl(high, 8), last);
            u < Pow2(8 * (w + 1)) && Shr(u, 8) == high && Octet(u) == last
  {
    assert Pow2(8) == 256;
    hide Low, Shl, BitOr, Shr, Pow2;
    OrDisjoint(high, 8, last);
    Fields(high, 8, last);
    OctetBound(high, last, 8 * w);
  }

  lemma OctetBound(high: nat, last: byte, k: nat)
    requires high < Pow2(k)
    ensures Shl(high, 8) + last < Pow2(k + 8)
  {
    assert Pow2(8) == 256;
    hide Shl, Pow2;
    ShlMonotone(high + 1, Pow2(k), 8);
    ShlAdd(high, 1, 8);
    ShlOne(8);
    ShlPow2(k, 8);
  }

  /** What a field of w bytes can hold. */
  predicate InField(i: int, w: nat, signed: bool)
    requires w > 0
  {
    if signed then 0 - Pow2(8 * w - 1) <= i < Pow2(8 * w - 1) else 0 <= i < Pow2(8 * w)
  }

  /** A number comes back from its field exactly when it is in the field's range. */
  lemma IntSurvives(i: int, w: nat, signed: bool)
    requires w > 0
    ensures var u := Low(i, 8 * w);
            (if signed then Signed(u, w) else u) == i <==> InField(i, w, signed)
  {
    hide Low, Shl;
    assert Pow2(8 * w) == 2 * Pow2(8 * w - 1);
    if 0 <= i < Pow2(8 * w) {
      LowSmall(i, 8 * w);
    } else if 0 - Pow2(8 * w) <= i < 0 {
      LowShift(i, 1, 8 * w);
      ShlOne(8 * w);
      LowSmall(i + Pow2(8 * w), 8 * w);
    }
  }

  // ---------------------------------------------------------------------
  // Floats
  // ---------------------------------------------------------------------

  /** The bits above a word's width play no part unless the word itself is zero. */
  lemma HighBitsIgnored(i: nat, L: Layout)
    requires L.Valid() && (Low(i, L.bits) == 0 ==> i == 0)
    ensures Unpack(i, L) == Unpack(Low(i, L.bits), L)
  {
    hide Low, Shr, Form.Value, FieldsForm;
    var k := L.SigBits();
    FieldOfLow(i, k, L.expbits);
    FieldOfLow(Low(i, L.bits), k, L.expbits);
    LowTwice(i, k, L.bits);
    LowTwice(i, k + L.expbits, L.bits);
    FieldOfLow(i, L.bits - 1, 1);
    LowSmall(0, L.bits);
  }

  lemma SignExtension(u: nat, bits: nat)
    requires u < Pow2(bits) && bits <= 64
    ensures Low(Low(u - Pow2(bits), 64), bits) == u
    ensures Low(u, 64) == u
  {
    hide Low, Shl, Pow2;
    LowTwice(u - Pow2(bits), bits, 64);
    LowShift(u - Pow2(bits), 1, bits);
    ShlOne(bits);
    LowSmall(u, bits);
    Pow2Monotone(bits, 64);
    LowSmall(u, 64);
  }

  /** Widening the signed word, as pack2b does, decodes to the same number. */
  lemma WidenedWord(d: Dialect, s: seq<byte>, L: Layout)
    requires WellFormed(Float(L)) && |s| == L.bits / 8
    ensures Unpack(FloatWord(d, s), L) == Unpack(Unsigned(s), L)
  {
    hide Low, Shl, Unpack, Unsigned, Pow2, BigEndian;
    var u := Unsigned(s);
    BigEndianUnsigned(s);
    SignExtension(u, L.bits);
    if FloatWord(d, s) != u {
      assert FloatWord(d, s) == Low(u - Pow2(L.bits), 64);
      HighBitsIgnored(Low(u - Pow2(L.bits), 64), L);
    }
  }

  // ---------------------------------------------------------------------
  // The format characters
  // ---------------------------------------------------------------------

  ghost predicate Carries(d: Dialect, c: char, lo: int, hi: int) {
    var k := FieldOf(d, c);
    k.Some? && k.value.Int? && forall i :: lo <= i <= hi <==> InField(i, k.value.width, k.value.signed)
  }

  predicate CarriesFloat(d: Dialect, c: char, bits: nat, expbits: nat) {
    var k := FieldOf(d, c);
    k.Some? && k.value.Float? && k.value.layout.bits == bits && k.value.layout.expbits == expbits
  }

  lemma Powers()
    ensures Pow2(7) == 0x80 && Pow2(8) == 0x100 && Pow2(15) == 0x8000 && Pow2(16) == 0x1_0000
    ensures Pow2(31) == 0x8000_0000 && Pow2(32) == 0x1_0000_0000
    ensures Pow2(63) == 0x8000_0000_0000_0000 && Pow2(64) == 0x1_0000_0000_0000_0000
  {
    assert Pow2(12) == 0x1000;
    assert Pow2(20) == 0x10_0000;
    assert Pow2(28) == 0x1000_0000;
    assert Pow2(36) == 0x10_0000_0000;
    assert Pow2(44) == 0x1000_0000_0000;
    assert Pow2(52) == 0x10_0000_0000_0000;
    assert Pow2(60) == 0x1000_0000_0000_0000;
  }

  /** The numbers that each format character of pack2 can carry. */
  lemma Pack2Characters()
    ensures Carries(Pack2, 'c', -0x80, 0x7f) && Carries(Pack2, 'C', 0, 0xff)
    ensures Carries(Pack2, 'h', -0x8000, 0x7fff) && Carries(Pack2, 'H', 0, 0xffff)
    ensures Carries(Pack2, 'l', -0x8000_0000, 0x7fff_ffff) && Carries(Pack2, 'L', 0, 0xffff_ffff)
    ensures Carries(Pack2, 'q', -0x8000_0000_0000_0000, 0x7fff_ffff_ffff_ffff)
    ensures Carries(Pack2, 'Q', 0, 0xffff_ffff_ffff_ffff)
    ensures CarriesFloat(Pack2, 'f', 16, 5) && CarriesFloat(Pack2, 'd', 32, 8) && CarriesFloat(Pack2, 'g', 64, 11)
    ensures forall c :: FieldOf(Pack2, c) == Some(Str) <==> c == 's'
    ensures forall c :: FieldOf(Pack2, c).Some? <==> c in "cChHlLqQfdgs"
  {
    Powers();
    hide Pow2;
  }

  /** And those of pack2b, which has no unsigned ones. */
  lemma Pack2bCharacters()
    ensures Carries(Pack2b, 'c', -0x80, 0x7f) && Carries(Pack2b, 'h', -0x8000, 0x7fff)
    ensures Carries(Pack2b, 'l', -0x8000_0000, 0x7fff_ffff)
    ensures Carries(Pack2b, 'L', -0x8000_0000_0000_0000, 0x7fff_ffff_ffff_ffff)
    ensures CarriesFloat(Pack2b, 'f', 32, 8) && CarriesFloat(Pack2b, 'F', 64, 11)
    ensures forall c :: FieldOf(Pack2b, c) == Some(Str) <==> c == 's'
    ensures forall c :: FieldOf(Pack2b, c).Some? <==> c in "chlLfFs"
  {
    Powers();
    hide Pow2;
  }

  // ---------------------------------------------------------------------
  // pack, then unpack
  // ---------------------------------------------------------------------

  /** The longest string whose length the variant reads back. */
  function LongestString(d: Dialect): nat {
    if d == Pack2 then 65535 else 32767
  }

  /** The argument is one that its field can carry, under a maximum for strings (0: none). */
  ghost predicate Fits(d: Dialect, k: Field, v: Value, max: nat)
    requires WellFormed(k) && Matches(k, v)
  {
    match k
    case Int(w, signed) => InField(v.i, w, signed)
    case Float(L) => Representable(v.f, L)
    case Str => 0 !in v.bytes && |v.bytes| <= LongestString(d) && (max == 0 || |v.bytes| <= max)
  }

  ghost predicate AllFit(d: Dialect, format: string, args: seq<Value>, max: nat)
    requires Matched(d, format, args)
    decreases |format|
  {
    if format == "" then true
    else match FieldOf(d, format[0])
      case None => AllFit(d, format[1..], args, if IsDigit(format[0]) then NextMax(d, max, format[0]) else 0)
      case Some(k) => Fits(d, k, args[0], max) && AllFit(d, format[1..], args[1..], 0)
  }

  lemma Sixteen()
    ensures Pow2(15) == 32768 && Pow2(16) == 65536
  {
    assert Pow2(8) == 256;
    assert Pow2(11) == 2048;
    assert Pow2(14) == 16384;
  }

  lemma StringLengthBytes(d: Dialect, n: nat)
    ensures var len := StringLength(d, BigEndian(n, 2));
            && len <= LongestString(d) && len <= n
            && (len == n <==> n <= LongestString(d))
  {
    Sixteen();
    hide Low, Pow2, BigEndian, Unsigned;
    UnsignedBigEndian(n, 2);
    if n < 65536 {
      LowSmall(n, 16);
    }
  }

  lemma IntRoundTrip(d: Dialect, w: nat, signed: bool, i: int, rest: seq<byte>, max: nat)
    requires WellFormed(Int(w, signed))
    ensures var r := DecodeField(d, Int(w, signed), EncodeField(Int(w, signed), IntV(i)) + rest, max);
            && r.Read? && r.size == w
            && (r.value == IntV(i) <==> InField(i, w, signed))
  {
    hide BigEndian, Low, Unsigned;
    var s := BigEndian(Low(i, 8 * w), w);
    assert (s + rest)[..w] == s;
    UnsignedBigEndian(Low(i, 8 * w), w);
    LowTwice(i, 8 * w, 8 * w);
    IntSurvives(i, w, signed);
  }

  lemma FloatRoundTrip(d: Dialect, L: Layout, f: real, rest: seq<byte>, max: nat)
    requires WellFormed(Float(L))
    ensures var r := DecodeField(d, Float(L), EncodeField(Float(L), FloatV(f)) + rest, max);
            && r.Read? && r.size == L.bits / 8
            && (r.value == FloatV(f) <==> Representable(f, L))
  {
    hide BigEndian, Low, Unsigned, Pack, Unpack, Representable;
    var w := L.bits / 8;
    var s := BigEndian(Low(Pack(f, L), L.bits), w);
    assert (s + rest)[..w] == s;
    UnsignedBigEndian(Low(Pack(f, L), L.bits), w);
    LowTwice(Pack(f, L), L.bits, L.bits);
    assert Unsigned(s) == Low(Pack(f, L), L.bits);
    WidenedWord(d, s, L);
    UnpackPack(f, L);
  }

  lemma StrRoundTrip(d: Dialect, bytes: seq<byte>, rest: seq<byte>, max: nat)
    ensures var r := DecodeField(d, Str, EncodeField(Str, StrV(bytes)) + rest, max);
            && (Fits(d, Str, StrV(bytes), max) ==> r == Read(StrV(bytes), |bytes| + 2))
            && (r.Read? && r.value == StrV(bytes) ==> Fits(d, Str, StrV(bytes), max))
  {
    hide BigEndian, StringLength;
    var t := UpTo(bytes, 0);
    var s := BigEndian(|t|, 2);
    assert (s + t + rest)[..2] == s;
    StringLengthBytes(d, |t|);
    var len := StringLength(d, s);
    if len >= 0 {
      assert (s + t + rest)[2..2 + StoredCount(len, max)] == t[..StoredCount(len, max)];
    }
  }

  /** A number out of its field's range comes back as the one in range with the same low bits. */
  lemma IntWraps(d: Dialect, w: nat, signed: bool, i: int, rest: seq<byte>, max: nat)
    requires WellFormed(Int(w, signed))
    ensures var r := DecodeField(d, Int(w, signed), EncodeField(Int(w, signed), IntV(i)) + rest, max);
            && r.Read? && r.value.IntV? && InField(r.value.i, w, signed)
            && Low(r.value.i, 8 * w) == Low(i, 8 * w)
  {
    hide BigEndian, Low, Unsigned;
    var u, s := Low(i, 8 * w), BigEndian(Low(i, 8 * w), w);
    assert (s + rest)[..w] == s;
    UnsignedBigEndian(u, w);
    LowTwice(i, 8 * w, 8 * w);
    assert Pow2(8 * w) == 2 * Pow2(8 * w - 1);
    SignedLow(u, w);
  }

  /** A string is written up to its first NUL. */
  lemma NulEndsString(bytes: seq<byte>, t: seq<byte>)
    requires t <= bytes && 0 !in t && (t == bytes || bytes[|t|] == 0)
    ensures EncodeField(Str, StrV(bytes)) == EncodeField(Str, StrV(t))
  {
    UpToIs(bytes, 0, t);
  }

  /** All of it is written, behind its length modulo 2^16, however long it is. */
  lemma LongStringLayout(t: seq<byte>)
    requires 0 !in t
    ensures var s := EncodeField(Str, StrV(t));
            |s| == 2 + |t| && s[2..] == t && Unsigned(s[..2]) == Low(|t|, 16)
  {
    hide Low, BigEndian, Unsigned;
    UnsignedBigEndian(|t|, 2);
    assert (BigEndian(|t|, 2) + t)[..2] == BigEndian(|t|, 2);
  }

  lemma FieldRoundTrip(d: Dialect, k: Field, v: Value, rest: seq<byte>, max: nat)
    requires WellFormed(k) && Matches(k, v)
    ensures var r := DecodeField(d, k, EncodeField(k, v) + rest, max);
            && (Fits(d, k, v, max) ==> r == Read(v, |EncodeField(k, v)|))
            && (r.Read? && r.value == v ==> Fits(d, k, v, max))
  {
    hide DecodeField, Fits, EncodeField;
    match k
    case Int(w, signed) =>
      IntRoundTrip(d, w, signed, v.i, rest, max);
      EncodedSize(k, v);
      IntFits(d, k, v, max);
    case Float(L) =>
      FloatRoundTrip(d, L, v.f, rest, max);
      EncodedSize(k, v);
      IntFits(d, k, v, max);
    case Str =>
      StrRoundTrip(d, v.bytes, rest, max);
      EncodedSize(k, v);
      IntFits(d, k, v, max);
  }

  lemma EncodedSize(k: Field, v: Value)
    requires WellFormed(k) && Matches(k, v)
    ensures |EncodeField(k, v)|
         == match k
            case Int(w, _) => w
            case Float(L) => L.bits / 8
            case Str => |UpTo(v.bytes, 0)| + 2
  {
  }

  lemma IntFits(d: Dialect, k: Field, v: Value, max: nat)
    requires WellFormed(k) && Matches(k, v)
    ensures Fits(d, k, v, max)
       <==> match k
            case Int(w, signed) => InField(v.i, w, signed)
            case Float(L) => Representable(v.f, L)
            case Str => 0 !in v.bytes && |v.bytes| <= LongestString(d) && (max == 0 || |v.bytes| <= max)
    ensures k.Str? && Fits(d, k, v, max) ==> UpTo(v.bytes, 0) == v.bytes
  {
  }

  /**
   unpack of what pack wrote, with anything after it, returns the arguments and walks over
   exactly the bytes written, if and only if every argument fits its field.
   */
  lemma {:induction false} RoundTrip(d: Dialect, format: string, args: seq<Value>, rest: seq<byte>, max: nat)
    requires Matched(d, format, args)
    ensures AllFit(d, format, args, max)
        ==> Decode(d, format, Encode(d, format, args) + rest, max) == Some((args, |Encode(d, format, args)|))
    ensures !AllFit(d, format, args, max)
        ==> var r := Decode(d, format, Encode(d, format, args) + rest, max); r.None? || r.value.0 != args
    decreases |format|
  {
    hide FieldOf, DecodeField, EncodeField, Fits, Matches;
    if format == "" {
    } else if FieldOf(d, format[0]).None? {
      RoundTrip(d, format[1..], args, rest, if IsDigit(format[0]) then NextMax(d, max, format[0]) else 0);
    } else {
      var k := FieldOf(d, format[0]).value;
      var head, tail := EncodeField(k, args[0]), Encode(d, format[1..], args[1..]);
      assert head + tail + rest == head + (tail + rest);
      FieldRoundTrip(d, k, args[0], tail + rest, max);
      assert (head + (tail + rest))[|head|..] == tail + rest;
      RoundTrip(d, format[1..], args[1..], rest, 0);
      if Fits(d, k, args[0], max) {
        assert args == [args[0]] + args[1..];
      }
    }
  }

  // ---------------------------------------------------------------------
  // unpack, then pack
  // ---------------------------------------------------------------------

  lemma SignedLow(u: nat, w: nat)
    requires w > 0 && u < Pow2(8 * w)
    ensures Low(u, 8 * w) == u && Low(Signed(u, w), 8 * w) == u
  {
    hide Low, Shl, Pow2;
    LowSmall(u, 8 * w);
    LowShift(u - Pow2(8 * w), 1, 8 * w);
    ShlOne(8 * w);
  }

  /** A number read from a field is written back as the same bytes. */
  lemma NumberRestores(d: Dialect, k: Field, buf: seq<byte>, max: nat)
    requires WellFormed(k) && !k.Str? && DecodeField(d, k, buf, max).Read?
    ensures var r := DecodeField(d, k, buf, max);
            Matches(k, r.value) && r.size <= |buf| && EncodeField(k, r.value) == buf[..r.size]
  {
    hide Low, BigEndian, Unsigned, Signed, Pack, Unpack, FloatWord, Pow2;
    var r := DecodeField(d, k, buf, max);
    var s := buf[..r.size];
    BigEndianUnsigned(s);
    match k
    case Int(w, _) =>
      SignedLow(Unsigned(s), w);
    case Float(L) =>
      WidenedWord(d, s, L);
      PackUnpack(Unsigned(s), L);
      LowSmall(Unsigned(s), L.bits);
  }

  ghost predicate NulFree(v: Value) {
    v.StrV? ==> 0 !in v.bytes
  }

  lemma FieldRestores(d: Dialect, k: Field, buf: seq<byte>)
    requires WellFormed(k) && DecodeField(d, k, buf, 0).Read?
    ensures var r := DecodeField(d, k, buf, 0);
            && Matches(k, r.value) && r.size <= |buf| && |EncodeField(k, r.value)| <= r.size
            && (EncodeField(k, r.value) == buf[..r.size] <==> NulFree(r.value))
            && (!NulFree(r.value) ==> |EncodeField(k, r.value)| < r.size)
  {
    hide BigEndian, Unsigned, Signed, Pow2, Pack, Unpack, Low;
    if k.Str? {
      var r := DecodeField(d, k, buf, 0);
      LengthBytes(d, buf[..2]);
      assert buf[..r.size] == buf[..2] + r.value.bytes;
      assert |UpTo(r.value.bytes, 0)| == |r.value.bytes| <==> UpTo(r.value.bytes, 0) == r.value.bytes;
    } else {
      NumberRestores(d, k, buf, 0);
    }
  }

  lemma LengthBytes(d: Dialect, s: seq<byte>)
    requires |s| == 2 && StringLength(d, s) >= 0
    ensures BigEndian(StringLength(d, s), 2) == s
  {
    BigEndianUnsigned(s);
  }

  ghost predicate NoDigits(format: string) {
    forall c | c in format :: !IsDigit(c)
  }

  /**
   pack of what unpack stored restores the bytes that unpack walked over if and only if
   no decoded string holds a NUL; otherwise fewer bytes are written.
   */
  lemma {:induction false} Restores(d: Dialect, format: string, buf: seq<byte>)
    requires NoDigits(format) && Decode(d, format, buf, 0).Some?
    ensures var (vs, n) := Decode(d, format, buf, 0).value;
            && Matched(d, format, vs) && n <= |buf| && |Encode(d, format, vs)| <= n
            && (Encode(d, format, vs) == buf[..n] <==> forall v | v in vs :: NulFree(v))
  {
    hide FieldOf, DecodeField, EncodeField, Matches, NulFree;
    if format == "" {
    } else if FieldOf(d, format[0]).None? {
      Restores(d, format[1..], buf);
    } else {
      var k := FieldOf(d, format[0]).value;
      var r := DecodeField(d, k, buf, 0);
      FieldRestores(d, k, buf);
      Restores(d, format[1..], buf[r.size..]);
      var (ws, m) := Decode(d, format[1..], buf[r.size..], 0).value;
      var vs, n := [r.value] + ws, r.size + m;
      assert vs[1..] == ws;
      TwoParts(buf, r.size, m, EncodeField(k, r.value), Encode(d, format[1..], ws));
    }
  }

  lemma TwoParts(buf: seq<byte>, a: nat, b: nat, head: seq<byte>, tail: seq<byte>)
    requires a + b <= |buf| && |head| <= a && |tail| <= b
    ensures head + tail == buf[..a + b] <==> head == buf[..a] && tail == buf[a..][..b]
  {
    assert buf[..a + b] == buf[..a] + buf[a..][..b];
    if head + tail == buf[..a + b] {
      assert |head| == a && |tail| == b;
      assert head == (head + tail)[..a] && tail == (head + tail)[a..];
      assert buf[..a + b][..a] == buf[..a] && buf[..a + b][a..] == buf[a..][..b];
    }
  }

  // ---------------------------------------------------------------------
  // A maximum in front of a string
  // ---------------------------------------------------------------------

  /** The maximum that digits in front of an `s` stand for: 32 bits of it in pack2. */
  function MaxOf(d: Dialect, digits: string): nat
    requires AllDigits(digits)
  {
    if d == Pack2 then ParseDecimal(digits) % 0x1_0000_0000 else ParseDecimal(digits)
  }

  lemma MaxOfMore(d: Dialect, digits: string, c: char)
    requires AllDigits(digits) && IsDigit(c)
    ensures AllDigits(digits + [c]) && NextMax(d, MaxOf(d, digits), c) == MaxOf(d, digits + [c])
  {
    var all, x := digits + [c], c as int - '0' as int;
    assert all[..|all| - 1] == digits;
    if d == Pack2 {
      WrapsOnce(ParseDecimal(digits), x);
    }
  }

  lemma WrapsOnce(n: nat, x: nat)
    ensures ((n % 0x1_0000_0000) * 10 + x) % 0x1_0000_0000 == (10 * n + x) % 0x1_0000_0000
  {
    var q, r := n / 0x1_0000_0000, n % 0x1_0000_0000;
    var u, v := (r * 10 + x) / 0x1_0000_0000, (r * 10 + x) % 0x1_0000_0000;
    assert 10 * n + x == 0x1_0000_0000 * (10 * q + u) + v;
  }

  /** Digits in a format: what was read of them so far, and the rest. */
  lemma {:induction false} DigitRun(d: Dialect, done: string, digits: string, format: string, buf: seq<byte>)
    requires AllDigits(done) && AllDigits(digits)
    ensures AllDigits(done + digits)
    ensures Decode(d, digits + format, buf, MaxOf(d, done)) == Decode(d, format, buf, MaxOf(d, done + digits))
    decreases |digits|
  {
    hide MaxOf, NextMax;
    if digits == "" {
      assert digits + format == format && done + digits == done;
    } else {
      assert (digits + format)[1..] == digits[1..] + format;
      MaxOfMore(d, done, digits[0]);
      DigitRun(d, done + [digits[0]], digits[1..], format, buf);
      assert done + [digits[0]] + digits[1..] == done + digits;
      DecodeStep(d, digits + format, buf, MaxOf(d, done));
    }
  }

  /** How many fields a format names. */
  function FieldCount(d: Dialect, format: string): nat {
    if format == "" then 0
    else (if FieldOf(d, format[0]).Some? then 1 else 0) + FieldCount(d, format[1..])
  }

  /** A string longer than its maximum keeps its first max - 1 bytes, any other value all it has. */
  function Cut(v: Value, max: nat): Value {
    if v.StrV? && 0 < max < |v.bytes| then StrV(v.bytes[..max - 1]) else v
  }

  /** The same values but for the one at `at`, which is cut. */
  function CutAt(r: Option<(seq<Value>, nat)>, at: nat, max: nat): Option<(seq<Value>, nat)> {
    match r
    case None => None
    case Some((vs, n)) => if at < |vs| then Some((vs[at := Cut(vs[at], max)], n)) else None
  }

  /** What is stored of a string under a maximum, from what is stored of it without. */
  lemma CutField(d: Dialect, buf: seq<byte>, max: nat)
    ensures var r, q := DecodeField(d, Str, buf, 0), DecodeField(d, Str, buf, max);
            && (r.Overrun? <==> q.Overrun?)
            && (r.Read? ==> q == Read(Cut(r.value, max), r.size))
  {
    hide StringLength;
    if DecodeField(d, Str, buf, 0).Read? {
      var len := StringLength(d, buf[..2]);
      assert buf[2..2 + len][..StoredCount(len, max)] == buf[2..2 + StoredCount(len, max)];
    }
  }

  lemma CutString(d: Dialect, format: string, buf: seq<byte>, max: nat)
    ensures Decode(d, "s" + format, buf, max) == CutAt(Decode(d, "s" + format, buf, 0), 0, max)
  {
    assert ("s" + format)[1..] == format && FieldOf(d, 's') == Some(Str);
    CutField(d, buf, max);
    DecodeStep(d, "s" + format, buf, max);
    DecodeStep(d, "s" + format, buf, 0);
    hide FieldOf, DecodeField, Decode, Cut;
    var r := DecodeField(d, Str, buf, 0);
    if r.Read? && r.size <= |buf| {
      var t := Decode(d, format, buf[r.size..], 0);
      if t.Some? {
        assert ([r.value] + t.value.0)[0 := Cut(r.value, max)] == [Cut(r.value, max)] + t.value.0;
      }
    }
  }

  lemma MaximumAtStart(d: Dialect, digits: string, after: string, buf: seq<byte>)
    requires AllDigits(digits)
    ensures Decode(d, digits + ("s" + after), buf, 0)
         == CutAt(Decode(d, "s" + after, buf, 0), 0, MaxOf(d, digits))
  {
    assert "" + digits == digits && MaxOf(d, "") == 0;
    hide Decode, MaxOf, CutAt;
    DigitRun(d, "", digits, "s" + after, buf);
    CutString(d, after, buf, MaxOf(d, digits));
  }

  /**
   A decimal maximum in front of an `s` cuts that one string and changes nothing else: the
   other fields, the bytes walked over and the failure of the whole stay as they were.
   */
  lemma {:induction false} MaximumCutsOneString(
      d: Dialect, before: string, digits: string, after: string, buf: seq<byte>, max: nat)
    requires AllDigits(digits)
    requires if before == "" then max == 0 else !IsDigit(before[|before| - 1])
    ensures Decode(d, before + digits + "s" + after, buf, max)
         == CutAt(Decode(d, before + "s" + after, buf, max), FieldCount(d, before), MaxOf(d, digits))
    decreases |before|
  {
    hide FieldOf, DecodeField, MaxOf, AllDigits, Cut;
    if before == "" {
      assert before + digits + "s" + after == digits + ("s" + after);
      assert before + "s" + after == "s" + after;
      MaximumAtStart(d, digits, after, buf);
    } else {
      var with, without := before + digits + "s" + after, before + "s" + after;
      var rest := before[1..];
      assert with[1..] == rest + digits + "s" + after;
      assert without[1..] == rest + "s" + after;
      DecodeStep(d, with, buf, max);
      DecodeStep(d, without, buf, max);
      hide Decode;
      match FieldOf(d, before[0])
      case None =>
        MaximumCutsOneString(d, rest, digits, after, buf,
                             if IsDigit(before[0]) then NextMax(d, max, before[0]) else 0);
      case Some(k) =>
        var r := DecodeField(d, k, buf, max);
        if r.Read? && r.size <= |buf| {
          MaximumCutsOneString(d, rest, digits, after, buf[r.size..], 0);
          var t := Decode(d, without[1..], buf[r.size..], 0);
          if t.Some? && FieldCount(d, rest) < |t.value.0| {
            CutShifts(r.value, t.value.0, FieldCount(d, rest), MaxOf(d, digits));
          }
        }
    }
  }

  lemma CutShifts(v: Value, vs: seq<Value>, at: nat, max: nat)
    requires at < |vs|
    ensures ([v] + vs)[at + 1 := Cut(vs[at], max)] == [v] + vs[at := Cut(vs[at], max)]
    ensures ([v] + vs)[at + 1] == vs[at]
  {
  }

  /** A maximum that was printed into the format is the one that applies. */
  lemma PrintedMaximum(d: Dialect, n: nat)
    requires d == Pack2 ==> n < 0x1_0000_0000
    ensures MaxOf(d, Decimal(n)) == n
  {
    DecimalRoundTrip(n);
  }

  /** The field that is cut is there whenever the format decodes at all. */
  lemma {:induction false} CutFieldExists(d: Dialect, before: string, after: string, buf: seq<byte>, max: nat)
    requires Decode(d, before + "s" + after, buf, max).Some?
    ensures var vs := Decode(d, before + "s" + after, buf, max).value.0;
            FieldCount(d, before) < |vs| && vs[FieldCount(d, before)].StrV?
    decreases |before|
  {
    var format := before + "s" + after;
    if before == "" {
      assert format[0] == 's';
    } else {
      assert format[1..] == before[1..] + "s" + after;
      match FieldOf(d, before[0])
      case None =>
        CutFieldExists(d, before[1..], after, buf, if IsDigit(before[0]) then NextMax(d, max, before[0]) else 0);
      case Some(k) =>
        CutFieldExists(d, before[1..], after, buf[DecodeField(d, k, buf, max).size..], 0);
    }
  }
}
