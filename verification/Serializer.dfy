/**
 The format-driven serializer: `pack` and `unpack` of pack2.c, and of the fixed-width
 variant pack2b.c. A format character names a field; `pack` ignores all others, and
 `unpack` reads digits as a maximum for the string field that follows them.
 */
module Serializer {
  import opened Bits
  import opened FloatCodec
  import opened Options
  import opened Text

  type byte = b: int | 0 <= b < 256

  datatype Dialect = Pack2 | Pack2b

  datatype Field =
    | Int(width: nat, signed: bool)
    | Float(layout: Layout)
    | Str

  /** An argument of pack, or what unpack stores. `bytes` is the memory of a C string up to its end. */
  datatype Value =
    | IntV(i: int)
    | FloatV(f: real)
    | StrV(bytes: seq<byte>)

  /** The format characters of the two programs. */
  function FieldOf(d: Dialect, c: char): (k: Option<Field>)
    ensures k.Some? ==> WellFormed(k.value)
    ensures '0' <= c <= '9' ==> k.None?
  {
    match d
    case Pack2 =>
      if c == 'c' then Some(Int(1, true))
      else if c == 'C' then Some(Int(1, false))
      else if c == 'h' then Some(Int(2, true))
      else if c == 'H' then Some(Int(2, false))
      else if c == 'l' then Some(Int(4, true))
      else if c == 'L' then Some(Int(4, false))
      else if c == 'q' then Some(Int(8, true))
      else if c == 'Q' then Some(Int(8, false))
      else if c == 'f' then Some(Float(FLOAT16))
      else if c == 'd' then Some(Float(FLOAT32))
      else if c == 'g' then Some(Float(FLOAT64))
      else if c == 's' then Some(Str)
      else None
    case Pack2b =>
      if c == 'c' then Some(Int(1, true))
      else if c == 'h' then Some(Int(2, true))
      else if c == 'l' then Some(Int(4, true))
      else if c == 'L' then Some(Int(8, true))
      else if c == 'f' then Some(Float(FLOAT32))
      else if c == 'F' then Some(Float(FLOAT64))
      else if c == 's' then Some(Str)
      else None
  }

  predicate WellFormed(k: Field) {
    match k
    case Int(w, _) => 1 <= w <= 8
    case Float(L) => L.Valid() && L.bits % 8 == 0
    case Str => true
  }

  // ---------------------------------------------------------------------
  // Integers as bytes
  // ---------------------------------------------------------------------

  function Octet(i: nat): (b: byte) {
    assert Pow2(8) == 256;
    Low(i, 8)
  }

  /** The w low bytes of i, most significant first. */
  function BigEndian(i: nat, w: nat): (s: seq<byte>)
    ensures |s| == w
    decreases w
  {
    if w == 0 then [] else BigEndian(Shr(i, 8), w - 1) + [Octet(i)]
  }

  /** The bytes shifted into place and joined by OR. */
  function Unsigned(s: seq<byte>): nat {
    if s == [] then 0
    else
      var high := Unsigned(s[..|s| - 1]);
      ShlNat(high, 8);
      BitOr(Shl(high, 8), s[|s| - 1])
  }

  /** The two's complement reading of a w-byte number, as the programs compute it. */
  function Signed(u: nat, w: nat): int
    requires w > 0
  {
    if u < Pow2(8 * w - 1) then u else -1 - (Pow2(8 * w) - 1 - u)
  }

  // ---------------------------------------------------------------------
  // Encoding
  // ---------------------------------------------------------------------

  predicate Matches(k: Field, v: Value) {
    match k
    case Int(_, _) => v.IntV?
    case Float(_) => v.FloatV?
    case Str => v.StrV?
  }

  function EncodeField(k: Field, v: Value): seq<byte>
    requires WellFormed(k) && Matches(k, v)
  {
    match k
    case Int(w, _) => BigEndian(Low(v.i, 8 * w), w)
    case Float(L) => BigEndian(Low(Pack(v.f, L), L.bits), L.bits / 8)
    case Str =>
      var t := UpTo(v.bytes, 0);
      BigEndian(|t|, 2) + t
  }

  /** The arguments are the ones the format asks for: the contract of a variadic call. */
  predicate Matched(d: Dialect, format: string, args: seq<Value>) {
    if format == "" then args == []
    else match FieldOf(d, format[0])
      case None => Matched(d, format[1..], args)
      case Some(k) => args != [] && Matches(k, args[0]) && Matched(d, format[1..], args[1..])
  }

  function Encode(d: Dialect, format: string, args: seq<Value>): seq<byte>
    requires Matched(d, format, args)
  {
    if format == "" then []
    else match FieldOf(d, format[0])
      case None => Encode(d, format[1..], args)
      case Some(k) => EncodeField(k, args[0]) + Encode(d, format[1..], args[1..])
  }

  // ---------------------------------------------------------------------
  // Decoding
  // ---------------------------------------------------------------------

  datatype Read = Read(value: Value, size: nat) | Overrun

  /** pack2b reads floats through a signed word that is then widened to 64 bits. */
  function FloatWord(d: Dialect, s: seq<byte>): nat
    requires s != []
  {
    if d == Pack2 then Unsigned(s) else Low(Signed(Unsigned(s), |s|), 64)
  }

  /** pack2b reads the length of a string back as a signed number. */
  function StringLength(d: Dialect, s: seq<byte>): int
    requires |s| == 2
  {
    if d == Pack2 then Unsigned(s) else Signed(Unsigned(s), 2)
  }

  /**
   How many bytes of a string of length `len` are stored when the format said `max`. With the
   terminator they keep within the maximum unless the length equals it.
   */
  function StoredCount(len: nat, max: nat): (n: nat)
    ensures n <= len
    ensures max > 0 ==> (n + 1 <= max <==> len != max)
  {
    if max > 0 && len > max then max - 1 else len
  }

  /** One field; Overrun when it is not wholly in the buffer, where the programs read on regardless. */
  function DecodeField(d: Dialect, k: Field, buf: seq<byte>, max: nat): Read
    requires WellFormed(k)
  {
    match k
    case Int(w, signed) =>
      if |buf| < w then Overrun
      else
        var u := Unsigned(buf[..w]);
        Read(IntV(if signed then Signed(u, w) else u), w)
    case Float(L) =>
      var w := L.bits / 8;
      if |buf| < w then Overrun
      else Read(FloatV(Unpack(FloatWord(d, buf[..w]), L)), w)
    case Str =>
      if |buf| < 2 then Overrun
      else
        var len := StringLength(d, buf[..2]);
        if len < 0 || |buf| < 2 + len then Overrun
        else Read(StrV(buf[2..2 + StoredCount(len, max)]), 2 + len)
  }

  predicate IsDigit(c: char) {
    '0' <= c <= '9'
  }

  /** The running maximum after one more digit; unsigned 32-bit in pack2, where it wraps. */
  function NextMax(d: Dialect, max: nat, c: char): nat
    requires IsDigit(c)
  {
    var m := max * 10 + (c as int - '0' as int);
    if d == Pack2 then m % 0x1_0000_0000 else m
  }

  /** The values that unpack stores, and how many bytes it walks over. */
  function Decode(d: Dialect, format: string, buf: seq<byte>, max: nat): Option<(seq<Value>, nat)>
    decreases |format|
  {
    if format == "" then Some(([], 0))
    else match FieldOf(d, format[0])
      case None => Decode(d, format[1..], buf, if IsDigit(format[0]) then NextMax(d, max, format[0]) else 0)
      case Some(k) =>
        var r := DecodeField(d, k, buf, max);
        if r.Overrun? || r.size > |buf| then None
        else match Decode(d, format[1..], buf[r.size..], 0)
          case None => None
          case Some((vs, n)) => Some(([r.value] + vs, r.size + n))
  }

  // ---------------------------------------------------------------------
  // The two programs
  // ---------------------------------------------------------------------

  /** packi16, packi32 and packi64: byte j is i >> 8*(w-1-j). */
  method StoreInt(buf: array<byte>, at: nat, i: nat, w: nat)
    requires at + w <= buf.Length
    modifies buf
    ensures buf[..] == old(buf[..at]) + BigEndian(i, w) + old(buf[at + w..])
  {
    hide *;
    for j := 0 to w
      invariant buf[..] == old(buf[..at]) + BigEndian(i, w)[..j] + old(buf[at + j..])
    {
      ByteAt(i, w, j);
      buf[at + j] := Octet(Shr(i, 8 * (w - 1 - j)));
    }
    assert BigEndian(i, w)[..w] == BigEndian(i, w);
  }

  lemma {:induction false} ByteAt(i: nat, w: nat, j: nat)
    requires j < w
    ensures BigEndian(i, w)[j] == Octet(Shr(i, 8 * (w - 1 - j)))
    decreases w
  {
    if j < w - 1 {
      ByteAt(Shr(i, 8), w - 1, j);
      ShrTwice(i, 8, 8 * (w - 2 - j));
      assert 8 + 8 * (w - 2 - j) == 8 * (w - 1 - j);
    } else {
      assert Shr(i, 0) == i;
    }
  }

  method StoreBytes(buf: array<byte>, at: nat, s: seq<byte>)
    requires at + |s| <= buf.Length
    modifies buf
    ensures buf[..] == old(buf[..at]) + s + old(buf[at + |s|..])
  {
    for j := 0 to |s|
      invariant buf[..] == old(buf[..at]) + s[..j] + old(buf[at + j..])
    {
      buf[at + j] := s[j];
    }
    assert s[..|s|] == s;
  }

  method StoreField(buf: array<byte>, at: nat, k: Field, v: Value) returns (n: nat)
    requires WellFormed(k) && Matches(k, v)
    requires at + |EncodeField(k, v)| <= buf.Length
    modifies buf
    ensures n == |EncodeField(k, v)|
    ensures buf[..] == old(buf[..at]) + EncodeField(k, v) + old(buf[at + n..])
  {
    hide BigEndian, Low, Pack, Pow2, UpTo;
    match k {
      case Int(w, _) =>
        StoreInt(buf, at, Low(v.i, 8 * w), w);
        n := w;
      case Float(L) =>
        var code := Pack754(v.f, L);
        StoreInt(buf, at, Low(code, L.bits), L.bits / 8);
        n := L.bits / 8;
      case Str =>
        n := StoreString(buf, at, UpTo(v.bytes, 0));
    }
  }

  /** The length in two bytes, then the bytes. */
  method StoreString(buf: array<byte>, at: nat, t: seq<byte>) returns (n: nat)
    requires at + 2 + |t| <= buf.Length
    modifies buf
    ensures n == 2 + |t|
    ensures buf[..] == old(buf[..at]) + (BigEndian(|t|, 2) + t) + old(buf[at + n..])
  {
    hide *;
    StoreInt(buf, at, |t|, 2);
    ghost var middle := buf[..];
    StoreBytes(buf, at + 2, t);
    n := |t| + 2;
    Spliced(old(buf[..]), at, BigEndian(|t|, 2), t, middle);
  }

  /** Two stores one after the other are one store of both. */
  lemma Spliced(before: seq<byte>, at: nat, s: seq<byte>, t: seq<byte>, middle: seq<byte>)
    requires at + |s| + |t| <= |before|
    requires middle == before[..at] + s + before[at + |s|..]
    ensures middle[..at + |s|] + t + middle[at + |s| + |t|..]
         == before[..at] + (s + t) + before[at + |s| + |t|..]
  {
    assert middle[..at + |s|] == before[..at] + s;
  }

  /** pack: the caller's buffer holds the encoding, nothing else changes, and the size is returned. */
  method PackFormat(d: Dialect, buf: array<byte>, format: string, args: seq<Value>) returns (size: nat)
    requires Matched(d, format, args)
    requires |Encode(d, format, args)| <= buf.Length
    modifies buf
    ensures size == |Encode(d, format, args)|
    ensures buf[..] == Encode(d, format, args) + old(buf[..])[size..]
  {
    hide *;
    size := 0;
    var a := 0;
    ghost var done: seq<byte>, initial := [], buf[..];
    for i := 0 to |format|
      invariant a <= |args| && Matched(d, format[i..], args[a..])
      invariant done + Encode(d, format[i..], args[a..]) == Encode(d, format, args)
      invariant size == |done| && buf[..] == done + initial[size..]
    {
      EncodeStep(d, format[i..], args[a..]);
      assert format[i..][1..] == format[i + 1..];
      match FieldOf(d, format[i]) {
        case None =>
        case Some(k) =>
          assert args[a..][1..] == args[a + 1..];
          ghost var code := EncodeField(k, args[a]);
          assert done + (code + Encode(d, format[i + 1..], args[a + 1..])) == Encode(d, format, args);
          Advanced(buf[..], done, code, initial);
          var n := StoreField(buf, size, k, args[a]);
          done := done + code;
          size, a := size + n, a + 1;
      }
    }
    assert format[|format|..] == "";
    EncodeEmpty(d, args[a..]);
    assert done + [] == done;
  }

  lemma Advanced(current: seq<byte>, done: seq<byte>, code: seq<byte>, initial: seq<byte>)
    requires |done| + |code| <= |initial| && current == done + initial[|done|..]
    ensures current[..|done|] + code + current[|done| + |code|..] == done + code + initial[|done| + |code|..]
  {
  }

  lemma EncodeEmpty(d: Dialect, args: seq<Value>)
    requires Matched(d, "", args)
    ensures Encode(d, "", args) == []
  {
  }

  lemma EncodeStep(d: Dialect, format: string, args: seq<Value>)
    requires Matched(d, format, args) && format != ""
    ensures match FieldOf(d, format[0])
            case None => Matched(d, format[1..], args) && Encode(d, format, args) == Encode(d, format[1..], args)
            case Some(k) =>
              && args != [] && WellFormed(k) && Matches(k, args[0]) && Matched(d, format[1..], args[1..])
              && Encode(d, format, args) == EncodeField(k, args[0]) + Encode(d, format[1..], args[1..])
  {
  }

  /** unpack: the values stored, or failure where the buffer ends inside a field. */
  method UnpackFormat(d: Dialect, buf: array<byte>, format: string) returns (ok: bool, out: seq<Value>)
    ensures var r := Decode(d, format, buf[..], 0);
            if ok then r.Some? && r.value.0 == out else r == None
  {
    hide FieldOf, DecodeField, NextMax, Decode;
    ok, out := true, [];
    var at: nat, max: nat := 0, 0;
    ghost var bytes := buf[..];
    for i := 0 to |format|
      invariant at <= buf.Length && ok
      invariant Continues(Decode(d, format, bytes, 0), out, Decode(d, format[i..], bytes[at..], max))
    {
      assert format[i..][1..] == format[i + 1..];
      DecodeStep(d, format[i..], bytes[at..], max);
      match FieldOf(d, format[i]) {
        case None =>
          max := if IsDigit(format[i]) then NextMax(d, max, format[i]) else 0;
        case Some(k) =>
          assert bytes[at..] == buf[at..];
          var r := LoadField(d, k, buf, at, max);
          if r.Overrun? || r.size > buf.Length - at {
            ok := false;
            return;
          }
          assert bytes[at..][r.size..] == bytes[at + r.size..];
          Continued(Decode(d, format, bytes, 0), out, r, Decode(d, format[i + 1..], bytes[at + r.size..], 0));
          out, at, max := out + [r.value], at + r.size, 0;
      }
    }
    DecodeStep(d, "", bytes[at..], max);
  }

  /** `whole` decodes to what was stored so far followed by what the rest decodes to. */
  ghost predicate Continues(whole: Option<(seq<Value>, nat)>, out: seq<Value>, rest: Option<(seq<Value>, nat)>) {
    if rest.None? then whole.None? else whole.Some? && whole.value.0 == out + rest.value.0
  }

  lemma Continued(whole: Option<(seq<Value>, nat)>, out: seq<Value>, r: Read, rest: Option<(seq<Value>, nat)>)
    requires r.Read?
    requires Continues(whole, out, if rest.None? then None else Some(([r.value] + rest.value.0, r.size + rest.value.1)))
    ensures Continues(whole, out + [r.value], rest)
  {
    if rest.Some? {
      assert out + ([r.value] + rest.value.0) == out + [r.value] + rest.value.0;
    }
  }

  lemma DecodeStep(d: Dialect, format: string, buf: seq<byte>, max: nat)
    ensures format == "" ==> Decode(d, format, buf, max) == Some(([], 0))
    ensures format != "" ==>
              match FieldOf(d, format[0])
              case None =>
                Decode(d, format, buf, max)
                == Decode(d, format[1..], buf, if IsDigit(format[0]) then NextMax(d, max, format[0]) else 0)
              case Some(k) =>
                && WellFormed(k)
                && var r := DecodeField(d, k, buf, max);
                   Decode(d, format, buf, max)
                   == if r.Overrun? || r.size > |buf| then None
                      else
                        var rest := Decode(d, format[1..], buf[r.size..], 0);
                        if rest.None? then None else Some(([r.value] + rest.value.0, r.size + rest.value.1))
  {
  }

  method LoadField(d: Dialect, k: Field, buf: array<byte>, at: nat, max: nat) returns (r: Read)
    requires WellFormed(k) && at <= buf.Length
    ensures r == DecodeField(d, k, buf[at..], max)
  {
    match k
    case Int(w, signed) =>
      if buf.Length - at < w {
        return Overrun;
      }
      assert buf[at..][..w] == buf[at..at + w];
      var u := Unsigned(buf[at..at + w]);
      return Read(IntV(if signed then Signed(u, w) else u), w);
    case Float(L) =>
      var w := L.bits / 8;
      if buf.Length - at < w {
        return Overrun;
      }
      assert buf[at..][..w] == buf[at..at + w];
      var f := Unpack754(FloatWord(d, buf[at..at + w]), L);
      return Read(FloatV(f), w);
    case Str =>
      if buf.Length - at < 2 {
        return Overrun;
      }
      assert buf[at..][..2] == buf[at..at + 2];
      var len := StringLength(d, buf[at..at + 2]);
      if len < 0 || buf.Length - at < 2 + len {
        return Overrun;
      }
      var count := StoredCount(len, max);
      assert buf[at..][2..2 + count] == buf[at + 2..at + 2 + count];
      return Read(StrV(buf[at + 2..at + 2 + count]), 2 + len);
  }
}
