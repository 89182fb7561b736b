/** Bytes on the wire: little-endian integers, windows of a buffer, and the shape every exact codec has. */
module Bytes {
  import opened Basics

  type Byte = x: int | 0 <= x < 0x100

  /** The kinds of I/O error the protocol crate reports. */
  datatype IoError = UnexpectedEof | InvalidData | InvalidInput

  type IoResult<+T> = Result<T, IoError>

  /** A decoded value and the number of bytes it took. */
  type Decoded<+T> = IoResult<(T, nat)>

  // ----- Little-endian integers ------------------------------------------------------------------

  function Pow256(width: nat): (p: int)
    ensures p > 0
  {
    if width == 0 then 1 else 0x100 * Pow256(width - 1)
  }

  /** `width` bytes of `n`, least significant first; higher digits are dropped, as an `as` cast does. */
  function Le(n: nat, width: nat): (s: seq<Byte>)
    ensures |s| == width
  {
    if width == 0 then [] else [n % 0x100] + Le(n / 0x100, width - 1)
  }

  function FromLe(s: seq<Byte>): (n: nat)
    ensures n < Pow256(|s|)
  {
    if s == [] then 0 else s[0] + 0x100 * FromLe(s[1..])
  }

  lemma {:induction false} FromLeOfLe(n: nat, width: nat)
    requires n < Pow256(width)
    ensures FromLe(Le(n, width)) == n
  {
    if width == 0 {
    } else {
      FromLeOfLe(n / 0x100, width - 1);
      assert Le(n, width)[1..] == Le(n / 0x100, width - 1);
    }
  }

  lemma {:induction false} LeOfFromLe(s: seq<Byte>)
    ensures Le(FromLe(s), |s|) == s
  {
    if s == [] {
    } else {
      var t := FromLe(s[1..]);
      LeOfFromLe(s[1..]);
      assert (s[0] + 0x100 * t) % 0x100 == s[0] && (s[0] + 0x100 * t) / 0x100 == t;
      assert s == [s[0]] + s[1..];
    }
  }

  /** The digits of base 256, least significant first, in the widths the protocol uses. */
  lemma LittleEndian(n: nat)
    ensures Le(n, 2) == [n % 0x100, n / 0x100 % 0x100]
    ensures Le(n, 4) == [n % 0x100, n / 0x100 % 0x100, n / 0x1_0000 % 0x100, n / 0x100_0000 % 0x100]
    ensures Le(n, 8) == Le(n, 4) + Le(n / 0x1_0000_0000, 4)
  {
    var a, b, c, d := n / 0x100, n / 0x1_0000, n / 0x100_0000, n / 0x1_0000_0000;
    assert a / 0x100 == b && b / 0x100 == c && c / 0x100 == d;
    hide Le;
    LeSteps(n, a, b, c, d, 0);
    LeSteps(n, a, b, c, d, 4);
  }

  /** Four digits written one after another. */
  lemma LeSteps(n: nat, a: nat, b: nat, c: nat, d: nat, w: nat)
    requires a == n / 0x100 && b == a / 0x100 && c == b / 0x100 && d == c / 0x100
    ensures Le(n, 2) == [n % 0x100, a % 0x100]
    ensures Le(n, 4 + w) == [n % 0x100, a % 0x100, b % 0x100, c % 0x100] + Le(d, w)
  {
    hide Le;
    LeStep(a, 0);
    LeStep(n, 1);
    LeStep(c, w);
    LeStep(b, w + 1);
    LeStep(a, w + 2);
    LeStep(n, w + 3);
  }

  lemma LeStep(n: nat, w: nat)
    ensures Le(n, w + 1) == [n % 0x100] + Le(n / 0x100, w)
  {
  }

  lemma Widths()
    ensures Pow256(1) == 0x100
    ensures Pow256(2) == 0x1_0000
    ensures Pow256(4) == 0x1_0000_0000
    ensures Pow256(8) == 0x1_0000_0000_0000_0000
  {
  }

  /** Two's complement of a 64-bit integer. */
  function Unsigned64(n: I64): (u: U64) {
    if n < 0 then n + 0x1_0000_0000_0000_0000 else n
  }

  function Signed64(u: U64): (n: I64)
    ensures Unsigned64(n) == u
    ensures forall m: I64 :: Unsigned64(m) == u ==> m == n
  {
    if u < 0x8000_0000_0000_0000 then u else u - 0x1_0000_0000_0000_0000
  }

  function Unsigned32(n: I32): (u: U32) {
    if n < 0 then n + 0x1_0000_0000 else n
  }

  function Signed32(u: U32): (n: I32)
    ensures Unsigned32(n) == u
    ensures forall m: I32 :: Unsigned32(m) == u ==> m == n
  {
    if u < 0x8000_0000 then u else u - 0x1_0000_0000
  }

  /** Both are the representative, in their width, of the number they stand for. */
  lemma TwosComplement(n: I64, m: I32)
    ensures (Unsigned64(n) - n) % 0x1_0000_0000_0000_0000 == 0
    ensures (Unsigned32(m) - m) % 0x1_0000_0000 == 0
  {
  }

  function FlagByte(b: bool): (x: Byte) {
    if b then 1 else 0
  }

  // ----- Windows of a buffer ---------------------------------------------------------------------

  /** `s` stands in `data` at offset `i`. */
  ghost predicate At(data: seq<Byte>, i: nat, s: seq<Byte>) {
    i + |s| <= |data| && data[i..i + |s|] == s
  }

  lemma AtConcat(data: seq<Byte>, i: nat, a: seq<Byte>, b: seq<Byte>)
    ensures At(data, i, a + b) <==> At(data, i, a) && At(data, i + |a|, b)
  {
    if i + |a| + |b| <= |data| {
      var w := data[i..i + |a| + |b|];
      assert w[..|a|] == data[i..i + |a|];
      assert w[|a|..] == data[i + |a|..i + |a| + |b|];
      assert (a + b)[..|a|] == a && (a + b)[|a|..] == b;
      if At(data, i, a) && At(data, i + |a|, b) {
        assert w == w[..|a|] + w[|a|..];
      }
    }
  }

  /** An integer stands at `i` exactly when reading its width there gives that integer. */
  lemma AtLe(data: seq<Byte>, i: nat, n: nat, width: nat)
    requires n < Pow256(width)
    ensures At(data, i, Le(n, width)) <==> i + width <= |data| && FromLe(data[i..i + width]) == n
  {
    FromLeOfLe(n, width);
    if i + width <= |data| {
      LeOfFromLe(data[i..i + width]);
    }
  }

  /** A window only looks at the bytes it covers. */
  lemma AtShift(data: seq<Byte>, i: nat, j: nat, s: seq<Byte>)
    requires i <= |data|
    ensures At(data[i..], j, s) <==> At(data, i + j, s)
  {
  }

  lemma AtPrefix(data: seq<Byte>, s: seq<Byte>)
    ensures At(data, 0, s) <==> s <= data
  {
  }

  // ----- Reading one integer ---------------------------------------------------------------------

  function U16At(data: seq<Byte>, i: nat): (n: U16)
    requires i + 2 <= |data|
  {
    Widths();
    FromLe(data[i..i + 2])
  }

  function U32At(data: seq<Byte>, i: nat): (n: U32)
    requires i + 4 <= |data|
  {
    Widths();
    FromLe(data[i..i + 4])
  }

  function U64At(data: seq<Byte>, i: nat): (n: U64)
    requires i + 8 <= |data|
  {
    Widths();
    FromLe(data[i..i + 8])
  }

  /** `n` stands in the two bytes at `i` exactly when those bytes exist and read as `n`; likewise below. */
  lemma ReadU16(data: seq<Byte>, i: nat, n: U16)
    ensures At(data, i, Le(n, 2)) <==> i + 2 <= |data| && U16At(data, i) == n
  {
    Widths();
    AtLe(data, i, n, 2);
  }

  lemma ReadU32(data: seq<Byte>, i: nat, n: U32)
    ensures At(data, i, Le(n, 4)) <==> i + 4 <= |data| && U32At(data, i) == n
  {
    Widths();
    AtLe(data, i, n, 4);
  }

  lemma ReadU64(data: seq<Byte>, i: nat, n: U64)
    ensures At(data, i, Le(n, 8)) <==> i + 8 <= |data| && U64At(data, i) == n
  {
    Widths();
    AtLe(data, i, n, 8);
  }

  // ----- UTF-8 -----------------------------------------------------------------------------------

  predicate Tail(s: seq<Byte>, i: nat) {
    i < |s| && 0x80 <= s[i] <= 0xBF
  }

  /** Well-formed UTF-8, as section 4 of RFC 3629 spells it. */
  predicate IsUtf8(s: seq<Byte>)
    decreases |s|
  {
    if s == [] then true
    else if s[0] <= 0x7F then IsUtf8(s[1..])
    else if 0xC2 <= s[0] <= 0xDF then Tail(s, 1) && IsUtf8(s[2..])
    else if 0xE0 <= s[0] <= 0xEF then
      && Tail(s, 1) && Tail(s, 2)
      && (s[0] == 0xE0 ==> s[1] >= 0xA0) && (s[0] == 0xED ==> s[1] <= 0x9F)
      && IsUtf8(s[3..])
    else if 0xF0 <= s[0] <= 0xF4 then
      && Tail(s, 1) && Tail(s, 2) && Tail(s, 3)
      && (s[0] == 0xF0 ==> s[1] >= 0x90) && (s[0] == 0xF4 ==> s[1] <= 0x8F)
      && IsUtf8(s[4..])
    else false
  }

  /** A Unicode scalar value. */
  type Scalar = c: int | 0 <= c < 0x11_0000 && !(0xD800 <= c < 0xE000)

  /** Its UTF-8 encoding, as the table in section 3 of RFC 3629 lays out the bits. */
  function Utf8Char(c: Scalar): (s: seq<Byte>) {
    if c < 0x80 then [c]
    else if c < 0x800 then [0xC0 + c / 0x40, 0x80 + c % 0x40]
    else if c < 0x1_0000 then [0xE0 + c / 0x1000, 0x80 + c / 0x40 % 0x40, 0x80 + c % 0x40]
    else [0xF0 + c / 0x4_0000, 0x80 + c / 0x1000 % 0x40, 0x80 + c / 0x40 % 0x40, 0x80 + c % 0x40]
  }

  function Utf8(cs: seq<Scalar>): (s: seq<Byte>) {
    if cs == [] then [] else Utf8Char(cs[0]) + Utf8(cs[1..])
  }

  lemma CharThenMore(c: Scalar, rest: seq<Byte>)
    requires IsUtf8(rest)
    ensures IsUtf8(Utf8Char(c) + rest)
  {
    var head := Utf8Char(c);
    assert (head + rest)[|head|..] == rest;
    hide IsUtf8;
    if c < 0x800 {
      ShortThenMore(c, rest);
    } else if c < 0x1_0000 {
      ThreeThenMore(c, rest);
    } else {
      FourThenMore(c, rest);
    }
  }

  lemma ShortThenMore(c: Scalar, rest: seq<Byte>)
    requires c < 0x800 && IsUtf8(rest) && (Utf8Char(c) + rest)[|Utf8Char(c)|..] == rest
    ensures IsUtf8(Utf8Char(c) + rest)
  {
  }

  lemma ThreeThenMore(c: Scalar, rest: seq<Byte>)
    requires 0x800 <= c < 0x1_0000 && IsUtf8(rest) && (Utf8Char(c) + rest)[3..] == rest
    ensures IsUtf8(Utf8Char(c) + rest)
  {
  }

  lemma FourThenMore(c: Scalar, rest: seq<Byte>)
    requires 0x1_0000 <= c && IsUtf8(rest) && (Utf8Char(c) + rest)[4..] == rest
    ensures IsUtf8(Utf8Char(c) + rest)
  {
  }

  lemma {:induction false} Utf8IsValid(cs: seq<Scalar>)
    ensures IsUtf8(Utf8(cs))
  {
    if cs == [] {
    } else {
      Utf8IsValid(cs[1..]);
      CharThenMore(cs[0], Utf8(cs[1..]));
    }
  }

  /** Digits in base 64 read back from the number they make. */
  lemma Base64(d3: nat, d2: nat, d1: nat, d0: nat)
    requires d2 < 0x40 && d1 < 0x40 && d0 < 0x40
    ensures var c := d3 * 0x4_0000 + d2 * 0x1000 + d1 * 0x40 + d0;
      c % 0x40 == d0 && c / 0x40 % 0x40 == d1 && c / 0x1000 % 0x40 == d2 && c / 0x4_0000 == d3
  {
    var c := d3 * 0x4_0000 + d2 * 0x1000 + d1 * 0x40 + d0;
    assert c / 0x40 == d3 * 0x1000 + d2 * 0x40 + d1;
    assert c / 0x1000 == d3 * 0x40 + d2;
  }

  lemma CharOf1(s: seq<Byte>) returns (c: Scalar)
    requires IsUtf8(s) && s != [] && s[0] < 0x80
    ensures Utf8Char(c) == s[..1] && IsUtf8(s[1..])
  {
    c := s[0];
  }

  lemma CharOf2(s: seq<Byte>) returns (c: Scalar)
    requires IsUtf8(s) && s != [] && 0x80 <= s[0] < 0xE0
    ensures |s| >= 2 && Utf8Char(c) == s[..2] && IsUtf8(s[2..])
  {
    var d1, d0: int := s[0] - 0xC0, s[1] - 0x80;
    Base64(0, 0, d1, d0);
    c := d1 * 0x40 + d0;
  }

  lemma CharOf3(s: seq<Byte>) returns (c: Scalar)
    requires IsUtf8(s) && s != [] && 0xE0 <= s[0] < 0xF0
    ensures |s| >= 3 && Utf8Char(c) == s[..3] && IsUtf8(s[3..])
  {
    var d2, d1, d0: int := s[0] - 0xE0, s[1] - 0x80, s[2] - 0x80;
    Base64(0, d2, d1, d0);
    c := d2 * 0x1000 + d1 * 0x40 + d0;
  }

  lemma CharOf4(s: seq<Byte>) returns (c: Scalar)
    requires IsUtf8(s) && s != [] && 0xF0 <= s[0]
    ensures |s| >= 4 && Utf8Char(c) == s[..4] && IsUtf8(s[4..])
  {
    var d3, d2, d1, d0: int := s[0] - 0xF0, s[1] - 0x80, s[2] - 0x80, s[3] - 0x80;
    Base64(d3, d2, d1, d0);
    c := d3 * 0x4_0000 + d2 * 0x1000 + d1 * 0x40 + d0;
  }

  /** The first character of well-formed bytes. */
  lemma FirstChar(s: seq<Byte>) returns (c: Scalar)
    requires IsUtf8(s) && s != []
    ensures Utf8Char(c) <= s && IsUtf8(s[|Utf8Char(c)|..])
  {
    hide IsUtf8, Utf8Char;
    if s[0] < 0x80 {
      c := CharOf1(s);
    } else if s[0] < 0xE0 {
      c := CharOf2(s);
    } else if s[0] < 0xF0 {
      c := CharOf3(s);
    } else {
      c := CharOf4(s);
    }
  }

  lemma {:induction false} Utf8Chars(s: seq<Byte>) returns (cs: seq<Scalar>)
    requires IsUtf8(s)
    ensures Utf8(cs) == s
    decreases |s|
  {
    if s == [] {
      cs := [];
    } else {
      hide IsUtf8, Utf8Char;
      var c := FirstChar(s);
      var rest := Utf8Chars(s[|Utf8Char(c)|..]);
      cs := [c] + rest;
      assert cs[1..] == rest;
    }
  }

  /** Bytes are well-formed UTF-8 exactly when they encode some Unicode scalar values. */
  lemma Utf8Iff(s: seq<Byte>)
    ensures IsUtf8(s) <==> exists cs :: Utf8(cs) == s
  {
    hide IsUtf8, Utf8;
    if IsUtf8(s) {
      var cs := Utf8Chars(s);
    }
    forall cs | Utf8(cs) == s ensures IsUtf8(s) {
      Utf8IsValid(cs);
    }
  }

  /** A string, kept as its UTF-8 bytes. */
  type Text = s: seq<Byte> | IsUtf8(s)

  // ----- Exact codecs ----------------------------------------------------------------------------

  /**
   * A decoder is exact for an encoder when it accepts `k` bytes as `x` if and only if those bytes are
   * the encoding of `x`. This is the round trip, with trailing bytes, in both directions at once.
   */
  ghost predicate Exact<T(!new)>(enc: T -> IoResult<seq<Byte>>, dec: seq<Byte> -> Decoded<T>) {
    forall data, x, k {:trigger ExactAt(enc, dec, data, x, k)} :: ExactAt(enc, dec, data, x, k)
  }

  ghost predicate ExactAt<T>(
    enc: T -> IoResult<seq<Byte>>, dec: seq<Byte> -> Decoded<T>, data: seq<Byte>, x: T, k: nat)
  {
    dec(data) == Ok((x, k)) <==> enc(x).Ok? && k == |enc(x).value| && At(data, 0, enc(x).value)
  }

  /** An exact codec gives each value one encoding, and no encoding starts another one. */
  lemma ExactIsPrefixFree<T(!new)>(
    enc: T -> IoResult<seq<Byte>>, dec: seq<Byte> -> Decoded<T>, x: T, y: T)
    requires Exact(enc, dec)
    requires enc(x).Ok? && enc(y).Ok? && enc(x).value <= enc(y).value
    ensures x == y
  {
    var data := enc(y).value;
    assert ExactAt(enc, dec, data, x, |enc(x).value|);
    assert ExactAt(enc, dec, data, y, |data|);
  }

  /** An exact decoder rejects every encoding that was cut short. */
  lemma ExactRejectsTruncation<T(!new)>(
    enc: T -> IoResult<seq<Byte>>, dec: seq<Byte> -> Decoded<T>, x: T, n: nat)
    requires Exact(enc, dec)
    requires enc(x).Ok? && n < |enc(x).value|
    ensures dec(enc(x).value[..n]).Err?
  {
    var data := enc(x).value[..n];
    if dec(data).Ok? {
      var (y, k) := dec(data).value;
      assert ExactAt(enc, dec, data, y, k);
      assert enc(y).value <= enc(x).value;
      ExactIsPrefixFree(enc, dec, y, x);
    }
  }

  // ----- Lists of items --------------------------------------------------------------------------

  /** The items' encodings one after another; the first item that cannot be encoded is the error. */
  function EncodeMany<T>(enc: T -> IoResult<seq<Byte>>, xs: seq<T>): (r: IoResult<seq<Byte>>) {
    if xs == [] then Ok([])
    else
      match enc(xs[0])
      case Err(e) => Err(e)
      case Ok(head) =>
        match EncodeMany(enc, xs[1..])
        case Err(e) => Err(e)
        case Ok(tail) => Ok(head + tail)
  }

  /** Decodes `count` items standing one after another at the start of `data`. */
  function DecodeMany<T>(dec: seq<Byte> -> Decoded<T>, count: nat, data: seq<Byte>): (r: Decoded<seq<T>>) {
    if count == 0 then Ok(([], 0))
    else
      match dec(data)
      case Err(e) => Err(e)
      case Ok((x, k)) =>
        if k > |data| then Err(InvalidData)
        else
          match DecodeMany(dec, count - 1, data[k..])
          case Err(e) => Err(e)
          case Ok((xs, n)) => Ok(([x] + xs, k + n))
  }

  ghost predicate ManyExactAt<T>(
    enc: T -> IoResult<seq<Byte>>, dec: seq<Byte> -> Decoded<T>, count: nat, data: seq<Byte>, xs: seq<T>, k: nat)
  {
    DecodeMany(dec, count, data) == Ok((xs, k)) <==>
    && |xs| == count
    && EncodeMany(enc, xs).Ok?
    && k == |EncodeMany(enc, xs).value|
    && At(data, 0, EncodeMany(enc, xs).value)
  }

  /** Exact items make exact lists, once the number of items is known. */
  lemma {:induction false} ManyExact<T(!new)>(
    enc: T -> IoResult<seq<Byte>>, dec: seq<Byte> -> Decoded<T>, count: nat, data: seq<Byte>, xs: seq<T>, k: nat)
    requires Exact(enc, dec)
    ensures ManyExactAt(enc, dec, count, data, xs, k)
    decreases count
  {
    if count == 0 {
    } else {
      ManyAccepts(enc, dec, count, data, xs, k);
      if && |xs| == count && EncodeMany(enc, xs).Ok? && k == |EncodeMany(enc, xs).value|
         && At(data, 0, EncodeMany(enc, xs).value) {
        ManyYields(enc, dec, count, data, xs, k);
      }
    }
  }

  lemma {:induction false} ManyAccepts<T(!new)>(
    enc: T -> IoResult<seq<Byte>>, dec: seq<Byte> -> Decoded<T>, count: nat, data: seq<Byte>, xs: seq<T>, k: nat)
    requires Exact(enc, dec) && count > 0
    ensures DecodeMany(dec, count, data) == Ok((xs, k)) ==>
      && |xs| == count
      && EncodeMany(enc, xs).Ok?
      && k == |EncodeMany(enc, xs).value|
      && At(data, 0, EncodeMany(enc, xs).value)
    decreases count, 0
  {
    if DecodeMany(dec, count, data) == Ok((xs, k)) {
      var (x, n) := dec(data).value;
      assert ExactAt(enc, dec, data, x, n);
      ManyExact(enc, dec, count - 1, data[n..], xs[1..], k - n);
      var tail := EncodeMany(enc, xs[1..]).value;
      AtShift(data, n, 0, tail);
      AtConcat(data, 0, enc(x).value, tail);
    }
  }

  lemma {:induction false} ManyYields<T(!new)>(
    enc: T -> IoResult<seq<Byte>>, dec: seq<Byte> -> Decoded<T>, count: nat, data: seq<Byte>, xs: seq<T>, k: nat)
    requires Exact(enc, dec) && count > 0
    requires |xs| == count && EncodeMany(enc, xs).Ok?
    requires k == |EncodeMany(enc, xs).value| && At(data, 0, EncodeMany(enc, xs).value)
    ensures DecodeMany(dec, count, data) == Ok((xs, k))
    decreases count, 0
  {
    var head, tail := enc(xs[0]).value, EncodeMany(enc, xs[1..]).value;
    AtConcat(data, 0, head, tail);
    AtShift(data, |head|, 0, tail);
    assert ExactAt(enc, dec, data, xs[0], |head|);
    ManyExact(enc, dec, count - 1, data[|head|..], xs[1..], k - |head|);
    assert xs == [xs[0]] + xs[1..];
  }

  /** A counted list at an offset: decoding it gives `xs` exactly when the encoding of `xs` stands there. */
  lemma ListStands<T(!new)>(
    enc: T -> IoResult<seq<Byte>>, dec: seq<Byte> -> Decoded<T>, count: nat, data: seq<Byte>, i: nat, xs: seq<T>)
    requires Exact(enc, dec) && i <= |data|
    ensures DecodeMany(dec, count, data[i..]).Ok? && DecodeMany(dec, count, data[i..]).value.0 == xs <==>
      |xs| == count && EncodeMany(enc, xs).Ok? && At(data, i, EncodeMany(enc, xs).value)
  {
    if DecodeMany(dec, count, data[i..]).Ok? {
      var (ys, k) := DecodeMany(dec, count, data[i..]).value;
      ManyExact(enc, dec, count, data[i..], ys, k);
      AtShift(data, i, 0, EncodeMany(enc, ys).value);
    }
    if EncodeMany(enc, xs).Ok? {
      ManyExact(enc, dec, count, data[i..], xs, |EncodeMany(enc, xs).value|);
      AtShift(data, i, 0, EncodeMany(enc, xs).value);
    }
  }
}
