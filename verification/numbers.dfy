/** The fixed-width integer codecs of src/numbers.rs: unsigned and signed
    8-, 16-, 32- and 64-bit integers, big- and little-endian. */
module Numbers {
  import opened BinIo

  datatype Order = Big | Little

  /** The eight Rust integer types the codecs read and write. */
  datatype IntType = U8 | I8 | U16 | I16 | U32 | I32 | U64 | I64 {

    /** Width in bytes. */
    function Width(): nat {
      match this
      case U8 | I8 => 1
      case U16 | I16 => 2
      case U32 | I32 => 4
      case U64 | I64 => 8
    }

    predicate Signed() {
      I8? || I16? || I32? || I64?
    }

    /** The unsigned type of the same width. */
    function Unsigned(): IntType {
      match this
      case U8 | I8 => U8
      case U16 | I16 => U16
      case U32 | I32 => U32
      case U64 | I64 => U64
    }

    /** 2^(8 * width): the number of distinct bit patterns. */
    function Modulus(): (m: nat)
      ensures m == Pow256(Width())
    {
      assert Pow256(1) == 0x100;
      assert Pow256(2) == 0x1_0000;
      assert Pow256(4) == 0x1_0000_0000 by {
        assert Pow256(3) == 0x100_0000;
      }
      assert Pow256(8) == 0x1_0000_0000_0000_0000 by {
        assert Pow256(4) == 0x1_0000_0000 by {
          assert Pow256(3) == 0x100_0000;
        }
        assert Pow256(5) == 0x100_0000_0000;
        assert Pow256(6) == 0x1_0000_0000_0000;
        assert Pow256(7) == 0x100_0000_0000_0000;
      }
      match this
      case U8 | I8 => 0x100
      case U16 | I16 => 0x1_0000
      case U32 | I32 => 0x1_0000_0000
      case U64 | I64 => 0x1_0000_0000_0000_0000
    }

    /** Half the modulus: the least bit pattern with the sign bit set. */
    function Half(): (h: nat)
      ensures 2 * h == Modulus()
    {
      match this
      case U8 | I8 => 0x80
      case U16 | I16 => 0x8000
      case U32 | I32 => 0x8000_0000
      case U64 | I64 => 0x8000_0000_0000_0000
    }
  }

  function Pow256(n: nat): (r: nat)
    ensures r >= 1
  {
    if n == 0 then 1 else 256 * Pow256(n - 1)
  }

  lemma ModulusIsPow(t: IntType)
    ensures t.Modulus() == Pow256(t.Width())
  {
  }

  /** The values of type `t`: [0, 2^w) unsigned, [-2^(w-1), 2^(w-1)) signed. */
  predicate InRange(t: IntType, v: int) {
    if t.Signed() then -(t.Half() as int) <= v < t.Half() else 0 <= v < t.Modulus()
  }

  /** The number a byte sequence denotes, most significant byte first. */
  function BeValue(bs: seq<byte>): (r: nat)
    ensures r < Pow256(|bs|)
  {
    if bs == [] then 0 else BeValue(bs[..|bs| - 1]) * 256 + bs[|bs| - 1]
  }

  /** The `n` bytes of `v`, most significant byte first. */
  function BeBytes(v: nat, n: nat): (r: seq<byte>)
    requires v < Pow256(n)
    ensures |r| == n
  {
    if n == 0 then [] else BeBytes(v / 256, n - 1) + [v % 256]
  }

  function Reverse<X>(s: seq<X>): (r: seq<X>)
    ensures |r| == |s|
    ensures forall i :: 0 <= i < |s| ==> r[i] == s[|s| - 1 - i]
  {
    if s == [] then [] else Reverse(s[1..]) + [s[0]]
  }

  function OrderedValue(bs: seq<byte>, order: Order): nat {
    if order == Big then BeValue(bs) else BeValue(Reverse(bs))
  }

  function OrderedBytes(v: nat, n: nat, order: Order): seq<byte>
    requires v < Pow256(n)
  {
    if order == Big then BeBytes(v, n) else Reverse(BeBytes(v, n))
  }

  /** The value of type `t` whose bit pattern is `raw`: unchanged when
      unsigned, the two's-complement reading when signed. */
  function FromRaw(t: IntType, raw: nat): (r: int)
    requires raw < t.Modulus()
    ensures InRange(t, r)
  {
    if t.Signed() && raw >= t.Half() then raw - t.Modulus() else raw
  }

  /** The bit pattern of `v` as a `t`, reduced modulo 2^w as an `as` cast
      would; for an in-range `v` this is the identity or two's complement. */
  function ToRaw(t: IntType, v: int): (r: nat)
    ensures r < t.Modulus()
    ensures InRange(t, v) ==> FromRaw(t, r) == v
  {
    v % t.Modulus()
  }

  /** The codec of one integer type in one byte order: `auto_impl!` applied
      to `read_uN/read_iN` and `write_uN/write_iN` of that width. */
  function IntCodec(t: IntType, order: Order): (c: Codec<int>)
    ensures forall v :: |c.enc(v).bytes| == t.Width() && c.enc(v).status == Ok(())
    ensures forall bs :: c.dec(bs).Ok? <==> |bs| >= t.Width()
    ensures forall bs :: !c.dec(bs).Ok? ==> c.dec(bs) == Err(UnexpectedEof)
    ensures forall bs :: c.dec(bs).Ok? ==>
              c.dec(bs).value.rest == bs[t.Width()..] && InRange(t, c.dec(bs).value.value)
  {
    var w := t.Width();
    ModulusIsPow(t);
    Codec(
      bs => if |bs| < w then Err(UnexpectedEof)
            else Ok(Parsed(FromRaw(t, OrderedValue(bs[..w], order)), bs[w..])),
      v => Written(OrderedBytes(ToRaw(t, v), w, order), Ok(())))
  }

  function BeU8(): Codec<int> { IntCodec(U8, Big) }
  function BeI8(): Codec<int> { IntCodec(I8, Big) }
  function LeU8(): Codec<int> { IntCodec(U8, Little) }
  function LeI8(): Codec<int> { IntCodec(I8, Little) }
  function BeU16(): Codec<int> { IntCodec(U16, Big) }
  function BeI16(): Codec<int> { IntCodec(I16, Big) }
  function LeU16(): Codec<int> { IntCodec(U16, Little) }
  function LeI16(): Codec<int> { IntCodec(I16, Little) }
  function BeU32(): Codec<int> { IntCodec(U32, Big) }
  function BeI32(): Codec<int> { IntCodec(I32, Big) }
  function LeU32(): Codec<int> { IntCodec(U32, Little) }
  function LeI32(): Codec<int> { IntCodec(I32, Little) }
  function BeU64(): Codec<int> { IntCodec(U64, Big) }
  function BeI64(): Codec<int> { IntCodec(I64, Big) }
  function LeU64(): Codec<int> { IntCodec(U64, Little) }
  function LeI64(): Codec<int> { IntCodec(I64, Little) }

  // ---------------------------------------------------------------------
  // Positional arithmetic

  lemma {:induction false} BeValueOfBeBytes(v: nat, n: nat)
    requires v < Pow256(n)
    ensures BeValue(BeBytes(v, n)) == v
  {
    if n > 0 {
      var bs := BeBytes(v, n);
      assert bs[..n - 1] == BeBytes(v / 256, n - 1);
      BeValueOfBeBytes(v / 256, n - 1);
    }
  }

  lemma {:induction false} BeBytesOfBeValue(bs: seq<byte>)
    ensures BeBytes(BeValue(bs), |bs|) == bs
  {
    if bs != [] {
      var n := |bs|;
      var v := BeValue(bs);
      var init := bs[..n - 1];
      assert v / 256 == BeValue(init) && v % 256 == bs[n - 1];
      BeBytesOfBeValue(init);
      assert bs == init + [bs[n - 1]];
    }
  }

  lemma ReverseReverse<X>(s: seq<X>)
    ensures Reverse(Reverse(s)) == s
  {
    assert forall i :: 0 <= i < |s| ==> Reverse(Reverse(s))[i] == s[i];
  }

  lemma MulAtLeast(k: int, d: int)
    requires k >= 1 && d > 0
    ensures k * d >= d
  {
    assert k * d == (k - 1) * d + d;
    assert (k - 1) * d >= 0;
  }

  lemma DivUnique(x: int, d: int, q: int, r: int)
    requires d > 0 && 0 <= r < d && x == q * d + r
    ensures x / d == q && x % d == r
  {
    var q', r' := x / d, x % d;
    assert x == q' * d + r';
    assert q' * d - q * d == r - r';
    assert (q' - q) * d == q' * d - q * d;
    if q' > q {
      MulAtLeast(q' - q, d);
    } else if q' < q {
      MulAtLeast(q - q', d);
    }
  }

  lemma DivDiv(v: nat, a: nat, b: nat)
    requires a > 0 && b > 0
    ensures v / a / b == v / (a * b)
  {
    var q, r1 := v / a, v % a;
    var q2, r2 := q / b, q % b;
    assert v == q * a + r1;
    assert q == q2 * b + r2;
    assert q * a == (q2 * b + r2) * a;
    assert (q2 * b + r2) * a == q2 * b * a + r2 * a;
    assert q2 * b * a == q2 * (a * b);
    assert 0 <= r2 * a;
    assert r2 * a <= (b - 1) * a by { MulLe(r2, b - 1, a); }
    assert (b - 1) * a == a * b - a;
    DivUnique(v, a * b, q2, r2 * a + r1);
  }

  lemma MulLe(x: int, y: int, a: int)
    requires 0 <= x <= y && a >= 0
    ensures x * a <= y * a
  {
    assert y * a - x * a == (y - x) * a;
  }
  
  /** Byte `i` of the big-endian form of `v` is digit `n-1-i` of `v` in base
      256: the most significant byte comes first. */
  lemma {:induction false} BeBytesDigit(v: nat, n: nat, i: nat)
    requires v < Pow256(n) && i < n
    ensures BeBytes(v, n)[i] == (v / Pow256(n - 1 - i)) % 256
  {
    if i < n - 1 {
      BeBytesDigit(v / 256, n - 1, i);
      DivDiv(v, 256, Pow256(n - 2 - i));
    }
  }

  // ---------------------------------------------------------------------
  // Properties of the integer codecs

  /** Byte `i` of the `order` form of `raw`. */
  lemma OrderedBytesDigit(raw: nat, w: nat, order: Order, i: nat)
    requires raw < Pow256(w) && i < w
    ensures OrderedBytes(raw, w, order)[i] ==
              if order == Big then (raw / Pow256(w - 1 - i)) % 256 else (raw / Pow256(i)) % 256
  {
    if order == Big {
      BeBytesDigit(raw, w, i);
    } else {
      BeBytesDigit(raw, w, w - 1 - i);
    }
  }

  /** Encoding writes the width/8 base-256 digits of the value's bit
      pattern: most significant first big-endian, least significant first
      little-endian. */
  lemma IntEncodeDigits(t: IntType, order: Order, v: int, i: nat)
    requires i < t.Width()
    ensures IntCodec(t, order).enc(v).bytes[i] ==
              if order == Big then (ToRaw(t, v) / Pow256(t.Width() - 1 - i)) % 256
              else (ToRaw(t, v) / Pow256(i)) % 256
  {
    IntEncodeUnfold(t, order, v);
    OrderedBytesDigit(ToRaw(t, v), t.Width(), order, i);
  }

  /** The same value written little-endian is its big-endian form reversed. */
  lemma LittleIsReversedBig(t: IntType, v: int)
    ensures IntCodec(t, Little).enc(v).bytes == Reverse(IntCodec(t, Big).enc(v).bytes)
  {
  }

  /** Every in-range value survives a trip through its codec, whatever bytes
      follow it. */
  lemma IntRoundTrip(t: IntType, order: Order, v: int)
    requires InRange(t, v)
    ensures RoundTrips(IntCodec(t, order), v)
  {
    var raw := ToRaw(t, v);
    IntEncodeUnfold(t, order, v);
    forall rest: seq<byte>
      ensures IntCodec(t, order).dec(OrderedBytes(raw, t.Width(), order) + rest) == Ok(Parsed(v, rest))
    {
      IntDecodeOfBytes(t, order, raw, rest);
    }
  }

  /** Reading the bytes of a bit pattern gives the value with that pattern. */
  lemma IntDecodeOfBytes(t: IntType, order: Order, raw: nat, rest: seq<byte>)
    requires raw < Pow256(t.Width())
    ensures raw < t.Modulus()
    ensures IntCodec(t, order).dec(OrderedBytes(raw, t.Width(), order) + rest) == Ok(Parsed(FromRaw(t, raw), rest))
  {
    var w := t.Width();
    ModulusIsPow(t);
    var bytes := OrderedBytes(raw, w, order);
    BeValueOfBeBytes(raw, w);
    if order == Little {
      ReverseReverse(BeBytes(raw, w));
    }
    var bs := bytes + rest;
    IntDecodeUnfold(t, order, bs);
    assert bs[..w] == bytes && bs[w..] == rest;
  }

  lemma IntEncodeUnfold(t: IntType, order: Order, v: int)
    ensures ToRaw(t, v) < Pow256(t.Width())
    ensures IntCodec(t, order).enc(v) == Written(OrderedBytes(ToRaw(t, v), t.Width(), order), Ok(()))
  {
    ModulusIsPow(t);
  }

  /** Every width/8-byte pattern is read as some value, and writing that
      value reproduces the pattern. */
  lemma IntBytesRoundTrip(t: IntType, order: Order, bs: seq<byte>)
    requires |bs| == t.Width()
    ensures IntCodec(t, order).dec(bs).Ok?
    ensures IntCodec(t, order).enc(IntCodec(t, order).dec(bs).value.value).bytes == bs
  {
    var w := t.Width();
    IntDecodeUnfold(t, order, bs);
    assert bs[..w] == bs;
    var raw := OrderedValue(bs, order);
    ToRawOfFromRaw(t, raw);
    IntEncodeUnfold(t, order, FromRaw(t, raw));
    OrderedBytesOfValue(bs, order);
  }

  /** Reading bytes as a number in either order and writing the number
      back in the same order reproduces the bytes. */
  lemma OrderedBytesOfValue(bs: seq<byte>, order: Order)
    ensures OrderedValue(bs, order) < Pow256(|bs|)
    ensures OrderedBytes(OrderedValue(bs, order), |bs|, order) == bs
  {
    if order == Big {
      BeBytesOfBeValue(bs);
    } else {
      BeBytesOfBeValue(Reverse(bs));
      ReverseReverse(bs);
    }
  }

  lemma ToRawOfFromRaw(t: IntType, raw: nat)
    requires raw < t.Modulus()
    ensures ToRaw(t, FromRaw(t, raw)) == raw
  {
  }

  /** A signed codec reads the two's-complement reinterpretation of what the
      unsigned codec of the same width and order reads from the same bytes. */
  lemma SignedIsTwosComplement(t: IntType, order: Order, bs: seq<byte>)
    requires t.Signed()
    ensures IntCodec(t, order).dec(bs) == TwosComplementOf(t, IntCodec(t.Unsigned(), order).dec(bs))
  {
    var u := t.Unsigned();
    var w := t.Width();
    assert u.Width() == w && u.Modulus() == t.Modulus() && !u.Signed();
    IntDecodeUnfold(t, order, bs);
    IntDecodeUnfold(u, order, bs);
    if |bs| >= w {
      var raw := OrderedValue(bs[..w], order);
      ModulusIsPow(t);
      TwosComplementOfRaw(t, raw, bs[w..]);
    }
  }

  lemma TwosComplementOfRaw(t: IntType, raw: nat, rest: seq<byte>)
    requires t.Signed() && raw < t.Modulus()
    ensures TwosComplementOf(t, Ok(Parsed(FromRaw(t.Unsigned(), raw), rest))) == Ok(Parsed(FromRaw(t, raw), rest))
  {
  }

  lemma IntDecodeUnfold(t: IntType, order: Order, bs: seq<byte>)
    ensures IntCodec(t, order).dec(bs) ==
              if |bs| < t.Width() then Err(UnexpectedEof)
              else Ok(Parsed(FromRaw(t, OrderedValue(bs[..t.Width()], order)), bs[t.Width()..]))
  {
  }

  /** The two's-complement reading, as a `t`, of an unsigned decode result. */
  function TwosComplementOf(t: IntType, r: Outcome<Parsed<int>>): Outcome<Parsed<int>> {
    match r
    case Ok(p) => Ok(Parsed(if p.value >= t.Half() then p.value - t.Modulus() else p.value, p.rest))
    case Err(e) => Err(e)
    case Panic => Panic
  }

  /** With a single byte there is no order: `be_u8`/`le_u8` and
      `be_i8`/`le_i8` read and write identically. */
  lemma SingleByteOrderIrrelevant(signed: bool, bs: seq<byte>, v: int)
    ensures var t := if signed then I8 else U8;
            IntCodec(t, Big).dec(bs) == IntCodec(t, Little).dec(bs) &&
            IntCodec(t, Big).enc(v) == IntCodec(t, Little).enc(v)
  {
    var t := if signed then I8 else U8;
    if |bs| >= 1 {
      assert Reverse(bs[..1]) == bs[..1];
    }
    var raw := ToRaw(t, v);
    assert Reverse(BeBytes(raw, 1)) == BeBytes(raw, 1);
  }

  /** 0x0102 is written [0x01, 0x02] big-endian and [0x02, 0x01]
      little-endian. */
  lemma ByteOrderExample()
    ensures BeU16().enc(0x0102).bytes == [0x01, 0x02]
    ensures LeU16().enc(0x0102).bytes == [0x02, 0x01]
  {
    BigOrderExample();
    LittleOrderExample();
  }

  lemma BigOrderExample()
    ensures BeU16().enc(0x0102).bytes == [0x01, 0x02]
  {
    BeBytes0102();
    IntEncodeUnfold(U16, Big, 0x0102);
  }

  lemma LittleOrderExample()
    ensures LeU16().enc(0x0102).bytes == [0x02, 0x01]
  {
    BeBytes0102();
    IntEncodeUnfold(U16, Little, 0x0102);
    ReverseTwo(0x01, 0x02);
  }

  lemma ReverseTwo(a: byte, b: byte)
    ensures Reverse([a, b]) == [b, a]
  {
    assert [a, b][1..] == [b];
    assert Reverse([b]) == [b] by {
      assert [b][1..] == [];
    }
  }

  lemma BeBytes0102()
    ensures ToRaw(U16, 0x0102) == 0x0102
    ensures BeBytes(0x0102, 2) == [0x01, 0x02]
  {
    assert BeBytes(0x01, 1) == BeBytes(0, 0) + [0x01];
  }

  /** `be_u8` reads the next byte as it is. */
  lemma BeU8Decode(bs: seq<byte>)
    requires |bs| >= 1
    ensures BeU8().dec(bs) == Ok(Parsed(bs[0] as int, bs[1..]))
  {
    IntDecodeUnfold(U8, Big, bs);
    assert bs[..1] == [bs[0]];
    assert BeValue([bs[0]]) == BeValue([]) * 256 + bs[0];
  }

  /** `be_u8` writes a byte as itself. */
  lemma BeU8Encode(b: byte)
    ensures BeU8().enc(b) == Written([b], Ok(()))
  {
    IntEncodeUnfold(U8, Big, b);
    assert BeBytes(b, 1) == BeBytes(0, 0) + [b];
  }

  /** `be_u16` reads the next two bytes as high byte then low byte. */
  lemma BeU16Decode(bs: seq<byte>)
    requires |bs| >= 2
    ensures BeU16().dec(bs) == Ok(Parsed(bs[0] as int * 256 + bs[1] as int, bs[2..]))
  {
    IntDecodeUnfold(U16, Big, bs);
    var two := bs[..2];
    assert two == [bs[0], bs[1]];
    assert two[..1] == [bs[0]];
    assert BeValue([bs[0]]) == BeValue([]) * 256 + bs[0];
    assert BeValue(two) == bs[0] as int * 256 + bs[1] as int;
  }

  /** `be_u16` writes a unit as its high byte then its low byte. */
  lemma BeU16Encode(u: int)
    requires 0 <= u < 0x1_0000
    ensures BeU16().enc(u) == Written([u / 256, u % 256], Ok(()))
  {
    IntEncodeUnfold(U16, Big, u);
    assert ToRaw(U16, u) == u;
    assert BeBytes(u / 256, 1) == BeBytes(0, 0) + [u / 256];
    assert BeBytes(u, 2) == BeBytes(u / 256, 1) + [u % 256];
  }
}
