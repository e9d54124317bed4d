/** The text codecs of src/strings.rs: null-terminated and fixed-length
    framing around UTF-8 and big-endian UTF-16, and the strict-ASCII
    wrappers around the UTF-8 codecs. */
module Strings {
  import opened BinIo
  import opened Numbers
  import opened Unicode
  import opened Utils

  // ---------------------------------------------------------------------
  // Framing

  /** The read loop of `null_utf8`: one byte at a time (`read_u8`) until
      a zero byte, keeping the bytes before it and consuming the zero as
      well; running out of bytes first is a stream error. */
  function ReadToZero(bs: seq<byte>): (r: Outcome<Parsed<seq<byte>>>)
    ensures r.Ok? <==> 0 in bs
    ensures !r.Ok? ==> r == Err(UnexpectedEof)
    ensures r.Ok? ==> 0 !in r.value.value && bs == r.value.value + [0] + r.value.rest
  {
    if bs == [] then Err(UnexpectedEof)
    else if bs[0] == 0 then
      assert bs == [] + [0] + bs[1..];
      Ok(Parsed([], bs[1..]))
    else
      var q := ReadToZero(bs[1..]);
      ByteCons(bs);
      if q.Ok? then
        PrependJoin(bs[0], q.value.value, [0], q.value.rest, bs[1..]);
        Ok(Parsed([bs[0]] + q.value.value, q.value.rest))
      else
        Err(UnexpectedEof)
  }

  /** Putting an element in front of a three-part sequence. */
  lemma PrependJoin<T>(x: T, p: seq<T>, z: seq<T>, rest: seq<T>, s: seq<T>)
    requires s == p + z + rest
    ensures [x] + s == [x] + p + z + rest
  {
  }

  /** A stream is its first byte and the rest, and holds a zero exactly
      when the first byte is zero or the rest holds one. */
  lemma ByteCons(bs: seq<byte>)
    requires bs != []
    ensures bs == [bs[0]] + bs[1..]
    ensures (0 in bs) == (bs[0] == 0 || 0 in bs[1..])
  {
    assert bs == [bs[0]] + bs[1..];
  }

  /** Code units: integers that fit in 16 bits. */
  predicate IsUnits(us: seq<int>) {
    forall i :: 0 <= i < |us| ==> 0 <= us[i] < 0x1_0000
  }

  /** The big-endian bytes of a sequence of code units, high byte first. */
  function UnitBytes(us: seq<int>): (r: seq<byte>)
    requires IsUnits(us)
    ensures |r| == 2 * |us|
  {
    if us == [] then [] else [us[0] / 256, us[0] % 256] + UnitBytes(us[1..])
  }

  /** The unit a big-endian `read_u16` makes of two bytes. */
  function Unit(hi: byte, lo: byte): (u: int)
    ensures 0 <= u < 0x1_0000
  {
    hi as int * 256 + lo as int
  }

  /** Splitting a unit back into bytes gives the bytes it was made of. */
  lemma UnitSplits(hi: byte, lo: byte)
    ensures Unit(hi, lo) / 256 == hi && Unit(hi, lo) % 256 == lo
  {
    DivUnique(hi as int * 256 + lo as int, 256, hi, lo);
  }

  /** The read loop of `null_utf16`: one big-endian unit at a time
      (`read_u16`) until a zero unit, keeping the units before it and
      consuming the zero as well; running out of bytes first is a stream
      error. */
  function ReadUnitsToZero(bs: seq<byte>): (r: Outcome<Parsed<seq<int>>>)
    ensures !r.Ok? ==> r == Err(UnexpectedEof)
    ensures r.Ok? ==> && IsUnits(r.value.value) && 0 !in r.value.value
                      && bs == UnitBytes(r.value.value) + [0, 0] + r.value.rest
    decreases |bs|
  {
    if |bs| < 2 then Err(UnexpectedEof)
    else
      // The unit read is zero exactly when both of its bytes are.
      if bs[0] == 0 && bs[1] == 0 then
        assert bs == [0, 0] + bs[2..];
        Ok(Parsed([], bs[2..]))
      else
        var q := ReadUnitsToZero(bs[2..]);
        if q.Ok? then
          UnitBytesConsZero(bs, q.value.value, q.value.rest);
          Ok(Parsed([Unit(bs[0], bs[1])] + q.value.value, q.value.rest))
        else
          Err(UnexpectedEof)
  }

  /** Two bytes in front of the bytes of some units are the bytes of one
      unit more. */
  lemma UnitBytesCons(bs: seq<byte>, us: seq<int>, rest: seq<byte>)
    requires |bs| >= 2 && IsUnits(us) && bs[2..] == UnitBytes(us) + rest
    ensures IsUnits([Unit(bs[0], bs[1])] + us)
    ensures bs == UnitBytes([Unit(bs[0], bs[1])] + us) + rest
  {
    var u := Unit(bs[0], bs[1]);
    UnitSplits(bs[0], bs[1]);
    assert ([u] + us)[1..] == us;
    assert bs == [bs[0], bs[1]] + bs[2..];
  }

  /** UnitBytesCons with the terminator and the rest after the units. */
  lemma UnitBytesConsZero(bs: seq<byte>, us: seq<int>, rest: seq<byte>)
    requires |bs| >= 2 && IsUnits(us) && 0 !in us && bs[2..] == UnitBytes(us) + [0, 0] + rest
    requires Unit(bs[0], bs[1]) != 0
    ensures IsUnits([Unit(bs[0], bs[1])] + us) && 0 !in [Unit(bs[0], bs[1])] + us
    ensures bs == UnitBytes([Unit(bs[0], bs[1])] + us) + [0, 0] + rest
  {
    var u := Unit(bs[0], bs[1]);
    assert UnitBytes(us) + [0, 0] + rest == UnitBytes(us) + ([0, 0] + rest);
    UnitBytesCons(bs, us, [0, 0] + rest);
    assert UnitBytes([u] + us) + ([0, 0] + rest) == UnitBytes([u] + us) + [0, 0] + rest;
  }

  /** The read loop of `len_utf16`: exactly `k` big-endian units. */
  function ReadUnits(k: nat, bs: seq<byte>): (r: Outcome<Parsed<seq<int>>>)
    ensures r.Ok? <==> |bs| >= 2 * k
    ensures !r.Ok? ==> r == Err(UnexpectedEof)
    ensures r.Ok? ==> && IsUnits(r.value.value) && |r.value.value| == k
                      && bs == UnitBytes(r.value.value) + r.value.rest
  {
    if k == 0 then Ok(Parsed([], bs))
    else if |bs| < 2 then Err(UnexpectedEof)
    else
      var q := ReadUnits(k - 1, bs[2..]);
      if q.Ok? then
        UnitBytesCons(bs, q.value.value, q.value.rest);
        Ok(Parsed([Unit(bs[0], bs[1])] + q.value.value, q.value.rest))
      else
        Err(UnexpectedEof)
  }

  // ---------------------------------------------------------------------
  // UTF-8

  /** The read half of `null_utf8`: the bytes up to and including the
      first zero, converted from UTF-8. */
  function NullUtf8Decode(bs: seq<byte>): (r: Outcome<Parsed<string>>)
    ensures 0 !in bs ==> r == Err(UnexpectedEof)
    ensures 0 in bs && !r.Ok? ==> r == Err(Utf8Conversion)
    ensures r.Ok? ==> bs == Utf8(r.value.value) + [0] + r.value.rest
    ensures r.Ok? ==> !HasNul(r.value.value)
  {
    var p :- ReadToZero(bs);
    match DecodeUtf8(p.value)
    case Some(s) =>
      Utf8Unique(p.value);
      Utf8ZeroFree(s);
      Ok(Parsed(s, p.rest))
    case None => Err(Utf8Conversion)
  }

  /** The write half of `null_utf8`, as written: the UTF-8 bytes, with no
      terminator. */
  function NullUtf8Encode(s: string): (w: Written)
    ensures w.status == Ok(())
    ensures DecodeUtf8(w.bytes) == Some(s)
    ensures 0 in w.bytes <==> HasNul(s)
  {
    Utf8RoundTrip(s);
    Utf8ZeroFree(s);
    Written(Utf8(s), Ok(()))
  }

  /** `null_utf8`, as written. */
  function NullUtf8(): Codec<string> {
    Codec(NullUtf8Decode, NullUtf8Encode)
  }

  /** The write half of `null_utf8` with the terminator its read half
      expects. */
  function NullUtf8TerminatedEncode(s: string): (w: Written)
    ensures w.status == Ok(())
    ensures w.bytes == NullUtf8Encode(s).bytes + [0]
  {
    Written(Utf8(s) + [0], Ok(()))
  }

  /** `null_utf8` with the terminator written. */
  function NullUtf8Terminated(): Codec<string> {
    Codec(NullUtf8Decode, NullUtf8TerminatedEncode)
  }

  /** The read half of `len_utf8(n)`: exactly `n` bytes, converted. */
  function LenUtf8Decode(n: nat, bs: seq<byte>): (r: Outcome<Parsed<string>>)
    ensures |bs| < n ==> r == Err(UnexpectedEof)
    ensures |bs| >= n ==> (r.Ok? <==> DecodeUtf8(bs[..n]).Some?)
    ensures |bs| >= n && !r.Ok? ==> r == Err(Utf8Conversion)
    ensures r.Ok? ==> Utf8(r.value.value) == bs[..n] && r.value.rest == bs[n..]
  {
    if |bs| < n then Err(UnexpectedEof)
    else match DecodeUtf8(bs[..n])
         case Some(s) =>
           Utf8Unique(bs[..n]);
           Ok(Parsed(s, bs[n..]))
         case None => Err(Utf8Conversion)
  }

  /** The write half of `len_utf8(n)`: the UTF-8 bytes, or a panic before
      anything is written when there are not exactly `n` of them. */
  function LenUtf8Encode(n: nat, s: string): (w: Written)
    ensures w == Abort <==> |Utf8(s)| != n
    ensures w != Abort ==> w.status == Ok(()) && |w.bytes| == n && DecodeUtf8(w.bytes) == Some(s)
  {
    Utf8RoundTrip(s);
    if |Utf8(s)| == n then Written(Utf8(s), Ok(())) else Abort
  }

  /** `len_utf8(n)`. */
  function LenUtf8(n: nat): Codec<string> {
    Codec(bs => LenUtf8Decode(n, bs), s => LenUtf8Encode(n, s))
  }

  // ---------------------------------------------------------------------
  // UTF-16

  /** The read half of `null_utf16`: big-endian units up to and including a
      zero unit, converted from UTF-16. */
  function NullUtf16Decode(bs: seq<byte>): (r: Outcome<Parsed<string>>)
    ensures !ReadUnitsToZero(bs).Ok? ==> r == Err(UnexpectedEof)
    ensures ReadUnitsToZero(bs).Ok? && !r.Ok? ==> r == Err(Utf16Conversion)
    ensures r.Ok? ==> bs == UnitBytes(Utf16(r.value.value)) + [0, 0] + r.value.rest
    ensures r.Ok? ==> !HasNul(r.value.value)
  {
    var p :- ReadUnitsToZero(bs);
    match DecodeUtf16(p.value)
    case Some(s) =>
      Utf16Unique(p.value);
      Utf16ZeroFree(s);
      Ok(Parsed(s, p.rest))
    case None => Err(Utf16Conversion)
  }

  /** The write half of `null_utf16`: each code unit with big-endian
      `write_u16`, then a zero unit. */
  function NullUtf16Encode(s: string): (w: Written)
    ensures w == Written(UnitBytes(Utf16(s)) + [0, 0], Ok(()))
  {
    EncodeUnits(Utf16(s));
    BeU16Encode(0);
    Then(EncodeAll(BeU16(), Utf16(s)), BeU16().enc(0))
  }

  /** `null_utf16`. */
  function NullUtf16(): Codec<string> {
    Codec(NullUtf16Decode, NullUtf16Encode)
  }

  /** The read half of `len_utf16(n)`: `n` counted in steps of two, so
      ceil(n/2) big-endian code units, then converted. */
  function LenUtf16Decode(n: nat, bs: seq<byte>): (r: Outcome<Parsed<string>>)
    ensures |bs| < 2 * ((n + 1) / 2) ==> r == Err(UnexpectedEof)
    ensures |bs| >= 2 * ((n + 1) / 2) && !r.Ok? ==> r == Err(Utf16Conversion)
    ensures r.Ok? ==> bs == UnitBytes(Utf16(r.value.value)) + r.value.rest
    ensures r.Ok? ==> |Utf16(r.value.value)| == (n + 1) / 2
  {
    var p :- ReadUnits((n + 1) / 2, bs);
    match DecodeUtf16(p.value)
    case Some(s) =>
      Utf16Unique(p.value);
      Ok(Parsed(s, p.rest))
    case None => Err(Utf16Conversion)
  }

  /** The write half of `len_utf16(n)`, as written: the code units
      big-endian, or a panic before anything is written when the string's
      UTF-8 length, not its UTF-16 length, is not `n`. */
  function LenUtf16Encode(n: nat, s: string): (w: Written)
    ensures w == Abort <==> |Utf8(s)| != n
    ensures w != Abort ==> w == Written(UnitBytes(Utf16(s)), Ok(()))
  {
    EncodeUnits(Utf16(s));
    if |Utf8(s)| == n then EncodeAll(BeU16(), Utf16(s)) else Abort
  }

  /** `len_utf16(n)`, as written. */
  function LenUtf16(n: nat): Codec<string> {
    Codec(bs => LenUtf16Decode(n, bs), s => LenUtf16Encode(n, s))
  }

  /** The write half of `len_utf16(n)` with the length check its read half
      needs: the string must occupy `n` bytes as UTF-16. */
  function LenUtf16CheckedEncode(n: nat, s: string): (w: Written)
    ensures w == Abort <==> 2 * |Utf16(s)| != n
    ensures w != Abort ==> w == Written(UnitBytes(Utf16(s)), Ok(()))
  {
    EncodeUnits(Utf16(s));
    if 2 * |Utf16(s)| == n then EncodeAll(BeU16(), Utf16(s)) else Abort
  }

  /** `len_utf16(n)` with the UTF-16 length checked. */
  function LenUtf16Checked(n: nat): Codec<string> {
    Codec(bs => LenUtf16Decode(n, bs), s => LenUtf16CheckedEncode(n, s))
  }

  // ---------------------------------------------------------------------
  // ASCII

  /** The read half of the ASCII wrapper: the inner read, then a
      `CheckFail` when the string read is not ASCII. */
  function AsciiDecode(inner: Codec<string>, bs: seq<byte>): (r: Outcome<Parsed<string>>)
    ensures r.Ok? <==> inner.dec(bs).Ok? && IsAscii(inner.dec(bs).value.value)
    ensures r.Ok? ==> r == inner.dec(bs)
    ensures inner.dec(bs).Ok? && !r.Ok? ==> r == Err(CheckFail)
    ensures !inner.dec(bs).Ok? ==> FailsAlike(r, inner.dec(bs))
  {
    var p :- inner.dec(bs);
    if IsAscii(p.value) then Ok(p) else Err(CheckFail)
  }

  /** The write half of the ASCII wrapper: a panic before anything is
      written when the string is not ASCII, the inner write otherwise. */
  function AsciiEncode(inner: Codec<string>, s: string): (w: Written)
    ensures !IsAscii(s) ==> w == Abort
    ensures IsAscii(s) ==> w == inner.enc(s)
  {
    if IsAscii(s) then inner.enc(s) else Abort
  }

  /** The ASCII check wrapped around a UTF-8 codec. */
  function AsciiOf(inner: Codec<string>): Codec<string> {
    Codec(bs => AsciiDecode(inner, bs), s => AsciiEncode(inner, s))
  }

  /** `null_ascii`: `null_utf8` restricted to ASCII. */
  function NullAscii(): Codec<string> {
    AsciiOf(NullUtf8())
  }

  /** `len_ascii(n)`: `len_utf8(n)` restricted to ASCII. */
  function LenAscii(n: nat): Codec<string> {
    AsciiOf(LenUtf8(n))
  }

  /** `null_ascii` built on the terminated `null_utf8`. */
  function NullAsciiTerminated(): Codec<string> {
    AsciiOf(NullUtf8Terminated())
  }

  // ---------------------------------------------------------------------
  // The framing loops read what the integer codecs read

  /** Writing code units one by one with `be_u16` writes their big-endian
      bytes and always succeeds. */
  lemma {:induction false} EncodeUnits(us: seq<int>)
    requires IsUnits(us)
    ensures EncodeAll(BeU16(), us) == Written(UnitBytes(us), Ok(()))
  {
    if us != [] {
      BeU16Encode(us[0]);
      EncodeUnits(us[1..]);
    }
  }

  /** Each step of the `null_utf8` loop is one `be_u8` read. */
  lemma ReadToZeroStep(bs: seq<byte>)
    ensures ReadToZero(bs) ==
              (var p :- BeU8().dec(bs);
               if p.value == 0 then Ok(Parsed([], p.rest))
               else var q :- ReadToZero(p.rest); Ok(Parsed([bs[0]] + q.value, q.rest)))
  {
    if bs != [] {
      BeU8Decode(bs);
    } else {
      IntDecodeUnfold(U8, Big, bs);
    }
  }

  /** Each step of the `null_utf16` loop is one `be_u16` read. */
  lemma ReadUnitsToZeroStep(bs: seq<byte>)
    ensures ReadUnitsToZero(bs) ==
              (var p :- BeU16().dec(bs);
               if p.value == 0 then Ok(Parsed([], p.rest))
               else var q :- ReadUnitsToZero(p.rest); Ok(Parsed([p.value] + q.value, q.rest)))
  {
    if |bs| >= 2 {
      BeU16Decode(bs);
    } else {
      IntDecodeUnfold(U16, Big, bs);
    }
  }

  /** The `len_utf16` loop is `k` reads with `be_u16`. */
  lemma ReadUnitsIsCount(k: nat, bs: seq<byte>)
    ensures ReadUnits(k, bs) == CountDecode(BeU16(), k, bs)
  {
    BeU16ReadsUnit();
    CountOfUnitReads(BeU16(), k, bs);
  }

  /** A codec whose read half is one big-endian unit. */
  ghost predicate ReadsUnit(c: Codec<int>) {
    forall bs: seq<byte> :: c.dec(bs) ==
      if |bs| < 2 then Err(UnexpectedEof) else Ok(Parsed(Unit(bs[0], bs[1]), bs[2..]))
  }

  lemma BeU16ReadsUnit()
    ensures ReadsUnit(BeU16())
  {
    forall bs: seq<byte>
      ensures BeU16().dec(bs) ==
        if |bs| < 2 then Err(UnexpectedEof) else Ok(Parsed(Unit(bs[0], bs[1]), bs[2..]))
    {
      if |bs| >= 2 {
        BeU16Decode(bs);
      }
    }
  }

  /** The `len_utf16` loop is `k` reads with any codec that reads one unit. */
  lemma {:induction false} CountOfUnitReads(c: Codec<int>, k: nat, bs: seq<byte>)
    requires ReadsUnit(c)
    ensures ReadUnits(k, bs) == CountDecode(c, k, bs)
  {
    if k == 0 {
    } else if |bs| < 2 {
      assert c.dec(bs) == Err(UnexpectedEof);
    } else {
      assert c.dec(bs) == Ok(Parsed(Unit(bs[0], bs[1]), bs[2..]));
      CountOfUnitReads(c, k - 1, bs[2..]);
      ReadUnitsCons(k, bs);
    }
  }

  /** A unit in front of what a read of the other units produced. */
  function Prepend(u: int, o: Outcome<Parsed<seq<int>>>): Outcome<Parsed<seq<int>>> {
    var q :- o; Ok(Parsed([u] + q.value, q.rest))
  }

  /** One step of the `len_utf16` loop: a unit, then the other `k - 1`. */
  lemma ReadUnitsCons(k: nat, bs: seq<byte>)
    requires k > 0 && |bs| >= 2
    ensures ReadUnits(k, bs) == Prepend(Unit(bs[0], bs[1]), ReadUnits(k - 1, bs[2..]))
  {
  }

  /** Reading to the first zero byte of a zero-free prefix, a zero and
      anything after it, yields the prefix and leaves what follows. */
  lemma {:induction false} ReadToZeroOf(pre: seq<byte>, rest: seq<byte>)
    requires 0 !in pre
    ensures ReadToZero(pre + [0] + rest) == Ok(Parsed(pre, rest))
  {
    var bs := pre + [0] + rest;
    if pre != [] {
      assert pre[0] in pre;
      assert bs[0] == pre[0] && bs[1..] == pre[1..] + [0] + rest;
      assert 0 !in pre[1..] by {
        assert forall b :: b in pre[1..] ==> b in pre;
      }
      ReadToZeroOf(pre[1..], rest);
      ReadToZeroCons(bs);
      assert pre == [pre[0]] + pre[1..];
    } else {
      assert bs == [0] + rest;
    }
  }

  /** One step of the `null_utf8` loop over a non-zero byte. */
  lemma ReadToZeroCons(bs: seq<byte>)
    requires bs != [] && bs[0] != 0
    ensures ReadToZero(bs) == (var q :- ReadToZero(bs[1..]); Ok(Parsed([bs[0]] + q.value, q.rest)))
  {
  }

  /** The same for code units. */
  lemma {:induction false} ReadUnitsToZeroOf(us: seq<int>, rest: seq<byte>)
    requires IsUnits(us) && 0 !in us
    ensures ReadUnitsToZero(UnitBytes(us) + [0, 0] + rest) == Ok(Parsed(us, rest))
  {
    var bs := UnitBytes(us) + [0, 0] + rest;
    if us == [] {
      assert bs == [0, 0] + rest;
    } else {
      var u := us[0];
      assert u in us;
      assert bs == UnitBytes(us) + ([0, 0] + rest);
      UnitBytesHead(us, [0, 0] + rest);
      assert bs[2..] == UnitBytes(us[1..]) + [0, 0] + rest;
      UnitOfHalves(u);
      ReadUnitsToZeroCons(bs);
      assert 0 !in us[1..] by {
        assert forall x :: x in us[1..] ==> x in us;
      }
      ReadUnitsToZeroOf(us[1..], rest);
      assert us == [u] + us[1..];
    }
  }

  /** The first unit of a stream of units is its first two bytes. */
  lemma UnitBytesHead(us: seq<int>, tail: seq<byte>)
    requires IsUnits(us) && us != []
    ensures UnitBytes(us) + tail == [us[0] / 256, us[0] % 256] + (UnitBytes(us[1..]) + tail)
  {
  }

  /** A unit split into its high and low byte is made back into itself. */
  lemma UnitOfHalves(u: int)
    requires 0 <= u < 0x1_0000
    ensures 0 <= u / 256 < 0x100 && Unit(u / 256, u % 256) == u
  {
  }

  /** One step of the `null_utf16` loop over a non-zero unit. */
  lemma ReadUnitsToZeroCons(bs: seq<byte>)
    requires |bs| >= 2 && !(bs[0] == 0 && bs[1] == 0)
    ensures ReadUnitsToZero(bs) == Prepend(Unit(bs[0], bs[1]), ReadUnitsToZero(bs[2..]))
  {
  }

  /** Two unit sequences of the same length whose bytes open the same
      stream are equal, and so is what follows them. */
  lemma {:induction false} UnitBytesInjective(a: seq<int>, b: seq<int>, ra: seq<byte>, rb: seq<byte>)
    requires IsUnits(a) && IsUnits(b) && |a| == |b|
    requires UnitBytes(a) + ra == UnitBytes(b) + rb
    ensures a == b && ra == rb
  {
    if a != [] {
      var x := UnitBytes(a) + ra;
      assert x[0] == a[0] / 256 == b[0] / 256;
      assert x[1] == a[0] % 256 == b[0] % 256;
      assert a[0] == a[0] / 256 * 256 + a[0] % 256;
      assert b[0] == b[0] / 256 * 256 + b[0] % 256;
      assert x[2..] == UnitBytes(a[1..]) + ra == UnitBytes(b[1..]) + rb;
      UnitBytesInjective(a[1..], b[1..], ra, rb);
      assert a == [a[0]] + a[1..] && b == [b[0]] + b[1..];
    } else {
      assert UnitBytes(a) + ra == ra && UnitBytes(b) + rb == rb;
    }
  }

  // ---------------------------------------------------------------------
  // Round trips and the two asymmetries

  /** `null_utf8` reads back a string followed by a zero byte, for a string
      holding no U+0000. */
  lemma NullUtf8ReadsTerminated(s: string, rest: seq<byte>)
    requires !HasNul(s)
    ensures NullUtf8Decode(Utf8(s) + [0] + rest) == Ok(Parsed(s, rest))
  {
    Utf8ZeroFree(s);
    ReadToZeroOf(Utf8(s), rest);
    Utf8RoundTrip(s);
  }

  /** As written, `null_utf8` does not read back what it writes: with no
      zero byte written, the read runs off the end of the stream. */
  lemma NullUtf8MissingTerminator(s: string)
    requires !HasNul(s)
    ensures NullUtf8().dec(NullUtf8().enc(s).bytes) == Err(UnexpectedEof)
  {
  }

  /** With the terminator written, every string without U+0000 survives the
      trip. */
  lemma NullUtf8TerminatedRoundTrip(s: string)
    requires !HasNul(s)
    ensures RoundTrips(NullUtf8Terminated(), s)
  {
    forall rest: seq<byte>
      ensures NullUtf8Terminated().dec(NullUtf8Terminated().enc(s).bytes + rest) == Ok(Parsed(s, rest))
    {
      NullUtf8ReadsTerminated(s, rest);
      assert NullUtf8TerminatedEncode(s).bytes + rest == Utf8(s) + [0] + rest;
    }
  }

  /** `len_utf8(n)` round-trips every string of UTF-8 length `n`. */
  lemma LenUtf8RoundTrip(s: string, n: nat)
    requires |Utf8(s)| == n
    ensures RoundTrips(LenUtf8(n), s)
  {
    Utf8RoundTrip(s);
    forall rest: seq<byte>
      ensures LenUtf8(n).dec(LenUtf8(n).enc(s).bytes + rest) == Ok(Parsed(s, rest))
    {
      var bs := Utf8(s) + rest;
      assert bs[..n] == Utf8(s) && bs[n..] == rest;
    }
  }

  /** `null_utf16` round-trips every string holding no U+0000. */
  lemma NullUtf16RoundTrip(s: string)
    requires !HasNul(s)
    ensures RoundTrips(NullUtf16(), s)
  {
    Utf16ZeroFree(s);
    Utf16RoundTrip(s);
    var us := Utf16(s);
    forall rest: seq<byte>
      ensures NullUtf16Decode(UnitBytes(us) + [0, 0] + rest) == Ok(Parsed(s, rest))
    {
      ReadUnitsToZeroOf(us, rest);
    }
  }

  /** The read half of `len_utf16(n)` recovers a string whose UTF-16 form
      is ceil(n/2) units long. */
  lemma LenUtf16ReadsUnits(s: string, n: nat, rest: seq<byte>)
    requires |Utf16(s)| == (n + 1) / 2
    ensures LenUtf16Decode(n, UnitBytes(Utf16(s)) + rest) == Ok(Parsed(s, rest))
  {
    var us := Utf16(s);
    var bs := UnitBytes(us) + rest;
    var p := ReadUnits(|us|, bs).value;
    UnitBytesInjective(p.value, us, p.rest, rest);
    Utf16RoundTrip(s);
  }

  /** As written, `len_utf16(n)` still round-trips a string whose UTF-8
      length is `n` when its UTF-16 form happens to be ceil(n/2) units. */
  lemma LenUtf16RoundTrip(s: string, n: nat)
    requires |Utf8(s)| == n && |Utf16(s)| == (n + 1) / 2
    ensures RoundTrips(LenUtf16(n), s)
  {
    forall rest: seq<byte>
      ensures LenUtf16Decode(n, UnitBytes(Utf16(s)) + rest) == Ok(Parsed(s, rest))
    {
      LenUtf16ReadsUnits(s, n, rest);
    }
  }

  /** As written, `len_utf16(2)` accepts "ab" (two UTF-8 bytes), writes its
      two units as four bytes, and reads back only "a". */
  lemma LenUtf16LosesCharacters()
    ensures LenUtf16(2).enc("ab") == Written([0x00, 0x61, 0x00, 0x62], Ok(()))
    ensures LenUtf16(2).dec([0x00, 0x61, 0x00, 0x62]) == Ok(Parsed("a", [0x00, 0x62]))
  {
    LenUtf16WritesAb();
    LenUtf16ReadsA();
  }

  lemma LenUtf16WritesAb()
    ensures LenUtf16Encode(2, "ab") == Written([0x00, 0x61, 0x00, 0x62], Ok(()))
  {
    assert Utf8("ab") == [0x61, 0x62];
    assert Utf16("ab") == [0x61, 0x62];
    assert UnitBytes([0x61, 0x62]) == [0x00, 0x61, 0x00, 0x62] by {
      assert [0x61, 0x62][1..] == [0x62];
    }
  }

  lemma LenUtf16ReadsA()
    ensures LenUtf16Decode(2, [0x00, 0x61, 0x00, 0x62]) == Ok(Parsed("a", [0x00, 0x62]))
  {
    assert Utf16("a") == [0x61];
    LenUtf16ReadsUnits("a", 2, [0x00, 0x62]);
    assert UnitBytes([0x61]) + [0x00, 0x62] == [0x00, 0x61, 0x00, 0x62];
  }

  /** With the UTF-16 length checked, `len_utf16(n)` round-trips every
      string occupying `n` bytes as UTF-16. */
  lemma LenUtf16CheckedRoundTrip(s: string, n: nat)
    requires 2 * |Utf16(s)| == n
    ensures RoundTrips(LenUtf16Checked(n), s)
  {
    forall rest: seq<byte>
      ensures LenUtf16Decode(n, UnitBytes(Utf16(s)) + rest) == Ok(Parsed(s, rest))
    {
      LenUtf16ReadsUnits(s, n, rest);
    }
  }

  /** The ASCII wrapper keeps the round trip of the codec it wraps, for an
      ASCII string. */
  lemma AsciiRoundTrip(inner: Codec<string>, s: string)
    requires IsAscii(s) && RoundTrips(inner, s)
    ensures RoundTrips(AsciiOf(inner), s)
  {
    forall rest: seq<byte>
      ensures AsciiDecode(inner, inner.enc(s).bytes + rest) == Ok(Parsed(s, rest))
    {
      assert inner.dec(inner.enc(s).bytes + rest) == Ok(Parsed(s, rest));
    }
  }

  /** `len_ascii(n)` round-trips every ASCII string of length `n`. */
  lemma LenAsciiRoundTrip(s: string, n: nat)
    requires IsAscii(s) && |s| == n
    ensures RoundTrips(LenAscii(n), s)
  {
    AsciiBytes(s);
    LenUtf8RoundTrip(s, n);
    AsciiRoundTrip(LenUtf8(n), s);
  }

  /** `null_ascii` built on the terminated `null_utf8` round-trips every
      ASCII string holding no U+0000. */
  lemma NullAsciiTerminatedRoundTrip(s: string)
    requires IsAscii(s) && !HasNul(s)
    ensures RoundTrips(NullAsciiTerminated(), s)
  {
    NullUtf8TerminatedRoundTrip(s);
    AsciiRoundTrip(NullUtf8Terminated(), s);
  }

  /** A string `null_ascii` reads is spelled by bytes below 0x80 only. */
  lemma NullAsciiReadsAsciiBytes(bs: seq<byte>)
    requires NullAscii().dec(bs).Ok?
    ensures forall i :: 0 <= i < |bs| - |NullAscii().dec(bs).value.rest| - 1 ==> bs[i] < 0x80
  {
    var a := NullUtf8Decode(bs);
    var s := a.value.value;
    assert IsAscii(s);
    AsciiBytes(s);
    var u := Utf8(s);
    assert bs == u + [0] + a.value.rest;
    assert |bs| - |a.value.rest| - 1 == |u|;
    forall i | 0 <= i < |u| ensures bs[i] < 0x80 {
      assert bs[i] == u[i];
    }
  }

  /** A string `len_ascii(n)` reads is `n` characters long and spelled by
      bytes below 0x80 only. */
  lemma LenAsciiReadsAsciiBytes(n: nat, bs: seq<byte>)
    requires LenAscii(n).dec(bs).Ok?
    ensures |LenAscii(n).dec(bs).value.value| == n
    ensures forall i :: 0 <= i < n ==> bs[i] < 0x80
  {
    var b := LenUtf8Decode(n, bs);
    var s := b.value.value;
    assert IsAscii(s);
    AsciiBytes(s);
    var u := Utf8(s);
    assert u == bs[..n];
    forall i | 0 <= i < n ensures bs[i] < 0x80 {
      assert bs[i] == u[i];
    }
  }

  // ---------------------------------------------------------------------
  // The documented examples

  /** [0x46, 0x6f, 0x6f, 0x00] is "Foo" under `null_ascii`. */
  lemma NullAsciiExample()
    ensures NullAscii().dec([0x46, 0x6f, 0x6f, 0x00]) == Ok(Parsed("Foo", []))
  {
    FooText();
    NullUtf8ReadsTerminated("Foo", []);
    assert [0x46, 0x6f, 0x6f, 0x00] == Utf8("Foo") + [0] + [];
  }

  /** [0x42, 0x61, 0x72] is "Bar" under `len_ascii(3)`. */
  lemma LenAsciiExample()
    ensures LenAscii(3).dec([0x42, 0x61, 0x72]) == Ok(Parsed("Bar", []))
  {
    BarText();
    Utf8RoundTrip("Bar");
    assert [0x42, 0x61, 0x72][..3] == Utf8("Bar");
  }

  lemma FooText()
    ensures Utf8("Foo") == [0x46, 0x6f, 0x6f] && !HasNul("Foo") && IsAscii("Foo")
  {
  }

  lemma BarText()
    ensures Utf8("Bar") == [0x42, 0x61, 0x72] && IsAscii("Bar")
  {
  }

  /** The crab U+1F980 is [0xf0, 0x9f, 0xa6, 0x80] in UTF-8, read by
      `null_utf8` with a zero after it and by `len_utf8(4)`. */
  lemma Utf8Examples()
    ensures NullUtf8().dec([0xf0, 0x9f, 0xa6, 0x80, 0x00]) == Ok(Parsed("\U{1F980}", []))
    ensures LenUtf8(4).dec([0xf0, 0x9f, 0xa6, 0x80]) == Ok(Parsed("\U{1F980}", []))
  {
    assert Utf8("\U{1F980}") == [0xf0, 0x9f, 0xa6, 0x80];
    assert !HasNul("\U{1F980}");
    NullUtf8ReadsTerminated("\U{1F980}", []);
    assert [0xf0, 0x9f, 0xa6, 0x80, 0x00] == Utf8("\U{1F980}") + [0] + [];
    Utf8RoundTrip("\U{1F980}");
    assert [0xf0, 0x9f, 0xa6, 0x80][..4] == Utf8("\U{1F980}");
  }

  /** The sparkling heart U+1F496, read by `null_utf16` with a zero unit
      after it. */
  lemma NullUtf16Example()
    ensures NullUtf16().dec([0xd8, 0x3d, 0xdc, 0x96, 0x00, 0x00]) == Ok(Parsed("\U{1F496}", []))
  {
    var s := "\U{1F496}";
    HeartUnits();
    Utf16ZeroFree(s);
    Utf16RoundTrip(s);
    ReadUnitsToZeroOf(Utf16(s), []);
    assert UnitBytes(Utf16(s)) + [0, 0] + [] == [0xd8, 0x3d, 0xdc, 0x96, 0x00, 0x00];
  }

  /** [0xd8, 0x3d, 0xdc, 0x96] is U+1F496 under `len_utf16(4)`. */
  lemma LenUtf16Example()
    ensures LenUtf16(4).dec([0xd8, 0x3d, 0xdc, 0x96]) == Ok(Parsed("\U{1F496}", []))
  {
    var s := "\U{1F496}";
    HeartUnits();
    LenUtf16ReadsUnits(s, 4, []);
    assert UnitBytes(Utf16(s)) + [] == [0xd8, 0x3d, 0xdc, 0x96];
  }

  /** U+1F496 is the surrogate pair 0xD83D 0xDC96, written big-endian. */
  lemma HeartUnits()
    ensures Utf16("\U{1F496}") == [0xD83D, 0xDC96] && !HasNul("\U{1F496}")
    ensures UnitBytes(Utf16("\U{1F496}")) == [0xd8, 0x3d, 0xdc, 0x96]
  {
    assert Utf16("\U{1F496}") == [0xD83D, 0xDC96];
    assert UnitBytes([0xD83D, 0xDC96]) == [0xd8, 0x3d, 0xdc, 0x96] by {
      assert [0xD83D, 0xDC96][1..] == [0xDC96];
    }
  }
}
