/** The text conversions the string codecs rely on: a Rust `String` is a
    sequence of Unicode scalar values, written out as UTF-8 (RFC 3629,
    section 3) by `as_bytes` and checked back by `String::from_utf8`, and
    as big-endian-agnostic UTF-16 code units (RFC 2781, sections 2.1 and
    2.2) by `encode_utf16` and `String::from_utf16`. A Dafny `char` is a
    Unicode scalar value, so a `string` models a Rust `String` exactly. */
module Unicode {
  import opened BinIo

  predicate IsContinuation(b: byte) {
    0x80 <= b < 0xC0
  }

  /** `str::is_ascii`. */
  predicate IsAscii(s: string) {
    forall i :: 0 <= i < |s| ==> s[i] as int < 0x80
  }

  predicate HasNul(s: string) {
    exists i :: 0 <= i < |s| && s[i] == '\0'
  }

  // ---------------------------------------------------------------------
  // UTF-8

  /** The UTF-8 form of one scalar value: the bit layout of the table in
      section 3 of RFC 3629, one to four bytes. */
  function Utf8Char(c: char): (r: seq<byte>)
    ensures 1 <= |r| <= 4
  {
    var cp := c as int;
    if cp < 0x80 then [cp]
    else if cp < 0x800 then [0xC0 + cp / 64, 0x80 + cp % 64]
    else if cp < 0x1_0000 then [0xE0 + cp / 64 / 64, 0x80 + cp / 64 % 64, 0x80 + cp % 64]
    else [0xF0 + cp / 64 / 64 / 64, 0x80 + cp / 64 / 64 % 64, 0x80 + cp / 64 % 64, 0x80 + cp % 64]
  }

  /** `String::as_bytes`: the UTF-8 bytes of a whole string. */
  function Utf8(s: string): seq<byte> {
    if s == [] then [] else Utf8Char(s[0]) + Utf8(s[1..])
  }

  /** The first scalar value of `bs` and the number of bytes it occupies,
      or None when `bs` does not start with a well-formed UTF-8 sequence:
      a stray continuation byte, a truncated sequence, an overlong form, a
      surrogate, or a value above U+10FFFF. */
  function Utf8First(bs: seq<byte>): (r: Option<(char, nat)>)
    requires |bs| > 0
    ensures r.Some? ==> 1 <= r.value.1 <= |bs|
  {
    var b0 := bs[0] as int;
    if b0 < 0x80 then Some((b0 as char, 1))
    else if b0 < 0xC0 then None
    else if b0 < 0xE0 then
      if |bs| < 2 || !IsContinuation(bs[1]) then None
      else
        var cp := (b0 - 0xC0) * 64 + (bs[1] as int - 0x80);
        if cp < 0x80 then None else Some((cp as char, 2))
    else if b0 < 0xF0 then
      if |bs| < 3 || !IsContinuation(bs[1]) || !IsContinuation(bs[2]) then None
      else
        var cp := ((b0 - 0xE0) * 64 + (bs[1] as int - 0x80)) * 64 + (bs[2] as int - 0x80);
        if cp < 0x800 || 0xD800 <= cp < 0xE000 then None else Some((cp as char, 3))
    else if b0 < 0xF8 then
      if |bs| < 4 || !IsContinuation(bs[1]) || !IsContinuation(bs[2]) || !IsContinuation(bs[3]) then None
      else
        var cp := (((b0 - 0xF0) * 64 + (bs[1] as int - 0x80)) * 64 + (bs[2] as int - 0x80)) * 64 + (bs[3] as int - 0x80);
        if cp < 0x1_0000 || cp >= 0x11_0000 then None else Some((cp as char, 4))
    else None
  }

  /** `String::from_utf8`: the string whose UTF-8 form is `bs`, if any. */
  function DecodeUtf8(bs: seq<byte>): Option<string>
    decreases |bs|
  {
    if bs == [] then Some([])
    else
      var (c, k) :- Utf8First(bs);
      var tail :- DecodeUtf8(bs[k..]);
      Some([c] + tail)
  }

  lemma Utf8FirstOfChar(c: char, rest: seq<byte>)
    ensures Utf8First(Utf8Char(c) + rest) == Some((c, |Utf8Char(c)|))
  {
    var bs := Utf8Char(c) + rest;
    var cp := c as int;
    if cp < 0x80 {
    } else if cp < 0x800 {
      assert bs[0] == 0xC0 + cp / 64 && bs[1] == 0x80 + cp % 64;
    } else if cp < 0x1_0000 {
      assert bs[0] == 0xE0 + cp / 64 / 64 && bs[1] == 0x80 + cp / 64 % 64 && bs[2] == 0x80 + cp % 64;
      assert cp / 64 == (cp / 64 / 64) * 64 + cp / 64 % 64;
    } else {
      assert bs[0] == 0xF0 + cp / 64 / 64 / 64 && bs[1] == 0x80 + cp / 64 / 64 % 64;
      assert bs[2] == 0x80 + cp / 64 % 64 && bs[3] == 0x80 + cp % 64;
      assert cp / 64 / 64 == (cp / 64 / 64 / 64) * 64 + cp / 64 / 64 % 64;
      assert cp / 64 == (cp / 64 / 64) * 64 + cp / 64 % 64;
    }
  }

  lemma Utf8CharOfFirst(bs: seq<byte>)
    requires |bs| > 0 && Utf8First(bs).Some?
    ensures Utf8Char(Utf8First(bs).value.0) == bs[..Utf8First(bs).value.1]
  {
    var k := Utf8First(bs).value.1;
    if k == 2 {
      TwoByteChar(bs[0], bs[1]);
      assert bs[..2] == [bs[0], bs[1]];
    } else if k == 3 {
      ThreeByteChar(bs[0], bs[1], bs[2]);
      assert bs[..3] == [bs[0], bs[1], bs[2]];
    } else if k == 4 {
      FourByteChar(bs[0], bs[1], bs[2], bs[3]);
      assert bs[..4] == [bs[0], bs[1], bs[2], bs[3]];
    }
  }

  lemma TwoByteChar(b0: byte, b1: byte)
    requires 0xC0 <= b0 < 0xE0 && IsContinuation(b1)
    requires (b0 - 0xC0) * 64 + (b1 - 0x80) >= 0x80
    ensures Utf8Char(((b0 - 0xC0) * 64 + (b1 - 0x80)) as char) == [b0, b1]
  {
    var cp := (b0 - 0xC0) * 64 + (b1 - 0x80);
    assert cp / 64 == b0 - 0xC0 && cp % 64 == b1 - 0x80;
  }

  lemma ThreeByteChar(b0: byte, b1: byte, b2: byte)
    requires 0xE0 <= b0 < 0xF0 && IsContinuation(b1) && IsContinuation(b2)
    requires var cp := ((b0 - 0xE0) * 64 + (b1 - 0x80)) * 64 + (b2 - 0x80);
      cp >= 0x800 && !(0xD800 <= cp < 0xE000)
    ensures Utf8Char((((b0 - 0xE0) * 64 + (b1 - 0x80)) * 64 + (b2 - 0x80)) as char) == [b0, b1, b2]
  {
    var hi := (b0 - 0xE0) * 64 + (b1 - 0x80);
    var cp := hi * 64 + (b2 - 0x80);
    assert cp / 64 == hi && cp % 64 == b2 - 0x80;
    assert hi / 64 == b0 - 0xE0 && hi % 64 == b1 - 0x80;
  }

  lemma FourByteChar(b0: byte, b1: byte, b2: byte, b3: byte)
    requires 0xF0 <= b0 < 0xF8 && IsContinuation(b1) && IsContinuation(b2) && IsContinuation(b3)
    requires var cp := (((b0 - 0xF0) * 64 + (b1 - 0x80)) * 64 + (b2 - 0x80)) * 64 + (b3 - 0x80);
      0x1_0000 <= cp < 0x11_0000
    ensures Utf8Char(((((b0 - 0xF0) * 64 + (b1 - 0x80)) * 64 + (b2 - 0x80)) * 64 + (b3 - 0x80)) as char)
      == [b0, b1, b2, b3]
  {
    var hi := (b0 - 0xF0) * 64 + (b1 - 0x80);
    var mid := hi * 64 + (b2 - 0x80);
    var cp := mid * 64 + (b3 - 0x80);
    assert cp / 64 == mid && cp % 64 == b3 - 0x80;
    assert mid / 64 == hi && mid % 64 == b2 - 0x80;
    assert hi / 64 == b0 - 0xF0 && hi % 64 == b1 - 0x80;
  }

  /** Every string's UTF-8 form converts back to the string. */
  lemma {:induction false} Utf8RoundTrip(s: string)
    ensures DecodeUtf8(Utf8(s)) == Some(s)
  {
    if s != [] {
      var head := Utf8Char(s[0]);
      Utf8FirstOfChar(s[0], Utf8(s[1..]));
      assert Utf8(s)[|head|..] == Utf8(s[1..]);
      Utf8RoundTrip(s[1..]);
      assert s == [s[0]] + s[1..];
    }
  }

  /** A byte sequence converts only to the string whose UTF-8 form it is:
      `from_utf8` accepts no alternative spelling of any character. */
  lemma {:induction false} Utf8Unique(bs: seq<byte>)
    requires DecodeUtf8(bs).Some?
    ensures Utf8(DecodeUtf8(bs).value) == bs
    decreases |bs|
  {
    if bs != [] {
      Utf8Step(bs);
      var (c, k) := Utf8First(bs).value;
      Utf8CharOfFirst(bs);
      Utf8Unique(bs[k..]);
      Utf8Glue(bs, k, c, DecodeUtf8(bs[k..]).value);
    }
  }

  /** A character followed by a string spells `bs` when the character
      spells the first `k` bytes and the string the rest. */
  lemma Utf8Glue(bs: seq<byte>, k: nat, c: char, tail: string)
    requires k <= |bs| && Utf8Char(c) == bs[..k] && Utf8(tail) == bs[k..]
    ensures Utf8([c] + tail) == bs
  {
    var s := [c] + tail;
    assert s[0] == c && s[1..] == tail;
    assert bs == bs[..k] + bs[k..];
  }

  /** A successful conversion is the first character followed by the
      conversion of the bytes after it. */
  lemma Utf8Step(bs: seq<byte>)
    requires bs != [] && DecodeUtf8(bs).Some?
    ensures Utf8First(bs).Some?
    ensures DecodeUtf8(bs[Utf8First(bs).value.1..]).Some?
    ensures DecodeUtf8(bs).value == [Utf8First(bs).value.0] + DecodeUtf8(bs[Utf8First(bs).value.1..]).value
  {
  }

  lemma {:induction false} Utf8Append(a: string, b: string)
    ensures Utf8(a + b) == Utf8(a) + Utf8(b)
  {
    if a != [] {
      assert (a + b)[0] == a[0];
      assert (a + b)[1..] == a[1..] + b;
      Utf8Append(a[1..], b);
      calc {
        Utf8(a + b);
        Utf8Char(a[0]) + Utf8(a[1..] + b);
        Utf8Char(a[0]) + (Utf8(a[1..]) + Utf8(b));
        (Utf8Char(a[0]) + Utf8(a[1..])) + Utf8(b);
      }
    } else {
      assert a + b == b;
    }
  }

  /** A string is ASCII exactly when every byte of its UTF-8 form is below
      0x80, and then that form is one byte per character. */
  lemma {:induction false} AsciiBytes(s: string)
    ensures IsAscii(s) <==> forall i :: 0 <= i < |Utf8(s)| ==> Utf8(s)[i] < 0x80
    ensures IsAscii(s) ==> |Utf8(s)| == |s|
  {
    if s != [] {
      AsciiBytes(s[1..]);
      var head := Utf8Char(s[0]);
      assert forall i :: 0 <= i < |s[1..]| ==> s[1..][i] == s[i + 1];
      if s[0] as int >= 0x80 {
        assert Utf8(s)[0] >= 0x80;
      }
      if IsAscii(s) {
        assert IsAscii(s[1..]);
      } else if s[0] as int < 0x80 {
        var i :| 0 <= i < |s| && s[i] as int >= 0x80;
        assert !IsAscii(s[1..]);
        var j :| 0 <= j < |Utf8(s[1..])| && Utf8(s[1..])[j] >= 0x80;
        assert Utf8(s)[j + 1] == Utf8(s[1..])[j];
      }
    }
  }

  /** The UTF-8 form of a string holds a zero byte exactly when the string
      holds U+0000: the bytes of a multi-byte character are all 0x80 or
      above. */
  lemma {:induction false} Utf8ZeroFree(s: string)
    ensures HasNul(s) <==> exists i :: 0 <= i < |Utf8(s)| && Utf8(s)[i] == 0
    ensures HasNul(s) <==> 0 in Utf8(s)
  {
    if s != [] {
      Utf8ZeroFree(s[1..]);
      var head := Utf8Char(s[0]);
      assert Utf8(s) == head + Utf8(s[1..]);
      assert (0 in head) <==> s[0] == '\0';
      if HasNul(s) {
        var i :| 0 <= i < |s| && s[i] == '\0';
        if i > 0 {
          assert s[1..][i - 1] == '\0';
          var j :| 0 <= j < |Utf8(s[1..])| && Utf8(s[1..])[j] == 0;
          assert Utf8(s)[|head| + j] == 0;
        } else {
          assert Utf8(s)[0] == 0;
        }
      } else {
        assert forall i :: 0 <= i < |s[1..]| ==> s[1..][i] == s[i + 1];
        assert !HasNul(s[1..]);
        assert forall i :: 0 <= i < |Utf8(s)| ==> Utf8(s)[i] != 0 by {
          forall i | 0 <= i < |Utf8(s)|
            ensures Utf8(s)[i] != 0
          {
            if i >= |head| {
              assert Utf8(s)[i] == Utf8(s[1..])[i - |head|];
            } else {
              assert Utf8(s)[i] == head[i];
            }
          }
        }
      }
    }
  }

  // ---------------------------------------------------------------------
  // UTF-16

  /** The UTF-16 code units of one scalar value (RFC 2781, section 2.1):
      itself below U+10000, otherwise a high and a low surrogate. */
  function Utf16Char(c: char): (r: seq<int>)
    ensures 1 <= |r| <= 2
    ensures forall i :: 0 <= i < |r| ==> 0 <= r[i] < 0x1_0000
  {
    var cp := c as int;
    if cp < 0x1_0000 then [cp]
    else
      var v := cp - 0x1_0000;
      [0xD800 + v / 0x400, 0xDC00 + v % 0x400]
  }

  /** `str::encode_utf16`: the code units of a whole string. */
  function Utf16(s: string): (r: seq<int>)
    ensures forall i :: 0 <= i < |r| ==> 0 <= r[i] < 0x1_0000
  {
    if s == [] then [] else Utf16Char(s[0]) + Utf16(s[1..])
  }

  /** `String::from_utf16` (RFC 2781, section 2.2): the string the code
      units spell, or None when a surrogate is unpaired. */
  function DecodeUtf16(us: seq<int>): Option<string>
    decreases |us|
  {
    if us == [] then Some([])
    else
      var u := us[0];
      if 0 <= u < 0xD800 || 0xE000 <= u < 0x1_0000 then
        var tail :- DecodeUtf16(us[1..]);
        Some([u as char] + tail)
      else if 0xD800 <= u < 0xDC00 && |us| >= 2 && 0xDC00 <= us[1] < 0xE000 then
        var cp := 0x1_0000 + (u - 0xD800) * 0x400 + (us[1] - 0xDC00);
        var tail :- DecodeUtf16(us[2..]);
        Some([cp as char] + tail)
      else None
  }

  /** Every string's code units convert back to the string. */
  lemma {:induction false} Utf16RoundTrip(s: string)
    ensures DecodeUtf16(Utf16(s)) == Some(s)
  {
    if s != [] {
      var head := Utf16Char(s[0]);
      var cp := s[0] as int;
      Utf16RoundTrip(s[1..]);
      assert Utf16(s)[|head|..] == Utf16(s[1..]);
      if cp >= 0x1_0000 {
        var v := cp - 0x1_0000;
        assert v == (v / 0x400) * 0x400 + v % 0x400;
      }
      assert s == [s[0]] + s[1..];
    }
  }

  /** Code units convert only to the string whose code units they are. */
  lemma {:induction false} Utf16Unique(us: seq<int>)
    requires DecodeUtf16(us).Some?
    ensures Utf16(DecodeUtf16(us).value) == us
    decreases |us|
  {
    if us != [] {
      var u := us[0];
      if 0 <= u < 0xD800 || 0xE000 <= u < 0x1_0000 {
        Utf16Single(us);
        Utf16Unique(us[1..]);
        Utf16UniqueSingle(us);
      } else {
        Utf16Pair(us);
        Utf16Unique(us[2..]);
        Utf16UniquePair(us);
      }
    }
  }

  /** The code units of a string are its first character's followed by
      the rest's. */
  lemma Utf16Cons(c: char, tl: string)
    ensures Utf16([c] + tl) == Utf16Char(c) + Utf16(tl)
  {
    assert ([c] + tl)[1..] == tl;
  }

  /** The step of `Utf16Unique` for a unit outside the surrogate range. */
  lemma Utf16UniqueSingle(us: seq<int>)
    requires us != [] && DecodeUtf16(us).Some?
    requires 0 <= us[0] < 0xD800 || 0xE000 <= us[0] < 0x1_0000
    requires DecodeUtf16(us[1..]).Some? && Utf16(DecodeUtf16(us[1..]).value) == us[1..]
    ensures Utf16(DecodeUtf16(us).value) == us
  {
    Utf16Single(us);
    Utf16Cons(us[0] as char, DecodeUtf16(us[1..]).value);
    assert us == [us[0]] + us[1..];
  }

  /** The step of `Utf16Unique` for a surrogate pair. */
  lemma Utf16UniquePair(us: seq<int>)
    requires us != [] && DecodeUtf16(us).Some?
    requires !(0 <= us[0] < 0xD800 || 0xE000 <= us[0] < 0x1_0000)
    requires |us| >= 2 && DecodeUtf16(us[2..]).Some? && Utf16(DecodeUtf16(us[2..]).value) == us[2..]
    ensures Utf16(DecodeUtf16(us).value) == us
  {
    Utf16Pair(us);
    SurrogatePair(us[0], us[1]);
    var c := (0x1_0000 + (us[0] - 0xD800) * 0x400 + (us[1] - 0xDC00)) as char;
    Utf16Cons(c, DecodeUtf16(us[2..]).value);
    assert us == [us[0], us[1]] + us[2..];
  }

  /** A conversion starting with a unit outside the surrogate range is
      that unit's character followed by the conversion of the rest. */
  lemma Utf16Single(us: seq<int>)
    requires us != [] && DecodeUtf16(us).Some?
    requires 0 <= us[0] < 0xD800 || 0xE000 <= us[0] < 0x1_0000
    ensures DecodeUtf16(us[1..]).Some?
    ensures DecodeUtf16(us).value == [us[0] as char] + DecodeUtf16(us[1..]).value
  {
  }

  /** A conversion starting with any other unit starts with a surrogate
      pair, whose character is followed by the conversion of the rest. */
  lemma Utf16Pair(us: seq<int>)
    requires us != [] && DecodeUtf16(us).Some?
    requires !(0 <= us[0] < 0xD800 || 0xE000 <= us[0] < 0x1_0000)
    ensures |us| >= 2 && 0xD800 <= us[0] < 0xDC00 && 0xDC00 <= us[1] < 0xE000
    ensures DecodeUtf16(us[2..]).Some?
    ensures 0x1_0000 <= 0x1_0000 + (us[0] - 0xD800) * 0x400 + (us[1] - 0xDC00) < 0x11_0000
    ensures DecodeUtf16(us).value ==
      [(0x1_0000 + (us[0] - 0xD800) * 0x400 + (us[1] - 0xDC00)) as char] + DecodeUtf16(us[2..]).value
  {
  }

  /** A high and a low surrogate combine into a supplementary character
      whose code units are that same pair. */
  lemma SurrogatePair(hi: int, lo: int)
    requires 0xD800 <= hi < 0xDC00 && 0xDC00 <= lo < 0xE000
    ensures 0x1_0000 <= 0x1_0000 + (hi - 0xD800) * 0x400 + (lo - 0xDC00) < 0x11_0000
    ensures Utf16Char((0x1_0000 + (hi - 0xD800) * 0x400 + (lo - 0xDC00)) as char) == [hi, lo]
  {
    var v := (hi - 0xD800) * 0x400 + (lo - 0xDC00);
    assert v / 0x400 == hi - 0xD800 && v % 0x400 == lo - 0xDC00;
  }

  /** A code unit of a string is zero exactly when the string holds
      U+0000: the units of a surrogate pair are never zero. */
  lemma {:induction false} Utf16ZeroFree(s: string)
    ensures HasNul(s) <==> 0 in Utf16(s)
    ensures !HasNul(s) ==> forall i :: 0 <= i < |Utf16(s)| ==> Utf16(s)[i] != 0
  {
    if s != [] {
      Utf16ZeroFree(s[1..]);
      var head := Utf16Char(s[0]);
      assert Utf16(s) == head + Utf16(s[1..]);
      assert (0 in head) <==> s[0] == '\0';
      if HasNul(s) {
        var i :| 0 <= i < |s| && s[i] == '\0';
        if i > 0 {
          assert s[1..][i - 1] == '\0';
        }
      } else {
        assert forall i :: 0 <= i < |s[1..]| ==> s[1..][i] == s[i + 1];
        assert !HasNul(s[1..]);
        forall i | 0 <= i < |Utf16(s)|
          ensures Utf16(s)[i] != 0
        {
          if i >= |head| {
            assert Utf16(s)[i] == Utf16(s[1..])[i - |head|];
          }
        }
      }
    }
  }
}
