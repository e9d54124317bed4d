/** The generic combinators of src/utils.rs: each takes a codec for any
    type and builds a new codec around it. */
module Utils {
  import opened BinIo
  import opened Numbers

  /** `bind(c, x)`: reads a value with `c` and requires it to be `x`,
      yielding unit; always writes `x`. */
  function Bind<T(==)>(c: Codec<T>, x: T): (r: Codec<()>)
    ensures forall bs :: c.dec(bs).Ok? && c.dec(bs).value.value == x ==>
              r.dec(bs) == Ok(Parsed((), c.dec(bs).value.rest))
    ensures forall bs :: c.dec(bs).Ok? && c.dec(bs).value.value != x ==> r.dec(bs) == Err(CheckFail)
    ensures forall bs :: !c.dec(bs).Ok? ==> FailsAlike(r.dec(bs), c.dec(bs))
    ensures forall u :: r.enc(u) == c.enc(x)
  {
    Codec(
      bs => var p :- c.dec(bs); if p.value == x then Ok(Parsed((), p.rest)) else Err(CheckFail),
      _ => c.enc(x))
  }

  /** `skip(c, x)`: reads and discards a value with `c`; always writes `x`. */
  function Skip<T>(c: Codec<T>, x: T): (r: Codec<()>)
    ensures forall bs :: r.dec(bs).Ok? <==> c.dec(bs).Ok?
    ensures forall bs :: c.dec(bs).Ok? ==> r.dec(bs).value.rest == c.dec(bs).value.rest
    ensures forall bs :: !c.dec(bs).Ok? ==> FailsAlike(r.dec(bs), c.dec(bs))
    ensures forall u :: r.enc(u) == c.enc(x)
  {
    Codec(
      bs => var p :- c.dec(bs); Ok(Parsed((), p.rest)),
      _ => c.enc(x))
  }

  /** The read loop of `count`: `k` reads with `c`, each starting where the
      previous one stopped, giving up at the first failure. */
  function CountDecode<T>(c: Codec<T>, k: nat, bs: seq<byte>): (r: Outcome<Parsed<seq<T>>>)
    ensures r.Ok? ==> |r.value.value| == k
    decreases k
  {
    if k == 0 then Ok(Parsed([], bs))
    else
      var p :- c.dec(bs);
      var q :- CountDecode(c, k - 1, p.rest);
      Ok(Parsed([p.value] + q.value, q.rest))
  }

  /** The write loop of `count`: each element in order, stopping at the
      first element whose write fails. */
  function EncodeAll<T>(c: Codec<T>, vs: seq<T>): (r: Written)
    ensures r.status.Ok? <==> forall i :: 0 <= i < |vs| ==> c.enc(vs[i]).status.Ok?
  {
    if vs == [] then Done else Then(c.enc(vs[0]), EncodeAll(c, vs[1..]))
  }

  /** `count(c, k)`: exactly `k` values read or written with `c`; writing a
      sequence of any other length panics before anything is written. */
  function Count<T(!new)>(c: Codec<T>, k: nat): (r: Codec<seq<T>>)
    ensures forall bs :: r.dec(bs).Ok? ==> |r.dec(bs).value.value| == k
    ensures forall bs :: k == 0 ==> r.dec(bs) == Ok(Parsed([], bs))
    ensures forall vs :: |vs| != k ==> r.enc(vs) == Abort
    ensures forall vs :: |vs| == k ==> r.enc(vs) == EncodeAll(c, vs)
  {
    Codec(
      bs => CountDecode(c, k, bs),
      vs => if |vs| == k then EncodeAll(c, vs) else Abort)
  }

  /** `optional(c, present)`: a value read or written with `c` when
      `present`, nothing at all otherwise. Writing a value whose presence
      disagrees with the flag panics before anything is written. */
  function Optional<T(!new)>(c: Codec<T>, present: bool): (r: Codec<Option<T>>)
    ensures forall bs :: !present ==> r.dec(bs) == Ok(Parsed(None, bs))
    ensures forall bs :: present && c.dec(bs).Ok? ==>
              r.dec(bs) == Ok(Parsed(Some(c.dec(bs).value.value), c.dec(bs).value.rest))
    ensures forall bs :: present && !c.dec(bs).Ok? ==> FailsAlike(r.dec(bs), c.dec(bs))
    ensures forall v: T :: present ==> r.enc(Some(v)) == c.enc(v)
    ensures !present ==> r.enc(None) == Done
    ensures forall o: Option<T> :: o.Some? != present ==> r.enc(o) == Abort
  {
    Codec(
      bs => if present then (var p :- c.dec(bs); Ok(Parsed(Some(p.value), p.rest)))
            else Ok(Parsed(None, bs)),
      (o: Option<T>) =>
        if o.Some? != present then Abort
        else if present then c.enc(o.value)
        else Done)
  }

  /** `cast(c)`: `c` seen through a pair of total conversions, `into` after
      reading and `from` before writing; it adds no failure of its own. */
  function Cast<I(!new), O>(c: Codec<O>, into: O -> I, from: I -> O): (r: Codec<I>)
    ensures forall bs :: c.dec(bs).Ok? ==>
              r.dec(bs) == Ok(Parsed(into(c.dec(bs).value.value), c.dec(bs).value.rest))
    ensures forall bs :: !c.dec(bs).Ok? ==> FailsAlike(r.dec(bs), c.dec(bs))
    ensures forall i :: r.enc(i) == c.enc(from(i))
  {
    Codec(
      bs => var p :- c.dec(bs); Ok(Parsed(into(p.value), p.rest)),
      i => c.enc(from(i)))
  }

  /** `try_cast(c)`: `c` seen through a pair of fallible conversions. A
      conversion that fails is a `CastFail`; on the write side it happens
      before anything is written. */
  function TryCast<I(!new), O>(c: Codec<O>, tryInto: O -> Option<I>, tryFrom: I -> Option<O>): (r: Codec<I>)
    ensures forall bs :: c.dec(bs).Ok? && tryInto(c.dec(bs).value.value).Some? ==>
              r.dec(bs) == Ok(Parsed(tryInto(c.dec(bs).value.value).value, c.dec(bs).value.rest))
    ensures forall bs :: c.dec(bs).Ok? && tryInto(c.dec(bs).value.value).None? ==> r.dec(bs) == Err(CastFail)
    ensures forall bs :: !c.dec(bs).Ok? ==> FailsAlike(r.dec(bs), c.dec(bs))
    ensures forall i :: tryFrom(i).None? ==> r.enc(i) == Written([], Err(CastFail))
    ensures forall i :: tryFrom(i).Some? ==> r.enc(i) == c.enc(tryFrom(i).value)
  {
    Codec(
      bs => var p :- c.dec(bs);
            match tryInto(p.value)
            case Some(i) => Ok(Parsed(i, p.rest))
            case None => Err(CastFail),
      i => match tryFrom(i)
           case Some(o) => c.enc(o)
           case None => Written([], Err(CastFail)))
  }

  // ---------------------------------------------------------------------
  // Round trips: each combinator preserves the round trip of its inner codec

  lemma BindRoundTrip<T>(c: Codec<T>, x: T)
    requires RoundTrips(c, x)
    ensures RoundTrips(Bind(c, x), ())
  {
    forall rest: seq<byte>
      ensures Bind(c, x).dec(Bind(c, x).enc(()).bytes + rest) == Ok(Parsed((), rest))
    {
      assert c.dec(c.enc(x).bytes + rest) == Ok(Parsed(x, rest));
    }
  }

  lemma SkipRoundTrip<T>(c: Codec<T>, x: T)
    requires RoundTrips(c, x)
    ensures RoundTrips(Skip(c, x), ())
  {
    forall rest: seq<byte>
      ensures Skip(c, x).dec(Skip(c, x).enc(()).bytes + rest) == Ok(Parsed((), rest))
    {
      assert c.dec(c.enc(x).bytes + rest) == Ok(Parsed(x, rest));
    }
  }

  /** Writing the elements one after the other and reading them back in
      the same order recovers them all. */
  lemma {:induction false} EncodeAllRoundTrip<T>(c: Codec<T>, vs: seq<T>, rest: seq<byte>)
    requires forall i :: 0 <= i < |vs| ==> RoundTrips(c, vs[i])
    ensures EncodeAll(c, vs).status == Ok(())
    ensures CountDecode(c, |vs|, EncodeAll(c, vs).bytes + rest) == Ok(Parsed(vs, rest))
  {
    if vs != [] {
      var v := vs[0];
      var tl := vs[1..];
      assert RoundTrips(c, v);
      assert forall i :: 0 <= i < |tl| ==> RoundTrips(c, tl[i]) by {
        forall i | 0 <= i < |tl| ensures RoundTrips(c, tl[i]) {
          assert tl[i] == vs[i + 1];
        }
      }
      EncodeAllRoundTrip(c, tl, rest);
      var head := c.enc(v).bytes;
      var tail := EncodeAll(c, tl).bytes;
      assert EncodeAll(c, vs) == Then(c.enc(v), EncodeAll(c, tl));
      ThenBytes(c.enc(v), EncodeAll(c, tl), rest);
      assert c.dec(head + (tail + rest)) == Ok(Parsed(v, tail + rest));
      assert CountDecode(c, |tl|, tail + rest) == Ok(Parsed(tl, rest));
      assert |vs| - 1 == |tl|;
      assert CountDecode(c, |vs|, head + (tail + rest)) == Ok(Parsed([v] + tl, rest));
      assert vs == [v] + tl;
    } else {
      assert EncodeAll(c, vs).bytes + rest == rest;
    }
  }

  lemma CountRoundTrip<T(!new)>(c: Codec<T>, vs: seq<T>)
    requires forall i :: 0 <= i < |vs| ==> RoundTrips(c, vs[i])
    ensures RoundTrips(Count(c, |vs|), vs)
  {
    forall rest: seq<byte>
      ensures Count(c, |vs|).dec(Count(c, |vs|).enc(vs).bytes + rest) == Ok(Parsed(vs, rest))
    {
      EncodeAllRoundTrip(c, vs, rest);
    }
    EncodeAllRoundTrip(c, vs, []);
  }

  /** Reading `a + b` elements is reading `a` elements and then `b` more
      from where those stopped: the elements come in stream order, and a
      failure among the first `a` ends the whole read. */
  lemma {:induction false} CountDecodeSplit<T>(c: Codec<T>, a: nat, b: nat, bs: seq<byte>)
    ensures CountDecode(c, a + b, bs) ==
              (var p :- CountDecode(c, a, bs);
               var q :- CountDecode(c, b, p.rest);
               Ok(Parsed(p.value + q.value, q.rest)))
    decreases a
  {
    if a == 0 {
      var q := CountDecode(c, b, bs);
      if q.Ok? {
        assert [] + q.value.value == q.value.value;
      }
    } else if c.dec(bs).Ok? {
      var p := c.dec(bs).value;
      CountDecodeSplit(c, a - 1, b, p.rest);
      var m := CountDecode(c, a - 1, p.rest);
      if m.Ok? {
        var q := CountDecode(c, b, m.value.rest);
        if q.Ok? {
          assert [p.value] + (m.value.value + q.value.value) == ([p.value] + m.value.value) + q.value.value;
        }
      }
    }
  }

  /** Reading one element is one read with `c`: its value as a
      one-element sequence, or its failure. With `CountDecodeSplit`, this
      fixes the read of any number of elements on every input. */
  lemma CountDecodeOne<T>(c: Codec<T>, bs: seq<byte>)
    ensures !c.dec(bs).Ok? ==> FailsAlike(CountDecode(c, 1, bs), c.dec(bs))
    ensures c.dec(bs).Ok? ==>
              CountDecode(c, 1, bs) == Ok(Parsed([c.dec(bs).value.value], c.dec(bs).value.rest))
  {
    if c.dec(bs).Ok? {
      var p := c.dec(bs).value;
      assert CountDecode(c, 0, p.rest) == Ok(Parsed([], p.rest));
      assert [p.value] + [] == [p.value];
    }
  }

  /** Writing one element is writing it with `c`. */
  lemma EncodeAllOne<T>(c: Codec<T>, v: T)
    ensures EncodeAll(c, [v]) == c.enc(v)
  {
    assert [v][1..] == [];
    assert EncodeAll(c, [v]) == Then(c.enc(v), Done);
    assert c.enc(v).bytes + [] == c.enc(v).bytes;
    if c.enc(v).status.Ok? {
      match c.enc(v).status.value { case () => }
    }
  }

  /** Writing the elements of `a + b` is writing those of `a` and then
      those of `b`: with `EncodeAllOne`, the bytes are the elements'
      encodings concatenated in order, up to the first failure. */
  lemma {:induction false} EncodeAllAppend<T>(c: Codec<T>, a: seq<T>, b: seq<T>)
    ensures EncodeAll(c, a + b) == Then(EncodeAll(c, a), EncodeAll(c, b))
    decreases |a|
  {
    if a == [] {
      assert a + b == b;
      assert [] + EncodeAll(c, b).bytes == EncodeAll(c, b).bytes;
    } else {
      assert (a + b)[0] == a[0];
      assert (a + b)[1..] == a[1..] + b;
      EncodeAllAppend(c, a[1..], b);
      ThenAssociative(c.enc(a[0]), EncodeAll(c, a[1..]), EncodeAll(c, b));
    }
  }

  lemma OptionalRoundTrip<T(!new)>(c: Codec<T>, present: bool, o: Option<T>)
    requires o.Some? == present
    requires o.Some? ==> RoundTrips(c, o.value)
    ensures RoundTrips(Optional(c, present), o)
  {
    var r := Optional(c, present);
    forall rest: seq<byte>
      ensures r.dec(r.enc(o).bytes + rest) == Ok(Parsed(o, rest))
    {
      if present {
        assert c.dec(c.enc(o.value).bytes + rest) == Ok(Parsed(o.value, rest));
      } else {
        assert r.enc(o).bytes + rest == rest;
      }
    }
  }

  lemma CastRoundTrip<I(!new), O>(c: Codec<O>, into: O -> I, from: I -> O, i: I)
    requires into(from(i)) == i
    requires RoundTrips(c, from(i))
    ensures RoundTrips(Cast(c, into, from), i)
  {
    var r := Cast(c, into, from);
    forall rest: seq<byte>
      ensures r.dec(r.enc(i).bytes + rest) == Ok(Parsed(i, rest))
    {
      assert c.dec(c.enc(from(i)).bytes + rest) == Ok(Parsed(from(i), rest));
    }
  }

  lemma TryCastRoundTrip<I(!new), O>(c: Codec<O>, tryInto: O -> Option<I>, tryFrom: I -> Option<O>, i: I)
    requires tryFrom(i).Some? && tryInto(tryFrom(i).value) == Some(i)
    requires RoundTrips(c, tryFrom(i).value)
    ensures RoundTrips(TryCast(c, tryInto, tryFrom), i)
  {
    var r := TryCast(c, tryInto, tryFrom);
    var o := tryFrom(i).value;
    forall rest: seq<byte>
      ensures r.dec(r.enc(i).bytes + rest) == Ok(Parsed(i, rest))
    {
      assert c.dec(c.enc(o).bytes + rest) == Ok(Parsed(o, rest));
    }
  }

  // ---------------------------------------------------------------------
  // The documented examples

  /** `bind(be_u8(), 0x50)` and `skip(be_u8(), 0x50)` write 0x50 whatever
      they are given; `bind` reads 0x50 back as unit and rejects 0x51. */
  lemma BindSkipExample()
    ensures Bind(BeU8(), 0x50).enc(()).bytes == [0x50]
    ensures Skip(BeU8(), 0x50).enc(()).bytes == [0x50]
    ensures Bind(BeU8(), 0x50).dec([0x50, 0x07]) == Ok(Parsed((), [0x07]))
    ensures Bind(BeU8(), 0x50).dec([0x51, 0x07]) == Err(CheckFail)
  {
    BeU8Encode(0x50);
    BeU8Decode([0x50, 0x07]);
    BeU8Decode([0x51, 0x07]);
  }

  /** `count(be_u8(), 3)` writes [10, 20, 30] as those three bytes, and
      panics on a two-element sequence. */
  lemma CountExample()
    ensures Count(BeU8(), 3).enc([10, 20, 30]) == Written([10, 20, 30], Ok(()))
    ensures Count(BeU8(), 3).enc([10, 20]) == Abort
  {
    EncodeAllBytes([10, 20, 30]);
  }

  /** Writing bytes one by one with `be_u8` writes exactly those bytes. */
  lemma {:induction false} EncodeAllBytes(vs: seq<byte>)
    ensures EncodeAll(BeU8(), vs) == Written(vs, Ok(()))
  {
    if vs != [] {
      BeU8Encode(vs[0]);
      EncodeAllBytes(vs[1..]);
      assert vs == [vs[0]] + vs[1..];
    }
  }

  /** `try_cast(be_u8())` from a `usize`: 20 is written as one byte, 256
      fails with `CastFail` before anything is written. */
  lemma TryCastExample()
    ensures TryCast(BeU8(), UsizeFromU8, U8FromUsize).enc(20) == Written([20], Ok(()))
    ensures TryCast(BeU8(), UsizeFromU8, U8FromUsize).enc(256) == Written([], Err(CastFail))
  {
    BeU8Encode(20);
  }

  /** `TryFrom<u8> for usize`: always succeeds. */
  function UsizeFromU8(v: int): Option<int> {
    Some(v)
  }

  /** `TryFrom<usize> for u8`: fails above 255. */
  function U8FromUsize(v: int): Option<int> {
    if 0 <= v < 0x100 then Some(v) else None
  }
}
