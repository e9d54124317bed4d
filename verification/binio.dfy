/** The codec algebra shared by every part of the library: bytes, the error
    taxonomy, the outcome of one decode or encode, the decode/encode pair
    itself, and the two entry points `Read` and `Write` (src/lib.rs). */
module BinIo {

  /** One octet of the byte stream. */
  type byte = b: int | 0 <= b < 0x100

  /** The library's own error variants (src/error.rs), plus the error a
      stream reports when it runs out of bytes before a read completes. */
  datatype BinError =
    | Utf8Conversion
    | Utf16Conversion
    | CheckFail
    | CastFail
    | UnexpectedEof

  /** What one operation produces: a value, a returned error, or a panic.
      Panics stay a separate channel from returned errors, and every
      combinator passes both on unchanged (the `?` operator for errors,
      unwinding for panics). */
  datatype Outcome<+T> = Ok(value: T) | Err(error: BinError) | Panic {

    predicate IsFailure() {
      !Ok?
    }

    function PropagateFailure<U>(): (r: Outcome<U>)
      requires !Ok?
      ensures r.Err? == Err? && (Err? ==> r.error == error)
    {
      if Err? then Err(error) else Panic
    }

    function Extract(): T
      requires Ok?
    {
      value
    }
  }

  /** Two failed outcomes, possibly of different value types, that failed
      the same way: the same returned error, or both a panic. */
  predicate FailsAlike<X, Y>(a: Outcome<X>, b: Outcome<Y>) {
    || (a.Err? && b.Err? && a.error == b.error)
    || (a.Panic? && b.Panic?)
  }

  /** The Rust `Option`, failure-compatible so that `:-` can be used on it. */
  datatype Option<+T> = None | Some(value: T) {

    predicate IsFailure() {
      None?
    }

    function PropagateFailure<U>(): Option<U>
      requires None?
    {
      None
    }

    function Extract(): T
      requires Some?
    {
      value
    }
  }

  /** A successful decode: the value read and the bytes of the stream that
      are still unread after it. */
  datatype Parsed<+T> = Parsed(value: T, rest: seq<byte>)

  /** What an encode appends to the sink, and how it ended. The bytes are
      appended even when the encode ends in an error or a panic part way
      through, exactly as they would be on a real sink. */
  datatype Written = Written(bytes: seq<byte>, status: Outcome<()>)

  /** The encode that writes nothing and succeeds. */
  const Done: Written := Written([], Ok(()))

  /** The encode that panics before writing anything. */
  const Abort: Written := Written([], Panic)

  /** Runs `first`, and then `next` only if `first` succeeded: the sink
      sequencing of two `?`-separated writes. What the first write put on
      the sink stays there; the pair returns normally exactly when both
      writes do, having written both; and a failed first write ends the
      pair, so `next` adds nothing. */
  function Then(first: Written, next: Written): (r: Written)
    ensures first.bytes <= r.bytes
    ensures r.status.Ok? <==> first.status.Ok? && next.status.Ok?
    ensures r.status.Ok? ==> r.bytes == first.bytes + next.bytes
    ensures first.status.Ok? ==> r.status == next.status && r.bytes == first.bytes + next.bytes
    ensures !first.status.Ok? ==> r == first
  {
    if first.status.Ok? then Written(first.bytes + next.bytes, next.status) else first
  }

  /** Sequencing is associative: how `?`-separated writes are grouped
      makes no difference to what reaches the sink. */
  lemma ThenAssociative(a: Written, b: Written, c: Written)
    ensures Then(Then(a, b), c) == Then(a, Then(b, c))
  {
  }

  /** After a successful write, the bytes of a sequence of writes, then
      more, are the first write's bytes, then the rest's, then more. */
  lemma ThenBytes(a: Written, b: Written, more: seq<byte>)
    requires a.status.Ok?
    ensures Then(a, b).bytes + more == a.bytes + (b.bytes + more)
  {
  }

  /** A codec: the read closure and the write closure of the source's tuple.
      The decode half sees the unread part of the stream; the encode half
      returns what it appended to the sink. */
  datatype Codec<!T> = Codec(dec: seq<byte> -> Outcome<Parsed<T>>, enc: T -> Written)

  /** `v` survives a trip through `c`: encoding succeeds, and decoding the
      encoded bytes followed by any further bytes yields `v` again and
      leaves exactly the further bytes unread. */
  ghost predicate RoundTrips<T>(c: Codec<T>, v: T) {
    && c.enc(v).status == Ok(())
    && forall rest: seq<byte> :: c.dec(c.enc(v).bytes + rest) == Ok(Parsed(v, rest))
  }

  /** What a round-tripping value was written as reads back as that
      value, consuming exactly those bytes. */
  lemma DecodeWritten<T>(c: Codec<T>, v: T, bytes: seq<byte>)
    requires RoundTrips(c, v) && c.enc(v).bytes == bytes
    ensures c.dec(bytes) == Ok(Parsed(v, []))
  {
    assert bytes + [] == bytes;
  }

  /** `read`: applies the decode half of the pair to the stream. */
  function Read<T>(src: seq<byte>, c: Codec<T>): Outcome<Parsed<T>>
  {
    c.dec(src)
  }

  /** `write`: applies the encode half of the pair, appending to the sink. */
  function Write<T>(sink: seq<byte>, v: T, c: Codec<T>): (r: (seq<byte>, Outcome<()>))
    ensures |r.0| >= |sink| && r.0[..|sink|] == sink
  {
    (sink + c.enc(v).bytes, c.enc(v).status)
  }

  /** Only the decode half matters to `read`: two codecs that decode alike
      read alike, whatever their encode halves do. */
  lemma ReadUsesDecodeHalfOnly<T>(src: seq<byte>, c: Codec<T>, e: T -> Written)
    ensures Read(src, Codec(c.dec, e)) == Read(src, c)
  {
  }

  /** Only the encode half matters to `write`. */
  lemma WriteUsesEncodeHalfOnly<T>(sink: seq<byte>, v: T, c: Codec<T>, d: seq<byte> -> Outcome<Parsed<T>>)
    ensures Write(sink, v, Codec(d, c.enc)) == Write(sink, v, c)
  {
  }
}
