/** The worked examples of the library's documentation, as lemmas about the
    model: the `Thing` struct of src/lib.rs, the length-prefixed `Foo` and
    the unit aggregate of src/macros.rs, and the `read`/`write` examples. */
module Examples {
  import opened BinIo
  import opened Numbers
  import opened Utils
  import opened Macros

  // ---------------------------------------------------------------------
  // `read` and `write` (src/lib.rs)

  /** Reading `be_u8` from the stream `[0x80]` yields 0x80. */
  lemma ReadExample()
    ensures Read([0x80], BeU8()) == Ok(Parsed(0x80, []))
  {
    BeU8Decode([0x80]);
  }

  /** Writing 0x80 with `be_u8` to an empty sink leaves 0x80 first. */
  lemma WriteExample()
    ensures Write([], 0x80, BeU8()) == ([0x80], Ok(()))
  {
    BeU8Encode(0x80);
  }

  // ---------------------------------------------------------------------
  // `Thing { a, b }`, `a: be_u8() => b: be_u16() =>`

  datatype Thing = Thing(a: int, b: int)

  /** The variable `name` of an integer scope, 0 when unbound. */
  function Lookup(env: Env<int>, name: string): int {
    if name in env then env[name] else 0
  }

  function ThingField(t: Thing, f: string): int {
    if f == "a" then t.a else if f == "b" then t.b else 0
  }

  /** `Thing { a, b }` evaluated in a scope. */
  function BuildThing(env: Env<int>): Thing {
    Thing(Lookup(env, "a"), Lookup(env, "b"))
  }

  function ThingAggregate(): Aggregate<Thing, int> {
    Aggregate(Braced(["a", "b"]), BuildThing, ThingField)
  }

  /** The codec of `a`: `be_u8()`. */
  function ACodec(env: Env<int>): Codec<int> {
    BeU8()
  }

  /** The codec of `b`: `be_u16()`. */
  function BCodec(env: Env<int>): Codec<int> {
    BeU16()
  }

  function ThingSteps(): seq<Step<int>> {
    [Named("a", ACodec), Named("b", BCodec)]
  }

  lemma ThingFields()
    ensures ThingAggregate().shape.Fields() == {"a", "b"}
    ensures BoundNames(ThingSteps()) == {"a", "b"}
    ensures DefaultNames(ThingSteps()) == {}
    ensures EncodeScoped(ThingSteps(), {"a", "b"})
  {
    var steps := ThingSteps();
    assert steps[1..][1..] == [];
  }

  function ThingCodec(): Codec<Thing> {
    ThingFields();
    Seq(ThingAggregate(), ThingSteps())
  }

  /** The scope the write closure of `Thing` starts in. */
  lemma ThingScope(t: Thing)
    ensures Destructure(ThingAggregate(), t) == map["a" := t.a, "b" := t.b]
  {
    ThingFields();
  }

  lemma ThingMirrors(t: Thing)
    requires 0 <= t.a < 0x100 && 0 <= t.b < 0x1_0000
    ensures Mirrors(ThingSteps(), map[], map["a" := t.a, "b" := t.b])
  {
    ThingStepsMirror(t);
    MirrorsTwo(ThingSteps(), map[], map["a" := t.a, "b" := t.b], map["a" := t.a], map["a" := t.a, "b" := t.b]);
  }

  lemma ThingStepsMirror(t: Thing)
    requires 0 <= t.a < 0x100 && 0 <= t.b < 0x1_0000
    ensures StepMirrors(ThingSteps()[0], map[], map["a" := t.a, "b" := t.b])
    ensures StepMirrors(ThingSteps()[1], map["a" := t.a], map["a" := t.a, "b" := t.b])
  {
    ThingStepAMirrors(t.a, map["a" := t.a, "b" := t.b]);
    ThingStepBMirrors(t.b, map["a" := t.a], map["a" := t.a, "b" := t.b]);
  }

  lemma ThingStepAMirrors(a: int, e: Env<int>)
    requires 0 <= a < 0x100 && "a" in e && e["a"] == a
    ensures StepMirrors(ThingSteps()[0], map[], e)
  {
    IntRoundTrip(U8, Big, a);
    NamedMirrors(ThingSteps()[0], map[], e, BeU8());
  }

  lemma ThingStepBMirrors(b: int, d: Env<int>, e: Env<int>)
    requires 0 <= b < 0x1_0000 && "b" in e && e["b"] == b
    ensures StepMirrors(ThingSteps()[1], d, e)
  {
    IntRoundTrip(U16, Big, b);
    NamedMirrors(ThingSteps()[1], d, e, BeU16());
  }

  /** Every `Thing` whose fields fit their types survives a write and a
      read, as the crate-level example asserts for `Thing { a: 0x10,
      b: 0x20 }`. */
  lemma ThingRoundTrip(t: Thing)
    requires 0 <= t.a < 0x100 && 0 <= t.b < 0x1_0000
    ensures RoundTrips(ThingCodec(), t)
  {
    ThingFields();
    ThingScope(t);
    ThingMirrors(t);
    SeqRoundTrip(ThingAggregate(), ThingSteps(), t);
  }

  /** The scope of the write closure for `Thing { a: 0x10, b: 0x20 }`. */
  function ThingScope10(): Env<int> {
    map["a" := 0x10, "b" := 0x20]
  }

  lemma ThingWritesA()
    ensures WriteStep(ThingSteps()[0], ThingScope10()) == Written([0x10], Ok(()))
  {
    NamedWrites(ThingSteps()[0], ThingScope10(), BeU8());
    BeU8Encode(0x10);
  }

  lemma ThingWritesB()
    ensures WriteStep(ThingSteps()[1], ThingScope10()) == Written([0x00, 0x20], Ok(()))
  {
    NamedWrites(ThingSteps()[1], ThingScope10(), BeU16());
    BeU16Encode(0x20);
    assert 0x20 / 256 == 0 && 0x20 % 256 == 0x20;
  }

  lemma ThingWrites()
    ensures EncodeScoped(ThingSteps(), ThingScope10().Keys)
    ensures EncodeSteps(ThingSteps(), ThingScope10()) == Written([0x10, 0x00, 0x20], Ok(()))
  {
    ThingScopeFacts();
    ThingWritesA();
    ThingWritesB();
    WriteTwoSteps(ThingSteps(), ThingScope10(), ThingScope10(), Written([0x10], Ok(())), Written([0x00, 0x20], Ok(())));
    ThingBytesJoin();
  }

  /** What writing the two steps of `Thing` in the scope 0x10, 0x20 needs. */
  lemma ThingScopeFacts()
    ensures |ThingSteps()| == 2 && EncodeScoped(ThingSteps(), ThingScope10().Keys)
    ensures Rebind(ThingSteps()[0], ThingScope10()) == ThingScope10()
    ensures ThingSteps()[1].Named? && ThingSteps()[1].name in ThingScope10()
  {
    ThingFields();
    assert ThingScope10().Keys == {"a", "b"};
  }

  lemma ThingBytesJoin()
    ensures Then(Written([0x10], Ok(())), Then(Written([0x00, 0x20], Ok(())), Done))
      == Written([0x10, 0x00, 0x20], Ok(()))
  {
  }

  /** The bytes written for `Thing { a: 0x10, b: 0x20 }`: 0x10, then 0x20
      as a big-endian `u16`. */
  lemma ThingBytes()
    ensures ThingCodec().enc(Thing(0x10, 0x20)) == Written([0x10, 0x00, 0x20], Ok(()))
  {
    ThingFields();
    ThingScope(Thing(0x10, 0x20));
    ThingWrites();
    assert Destructure(ThingAggregate(), Thing(0x10, 0x20)) == ThingScope10();
  }

  // ---------------------------------------------------------------------
  // `Foo { a }`, `length: be_u8(), a.len() as u8 =>
  //               a: count(be_i16(), length as _) =>`

  /** The two variable types of this example: the `u8` length and the
      `Vec<i16>` field. */
  datatype Value = Num(n: int) | Nums(ns: seq<int>)

  datatype Foo = Foo(a: seq<int>)

  function IntoNum(i: int): Option<Value> {
    Some(Num(i))
  }

  function FromNum(v: Value): Option<int> {
    if v.Num? then Some(v.n) else None
  }

  function IntoNums(s: seq<int>): Option<Value> {
    Some(Nums(s))
  }

  function FromNums(v: Value): Option<seq<int>> {
    if v.Nums? then Some(v.ns) else None
  }

  /** An integer codec seen as a codec of `Value`. */
  function NumCodec(c: Codec<int>): Codec<Value> {
    TryCast(c, IntoNum, FromNum)
  }

  /** A codec of integer sequences seen as a codec of `Value`. */
  function NumsCodec(c: Codec<seq<int>>): Codec<Value> {
    TryCast(c, IntoNums, FromNums)
  }

  /** `length as _`: the bound length, as a `usize`. */
  function LengthOf(env: Env<Value>): nat {
    if "length" in env && env["length"].Num? && env["length"].n >= 0 then env["length"].n else 0
  }

  /** `a.len() as u8`: the length of the field, truncated to a byte. */
  function LengthDefault(env: Env<Value>): Value {
    Num(if "a" in env && env["a"].Nums? then |env["a"].ns| % 0x100 else 0)
  }

  /** `Foo { a }` evaluated in a scope. */
  function BuildFoo(env: Env<Value>): Foo {
    Foo(if "a" in env && env["a"].Nums? then env["a"].ns else [])
  }

  function FooField(f: Foo, name: string): Value {
    Nums(f.a)
  }

  function FooAggregate(): Aggregate<Foo, Value> {
    Aggregate(Braced(["a"]), BuildFoo, FooField)
  }

  /** The codec of `length`: `be_u8()`. */
  function LengthCodec(env: Env<Value>): Codec<Value> {
    NumCodec(BeU8())
  }

  /** The codec of `a`: `count(be_i16(), length as _)`. */
  function ElementsCodec(env: Env<Value>): Codec<Value> {
    NumsCodec(Count(BeI16(), LengthOf(env)))
  }

  function FooSteps(): seq<Step<Value>> {
    [NamedDefault("length", LengthCodec, LengthDefault), Named("a", ElementsCodec)]
  }

  lemma FooFields()
    ensures FooAggregate().shape.Fields() == {"a"}
    ensures BoundNames(FooSteps()) == {"length", "a"}
    ensures DefaultNames(FooSteps()) == {"length"}
    ensures EncodeScoped(FooSteps(), {"a"})
  {
    var steps := FooSteps();
    assert steps[1..][1..] == [];
  }

  function FooCodec(): Codec<Foo> {
    FooFields();
    Seq(FooAggregate(), FooSteps())
  }

  /** The scope the write closure of `Foo` starts in. */
  lemma FooScope(f: Foo)
    ensures Destructure(FooAggregate(), f) == map["a" := Nums(f.a)]
  {
    FooFields();
  }

  lemma LengthRoundTrip(k: int)
    requires 0 <= k < 0x100
    ensures RoundTrips(NumCodec(BeU8()), Num(k))
  {
    IntRoundTrip(U8, Big, k);
    TryCastRoundTrip(BeU8(), IntoNum, FromNum, Num(k));
  }

  lemma ElementsRoundTrip(xs: seq<int>)
    requires forall i :: 0 <= i < |xs| ==> InRange(I16, xs[i])
    ensures RoundTrips(NumsCodec(Count(BeI16(), |xs|)), Nums(xs))
  {
    forall i | 0 <= i < |xs| ensures RoundTrips(BeI16(), xs[i]) {
      IntRoundTrip(I16, Big, xs[i]);
    }
    CountRoundTrip(BeI16(), xs);
    TryCastRoundTrip(Count(BeI16(), |xs|), IntoNums, FromNums, Nums(xs));
  }

  /** The length step mirrors: it writes `a.len() as u8` and reads it back
      into `length`. */
  lemma LengthStepMirrors(xs: seq<int>)
    requires |xs| < 0x100
    ensures StepMirrors(FooSteps()[0], map[], map["a" := Nums(xs)])
    ensures Rebind(FooSteps()[0], map["a" := Nums(xs)]) == map["a" := Nums(xs), "length" := Num(|xs|)]
    ensures ReadBack(FooSteps()[0], map[], map["a" := Nums(xs)]) == map["length" := Num(|xs|)]
  {
    var s, e := FooSteps()[0], map["a" := Nums(xs)];
    assert s.default(e) == Num(|xs|);
    LengthRoundTrip(|xs|);
    DefaultMirrors(s, map[], e, NumCodec(BeU8()));
  }

  /** The element step mirrors: read and write both count `length`
      values. */
  lemma ElementsStepMirrors(xs: seq<int>)
    requires |xs| < 0x100
    requires forall i :: 0 <= i < |xs| ==> InRange(I16, xs[i])
    ensures StepMirrors(FooSteps()[1], map["length" := Num(|xs|)], map["a" := Nums(xs), "length" := Num(|xs|)])
  {
    var d1: Env<Value> := map["length" := Num(|xs|)];
    var e1 := map["a" := Nums(xs), "length" := Num(|xs|)];
    assert LengthOf(d1) == LengthOf(e1) == |xs|;
    ElementsRoundTrip(xs);
    NamedMirrors(FooSteps()[1], d1, e1, NumsCodec(Count(BeI16(), |xs|)));
  }

  lemma FooMirrors(xs: seq<int>)
    requires |xs| < 0x100
    requires forall i :: 0 <= i < |xs| ==> InRange(I16, xs[i])
    ensures Mirrors(FooSteps(), map[], map["a" := Nums(xs)])
  {
    LengthStepMirrors(xs);
    ElementsStepMirrors(xs);
    MirrorsTwo(FooSteps(), map[], map["a" := Nums(xs)],
      map["length" := Num(|xs|)], map["a" := Nums(xs), "length" := Num(|xs|)]);
  }

  /** Every `Foo` of fewer than 256 `i16` values survives a write and a
      read: the length is written from the default and read back before
      the values it counts. */
  lemma FooRoundTrip(f: Foo)
    requires |f.a| < 0x100
    requires forall i :: 0 <= i < |f.a| ==> InRange(I16, f.a[i])
    ensures RoundTrips(FooCodec(), f)
  {
    FooFields();
    FooScope(f);
    FooMirrors(f.a);
    SeqRoundTrip(FooAggregate(), FooSteps(), f);
  }

  /** `be_i16` writes what `be_u16` writes: the same two's-complement
      bits. */
  lemma I16EncodeAsU16(u: int)
    ensures BeI16().enc(u) == BeU16().enc(u)
  {
    IntEncodeUnfold(I16, Big, u);
    IntEncodeUnfold(U16, Big, u);
  }

  /** `be_i16` writes a value below 0x100 as a zero byte and the value. */
  lemma SmallI16Encode(u: byte)
    ensures BeI16().enc(u) == Written([0, u], Ok(()))
  {
    I16EncodeAsU16(u);
    BeU16Encode(u);
    assert u / 256 == 0 && u % 256 == u;
  }

  /** The scope of the write closure for `Foo { a: vec![0x50, 0x60] }`
      after the length default. */
  function FooScope2(): Env<Value> {
    map["a" := Nums([0x50, 0x60]), "length" := Num(2)]
  }

  lemma ElementsBytes()
    ensures FooSteps()[1].Named? && FooSteps()[1].name in FooScope2()
    ensures WriteStep(FooSteps()[1], FooScope2()) == Written([0x0, 0x50, 0x0, 0x60], Ok(()))
  {
    var s, e := FooSteps()[1], FooScope2();
    ElementsCodecAt(e);
    NamedWrites(s, e, NumsCodec(Count(BeI16(), 2)));
    ElementsWrite();
  }

  /** The scope after the length default picks `count(be_i16(), 2)`. */
  lemma ElementsCodecAt(e: Env<Value>)
    requires e == FooScope2()
    ensures FooSteps()[1].Named? && FooSteps()[1].name in e
    ensures FooSteps()[1].codec(e) == NumsCodec(Count(BeI16(), 2))
    ensures e[FooSteps()[1].name] == Nums([0x50, 0x60])
  {
    assert LengthOf(e) == 2;
  }

  /** `count(be_i16(), 2)` writes 0x50 and 0x60 as two big-endian `i16`s. */
  lemma ElementsWrite()
    ensures NumsCodec(Count(BeI16(), 2)).enc(Nums([0x50, 0x60])) == Written([0x0, 0x50, 0x0, 0x60], Ok(()))
  {
    SmallI16Encode(0x50);
    SmallI16Encode(0x60);
    EncodeTwo(BeI16(), 0x50, 0x60);
    ElementsBytesJoin();
  }

  lemma ElementsBytesJoin()
    ensures Then(Written([0x0, 0x50], Ok(())), Then(Written([0x0, 0x60], Ok(())), Done))
      == Written([0x0, 0x50, 0x0, 0x60], Ok(()))
  {
    assert [0x0, 0x60] + [] == [0x0, 0x60];
    assert [0x0, 0x50] + [0x0, 0x60] == [0x0, 0x50, 0x0, 0x60];
  }

  /** Writing two elements is writing the first, then the second. */
  lemma EncodeTwo<T>(c: Codec<T>, x: T, y: T)
    ensures EncodeAll(c, [x, y]) == Then(c.enc(x), Then(c.enc(y), Done))
  {
    assert [x, y][1..] == [y];
    assert [y][1..] == [];
    assert EncodeAll(c, [y]) == Then(c.enc(y), EncodeAll(c, []));
    assert EncodeAll(c, []) == Done;
  }

  lemma LengthBytes()
    ensures WriteStep(FooSteps()[0], map["a" := Nums([0x50, 0x60])]) == Written([2], Ok(()))
    ensures Rebind(FooSteps()[0], map["a" := Nums([0x50, 0x60])]) == FooScope2()
  {
    LengthStepMirrors([0x50, 0x60]);
    BeU8Encode(2);
  }

  /** Writing two steps is writing the first, then the second in the
      scope the first left. */
  lemma WriteTwoSteps<V>(steps: seq<Step<V>>, e: Env<V>, e1: Env<V>, w0: Written, w1: Written)
    requires |steps| == 2 && EncodeScoped(steps, e.Keys)
    requires WriteStep(steps[0], e) == w0 && Rebind(steps[0], e) == e1
    requires steps[1].Named? ==> steps[1].name in e1
    requires WriteStep(steps[1], e1) == w1
    ensures EncodeSteps(steps, e) == Then(w0, Then(w1, Done))
  {
    assert steps[1..][0] == steps[1];
    assert steps[1..][1..] == [];
  }

  /** The bytes written for `Foo { a: vec![0x50, 0x60] }`: the length 2,
      then each value as a big-endian `i16`. */
  lemma FooWrites()
    ensures EncodeScoped(FooSteps(), map["a" := Nums([0x50, 0x60])].Keys)
    ensures EncodeSteps(FooSteps(), map["a" := Nums([0x50, 0x60])]) == Written([0x2, 0x0, 0x50, 0x0, 0x60], Ok(()))
  {
    FooScoped();
    LengthBytes();
    ElementsBytes();
    WriteTwoSteps(FooSteps(), map["a" := Nums([0x50, 0x60])], FooScope2(), Written([2], Ok(())), Written([0x0, 0x50, 0x0, 0x60], Ok(())));
    FooBytesJoin();
  }

  lemma FooBytesJoin()
    ensures Then(Written([2], Ok(())), Then(Written([0x0, 0x50, 0x0, 0x60], Ok(())), Done))
      == Written([0x2, 0x0, 0x50, 0x0, 0x60], Ok(()))
  {
  }

  lemma FooScoped()
    ensures EncodeScoped(FooSteps(), map["a" := Nums([0x50, 0x60])].Keys)
  {
    FooFields();
    assert map["a" := Nums([0x50, 0x60])].Keys == {"a"};
  }

  lemma FooBytes()
    ensures FooCodec().enc(Foo([0x50, 0x60])) == Written([0x2, 0x0, 0x50, 0x0, 0x60], Ok(()))
  {
    FooFields();
    FooScope(Foo([0x50, 0x60]));
    FooWrites();
  }

  lemma FooWritten()
    ensures RoundTrips(FooCodec(), Foo([0x50, 0x60]))
    ensures FooCodec().enc(Foo([0x50, 0x60])).bytes == [0x2, 0x0, 0x50, 0x0, 0x60]
  {
    FooRoundTrip(Foo([0x50, 0x60]));
    FooBytes();
  }

  /** The documented read: `[0x2, 0x0, 0x50, 0x0, 0x60]` is
      `Foo { a: vec![0x50, 0x60] }`. */
  lemma FooExample()
    ensures FooCodec().dec([0x2, 0x0, 0x50, 0x0, 0x60]) == Ok(Parsed(Foo([0x50, 0x60]), []))
  {
    var c := FooCodec();
    FooWritten();
    DecodeWritten(c, Foo([0x50, 0x60]), [0x2, 0x0, 0x50, 0x0, 0x60]);
  }

  // ---------------------------------------------------------------------
  // `seq!((), bind(be_i8(), -20) =>)`

  function BuildVoid(env: Env<()>): () {
    ()
  }

  function VoidField(u: (), name: string): () {
    ()
  }

  function VoidAggregate(): Aggregate<(), ()> {
    Aggregate(UnitValue, BuildVoid, VoidField)
  }

  /** The codec of the only step: `bind(be_i8(), -20)`. */
  function CheckCodec(env: Env<()>): Codec<()> {
    Bind(BeI8(), -20)
  }

  function VoidSteps(): seq<Step<()>> {
    [Anon(CheckCodec)]
  }

  function VoidCodec(): Codec<()> {
    assert VoidSteps()[1..] == [];
    Seq(VoidAggregate(), VoidSteps())
  }

  /** The unit aggregate reads the checked byte 0xEC (-20) and writes it
      back; on a stream of zeros, as in the documentation, the check
      fails. */
  lemma VoidExample()
    ensures RoundTrips(VoidCodec(), ())
    ensures VoidCodec().dec([0, 0]) == Err(CheckFail)
  {
    var steps := VoidSteps();
    assert steps[1..] == [];
    IntRoundTrip(I8, Big, -20);
    BindRoundTrip(BeI8(), -20);
    assert Destructure(VoidAggregate(), ()) == map[];
    SeqRoundTrip(VoidAggregate(), steps, ());
    IntDecodeUnfold(I8, Big, [0, 0]);
  }
}
