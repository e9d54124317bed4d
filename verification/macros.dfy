/** The `seq!` macro (src/macros.rs): a codec for an aggregate built from a
    list of steps. Reading runs the steps in order, binding the value of
    each named step so that later steps can use it, and builds the
    aggregate from the bound fields. Writing destructures the aggregate into
    its fields and runs the same steps, writing each named step's bound
    value; a step with a default first rebinds its name to the default.

    Rust binds step results to local variables of many types; here every
    bound value lives in one value universe `V`, and a scope is a map from
    variable names to values. */
module Macros {
  import opened BinIo

  /** The local variables in scope, by name. Later bindings shadow earlier
      ones, as `let` does. */
  type Env<V> = map<string, V>

  /** One `=>`-terminated step of the macro. Every codec expression may use
      the variables bound so far, so it is a function of the scope.
      - `Named`: `name: codec =>`
      - `NamedDefault`: `name: codec, default =>`; the default is evaluated
        only when writing
      - `Anon`: `codec =>`, a codec of `()` such as `bind` or `skip` */
  datatype Step<!V> =
    | Named(name: string, codec: Env<V> -> Codec<V>)
    | NamedDefault(name: string, codec: Env<V> -> Codec<V>, default: Env<V> -> V)
    | Anon(unit: Env<V> -> Codec<()>)

  /** The name a step binds when reading: none for an anonymous step. */
  function Binds<V>(s: Step<V>): set<string> {
    if s.Anon? then {} else {s.name}
  }

  /** The names the steps bind when reading. */
  function BoundNames<V>(steps: seq<Step<V>>): set<string> {
    if steps == [] then {} else Binds(steps[0]) + BoundNames(steps[1..])
  }

  /** The names the steps rebind to a default when writing. */
  function DefaultNames<V>(steps: seq<Step<V>>): set<string> {
    if steps == [] then {}
    else if steps[0].NamedDefault? then {steps[0].name} + DefaultNames(steps[1..])
    else DefaultNames(steps[1..])
  }

  // ---------------------------------------------------------------------
  // Reading: `__impl r`

  /** One step's read: the codec is evaluated in the current scope, and a
      named step binds what it read to its name (the default, if any, is
      not evaluated). */
  function ReadStep<V>(s: Step<V>, env: Env<V>, bs: seq<byte>): (r: Outcome<Parsed<Env<V>>>)
    ensures r.Ok? ==> r.value.value.Keys == env.Keys + Binds(s)
    ensures r.Ok? ==> forall k :: k in env && k !in Binds(s) ==> r.value.value[k] == env[k]
    ensures !s.Anon? ==> (r.Ok? <==> s.codec(env).dec(bs).Ok?)
    ensures !s.Anon? && r.Ok? ==>
      && r.value.value[s.name] == s.codec(env).dec(bs).value.value
      && r.value.rest == s.codec(env).dec(bs).value.rest
    ensures !s.Anon? && !r.Ok? ==> FailsAlike(r, s.codec(env).dec(bs))
    ensures s.Anon? ==> (r.Ok? <==> s.unit(env).dec(bs).Ok?)
    ensures s.Anon? && r.Ok? ==> r.value.rest == s.unit(env).dec(bs).value.rest
    ensures s.Anon? && !r.Ok? ==> FailsAlike(r, s.unit(env).dec(bs))
  {
    if s.Anon? then
      var p :- s.unit(env).dec(bs);
      Ok(Parsed(env, p.rest))
    else
      var p :- s.codec(env).dec(bs);
      Ok(Parsed(env[s.name := p.value], p.rest))
  }

  /** Runs the read half of the steps on `bs` in the scope `env`: the
      scope after the last step and the bytes left unread, or the first
      failure. Each step reads where the previous one stopped. */
  function DecodeSteps<V>(steps: seq<Step<V>>, env: Env<V>, bs: seq<byte>): (r: Outcome<Parsed<Env<V>>>)
    ensures steps == [] ==> r == Ok(Parsed(env, bs))
    ensures r.Ok? ==> r.value.value.Keys == env.Keys + BoundNames(steps)
    ensures r.Ok? ==> forall k :: k in env && k !in BoundNames(steps) ==> r.value.value[k] == env[k]
    decreases |steps|
  {
    if steps == [] then Ok(Parsed(env, bs))
    else
      var p :- ReadStep(steps[0], env, bs);
      DecodeSteps(steps[1..], p.value, p.rest)
  }

  /** A list of one step reads as that step alone. */
  lemma DecodeStepsOne<V>(s: Step<V>, env: Env<V>, bs: seq<byte>)
    ensures DecodeSteps([s], env, bs) == ReadStep(s, env, bs)
  {
    assert [s][1..] == [];
  }

  // ---------------------------------------------------------------------
  // Writing: `__impl w`

  /** The scope a step writes in: a step with a default first rebinds its
      name to the default, evaluated in the current scope. */
  function Rebind<V>(s: Step<V>, env: Env<V>): (r: Env<V>)
    ensures r.Keys == env.Keys + (if s.NamedDefault? then {s.name} else {})
  {
    if s.NamedDefault? then env[s.name := s.default(env)] else env
  }

  /** The names in scope after a step, given the names in scope before. */
  function NamesAfter<V>(s: Step<V>, names: set<string>): set<string> {
    if s.NamedDefault? then names + {s.name} else names
  }

  /** Every named step without a default names a variable in scope when it
      writes: a field of the destructured aggregate or a name an earlier
      default bound. This is what makes the expansion compile. */
  predicate EncodeScoped<V>(steps: seq<Step<V>>, names: set<string>)
    decreases |steps|
  {
    if steps == [] then true
    else
      && (steps[0].Named? ==> steps[0].name in names)
      && EncodeScoped(steps[1..], NamesAfter(steps[0], names))
  }

  /** One step's write: a named step writes the variable of its name, an
      anonymous step writes `()`, each with the codec evaluated in the
      scope after the step's rebinding. */
  function WriteStep<V>(s: Step<V>, env: Env<V>): (r: Written)
    requires s.Named? ==> s.name in env
    ensures s.Named? ==> r == s.codec(env).enc(env[s.name])
    ensures s.NamedDefault? ==> r == s.codec(env[s.name := s.default(env)]).enc(s.default(env))
    ensures s.Anon? ==> r == s.unit(env).enc(())
  {
    var e := Rebind(s, env);
    if s.Anon? then s.unit(e).enc(()) else s.codec(e).enc(e[s.name])
  }

  /** The scope after the write half of the steps. */
  function EnvAfter<V>(steps: seq<Step<V>>, env: Env<V>): (r: Env<V>)
    ensures r.Keys == env.Keys + DefaultNames(steps)
    ensures forall k :: k in env && k !in DefaultNames(steps) ==> r[k] == env[k]
    ensures steps != [] && steps[0].NamedDefault? && steps[0].name !in DefaultNames(steps[1..]) ==>
      r[steps[0].name] == steps[0].default(env)
    decreases |steps|
  {
    if steps == [] then env else EnvAfter(steps[1..], Rebind(steps[0], env))
  }

  /** Runs the write half of the steps in the scope `env`, stopping at the
      first step whose write fails. */
  function EncodeSteps<V>(steps: seq<Step<V>>, env: Env<V>): (r: Written)
    requires EncodeScoped(steps, env.Keys)
    ensures steps == [] ==> r == Done
    decreases |steps|
  {
    if steps == [] then Done
    else Then(WriteStep(steps[0], env), EncodeSteps(steps[1..], Rebind(steps[0], env)))
  }

  // ---------------------------------------------------------------------
  // The aggregate

  /** The four aggregate forms the macro accepts: `Ty { f, … }`,
      `Ty(f, …)`, a unit struct `Ty`, and `()`. */
  datatype Shape =
    | Braced(names: seq<string>)
    | Parenthesized(names: seq<string>)
    | UnitStruct
    | UnitValue
  {
    /** The fields the aggregate is built from and destructured into. */
    function Fields(): set<string> {
      if Braced? || Parenthesized? then set f | f in names else {}
    }
  }

  /** An aggregate type `A`: its form, its constructor from the fields in
      scope, and its field projections. */
  datatype Aggregate<!A, !V> = Aggregate(shape: Shape, build: Env<V> -> A, field: (A, string) -> V)

  /** The scope the write closure starts in: `let Ty { f, … } = v;`. */
  function Destructure<A, V>(agg: Aggregate<A, V>, a: A): (r: Env<V>)
    ensures r.Keys == agg.shape.Fields()
    ensures forall f :: f in r ==> r[f] == agg.field(a, f)
  {
    map f | f in agg.shape.Fields() :: agg.field(a, f)
  }

  /** The part of a scope the aggregate expression can see: its fields. */
  function Restrict<V>(env: Env<V>, names: set<string>): (r: Env<V>)
    ensures r.Keys == env.Keys * names
    ensures forall k :: k in r ==> r[k] == env[k]
  {
    map k | k in env && k in names :: env[k]
  }

  /** The read closure: run the steps from an empty scope, then evaluate
      the aggregate expression. */
  function SeqDecode<A, V>(agg: Aggregate<A, V>, steps: seq<Step<V>>, bs: seq<byte>): (r: Outcome<Parsed<A>>)
    ensures steps == [] ==> r == Ok(Parsed(agg.build(map[]), bs))
    ensures r.Ok? <==> DecodeSteps(steps, map[], bs).Ok?
    ensures !r.Ok? ==> FailsAlike(r, DecodeSteps(steps, map[], bs))
    ensures r.Ok? ==> r.value.rest == DecodeSteps(steps, map[], bs).value.rest
    ensures r.Ok? ==> r.value.value == agg.build(Restrict(DecodeSteps(steps, map[], bs).value.value, agg.shape.Fields()))
  {
    var p :- DecodeSteps(steps, map[], bs);
    Ok(Parsed(agg.build(Restrict(p.value, agg.shape.Fields())), p.rest))
  }

  /** The write closure: destructure the value, then run the steps. */
  function SeqEncode<A, V>(agg: Aggregate<A, V>, steps: seq<Step<V>>, a: A): (r: Written)
    requires EncodeScoped(steps, agg.shape.Fields())
    ensures steps == [] ==> r == Done
  {
    EncodeSteps(steps, Destructure(agg, a))
  }

  /** `seq!(aggregate, steps…)`. */
  function Seq<A, V>(agg: Aggregate<A, V>, steps: seq<Step<V>>): Codec<A>
    requires EncodeScoped(steps, agg.shape.Fields())
  {
    Codec(bs => SeqDecode(agg, steps, bs), a => SeqEncode(agg, steps, a))
  }

  // ---------------------------------------------------------------------
  // Sequencing

  /** The read half of a concatenation of steps is the read half of the
      first part followed by the read half of the second part, in the scope
      and on the bytes the first part left; a failure of the first part
      ends the read. */
  lemma {:induction false} DecodeStepsAppend<V>(s1: seq<Step<V>>, s2: seq<Step<V>>, env: Env<V>, bs: seq<byte>)
    ensures DecodeSteps(s1 + s2, env, bs) ==
      (if DecodeSteps(s1, env, bs).Ok? then
         DecodeSteps(s2, DecodeSteps(s1, env, bs).value.value, DecodeSteps(s1, env, bs).value.rest)
       else DecodeSteps(s1, env, bs))
    decreases |s1|
  {
    if s1 == [] {
      assert s1 + s2 == s2;
    } else {
      assert (s1 + s2)[0] == s1[0];
      assert (s1 + s2)[1..] == s1[1..] + s2;
      var o := ReadStep(s1[0], env, bs);
      if o.Ok? {
        DecodeStepsAppend(s1[1..], s2, o.value.value, o.value.rest);
      }
    }
  }

  /** Scoping of a concatenation: the second part is checked in the scope
      the first part's defaults extend. */
  lemma {:induction false} EncodeScopedAppend<V>(s1: seq<Step<V>>, s2: seq<Step<V>>, names: set<string>)
    ensures EncodeScoped(s1 + s2, names) <==>
      EncodeScoped(s1, names) && EncodeScoped(s2, names + DefaultNames(s1))
    decreases |s1|
  {
    if s1 == [] {
      assert s1 + s2 == s2;
      assert names + DefaultNames(s1) == names;
    } else {
      assert (s1 + s2)[0] == s1[0];
      assert (s1 + s2)[1..] == s1[1..] + s2;
      EncodeScopedAppend(s1[1..], s2, NamesAfter(s1[0], names));
      assert NamesAfter(s1[0], names) + DefaultNames(s1[1..]) == names + DefaultNames(s1);
    }
  }

  /** The write half of a concatenation of steps writes the first part and
      then, only if that succeeded, the second part in the scope the first
      part left. */
  lemma {:induction false} EncodeStepsAppend<V>(s1: seq<Step<V>>, s2: seq<Step<V>>, env: Env<V>)
    requires EncodeScoped(s1 + s2, env.Keys)
    ensures EncodeScoped(s1, env.Keys) && EncodeScoped(s2, EnvAfter(s1, env).Keys)
    ensures EncodeSteps(s1 + s2, env) == Then(EncodeSteps(s1, env), EncodeSteps(s2, EnvAfter(s1, env)))
    decreases |s1|
  {
    EncodeScopedAppend(s1, s2, env.Keys);
    if s1 == [] {
      assert s1 + s2 == s2;
    } else {
      assert (s1 + s2)[0] == s1[0];
      assert (s1 + s2)[1..] == s1[1..] + s2;
      var e := Rebind(s1[0], env);
      EncodeStepsAppend(s1[1..], s2, e);
      ThenAssociative(WriteStep(s1[0], env), EncodeSteps(s1[1..], e), EncodeSteps(s2, EnvAfter(s1[1..], e)));
    }
  }

  // ---------------------------------------------------------------------
  // Defaults

  /** The same steps with every default dropped. */
  function StripDefaults<V>(steps: seq<Step<V>>): (r: seq<Step<V>>)
    ensures |r| == |steps|
    ensures forall i :: 0 <= i < |steps| ==> !r[i].NamedDefault?
    ensures forall i :: 0 <= i < |steps| && !steps[i].NamedDefault? ==> r[i] == steps[i]
    ensures forall i :: 0 <= i < |steps| && steps[i].NamedDefault? ==>
      r[i] == Named(steps[i].name, steps[i].codec)
  {
    seq(|steps|, i requires 0 <= i < |steps| =>
      if steps[i].NamedDefault? then Named(steps[i].name, steps[i].codec) else steps[i])
  }

  /** A default plays no part in reading: the steps read exactly as they
      would with every default removed. */
  lemma {:induction false} DecodeIgnoresDefaults<V>(steps: seq<Step<V>>, env: Env<V>, bs: seq<byte>)
    ensures DecodeSteps(StripDefaults(steps), env, bs) == DecodeSteps(steps, env, bs)
    decreases |steps|
  {
    if steps != [] {
      var s := StripDefaults(steps);
      assert s[1..] == StripDefaults(steps[1..]);
      assert ReadStep(s[0], env, bs) == ReadStep(steps[0], env, bs);
      var o := ReadStep(steps[0], env, bs);
      if o.Ok? {
        DecodeIgnoresDefaults(steps[1..], o.value.value, o.value.rest);
      }
    }
  }

  /** When writing, a step with a default is the same step without the
      default, run in the scope where its name is rebound to the default. */
  lemma DefaultIsRebinding<V>(n: string, c: Env<V> -> Codec<V>, d: Env<V> -> V, tail: seq<Step<V>>, env: Env<V>)
    requires EncodeScoped([NamedDefault(n, c, d)] + tail, env.Keys)
    ensures EncodeScoped([Named(n, c)] + tail, env[n := d(env)].Keys)
    ensures EncodeSteps([NamedDefault(n, c, d)] + tail, env) ==
      EncodeSteps([Named(n, c)] + tail, env[n := d(env)])
  {
    assert ([NamedDefault(n, c, d)] + tail)[1..] == tail;
    assert ([Named(n, c)] + tail)[1..] == tail;
    assert env[n := d(env)].Keys == env.Keys + {n};
  }

  // ---------------------------------------------------------------------
  // Round trip

  /** `d` and `e` agree wherever `d` is defined. */
  ghost predicate Agrees<V>(d: Env<V>, e: Env<V>) {
    forall k :: k in d ==> k in e && d[k] == e[k]
  }

  /** The read scope after a step that read back what the step wrote in
      the write scope `e`. */
  function ReadBack<V>(s: Step<V>, d: Env<V>, e: Env<V>): Env<V>
    requires s.Named? ==> s.name in e
  {
    if s.Anon? then d else d[s.name := Rebind(s, e)[s.name]]
  }

  /** One step mirrors: reading uses the codec writing used, and the value
      written survives a trip through it. */
  ghost predicate StepMirrors<V>(s: Step<V>, d: Env<V>, e: Env<V>) {
    && (s.Named? ==> s.name in e)
    && var e' := Rebind(s, e);
       if s.Anon? then s.unit(d) == s.unit(e') && RoundTrips(s.unit(e'), ())
       else s.codec(d) == s.codec(e') && RoundTrips(s.codec(e'), e'[s.name])
  }

  /** Every step mirrors, each in the read scope and the write scope the
      steps before it leave. `d` and `e` are the scopes before the first
      step. */
  ghost predicate Mirrors<V>(steps: seq<Step<V>>, d: Env<V>, e: Env<V>)
    decreases |steps|
  {
    if steps == [] then true
    else
      && StepMirrors(steps[0], d, e)
      && Mirrors(steps[1..], ReadBack(steps[0], d, e), Rebind(steps[0], e))
  }

  /** Two steps mirror when the first does and the second does in the
      scopes the first leaves. */
  lemma MirrorsTwo<V>(steps: seq<Step<V>>, d: Env<V>, e: Env<V>, d1: Env<V>, e1: Env<V>)
    requires |steps| == 2 && StepMirrors(steps[0], d, e)
    requires ReadBack(steps[0], d, e) == d1 && Rebind(steps[0], e) == e1
    requires StepMirrors(steps[1], d1, e1)
    ensures Mirrors(steps, d, e)
  {
    var tail := steps[1..];
    assert tail[0] == steps[1] && tail[1..] == [];
    assert Mirrors(tail[1..], ReadBack(tail[0], d1, e1), Rebind(tail[0], e1));
  }

  /** A named step mirrors when both scopes pick the same codec and that
      codec round-trips the variable's value. */
  lemma NamedMirrors<V>(s: Step<V>, d: Env<V>, e: Env<V>, c: Codec<V>)
    requires s.Named? && s.name in e
    requires s.codec(d) == c && s.codec(e) == c && RoundTrips(c, e[s.name])
    ensures StepMirrors(s, d, e)
  {
  }

  /** A step with a default mirrors when both scopes pick the same codec
      and that codec round-trips the default. */
  lemma DefaultMirrors<V>(s: Step<V>, d: Env<V>, e: Env<V>, c: Codec<V>)
    requires s.NamedDefault?
    requires s.codec(d) == c && s.codec(e[s.name := s.default(e)]) == c
    requires RoundTrips(c, s.default(e))
    ensures StepMirrors(s, d, e)
  {
    assert Rebind(s, e) == e[s.name := s.default(e)];
  }

  /** A named step writes its variable with the codec its scope picks. */
  lemma NamedWrites<V>(s: Step<V>, e: Env<V>, c: Codec<V>)
    requires s.Named? && s.name in e && s.codec(e) == c
    ensures WriteStep(s, e) == c.enc(e[s.name])
  {
  }

  /** A mirroring step writes successfully, and reading its bytes back,
      followed by anything, yields the scope `ReadBack` and leaves the
      following bytes. */
  lemma StepRoundTrip<V>(s: Step<V>, d: Env<V>, e: Env<V>, more: seq<byte>)
    requires StepMirrors(s, d, e)
    ensures WriteStep(s, e).status == Ok(())
    ensures ReadStep(s, d, WriteStep(s, e).bytes + more) == Ok(Parsed(ReadBack(s, d, e), more))
  {
  }

  /** The read scope after a round-tripped step still agrees with the
      write scope. */
  lemma ReadBackAgrees<V>(s: Step<V>, d: Env<V>, e: Env<V>)
    requires s.Named? ==> s.name in e
    requires Agrees(d, e)
    ensures Agrees(ReadBack(s, d, e), Rebind(s, e))
  {
  }

  /** The steps write successfully, and reading the written bytes back
      followed by `rest` leaves `rest` and a scope that agrees with the
      write scope after the steps. */
  ghost predicate ReadsBack<V>(steps: seq<Step<V>>, d: Env<V>, e: Env<V>, rest: seq<byte>)
    requires EncodeScoped(steps, e.Keys)
  {
    var w := EncodeSteps(steps, e);
    var r := DecodeSteps(steps, d, w.bytes + rest);
    && w.status == Ok(())
    && r.Ok? && r.value.rest == rest
    && Agrees(r.value.value, EnvAfter(steps, e))
  }

  /** When every step mirrors, the steps read back what they wrote. */
  lemma {:induction false} StepsRoundTrip<V>(steps: seq<Step<V>>, d: Env<V>, e: Env<V>, rest: seq<byte>)
    requires EncodeScoped(steps, e.Keys)
    requires Mirrors(steps, d, e)
    requires Agrees(d, e)
    ensures ReadsBack(steps, d, e, rest)
    decreases |steps|
  {
    if steps == [] {
      assert EncodeSteps(steps, e).bytes + rest == rest;
    } else {
      ReadBackAgrees(steps[0], d, e);
      StepsRoundTrip(steps[1..], ReadBack(steps[0], d, e), Rebind(steps[0], e), rest);
      ReadsBackCons(steps, d, e, rest);
    }
  }

  /** The inductive step of `StepsRoundTrip`: a mirroring first step in
      front of steps that read back. */
  lemma ReadsBackCons<V>(steps: seq<Step<V>>, d: Env<V>, e: Env<V>, rest: seq<byte>)
    requires steps != [] && EncodeScoped(steps, e.Keys)
    requires StepMirrors(steps[0], d, e)
    requires ReadsBack(steps[1..], ReadBack(steps[0], d, e), Rebind(steps[0], e), rest)
    ensures ReadsBack(steps, d, e, rest)
  {
    var s := steps[0];
    var next := EncodeSteps(steps[1..], Rebind(s, e));
    StepRoundTrip(s, d, e, next.bytes + rest);
    ThenBytes(WriteStep(s, e), next, rest);
    DecodeStepsCons(steps, d, WriteStep(s, e).bytes + (next.bytes + rest), Parsed(ReadBack(s, d, e), next.bytes + rest));
  }

  /** Reading steps whose first step reads `p` is reading the other steps
      from where the first stopped. */
  lemma DecodeStepsCons<V>(steps: seq<Step<V>>, d: Env<V>, bs: seq<byte>, p: Parsed<Env<V>>)
    requires steps != [] && ReadStep(steps[0], d, bs) == Ok(p)
    ensures DecodeSteps(steps, d, bs) == DecodeSteps(steps[1..], p.value, p.rest)
  {
  }

  /** `seq!` round-trips an aggregate when the aggregate is rebuilt from
      its own fields, every field is bound by a step and none is rebound by
      a default, and every step mirrors. */
  lemma SeqRoundTrip<A, V>(agg: Aggregate<A, V>, steps: seq<Step<V>>, a: A)
    requires EncodeScoped(steps, agg.shape.Fields())
    requires agg.build(Destructure(agg, a)) == a
    requires agg.shape.Fields() <= BoundNames(steps)
    requires agg.shape.Fields() !! DefaultNames(steps)
    requires Mirrors(steps, map[], Destructure(agg, a))
    ensures RoundTrips(Seq(agg, steps), a)
  {
    forall rest: seq<byte> ensures Seq(agg, steps).dec(Seq(agg, steps).enc(a).bytes + rest) == Ok(Parsed(a, rest)) {
      SeqReadsBack(agg, steps, a, rest);
    }
    StepsRoundTrip(steps, map[], Destructure(agg, a), []);
  }

  /** The read closure of `seq!` rebuilds the aggregate from what the write
      closure wrote, followed by anything. */
  lemma SeqReadsBack<A, V>(agg: Aggregate<A, V>, steps: seq<Step<V>>, a: A, rest: seq<byte>)
    requires EncodeScoped(steps, agg.shape.Fields())
    requires agg.build(Destructure(agg, a)) == a
    requires agg.shape.Fields() <= BoundNames(steps)
    requires agg.shape.Fields() !! DefaultNames(steps)
    requires Mirrors(steps, map[], Destructure(agg, a))
    ensures SeqDecode(agg, steps, SeqEncode(agg, steps, a).bytes + rest) == Ok(Parsed(a, rest))
  {
    var e := Destructure(agg, a);
    StepsRoundTrip(steps, map[], e, rest);
    var p := DecodeSteps(steps, map[], EncodeSteps(steps, e).bytes + rest).value;
    assert Restrict(p.value, agg.shape.Fields()) == e;
  }
}
