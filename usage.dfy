/**
 How a host drives the mapper registry: it constructs the factory, registers
 overrides and asks for mappers, in any interleaving. The point proved here is
 that the override list is shared, so a mapper sees every override registered
 through its factory, before and after the mapper was handed out.
 */
module RegistryUsage {
  import opened Registry

  /** One call a host makes on a factory after constructing it. */
  datatype Call<T, F> = Register(factory: F) | MapperFor(requested: T)

  /** The overrides registered by `calls`, in call order. */
  function Registered<T, F>(calls: seq<Call<T, F>>): seq<F>
  {
    if calls == [] then []
    else (if calls[0].Register? then [calls[0].factory] else []) + Registered(calls[1..])
  }

  /** The target types requested by `calls`, in call order. */
  function Requested<T, F>(calls: seq<Call<T, F>>): seq<T>
  {
    if calls == [] then []
    else (if calls[0].MapperFor? then [calls[0].requested] else []) + Requested(calls[1..])
  }

  lemma {:induction false} RegisteredConcat<T, F>(a: seq<Call<T, F>>, b: seq<Call<T, F>>)
    ensures Registered(a + b) == Registered(a) + Registered(b)
  {
    if a == [] {
      assert a + b == b;
    } else {
      var head := if a[0].Register? then [a[0].factory] else [];
      assert (a + b)[0] == a[0] && (a + b)[1..] == a[1..] + b;
      RegisteredConcat(a[1..], b);
      calc {
        Registered(a + b);
        head + Registered(a[1..] + b);
        head + (Registered(a[1..]) + Registered(b));
        (head + Registered(a[1..])) + Registered(b);
      }
    }
  }

  lemma {:induction false} RequestedConcat<T, F>(a: seq<Call<T, F>>, b: seq<Call<T, F>>)
    ensures Requested(a + b) == Requested(a) + Requested(b)
  {
    if a == [] {
      assert a + b == b;
    } else {
      var head := if a[0].MapperFor? then [a[0].requested] else [];
      assert (a + b)[0] == a[0] && (a + b)[1..] == a[1..] + b;
      RequestedConcat(a[1..], b);
      calc {
        Requested(a + b);
        head + Requested(a[1..] + b);
        head + (Requested(a[1..]) + Requested(b));
        (head + Requested(a[1..])) + Requested(b);
      }
    }
  }

  /** A `mapperFor` call registers nothing: the overrides registered around it
      are those of the calls before it followed by those of the calls after it. */
  lemma {:induction false} MapperForRegistersNothing<T, F>(before: seq<Call<T, F>>, t: T, after: seq<Call<T, F>>)
    ensures Registered(before + [MapperFor(t)] + after) == Registered(before) + Registered(after)
  {
    var call: Call<T, F> := MapperFor(t);
    assert [call][1..] == [];
    assert Registered([call]) == [] + Registered<T, F>([]);
    RegisteredConcat(before + [call], after);
    RegisteredConcat(before, [call]);
    assert Registered(before + [call]) == Registered(before) + [];
  }

  /** The types requested around a `mapperFor` call are those of the calls before
      it, then its own type, then those of the calls after it. */
  lemma {:induction false} RequestedAround<T, F>(before: seq<Call<T, F>>, t: T, after: seq<Call<T, F>>)
    ensures Requested(before + [MapperFor(t)] + after) == Requested(before) + [t] + Requested(after)
  {
    var call: Call<T, F> := MapperFor(t);
    assert [call][1..] == [];
    assert Requested([call]) == [t] + Requested<T, F>([]);
    RequestedConcat(before + [call], after);
    RequestedConcat(before, [call]);
  }

  /** Constructs a factory excluding `excluded` and performs `calls` on it.
      Afterwards every mapper handed out, whenever it was requested, is bound to
      its requested type and sees exactly the overrides of all the calls. */
  method Replay<T(==), F, C>(excluded: seq<T>, calls: seq<Call<T, F>>, ctx: C)
    returns (factory: CustomMapperFactory<T, F>, mappers: seq<CustomMapper<T, F>>)
    ensures factory.excludedTypes == excluded
    ensures factory.overriddenFactories.items == Registered(calls)
    ensures |mappers| == |Requested(calls)|
    ensures forall j | 0 <= j < |mappers| ::
              mappers[j].mappedType == Requested(calls)[j] &&
              mappers[j].overriddenFactories.items == Registered(calls)
    ensures fresh(factory) && fresh(factory.overriddenFactories)
    ensures forall j | 0 <= j < |mappers| ::
              fresh(mappers[j]) && mappers[j].overriddenFactories == factory.overriddenFactories
    ensures forall i, j | 0 <= i < j < |mappers| :: mappers[i] != mappers[j]
  {
    factory := new CustomMapperFactory(excluded);
    mappers := [];
    for i := 0 to |calls|
      invariant factory.excludedTypes == excluded
      invariant factory.overriddenFactories.items == Registered(calls[..i])
      invariant |mappers| == |Requested(calls[..i])|
      invariant forall j | 0 <= j < |mappers| ::
                  mappers[j].mappedType == Requested(calls[..i])[j] &&
                  mappers[j].overriddenFactories == factory.overriddenFactories
      invariant fresh(factory) && fresh(factory.overriddenFactories)
      invariant forall j | 0 <= j < |mappers| :: fresh(mappers[j])
      invariant forall i, j | 0 <= i < j < |mappers| :: mappers[i] != mappers[j]
    {
      assert calls[..i + 1] == calls[..i] + [calls[i]];
      RegisteredConcat(calls[..i], [calls[i]]);
      RequestedConcat(calls[..i], [calls[i]]);
      match calls[i]
      case Register(f) =>
        factory.Register(f);
      case MapperFor(t) =>
        var m := factory.MapperFor(t, ctx);
        mappers := mappers + [m];
    }
    assert calls[..|calls|] == calls;
  }

  /** A mapper requested between the calls `before` and the calls `after` is bound
      to its type and ends up seeing the overrides registered by both runs of
      calls, the earlier ones first: the later registrations are not lost to it. */
  method MapperSeesEarlierAndLaterOverrides<T(==), F, C>(
    excluded: seq<T>, before: seq<Call<T, F>>, t: T, after: seq<Call<T, F>>, ctx: C)
    returns (m: CustomMapper<T, F>)
    ensures m.mappedType == t
    ensures m.overriddenFactories.items == Registered(before) + Registered(after)
  {
    var factory, mappers := Replay(excluded, before + [MapperFor(t)] + after, ctx);
    MapperForRegistersNothing(before, t, after);
    RequestedAround(before, t, after);
    m := mappers[|Requested(before)|];
  }

  /** A registration made after `calls` have been replayed reaches every mapper
      the replay handed out. */
  method RegisterAfterReplay<T(==), F, C>(excluded: seq<T>, calls: seq<Call<T, F>>, f: F, ctx: C)
    returns (mappers: seq<CustomMapper<T, F>>)
    ensures |mappers| == |Requested(calls)|
    ensures forall j | 0 <= j < |mappers| ::
              mappers[j].mappedType == Requested(calls)[j] &&
              mappers[j].overriddenFactories.items == Registered(calls) + [f]
  {
    var factory;
    factory, mappers := Replay(excluded, calls, ctx);
    factory.Register(f);
  }

  /** The flow of the override test: a factory with no exclusions accepts the
      type, and a mapper requested after one registration sees that override. */
  method RegisterThenMapperFor<T(==), F, C>(t: T, f: F, ctx: C)
    returns (accepted: bool, m: CustomMapper<T, F>)
    ensures accepted
    ensures m.mappedType == t && m.overriddenFactories.items == [f]
  {
    var factory := new CustomMapperFactory([]);
    accepted := factory.Accepts(t, ctx);
    factory.Register(f);
    m := factory.MapperFor(t, ctx);
  }

  /** An excluded type is declined by `Accepts`, yet `MapperFor` still returns a
      mapper bound to it. */
  method MapperForExcludedType<T(==), F, C>(t: T, ctx: C)
    returns (accepted: bool, m: CustomMapper<T, F>)
    ensures !accepted
    ensures m.mappedType == t && m.overriddenFactories.items == []
  {
    var factory := new CustomMapperFactory<T, F>([t]);
    accepted := factory.Accepts(t, ctx);
    m := factory.MapperFor(t, ctx);
  }
}
