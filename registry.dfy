/**
 The mapper registry of jdbi-folder: a factory that answers whether it handles a
 requested target type, hands out row mappers bound to that type, and keeps an
 ordered list of field-mapping overrides that every mapper it produced shares.

 Target types are an opaque type `T` whose equality is the identity comparison of
 the host (class objects compare by identity); overrides are an opaque type `F`;
 the statement context is a type parameter `C` that is passed along and never read.
 */
module Registry {

  /** Position of the first element of `s` equal to `x`, or -1 when there is none:
      the search a list performs when asked whether it contains `x`. */
  function IndexOf<T(==)>(s: seq<T>, x: T): (r: int)
    ensures -1 <= r < |s|
    ensures r == -1 <==> x !in s
    ensures 0 <= r ==> s[r] == x && x !in s[..r]
  {
    if s == [] then -1
    else if s[0] == x then 0
    else
      var k := IndexOf(s[1..], x);
      if k == -1 then -1 else k + 1
  }

  /** The growable list that holds the registered override factories. It is a heap
      object so that the factory and the mappers it produced can share it. */
  class OverrideList<F> {
    var items: seq<F>

    constructor ()
      ensures items == []
    {
      items := [];
    }

    /** Appends `f` at the end; duplicates are kept. */
    method Add(f: F)
      modifies this
      ensures items == old(items) + [f]
    {
      items := items + [f];
    }
  }

  /** A row mapper, opaque apart from what it is bound to: the requested target
      type and the override list it consults (by reference, not a copy). */
  class CustomMapper<T, F> {
    const mappedType: T
    const overriddenFactories: OverrideList<F>

    constructor (mappedType: T, overriddenFactories: OverrideList<F>)
      ensures this.mappedType == mappedType
      ensures this.overriddenFactories == overriddenFactories
    {
      this.mappedType := mappedType;
      this.overriddenFactories := overriddenFactories;
    }
  }

  class CustomMapperFactory<T(==), F> {
    /** Types this factory declines, in the order they were given. */
    var excludedTypes: seq<T>
    /** The override list shared with every mapper this factory creates. */
    const overriddenFactories: OverrideList<F>

    /** Builds the factory from the variable-length list of excluded types,
        adding them one at a time; the override list starts empty. */
    constructor (excluded: seq<T>)
      ensures excludedTypes == excluded
      ensures fresh(overriddenFactories) && overriddenFactories.items == []
    {
      excludedTypes := [];
      overriddenFactories := new OverrideList();
      new;
      for k := 0 to |excluded|
        invariant excludedTypes == excluded[..k]
        invariant overriddenFactories.items == []
      {
        excludedTypes := excludedTypes + [excluded[k]];
      }
    }

    /** Whether this factory handles `t`: exactly when `t` is not excluded.
        The context plays no part. */
    function Accepts<C>(t: T, ctx: C): (r: bool)
      reads this
      ensures r <==> t !in excludedTypes
      ensures r <==> forall i | 0 <= i < |excludedTypes| :: excludedTypes[i] != t
    {
      !(IndexOf(excludedTypes, t) >= 0)
    }

    /** The answer of `Accepts` does not depend on the context passed with it. */
    lemma AcceptsIgnoresContext<C, D>(t: T, c: C, d: D)
      ensures Accepts(t, c) == Accepts(t, d)
    {
    }

    /** A new mapper bound to `t` and to this factory's own override list. The
        excluded types are not consulted, and neither list changes. */
    method MapperFor<C>(t: T, ctx: C) returns (m: CustomMapper<T, F>)
      ensures fresh(m)
      ensures m.mappedType == t
      ensures m.overriddenFactories == overriddenFactories
      ensures unchanged(this, overriddenFactories)
    {
      m := new CustomMapper(t, overriddenFactories);
    }

    /** Appends `f` to the shared override list; the excluded types stay as they
        were, so every answer of `Accepts` does too. */
    method Register(f: F)
      modifies overriddenFactories
      ensures overriddenFactories.items == old(overriddenFactories.items) + [f]
      ensures excludedTypes == old(excludedTypes)
    {
      overriddenFactories.Add(f);
    }
  }
}
