/**
  `variant<Ts...>`: a tagged union holding one value of one of its
  alternative types, identified by its index.

  The alternatives are given as a sequence of type names (`Types`); the held
  value is of one universal payload type `T`. Raw storage, construction in
  place and destruction are not modelled: a variant is its index and value.
 */
module Variant {
  import opened Wrappers

  /** Names the C++ type of an alternative. */
  type TypeName = nat

  /** The alternative types, in declaration order (`Ts...`). */
  type Types = seq<TypeName>

  datatype Variant<T> = V(index: nat, value: T)

  /** Raised by `get<T>` on a variant holding another alternative. */
  datatype VariantError = BadVariantAccess

  /** A variant whose index names one of the alternatives. */
  predicate WellFormed<T>(types: Types, v: Variant<T>) {
    v.index < |types|
  }

  /** Default construction: the first alternative, default-constructed. */
  function Default<T>(types: Types, defaults: nat -> T): (r: Variant<T>)
    requires |types| > 0
    ensures WellFormed(types, r) && r.index == 0 && r.value == defaults(0)
  {
    Make(types, 0, defaults)
  }

  /** `make(index)`: the alternative at `index`, default-constructed; the
      index must name an alternative. */
  function Make<T>(types: Types, index: nat, defaults: nat -> T): (r: Variant<T>)
    requires index < |types|
    ensures WellFormed(types, r) && r.index == index && r.value == defaults(index)
  {
    V(index, defaults(index))
  }

  /** Copy or move assignment. When both sides hold the same alternative the
      value is assigned in place; otherwise the old value is destroyed and a
      copy of the source constructed. Either way the target ends up equal to
      the source. */
  function Assign<T>(target: Variant<T>, source: Variant<T>): (r: Variant<T>)
    ensures r == source
  {
    if target.index == source.index then V(target.index, source.value)
    else V(source.index, source.value)
  }

  /** `operator==`: the same index, and the held values equal under the
      alternative's own `==`, given as `eq`. Alternatives of different
      index are never equal; a value its own `==` rejects, such as a NaN,
      makes its variant unequal to itself. */
  function Equal<T>(x: Variant<T>, y: Variant<T>, eq: (T, T) -> bool): (r: bool)
    ensures x.index != y.index ==> !r
    ensures x.index == y.index ==> (r <==> eq(x.value, y.value))
  {
    x.index == y.index && eq(x.value, y.value)
  }

  /** If the values' `==` is an equivalence, so is `operator==`. */
  lemma EqualEquivalence<T>(x: Variant<T>, y: Variant<T>, z: Variant<T>, eq: (T, T) -> bool)
    requires forall a :: eq(a, a)
    requires forall a, b :: eq(a, b) ==> eq(b, a)
    requires forall a, b, c :: eq(a, b) && eq(b, c) ==> eq(a, c)
    ensures Equal(x, x, eq)
    ensures Equal(x, y, eq) ==> Equal(y, x, eq)
    ensures Equal(x, y, eq) && Equal(y, z, eq) ==> Equal(x, z, eq)
  {
  }

  /** If the values' `==` is identity, `operator==` is identity of variants. */
  lemma EqualIsIdentity<T>(x: Variant<T>, y: Variant<T>, eq: (T, T) -> bool)
    requires forall a, b :: eq(a, b) <==> a == b
    ensures Equal(x, y, eq) <==> x == y
  {
  }

  /** A held value that is not equal to itself, as a NaN is not, makes the
      variant unequal to itself. */
  lemma EqualNotReflexive<T>(i: nat, a: T, eq: (T, T) -> bool)
    requires !eq(a, a)
    ensures !Equal(V(i, a), V(i, a), eq)
  {
  }

  /** `operator<`: by index first, then by held value under `less`. */
  function Less<T>(x: Variant<T>, y: Variant<T>, less: (T, T) -> bool): (r: bool)
    ensures x.index < y.index ==> r
    ensures y.index < x.index ==> !r
    ensures x.index == y.index ==> (r <==> less(x.value, y.value))
  {
    if x.index == y.index then less(x.value, y.value) else x.index < y.index
  }

  /** If `less` strictly orders the values, `operator<` is irreflexive. */
  lemma LessIrreflexive<T>(x: Variant<T>, less: (T, T) -> bool)
    requires forall a :: !less(a, a)
    ensures !Less(x, x, less)
  {
  }

  /** If `less` is transitive, so is `operator<`. */
  lemma LessTransitive<T>(x: Variant<T>, y: Variant<T>, z: Variant<T>, less: (T, T) -> bool)
    requires forall a, b, c :: less(a, b) && less(b, c) ==> less(a, c)
    requires Less(x, y, less) && Less(y, z, less)
    ensures Less(x, z, less)
  {
  }

  /** If `less` is asymmetric, never holds between values `eq` calls equal,
      and one of `eq`, `less` and reversed `less` always holds, then exactly
      one of `x < y`, `x == y` and `y < x` holds. */
  lemma LessTrichotomous<T>(x: Variant<T>, y: Variant<T>, less: (T, T) -> bool, eq: (T, T) -> bool)
    requires forall a, b :: less(a, b) ==> !less(b, a)
    requires forall a, b :: eq(a, b) ==> !less(a, b) && !less(b, a)
    requires forall a, b :: eq(a, b) || less(a, b) || less(b, a)
    ensures Less(x, y, less) || Equal(x, y, eq) || Less(y, x, less)
    ensures !(Less(x, y, less) && Equal(x, y, eq))
    ensures !(Less(y, x, less) && Equal(x, y, eq))
    ensures !(Less(x, y, less) && Less(y, x, less))
  {
  }

  /** `visit_impl`: calls the handler for the active index; the index must
      name an alternative. */
  function Visit<T, R>(v: Variant<T>, handlers: seq<T -> R>): (r: R)
    requires v.index < |handlers|
  {
    handlers[v.index](v.value)
  }

  /** The `getter<U>` visitor: the value for alternatives of type `t`,
      nothing for every other alternative. */
  function Getters<T(!new)>(types: Types, t: TypeName): (r: seq<T -> Option<T>>)
    ensures |r| == |types|
    ensures forall i, x :: 0 <= i < |types| ==> r[i](x) == (if types[i] == t then Some(x) else None)
  {
    seq(|types|, i requires 0 <= i < |types| => if types[i] == t then (x: T) => Some(x) else (x: T) => None)
  }

  /** `get_if<U>`: visits with the getter. */
  function GetIf<T(!new)>(types: Types, v: Variant<T>, t: TypeName): (r: Option<T>)
    requires WellFormed(types, v)
    ensures r.Some? <==> types[v.index] == t
    ensures r.Some? ==> r.value == v.value
  {
    Visit(v, Getters(types, t))
  }

  /** `get<U>`: the held value, or `bad_variant_access`. */
  function Get<T(!new)>(types: Types, v: Variant<T>, t: TypeName): (r: Result<T, VariantError>)
    requires WellFormed(types, v)
    ensures r.Success? <==> types[v.index] == t
    ensures r.Success? ==> r.value == v.value
    ensures r.Failure? ==> r.error == BadVariantAccess
  {
    match GetIf(types, v, t)
    case Some(x) => Success(x)
    case None => Failure(BadVariantAccess)
  }

  /** `is<U>`: whether `get_if<U>` finds a value. */
  function Is<T(!new)>(types: Types, v: Variant<T>, t: TypeName): (r: bool)
    requires WellFormed(types, v)
    ensures r <==> types[v.index] == t
  {
    GetIf(types, v, t).Some?
  }

  /** Access agrees with itself: `is<U>` holds exactly when `get<U>`
      succeeds, and then `get<U>` and `get_if<U>` yield the same value. */
  lemma AccessAgrees<T(!new)>(types: Types, v: Variant<T>, t: TypeName)
    requires WellFormed(types, v)
    ensures Is(types, v, t) <==> Get(types, v, t).Success?
    ensures Is(types, v, t) ==> GetIf(types, v, t) == Some(Get(types, v, t).value)
  {
  }

  /** A made variant holds exactly its own alternative type. */
  lemma MakeThenIs<T(!new)>(types: Types, index: nat, defaults: nat -> T, t: TypeName)
    requires index < |types|
    ensures Is(types, Make(types, index, defaults), t) <==> types[index] == t
  {
  }
}
