/** JavaScript values as the strict deep comparison sees them, and what it means for two of them to be deeply equal. */
module DeepValues {
  import opened Matching

  datatype Number = NaN | NegativeZero | Infinite(positive: bool) | Finite(value: real)

  /** Everything that is not an object for typeof, and null. Functions and symbols are compared by identity. */
  datatype Primitive =
    | Undefined
    | Null
    | Bool(b: bool)
    | Num(n: Number)
    | Str(s: string)
    | Sym(symbol: nat)
    | BigInt(i: int)
    | Function(function_: nat)

  /** An own property key: an array index, any other string, or a symbol. */
  datatype Key = Index(i: nat) | Name(name: string) | Symbol(symbol: nat)

  datatype Prop = Prop(enumerable: bool, value: Value)

  /** What getTime returns: NaN for an invalid Date. */
  datatype Time = Invalid | At(milliseconds: int)

  /**
    * What kind of object it is, with the data that is compared directly. The data of a RegExp and an Error is compared
    * with ===; -0 is held as 0 there, and an object, which is compared by identity, as a function is.
    */
  datatype Kind =
    | Plain
    | Array(length: nat)
    | Date(time: Time)
    | RegExp(source: string, flags: string, lastIndex: Primitive)
    | Error(message: Primitive, errorName: Primitive)
    | Set
    | Map
    | Boxed(p: Primitive)
    | Buffer(bytes: seq<int>)
    | Weak

  /**
    * An object has an identity, a prototype, the tag that Object.prototype.toString reports, its own properties
    * (order lists their keys), and for a Set its members, for a Map its keys and values, in insertion order.
    */
  datatype Value =
    | Prim(p: Primitive)
    | Obj(id: nat, proto: nat, tag: string, kind: Kind, order: seq<Key>, props: map<Key, Prop>,
          members: seq<Value>, values: seq<Value>)

  // ---- own properties ----

  predicate Own(v: Value, k: Key) {
    v.Obj? && k in v.props
  }

  predicate IsEnumerable(v: Value, k: Key) {
    Own(v, k) && v.props[k].enumerable
  }

  /** Reading a property; inherited ones are not modelled. */
  function Get(v: Value, k: Key): Value {
    if Own(v, k) then v.props[k].value else Prim(Undefined)
  }

  /** Object.keys. */
  ghost function StringKeys(v: Value): set<Key>
    requires v.Obj?
  {
    set k | k in v.props && v.props[k].enumerable && !k.Symbol?
  }

  ghost function EnumerableSymbols(v: Value): set<Key>
    requires v.Obj?
  {
    set k | k in v.props && v.props[k].enumerable && k.Symbol?
  }

  /** Object.getOwnPropertySymbols. */
  ghost function OwnSymbols(v: Value): set<Key>
    requires v.Obj?
  {
    set k | k in v.props && k.Symbol?
  }

  /** getOwnNonIndexProperties. */
  ghost function ExtraKeys(v: Value): set<Key>
    requires v.Obj?
  {
    set k | k in v.props && v.props[k].enumerable && !k.Index?
  }

  // ---- the comparison ----

  /** Objects whose tag is "Object" are compared by their properties alone, except arrays, errors and wrappers. */
  predicate Ordinary(v: Value)
    requires v.Obj?
  {
    v.tag == "Object" && !v.kind.Array? && !v.kind.Error? && !v.kind.Boxed?
  }

  /** The kind by which a value is compared. */
  function Shape(v: Value): Kind
    requires v.Obj?
  {
    if Ordinary(v) then Plain else v.kind
  }

  predicate Collection(v: Value)
    requires v.Obj?
  {
    Shape(v).Set? || Shape(v).Map?
  }

  const CAUSE := Name("cause")
  const ERRORS := Name("errors")

  /** The data is equal to itself under ===: no NaN is among it. */
  predicate SelfEqual(kind: Kind) {
    match kind
    case Date(time) => time.At?
    case RegExp(_, _, lastIndex) => lastIndex != Num(NaN)
    case Error(message, errorName) => message != Num(NaN) && errorName != Num(NaN)
    case _ => true
  }

  /** The checks of objectComparisonStart that look at the kinds only. */
  predicate KindsAgree(u: Value, v: Value)
    requires u.Obj? && v.Obj?
  {
    if u.kind.Array? then v.kind == u.kind
    else if Ordinary(u) then true
    else if u.kind.Plain? then v.kind.Plain? || v.kind.Weak?
    else if u.kind.Weak? then false
    else
      && v.kind == u.kind && SelfEqual(u.kind)
      && (u.kind.Set? || u.kind.Map? ==> |u.members| == |v.members|)
      && (u.kind.Error? ==> (Own(u, CAUSE) <==> Own(v, CAUSE)) && (Own(u, ERRORS) <==> Own(v, ERRORS)))
  }

  /** The symbol keys agree; when both sides own equally many symbols, v's own extra ones go unseen. */
  ghost predicate SymbolsAgree(u: Value, v: Value)
    requires u.Obj? && v.Obj?
  {
    if OwnSymbols(u) == {} then EnumerableSymbols(v) == {}
    else
      && (forall k | k in OwnSymbols(u) :: IsEnumerable(u, k) <==> IsEnumerable(v, k))
      && (|OwnSymbols(u)| == |OwnSymbols(v)| || |EnumerableSymbols(u)| == |EnumerableSymbols(v)|)
  }

  /** The array has a hole at i and none before. */
  predicate FirstHole(v: Value, i: nat)
    requires v.Obj? && v.kind.Array?
  {
    i < v.kind.length && !Own(v, Index(i)) && forall j | 0 <= j < i :: Own(v, Index(j))
  }

  predicate Sparse(v: Value)
    requires v.Obj?
  {
    v.kind.Array? && exists i | 0 <= i < v.kind.length :: !Own(v, Index(i))
  }

  /** Arrays of the same length: as many extra keys, the same first hole, and for a sparse one the same string keys. */
  ghost predicate ArrayKeysAgree(u: Value, v: Value)
    requires u.Obj? && v.Obj? && u.kind.Array? && v.kind == u.kind
  {
    && |ExtraKeys(u)| == |ExtraKeys(v)|
    && if Sparse(u) then
        && (exists i | 0 <= i < u.kind.length :: FirstHole(u, i) && FirstHole(v, i))
        && (forall k | k in StringKeys(u) :: Own(v, k))
        && |StringKeys(u)| == |StringKeys(v)|
      else forall i | 0 <= i < u.kind.length :: Own(v, Index(i))
  }

  /** Everything that is compared without comparing nested values. */
  ghost predicate HeadsAgree(u: Value, v: Value)
    requires u.Obj? && v.Obj?
  {
    && u.proto == v.proto && u.tag == v.tag
    && KindsAgree(u, v)
    && if u.kind.Array? then ArrayKeysAgree(u, v)
       else StringKeys(u) == StringKeys(v) && SymbolsAgree(u, v)
  }

  /** The keys whose values are compared. A sparse array leaves its symbols out; an error adds hidden causes. */
  ghost function ComparedKeys(u: Value): (ks: set<Key>)
    requires u.Obj?
    ensures ks <= u.props.Keys
  {
    StringKeys(u)
    + (if Sparse(u) then {} else EnumerableSymbols(u))
    + (if Shape(u).Error? then set k | k in {CAUSE, ERRORS} && k in u.props else {})
  }

  /** Strict deep equality. */
  ghost predicate Equal(u: Value, v: Value)
    decreases u, 3
  {
    u == v || (u.Obj? && v.Obj? && HeadsAgree(u, v) && KeysEqual(u, v) && MembersEqual(u, v))
  }

  ghost predicate KeysEqual(u: Value, v: Value)
    requires u.Obj?
    decreases u, 2
  {
    forall k | k in ComparedKeys(u) :: Equal(u.props[k].value, Get(v, k))
  }

  /** Some one-to-one matching pairs the members of a Set, or the entries of a Map. */
  ghost predicate MembersEqual(u: Value, v: Value)
    requires u.Obj? && v.Obj?
    decreases u, 2
  {
    Collection(u) ==> exists f, g :: MembersMatch(u, v, f, g)
  }

  ghost predicate MembersMatch(u: Value, v: Value, f: map<nat, nat>, g: map<nat, nat>)
    requires u.Obj? && v.Obj?
    decreases u, 1
  {
    && Bijection(f, g, Range(|u.members|), Range(|v.members|))
    && forall i | 0 <= i < |u.members| :: PairEqual(u, v, i, f[i])
  }

  /** The members at i and j, and for a Map their values, are equal. */
  ghost predicate PairEqual(u: Value, v: Value, i: nat, j: nat)
    requires u.Obj? && v.Obj?
    decreases u, 0
  {
    && i < |u.members| && j < |v.members|
    && Equal(u.members[i], v.members[j])
    && (Shape(u).Map? ==> i < |u.values| && j < |v.values| && Equal(u.values[i], v.values[j]))
  }

  // ---- which values there are ----

  /** Index keys come first, in ascending order. */
  ghost predicate IndicesFirst(keys: seq<Key>) {
    forall i, j | 0 <= i < j < |keys| && keys[j].Index? :: keys[i].Index? && keys[i].i < keys[j].i
  }

  /** What JavaScript guarantees of a single object (see README for the shadowing this leaves out). */
  ghost predicate WellFormed(v: Value)
    requires v.Obj?
  {
    && (forall k :: k in v.order <==> k in v.props)
    && (forall i, j | 0 <= i < j < |v.order| :: v.order[i] != v.order[j])
    && (v.kind.Array? ==> IndicesFirst(v.order))
    && (v.kind.Array? ==> forall k | k in v.props && k.Index? :: k.i < v.kind.length && v.props[k].enumerable)
    && (v.kind.Array? || v.kind.Set? || v.kind.Map? ==> Name("size") !in v.props)
    && (if v.kind.Map? then |v.values| == |v.members| else v.values == [])
    && (v.kind.Set? || v.kind.Map? || v.members == [])
    && (forall i, j | 0 <= i < j < |v.members| :: v.members[i] != v.members[j])
    && Prim(Num(NegativeZero)) !in v.members
  }

  /** The enumerable names of an array. */
  ghost function NameKeys(v: Value): set<Key>
    requires v.Obj?
  {
    set k | k in v.props && v.props[k].enumerable && k.Name?
  }

  /** The own elements of the array are its first ones. */
  predicate Packed(v: Value)
    requires v.Obj? && v.kind.Array?
  {
    forall i: nat, j: nat | j < i < v.kind.length && Own(v, Index(i)) :: Own(v, Index(j))
  }

  /**
    * The objects on which the comparison is an equivalence: none disguised by its tag, no weak collection that
    * passes for a plain object, no hidden symbol outside arrays, and arrays as described below.
    */
  ghost predicate Regular(v: Value)
    requires v.Obj?
  {
    && (v.tag == "Object" ==> Ordinary(v))
    && (v.kind.Weak? ==> v.tag == "Object")
    && (!v.kind.Array? ==> OwnSymbols(v) == EnumerableSymbols(v))
    && (v.kind.Array? ==> if Sparse(v) then SparseRegular(v) else DenseRegular(v))
  }

  /**
    * A sparse array with a hidden name has nothing that can stand in for it: no enumerable name, and not both an
    * enumerable symbol and an element past a hole.
    */
  ghost predicate SparseRegular(v: Value)
    requires v.Obj? && v.kind.Array?
  {
    (exists k :: HiddenName(v, k)) ==> NameKeys(v) == {} && (EnumerableSymbols(v) == {} || Packed(v))
  }

  predicate HiddenName(v: Value, k: Key)
    requires v.Obj?
  {
    k in v.props && k.Name? && !v.props[k].enumerable
  }

  /** In an array without holes that has extra keys, a key is hidden exactly when its value is undefined. */
  ghost predicate DenseRegular(v: Value)
    requires v.Obj?
  {
    ExtraKeys(v) != {} ==> forall k | k in v.props && !k.Index? :: v.props[k].enumerable <==> v.props[k].value != Prim(Undefined)
  }

  /** An invalid Date, or an object with a NaN that === looks at: whatever else it is, it equals only itself. */
  predicate Lonely(v: Value)
    requires v.Obj?
  {
    v.tag != "Object" && !SelfEqual(v.kind)
  }

  /** Well-formed and regular all the way down. */
  ghost predicate Tidy(v: Value)
    decreases v, 1
  {
    v.Obj? ==> Regular(v) && TidyBelow(v)
  }

  /** Well-formed, and everything inside is tidy; the object itself may be irregular. */
  ghost predicate TidyBelow(v: Value)
    decreases v, 0
  {
    v.Obj? ==>
      && WellFormed(v)
      && (forall k | k in v.props :: Tidy(v.props[k].value))
      && (forall i | 0 <= i < |v.members| :: Tidy(v.members[i]))
      && (forall i | 0 <= i < |v.values| :: Tidy(v.values[i]))
  }
}
