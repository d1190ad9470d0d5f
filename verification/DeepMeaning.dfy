/** Strict deep equality on the usual values, kind by kind and without the comparison's own notions of keys and heads. */
module DeepMeaning {
  import opened DeepValues
  import opened Matching

  ghost predicate AllEnumerable(v: Value)
    requires v.Obj?
  {
    forall k | k in v.props :: v.props[k].enumerable
  }

  /** The same own keys, with equal values. */
  ghost predicate SameProps(u: Value, v: Value)
    requires u.Obj? && v.Obj?
  {
    u.props.Keys == v.props.Keys && forall k | k in u.props && k in v.props :: Equal(u.props[k].value, v.props[k].value)
  }

  /** A primitive equals itself only: NaN is NaN, and 0 is not -0. */
  lemma OnPrimitives(p: Primitive, v: Value)
    ensures Equal(Prim(p), v) <==> v == Prim(p)
    ensures Equal(v, Prim(p)) <==> v == Prim(p)
  {
  }

  // ---- plain objects ----

  /** Two plain objects whose properties are enumerable: the same prototype, the same keys and equal values. */
  lemma OnPlainObjects(u: Value, v: Value)
    requires u.Obj? && v.Obj? && u.kind.Plain? && v.kind.Plain? && u.tag == v.tag == "Object"
    requires AllEnumerable(u) && AllEnumerable(v)
    ensures Equal(u, v) <==> u == v || (u.proto == v.proto && SameProps(u, v))
  {
    hide Equal;
    PlainEqual(u, v);
    PlainKeys(u, v);
    assert ComparedKeys(u) == u.props.Keys by { AllCompared(u); }
  }

  lemma PlainEqual(u: Value, v: Value)
    requires u.Obj? && v.Obj? && u.kind.Plain? && v.kind.Plain? && u.tag == v.tag == "Object"
    ensures Equal(u, v) <==>
      u == v || (u.proto == v.proto && StringKeys(u) == StringKeys(v) && SymbolsAgree(u, v) && KeysEqual(u, v))
  {
    hide KeysEqual, SymbolsAgree, StringKeys;
  }

  lemma AllCompared(u: Value)
    requires u.Obj? && AllEnumerable(u) && !Sparse(u)
    ensures ComparedKeys(u) == u.props.Keys
  {
    assert StringKeys(u) + EnumerableSymbols(u) == u.props.Keys;
  }

  lemma PlainKeys(u: Value, v: Value)
    requires u.Obj? && v.Obj? && AllEnumerable(u) && AllEnumerable(v)
    ensures StringKeys(u) == StringKeys(v) && SymbolsAgree(u, v) <==> u.props.Keys == v.props.Keys
  {
    AllSplit(u);
    AllSplit(v);
    if StringKeys(u) == StringKeys(v) && SymbolsAgree(u, v) {
      assert OwnSymbols(u) <= OwnSymbols(v);
      hide StringKeys, EnumerableSymbols, OwnSymbols, SymbolsAgree;
      SubsetOfSameSize(OwnSymbols(u), OwnSymbols(v));
    }
    if u.props.Keys == v.props.Keys {
      assert StringKeys(u) == StringKeys(v);
      assert OwnSymbols(u) == OwnSymbols(v);
    }
  }

  lemma AllSplit(u: Value)
    requires u.Obj? && AllEnumerable(u)
    ensures OwnSymbols(u) == EnumerableSymbols(u) && StringKeys(u) + OwnSymbols(u) == u.props.Keys
  {
  }

  // ---- arrays ----

  predicate Dense(v: Value) {
    v.Obj? && v.kind.Array? && forall i | 0 <= i < v.kind.length :: Own(v, Index(i))
  }

  /** Two arrays without holes whose properties are enumerable: the same length, prototype, tag, keys and equal values. */
  lemma OnArrays(u: Value, v: Value)
    requires Dense(u) && Dense(v) && Regular(u) && Regular(v) && WellFormed(u) && WellFormed(v)
    requires AllEnumerable(u) && AllEnumerable(v)
    ensures Equal(u, v) <==>
      u == v || (u.proto == v.proto && u.tag == v.tag && u.kind.length == v.kind.length && SameProps(u, v))
  {
    hide Equal, WellFormed, Regular;
    ArrayEqual(u, v);
    AllCompared(u);
    if u.kind == v.kind {
      ArrayKeys(u, v);
    }
  }

  lemma ArrayEqual(u: Value, v: Value)
    requires Dense(u) && Dense(v)
    ensures Equal(u, v) <==>
      u == v || (u.proto == v.proto && u.tag == v.tag && u.kind == v.kind && |ExtraKeys(u)| == |ExtraKeys(v)| && KeysEqual(u, v))
  {
    hide KeysEqual, ExtraKeys;
  }

  lemma ArrayKeys(u: Value, v: Value)
    requires Dense(u) && Dense(v) && Regular(u) && Regular(v) && WellFormed(u) && WellFormed(v) && u.kind == v.kind
    requires AllEnumerable(u) && AllEnumerable(v) && ComparedKeys(u) == u.props.Keys
    ensures |ExtraKeys(u)| == |ExtraKeys(v)| && KeysEqual(u, v) <==> SameProps(u, v)
  {
    hide Equal, Regular, WellFormed, ExtraKeys;
    if |ExtraKeys(u)| == |ExtraKeys(v)| && KeysEqual(u, v) {
      forall k | k in u.props
        ensures k in v.props
      {
        KeyFound(u, v, k);
      }
      OwnedExtras(u, v);
      SubsetOfSameSize(ExtraKeys(u), ExtraKeys(v));
      KeysBack(u, v);
    }
    if SameProps(u, v) {
      SameExtras(u, v);
    }
  }

  /** A key whose value is not undefined cannot be missing. */
  lemma KeyFound(u: Value, v: Value, k: Key)
    requires Dense(u) && Dense(v) && Regular(u) && WellFormed(u) && u.kind == v.kind && AllEnumerable(u)
    requires k in u.props && Equal(u.props[k].value, Get(v, k))
    ensures k in v.props
  {
    hide Equal;
    if k.Index? {
      assert Own(v, Index(k.i));
    } else {
      OnPrimitives(Undefined, u.props[k].value);
      assert k in ExtraKeys(u);
      assert u.props[k].value != Prim(Undefined);
    }
  }

  lemma OwnedExtras(u: Value, v: Value)
    requires u.Obj? && v.Obj? && AllEnumerable(v) && u.props.Keys <= v.props.Keys
    ensures ExtraKeys(u) <= ExtraKeys(v)
  {
  }

  lemma SameExtras(u: Value, v: Value)
    requires u.Obj? && v.Obj? && AllEnumerable(u) && AllEnumerable(v) && u.props.Keys == v.props.Keys
    ensures ExtraKeys(u) == ExtraKeys(v)
  {
  }

  lemma KeysBack(u: Value, v: Value)
    requires Dense(u) && Dense(v) && WellFormed(v) && u.kind == v.kind && AllEnumerable(v)
    requires u.props.Keys <= v.props.Keys && ExtraKeys(u) == ExtraKeys(v)
    ensures u.props.Keys == v.props.Keys
  {
    forall k | k in v.props
      ensures k in u.props
    {
      if k.Index? {
        assert Own(u, Index(k.i));
      } else {
        assert k in ExtraKeys(v);
      }
    }
  }

  // ---- objects with data ----

  /** Two Dates, RegExps, Errors, wrapper objects or buffers without properties of their own: the same data, with no NaN that === sees. */
  lemma OnData(u: Value, v: Value)
    requires u.Obj? && v.Obj? && u.tag != "Object" && v.tag != "Object" && u.props == v.props == map[]
    requires u.kind.Date? || u.kind.RegExp? || u.kind.Error? || u.kind.Boxed? || u.kind.Buffer?
    ensures Equal(u, v) <==>
      u == v || (u.proto == v.proto && u.tag == v.tag && u.kind == v.kind
        && (u.kind.Date? ==> u.kind.time.At?)
        && (u.kind.RegExp? ==> u.kind.lastIndex != Num(NaN))
        && (u.kind.Error? ==> u.kind.message != Num(NaN) && u.kind.errorName != Num(NaN)))
  {
    assert StringKeys(u) == StringKeys(v) == OwnSymbols(u) == EnumerableSymbols(v) == EnumerableSymbols(u) == {};
    assert ComparedKeys(u) == {};
  }

  /** Two Errors with nothing but a hidden cause or hidden errors: these are compared too, and must be there on both sides. */
  lemma OnErrors(u: Value, v: Value)
    requires u.Obj? && v.Obj? && u.tag == v.tag != "Object" && u.kind.Error? && v.kind.Error?
    requires forall k | k in u.props :: k in {Name("cause"), Name("errors")} && !u.props[k].enumerable
    requires forall k | k in v.props :: k in {Name("cause"), Name("errors")} && !v.props[k].enumerable
    ensures Equal(u, v) <==>
      u == v || (u.proto == v.proto && u.kind == v.kind && u.kind.message != Num(NaN) && u.kind.errorName != Num(NaN)
        && SameProps(u, v))
  {
    hide KeysEqual;
    HiddenOnly(u);
    HiddenOnly(v);
    ErrorKeys(u, v);
    assert u.props.Keys == v.props.Keys <==>
      (Own(u, CAUSE) <==> Own(v, CAUSE)) && (Own(u, ERRORS) <==> Own(v, ERRORS));
  }

  lemma HiddenOnly(u: Value)
    requires u.Obj? && u.kind.Error? && u.tag != "Object"
    requires forall k | k in u.props :: k in {Name("cause"), Name("errors")} && !u.props[k].enumerable
    ensures StringKeys(u) == OwnSymbols(u) == EnumerableSymbols(u) == {} && ComparedKeys(u) == u.props.Keys
  {
  }

  lemma ErrorKeys(u: Value, v: Value)
    requires u.Obj? && v.Obj? && ComparedKeys(u) == u.props.Keys
    ensures u.props.Keys == v.props.Keys ==> (KeysEqual(u, v) <==> SameProps(u, v))
  {
    hide Equal, ComparedKeys;
  }

  // ---- Sets and Maps ----

  /** The positions of u and of v are paired one to one, with equal members and a Map's equal values at each pair. */
  ghost predicate Pairs(u: Value, v: Value, f: map<nat, nat>, g: map<nat, nat>)
    requires u.Obj? && v.Obj?
  {
    && Bijection(f, g, Range(|u.members|), Range(|v.members|))
    && forall i | 0 <= i < |u.members| :: PairsAt(u, v, i, f[i])
  }

  ghost predicate PairsAt(u: Value, v: Value, i: nat, j: nat)
    requires u.Obj? && v.Obj?
  {
    && i < |u.members| && j < |v.members| && Equal(u.members[i], v.members[j])
    && (u.kind.Map? ==> i < |u.values| && j < |v.values| && Equal(u.values[i], v.values[j]))
  }

  /** Two Sets or two Maps without properties of their own: their members can be paired with equal ones. */
  lemma OnCollections(u: Value, v: Value)
    requires u.Obj? && v.Obj? && u.tag != "Object" && v.tag != "Object" && u.props == v.props == map[]
    requires (u.kind.Set? && v.kind.Set?) || (u.kind.Map? && v.kind.Map?)
    ensures Equal(u, v) <==> u == v || (u.proto == v.proto && u.tag == v.tag && exists f, g :: Pairs(u, v, f, g))
  {
    CollectionEqual(u, v);
    hide Equal, MembersEqual;
    MembersPaired(u, v);
    if f, g :| Pairs(u, v, f, g) {
      PairsHere(u, v, f, g);
    }
  }

  lemma CollectionEqual(u: Value, v: Value)
    requires u.Obj? && v.Obj? && u.tag != "Object" && v.tag != "Object" && u.props == v.props == map[]
    requires (u.kind.Set? && v.kind.Set?) || (u.kind.Map? && v.kind.Map?)
    ensures Equal(u, v) <==>
      u == v || (u.proto == v.proto && u.tag == v.tag && |u.members| == |v.members| && MembersEqual(u, v))
  {
    hide MembersEqual;
    assert StringKeys(u) == StringKeys(v) == OwnSymbols(u) == EnumerableSymbols(v) == EnumerableSymbols(u) == {};
    assert ComparedKeys(u) == {};
  }

  lemma MembersPaired(u: Value, v: Value)
    requires u.Obj? && v.Obj? && (u.kind.Set? || u.kind.Map?) && u.tag != "Object"
    ensures MembersEqual(u, v) <==> exists f, g :: Pairs(u, v, f, g)
  {
    forall f, g
      ensures MembersMatch(u, v, f, g) <==> Pairs(u, v, f, g)
    {
      MatchIsPairs(u, v, f, g);
    }
    hide MembersMatch, Pairs;
  }

  lemma MatchIsPairs(u: Value, v: Value, f: map<nat, nat>, g: map<nat, nat>)
    requires u.Obj? && v.Obj? && (u.kind.Set? || u.kind.Map?) && u.tag != "Object"
    ensures MembersMatch(u, v, f, g) <==> Pairs(u, v, f, g)
  {
    hide Equal, Bijection;
    if Bijection(f, g, Range(|u.members|), Range(|v.members|)) {
      forall i: nat | i < |u.members|
        ensures i in f && (PairEqual(u, v, i, f[i]) <==> PairsAt(u, v, i, f[i]))
      {
        MappedIndex(f, g, |u.members|, |v.members|, i);
      }
      hide PairEqual, PairsAt;
    }
  }

  lemma MappedIndex(f: map<nat, nat>, g: map<nat, nat>, m: nat, n: nat, i: nat)
    requires Bijection(f, g, Range(m), Range(n)) && i < m
    ensures i in f
  {
    assert i in Range(m);
  }

  /** As many members on both sides. */
  lemma PairsHere(u: Value, v: Value, f: map<nat, nat>, g: map<nat, nat>)
    requires u.Obj? && v.Obj? && Pairs(u, v, f, g)
    ensures |u.members| == |v.members|
  {
    hide PairsAt, Bijection;
    SameSize(f, g, Range(|u.members|), Range(|v.members|));
  }
}
