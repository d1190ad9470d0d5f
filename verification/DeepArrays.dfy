/** Strict deep equality of arrays: exactly where it is symmetric. */
module DeepArrays {
  import opened DeepExact
  import opened DeepLaws
  import opened DeepValues

  // ---- other arrays with the same elements ----

  /** The keys of the list that are in ks, in the same order. */
  ghost function Kept(order: seq<Key>, ks: set<Key>): seq<Key> {
    if order == [] then []
    else
      var rest, k := Kept(order[..|order| - 1], ks), order[|order| - 1];
      if k in ks then rest + [k] else rest
  }

  ghost predicate Distinct(keys: seq<Key>) {
    forall i, j | 0 <= i < j < |keys| :: keys[i] != keys[j]
  }

  lemma {:induction false} KeptFacts(order: seq<Key>, ks: set<Key>)
    requires Distinct(order) && IndicesFirst(order)
    ensures forall k :: k in Kept(order, ks) <==> k in order && k in ks
    ensures Distinct(Kept(order, ks)) && IndicesFirst(Kept(order, ks))
  {
    if order != [] {
      var before, k := order[..|order| - 1], order[|order| - 1];
      KeptFacts(before, ks);
      var rest := Kept(before, ks);
      forall i | 0 <= i < |rest|
        ensures rest[i] != k && (k.Index? ==> rest[i].Index? && rest[i].i < k.i)
      {
        assert rest[i] in before;
      }
      assert order == before + [k];
    }
  }

  /** The array with the elements it has among props, under another identity. */
  lemma ArrayVariant(u: Value, props: map<Key, Prop>) returns (v: Value)
    requires u.Obj? && TidyBelow(u) && u.kind.Array?
    requires forall k | k in props :: Tidy(props[k].value)
    requires forall k: Key | k in props && !k.Symbol? :: k in u.props
    requires forall k: Key | k in props && k.Index? :: props[k] == u.props[k]
    ensures v.Obj? && v != u && v.proto == u.proto && v.tag == u.tag && v.kind == u.kind
    ensures v.props == props && WellFormed(v) && TidyBelow(v)
  {
    hide Tidy, Kept, Regular;
    OrderOf(u);
    KeptFacts(u.order, props.Keys);
    var kept := Kept(u.order, props.Keys);
    var rest := ListOf(props.Keys - u.props.Keys);
    v := Obj(u.id + 1, u.proto, u.tag, u.kind, kept + rest, props, [], []);
    JoinedOrder(kept, rest);
    ElementsWellFormed(u, v);
  }

  lemma OrderOf(u: Value)
    requires u.Obj? && WellFormed(u) && u.kind.Array?
    ensures Distinct(u.order) && IndicesFirst(u.order) && forall k :: k in u.order <==> k in u.props
  {
  }

  lemma JoinedOrder(kept: seq<Key>, rest: seq<Key>)
    requires Distinct(kept) && IndicesFirst(kept) && Distinct(rest)
    requires forall k | k in rest :: k !in kept && !k.Index?
    ensures Distinct(kept + rest) && IndicesFirst(kept + rest)
    ensures forall k :: k in kept + rest <==> k in kept || k in rest
  {
    forall i, j | 0 <= i < j < |kept + rest|
      ensures (kept + rest)[i] != (kept + rest)[j]
    {
      assert j >= |kept| ==> (kept + rest)[j] in rest;
      assert i < |kept| ==> (kept + rest)[i] in kept;
    }
  }

  lemma ElementsWellFormed(u: Value, v: Value)
    requires u.Obj? && v.Obj? && WellFormed(u) && u.kind.Array? && v.kind == u.kind && v.members == [] && v.values == []
    requires Distinct(v.order) && IndicesFirst(v.order) && forall k :: k in v.order <==> k in v.props
    requires forall k: Key | k in v.props && k.Name? :: k in u.props
    requires forall k: Key | k in v.props && k.Index? :: k in u.props && v.props[k] == u.props[k]
    ensures WellFormed(v)
  {
  }

  /** The enumerable properties without those in gone, and added ones. */
  ghost function Exchanged(u: Value, gone: set<Key>, added: map<Key, Prop>): map<Key, Prop>
    requires u.Obj?
  {
    (map k | k in u.props && u.props[k].enumerable && k !in gone :: u.props[k]) + added
  }

  /** The hidden property x made enumerable. */
  ghost function Shown(u: Value, x: Key): map<Key, Prop>
    requires u.Obj? && x in u.props
  {
    map[x := Prop(true, u.props[x].value)]
  }

  lemma ExchangedKeys(u: Value, v: Value, gone: set<Key>, added: map<Key, Prop>)
    requires u.Obj? && v.Obj? && v.props == Exchanged(u, gone, added)
    requires forall k | k in added :: added[k].enumerable && !k.Index? && !IsEnumerable(u, k)
    ensures ExtraKeys(v) == ExtraKeys(u) - gone + added.Keys
    ensures ExtraKeys(u) - gone !! added.Keys
    ensures forall k | k in v.props :: v.props[k].enumerable
    ensures forall k | k in v.props && k !in added :: k in u.props && v.props[k] == u.props[k]
    ensures forall k | k in u.props && u.props[k].enumerable && k !in gone :: k in v.props && v.props[k] == u.props[k]
    ensures forall k | k in gone && k in u.props && u.props[k].enumerable :: k !in v.props
    ensures forall k | k in added :: k in v.props && v.props[k] == added[k]
  {
  }

  lemma ShownStrings(u: Value, v: Value, gone: set<Key>, x: Key)
    requires u.Obj? && v.Obj? && HiddenName(u, x) && v.props == Exchanged(u, gone, Shown(u, x))
    ensures StringKeys(v) == StringKeys(u) - gone + {x}
    ensures x !in StringKeys(u)
  {
  }

  lemma ShownExtras(u: Value, v: Value, gone: set<Key>, x: Key)
    requires u.Obj? && v.Obj? && HiddenName(u, x) && v.props == Exchanged(u, gone, Shown(u, x))
    ensures ExtraKeys(v) == ExtraKeys(u) - gone + {x}
    ensures x !in ExtraKeys(u)
  {
  }

  lemma ExchangeOne<T>(a: set<T>, gone: set<T>, y: T, x: T)
    requires y in a && a * gone == {y} && x !in a
    ensures |a - gone + {x}| == |a|
  {
    assert a - gone + {x} == a - {y} + {x};
  }

  // ---- an irregular array has a tidy partner on which the order of the arguments matters ----

  lemma ArrayHeads(u: Value, v: Value)
    requires u.Obj? && v.Obj? && u.kind.Array? && v.kind == u.kind && v.proto == u.proto && v.tag == u.tag
    ensures HeadsAgree(u, v) <==> ArrayKeysAgree(u, v)
  {
    hide ArrayKeysAgree;
  }

  lemma TidyArray(v: Value)
    requires v.Obj? && v.kind.Array? && v.tag != "Object"
    ensures Regular(v) <==> if Sparse(v) then SparseRegular(v) else DenseRegular(v)
    ensures Tidy(v) <==> Regular(v) && TidyBelow(v)
  {
    hide TidyBelow, SparseRegular, DenseRegular, Sparse;
  }

  /** An array whose properties are among those of u, with the same values. */
  lemma SubsetEqual(v: Value, u: Value)
    requires u.Obj? && v.Obj? && v.kind.Array?
    requires forall k | k in v.props :: k in u.props && v.props[k].value == u.props[k].value
    ensures KeysEqual(v, u) && MembersEqual(v, u)
  {
    hide StringKeys, EnumerableSymbols, ComparedKeys;
  }

  /** The array in which x has taken the place of the keys in gone. */
  lemma ShownPartner(u: Value, gone: set<Key>, x: Key) returns (v: Value)
    requires u.Obj? && TidyBelow(u) && u.kind.Array? && x in u.props && !u.props[x].enumerable
    ensures v.Obj? && v != u && v.proto == u.proto && v.tag == u.tag && v.kind == u.kind
    ensures v.props == Exchanged(u, gone, Shown(u, x))
    ensures WellFormed(u) && WellFormed(v) && TidyBelow(v) && !x.Index?
    ensures KeysEqual(v, u) && MembersEqual(v, u)
  {
    hide Tidy, TidyBelow, WellFormed, Equal, KeysEqual, MembersEqual;
    BelowParts(u);
    IndicesShown(u);
    v := ArrayVariant(u, Exchanged(u, gone, Shown(u, x)));
    ArrayBelow(v);
    SubsetEqual(v, u);
  }

  lemma IndicesShown(u: Value)
    requires u.Obj? && WellFormed(u) && u.kind.Array?
    ensures forall k: Key | k in u.props && k.Index? :: u.props[k].enumerable
  {
  }

  lemma ArrayBelow(v: Value)
    requires v.Obj? && TidyBelow(v)
    ensures WellFormed(v)
  {
  }

  // ---- sparse arrays ----

  /** What a hidden name x can stand in for: the string key y and the extra key e. */
  ghost predicate StandsIn(u: Value, x: Key, y: Key, e: Key)
    requires u.Obj? && u.kind.Array?
  {
    && HiddenName(u, x) && y in StringKeys(u) && e in ExtraKeys(u)
    && ((y == e && y.Name?) || (y.Index? && e.Symbol? && exists j: nat :: j < y.i && !Own(u, Index(j))))
  }

  lemma StandIn(u: Value) returns (x: Key, y: Key, e: Key)
    requires u.Obj? && u.kind.Array? && WellFormed(u) && !SparseRegular(u)
    ensures StandsIn(u, x, y, e)
  {
    x :| HiddenName(u, x);
    if NameKeys(u) != {} {
      y :| y in NameKeys(u);
      e := y;
    } else {
      e :| e in EnumerableSymbols(u);
      var i: nat, j: nat :| j < i < u.kind.length && Own(u, Index(i)) && !Own(u, Index(j));
      y := Index(i);
    }
  }

  lemma StandInCounts(u: Value, v: Value, x: Key, y: Key, e: Key)
    requires u.Obj? && v.Obj? && u.kind.Array? && StandsIn(u, x, y, e)
    requires v.props == Exchanged(u, {y, e}, Shown(u, x))
    ensures |ExtraKeys(v)| == |ExtraKeys(u)| && |StringKeys(v)| == |StringKeys(u)|
  {
    StandInOverlap(u, x, y, e);
    ShownExtras(u, v, {y, e}, x);
    ShownStrings(u, v, {y, e}, x);
    hide *;
    ExchangeOne(ExtraKeys(u), {y, e}, e, x);
    ExchangeOne(StringKeys(u), {y, e}, y, x);
  }

  lemma StandInOverlap(u: Value, x: Key, y: Key, e: Key)
    requires u.Obj? && u.kind.Array? && StandsIn(u, x, y, e)
    ensures HiddenName(u, x) && y in StringKeys(u) && e in ExtraKeys(u)
    ensures ExtraKeys(u) * {y, e} == {e} && StringKeys(u) * {y, e} == {y}
  {
  }

  lemma StandInHoles(u: Value, v: Value, x: Key, y: Key, e: Key)
    requires u.Obj? && v.Obj? && u.kind.Array? && v.kind == u.kind && WellFormed(u) && StandsIn(u, x, y, e) && Sparse(u)
    requires v.props == Exchanged(u, {y, e}, Shown(u, x))
    ensures exists h | 0 <= h < u.kind.length :: FirstHole(u, h) && FirstHole(v, h)
  {
    ExchangedKeys(u, v, {y, e}, Shown(u, x));
    IndicesShown(u);
    hide *;
    var h := SomeFirstHole(u);
    BelowHole(u, v, x, y, e, h);
  }

  lemma SomeFirstHole(u: Value) returns (h: nat)
    requires u.Obj? && u.kind.Array? && Sparse(u)
    ensures h < u.kind.length && FirstHole(u, h)
  {
    var i :| 0 <= i < u.kind.length && !Own(u, Index(i));
    LeastHole(u, i);
    h :| 0 <= h < u.kind.length && FirstHole(u, h);
  }

  lemma BelowHole(u: Value, v: Value, x: Key, y: Key, e: Key, h: nat)
    requires u.Obj? && v.Obj? && u.kind.Array? && v.kind == u.kind && StandsIn(u, x, y, e) && FirstHole(u, h)
    requires forall k: Key | k in u.props && k.Index? :: u.props[k].enumerable
    requires forall k | k in v.props && k != x :: k in u.props
    requires forall k | k in u.props && u.props[k].enumerable && k !in {y, e} :: k in v.props
    ensures FirstHole(v, h)
  {
    forall j | 0 <= j < h
      ensures Own(v, Index(j))
    {
      assert Own(u, Index(j));
    }
  }

  lemma SparseTrade(u: Value, v: Value, x: Key, y: Key, e: Key)
    requires u.Obj? && v.Obj? && u.kind.Array? && v.kind == u.kind && WellFormed(u) && StandsIn(u, x, y, e) && Sparse(u)
    requires v.props == Exchanged(u, {y, e}, Shown(u, x))
    ensures ArrayKeysAgree(v, u) && !ArrayKeysAgree(u, v) && Sparse(v) && SparseRegular(v)
  {
    hide *;
    StandInCounts(u, v, x, y, e);
    StandInHoles(u, v, x, y, e);
    StandInOwns(u, v, x, y, e);
    SparseAgree(v, u);
    SparseDisagree(u, v, y);
  }

  lemma StandInOwns(u: Value, v: Value, x: Key, y: Key, e: Key)
    requires u.Obj? && v.Obj? && u.kind.Array? && v.kind == u.kind && StandsIn(u, x, y, e)
    requires v.props == Exchanged(u, {y, e}, Shown(u, x))
    ensures y in StringKeys(u) && !Own(v, y)
    ensures forall k | k in StringKeys(v) :: Own(u, k)
    ensures SparseRegular(v)
  {
    ExchangedKeys(u, v, {y, e}, Shown(u, x));
    hide Exchanged, ExtraKeys, NameKeys, EnumerableSymbols, Packed;
  }

  lemma SparseAgree(u: Value, v: Value)
    requires u.Obj? && v.Obj? && u.kind.Array? && v.kind == u.kind
    requires |ExtraKeys(u)| == |ExtraKeys(v)| && |StringKeys(u)| == |StringKeys(v)|
    requires exists h | 0 <= h < u.kind.length :: FirstHole(v, h) && FirstHole(u, h)
    requires forall k | k in StringKeys(u) :: Own(v, k)
    ensures Sparse(u) && ArrayKeysAgree(u, v)
  {
    hide ExtraKeys, StringKeys;
    var h :| 0 <= h < u.kind.length && FirstHole(v, h) && FirstHole(u, h);
    assert !Own(u, Index(h));
  }

  lemma SparseDisagree(u: Value, v: Value, y: Key)
    requires u.Obj? && v.Obj? && u.kind.Array? && v.kind == u.kind && Sparse(u)
    requires y in StringKeys(u) && !Own(v, y)
    ensures !ArrayKeysAgree(u, v)
  {
    hide ExtraKeys, StringKeys, Sparse;
  }

  lemma DenseAgree(u: Value, v: Value)
    requires u.Obj? && v.Obj? && u.kind.Array? && v.kind == u.kind && !Sparse(u)
    requires |ExtraKeys(u)| == |ExtraKeys(v)| && !Sparse(v)
    ensures ArrayKeysAgree(u, v)
  {
    hide ExtraKeys;
  }

  /** An array that keeps all elements has no holes either. */
  lemma StillDense(u: Value, v: Value)
    requires u.Obj? && v.Obj? && u.kind.Array? && v.kind == u.kind && !Sparse(u)
    requires forall k: Key | k in u.props && k.Index? :: k in v.props
    ensures !Sparse(v)
  {
    forall i | 0 <= i < u.kind.length
      ensures Own(v, Index(i))
    {
      assert Own(u, Index(i));
    }
  }

  /** A sparse array with a hidden name that can stand in for other keys. */
  lemma SparsePartner(u: Value) returns (v: Value)
    requires u.Obj? && TidyBelow(u) && u.kind.Array? && u.tag != "Object" && Sparse(u) && !SparseRegular(u)
    ensures Tidy(v) && Equal(v, u) && !Equal(u, v)
  {
    hide *;
    BelowParts(u);
    var x, y, e := StandIn(u);
    HiddenIs(u, x, y, e);
    v := ShownPartner(u, {y, e}, x);
    SparseTrade(u, v, x, y, e);
    ArrayHeads(u, v);
    ArrayHeads(v, u);
    TidyArray(v);
    EqualFrom(v, u);
    UnequalFrom(u, v);
  }

  lemma HiddenIs(u: Value, x: Key, y: Key, e: Key)
    requires u.Obj? && u.kind.Array? && StandsIn(u, x, y, e)
    ensures x in u.props && !u.props[x].enumerable
  {
  }

  // ---- arrays without holes ----

  /** The enumerable extra keys whose value is undefined. */
  ghost function UndefinedKeys(u: Value): set<Key>
    requires u.Obj?
  {
    set k | k in ExtraKeys(u) && u.props[k].value == Prim(Undefined)
  }

  /** Enumerable undefined extra keys: an array with as many other ones instead equals it in one order only. */
  lemma UndefinedPartner(u: Value) returns (v: Value)
    requires u.Obj? && TidyBelow(u) && u.kind.Array? && u.tag != "Object" && !Sparse(u) && UndefinedKeys(u) != {}
    ensures Tidy(v) && Equal(u, v) && !Equal(v, u)
  {
    hide *;
    var gone := UndefinedKeys(u);
    var b := SymbolBound(u.order);
    var added := FreshSymbols(b, |gone|, Prim(Bool(true)));
    BelowParts(u);
    IndicesShown(u);
    AreNew(u, added, b);
    PrimIsTidy(Bool(true));
    ExchangedFits(u, gone, added);
    v := ArrayVariant(u, Exchanged(u, gone, added));
    UndefinedTrade(u, v, added);
    ExchangedLeft(u, v, added);
    ArrayHeads(u, v);
    TidyArray(v);
    EqualFrom(u, v);
    UnequalFrom(v, u);
  }

  lemma PrimIsTidy(p: Primitive)
    ensures Tidy(Prim(p))
  {
  }

  lemma ExchangedFits(u: Value, gone: set<Key>, added: map<Key, Prop>)
    requires u.Obj? && forall k | k in u.props :: Tidy(u.props[k].value)
    requires forall k | k in added :: k.Symbol? && Tidy(added[k].value)
    ensures var m := Exchanged(u, gone, added);
      && (forall k | k in m :: Tidy(m[k].value))
      && (forall k: Key | k in m && !k.Symbol? :: k in u.props && m[k] == u.props[k])
  {
    hide Tidy;
  }

  lemma UndefinedTrade(u: Value, v: Value, added: map<Key, Prop>)
    requires u.Obj? && v.Obj? && u.kind.Array? && v.kind == u.kind && WellFormed(u) && !Sparse(u)
    requires |added| == |UndefinedKeys(u)|
    requires forall k | k in added :: k.Symbol? && k !in u.props && added[k] == Prop(true, Prim(Bool(true)))
    requires v.props == Exchanged(u, UndefinedKeys(u), added)
    ensures ArrayKeysAgree(u, v) && !Sparse(v) && DenseRegular(v)
  {
    UndefinedGone(u, v, added);
    ExchangedKeys(u, v, UndefinedKeys(u), added);
    hide *;
    ExtrasStay(ExtraKeys(u), UndefinedKeys(u), added.Keys);
    DenseAgree(u, v);
  }

  lemma UndefinedGone(u: Value, v: Value, added: map<Key, Prop>)
    requires u.Obj? && v.Obj? && u.kind.Array? && v.kind == u.kind && WellFormed(u) && !Sparse(u)
    requires forall k | k in added :: k.Symbol? && k !in u.props && added[k] == Prop(true, Prim(Bool(true)))
    requires v.props == Exchanged(u, UndefinedKeys(u), added)
    ensures !Sparse(v) && DenseRegular(v)
    ensures UndefinedKeys(u) <= ExtraKeys(u)
  {
    ExchangedKeys(u, v, UndefinedKeys(u), added);
    IndicesShown(u);
    hide WellFormed, Exchanged, Sparse, ExtraKeys;
    StillDense(u, v);
    AllDefined(u, v);
  }

  lemma ExtrasStay(a: set<Key>, gone: set<Key>, added: set<Key>)
    requires gone <= a && a - gone !! added && |added| == |gone|
    ensures |a - gone + added| == |a|
  {
    DisjointSum(a - gone, added);
    DisjointSum(a - gone, gone);
    assert a - gone + gone == a;
  }

  /** What is left and shown has a value. */
  lemma AllDefined(u: Value, v: Value)
    requires u.Obj? && v.Obj?
    requires forall k | k in v.props :: v.props[k].enumerable
    requires forall k: Key | k in v.props && !k.Index? ::
      v.props[k].value != Prim(Undefined) || (k in u.props && u.props[k].enumerable && v.props[k] == u.props[k] && k !in UndefinedKeys(u))
    ensures DenseRegular(v)
  {
    hide ExtraKeys;
    forall k: Key | k in v.props && !k.Index?
      ensures v.props[k].value != Prim(Undefined)
    {
      if k in u.props && u.props[k].enumerable && v.props[k] == u.props[k] && k !in UndefinedKeys(u) {
        ExtraDefined(u, k);
      }
    }
  }

  lemma ExtraDefined(u: Value, k: Key)
    requires u.Obj? && k in u.props && u.props[k].enumerable && !k.Index? && k !in UndefinedKeys(u)
    ensures u.props[k].value != Prim(Undefined)
  {
  }

  lemma ExchangedLeft(u: Value, v: Value, added: map<Key, Prop>)
    requires u.Obj? && v.Obj? && u.kind.Array? && v.kind == u.kind && !Sparse(u) && !Sparse(v)
    requires v.props == Exchanged(u, UndefinedKeys(u), added) && added.Keys != {}
    requires forall k | k in added :: k.Symbol? && k !in u.props && added[k] == Prop(true, Prim(Bool(true)))
    ensures KeysEqual(u, v) && MembersEqual(u, v) && !KeysEqual(v, u)
  {
    ExchangedKeys(u, v, UndefinedKeys(u), added);
    forall k | k in ComparedKeys(u)
      ensures Equal(u.props[k].value, Get(v, k))
    {
      if k in UndefinedKeys(u) {
        assert k !in v.props;
      }
    }
    var t :| t in added.Keys;
    assert t in ComparedKeys(v);
    assert !Equal(v.props[t].value, Get(u, t));
  }

  /** A hidden key with a value: an array that shows it in place of another one equals it in one order only. */
  lemma HiddenValuePartner(u: Value, x: Key) returns (v: Value)
    requires u.Obj? && TidyBelow(u) && u.kind.Array? && u.tag != "Object" && !Sparse(u) && UndefinedKeys(u) == {}
    requires ExtraKeys(u) != {} && x in u.props && !u.props[x].enumerable && u.props[x].value != Prim(Undefined)
    ensures Tidy(v) && Equal(v, u) && !Equal(u, v)
  {
    hide *;
    var e :| e in ExtraKeys(u);
    v := ShownPartner(u, {e}, x);
    ValueTrade(u, v, x, e);
    ArrayHeads(v, u);
    TidyArray(v);
    EqualFrom(v, u);
    UnequalFrom(u, v);
  }

  lemma ValueTrade(u: Value, v: Value, x: Key, e: Key)
    requires u.Obj? && v.Obj? && u.kind.Array? && v.kind == u.kind && WellFormed(u) && !Sparse(u) && UndefinedKeys(u) == {}
    requires e in ExtraKeys(u) && x in u.props && !x.Index? && !u.props[x].enumerable && u.props[x].value != Prim(Undefined)
    requires v.props == Exchanged(u, {e}, Shown(u, x))
    ensures ArrayKeysAgree(v, u) && !Sparse(v) && DenseRegular(v) && !KeysEqual(u, v)
  {
    ValueShown(u, v, x, e);
    ExtraIs(u, x, e);
    ExtraDefined(u, e);
    hide *;
    ExchangeOne(ExtraKeys(u), {e}, e, x);
    DenseAgree(v, u);
    ExtraMissing(u, v, e);
  }

  lemma ValueShown(u: Value, v: Value, x: Key, e: Key)
    requires u.Obj? && v.Obj? && u.kind.Array? && v.kind == u.kind && WellFormed(u) && !Sparse(u) && UndefinedKeys(u) == {}
    requires e in ExtraKeys(u) && x in u.props && !x.Index? && !u.props[x].enumerable && u.props[x].value != Prim(Undefined)
    requires v.props == Exchanged(u, {e}, Shown(u, x))
    ensures !Sparse(v) && DenseRegular(v) && e !in v.props
    ensures ExtraKeys(v) == ExtraKeys(u) - {e} + {x} && ExtraKeys(u) * {e} == {e}
  {
    ExchangedKeys(u, v, {e}, Shown(u, x));
    IndicesShown(u);
    ExtraIs(u, x, e);
    hide WellFormed, Exchanged, Sparse, ExtraKeys, UndefinedKeys;
    StillDense(u, v);
    AllDefined(u, v);
  }

  lemma ExtraIs(u: Value, x: Key, e: Key)
    requires u.Obj? && e in ExtraKeys(u) && x in u.props && !u.props[x].enumerable
    ensures x !in ExtraKeys(u) && e in u.props && u.props[e].enumerable && !e.Index?
  {
  }

  lemma ExtraMissing(u: Value, v: Value, e: Key)
    requires u.Obj? && v.Obj? && !Sparse(u) && e in ExtraKeys(u) && e !in v.props && u.props[e].value != Prim(Undefined)
    ensures !KeysEqual(u, v)
  {
    assert e in ComparedKeys(u);
    if Equal(u.props[e].value, Get(v, e)) {
      UndefinedOnly(u.props[e].value);
      assert false;
    }
  }

  /** An array without holes that is not regular has one of the two. */
  lemma DensePartner(u: Value) returns (v: Value)
    requires u.Obj? && TidyBelow(u) && u.kind.Array? && u.tag != "Object" && !Sparse(u) && !DenseRegular(u)
    ensures Tidy(v) && !(Equal(u, v) <==> Equal(v, u))
  {
    hide TidyBelow, Tidy, Equal, Sparse;
    if UndefinedKeys(u) != {} {
      v := UndefinedPartner(u);
    } else {
      var x :| x in u.props && !x.Index? && !(u.props[x].enumerable <==> u.props[x].value != Prim(Undefined));
      if u.props[x].enumerable {
        ExtraDefined(u, x);
      }
      v := HiddenValuePartner(u, x);
    }
  }

  // ---- the exact condition ----

  lemma BreaksSymmetry(u: Value, v: Value)
    requires Tidy(v) && !(Equal(u, v) <==> Equal(v, u))
    ensures !SymmetricAt(u)
  {
    hide Tidy, Equal;
  }

  /** On every kind of object the comparison is symmetric exactly when the object is regular or equals only itself. */
  lemma SymmetryExactly(u: Value)
    requires u.Obj? && TidyBelow(u)
    ensures SymmetricAt(u) <==> Regular(u) || Lonely(u)
  {
    hide TidyBelow, Equal, Sparse, SparseRegular, DenseRegular, SymmetricAt;
    if !u.kind.Array? {
      SymmetryOutsideArrays(u);
    } else if Regular(u) {
      assert Tidy(u);
      SymmetricIfTidy(u);
    } else if u.tag == "Object" {
      var v := DisguisedPartner(u);
      BreaksSymmetry(u, v);
    } else if Sparse(u) {
      var v := SparsePartner(u);
      BreaksSymmetry(u, v);
    } else {
      var v := DensePartner(u);
      BreaksSymmetry(u, v);
    }
  }

  // ---- arrays: only the left array's extra keys are looked up ----

  function ArrayWith(id: nat, key: Key, prop: Prop): Value {
    Obj(id, 0, "Array", Array(0), [key], map[key := prop], [], [])
  }

  /** [] with x: undefined equals [] with y: 1, but not the other way round. */
  lemma ArrayExtraKeyAsymmetry()
    ensures var u := ArrayWith(1, Name("x"), Prop(true, Prim(Undefined)));
      var v := ArrayWith(2, Name("y"), Prop(true, Prim(Num(Finite(1.0)))));
      Equal(u, v) && !Equal(v, u) && Tidy(v) && TidyBelow(u)
  {
    hide Tidy, TidyBelow, Equal;
    var x, y := Name("x"), Name("y");
    var u := ArrayWith(1, x, Prop(true, Prim(Undefined)));
    var v := ArrayWith(2, y, Prop(true, Prim(Num(Finite(1.0)))));
    OneKeyHeads(1, x, Prop(true, Prim(Undefined)), 2, y, Prop(true, Prim(Num(Finite(1.0)))));
    OneKeyCompared(1, x, Prop(true, Prim(Undefined)), v);
    OneKeyCompared(2, y, Prop(true, Prim(Num(Finite(1.0)))), u);
    EqualFrom(u, v);
    UnequalFrom(v, u);
    OneKeyTidy(1, x, Prop(true, Prim(Undefined)));
    OneKeyTidy(2, y, Prop(true, Prim(Num(Finite(1.0)))));
  }

  lemma OneKeyHeads(i: nat, x: Key, p: Prop, j: nat, y: Key, q: Prop)
    requires x.Name? && y.Name? && p.enumerable && q.enumerable
    ensures HeadsAgree(ArrayWith(i, x, p), ArrayWith(j, y, q))
  {
    assert ExtraKeys(ArrayWith(i, x, p)) == {x} && ExtraKeys(ArrayWith(j, y, q)) == {y};
  }

  lemma OneKeyCompared(i: nat, x: Key, p: Prop, v: Value)
    requires x.Name? && p.enumerable && p.value.Prim? && v.Obj?
    ensures var u := ArrayWith(i, x, p);
      MembersEqual(u, v) && (KeysEqual(u, v) <==> Get(v, x) == p.value)
  {
    var u := ArrayWith(i, x, p);
    assert StringKeys(u) == {x} && EnumerableSymbols(u) == {};
    assert ComparedKeys(u) == {x};
  }

  lemma OneKeyTidy(i: nat, x: Key, p: Prop)
    requires x.Name? && x.name != "size" && p.enumerable && p.value.Prim?
    ensures var u := ArrayWith(i, x, p);
      TidyBelow(u) && (Tidy(u) <==> p.value != Prim(Undefined))
  {
    var u := ArrayWith(i, x, p);
    assert ExtraKeys(u) == {x};
    assert x in u.props;
  }
}
