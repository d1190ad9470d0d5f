/** Strict deep equality is an equivalence on tidy values, and where it is not one. */
module DeepLaws {
  import opened DeepValues
  import opened Matching

  // ---- a symmetric form of the head comparison ----

  /** What two tidy objects must share; plainly symmetric and transitive. */
  ghost predicate SameHead(u: Value, v: Value)
    requires u.Obj? && v.Obj?
  {
    && u.proto == v.proto && u.tag == v.tag && Shape(u) == Shape(v) && SelfEqual(Shape(u))
    && (Shape(u).Error? ==> (Own(u, CAUSE) <==> Own(v, CAUSE)) && (Own(u, ERRORS) <==> Own(v, ERRORS)))
    && StringKeys(u) == StringKeys(v)
    && (Sparse(u) <==> Sparse(v))
    && if Sparse(u) then |EnumerableSymbols(u)| == |EnumerableSymbols(v)|
       else EnumerableSymbols(u) == EnumerableSymbols(v)
  }

  lemma KindsNormal(u: Value, v: Value)
    requires u.Obj? && v.Obj? && Regular(u) && Regular(v) && u.tag == v.tag
    ensures KindsAgree(u, v) <==>
      && Shape(u) == Shape(v) && SelfEqual(Shape(u))
      && (Collection(u) ==> |u.members| == |v.members|)
      && (Shape(u).Error? ==> (Own(u, CAUSE) <==> Own(v, CAUSE)) && (Own(u, ERRORS) <==> Own(v, ERRORS)))
  {
    hide OwnSymbols, EnumerableSymbols, ExtraKeys;
  }

  /** Without hidden symbols both sides have the same symbols. */
  lemma SymbolsNormal(u: Value, v: Value)
    requires u.Obj? && v.Obj?
    requires OwnSymbols(u) == EnumerableSymbols(u) && OwnSymbols(v) == EnumerableSymbols(v)
    ensures SymbolsAgree(u, v) <==> EnumerableSymbols(u) == EnumerableSymbols(v)
  {
    if SymbolsAgree(u, v) {
      assert EnumerableSymbols(u) <= EnumerableSymbols(v);
      SubsetOfSameSize(EnumerableSymbols(u), EnumerableSymbols(v));
    }
    if EnumerableSymbols(u) == EnumerableSymbols(v) {
      forall k | k in OwnSymbols(u)
        ensures IsEnumerable(u, k) && IsEnumerable(v, k)
      {
        assert k in EnumerableSymbols(u) && k in EnumerableSymbols(v);
      }
    }
  }

  lemma SparseByKeys(u: Value, v: Value)
    requires u.Obj? && v.Obj? && WellFormed(u) && WellFormed(v)
    requires Shape(u) == Shape(v) && StringKeys(u) == StringKeys(v) && u.tag == v.tag
    requires Regular(u) && Regular(v)
    ensures Sparse(u) <==> Sparse(v)
    ensures u.kind.Array? ==> forall i | 0 <= i < u.kind.length :: Own(u, Index(i)) <==> Own(v, Index(i))
  {
    if u.kind.Array? {
      forall i | 0 <= i < u.kind.length
        ensures Own(u, Index(i)) <==> Own(v, Index(i))
      {
        assert Index(i) in StringKeys(u) <==> Index(i) in u.props;
        assert Index(i) in StringKeys(v) <==> Index(i) in v.props;
      }
    }
  }

  lemma UndefinedOnly(x: Value)
    requires Equal(x, Prim(Undefined))
    ensures x == Prim(Undefined)
  {
  }

  lemma ExtraSplit(v: Value)
    requires v.Obj?
    ensures ExtraKeys(v) == NameKeys(v) + EnumerableSymbols(v)
    ensures |ExtraKeys(v)| == |NameKeys(v)| + |EnumerableSymbols(v)|
  {
    assert NameKeys(v) !! EnumerableSymbols(v);
    assert ExtraKeys(v) == NameKeys(v) + EnumerableSymbols(v);
    DisjointSum(NameKeys(v), EnumerableSymbols(v));
  }

  lemma DisjointSum<T>(a: set<T>, b: set<T>)
    requires a !! b
    ensures |a + b| == |a| + |b|
  {
  }

  lemma NamesOfStrings(u: Value, v: Value)
    requires u.Obj? && v.Obj? && StringKeys(u) == StringKeys(v)
    ensures NameKeys(u) == NameKeys(v)
  {
    forall k
      ensures k in NameKeys(u) <==> k in NameKeys(v)
    {
      assert k in NameKeys(u) <==> k in StringKeys(u) && k.Name?;
      assert k in NameKeys(v) <==> k in StringKeys(v) && k.Name?;
    }
  }

  /** In arrays, once the compared values are equal, the extra keys that are present are the same ones. */
  lemma DenseArrayNormal(u: Value, v: Value)
    requires u.Obj? && v.Obj? && WellFormed(u) && WellFormed(v) && Regular(u) && Regular(v)
    requires u.kind.Array? && v.kind == u.kind && !Sparse(u) && KeysEqual(u, v)
    requires ArrayKeysAgree(u, v)
    ensures StringKeys(u) == StringKeys(v) && EnumerableSymbols(u) == EnumerableSymbols(v)
  {
    hide Equal;
    forall k | k in ExtraKeys(u)
      ensures k in ExtraKeys(v)
    {
      assert k in ComparedKeys(u);
      if Get(v, k) == Prim(Undefined) {
        UndefinedOnly(u.props[k].value);
        assert false;
      }
      assert ExtraKeys(v) != {};
    }
    SubsetOfSameSize(ExtraKeys(u), ExtraKeys(v));
    SplitBack(u, v);
  }

  /** Equal extra keys and full index ranges make equal string keys. */
  lemma SplitBack(u: Value, v: Value)
    requires u.Obj? && v.Obj? && WellFormed(u) && WellFormed(v)
    requires u.kind.Array? && v.kind == u.kind && ExtraKeys(u) == ExtraKeys(v)
    requires forall i | 0 <= i < u.kind.length :: Own(u, Index(i)) && Own(v, Index(i))
    ensures StringKeys(u) == StringKeys(v) && EnumerableSymbols(u) == EnumerableSymbols(v)
  {
    forall k
      ensures k in StringKeys(u) <==> k in StringKeys(v)
      ensures k in EnumerableSymbols(u) <==> k in EnumerableSymbols(v)
    {
      if !k.Index? {
        assert k in ExtraKeys(u) <==> k in ExtraKeys(v);
      } else if k.i < u.kind.length {
        assert Own(u, Index(k.i)) && Own(v, Index(k.i));
      }
    }
  }

  /** A packed array without enumerable names has fewer string keys than one with the same first hole and a name. */
  lemma NamelessStrings(u: Value, v: Value, k: Key, h: nat)
    requires u.Obj? && v.Obj? && WellFormed(u) && WellFormed(v) && u.kind.Array? && v.kind == u.kind
    requires FirstHole(u, h) && FirstHole(v, h) && |ExtraKeys(u)| == |ExtraKeys(v)|
    requires k in StringKeys(u) && k.Name? && NameKeys(v) == {} && (EnumerableSymbols(v) == {} || Packed(v))
    ensures |StringKeys(v)| < |StringKeys(u)|
  {
    NoneExtra(u, v, k);
    forall j | j in StringKeys(v)
      ensures j in StringKeys(u) - {k}
    {
      OnlyIndices(v, j);
      PackedBelow(u, v, h, j);
    }
    SmallerSubset(StringKeys(v), StringKeys(u) - {k});
  }

  lemma OnlyIndices(v: Value, j: Key)
    requires v.Obj? && j in StringKeys(v) && NameKeys(v) == {}
    ensures j.Index?
  {
    assert j in NameKeys(v) <==> j.Name?;
  }

  lemma NoneExtra(u: Value, v: Value, k: Key)
    requires u.Obj? && v.Obj? && k in StringKeys(u) && k.Name? && NameKeys(v) == {}
    requires |ExtraKeys(u)| == |ExtraKeys(v)|
    ensures EnumerableSymbols(v) != {}
  {
    ExtraSplit(v);
    assert k in ExtraKeys(u);
  }

  lemma PackedBelow(u: Value, v: Value, h: nat, j: Key)
    requires u.Obj? && v.Obj? && WellFormed(u) && WellFormed(v) && u.kind.Array? && v.kind == u.kind
    requires Packed(v) && FirstHole(u, h) && FirstHole(v, h) && j in v.props && j.Index?
    ensures j in StringKeys(u)
  {
    assert Own(v, Index(j.i));
    assert j.i < h;
    assert Own(u, Index(j.i));
  }

  lemma SparseArrayNormal(u: Value, v: Value)
    requires u.Obj? && v.Obj? && WellFormed(u) && WellFormed(v) && Regular(u) && Regular(v)
    requires u.kind.Array? && v.kind == u.kind && Sparse(u) && ArrayKeysAgree(u, v)
    ensures StringKeys(u) == StringKeys(v) && |EnumerableSymbols(u)| == |EnumerableSymbols(v)|
  {
    forall k | k in StringKeys(u)
      ensures k in StringKeys(v)
    {
      if k !in StringKeys(v) {
        assert HiddenName(v, k);
        assert k in ExtraKeys(u);
        var h :| 0 <= h < u.kind.length && FirstHole(u, h) && FirstHole(v, h);
        NamelessStrings(u, v, k, h);
        assert false;
      }
    }
    SubsetOfSameSize(StringKeys(u), StringKeys(v));
    NamesOfStrings(u, v);
    ExtraSplit(u);
    ExtraSplit(v);
  }

  lemma {:induction false} LeastHole(v: Value, i: nat)
    requires v.Obj? && v.kind.Array? && i < v.kind.length && !Own(v, Index(i))
    ensures exists h | 0 <= h < v.kind.length :: FirstHole(v, h)
    decreases i
  {
    if j :| 0 <= j < i && !Own(v, Index(j)) {
      LeastHole(v, j);
    } else {
      assert FirstHole(v, i);
    }
  }

  /** The same string keys and equally many symbols are enough for arrays to agree. */
  lemma ArrayKeysFromSets(u: Value, v: Value)
    requires u.Obj? && v.Obj? && WellFormed(u) && WellFormed(v) && Regular(u) && Regular(v)
    requires u.kind.Array? && v.kind == u.kind && u.tag == v.tag
    requires StringKeys(u) == StringKeys(v) && |EnumerableSymbols(u)| == |EnumerableSymbols(v)|
    ensures ArrayKeysAgree(u, v)
  {
    NamesOfStrings(u, v);
    ExtraSplit(u);
    ExtraSplit(v);
    SparseByKeys(u, v);
    if Sparse(u) {
      var i :| 0 <= i < u.kind.length && !Own(u, Index(i));
      LeastHole(u, i);
      var h :| 0 <= h < u.kind.length && FirstHole(u, h);
      assert FirstHole(v, h);
      forall k | k in StringKeys(u)
        ensures Own(v, k)
      {
        assert k in StringKeys(v);
      }
    }
  }

  /** On tidy objects the comparison of heads and contents is the symmetric one. */
  lemma Normal(u: Value, v: Value)
    requires u.Obj? && v.Obj? && WellFormed(u) && WellFormed(v) && Regular(u) && Regular(v)
    ensures HeadsAgree(u, v) && KeysEqual(u, v) && MembersEqual(u, v)
      <==> SameHead(u, v) && KeysEqual(u, v) && MembersEqual(u, v)
  {
    hide *;
    if KeysEqual(u, v) && MembersEqual(u, v) {
      if HeadsAgree(u, v) {
        HeadsGiveSame(u, v);
      }
      if SameHead(u, v) {
        SameGivesHeads(u, v);
      }
    }
  }

  lemma HeadsGiveSame(u: Value, v: Value)
    requires u.Obj? && v.Obj? && WellFormed(u) && WellFormed(v) && Regular(u) && Regular(v)
    requires HeadsAgree(u, v) && KeysEqual(u, v)
    ensures SameHead(u, v)
  {
    hide Equal, WellFormed, Regular, ArrayKeysAgree, SymbolsAgree, KindsAgree, Sparse, KeysEqual;
    KindsNormal(u, v);
    ShapeOfArray(u, v);
    if u.kind.Array? {
      if Sparse(u) {
        SparseArrayNormal(u, v);
      } else {
        DenseArrayNormal(u, v);
      }
    } else {
      RegularSymbols(u, v);
      SymbolsNormal(u, v);
    }
    SparseByKeys(u, v);
  }

  lemma SameGivesHeads(u: Value, v: Value)
    requires u.Obj? && v.Obj? && WellFormed(u) && WellFormed(v) && Regular(u) && Regular(v)
    requires SameHead(u, v) && MembersEqual(u, v)
    ensures HeadsAgree(u, v)
  {
    hide Equal, WellFormed, Regular, ArrayKeysAgree, SymbolsAgree, KindsAgree, Sparse, PairEqual, Collection;
    if Collection(u) {
      var f, g :| MembersMatch(u, v, f, g);
      SameSize(f, g, Range(|u.members|), Range(|v.members|));
    }
    KindsNormal(u, v);
    ShapeOfArray(u, v);
    if u.kind.Array? {
      ArrayKeysFromSets(u, v);
    } else {
      RegularSymbols(u, v);
      SymbolsNormal(u, v);
      NotSparse(u);
    }
  }

  lemma NotSparse(u: Value)
    requires u.Obj? && !u.kind.Array?
    ensures !Sparse(u)
  {
  }

  lemma RegularSymbols(u: Value, v: Value)
    requires u.Obj? && v.Obj? && Regular(u) && Regular(v) && !u.kind.Array? && !v.kind.Array?
    ensures OwnSymbols(u) == EnumerableSymbols(u) && OwnSymbols(v) == EnumerableSymbols(v)
  {
  }

  /** Of two regular objects with the same shape both are arrays of the same length, or none is. */
  lemma ShapeOfArray(u: Value, v: Value)
    requires u.Obj? && v.Obj? && Regular(u) && Regular(v) && Shape(u) == Shape(v)
    ensures u.kind.Array? <==> v.kind.Array?
    ensures u.kind.Array? ==> u.kind == v.kind
  {
  }

  // ---- the laws ----

  /** Two tidy objects are equal when they are the same object or have the same head and equal contents. */
  lemma TidyEqual(u: Value, v: Value)
    requires u.Obj? && v.Obj? && Tidy(u) && Tidy(v)
    ensures Equal(u, v) <==> u == v || (SameHead(u, v) && KeysEqual(u, v) && MembersEqual(u, v))
  {
    hide WellFormed, Regular, HeadsAgree, SameHead, KeysEqual, MembersEqual;
    Normal(u, v);
  }

  lemma SameComparedKeys(u: Value, v: Value)
    requires u.Obj? && v.Obj? && SameHead(u, v)
    ensures ComparedKeys(u) == ComparedKeys(v)
  {
  }

  lemma SameHeadSymmetric(u: Value, v: Value)
    requires u.Obj? && v.Obj? && SameHead(u, v)
    ensures SameHead(v, u) && (Collection(u) <==> Collection(v)) && (Shape(u).Map? <==> Shape(v).Map?)
  {
  }

  lemma SameHeadTransitive(u: Value, v: Value, w: Value)
    requires u.Obj? && v.Obj? && w.Obj? && SameHead(u, v) && SameHead(v, w)
    ensures SameHead(u, w)
  {
  }

  lemma TidyParts(v: Value)
    requires v.Obj? && Tidy(v)
    ensures forall k | k in v.props :: Tidy(v.props[k].value)
    ensures forall i | 0 <= i < |v.members| :: Tidy(v.members[i])
    ensures forall i | 0 <= i < |v.values| :: Tidy(v.values[i])
  {
  }

  /** Deep equality is symmetric on tidy values. */
  lemma {:induction false} Symmetric(u: Value, v: Value)
    requires Tidy(u) && Tidy(v) && Equal(u, v)
    ensures Equal(v, u)
    decreases u, 1
  {
    hide Tidy, SameHead, KeysEqual, MembersEqual, HeadsAgree;
    if u != v {
      TidyEqual(u, v);
      SameHeadSymmetric(u, v);
      KeysSymmetric(u, v);
      MembersSymmetric(u, v);
      TidyEqual(v, u);
    }
  }

  lemma KeysSymmetric(u: Value, v: Value)
    requires u.Obj? && v.Obj? && Tidy(u) && Tidy(v) && SameHead(u, v) && KeysEqual(u, v)
    ensures KeysEqual(v, u)
    decreases u, 0
  {
    hide Tidy, SameHead, Equal, ComparedKeys;
    TidyParts(u);
    TidyParts(v);
    SameComparedKeys(u, v);
    forall k | k in ComparedKeys(v)
      ensures Equal(v.props[k].value, Get(u, k))
    {
      Symmetric(u.props[k].value, v.props[k].value);
    }
  }

  lemma MembersSymmetric(u: Value, v: Value)
    requires u.Obj? && v.Obj? && Tidy(u) && Tidy(v) && SameHead(u, v) && MembersEqual(u, v)
    ensures MembersEqual(v, u)
    decreases u, 0
  {
    hide Tidy, SameHead, Shape, Collection, MembersMatch;
    SameHeadSymmetric(u, v);
    if Collection(u) {
      var f, g :| MembersMatch(u, v, f, g);
      MatchSymmetric(u, v, f, g);
    }
  }

  lemma MatchSymmetric(u: Value, v: Value, f: map<nat, nat>, g: map<nat, nat>)
    requires u.Obj? && v.Obj? && Tidy(u) && Tidy(v) && Shape(u).Map? == Shape(v).Map? && MembersMatch(u, v, f, g)
    ensures MembersMatch(v, u, g, f)
    decreases u, 0, 1
  {
    hide *;
    MatchIsBijection(u, v, f, g);
    Inverse(f, g, Range(|u.members|), Range(|v.members|));
    forall j | j in Range(|v.members|)
      ensures j in g && PairEqual(v, u, j, g[j])
    {
      MatchedColumn(u, v, f, g, j);
      PairSymmetric(u, v, g[j], j);
    }
    IsMatch(v, u, g, f);
  }

  lemma MatchedColumn(u: Value, v: Value, f: map<nat, nat>, g: map<nat, nat>, j: nat)
    requires u.Obj? && v.Obj? && MembersMatch(u, v, f, g) && j in Range(|v.members|)
    ensures j in g && PairEqual(u, v, g[j], j)
  {
    hide PairEqual;
    assert g[j] in Range(|u.members|);
  }

  lemma PairSymmetric(u: Value, v: Value, i: nat, j: nat)
    requires u.Obj? && v.Obj? && Tidy(u) && Tidy(v) && Shape(u).Map? == Shape(v).Map? && PairEqual(u, v, i, j)
    ensures PairEqual(v, u, j, i)
    decreases u, 0, 0
  {
    hide Tidy, Equal, Shape;
    TidyParts(u);
    TidyParts(v);
    Symmetric(u.members[i], v.members[j]);
    if Shape(u).Map? {
      Symmetric(u.values[i], v.values[j]);
    }
  }

  /** Deep equality is transitive on tidy values. */
  lemma {:induction false} Transitive(u: Value, v: Value, w: Value)
    requires Tidy(u) && Tidy(v) && Tidy(w) && Equal(u, v) && Equal(v, w)
    ensures Equal(u, w)
    decreases u, 3
  {
    hide Tidy, SameHead, KeysEqual, MembersEqual, HeadsAgree;
    if u != v && v != w {
      TidyEqual(u, v);
      TidyEqual(v, w);
      SameHeadTransitive(u, v, w);
      KeysTransitive(u, v, w);
      MembersTransitive(u, v, w);
      TidyEqual(u, w);
    }
  }

  lemma KeysTransitive(u: Value, v: Value, w: Value)
    requires u.Obj? && v.Obj? && w.Obj? && Tidy(u) && Tidy(v) && Tidy(w)
    requires SameHead(u, v) && SameHead(v, w) && KeysEqual(u, v) && KeysEqual(v, w)
    ensures KeysEqual(u, w)
    decreases u, 0
  {
    hide Tidy, SameHead, Equal, ComparedKeys;
    TidyParts(u);
    TidyParts(v);
    TidyParts(w);
    SameComparedKeys(u, v);
    SameComparedKeys(v, w);
    forall k | k in ComparedKeys(u)
      ensures Equal(u.props[k].value, Get(w, k))
    {
      assert k in ComparedKeys(v) && k in ComparedKeys(w);
      Transitive(u.props[k].value, v.props[k].value, w.props[k].value);
    }
  }

  lemma PairTransitive(u: Value, v: Value, w: Value, i: nat, j: nat, k: nat)
    requires u.Obj? && v.Obj? && w.Obj? && Tidy(u) && Tidy(v) && Tidy(w) && Shape(u).Map? == Shape(v).Map?
    requires PairEqual(u, v, i, j) && PairEqual(v, w, j, k)
    ensures PairEqual(u, w, i, k)
    decreases u, 0, 0
  {
    hide Tidy, Equal, Shape;
    TidyParts(u);
    TidyParts(v);
    TidyParts(w);
    Transitive(u.members[i], v.members[j], w.members[k]);
    if Shape(u).Map? {
      Transitive(u.values[i], v.values[j], w.values[k]);
    }
  }

  lemma MatchedPair(u: Value, v: Value, f: map<nat, nat>, g: map<nat, nat>, i: nat)
    requires u.Obj? && v.Obj? && MembersMatch(u, v, f, g) && i in Range(|u.members|)
    ensures i in f && f[i] in Range(|v.members|) && PairEqual(u, v, i, f[i])
  {
    hide PairEqual;
  }

  lemma MatchIsBijection(u: Value, v: Value, f: map<nat, nat>, g: map<nat, nat>)
    requires u.Obj? && v.Obj? && MembersMatch(u, v, f, g)
    ensures Bijection(f, g, Range(|u.members|), Range(|v.members|))
  {
    hide PairEqual;
  }

  lemma IsMatch(u: Value, v: Value, f: map<nat, nat>, g: map<nat, nat>)
    requires u.Obj? && v.Obj? && Bijection(f, g, Range(|u.members|), Range(|v.members|))
    requires forall i | i in Range(|u.members|) && i in f :: PairEqual(u, v, i, f[i])
    ensures MembersMatch(u, v, f, g)
  {
    hide PairEqual;
  }

  lemma MatchTransitive(u: Value, v: Value, w: Value, f: map<nat, nat>, g: map<nat, nat>, f': map<nat, nat>, g': map<nat, nat>)
    requires u.Obj? && v.Obj? && w.Obj? && Tidy(u) && Tidy(v) && Tidy(w) && Shape(u).Map? == Shape(v).Map?
    requires MembersMatch(u, v, f, g) && MembersMatch(v, w, f', g')
    ensures exists h, k :: MembersMatch(u, w, h, k)
    decreases u, 0, 2
  {
    hide *;
    var X, Y, Z := Range(|u.members|), Range(|v.members|), Range(|w.members|);
    MatchIsBijection(u, v, f, g);
    MatchIsBijection(v, w, f', g');
    var h, k := Compose(f, g, X, Y, f', g', Z);
    forall i | i in X
      ensures i in h && PairEqual(u, w, i, h[i])
    {
      TwoPairs(u, v, w, f, g, f', g', i);
    }
    IsMatch(u, w, h, k);
  }

  lemma TwoPairs(u: Value, v: Value, w: Value, f: map<nat, nat>, g: map<nat, nat>, f': map<nat, nat>, g': map<nat, nat>, i: nat)
    requires u.Obj? && v.Obj? && w.Obj? && Tidy(u) && Tidy(v) && Tidy(w) && Shape(u).Map? == Shape(v).Map?
    requires MembersMatch(u, v, f, g) && MembersMatch(v, w, f', g') && i in Range(|u.members|)
    ensures i in f && f[i] in f' && PairEqual(u, w, i, f'[f[i]])
    decreases u, 0, 1
  {
    hide *;
    MatchedPair(u, v, f, g, i);
    MatchedPair(v, w, f', g', f[i]);
    PairTransitive(u, v, w, i, f[i], f'[f[i]]);
  }

  lemma MembersTransitive(u: Value, v: Value, w: Value)
    requires u.Obj? && v.Obj? && w.Obj? && Tidy(u) && Tidy(v) && Tidy(w)
    requires SameHead(u, v) && SameHead(v, w) && MembersEqual(u, v) && MembersEqual(v, w)
    ensures MembersEqual(u, w)
    decreases u, 2
  {
    hide Tidy, SameHead, Shape, Collection, MembersMatch;
    SameHeadSymmetric(u, v);
    if Collection(u) {
      var f, g :| MembersMatch(u, v, f, g);
      var f', g' :| MembersMatch(v, w, f', g');
      MatchTransitive(u, v, w, f, g, f', g');
    }
  }
}
