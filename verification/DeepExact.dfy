/** How far strict deep equality is an equivalence: clones, and the objects other than arrays on which symmetry fails. */
module DeepExact {
  import opened DeepLaws
  import opened DeepValues
  import opened Matching

  // ---- a structural copy is deeply equal to its original ----

  /** v repeats the structure of u; only the identities of the objects may differ. */
  ghost predicate Clone(u: Value, v: Value)
    decreases u
  {
    if u.Prim? then v == u
    else
      && v.Obj? && v.proto == u.proto && v.tag == u.tag && v.kind == u.kind
      && v.props.Keys == u.props.Keys
      && (forall k | k in u.props ::
        v.props[k].enumerable == u.props[k].enumerable && Clone(u.props[k].value, v.props[k].value))
      && |v.members| == |u.members| && |v.values| == |u.values|
      && (forall i | 0 <= i < |u.members| :: Clone(u.members[i], v.members[i]))
      && (forall i | 0 <= i < |u.values| :: Clone(u.values[i], v.values[i]))
  }

  lemma CloneHead(u: Value, v: Value)
    requires u.Obj? && v.Obj? && Regular(u) && WellFormed(u) && Clone(u, v) && SelfEqual(Shape(u))
    ensures HeadsAgree(u, v)
    ensures Shape(u) == Shape(v)
  {
    hide Clone, WellFormed, HeadsAgree, SymbolsAgree, ArrayKeysAgree;
    CloneKeys(u, v);
    SymbolsOfSame(u, v);
    if u.kind.Array? {
      ArrayOfSame(u, v);
    }
    HeadsFrom(u, v);
  }

  /** The facts about a clone that the heads look at. */
  lemma CloneKeys(u: Value, v: Value)
    requires u.Obj? && v.Obj? && Clone(u, v)
    ensures v.proto == u.proto && v.tag == u.tag && v.kind == u.kind && |v.members| == |u.members|
    ensures v.props.Keys == u.props.Keys
    ensures forall k | k in u.props :: v.props[k].enumerable == u.props[k].enumerable
  {
  }

  lemma HeadsFrom(u: Value, v: Value)
    requires u.Obj? && v.Obj? && Regular(u) && SelfEqual(Shape(u))
    requires v.proto == u.proto && v.tag == u.tag && v.kind == u.kind && |v.members| == |u.members|
    requires v.props.Keys == u.props.Keys && StringKeys(u) == StringKeys(v)
    requires if u.kind.Array? then ArrayKeysAgree(u, v) else SymbolsAgree(u, v)
    ensures HeadsAgree(u, v) && Shape(u) == Shape(v)
  {
    hide OwnSymbols, EnumerableSymbols, ExtraKeys, SymbolsAgree, ArrayKeysAgree, StringKeys;
  }

  lemma SymbolsOfSame(u: Value, v: Value)
    requires u.Obj? && v.Obj? && v.props.Keys == u.props.Keys
    requires forall k | k in u.props :: v.props[k].enumerable == u.props[k].enumerable
    ensures SymbolsAgree(u, v) && StringKeys(u) == StringKeys(v) && EnumerableSymbols(u) == EnumerableSymbols(v)
  {
    assert OwnSymbols(u) == OwnSymbols(v);
    assert EnumerableSymbols(u) == EnumerableSymbols(v);
    assert StringKeys(u) == StringKeys(v);
  }

  lemma ArrayOfSame(u: Value, v: Value)
    requires u.Obj? && v.Obj? && v.props.Keys == u.props.Keys && u.kind.Array? && v.kind == u.kind
    requires forall k | k in u.props :: v.props[k].enumerable == u.props[k].enumerable
    ensures ArrayKeysAgree(u, v)
  {
    assert ExtraKeys(u) == ExtraKeys(v);
    assert StringKeys(u) == StringKeys(v);
    if Sparse(u) {
      var i :| 0 <= i < u.kind.length && !Own(u, Index(i));
      LeastHole(u, i);
      var h :| 0 <= h < u.kind.length && FirstHole(u, h);
      assert FirstHole(v, h);
    }
  }

  /** No object that equals only itself is reached by the comparison. */
  ghost predicate Copyable(u: Value)
    decreases u
  {
    u.Obj? ==>
      && SelfEqual(Shape(u))
      && (forall k | k in ComparedKeys(u) :: Copyable(u.props[k].value))
      && (Collection(u) ==> forall i | 0 <= i < |u.members| :: Copyable(u.members[i]))
      && (Shape(u).Map? ==> forall i | 0 <= i < |u.members| && i < |u.values| :: Copyable(u.values[i]))
  }

  /** A clone of a tidy value that reaches none of these is deeply equal to it. */
  lemma {:induction false} CloneEqual(u: Value, v: Value)
    requires Tidy(u) && Clone(u, v) && Copyable(u)
    ensures Equal(u, v)
    decreases u
  {
    if u.Obj? {
      CloneHead(u, v);
      hide HeadsAgree, Shape, Regular, WellFormed, Collection;
      forall k | k in ComparedKeys(u)
        ensures Equal(u.props[k].value, Get(v, k))
      {
        CloneEqual(u.props[k].value, v.props[k].value);
      }
      CloneMembers(u, v);
    }
  }

  lemma CloneMembers(u: Value, v: Value)
    requires u.Obj? && v.Obj? && Tidy(u) && Clone(u, v) && Copyable(u)
    ensures MembersEqual(u, v)
    decreases u, 0
  {
    hide HeadsAgree, Shape, Regular, Equal;
    forall i | 0 <= i < |u.members| && Collection(u)
      ensures PairEqual(u, v, i, i)
    {
      CloneEqual(u.members[i], v.members[i]);
      if Shape(u).Map? {
        MapValues(u);
        CloneEqual(u.values[i], v.values[i]);
      }
    }
    if Collection(u) {
      SameOrder(u, v);
    }
  }

  /** Members that are equal position by position match. */
  lemma SameOrder(u: Value, v: Value)
    requires u.Obj? && v.Obj? && |u.members| == |v.members|
    requires forall i | 0 <= i < |u.members| :: PairEqual(u, v, i, i)
    ensures MembersEqual(u, v)
  {
    hide PairEqual, Collection, Bijection;
    var X := Range(|u.members|);
    Identity(X);
    var f := map i | i in X :: i;
    assert MembersMatch(u, v, f, f);
  }

  lemma MapValues(u: Value)
    requires u.Obj? && WellFormed(u)
    ensures Shape(u).Map? ==> |u.values| == |u.members|
  {
  }

  // ---- copies made of new objects ----

  /** All objects in the value are older than b: their identities are below it. */
  ghost predicate OlderThan(v: Value, b: nat)
    decreases v
  {
    v.Obj? ==>
      && v.id < b
      && (forall k | k in v.props :: OlderThan(v.props[k].value, b))
      && (forall i | 0 <= i < |v.members| :: OlderThan(v.members[i], b))
      && (forall i | 0 <= i < |v.values| :: OlderThan(v.values[i], b))
  }

  /** No object in the value is. */
  ghost predicate NewFrom(v: Value, b: nat)
    decreases v
  {
    v.Obj? ==>
      && v.id >= b
      && (forall k | k in v.props :: NewFrom(v.props[k].value, b))
      && (forall i | 0 <= i < |v.members| :: NewFrom(v.members[i], b))
      && (forall i | 0 <= i < |v.values| :: NewFrom(v.values[i], b))
  }

  /** Whatever is deeply equal to a value and shares no object with it shows that the value is copyable. */
  lemma {:induction false} EqualIsCopyable(u: Value, v: Value, b: nat)
    requires OlderThan(u, b) && NewFrom(v, b) && Equal(u, v)
    ensures Copyable(u)
    decreases u
  {
    if u.Obj? {
      SharesNothing(u, v, b);
      HeadIsSelfEqual(u, v);
      hide *;
      forall k | k in ComparedKeys(u)
        ensures Copyable(u.props[k].value)
      {
        KeyIsEqual(u, v, b, k);
        EqualIsCopyable(u.props[k].value, Get(v, k), b);
      }
      if Collection(u) {
        var f, g := TheMatch(u, v);
        forall i | 0 <= i < |u.members|
          ensures Copyable(u.members[i])
          ensures Shape(u).Map? && i < |u.values| ==> Copyable(u.values[i])
        {
          MatchedMember(u, v, f, g, i);
          PairIsCopyable(u, v, b, i, f[i]);
        }
      }
      CopyableFrom(u);
    }
  }

  lemma PairIsCopyable(u: Value, v: Value, b: nat, i: nat, j: nat)
    requires u.Obj? && v.Obj? && OlderThan(u, b) && NewFrom(v, b) && PairEqual(u, v, i, j)
    ensures i < |u.members| && Copyable(u.members[i])
    ensures Shape(u).Map? && i < |u.values| ==> Copyable(u.values[i])
    decreases u, 0
  {
    hide Copyable, Equal, Shape;
    EqualIsCopyable(u.members[i], v.members[j], b);
    if Shape(u).Map? {
      EqualIsCopyable(u.values[i], v.values[j], b);
    }
  }

  lemma SharesNothing(u: Value, v: Value, b: nat)
    requires u.Obj? && OlderThan(u, b) && NewFrom(v, b)
    ensures u != v
  {
  }

  lemma KeyIsEqual(u: Value, v: Value, b: nat, k: Key)
    requires u.Obj? && v.Obj? && OlderThan(u, b) && NewFrom(v, b) && KeysEqual(u, v) && k in ComparedKeys(u)
    ensures k in u.props && OlderThan(u.props[k].value, b) && NewFrom(Get(v, k), b)
    ensures Equal(u.props[k].value, Get(v, k))
  {
    hide ComparedKeys, Equal;
  }

  lemma TheMatch(u: Value, v: Value) returns (f: map<nat, nat>, g: map<nat, nat>)
    requires u.Obj? && v.Obj? && Collection(u) && MembersEqual(u, v)
    ensures MembersMatch(u, v, f, g)
  {
    hide MembersMatch, Collection;
    f, g :| MembersMatch(u, v, f, g);
  }

  lemma MatchedMember(u: Value, v: Value, f: map<nat, nat>, g: map<nat, nat>, i: nat)
    requires u.Obj? && v.Obj? && MembersMatch(u, v, f, g) && i < |u.members|
    ensures i in f && PairEqual(u, v, i, f[i])
  {
    hide PairEqual;
    assert i in Range(|u.members|);
  }

  lemma CopyableFrom(u: Value)
    requires u.Obj? && SelfEqual(Shape(u))
    requires forall k | k in ComparedKeys(u) :: Copyable(u.props[k].value)
    requires Collection(u) ==> forall i | 0 <= i < |u.members| :: Copyable(u.members[i])
    requires Collection(u) && Shape(u).Map? ==> forall i | 0 <= i < |u.members| && i < |u.values| :: Copyable(u.values[i])
    ensures Copyable(u)
  {
    hide ComparedKeys, SelfEqual;
  }

  lemma HeadIsSelfEqual(u: Value, v: Value)
    requires u.Obj? && Equal(u, v) && u != v
    ensures v.Obj? && SelfEqual(Shape(u)) && KeysEqual(u, v) && MembersEqual(u, v)
    ensures Shape(u).Map? ==> Collection(u)
  {
    hide ArrayKeysAgree, SymbolsAgree, StringKeys, KeysEqual, MembersEqual;
  }

  /**
    * A structural copy of a tidy value that is made of new objects is deeply equal to it if and only if the comparison
    * reaches no invalid Date, as a Date, and no other object that equals only itself.
    */
  lemma CopyEqualExactly(u: Value, v: Value, b: nat)
    requires Tidy(u) && Clone(u, v) && OlderThan(u, b) && NewFrom(v, b)
    ensures Equal(u, v) <==> Copyable(u)
  {
    hide Tidy, Clone, OlderThan, NewFrom, Equal, Copyable;
    if Copyable(u) {
      CloneEqual(u, v);
    }
    if Equal(u, v) {
      EqualIsCopyable(u, v, b);
    }
  }

  // ---- an irregular object has a tidy partner on which the order of the arguments matters ----

  lemma EqualFrom(u: Value, v: Value)
    requires u.Obj? && v.Obj? && HeadsAgree(u, v) && KeysEqual(u, v) && MembersEqual(u, v)
    ensures Equal(u, v)
  {
    hide HeadsAgree, KeysEqual, MembersEqual;
  }

  lemma UnequalFrom(u: Value, v: Value)
    requires u.Obj? && v.Obj? && u != v && (!HeadsAgree(u, v) || !KeysEqual(u, v))
    ensures !Equal(u, v)
  {
    hide HeadsAgree, KeysEqual, MembersEqual;
  }

  ghost predicate SymmetricAt(u: Value) {
    forall v | Tidy(v) :: Equal(u, v) <==> Equal(v, u)
  }

  lemma ListOf(ks: set<Key>) returns (order: seq<Key>)
    ensures forall k :: k in order <==> k in ks
    ensures forall i, j | 0 <= i < j < |order| :: order[i] != order[j]
    decreases |ks|
  {
    if ks == {} {
      return [];
    }
    var k :| k in ks;
    order := ListOf(ks - {k});
    order := order + [k];
  }

  ghost function SymbolBound(order: seq<Key>): (b: nat)
    ensures forall k | k in order && k.Symbol? :: k.symbol < b
  {
    if order == [] then 0
    else
      var b, k := SymbolBound(order[..|order| - 1]), order[|order| - 1];
      if k.Symbol? && k.symbol >= b then k.symbol + 1 else b
  }

  /** The enumerable properties, and the hidden ones that are not symbols. */
  ghost function WithoutHiddenSymbols(u: Value): map<Key, Prop>
    requires u.Obj?
  {
    map k | k in u.props && (u.props[k].enumerable || !k.Symbol?) :: u.props[k]
  }

  /** n symbol properties numbered from b, each with the value. */
  ghost function FreshSymbols(b: nat, n: nat, value: Value): (m: map<Key, Prop>)
    ensures forall k | k in m :: k.Symbol? && b <= k.symbol && m[k] == Prop(true, value)
    ensures n > 0 ==> Symbol(b + n - 1) in m
    ensures forall k | k in m :: k.symbol < b + n
    ensures |m| == n
  {
    if n == 0 then map[] else FreshSymbols(b, n - 1, value)[Symbol(b + n - 1) := Prop(true, value)]
  }

  /** An object like u of another identity, with the given kind, properties and contents. */
  lemma Variant(u: Value, kind: Kind, props: map<Key, Prop>, members: seq<Value>, values: seq<Value>) returns (v: Value)
    requires u.Obj? && TidyBelow(u)
    requires forall k | k in props :: Tidy(props[k].value)
    requires kind == u.kind || kind == Plain
    requires if kind == u.kind then members == u.members && values == u.values else members == [] && values == []
    requires !kind.Array? && (forall k: Key | k in props && k.Symbol? :: props[k].enumerable)
    requires forall k: Key | k in props && !k.Symbol? :: k in u.props
    requires kind == Plain || ((u.tag == "Object" ==> Ordinary(u)) && (u.kind.Weak? ==> u.tag == "Object"))
    ensures v.Obj? && v != u && v.proto == u.proto && v.tag == u.tag && v.kind == kind
    ensures v.props == props && v.members == members && v.values == values
    ensures Tidy(v)
  {
    var order := ListOf(props.Keys);
    v := Obj(u.id + 1, u.proto, u.tag, kind, order, props, members, values);
    assert OwnSymbols(v) == EnumerableSymbols(v);
    VariantWellFormed(u, v);
  }

  lemma VariantWellFormed(u: Value, v: Value)
    requires u.Obj? && v.Obj? && WellFormed(u) && !v.kind.Array?
    requires (forall k :: k in v.order <==> k in v.props) && forall i, j | 0 <= i < j < |v.order| :: v.order[i] != v.order[j]
    requires v.kind == u.kind || v.kind == Plain
    requires if v.kind == u.kind then v.members == u.members && v.values == u.values else v.members == [] && v.values == []
    requires forall k: Key | k in v.props && !k.Symbol? :: k in u.props
    ensures WellFormed(v)
  {
  }

  /** A disguised object: the plain object with its properties equals it, but not the other way round. */
  lemma DisguisedPartner(u: Value) returns (v: Value)
    requires u.Obj? && TidyBelow(u)
    requires (u.tag == "Object" && !Ordinary(u)) || (u.kind.Weak? && u.tag != "Object")
    ensures Tidy(v) && Equal(v, u) && !Equal(u, v)
  {
    hide Tidy, TidyBelow, Equal;
    BelowParts(u);
    var props := WithoutHiddenSymbols(u);
    v := Variant(u, Plain, props, [], []);
    PlainCopyHeads(u, v);
    PlainCopyKeys(u, v);
    EqualFrom(v, u);
    UnequalFrom(u, v);
  }

  lemma BelowParts(u: Value)
    requires u.Obj? && TidyBelow(u)
    ensures WellFormed(u) && forall k | k in u.props :: Tidy(u.props[k].value)
  {
  }

  lemma PlainCopyHeads(u: Value, v: Value)
    requires u.Obj? && v.Obj? && v.proto == u.proto && v.tag == u.tag && v.kind == Plain
    requires v.props == WithoutHiddenSymbols(u)
    requires (u.tag == "Object" && !Ordinary(u)) || (u.kind.Weak? && u.tag != "Object")
    ensures HeadsAgree(v, u) && !HeadsAgree(u, v)
  {
    assert StringKeys(v) == StringKeys(u);
    assert EnumerableSymbols(v) == EnumerableSymbols(u);
    assert OwnSymbols(v) == EnumerableSymbols(u);
    assert SymbolsAgree(v, u) by {
      forall k | k in OwnSymbols(v)
        ensures IsEnumerable(v, k) && IsEnumerable(u, k)
      {
        assert k in EnumerableSymbols(u);
      }
    }
    assert !KindsAgree(u, v);
  }

  lemma PlainCopyKeys(u: Value, v: Value)
    requires u.Obj? && v.Obj? && v.kind == Plain && v.props == WithoutHiddenSymbols(u)
    ensures KeysEqual(v, u) && MembersEqual(v, u)
  {
    forall k | k in ComparedKeys(v)
      ensures Equal(v.props[k].value, Get(u, k))
    {
      assert v.props[k] == u.props[k];
    }
  }

  lemma KeptSymbols(u: Value, added: map<Key, Prop>)
    requires u.Obj? && forall k | k in added :: k !in u.props && k.Symbol?
    requires |added| == |OwnSymbols(u) - EnumerableSymbols(u)|
    ensures |EnumerableSymbols(u) + added.Keys| == |OwnSymbols(u)|
  {
    assert EnumerableSymbols(u) <= OwnSymbols(u);
    assert EnumerableSymbols(u) !! added.Keys;
    DisjointSum(EnumerableSymbols(u), added.Keys);
    DisjointSum(EnumerableSymbols(u), OwnSymbols(u) - EnumerableSymbols(u));
    assert EnumerableSymbols(u) + (OwnSymbols(u) - EnumerableSymbols(u)) == OwnSymbols(u);
  }

  /** A hidden symbol: an object with as many symbols but all enumerable equals it one way only. */
  lemma HiddenSymbolPartner(u: Value) returns (v: Value)
    requires u.Obj? && TidyBelow(u) && !u.kind.Array? && OwnSymbols(u) != EnumerableSymbols(u)
    requires (u.tag == "Object" ==> Ordinary(u)) && (u.kind.Weak? ==> u.tag == "Object") && !Lonely(u)
    ensures Tidy(v) && Equal(u, v) && !Equal(v, u)
  {
    hide *;
    BelowParts(u);
    var b := SymbolBound(u.order);
    var hidden := OwnSymbols(u) - EnumerableSymbols(u);
    SomeHidden(u);
    var added := FreshSymbols(b, |hidden|, Prim(Undefined));
    AreNew(u, added, b);
    MergedFacts(u, added);
    UndefinedIsTidy();
    v := Variant(u, u.kind, Merged(u, added), u.members, u.values);
    PartnerSymbols(u, v, added);
    PartnerHeads(u, v, Symbol(b + |hidden| - 1));
    PartnerContents(u, v);
    EqualFrom(u, v);
    UnequalFrom(v, u);
  }

  lemma SomeHidden(u: Value)
    requires u.Obj? && OwnSymbols(u) != EnumerableSymbols(u)
    ensures OwnSymbols(u) != {} && |OwnSymbols(u) - EnumerableSymbols(u)| > 0
  {
    assert EnumerableSymbols(u) <= OwnSymbols(u);
    if OwnSymbols(u) - EnumerableSymbols(u) == {} {
      forall k | k in OwnSymbols(u)
        ensures k in EnumerableSymbols(u)
      {
        assert k !in OwnSymbols(u) - EnumerableSymbols(u);
      }
      assert false;
    }
  }

  lemma UndefinedIsTidy()
    ensures Tidy(Prim(Undefined))
  {
  }

  /** u's properties without the hidden symbols, and the added ones. */
  ghost function Merged(u: Value, added: map<Key, Prop>): map<Key, Prop>
    requires u.Obj?
  {
    WithoutHiddenSymbols(u) + added
  }

  lemma MergedFacts(u: Value, added: map<Key, Prop>)
    requires u.Obj? && forall k | k in added :: k !in u.props && k.Symbol? && added[k] == Prop(true, Prim(Undefined))
    ensures var m := Merged(u, added);
      && (forall k: Key | k in m && k.Symbol? :: m[k].enumerable)
      && (forall k: Key | !k.Symbol? :: k in m <==> k in u.props)
      && (forall k: Key | k in u.props && (u.props[k].enumerable || !k.Symbol?) :: k in m && m[k] == u.props[k])
      && (forall k | k in m :: (k in u.props && m[k] == u.props[k]) || m[k].value == Prim(Undefined))
      && (forall k | k in added :: k in m && k !in u.props)
  {
  }

  lemma AreNew(u: Value, added: map<Key, Prop>, b: nat)
    requires u.Obj? && WellFormed(u) && b == SymbolBound(u.order)
    requires forall k | k in added :: k.Symbol? && b <= k.symbol
    ensures forall k | k in added :: k !in u.props
  {
    assert forall k | k in added :: k !in u.order;
  }

  lemma PartnerHeads(u: Value, v: Value, t: Key)
    requires u.Obj? && v.Obj? && v.proto == u.proto && v.tag == u.tag && v.kind == u.kind && v.members == u.members
    requires !u.kind.Array? && (u.tag == "Object" ==> Ordinary(u)) && (u.kind.Weak? ==> u.tag == "Object") && !Lonely(u)
    requires forall k: Key | !k.Symbol? :: k in v.props <==> k in u.props
    requires forall k: Key | !k.Symbol? && k in u.props :: v.props[k] == u.props[k]
    requires SymbolsAgree(u, v) && t.Symbol? && t in v.props && v.props[t].enumerable && t !in u.props
    ensures HeadsAgree(u, v) && !HeadsAgree(v, u)
  {
    hide SymbolsAgree;
    assert StringKeys(v) == StringKeys(u);
    assert !SymbolsAgree(v, u) by {
      NewSymbolDisagrees(u, v, t);
    }
  }

  lemma NewSymbolDisagrees(u: Value, v: Value, t: Key)
    requires u.Obj? && v.Obj? && t.Symbol? && t in v.props && v.props[t].enumerable && t !in u.props
    ensures !SymbolsAgree(v, u)
  {
    assert t in OwnSymbols(v);
    assert !IsEnumerable(u, t);
  }

  lemma MergedSymbols(u: Value, v: Value, added: map<Key, Prop>)
    requires u.Obj? && v.Obj? && v.props == Merged(u, added)
    requires forall k | k in added :: k !in u.props && k.Symbol?
    ensures OwnSymbols(v) == EnumerableSymbols(u) + added.Keys
    ensures forall k | k in OwnSymbols(u) :: IsEnumerable(u, k) <==> IsEnumerable(v, k)
  {
  }

  lemma PartnerSymbols(u: Value, v: Value, added: map<Key, Prop>)
    requires u.Obj? && v.Obj? && v.props == Merged(u, added)
    requires forall k | k in added :: k !in u.props && k.Symbol?
    requires |added| == |OwnSymbols(u) - EnumerableSymbols(u)| && OwnSymbols(u) != {}
    ensures SymbolsAgree(u, v)
  {
    hide Merged, OwnSymbols, EnumerableSymbols, IsEnumerable;
    KeptSymbols(u, added);
    MergedSymbols(u, v, added);
  }

  lemma PartnerContents(u: Value, v: Value)
    requires u.Obj? && v.Obj? && v.kind == u.kind && v.tag == u.tag && v.members == u.members && v.values == u.values
    requires WellFormed(u) && !u.kind.Array?
    requires forall k: Key | k in u.props && (u.props[k].enumerable || !k.Symbol?) :: k in v.props && v.props[k] == u.props[k]
    ensures KeysEqual(u, v) && MembersEqual(u, v)
  {
    hide HeadsAgree, Collection, Shape, WellFormed;
    assert KeysEqual(u, v) by {
      ComparedAreKept(u);
      hide ComparedKeys;
    }
    if Collection(u) {
      MapValues(u);
      assert forall i | 0 <= i < |u.members| :: PairEqual(u, v, i, i);
      SameOrder(u, v);
    }
  }

  lemma ComparedAreKept(u: Value)
    requires u.Obj?
    ensures forall k | k in ComparedKeys(u) :: k in u.props && (u.props[k].enumerable || !k.Symbol?)
  {
  }

  lemma SymmetricIfTidy(u: Value)
    requires Tidy(u)
    ensures SymmetricAt(u)
  {
    hide Tidy, Equal;
    forall v | Tidy(v)
      ensures Equal(u, v) <==> Equal(v, u)
    {
      if Equal(u, v) {
        Symmetric(u, v);
      }
      if Equal(v, u) {
        Symmetric(v, u);
      }
    }
  }

  /**
    * Outside arrays the comparison is symmetric at an object exactly when the object is regular (its tag does not
    * disguise it, and it hides no symbol) or equals only itself.
    */
  lemma SymmetryOutsideArrays(u: Value)
    requires u.Obj? && TidyBelow(u) && !u.kind.Array?
    ensures SymmetricAt(u) <==> Regular(u) || Lonely(u)
  {
    hide Regular, TidyBelow, Equal, Ordinary, OwnSymbols, EnumerableSymbols, Lonely;
    RegularIs(u);
    if Lonely(u) {
      LonelySymmetric(u);
    } else if Regular(u) {
      SymmetricIfTidy(u);
    } else if (u.tag == "Object" && !Ordinary(u)) || (u.kind.Weak? && u.tag != "Object") {
      var v := DisguisedPartner(u);
    } else {
      var v := HiddenSymbolPartner(u);
    }
  }

  /** Such an object is unequal to every other one, in both orders. */
  lemma LonelyUnequal(u: Value, v: Value)
    requires u.Obj? && Lonely(u) && u != v
    ensures !Equal(u, v) && !Equal(v, u)
  {
    hide ArrayKeysAgree, SymbolsAgree, StringKeys, KeysEqual, MembersEqual;
  }

  lemma LonelySymmetric(u: Value)
    requires u.Obj? && Lonely(u)
    ensures SymmetricAt(u)
  {
    hide Equal, Tidy, Lonely;
    forall v | Tidy(v)
      ensures Equal(u, v) <==> Equal(v, u)
    {
      if u != v {
        LonelyUnequal(u, v);
      }
    }
  }

  lemma RegularIs(u: Value)
    requires u.Obj? && !u.kind.Array?
    ensures Regular(u) <==>
      && (u.tag == "Object" ==> Ordinary(u))
      && (u.kind.Weak? ==> u.tag == "Object")
      && OwnSymbols(u) == EnumerableSymbols(u)
    ensures Tidy(u) <==> Regular(u) && TidyBelow(u)
  {
  }
}
