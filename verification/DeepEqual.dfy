/** isDeepStrictEqual as it runs: memo maps, key lists and greedy matching in working sets. */
module DeepEqual {
  import opened DeepAnswer
  import opened DeepValues
  import opened GreedyMatching
  import opened Matching
  import opened Wrappers

  // ---- the memo ----

  /** The two memo maps of one comparison: the pairs of objects being compared further up, by depth. */
  class Memos {
    var a: map<Value, nat>
    var b: map<Value, nat>

    constructor ()
      ensures a == map[] && b == map[]
    {
      a, b := map[], map[];
    }

    /** Each object in the memo is larger than one of two values of these sizes. */
    ghost predicate Above(m: nat, n: nat)
      reads this
    {
      forall x | x in a.Keys + b.Keys :: m < Size(x) || n < Size(x)
    }

    /** An object under comparison, and the values inside: whatever order they are compared in, the memo is above them. */
    lemma AboveInner(m: nat, n: nat, m': nat, n': nat)
      requires Above(m, n) && ((m' <= m && n' <= n) || (m' <= n && n' <= m))
      ensures Above(m', n')
    {
    }

    lemma NoHit(u: Value, v: Value)
      requires Above(Size(u), Size(v))
      ensures !(u in a && v in b)
    {
    }
  }

  // ---- key lists ----

  predicate Wanted(v: Value, k: Key, strings: bool, symbols: bool, indices: bool)
    requires v.Obj?
  {
    && IsEnumerable(v, k)
    && (if k.Symbol? then symbols else strings && (indices || !k.Index?))
  }

  /** The own enumerable keys of the wanted sorts, in property order. */
  method FilterKeys(v: Value, strings: bool, symbols: bool, indices: bool) returns (keys: seq<Key>)
    requires v.Obj? && WellFormed(v)
    ensures forall k :: k in keys <==> Wanted(v, k, strings, symbols, indices)
    ensures Distinct(keys) && (IndicesFirst(v.order) ==> IndicesFirst(keys))
  {
    keys := [];
    for n := 0 to |v.order|
      invariant forall k :: k in keys <==> k in v.order[..n] && Wanted(v, k, strings, symbols, indices)
      invariant Distinct(keys) && (IndicesFirst(v.order) ==> IndicesFirst(keys))
    {
      var k := v.order[n];
      assert k !in v.order[..n];
      if Wanted(v, k, strings, symbols, indices) {
        forall i | 0 <= i < |keys| && k.Index? && IndicesFirst(v.order)
          ensures keys[i].Index? && keys[i].i < k.i
        {
          assert keys[i] in v.order[..n];
        }
        keys := keys + [k];
      }
    }
    assert v.order[..|v.order|] == v.order;
  }

  ghost predicate Distinct(keys: seq<Key>) {
    forall i, j | 0 <= i < j < |keys| :: keys[i] != keys[j]
  }

  /** A list without repetitions is as long as its set of keys. */
  lemma {:induction false} DistinctSize(keys: seq<Key>, ks: set<Key>)
    requires Distinct(keys) && forall k :: k in keys <==> k in ks
    ensures |keys| == |ks|
    decreases |keys|
  {
    if keys == [] {
      assert ks == {};
    } else {
      var last := keys[|keys| - 1];
      var init := keys[..|keys| - 1];
      assert last in ks;
      forall k
        ensures k in init <==> k in ks - {last}
      {
        if k in ks - {last} {
          assert k in keys;
        }
        if k in init {
          assert k in keys;
        }
      }
      DistinctSize(init, ks - {last});
    }
  }

  /** Object.keys. */
  method ObjectKeys(v: Value) returns (keys: seq<Key>)
    requires v.Obj? && WellFormed(v)
    ensures (forall k :: k in keys <==> k in StringKeys(v)) && Distinct(keys) && |keys| == |StringKeys(v)|
    ensures v.kind.Array? ==> IndicesFirst(keys)
  {
    keys := FilterKeys(v, true, false, true);
    DistinctSize(keys, StringKeys(v));
  }

  /** getOwnNonIndexProperties. */
  method NonIndexKeys(v: Value) returns (keys: seq<Key>)
    requires v.Obj? && WellFormed(v)
    ensures (forall k :: k in keys <==> k in ExtraKeys(v)) && Distinct(keys) && |keys| == |ExtraKeys(v)|
  {
    keys := FilterKeys(v, true, true, false);
    DistinctSize(keys, ExtraKeys(v));
  }

  /** Object.getOwnPropertySymbols. */
  method SymbolKeys(v: Value) returns (keys: seq<Key>)
    requires v.Obj? && WellFormed(v)
    ensures (forall k :: k in keys <==> k in OwnSymbols(v)) && Distinct(keys) && |keys| == |OwnSymbols(v)|
  {
    keys := [];
    for n := 0 to |v.order|
      invariant forall k :: k in keys <==> k in v.order[..n] && k in OwnSymbols(v)
      invariant Distinct(keys)
    {
      var k := v.order[n];
      assert k !in v.order[..n];
      if k.Symbol? {
        assert k in v.order;
        keys := keys + [k];
      }
    }
    assert v.order[..|v.order|] == v.order;
    DistinctSize(keys, OwnSymbols(v));
  }

  /** getEnumerables(...).length. */
  method CountEnumerable(v: Value, keys: seq<Key>) returns (n: nat)
    requires v.Obj? && WellFormed(v) && Distinct(keys) && forall k :: k in keys <==> k in OwnSymbols(v)
    ensures n == |EnumerableSymbols(v)|
  {
    var list := [];
    for i := 0 to |keys|
      invariant forall k :: k in list <==> k in keys[..i] && IsEnumerable(v, k)
      invariant Distinct(list)
    {
      assert keys[i] !in keys[..i];
      if IsEnumerable(v, keys[i]) {
        list := list + [keys[i]];
      }
    }
    assert keys[..|keys|] == keys;
    forall k
      ensures k in list <==> k in EnumerableSymbols(v)
    {
      assert k in EnumerableSymbols(v) ==> k in OwnSymbols(v);
    }
    DistinctSize(list, EnumerableSymbols(v));
    n := |list|;
  }

  // ---- the key part of keyCheck ----

  /** Every key of the list is enumerable in the value. */
  method AllEnumerable(v: Value, keys: seq<Key>) returns (ok: bool)
    ensures ok <==> forall k | k in keys :: IsEnumerable(v, k)
  {
    for i := 0 to |keys|
      invariant forall k | k in keys[..i] :: IsEnumerable(v, k)
    {
      if !IsEnumerable(v, keys[i]) {
        return false;
      }
    }
    assert keys[..|keys|] == keys;
    ok := true;
  }

  /** Same string keys: all of the second object's are enumerable in the first, and there are equally many. */
  method StringKeysAgree(u: Value, v: Value, keys2: seq<Key>) returns (ok: bool)
    requires u.Obj? && v.Obj? && WellFormed(u) && WellFormed(v)
    requires (forall k :: k in keys2 <==> k in StringKeys(v)) && |keys2| == |StringKeys(v)|
    ensures ok <==> StringKeys(u) == StringKeys(v)
  {
    hide WellFormed;
    var all := AllEnumerable(u, keys2);
    if !all {
      var k :| k in keys2 && !IsEnumerable(u, k);
      assert k in StringKeys(v) && k !in StringKeys(u);
      return false;
    }
    var keys1 := ObjectKeys(u);
    if |keys2| != |keys1| {
      return false;
    }
    forall k | k in StringKeys(v)
      ensures k in StringKeys(u)
    {
      assert k in keys2;
    }
    SubsetOfSameSize(StringKeys(v), StringKeys(u));
    ok := true;
  }

  /** The symbol part: extra receives the enumerable symbols of the first object. */
  method SymbolsMatch(u: Value, v: Value) returns (ok: bool, extra: seq<Key>)
    requires u.Obj? && v.Obj? && WellFormed(u) && WellFormed(v)
    ensures ok <==> SymbolsAgree(u, v)
    ensures ok ==> (forall k :: k in extra <==> k in EnumerableSymbols(u)) && Distinct(extra)
  {
    hide WellFormed;
    extra := [];
    var symbolKeysA := SymbolKeys(u);
    if |symbolKeysA| != 0 {
      assert symbolKeysA[0] in OwnSymbols(u);
      for i := 0 to |symbolKeysA|
        invariant forall k | k in symbolKeysA[..i] :: IsEnumerable(u, k) <==> IsEnumerable(v, k)
        invariant forall k :: k in extra <==> k in symbolKeysA[..i] && IsEnumerable(u, k)
        invariant Distinct(extra)
      {
        var key := symbolKeysA[i];
        assert key !in symbolKeysA[..i] && key in OwnSymbols(u);
        if IsEnumerable(u, key) {
          if !IsEnumerable(v, key) {
            return false, [];
          }
          extra := extra + [key];
        } else if IsEnumerable(v, key) {
          return false, [];
        }
      }
      assert symbolKeysA[..|symbolKeysA|] == symbolKeysA;
      ExtraIsEnumerable(u, symbolKeysA, extra);
      var symbolKeysB := SymbolKeys(v);
      if |symbolKeysA| != |symbolKeysB| {
        var count := CountEnumerable(v, symbolKeysB);
        if count != |extra| {
          return false, [];
        }
      }
    } else {
      NoneOwned(u, symbolKeysA);
      var symbolKeysB := SymbolKeys(v);
      if |symbolKeysB| != 0 {
        var count := CountEnumerable(v, symbolKeysB);
        if count != 0 {
          return false, [];
        }
      } else {
        NoneOwned(v, symbolKeysB);
      }
    }
    ok := true;
  }

  lemma ExtraIsEnumerable(u: Value, own: seq<Key>, extra: seq<Key>)
    requires u.Obj? && (forall k :: k in own <==> k in OwnSymbols(u)) && Distinct(extra)
    requires forall k :: k in extra <==> k in own && IsEnumerable(u, k)
    ensures (forall k :: k in extra <==> k in EnumerableSymbols(u)) && |extra| == |EnumerableSymbols(u)|
  {
    forall k
      ensures k in extra <==> k in EnumerableSymbols(u)
    {
      assert k in EnumerableSymbols(u) ==> k in OwnSymbols(u);
    }
    DistinctSize(extra, EnumerableSymbols(u));
  }

  lemma NoneOwned(v: Value, own: seq<Key>)
    requires v.Obj? && own == [] && forall k :: k in own <==> k in OwnSymbols(v)
    ensures OwnSymbols(v) == {} && EnumerableSymbols(v) == {}
  {
    assert forall k | k in EnumerableSymbols(v) :: k in OwnSymbols(v);
  }

  // ---- lookups in working lists ----

  /** b.has, and the position found. */
  method IndexOf(list: seq<Value>, val: Value) returns (pos: Option<nat>)
    ensures pos.Some? ==> pos.value < |list| && list[pos.value] == val
    ensures pos.None? ==> val !in list
  {
    for i := 0 to |list|
      invariant val !in list[..i]
    {
      if list[i] == val {
        return Some(i);
      }
    }
    assert list[..|list|] == list;
    pos := None;
  }

  // ---- the mutually recursive comparison ----

  predicate StrictEquals(u: Value, v: Value) {
    if u == Prim(Num(NaN)) then false
    else u == v || (IsZero(u) && IsZero(v))
  }

  predicate IsZero(v: Value) {
    v == Prim(Num(Finite(0.0))) || v == Prim(Num(NegativeZero))
  }

  /** typeof v === "object". */
  predicate IsObject(v: Value) {
    v.Obj? || v == Prim(Null)
  }

  /** innerDeepEqual in strict mode. */
  method InnerDeepEqual(val1: Value, val2: Value, memos: Memos) returns (r: bool)
    requires Sound(val1) && Sound(val2) && memos.Above(Size(val1), Size(val2))
    modifies memos
    ensures r <==> Accepts(val1, val2)
    ensures memos.a.Keys <= old(memos.a.Keys) && memos.b.Keys <= old(memos.b.Keys)
    decreases Size(val1) + Size(val2), 9
  {
    if StrictEquals(val1, val2) {
      return !IsZero(val1) || val1 == val2;
    }
    if !IsObject(val1) {
      return val1 == Prim(Num(NaN)) && val2 == Prim(Num(NaN));
    }
    if !IsObject(val2) || val1 == Prim(Null) || val2 == Prim(Null) {
      return false;
    }
    if val1.proto != val2.proto {
      return false;
    }
    r := ObjectComparisonStart(val1, val2, memos);
  }

  lemma SoundParts(v: Value)
    requires v.Obj? && Sound(v)
    ensures WellFormed(v)
    ensures forall k | k in v.props :: Sound(v.props[k].value)
    ensures forall i | 0 <= i < |v.members| :: Sound(v.members[i])
    ensures forall i | 0 <= i < |v.values| :: Sound(v.values[i])
  {
  }

  /** How the contents of the two objects are traversed. */
  datatype Iteration = NoIterator | IsArray | IsSet | IsMap

  ghost predicate EqualOn(u: Value, v: Value, keys: seq<Key>) {
    forall k | k in keys :: Accepts(Get(u, k), Get(v, k))
  }

  /** The kinds agree, leaving an error's own cause and errors aside. */
  ghost predicate KindsMatch(u: Value, v: Value)
    requires u.Obj? && v.Obj?
  {
    if u.kind.Array? then v.kind == u.kind
    else if Ordinary(u) then true
    else if u.kind.Plain? then v.kind.Plain? || v.kind.Weak?
    else if u.kind.Weak? then false
    else v.kind == u.kind && SelfEqual(u.kind) && (u.kind.Set? || u.kind.Map? ==> |u.members| == |v.members|)
  }

  ghost predicate IterationOf(u: Value, iteration: Iteration)
    requires u.Obj?
  {
    && (iteration.IsArray? <==> u.kind.Array?)
    && (iteration.IsSet? <==> Shape(u).Set?)
    && (iteration.IsMap? <==> Shape(u).Map?)
  }

  /** !== on the data of a RegExp or an Error. */
  predicate Different(p: Primitive, q: Primitive) {
    p == Num(NaN) || q == Num(NaN) || p != q
  }

  /** !== on what getTime returns. */
  predicate DifferentTimes(t: Time, t': Time) {
    t.Invalid? || t'.Invalid? || t != t'
  }

  /** The branches of objectComparisonStart after the tags have been compared. */
  method CompareKinds(val1: Value, val2: Value) returns (ok: bool, iteration: Iteration)
    requires val1.Obj? && val2.Obj? && val1.tag == val2.tag
    ensures ok <==> KindsMatch(val1, val2)
    ensures ok ==> IterationOf(val1, iteration)
  {
    var kind1, kind2 := val1.kind, val2.kind;
    if kind1.Array? {
      if !kind2.Array? || kind1.length != kind2.length {
        return false, NoIterator;
      }
      return true, IsArray;
    } else if val1.tag == "Object" && !kind1.Boxed? && !kind1.Error? {
      return true, NoIterator;
    } else if kind1.Date? {
      if !kind2.Date? || DifferentTimes(kind1.time, kind2.time) {
        return false, NoIterator;
      }
    } else if kind1.RegExp? {
      if !kind2.RegExp? || kind1.source != kind2.source || kind1.flags != kind2.flags
        || Different(kind1.lastIndex, kind2.lastIndex) {
        return false, NoIterator;
      }
    } else if kind1.Error? {
      if !kind2.Error? || Different(kind1.message, kind2.message) || Different(kind1.errorName, kind2.errorName) {
        return false, NoIterator;
      }
    } else if kind1.Set? {
      if !kind2.Set? || |val1.members| != |val2.members| {
        return false, NoIterator;
      }
      return true, IsSet;
    } else if kind1.Map? {
      if !kind2.Map? || |val1.members| != |val2.members| {
        return false, NoIterator;
      }
      return true, IsMap;
    } else if kind1.Buffer? {
      if !kind2.Buffer? || kind1.bytes != kind2.bytes {
        return false, NoIterator;
      }
    } else if kind1.Boxed? {
      if kind1 != kind2 {
        return false, NoIterator;
      }
    } else if !kind2.Plain? && !kind2.Weak? {
      return false, NoIterator;
    } else if kind1.Weak? {
      return false, NoIterator;
    }
    return true, NoIterator;
  }

  /** Hidden causes and aggregated errors, which no key list shows. */
  ghost predicate CausesEqual(u: Value, v: Value)
    requires u.Obj? && v.Obj?
  {
    forall k | k in {CAUSE, ERRORS} ::
      && (Own(u, k) <==> Own(v, k))
      && (Own(u, k) && !IsEnumerable(u, k) ==> Accepts(Get(u, k), Get(v, k)))
  }

  /** objectComparisonStart. */
  method ObjectComparisonStart(val1: Value, val2: Value, memos: Memos) returns (r: bool)
    requires val1.Obj? && val2.Obj? && val1 != val2 && val1.proto == val2.proto
    requires Sound(val1) && Sound(val2) && memos.Above(Size(val1), Size(val2))
    modifies memos
    ensures r <==> Accepts(val1, val2)
    ensures memos.a.Keys <= old(memos.a.Keys) && memos.b.Keys <= old(memos.b.Keys)
    decreases Size(val1) + Size(val2), 8
  {
    hide Sound, WellFormed, Accepts, Size, KindsMatch, IterationOf, CausesEqual, KeysAndContents;
    SoundParts(val1);
    SoundParts(val2);
    TagsDiffer(val1, val2);
    if val1.tag != val2.tag {
      return false;
    }
    var ok, iteration := CompareKinds(val1, val2);
    KindsDiffer(val1, val2);
    if !ok {
      return false;
    }
    if val1.kind.Array? {
      ArrayKinds(val1, val2);
      r := CompareArrays(val1, val2, memos);
      return;
    }
    if val1.kind.Error? {
      var causes := CompareCauses(val1, val2, memos);
      CausesDiffer(val1, val2);
      if !causes {
        return false;
      }
    }
    r := KeyCheck(val1, val2, memos, iteration);
    Assemble(val1, val2);
  }

  lemma ArrayKinds(u: Value, v: Value)
    requires u.Obj? && v.Obj? && u.kind.Array? && KindsMatch(u, v)
    ensures v.kind == u.kind
  {
  }

  lemma TagsDiffer(u: Value, v: Value)
    requires u.Obj? && v.Obj? && u != v
    ensures Accepts(u, v) ==> u.tag == v.tag
  {
    hide KindsAgree, ArrayKeysAgree, SymbolsAgree, StringKeys, KeysAccepted, MembersAccepted;
  }

  lemma KindsDiffer(u: Value, v: Value)
    requires u.Obj? && v.Obj? && u != v
    ensures Accepts(u, v) ==> KindsMatch(u, v)
  {
    hide ArrayKeysAgree, SymbolsAgree, StringKeys, KeysAccepted, MembersAccepted;
  }

  lemma EqualParts(u: Value, v: Value)
    requires u.Obj? && v.Obj? && u != v
    ensures Accepts(u, v) <==> HeadsAgree(u, v) && KeysAccepted(u, v) && MembersAccepted(u, v)
  {
    hide HeadsAgree, KeysAccepted, MembersAccepted;
  }

  lemma CausesDiffer(u: Value, v: Value)
    requires u.Obj? && v.Obj? && u != v && u.kind.Error? && KindsMatch(u, v)
    ensures Accepts(u, v) ==> CausesEqual(u, v)
  {
    hide ArrayKeysAgree, SymbolsAgree, MembersAccepted, EnumerableSymbols, StringKeys, Accepts;
    EqualParts(u, v);
    if Accepts(u, v) {
      assert Shape(u) == u.kind;
      forall k | k in {CAUSE, ERRORS} && Own(u, k) && !IsEnumerable(u, k)
        ensures Accepts(Get(u, k), Get(v, k))
      {
        assert k in ComparedKeys(u);
      }
    }
  }

  /** keyCheck and what precedes it add up to deep equality. */
  lemma Assemble(u: Value, v: Value)
    requires u.Obj? && v.Obj? && u != v && u.proto == v.proto && u.tag == v.tag && !u.kind.Array? && KindsMatch(u, v)
    requires u.kind.Error? ==> CausesEqual(u, v)
    ensures Accepts(u, v) <==> KeysAndContents(u, v)
  {
    hide SymbolsAgree, MembersAccepted, Accepts;
    EqualParts(u, v);
    NotSparseHere(u);
    assert KindsAgree(u, v);
    if KeysAndContents(u, v) {
      forall k | k in ComparedKeys(u)
        ensures Accepts(u.props[k].value, Get(v, k))
      {
        if k !in StringKeys(u) && k !in EnumerableSymbols(u) {
          assert k in {CAUSE, ERRORS} && Own(u, k) && !IsEnumerable(u, k);
          assert Accepts(Get(u, k), Get(v, k));
        }
      }
      assert KeysAccepted(u, v);
    }
    if Accepts(u, v) {
      forall k | k in StringKeys(u) + EnumerableSymbols(u)
        ensures Accepts(Get(u, k), Get(v, k))
      {
        assert k in ComparedKeys(u);
      }
    }
  }

  lemma NotSparseHere(u: Value)
    requires u.Obj? && !u.kind.Array?
    ensures !Sparse(u)
  {
  }

  /** What keyCheck decides for everything but arrays. */
  ghost predicate KeysAndContents(u: Value, v: Value)
    requires u.Obj? && v.Obj?
  {
    && StringKeys(u) == StringKeys(v) && SymbolsAgree(u, v)
    && (forall k | k in StringKeys(u) + EnumerableSymbols(u) :: Accepts(Get(u, k), Get(v, k)))
    && MembersAccepted(u, v)
  }

  /** The loop over "cause" and "errors". */
  method CompareCauses(val1: Value, val2: Value, memos: Memos) returns (ok: bool)
    requires val1.Obj? && val2.Obj?
    requires Sound(val1) && Sound(val2) && memos.Above(Size(val1), Size(val2))
    modifies memos
    ensures ok <==> CausesEqual(val1, val2)
    ensures memos.a.Keys <= old(memos.a.Keys) && memos.b.Keys <= old(memos.b.Keys)
    decreases Size(val1) + Size(val2), 7
  {
    hide Sound, CausesEqual, CauseEqual, Size;
    var cause := CompareCause(val1, val2, memos, CAUSE);
    CausesAre(val1, val2);
    if !cause {
      return false;
    }
    ok := CompareCause(val1, val2, memos, ERRORS);
  }

  ghost predicate CauseEqual(u: Value, v: Value, k: Key)
    requires u.Obj? && v.Obj?
  {
    && (Own(u, k) <==> Own(v, k))
    && (Own(u, k) && !IsEnumerable(u, k) ==> Accepts(Get(u, k), Get(v, k)))
  }

  lemma CausesAre(u: Value, v: Value)
    requires u.Obj? && v.Obj?
    ensures CausesEqual(u, v) <==> CauseEqual(u, v, CAUSE) && CauseEqual(u, v, ERRORS)
  {
    hide Accepts, Own, IsEnumerable;
    if CausesEqual(u, v) {
      assert CAUSE in {CAUSE, ERRORS} && ERRORS in {CAUSE, ERRORS};
    }
  }

  method CompareCause(val1: Value, val2: Value, memos: Memos, key: Key) returns (ok: bool)
    requires val1.Obj? && val2.Obj?
    requires Sound(val1) && Sound(val2) && memos.Above(Size(val1), Size(val2))
    modifies memos
    ensures ok <==> CauseEqual(val1, val2, key)
    ensures memos.a.Keys <= old(memos.a.Keys) && memos.b.Keys <= old(memos.b.Keys)
    decreases Size(val1) + Size(val2), 6
  {
    hide Sound, Accepts, Size, Memos.Above;
    if Own(val1, key) != Own(val2, key) {
      return false;
    }
    if Own(val1, key) && !IsEnumerable(val1, key) {
      ok := CompareProperty(val1, val2, memos, key);
      return;
    }
    ok := true;
  }

  /** One property of both objects. */
  method CompareProperty(val1: Value, val2: Value, memos: Memos, key: Key) returns (ok: bool)
    requires val1.Obj? && val2.Obj?
    requires Sound(val1) && Sound(val2)
    requires memos.Above(Size(val1), Size(val2)) || memos.Above(Size(val1) - 1, Size(val2) - 1)
    modifies memos
    ensures ok <==> Accepts(Get(val1, key), Get(val2, key))
    ensures memos.a.Keys <= old(memos.a.Keys) && memos.b.Keys <= old(memos.b.Keys)
    decreases Size(val1) + Size(val2), 0
  {
    hide *;
    PropertyFacts(val1, key);
    PropertyFacts(val2, key);
    if memos.Above(Size(val1), Size(val2)) {
      memos.AboveInner(Size(val1), Size(val2), Size(Get(val1, key)), Size(Get(val2, key)));
    } else {
      memos.AboveInner(Size(val1) - 1, Size(val2) - 1, Size(Get(val1, key)), Size(Get(val2, key)));
    }
    ok := InnerDeepEqual(Get(val1, key), Get(val2, key), memos);
  }

  lemma PropertyFacts(v: Value, k: Key)
    requires v.Obj? && Sound(v)
    ensures Size(v) > 0 && Size(Get(v, k)) < Size(v) && Sound(Get(v, k))
  {
    hide Size;
    SoundParts(v);
    PropIsSmaller(v, k);
  }

  /** keyCheck for everything but arrays. */
  method KeyCheck(val1: Value, val2: Value, memos: Memos, iteration: Iteration) returns (r: bool)
    requires val1.Obj? && val2.Obj? && !val1.kind.Array? && KindsMatch(val1, val2) && IterationOf(val1, iteration)
    requires Sound(val1) && Sound(val2) && memos.Above(Size(val1), Size(val2))
    modifies memos
    ensures r <==> KeysAndContents(val1, val2)
    ensures memos.a.Keys <= old(memos.a.Keys) && memos.b.Keys <= old(memos.b.Keys)
    decreases Size(val1) + Size(val2), 6
  {
    hide *;
    SoundParts(val1);
    SoundParts(val2);
    var keys2 := ObjectKeys(val2);
    var strings := StringKeysAgree(val1, val2, keys2);
    KeysAndContentsIs(val1, val2);
    if !strings {
      return false;
    }
    var symbols, extra := SymbolsMatch(val1, val2);
    if !symbols {
      return false;
    }
    AllKeys(val1, keys2, extra);
    PlainTraversal(val1, val2, iteration, keys2 + extra);
    r := WithMemo(val1, val2, memos, iteration, keys2 + extra);
    ContentsIs(val1, val2, iteration, keys2 + extra);
  }

  lemma KeysAndContentsIs(u: Value, v: Value)
    requires u.Obj? && v.Obj?
    ensures KeysAndContents(u, v) ==> StringKeys(u) == StringKeys(v) && SymbolsAgree(u, v)
  {
    hide SymbolsAgree, StringKeys, MembersAccepted, Accepts;
  }

  lemma AllKeys(u: Value, strings: seq<Key>, symbols: seq<Key>)
    requires u.Obj? && (forall k :: k in strings <==> k in StringKeys(u)) && forall k :: k in symbols <==> k in EnumerableSymbols(u)
    ensures forall k :: k in strings + symbols <==> k in StringKeys(u) + EnumerableSymbols(u)
  {
    hide StringKeys, EnumerableSymbols;
  }

  lemma PlainTraversal(u: Value, v: Value, iteration: Iteration, keys: seq<Key>)
    requires u.Obj? && v.Obj? && !u.kind.Array? && KindsMatch(u, v) && IterationOf(u, iteration)
    ensures Traversal(u, v, iteration, keys)
  {
  }

  lemma ArrayTraversal(u: Value, v: Value, keys: seq<Key>)
    requires u.Obj? && v.Obj? && u.kind.Array? && v.kind == u.kind && forall k :: k in keys <==> k in ExtraKeys(u)
    ensures Traversal(u, v, IsArray, keys)
  {
    hide ExtraKeys;
  }

  /** The contents: the members or elements by the iteration, and the values of the listed keys. */
  ghost predicate Contents(u: Value, v: Value, iteration: Iteration, keys: seq<Key>)
    requires u.Obj? && v.Obj?
  {
    match iteration
    case NoIterator => EqualOn(u, v, keys)
    case IsArray => u.kind.Array? && ElementsEqual(u, v) && (Sparse(u) || EqualOn(u, v, keys))
    case IsSet => MembersAccepted(u, v) && EqualOn(u, v, keys)
    case IsMap => MembersAccepted(u, v) && EqualOn(u, v, keys)
  }

  /** The element loop: all indices of a dense array, and for a sparse one every string key as well. */
  ghost predicate ElementsEqual(u: Value, v: Value)
    requires u.Obj? && v.Obj? && u.kind.Array?
  {
    if Sparse(u) then
      && (exists h | 0 <= h < u.kind.length :: FirstHole(u, h) && !Own(v, Index(h)) && forall i | 0 <= i < h :: Own(v, Index(i)))
      && (forall k | k in StringKeys(u) :: Own(v, k) && Accepts(Get(u, k), Get(v, k)))
      && |StringKeys(u)| == |StringKeys(v)|
    else forall i | 0 <= i < u.kind.length :: Own(v, Index(i)) && Accepts(Get(u, Index(i)), Get(v, Index(i)))
  }

  lemma ContentsIs(u: Value, v: Value, iteration: Iteration, keys: seq<Key>)
    requires u.Obj? && v.Obj? && !u.kind.Array? && IterationOf(u, iteration)
    requires forall k :: k in keys <==> k in StringKeys(u) + EnumerableSymbols(u)
    requires StringKeys(u) == StringKeys(v) && SymbolsAgree(u, v)
    ensures Contents(u, v, iteration, keys) <==> KeysAndContents(u, v)
  {
    hide StringKeys, EnumerableSymbols, SymbolsAgree, Accepts;
    if !iteration.IsSet? && !iteration.IsMap? {
      assert MembersAccepted(u, v);
    }
  }

  /** The array branch: lengths were compared, extra keys are counted on both sides and looked up from the left. */
  method CompareArrays(val1: Value, val2: Value, memos: Memos) returns (r: bool)
    requires val1.Obj? && val2.Obj? && val1 != val2 && val1.proto == val2.proto && val1.tag == val2.tag
    requires val1.kind.Array? && val2.kind == val1.kind
    requires Sound(val1) && Sound(val2) && memos.Above(Size(val1), Size(val2))
    modifies memos
    ensures r <==> Accepts(val1, val2)
    ensures memos.a.Keys <= old(memos.a.Keys) && memos.b.Keys <= old(memos.b.Keys)
    decreases Size(val1) + Size(val2), 7
  {
    hide *;
    SoundParts(val1);
    SoundParts(val2);
    var keys1 := NonIndexKeys(val1);
    var keys2 := NonIndexKeys(val2);
    AssembleArray(val1, val2, keys1);
    if |keys1| != |keys2| {
      return false;
    }
    ArrayTraversal(val1, val2, keys1);
    r := WithMemo(val1, val2, memos, IsArray, keys1);
  }

  lemma AssembleArray(u: Value, v: Value, keys: seq<Key>)
    requires u.Obj? && v.Obj? && u != v && u.proto == v.proto && u.tag == v.tag && u.kind.Array? && v.kind == u.kind
    requires WellFormed(u) && WellFormed(v) && forall k :: k in keys <==> k in ExtraKeys(u)
    ensures Accepts(u, v) <==> |ExtraKeys(u)| == |ExtraKeys(v)| && Contents(u, v, IsArray, keys)
  {
    hide Accepts, WellFormed, ExtraKeys, StringKeys;
    EqualParts(u, v);
    assert MembersAccepted(u, v);
    if Sparse(u) {
      SparseContents(u, v);
    } else {
      DenseContents(u, v, keys);
    }
  }

  lemma SparseContents(u: Value, v: Value)
    requires u.Obj? && v.Obj? && u.kind.Array? && v.kind == u.kind && Sparse(u)
    ensures |ExtraKeys(u)| == |ExtraKeys(v)| && ElementsEqual(u, v) <==> ArrayKeysAgree(u, v) && KeysAccepted(u, v)
  {
    hide Accepts, ExtraKeys, StringKeys;
    SparseCompared(u);
  }

  lemma SparseCompared(u: Value)
    requires u.Obj? && u.kind.Array? && Sparse(u)
    ensures ComparedKeys(u) == StringKeys(u)
    ensures forall k | k in StringKeys(u) :: Get(u, k) == u.props[k].value
  {
  }

  lemma DenseContents(u: Value, v: Value, keys: seq<Key>)
    requires u.Obj? && v.Obj? && u.kind.Array? && v.kind == u.kind && !Sparse(u) && WellFormed(u)
    requires forall k :: k in keys <==> k in ExtraKeys(u)
    ensures |ExtraKeys(u)| == |ExtraKeys(v)| && ElementsEqual(u, v) && EqualOn(u, v, keys)
      <==> ArrayKeysAgree(u, v) && KeysAccepted(u, v)
  {
    hide Accepts, WellFormed;
    DenseCompared(u);
    if KeysAccepted(u, v) {
      forall i | 0 <= i < u.kind.length
        ensures Accepts(Get(u, Index(i)), Get(v, Index(i)))
      {
        assert ValueAccepted(u, v, Index(i));
      }
      forall k | k in keys
        ensures Accepts(Get(u, k), Get(v, k))
      {
        assert ValueAccepted(u, v, k);
      }
    }
  }

  lemma DenseCompared(u: Value)
    requires u.Obj? && u.kind.Array? && !Sparse(u) && WellFormed(u)
    ensures forall k :: k in ComparedKeys(u) <==> k in ExtraKeys(u) || (k.Index? && k.i < u.kind.length)
    ensures forall k | k in ComparedKeys(u) :: Get(u, k) == u.props[k].value
  {
    forall k: Key | k.Index? && k.i < u.kind.length
      ensures k in StringKeys(u)
    {
      assert Own(u, Index(k.i));
    }
  }

  /** size of a Set or Map, and the own property of that name of anything else. */
  function SizeProperty(v: Value): Value
    requires v.Obj?
  {
    if v.kind.Set? || v.kind.Map? then Prim(Num(Finite(|v.members| as real))) else Get(v, Name("size"))
  }

  /** What the caller guarantees about the traversal. */
  ghost predicate Traversal(u: Value, v: Value, iteration: Iteration, keys: seq<Key>)
    requires u.Obj? && v.Obj?
  {
    match iteration
    case NoIterator => true
    case IsArray => u.kind.Array? && v.kind == u.kind && forall k :: k in keys <==> k in ExtraKeys(u)
    case IsSet => Shape(u).Set? && v.kind.Set? && |u.members| == |v.members|
    case IsMap => Shape(u).Map? && v.kind.Map? && |u.members| == |v.members|
  }

  lemma NothingToCompare(u: Value, v: Value, iteration: Iteration)
    requires u.Obj? && v.Obj? && Traversal(u, v, iteration, []) && WellFormed(u) && WellFormed(v)
    requires iteration.NoIterator? || (iteration.IsArray? && v.kind.length == 0)
      || SizeProperty(v) == Prim(Num(Finite(0.0)))
    ensures Contents(u, v, iteration, [])
  {
    hide Accepts, ExtraKeys;
    if iteration.IsSet? || iteration.IsMap? {
      assert |v.members| == 0;
      FirstPassEnds(u, v, []);
      MembersAcceptedIs(u, v);
    }
  }

  /** The end of keyCheck: a shortcut, and the memo around objEquiv. No pair of acyclic values meets itself further up. */
  method WithMemo(val1: Value, val2: Value, memos: Memos, iteration: Iteration, keys2: seq<Key>) returns (r: bool)
    requires val1.Obj? && val2.Obj? && Traversal(val1, val2, iteration, keys2)
    requires Sound(val1) && Sound(val2) && memos.Above(Size(val1), Size(val2))
    modifies memos
    ensures r <==> Contents(val1, val2, iteration, keys2)
    ensures memos.a.Keys <= old(memos.a.Keys) && memos.b.Keys <= old(memos.b.Keys)
    decreases Size(val1) + Size(val2), 5
  {
    hide Sound, WellFormed, Traversal, Contents, SizeProperty, Size;
    SoundParts(val1);
    SoundParts(val2);
    if |keys2| == 0 && (iteration.NoIterator? || (iteration.IsArray? && ArrayLength(val2) == 0)
      || SizeProperty(val2) == Prim(Num(Finite(0.0)))) {
      LengthIs(val1, val2, iteration, keys2);
      NothingToCompare(val1, val2, iteration);
      return true;
    }
    memos.NoHit(val1, val2);
    if val1 in memos.a && val2 in memos.b {
      assert false;
    }
    var depth := |memos.a|;
    memos.a := memos.a[val1 := depth];
    memos.b := memos.b[val2 := depth];
    PropertyFacts(val1, CAUSE);
    PropertyFacts(val2, CAUSE);
    r := ObjEquiv(val1, val2, memos, iteration, keys2);
    memos.a := memos.a - {val1};
    memos.b := memos.b - {val2};
  }

  function ArrayLength(v: Value): nat {
    if v.Obj? && v.kind.Array? then v.kind.length else 0
  }

  lemma LengthIs(u: Value, v: Value, iteration: Iteration, keys: seq<Key>)
    requires u.Obj? && v.Obj? && Traversal(u, v, iteration, keys)
    ensures iteration.IsArray? ==> v.kind.Array? && ArrayLength(v) == v.kind.length
  {
    hide ExtraKeys;
  }

  /** objEquiv. */
  method ObjEquiv(val1: Value, val2: Value, memos: Memos, iteration: Iteration, keys2: seq<Key>) returns (r: bool)
    requires val1.Obj? && val2.Obj? && Traversal(val1, val2, iteration, keys2) && Size(val1) > 0 && Size(val2) > 0
    requires Sound(val1) && Sound(val2) && memos.Above(Size(val1) - 1, Size(val2) - 1)
    modifies memos
    ensures r <==> Contents(val1, val2, iteration, keys2)
    ensures memos.a.Keys <= old(memos.a.Keys) && memos.b.Keys <= old(memos.b.Keys)
    decreases Size(val1) + Size(val2), 4
  {
    hide Sound, WellFormed, Size, MembersAccepted, ElementsEqual, EqualOn, Sparse, ExtraKeys, StringKeys, Shape, Collection;
    if iteration.IsSet? {
      var same := SetEquiv(val1, val2, memos);
      if !same {
        return false;
      }
    } else if iteration.IsMap? {
      var same := MapEquiv(val1, val2, memos);
      if !same {
        return false;
      }
    } else if iteration.IsArray? {
      var done, result := ArrayElements(val1, val2, memos);
      if done {
        return result;
      }
    }
    r := CompareKeys(val1, val2, memos, keys2);
  }

  /** The final loop over the listed keys. */
  method CompareKeys(val1: Value, val2: Value, memos: Memos, keys: seq<Key>) returns (r: bool)
    requires val1.Obj? && val2.Obj? && Size(val1) > 0 && Size(val2) > 0
    requires Sound(val1) && Sound(val2) && memos.Above(Size(val1) - 1, Size(val2) - 1)
    modifies memos
    ensures r <==> EqualOn(val1, val2, keys)
    ensures memos.a.Keys <= old(memos.a.Keys) && memos.b.Keys <= old(memos.b.Keys)
    decreases Size(val1) + Size(val2), 3
  {
    hide Sound, Size, Accepts, Get;
    for i := 0 to |keys|
      invariant memos.a.Keys <= old(memos.a.Keys) && memos.b.Keys <= old(memos.b.Keys)
      invariant EqualOn(val1, val2, keys[..i])
    {
      var same := CompareProperty(val1, val2, memos, keys[i]);
      if !same {
        return false;
      }
    }
    assert keys[..|keys|] == keys;
    r := true;
  }

  /** In an index-first list that holds all indices below n, these stand at their own positions. */
  lemma {:induction false} IndexPositions(keys: seq<Key>, n: nat)
    requires IndicesFirst(keys) && forall j: nat | j < n :: Index(j) in keys
    ensures n <= |keys| && forall j | 0 <= j < n :: keys[j] == Index(j)
    decreases n
  {
    if n > 0 {
      IndexPositions(keys, n - 1);
      assert Index(n - 1) in keys;
      var p :| 0 <= p < |keys| && keys[p] == Index(n - 1);
      assert forall j | 0 <= j < n - 1 :: keys[j] != Index(n - 1);
      var q := keys[n - 1];
      assert q.Index? && q.i <= n - 1;
      assert n >= 2 ==> n - 2 < q.i;
    }
  }

  /** The element loop of an array; done says that it has decided the whole comparison. */
  method ArrayElements(val1: Value, val2: Value, memos: Memos) returns (done: bool, r: bool)
    requires val1.Obj? && val2.Obj? && val1.kind.Array? && val2.kind == val1.kind && Size(val1) > 0 && Size(val2) > 0
    requires Sound(val1) && Sound(val2) && memos.Above(Size(val1) - 1, Size(val2) - 1)
    modifies memos
    ensures done ==> (r <==> ElementsEqual(val1, val2)) && (r ==> Sparse(val1))
    ensures !done ==> ElementsEqual(val1, val2) && !Sparse(val1)
    ensures memos.a.Keys <= old(memos.a.Keys) && memos.b.Keys <= old(memos.b.Keys)
    decreases Size(val1) + Size(val2), 3
  {
    hide Sound, WellFormed, Size, Accepts, Get, Own, ElementsEqual, Sparse, StringKeys;
    SoundParts(val1);
    for i := 0 to val1.kind.length
      invariant memos.a.Keys <= old(memos.a.Keys) && memos.b.Keys <= old(memos.b.Keys)
      invariant PrefixEqual(val1, val2, i)
    {
      if Own(val1, Index(i)) {
        PrefixNeeded(val1, val2, i);
        if !Own(val2, Index(i)) {
          return true, false;
        }
        var same := CompareProperty(val1, val2, memos, Index(i));
        if !same {
          return true, false;
        }
      } else {
        HoleNeeded(val1, val2, i);
        if Own(val2, Index(i)) {
          return true, false;
        }
        r := SparseKeys(val1, val2, memos, i);
        return true, r;
      }
    }
    PrefixIsAll(val1, val2);
    return false, false;
  }

  ghost predicate PrefixEqual(u: Value, v: Value, n: nat) {
    forall j | 0 <= j < n :: Own(u, Index(j)) && Own(v, Index(j)) && Accepts(Get(u, Index(j)), Get(v, Index(j)))
  }

  lemma PrefixNeeded(u: Value, v: Value, i: nat)
    requires u.Obj? && v.Obj? && u.kind.Array? && v.kind == u.kind && WellFormed(u)
    requires PrefixEqual(u, v, i) && i < u.kind.length && Own(u, Index(i))
    ensures ElementsEqual(u, v) ==> Own(v, Index(i)) && Accepts(Get(u, Index(i)), Get(v, Index(i)))
  {
    hide Accepts;
    if ElementsEqual(u, v) && Sparse(u) {
      var h :| 0 <= h < u.kind.length && FirstHole(u, h) && !Own(v, Index(h)) && forall i | 0 <= i < h :: Own(v, Index(i));
      assert Index(i) in StringKeys(u);
    }
  }

  lemma HoleNeeded(u: Value, v: Value, i: nat)
    requires u.Obj? && v.Obj? && u.kind.Array? && v.kind == u.kind
    requires PrefixEqual(u, v, i) && i < u.kind.length && !Own(u, Index(i))
    ensures Sparse(u) && FirstHole(u, i) && (ElementsEqual(u, v) ==> !Own(v, Index(i)))
  {
    hide Accepts;
    if ElementsEqual(u, v) {
      var h :| 0 <= h < u.kind.length && FirstHole(u, h) && !Own(v, Index(h)) && forall i | 0 <= i < h :: Own(v, Index(i));
      assert h == i;
    }
  }

  lemma PrefixIsAll(u: Value, v: Value)
    requires u.Obj? && v.Obj? && u.kind.Array? && v.kind == u.kind && PrefixEqual(u, v, u.kind.length)
    ensures ElementsEqual(u, v) && !Sparse(u)
  {
    hide Accepts;
  }

  /** At the first hole the loop goes on over the remaining string keys. */
  method SparseKeys(val1: Value, val2: Value, memos: Memos, hole: nat) returns (r: bool)
    requires val1.Obj? && val2.Obj? && val1.kind.Array? && val2.kind == val1.kind && Size(val1) > 0 && Size(val2) > 0
    requires Sound(val1) && Sound(val2) && memos.Above(Size(val1) - 1, Size(val2) - 1)
    requires PrefixEqual(val1, val2, hole) && FirstHole(val1, hole) && !Own(val2, Index(hole)) && Sparse(val1)
    modifies memos
    ensures r <==> ElementsEqual(val1, val2)
    ensures memos.a.Keys <= old(memos.a.Keys) && memos.b.Keys <= old(memos.b.Keys)
    decreases Size(val1) + Size(val2), 2
  {
    hide Sound, WellFormed, Size, Accepts, Get, Own, ElementsEqual, Sparse, StringKeys, PrefixEqual;
    SoundParts(val1);
    SoundParts(val2);
    var keysA := ObjectKeys(val1);
    var i := hole;
    PrefixInKeys(val1, val2, keysA, hole);
    while i < |keysA|
      invariant hole <= i <= |keysA|
      invariant memos.a.Keys <= old(memos.a.Keys) && memos.b.Keys <= old(memos.b.Keys)
      invariant OwnedAndEqual(val1, val2, keysA[..i])
    {
      var key := keysA[i];
      SparseNeeds(val1, val2, keysA);
      if !Own(val2, key) {
        return false;
      }
      var same := CompareProperty(val1, val2, memos, key);
      if !same {
        return false;
      }
      i := i + 1;
    }
    assert keysA[..|keysA|] == keysA;
    SparseDecided(val1, val2, keysA, hole);
    var keysB := ObjectKeys(val2);
    r := |keysA| == |keysB|;
  }

  ghost predicate OwnedAndEqual(u: Value, v: Value, keys: seq<Key>) {
    forall k | k in keys :: Own(v, k) && Accepts(Get(u, k), Get(v, k))
  }

  lemma PrefixInKeys(u: Value, v: Value, keys: seq<Key>, hole: nat)
    requires u.Obj? && v.Obj? && u.kind.Array? && WellFormed(u) && hole <= u.kind.length && PrefixEqual(u, v, hole)
    requires (forall k :: k in keys <==> k in StringKeys(u)) && IndicesFirst(keys)
    ensures hole <= |keys| && OwnedAndEqual(u, v, keys[..hole])
  {
    hide Accepts;
    forall j: nat | j < hole
      ensures Index(j) in keys
    {
      assert Own(u, Index(j));
      assert Index(j) in StringKeys(u);
    }
    IndexPositions(keys, hole);
    forall k | k in keys[..hole]
      ensures Own(v, k) && Accepts(Get(u, k), Get(v, k))
    {
      var j :| 0 <= j < hole && keys[j] == k;
      assert Own(v, Index(j));
    }
  }

  lemma SparseNeeds(u: Value, v: Value, keys: seq<Key>)
    requires u.Obj? && v.Obj? && u.kind.Array? && Sparse(u) && forall k :: k in keys <==> k in StringKeys(u)
    ensures ElementsEqual(u, v) ==> OwnedAndEqual(u, v, keys)
  {
    hide Accepts, StringKeys, Own;
  }

  lemma SparseDecided(u: Value, v: Value, keys: seq<Key>, hole: nat)
    requires u.Obj? && v.Obj? && u.kind.Array? && Sparse(u) && forall k :: k in keys <==> k in StringKeys(u)
    requires OwnedAndEqual(u, v, keys) && PrefixEqual(u, v, hole) && FirstHole(u, hole) && !Own(v, Index(hole))
    ensures ElementsEqual(u, v) <==> |StringKeys(u)| == |StringKeys(v)|
  {
    hide Accepts, StringKeys, Own;
    assert forall i | 0 <= i < hole :: Own(v, Index(i));
  }

  // ---- greedy matching ----

  lemma MemberFacts(v: Value, i: nat)
    requires v.Obj? && Sound(v)
    ensures i < |v.members| ==> Sound(v.members[i]) && Size(v.members[i]) < Size(v)
    ensures i < |v.values| ==> Sound(v.values[i]) && Size(v.values[i]) < Size(v)
  {
    hide Size;
    MemberIsSmaller(v, i);
    SoundParts(v);
  }

  /** A member of one collection against a member of the other, in either order of the arguments. */
  method CompareMembers(val1: Value, i: nat, val2: Value, j: nat, memos: Memos) returns (r: bool)
    requires val1.Obj? && val2.Obj? && Size(val1) > 0 && Size(val2) > 0 && i < |val1.members| && j < |val2.members|
    requires Sound(val1) && Sound(val2)
    requires memos.Above(Size(val1) - 1, Size(val2) - 1) || memos.Above(Size(val2) - 1, Size(val1) - 1)
    modifies memos
    ensures r <==> Accepts(val1.members[i], val2.members[j])
    ensures memos.a.Keys <= old(memos.a.Keys) && memos.b.Keys <= old(memos.b.Keys)
    decreases Size(val1) + Size(val2), 0
  {
    hide *;
    MemberFacts(val1, i);
    MemberFacts(val2, j);
    var x, y := val1.members[i], val2.members[j];
    if memos.Above(Size(val1) - 1, Size(val2) - 1) {
      memos.AboveInner(Size(val1) - 1, Size(val2) - 1, Size(x), Size(y));
    } else {
      memos.AboveInner(Size(val2) - 1, Size(val1) - 1, Size(x), Size(y));
    }
    r := InnerDeepEqual(x, y, memos);
  }

  method CompareValues(val1: Value, i: nat, val2: Value, j: nat, memos: Memos) returns (r: bool)
    requires val1.Obj? && val2.Obj? && Size(val1) > 0 && Size(val2) > 0 && i < |val1.values| && j < |val2.values|
    requires Sound(val1) && Sound(val2)
    requires memos.Above(Size(val1) - 1, Size(val2) - 1) || memos.Above(Size(val2) - 1, Size(val1) - 1)
    modifies memos
    ensures r <==> Accepts(val1.values[i], val2.values[j])
    ensures memos.a.Keys <= old(memos.a.Keys) && memos.b.Keys <= old(memos.b.Keys)
    decreases Size(val1) + Size(val2), 0
  {
    hide *;
    MemberFacts(val1, i);
    MemberFacts(val2, j);
    var x, y := val1.values[i], val2.values[j];
    if memos.Above(Size(val1) - 1, Size(val2) - 1) {
      memos.AboveInner(Size(val1) - 1, Size(val2) - 1, Size(x), Size(y));
    } else {
      memos.AboveInner(Size(val2) - 1, Size(val1) - 1, Size(x), Size(y));
    }
    r := InnerDeepEqual(x, y, memos);
  }

  /** The working Set, listed by position in a, holds objects of a only. */
  ghost predicate Working(a: Value, rest: seq<nat>)
    requires a.Obj?
  {
    forall x | x in rest :: x < |a.members| && a.members[x].Obj?
  }

  /** setHasEqualElement: the first member left in the working Set to which b's member n is equal. */
  method SetHasEqualElement(rest: seq<nat>, a: Value, b: Value, n: nat, memos: Memos) returns (found: nat)
    requires a.Obj? && b.Obj? && Shape(a).Set? && Size(a) > 0 && Size(b) > 0 && n < |b.members| && Working(a, rest)
    requires Sound(a) && Sound(b) && memos.Above(Size(a) - 1, Size(b) - 1)
    modifies memos
    ensures found == FirstRow(rest, n, Accepted(a, b))
    ensures memos.a.Keys <= old(memos.a.Keys) && memos.b.Keys <= old(memos.b.Keys)
    decreases Size(a) + Size(b), 1
  {
    hide Sound, Size, Accepts, Shape, MemberAccepted, FirstRow;
    for p := 0 to |rest|
      invariant memos.a.Keys <= old(memos.a.Keys) && memos.b.Keys <= old(memos.b.Keys)
      invariant forall q | 0 <= q < p :: !Accepted(a, b)(rest[q], n)
    {
      assert rest[p] in rest;
      var same := CompareMembers(b, n, a, rest[p], memos);
      SetPair(a, b, rest[p], n);
      if same {
        return p;
      }
    }
    found := |rest|;
  }

  lemma SetPair(a: Value, b: Value, i: nat, j: nat)
    requires a.Obj? && b.Obj? && Shape(a).Set? && i < |a.members| && j < |b.members|
    ensures a.members[i].Obj? ==> (MemberAccepted(a, b, i, j) <==> Accepts(b.members[j], a.members[i]))
    ensures a.members[i].Prim? ==> (MemberAccepted(a, b, i, j) <==> a.members[i] == b.members[j])
  {
    hide Accepts, Size;
  }

  /** mapHasEqualEntry. */
  method MapHasEqualEntry(rest: seq<nat>, a: Value, b: Value, n: nat, memos: Memos) returns (found: nat)
    requires a.Obj? && b.Obj? && Shape(a).Map? && Size(a) > 0 && Size(b) > 0 && n < |b.members| && Working(a, rest)
    requires |a.members| == |a.values| && |b.members| == |b.values|
    requires Sound(a) && Sound(b) && memos.Above(Size(a) - 1, Size(b) - 1)
    modifies memos
    ensures found == FirstRow(rest, n, Accepted(a, b))
    ensures memos.a.Keys <= old(memos.a.Keys) && memos.b.Keys <= old(memos.b.Keys)
    decreases Size(a) + Size(b), 1
  {
    hide Sound, Size, Accepts, Shape, MemberAccepted, FirstRow;
    for p := 0 to |rest|
      invariant memos.a.Keys <= old(memos.a.Keys) && memos.b.Keys <= old(memos.b.Keys)
      invariant forall q | 0 <= q < p :: !Accepted(a, b)(rest[q], n)
    {
      assert rest[p] in rest;
      var same := CompareMembers(b, n, a, rest[p], memos);
      MapPair(a, b, rest[p], n);
      if same {
        same := CompareValues(b, n, a, rest[p], memos);
        if same {
          return p;
        }
      }
    }
    found := |rest|;
  }

  lemma MapPair(a: Value, b: Value, i: nat, j: nat)
    requires a.Obj? && b.Obj? && Shape(a).Map? && i < |a.members| == |a.values| && j < |b.members| == |b.values|
    ensures a.members[i].Obj? ==>
      (MemberAccepted(a, b, i, j) <==> Accepts(b.members[j], a.members[i]) && Accepts(b.values[j], a.values[i]))
    ensures a.members[i].Prim? ==>
      (MemberAccepted(a, b, i, j) <==> a.members[i] == b.members[j] && Accepts(a.values[i], b.values[j]))
  {
    hide Accepts, Size;
  }

  // ---- the first pass: primitives must be found, objects are collected ----

  ghost predicate FirstPass(a: Value, b: Value, n: nat, rest: seq<nat>)
    requires a.Obj? && b.Obj?
  {
    && n <= |a.members| && rest == ObjectsBelow(a.members, n)
    && forall i | 0 <= i < n && a.members[i].Prim? :: PrimitiveFound(a, b, i)
  }

  lemma FirstPassFails(a: Value, b: Value, n: nat)
    requires a.Obj? && b.Obj? && n < |a.members| && a.members[n].Prim? && !PrimitiveFound(a, b, n)
    ensures !PrimitivesFound(a, b)
  {
    hide PrimitiveFound;
  }

  lemma FirstPassEnds(a: Value, b: Value, rest: seq<nat>)
    requires a.Obj? && b.Obj? && FirstPass(a, b, |a.members|, rest)
    ensures PrimitivesFound(a, b) && rest == ObjectsBelow(a.members, |a.members|) && Working(a, rest)
  {
    hide PrimitiveFound;
    ObjectsAre(a.members, |a.members|);
  }

  /** setEquiv: primitives are looked up, objects are matched greedily. */
  method SetEquiv(a: Value, b: Value, memos: Memos) returns (r: bool)
    requires a.Obj? && b.Obj? && Shape(a).Set? && Size(a) > 0 && Size(b) > 0
    requires Sound(a) && Sound(b) && memos.Above(Size(a) - 1, Size(b) - 1)
    modifies memos
    ensures r <==> MembersAccepted(a, b)
    ensures memos.a.Keys <= old(memos.a.Keys) && memos.b.Keys <= old(memos.b.Keys)
    decreases Size(a) + Size(b), 3
  {
    hide Sound, Size, Accepts, MemberAccepted, MembersAccepted, PrimitivesFound, PrimitiveFound, Shape, GreedyRun;
    MembersAcceptedIs(a, b);
    var rest: seq<nat> := [];
    for n := 0 to |a.members|
      invariant FirstPass(a, b, n, rest)
      modifies {}
    {
      var val := a.members[n];
      if val.Obj? {
        rest := rest + [n];
      } else {
        var pos := IndexOf(b.members, val);
        SetLookup(a, b, n);
        if pos.None? {
          FirstPassFails(a, b, n);
          return false;
        }
      }
    }
    FirstPassEnds(a, b, rest);
    if |rest| == 0 {
      return true;
    }
    r := MatchObjects(a, b, memos, rest);
  }

  lemma SetLookup(a: Value, b: Value, n: nat)
    requires a.Obj? && b.Obj? && Shape(a).Set? && n < |a.members| && a.members[n].Prim?
    ensures PrimitiveFound(a, b, n) <==> a.members[n] in b.members
  {
    hide Accepts, Shape, MemberAccepted;
    forall j: nat | j < |b.members|
      ensures MemberAccepted(a, b, n, j) <==> a.members[n] == b.members[j]
    {
      SetPair(a, b, n, j);
    }
  }

  /** The second loop of setEquiv. */
  method MatchObjects(a: Value, b: Value, memos: Memos, start: seq<nat>) returns (r: bool)
    requires a.Obj? && b.Obj? && Shape(a).Set? && Size(a) > 0 && Size(b) > 0 && Working(a, start)
    requires Sound(a) && Sound(b) && memos.Above(Size(a) - 1, Size(b) - 1)
    modifies memos
    ensures r <==> GreedyRun(start, ObjectsBelow(b.members, |b.members|), Accepted(a, b))
    ensures memos.a.Keys <= old(memos.a.Keys) && memos.b.Keys <= old(memos.b.Keys)
    decreases Size(a) + Size(b), 2
  {
    hide Sound, Size, Accepts, Accepted, Shape, FirstRow, GreedyRun, ObjectsBelow;
    ghost var cols, k, related := ObjectsBelow(b.members, |b.members|), 0, Accepted(a, b);
    var rest := start;
    NoneBelow(b.members);
    assert cols[0..] == cols;
    for n := 0 to |b.members|
      invariant memos.a.Keys <= old(memos.a.Keys) && memos.b.Keys <= old(memos.b.Keys)
      invariant Working(a, rest) && k == |ObjectsBelow(b.members, n)| <= |cols|
      invariant GreedyRun(start, cols, related) <==> GreedyRun(rest, cols[k..], related)
    {
      NextColumn(b.members, n);
      if b.members[n].Obj? {
        var p := SetHasEqualElement(rest, a, b, n, memos);
        GreedyStep(rest, cols, k, related);
        if p == |rest| {
          return false;
        }
        rest := Without(rest, p);
        k := k + 1;
      }
    }
    assert cols[|cols|..] == [];
    GreedyEnd(rest, related);
    r := |rest| == 0;
  }

  lemma ObjectsAre(members: seq<Value>, n: nat)
    requires n <= |members|
    ensures forall x | x in ObjectsBelow(members, n) :: x < n && members[x].Obj?
  {
  }

  lemma NoneBelow(members: seq<Value>)
    ensures ObjectsBelow(members, 0) == []
  {
  }

  /** The columns of the first n members begin the list of all columns. */
  lemma {:induction false} ColumnsBegin(members: seq<Value>, n: nat, m: nat)
    requires n <= m <= |members|
    ensures ObjectsBelow(members, n) <= ObjectsBelow(members, m)
    decreases m - n
  {
    if n < m {
      ColumnsBegin(members, n, m - 1);
    }
  }

  lemma NextColumn(members: seq<Value>, n: nat)
    requires n < |members|
    ensures var cols, k := ObjectsBelow(members, |members|), |ObjectsBelow(members, n)|;
      && ObjectsBelow(members, n) <= cols && ObjectsBelow(members, n + 1) <= cols
      && if members[n].Obj? then |ObjectsBelow(members, n + 1)| == k + 1 && k < |cols| && cols[k] == n
         else |ObjectsBelow(members, n + 1)| == k
  {
    ColumnsBegin(members, n, |members|);
    ColumnsBegin(members, n + 1, |members|);
  }

  lemma GreedyStep(rows: seq<nat>, cols: seq<nat>, k: nat, r: (nat, nat) -> bool)
    requires k < |cols|
    ensures var p := FirstRow(rows, cols[k], r);
      GreedyRun(rows, cols[k..], r) <==> p < |rows| && GreedyRun(Without(rows, p), cols[k + 1..], r)
  {
    assert cols[k..][0] == cols[k] && cols[k..][1..] == cols[k + 1..];
  }

  lemma GreedyEnd(rows: seq<nat>, r: (nat, nat) -> bool)
    ensures GreedyRun(rows, [], r) <==> rows == []
  {
  }

  lemma MapLengths(a: Value, b: Value)
    requires a.Obj? && b.Obj? && WellFormed(a) && WellFormed(b) && Shape(a).Map? && b.kind.Map?
    ensures |a.members| == |a.values| && |b.members| == |b.values|
  {
  }

  /** mapEquiv: entries with primitive keys are looked up, the others are matched greedily. */
  method MapEquiv(a: Value, b: Value, memos: Memos) returns (r: bool)
    requires a.Obj? && b.Obj? && Shape(a).Map? && b.kind.Map? && Size(a) > 0 && Size(b) > 0
    requires Sound(a) && Sound(b) && memos.Above(Size(a) - 1, Size(b) - 1)
    modifies memos
    ensures r <==> MembersAccepted(a, b)
    ensures memos.a.Keys <= old(memos.a.Keys) && memos.b.Keys <= old(memos.b.Keys)
    decreases Size(a) + Size(b), 3
  {
    hide Sound, WellFormed, Size, Accepts, MemberAccepted, MembersAccepted, PrimitivesFound, PrimitiveFound, Shape, GreedyRun;
    SoundParts(a);
    SoundParts(b);
    MapLengths(a, b);
    MembersAcceptedIs(a, b);
    var rest: seq<nat> := [];
    for n := 0 to |a.members|
      invariant FirstPass(a, b, n, rest)
      invariant memos.a.Keys <= old(memos.a.Keys) && memos.b.Keys <= old(memos.b.Keys)
    {
      var key := a.members[n];
      if key.Obj? {
        rest := rest + [n];
      } else {
        var pos := IndexOf(b.members, key);
        MapLookup(a, b, n);
        if pos.None? {
          FirstPassFails(a, b, n);
          return false;
        }
        var same := CompareValues(a, n, b, pos.value, memos);
        if !same {
          FirstPassFails(a, b, n);
          return false;
        }
      }
    }
    FirstPassEnds(a, b, rest);
    if |rest| == 0 {
      return true;
    }
    r := MatchEntries(a, b, memos, rest);
  }

  lemma MapLookup(a: Value, b: Value, n: nat)
    requires a.Obj? && b.Obj? && Shape(a).Map? && n < |a.members| == |a.values| && |b.members| == |b.values|
    requires WellFormed(b) && a.members[n].Prim?
    ensures PrimitiveFound(a, b, n) ==> a.members[n] in b.members
    ensures forall j | 0 <= j < |b.members| && b.members[j] == a.members[n] ::
      PrimitiveFound(a, b, n) <==> Accepts(a.values[n], b.values[j])
  {
    hide Accepts, Shape, MemberAccepted, WellFormed;
    forall j: nat | j < |b.members|
      ensures MemberAccepted(a, b, n, j) <==> a.members[n] == b.members[j] && Accepts(a.values[n], b.values[j])
    {
      MapPair(a, b, n, j);
    }
    forall i: nat, j: nat | i < |b.members| && j < |b.members| && b.members[i] == b.members[j]
      ensures i == j
    {
      SameMember(b, i, j);
    }
  }

  lemma SameMember(v: Value, i: nat, j: nat)
    requires v.Obj? && WellFormed(v) && i < |v.members| && j < |v.members|
    ensures v.members[i] == v.members[j] ==> i == j
  {
  }

  /** The second loop of mapEquiv. */
  method MatchEntries(a: Value, b: Value, memos: Memos, start: seq<nat>) returns (r: bool)
    requires a.Obj? && b.Obj? && Shape(a).Map? && Size(a) > 0 && Size(b) > 0 && Working(a, start)
    requires |a.members| == |a.values| && |b.members| == |b.values|
    requires Sound(a) && Sound(b) && memos.Above(Size(a) - 1, Size(b) - 1)
    modifies memos
    ensures r <==> GreedyRun(start, ObjectsBelow(b.members, |b.members|), Accepted(a, b))
    ensures memos.a.Keys <= old(memos.a.Keys) && memos.b.Keys <= old(memos.b.Keys)
    decreases Size(a) + Size(b), 2
  {
    hide Sound, Size, Accepts, Accepted, Shape, FirstRow, GreedyRun, ObjectsBelow;
    ghost var cols, k, related := ObjectsBelow(b.members, |b.members|), 0, Accepted(a, b);
    var rest := start;
    NoneBelow(b.members);
    assert cols[0..] == cols;
    for n := 0 to |b.members|
      invariant memos.a.Keys <= old(memos.a.Keys) && memos.b.Keys <= old(memos.b.Keys)
      invariant Working(a, rest) && k == |ObjectsBelow(b.members, n)| <= |cols|
      invariant GreedyRun(start, cols, related) <==> GreedyRun(rest, cols[k..], related)
    {
      NextColumn(b.members, n);
      if b.members[n].Obj? {
        var p := MapHasEqualEntry(rest, a, b, n, memos);
        GreedyStep(rest, cols, k, related);
        if p == |rest| {
          return false;
        }
        rest := Without(rest, p);
        k := k + 1;
      }
    }
    assert cols[|cols|..] == [];
    GreedyEnd(rest, related);
    r := |rest| == 0;
  }

  /** isDeepStrictEqual: the answer of the comparison, for any two well-formed acyclic values. */
  method IsDeepStrictEqual(val1: Value, val2: Value) returns (r: bool)
    requires Sound(val1) && Sound(val2)
    ensures r <==> Accepts(val1, val2)
  {
    var memos := new Memos();
    r := InnerDeepEqual(val1, val2, memos);
  }
}
