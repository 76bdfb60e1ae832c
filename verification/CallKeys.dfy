/** `_make_key`: the dictionary key of a call. */
module CallKeys {
  /** Objects with the same class compare equal (1, 1.0 and True share one). */
  datatype EqClass = Mark | TypeClass(ty: nat) | Plain(n: nat)

  datatype Obj = Obj(eq: EqClass, ty: nat)

  const INT: nat := 0
  const STR: nat := 1
  const TYPE: nat := 2
  const FLOAT: nat := 4

  const KWD_MARK := Obj(Mark, 3)

  datatype Call = Call(args: seq<Obj>, kwds: seq<(Obj, Obj)>)  // kwds in call order

  /** A single value of a fast type, or a `_HashedSeq` of values. */
  datatype Key = Raw(o: Obj) | HashedSeq(items: seq<Obj>)

  function TypeOf(o: Obj): Obj {
    Obj(TypeClass(o.ty), TYPE)
  }

  function Items(kwds: seq<(Obj, Obj)>): seq<Obj> {
    if kwds == [] then [] else [kwds[0].0, kwds[0].1] + Items(kwds[1..])
  }

  function Types(objs: seq<Obj>): seq<Obj> {
    if objs == [] then [] else [TypeOf(objs[0])] + Types(objs[1..])
  }

  function Values(kwds: seq<(Obj, Obj)>): seq<Obj> {
    if kwds == [] then [] else [kwds[0].1] + Values(kwds[1..])
  }

  predicate IsFast(o: Obj) {
    o.ty == INT || o.ty == STR
  }

  function MakeKey(c: Call, typed: bool): Key {
    var key := c.args + if c.kwds != [] then [KWD_MARK] + Items(c.kwds) else [];
    if typed then
      HashedSeq(key + Types(c.args) + if c.kwds != [] then Types(Values(c.kwds)) else [])
    else if |key| == 1 && IsFast(key[0]) then Raw(key[0])
    else HashedSeq(key)
  }

  function Classes(objs: seq<Obj>): (r: seq<EqClass>)
    ensures |r| == |objs|
    ensures forall i :: 0 <= i < |objs| ==> r[i] == objs[i].eq
  {
    if objs == [] then [] else [objs[0].eq] + Classes(objs[1..])
  }

  /** What the dictionary sees of a key: equal keys have equal classes. A list
      never equals an int or a str. */
  datatype KeyClass = RawClass(eq: EqClass) | SeqClass(eqs: seq<EqClass>)

  function ClassOf(k: Key): KeyClass {
    match k
    case Raw(o) => RawClass(o.eq)
    case HashedSeq(items) => SeqClass(Classes(items))
  }

  /** No argument and no keyword is the private mark. */
  predicate MarkFree(c: Call) {
    && (forall i :: 0 <= i < |c.args| ==> c.args[i].eq != Mark)
    && (forall i :: 0 <= i < |c.kwds| ==> c.kwds[i].0.eq != Mark && c.kwds[i].1.eq != Mark)
  }

  predicate EqObjs(a: seq<Obj>, b: seq<Obj>) {
    |a| == |b| && forall i :: 0 <= i < |a| ==> a[i].eq == b[i].eq
  }

  predicate SameTypes(a: seq<Obj>, b: seq<Obj>) {
    |a| == |b| && forall i :: 0 <= i < |a| ==> a[i].ty == b[i].ty
  }

  predicate EqKwds(a: seq<(Obj, Obj)>, b: seq<(Obj, Obj)>) {
    |a| == |b| && forall i :: 0 <= i < |a| ==> a[i].0.eq == b[i].0.eq && a[i].1.eq == b[i].1.eq
  }

  predicate SameKwdTypes(a: seq<(Obj, Obj)>, b: seq<(Obj, Obj)>) {
    |a| == |b| && forall i :: 0 <= i < |a| ==> a[i].1.ty == b[i].1.ty
  }

  /** A lone positional argument is its own key when its type is fast. */
  predicate IsLone(c: Call) {
    |c.args| == 1 && c.kwds == []
  }

  /** The calls the cache takes for the same: equal arguments and the same keywords
      in the same order, of equal types if `typed`. */
  predicate SameCall(c: Call, c': Call, typed: bool) {
    && EqObjs(c.args, c'.args)
    && EqKwds(c.kwds, c'.kwds)
    && (typed ==> SameTypes(c.args, c'.args) && SameKwdTypes(c.kwds, c'.kwds))
    && (!typed && IsLone(c) ==> (c.args[0].ty in {INT, STR} <==> c'.args[0].ty in {INT, STR}))
  }

  // ----- the parts of a key can be told apart -----

  lemma {:induction false} ItemsAt(kwds: seq<(Obj, Obj)>)
    ensures |Items(kwds)| == 2 * |kwds|
    ensures forall i :: 0 <= i < |kwds| ==> Items(kwds)[2 * i] == kwds[i].0 && Items(kwds)[2 * i + 1] == kwds[i].1
  {
    if kwds != [] {
      ItemsAt(kwds[1..]);
      forall i | 0 < i < |kwds| ensures Items(kwds)[2 * i] == kwds[i].0 && Items(kwds)[2 * i + 1] == kwds[i].1 {
        assert kwds[i] == kwds[1..][i - 1];
      }
    }
  }

  lemma {:induction false} TypesAt(objs: seq<Obj>)
    ensures |Types(objs)| == |objs|
    ensures forall i :: 0 <= i < |objs| ==> Types(objs)[i] == TypeOf(objs[i])
  {
    if objs != [] { TypesAt(objs[1..]); }
  }

  lemma {:induction false} ValuesAt(kwds: seq<(Obj, Obj)>)
    ensures |Values(kwds)| == |kwds|
    ensures forall i :: 0 <= i < |kwds| ==> Values(kwds)[i] == kwds[i].1
  {
    if kwds != [] { ValuesAt(kwds[1..]); }
  }

  /** The untyped part of a key. */
  function Flat(c: Call): seq<Obj> {
    c.args + if c.kwds != [] then [KWD_MARK] + Items(c.kwds) else []
  }

  /** The types a typed key ends with. */
  function Tail(c: Call): seq<Obj> {
    Types(c.args) + Types(Values(c.kwds))
  }

  lemma FlatAt(c: Call)
    requires MarkFree(c)
    ensures |Flat(c)| == |c.args| + if c.kwds == [] then 0 else 1 + 2 * |c.kwds|
    ensures forall i :: 0 <= i < |Flat(c)| ==> (Flat(c)[i].eq == Mark <==> i == |c.args|)
    ensures forall i :: 0 <= i < |c.args| ==> Flat(c)[i] == c.args[i]
    ensures forall i :: 0 <= i < |c.kwds| ==>
      Flat(c)[|c.args| + 1 + 2 * i] == c.kwds[i].0 && Flat(c)[|c.args| + 2 + 2 * i] == c.kwds[i].1
  {
    ItemsAt(c.kwds);
    if c.kwds != [] {
      var n := |c.args|;
      forall i | 0 <= i < |c.kwds|
        ensures Flat(c)[n + 1 + 2 * i] == c.kwds[i].0 && Flat(c)[n + 2 + 2 * i] == c.kwds[i].1
      {
        assert Flat(c)[n + 1 + 2 * i] == Items(c.kwds)[2 * i];
        assert Flat(c)[n + 2 + 2 * i] == Items(c.kwds)[2 * i + 1];
      }
      forall i | n < i < |Flat(c)| ensures Flat(c)[i].eq != Mark {
        var j := (i - n - 1) / 2;
        assert i == n + 1 + 2 * j || i == n + 2 + 2 * j;
        assert c.kwds[j].0.eq != Mark && c.kwds[j].1.eq != Mark;
      }
    }
  }

  lemma TailAt(c: Call)
    ensures |Tail(c)| == |c.args| + |c.kwds|
    ensures forall i :: 0 <= i < |c.args| ==> Tail(c)[i] == TypeOf(c.args[i])
    ensures forall i :: 0 <= i < |c.kwds| ==> Tail(c)[|c.args| + i] == TypeOf(c.kwds[i].1)
  {
    TypesAt(c.args);
    ValuesAt(c.kwds);
    TypesAt(Values(c.kwds));
  }

  /** Equal untyped parts come from equal arguments and keywords. */
  lemma FlatInjective(c: Call, c': Call)
    requires MarkFree(c) && MarkFree(c')
    ensures EqObjs(Flat(c), Flat(c')) <==> EqObjs(c.args, c'.args) && EqKwds(c.kwds, c'.kwds)
  {
    FlatAt(c);
    FlatAt(c');
    var n := |c.args|;
    if EqObjs(Flat(c), Flat(c')) {
      MarkPosition(c, c');
      assert forall i :: 0 <= i < n ==> Flat(c)[i].eq == Flat(c')[i].eq;
      forall i | 0 <= i < |c.kwds|
        ensures c.kwds[i].0.eq == c'.kwds[i].0.eq && c.kwds[i].1.eq == c'.kwds[i].1.eq
      {
        assert Flat(c)[n + 1 + 2 * i].eq == Flat(c')[n + 1 + 2 * i].eq;
        assert Flat(c)[n + 2 + 2 * i].eq == Flat(c')[n + 2 + 2 * i].eq;
      }
    }
    if EqObjs(c.args, c'.args) && EqKwds(c.kwds, c'.kwds) {
      forall i | 0 <= i < |Flat(c)| ensures Flat(c)[i].eq == Flat(c')[i].eq {
        if i > n {
          var j := (i - n - 1) / 2;
          assert i == n + 1 + 2 * j || i == n + 2 + 2 * j;
          assert c.kwds[j].0.eq == c'.kwds[j].0.eq && c.kwds[j].1.eq == c'.kwds[j].1.eq;
        }
      }
    }
  }

  lemma MarkPosition(c: Call, c': Call)
    requires MarkFree(c) && MarkFree(c') && EqObjs(Flat(c), Flat(c'))
    ensures |c.args| == |c'.args| && |c.kwds| == |c'.kwds|
  {
    FlatAt(c);
    FlatAt(c');
    if c.kwds != [] { assert Flat(c')[|c.args|].eq == Mark; }
    if c'.kwds != [] { assert Flat(c)[|c'.args|].eq == Mark; }
  }

  lemma TailInjective(c: Call, c': Call)
    requires |c.args| == |c'.args| && |c.kwds| == |c'.kwds|
    ensures EqObjs(Tail(c), Tail(c')) <==> SameTypes(c.args, c'.args) && SameKwdTypes(c.kwds, c'.kwds)
  {
    TailAt(c);
    TailAt(c');
    var n := |c.args|;
    if EqObjs(Tail(c), Tail(c')) {
      forall i | 0 <= i < n ensures c.args[i].ty == c'.args[i].ty {
        assert Tail(c)[i].eq == Tail(c')[i].eq;
      }
      forall i | 0 <= i < |c.kwds| ensures c.kwds[i].1.ty == c'.kwds[i].1.ty {
        assert Tail(c)[n + i].eq == Tail(c')[n + i].eq;
      }
    }
    if SameTypes(c.args, c'.args) && SameKwdTypes(c.kwds, c'.kwds) {
      forall i | 0 <= i < |Tail(c)| ensures Tail(c)[i].eq == Tail(c')[i].eq {
        if i >= n { assert Tail(c)[n + (i - n)] == TypeOf(c.kwds[i - n].1); }
      }
    }
  }

  lemma ClassesEqual(a: seq<Obj>, b: seq<Obj>)
    ensures Classes(a) == Classes(b) <==> EqObjs(a, b)
  {
    if Classes(a) == Classes(b) {
      forall i | 0 <= i < |a| ensures a[i].eq == b[i].eq { assert Classes(a)[i] == Classes(b)[i]; }
    }
  }

  lemma TypedItems(c: Call)
    ensures MakeKey(c, true) == HashedSeq(Flat(c) + Tail(c))
  {
    var key := Flat(c);
    if c.kwds == [] {
      assert Types(Values(c.kwds)) == [];
      assert key + Types(c.args) + [] == key + Tail(c);
    } else {
      assert key + Types(c.args) + Types(Values(c.kwds)) == key + Tail(c);
    }
  }

  lemma EqObjsConcat(a: seq<Obj>, b: seq<Obj>, a': seq<Obj>, b': seq<Obj>)
    requires |a| == |a'|
    ensures EqObjs(a + b, a' + b') <==> EqObjs(a, a') && EqObjs(b, b')
  {
    if EqObjs(a + b, a' + b') {
      forall i | 0 <= i < |a| ensures a[i].eq == a'[i].eq { assert (a + b)[i].eq == (a' + b')[i].eq; }
      forall i | 0 <= i < |b| ensures b[i].eq == b'[i].eq {
        assert (a + b)[|a| + i].eq == (a' + b')[|a'| + i].eq;
      }
    }
  }

  /** The first mark of a typed key stands after its positional arguments. */
  lemma TypedLengths(c: Call, c': Call)
    requires MarkFree(c) && MarkFree(c') && EqObjs(Flat(c) + Tail(c), Flat(c') + Tail(c'))
    ensures |c.args| == |c'.args| && |c.kwds| == |c'.kwds|
  {
    FlatAt(c);
    FlatAt(c');
    TailAt(c);
    TailAt(c');
    TypedMark(c);
    TypedMark(c');
    var x, y := Flat(c) + Tail(c), Flat(c') + Tail(c');
    if c.kwds != [] { assert x[|c.args|].eq == y[|c.args|].eq; }
    if c'.kwds != [] { assert x[|c'.args|].eq == y[|c'.args|].eq; }
  }

  lemma TypedMark(c: Call)
    requires MarkFree(c)
    ensures var x := Flat(c) + Tail(c);
      forall i :: 0 <= i < |x| ==> (x[i].eq == Mark <==> i == |c.args| && c.kwds != [])
  {
    FlatAt(c);
    TailAt(c);
    var x, n := Flat(c) + Tail(c), |Flat(c)|;
    forall i | 0 <= i < |x| ensures x[i].eq == Mark <==> i == |c.args| && c.kwds != [] {
      if i >= n {
        assert x[i] == Tail(c)[i - n];
        if i - n >= |c.args| { assert Tail(c)[|c.args| + (i - n - |c.args|)] == TypeOf(c.kwds[i - n - |c.args|].1); }
      }
    }
  }

  /** Two calls get equal keys exactly when the cache may take them for the same. */
  lemma KeysMatchCalls(c: Call, c': Call, typed: bool)
    requires MarkFree(c) && MarkFree(c')
    ensures ClassOf(MakeKey(c, typed)) == ClassOf(MakeKey(c', typed)) <==> SameCall(c, c', typed)
  {
    var x, y := Flat(c), Flat(c');
    FlatInjective(c, c');
    if typed {
      TypedItems(c);
      TypedItems(c');
      ClassesEqual(x + Tail(c), y + Tail(c'));
      if EqObjs(x + Tail(c), y + Tail(c')) { TypedLengths(c, c'); }
      if |c.args| == |c'.args| && |c.kwds| == |c'.kwds| {
        FlatAt(c);
        FlatAt(c');
        EqObjsConcat(x, Tail(c), y, Tail(c'));
        TailInjective(c, c');
      }
    } else {
      UntypedKeysMatch(c, c');
    }
  }

  lemma UntypedKeysMatch(c: Call, c': Call)
    requires MarkFree(c) && MarkFree(c')
    ensures ClassOf(MakeKey(c, false)) == ClassOf(MakeKey(c', false)) <==> SameCall(c, c', false)
  {
    var x, y := Flat(c), Flat(c');
    FlatInjective(c, c');
    FlatAt(c);
    FlatAt(c');
    ClassesEqual(x, y);
    assert |x| == 1 ==> x[0].eq != Mark && IsLone(c) && x[0] == c.args[0];
    assert |y| == 1 ==> y[0].eq != Mark && IsLone(c') && y[0] == c'.args[0];
  }
}
