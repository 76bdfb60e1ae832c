/** Calls of a cached function: the user function runs between the two critical
    sections and may call the cached function again, clear the cache or raise. */
module LruCalls {
  import opened Basics
  import opened CallKeys
  import opened LruSpec
  import LruCache

  type Value(==, !new)

  type Function = Call -> Value

  /** One call, with what its user function does to the same cache while it runs, or
      one `cache_clear`. */
  datatype Activity = Invoke(call: Call, during: seq<Activity>, raises: bool) | Clear

  type Entries = seq<Entry<KeyClass, Value>>

  function KeyOf(c: Call, typed: bool): KeyClass {
    ClassOf(MakeKey(c, typed))
  }

  function Exec(es: Entries, act: Activity, f: Function, typed: bool, maxsize: nat): (Entries, Option<Value>)
    requires maxsize > 0
    decreases act
  {
    match act
    case Clear => ([], None)
    case Invoke(c, during, raises) =>
      var key := KeyOf(c, typed);
      if Has(es, key) then (AfterLookup(es, key), Find(es, key))
      else
        var es1 := ExecAll(es, during, f, typed, maxsize);
        if raises then (es1, None)
        else (AfterStore(es1, key, f(c), maxsize), Some(f(c)))
  }

  function ExecAll(es: Entries, acts: seq<Activity>, f: Function, typed: bool, maxsize: nat): Entries
    requires maxsize > 0
    decreases acts
  {
    if acts == [] then es
    else ExecAll(Exec(es, acts[0], f, typed, maxsize).0, acts[1..], f, typed, maxsize)
  }

  predicate Caches(es: Entries, c: Call, typed: bool) {
    exists i :: 0 <= i < |es| && es[i].key == KeyOf(c, typed)
  }

  /** The user function runs exactly for a call that is not cached; then its own calls go
      first, and unless it raises the call is cached when they are done. A call that raises
      leaves no more than they left, and a hit leaves the same entries. */
  lemma CallOutcome(es: Entries, c: Call, during: seq<Activity>, raises: bool, f: Function, typed: bool, maxsize: nat)
    requires maxsize > 0
    ensures var (es', r) := Exec(es, Invoke(c, during, raises), f, typed, maxsize);
      var inner := ExecAll(es, during, f, typed, maxsize);
      if Caches(es, c, typed) then
        (exists i :: 0 <= i < |es| && es[i].key == KeyOf(c, typed) && r == Some(es[i].result))
        && multiset(es') == multiset(es) && es'[|es'| - 1].key == KeyOf(c, typed)
      else if raises then r == None && es' == inner
      else
        r == Some(f(c)) && Caches(es', c, typed)
        && if Caches(inner, c, typed) then es' == inner else es'[|es'| - 1] == Entry(KeyOf(c, typed), f(c))
    ensures Exec(es, Clear, f, typed, maxsize) == ([], None)
  {
    hide KeyOf;
    var key := KeyOf(c, typed);
    if Has(es, key) {
      var i := IndexOf(es, key);
      assert es == es[..i] + [es[i]] + es[i + 1..];
    } else {
      var inner := ExecAll(es, during, f, typed, maxsize);
      var after := AfterStore(inner, key, f(c), maxsize);
      if Has(inner, key) {
        assert inner[IndexOf(inner, key)].key == key;
      } else {
        assert after[|after| - 1] == Entry(key, f(c));
      }
    }
  }

  /** Calls that return, one after the other. */
  function Invokes(calls: seq<Call>): seq<Activity> {
    seq(|calls|, i requires 0 <= i < |calls| => Invoke(calls[i], [], false))
  }

  function KeysOf(calls: seq<Call>, typed: bool): seq<KeyClass> {
    seq(|calls|, i requires 0 <= i < |calls| => KeyOf(calls[i], typed))
  }

  /** Of any calls made one after the other the cache holds the `maxsize` most recent ones that
      differ, in the order in which they were last made. */
  lemma HoldsMostRecentCalls(calls: seq<Call>, f: Function, typed: bool, maxsize: nat)
    requires maxsize > 0
    ensures Keys(ExecAll([], Invokes(calls), f, typed, maxsize))
         == Newest(ByLastUse(KeysOf(calls, typed)), maxsize)
  {
    CacheHoldsMostRecent(KeysOf(calls, typed), maxsize);
    UsesOneByOne(calls, f, typed, maxsize);
  }

  lemma {:induction false} UsesOneByOne(calls: seq<Call>, f: Function, typed: bool, maxsize: nat)
    requires maxsize > 0
    ensures var es := ExecAll([], Invokes(calls), f, typed, maxsize);
      Keys(es) == UseAll(KeysOf(calls, typed), maxsize) && Distinct(Keys(es))
    decreases |calls|
  {
    hide KeyOf;
    if calls == [] {
      assert Invokes(calls) == [] && KeysOf(calls, typed) == [];
    } else {
      var n := |calls| - 1;
      var before := calls[..n];
      UsesOneByOne(before, f, typed, maxsize);
      var es := ExecAll([], Invokes(before), f, typed, maxsize);
      assert Invokes(calls) == Invokes(before) + [Invoke(calls[n], [], false)];
      LastActivity([], Invokes(before), Invoke(calls[n], [], false), f, typed, maxsize);
      OneUse(es, calls[n], f, typed, maxsize);
      assert KeysOf(calls, typed)[..n] == KeysOf(before, typed);
    }
    UseAllDistinct(KeysOf(calls, typed), maxsize);
  }

  lemma OneUse(es: Entries, c: Call, f: Function, typed: bool, maxsize: nat)
    requires maxsize > 0 && Distinct(Keys(es))
    ensures var es' := Exec(es, Invoke(c, [], false), f, typed, maxsize).0;
      Keys(es') == UseKey(Keys(es), KeyOf(c, typed), maxsize)
  {
    hide KeyOf;
    var key := KeyOf(c, typed);
    UseIsLookupThenStore(es, key, f(c), maxsize);
    if Has(es, key) { TouchKeys(es, key); }
  }

  lemma UseAllDistinct<K>(uses: seq<K>, maxsize: nat)
    requires maxsize > 0
    ensures Distinct(UseAll(uses, maxsize))
  {
    hide UseAll; hide ByLastUse;
    CacheHoldsMostRecent(uses, maxsize);
    ByLastUseDistinct(uses);
  }

  lemma {:induction false} LastActivity(es: Entries, acts: seq<Activity>, act: Activity, f: Function, typed: bool,
                                        maxsize: nat)
    requires maxsize > 0
    ensures ExecAll(es, acts + [act], f, typed, maxsize)
         == Exec(ExecAll(es, acts, f, typed, maxsize), act, f, typed, maxsize).0
    decreases |acts|
  {
    hide Exec;
    if acts == [] {
      assert [] + [act] == [act] && [act][1..] == [];
    } else {
      assert (acts + [act])[1..] == acts[1..] + [act];
      LastActivity(Exec(es, acts[0], f, typed, maxsize).0, acts[1..], act, f, typed, maxsize);
    }
  }

  predicate MarkFreeActivity(act: Activity) {
    match act
    case Clear => true
    case Invoke(c, during, _) => MarkFree(c) && MarkFreeAll(during)
  }

  predicate MarkFreeAll(acts: seq<Activity>) {
    acts == [] || (MarkFreeActivity(acts[0]) && MarkFreeAll(acts[1..]))
  }

  /** The function does not tell calls apart that the cache takes for the same. */
  ghost predicate Respects(f: Function, typed: bool) {
    forall c: Call, c': Call :: MarkFree(c) && MarkFree(c') && SameCall(c, c', typed) ==> f(c) == f(c')
  }

  /** Every entry holds the result of every call with its key. */
  ghost predicate Faithful(es: Entries, f: Function, typed: bool) {
    forall i, c: Call :: 0 <= i < |es| && MarkFree(c) && KeyOf(c, typed) == es[i].key ==> es[i].result == f(c)
  }

  /** The call returns what the function returns. */
  ghost predicate AnswersRight(es: Entries, act: Activity, f: Function, typed: bool, maxsize: nat)
    requires maxsize > 0
  {
    var r := Exec(es, act, f, typed, maxsize).1;
    act.Invoke? && r.Some? ==> r.value == f(act.call)
  }

  lemma StoreIsFaithful(es: Entries, c: Call, f: Function, typed: bool, maxsize: nat)
    requires maxsize > 0 && Respects(f, typed) && MarkFree(c) && Faithful(es, f, typed)
    ensures Faithful(AfterStore(es, KeyOf(c, typed), f(c), maxsize), f, typed)
  {
    forall c': Call | MarkFree(c') && KeyOf(c', typed) == KeyOf(c, typed) ensures f(c') == f(c) {
      KeysMatchCalls(c', c, typed);
    }
  }

  lemma TouchIsFaithful(es: Entries, k: KeyClass, f: Function, typed: bool)
    requires Has(es, k) && Faithful(es, f, typed)
    ensures Faithful(Touch(es, k), f, typed)
  {
    LruCache.TouchAt(es, k);
  }

  /** Under any nesting of calls, clearing and raising, each call, inner ones
      included, starts from a faithful cache and answers right. */
  lemma {:induction false} ExecIsTransparent(es: Entries, act: Activity, f: Function, typed: bool, maxsize: nat)
    requires maxsize > 0 && Respects(f, typed) && Faithful(es, f, typed) && MarkFreeActivity(act)
    ensures Faithful(Exec(es, act, f, typed, maxsize).0, f, typed)
    ensures AnswersRight(es, act, f, typed, maxsize)
    decreases act
  {
    match act
    case Clear =>
    case Invoke(c, during, raises) =>
      var key := KeyOf(c, typed);
      if Has(es, key) {
        TouchIsFaithful(es, key, f, typed);
      } else {
        ExecAllIsFaithful(es, during, f, typed, maxsize);
        StoreIsFaithful(ExecAll(es, during, f, typed, maxsize), c, f, typed, maxsize);
      }
  }

  lemma {:induction false} ExecAllIsFaithful(es: Entries, acts: seq<Activity>, f: Function, typed: bool, maxsize: nat)
    requires maxsize > 0 && Respects(f, typed) && Faithful(es, f, typed) && MarkFreeAll(acts)
    ensures Faithful(ExecAll(es, acts, f, typed, maxsize), f, typed)
    decreases acts
  {
    if acts != [] {
      ExecIsTransparent(es, acts[0], f, typed, maxsize);
      ExecAllIsFaithful(Exec(es, acts[0], f, typed, maxsize).0, acts[1..], f, typed, maxsize);
    }
  }

  /** Every call of every run from an empty cache returns what the function returns. */
  ghost predicate Transparent(f: Function, typed: bool, maxsize: nat)
    requires maxsize > 0
  {
    forall acts: seq<Activity>, act: Activity :: MarkFreeAll(acts) && MarkFreeActivity(act) ==>
      AnswersRight(ExecAll([], acts, f, typed, maxsize), act, f, typed, maxsize)
  }

  /** The cache is transparent exactly for the functions that respect its keys. */
  lemma TransparentIffRespects(f: Function, typed: bool, maxsize: nat)
    requires maxsize > 0
    ensures Transparent(f, typed, maxsize) <==> Respects(f, typed)
  {
    if Respects(f, typed) {
      forall acts: seq<Activity>, act: Activity | MarkFreeAll(acts) && MarkFreeActivity(act)
        ensures AnswersRight(ExecAll([], acts, f, typed, maxsize), act, f, typed, maxsize)
      {
        ExecAllIsFaithful([], acts, f, typed, maxsize);
        ExecIsTransparent(ExecAll([], acts, f, typed, maxsize), act, f, typed, maxsize);
      }
    }
    if Transparent(f, typed, maxsize) {
      forall c: Call, c': Call | MarkFree(c) && MarkFree(c') && SameCall(c, c', typed) ensures f(c) == f(c') {
        SecondCallHits(c, c', f, typed, maxsize);
      }
    }
  }

  /** A call right after one the cache takes for the same returns that one's result. */
  lemma SecondCallAnswer(c: Call, c': Call, f: Function, typed: bool, maxsize: nat)
    requires maxsize > 0 && MarkFree(c) && MarkFree(c') && SameCall(c, c', typed)
    ensures var (first, second) := (Invoke(c, [], false), Invoke(c', [], false));
      && MarkFreeAll([first]) && MarkFreeActivity(second)
      && Exec(ExecAll([], [first], f, typed, maxsize), second, f, typed, maxsize).1 == Some(f(c))
  {
    KeysMatchCalls(c, c', typed);
    var first, second := Invoke(c, [], false), Invoke(c', [], false);
    var key := KeyOf(c, typed);
    var es := [Entry(key, f(c))];
    assert [first][1..] == [];
    assert MarkFreeAll([first][1..]);
    assert MarkFreeActivity(first) && MarkFreeActivity(second);
    assert Exec([], first, f, typed, maxsize).0 == [] + es;
    assert ExecAll([], [first], f, typed, maxsize) == ExecAll(es, [], f, typed, maxsize);
    assert IndexOf(es, key) == 0;
  }

  lemma SecondCallHits(c: Call, c': Call, f: Function, typed: bool, maxsize: nat)
    requires maxsize > 0 && MarkFree(c) && MarkFree(c') && SameCall(c, c', typed)
    requires Transparent(f, typed, maxsize)
    ensures f(c) == f(c')
  {
    SecondCallAnswer(c, c', f, typed, maxsize);
    var first, second := Invoke(c, [], false), Invoke(c', [], false);
    assert AnswersRight(ExecAll([], [first], f, typed, maxsize), second, f, typed, maxsize);
  }

  /** Without `typed`, `f(1, 1)` and `f(1.0, 1)` share an entry: after the first, the
      second returns `f(1, 1)`. A lone `1` and a lone `1.0` do not share one. */
  lemma EqualNumbersShareAnEntry(v: Value, w: Value, maxsize: nat) returns (f: Function, ints: Call, mixed: Call)
    requires maxsize > 0 && v != w
    ensures var (one, oneFloat) := (Obj(Plain(1), INT), Obj(Plain(1), FLOAT));
      && ints == Call([one, one], []) && mixed == Call([oneFloat, one], []) && f(ints) == v && f(mixed) == w
      && Exec(ExecAll([], [Invoke(ints, [], false)], f, false, maxsize), Invoke(mixed, [], false), f, false, maxsize).1
         == Some(v)
      && KeyOf(Call([one], []), false) != KeyOf(Call([oneFloat], []), false)
  {
    var one, oneFloat := Obj(Plain(1), INT), Obj(Plain(1), FLOAT);
    ints, mixed := Call([one, one], []), Call([oneFloat, one], []);
    f := (c: Call) => if c == ints then v else w;
    assert ints.args[0] != mixed.args[0];
    SecondCallAnswer(ints, mixed, f, false, maxsize);
    KeysMatchCalls(Call([one], []), Call([oneFloat], []), false);
  }

  /** The wrapper object. */
  class CachedFunction {
    const userFunction: Function
    const typed: bool
    const cache: LruCache.BoundedLruCache<KeyClass, Value>

    constructor (userFunction: Function, maxsize: nat, typed: bool)
      requires maxsize > 0
      ensures fresh(cache) && fresh(cache.repr) && cache.Valid() && cache.entries == [] && cache.maxsize == maxsize
      ensures this.userFunction == userFunction && this.typed == typed
    {
      var c := new LruCache.BoundedLruCache<KeyClass, Value>(maxsize);
      this.userFunction, this.typed, cache := userFunction, typed, c;
    }

    /** `__call__` and `cache_clear`, under any nesting, do to the ring what `Exec`
        does to the entries. */
    method Run(act: Activity) returns (result: Option<Value>)
      requires cache.Valid()
      modifies cache, cache.repr
      ensures cache.Valid() && fresh(cache.repr - old(cache.repr))
      ensures cache.entries == Exec(old(cache.entries), act, userFunction, typed, cache.maxsize).0
      ensures result == Exec(old(cache.entries), act, userFunction, typed, cache.maxsize).1
      decreases act
    {
      hide LruCache.BoundedLruCache.Valid; hide AfterStore; hide Touch; hide KeyOf; hide IndexOf;
      match act
      case Clear =>
        cache.CacheClear();
        result := None;
      case Invoke(call, during, raises) =>
        var key := KeyOf(call, typed);
        result := cache.Lookup(key);
        if result.None? {
          RunAll(during);
          if !raises {
            var value := userFunction(call);
            cache.Store(key, value);
            result := Some(value);
          }
        }
    }

    method RunAll(acts: seq<Activity>)
      requires cache.Valid()
      modifies cache, cache.repr
      ensures cache.Valid() && fresh(cache.repr - old(cache.repr))
      ensures cache.entries == ExecAll(old(cache.entries), acts, userFunction, typed, cache.maxsize)
      decreases acts
    {
      hide LruCache.BoundedLruCache.Valid; hide Exec;
      if acts != [] {
        var _ := Run(acts[0]);
        RunAll(acts[1..]);
      }
    }
  }
}
