/** A bounded LRU cache as a plain sequence of entries, oldest first. */
module LruSpec {
  import opened Basics

  datatype Entry<K, V> = Entry(key: K, result: V)

  function IndexOf<K(==), V>(es: seq<Entry<K, V>>, k: K): (i: int)
    ensures -1 <= i < |es|
    ensures i >= 0 ==> es[i].key == k
    ensures forall j :: 0 <= j < |es| && (i < 0 || j < i) ==> es[j].key != k
  {
    if es == [] then -1
    else if es[0].key == k then 0
    else var i := IndexOf(es[1..], k);
      assert forall j :: 0 < j < |es| ==> es[j] == es[1..][j - 1];
      if i < 0 then -1 else i + 1
  }

  predicate Has<K(==), V>(es: seq<Entry<K, V>>, k: K) {
    IndexOf(es, k) >= 0
  }

  /** A hit makes the entry the newest. */
  function Touch<K(==), V>(es: seq<Entry<K, V>>, k: K): (r: seq<Entry<K, V>>)
    requires Has(es, k)
    ensures |r| == |es|
  {
    var i := IndexOf(es, k);
    es[..i] + es[i + 1..] + [es[i]]
  }

  function Find<K(==), V>(es: seq<Entry<K, V>>, k: K): Option<V> {
    if Has(es, k) then Some(es[IndexOf(es, k)].result) else None
  }

  function AfterLookup<K(==), V>(es: seq<Entry<K, V>>, k: K): seq<Entry<K, V>> {
    if Has(es, k) then Touch(es, k) else es
  }

  /** A new entry drops the oldest one when the cache is full. */
  function AfterStore<K(==), V>(es: seq<Entry<K, V>>, k: K, v: V, maxsize: nat): seq<Entry<K, V>>
    requires maxsize > 0
  {
    if Has(es, k) then es
    else if |es| >= maxsize then es[1..] + [Entry(k, v)]
    else es + [Entry(k, v)]
  }

  // ----- recency -----

  function Keys<K, V>(es: seq<Entry<K, V>>): (ks: seq<K>)
    ensures |ks| == |es|
    ensures forall i :: 0 <= i < |es| ==> ks[i] == es[i].key
  {
    seq(|es|, i requires 0 <= i < |es| => es[i].key)
  }

  function Without<K(==)>(ks: seq<K>, k: K): seq<K> {
    if ks == [] then []
    else (if ks[0] == k then [] else [ks[0]]) + Without(ks[1..], k)
  }

  /** The keys ever used, each once, in the order of their last uses. */
  function ByLastUse<K(==)>(uses: seq<K>): seq<K> {
    if uses == [] then []
    else
      var k := uses[|uses| - 1];
      Without(ByLastUse(uses[..|uses| - 1]), k) + [k]
  }

  function Newest<K>(ks: seq<K>, n: nat): seq<K> {
    if |ks| <= n then ks else ks[|ks| - n..]
  }

  /** What one use does to the keys: a hit, or a miss and the store after it. */
  function UseKey<K(==)>(ks: seq<K>, k: K, maxsize: nat): seq<K>
    requires maxsize > 0
  {
    if k in ks then Without(ks, k) + [k]
    else if |ks| >= maxsize then ks[1..] + [k]
    else ks + [k]
  }

  function UseAll<K(==)>(uses: seq<K>, maxsize: nat): seq<K>
    requires maxsize > 0
  {
    if uses == [] then []
    else UseKey(UseAll(uses[..|uses| - 1], maxsize), uses[|uses| - 1], maxsize)
  }

  lemma {:induction false} WithoutConcat<K>(a: seq<K>, b: seq<K>, k: K)
    ensures Without(a + b, k) == Without(a, k) + Without(b, k)
    decreases |a|
  {
    if a == [] {
      assert a + b == b;
    } else {
      assert (a + b)[1..] == a[1..] + b;
      WithoutConcat(a[1..], b, k);
    }
  }

  lemma {:induction false} WithoutAbsent<K>(ks: seq<K>, k: K)
    requires k !in ks
    ensures Without(ks, k) == ks
  {
    if ks != [] { WithoutAbsent(ks[1..], k); }
  }

  /** In a sequence without repetitions a key goes from one place. */
  lemma {:induction false} WithoutAt<K>(ks: seq<K>, i: nat)
    requires Distinct(ks) && i < |ks|
    ensures Without(ks, ks[i]) == ks[..i] + ks[i + 1..]
    decreases |ks|
  {
    var rest := ks[1..];
    assert Distinct(rest);
    if i == 0 {
      WithoutAbsent(rest, ks[0]);
    } else {
      WithoutAt(rest, i - 1);
      assert ks[..i] == [ks[0]] + rest[..i - 1];
      assert ks[i + 1..] == rest[i..];
    }
  }

  lemma {:induction false} ByLastUseDistinct<K>(uses: seq<K>)
    ensures Distinct(ByLastUse(uses))
    decreases |uses|
  {
    if uses != [] {
      var k, ks := uses[|uses| - 1], ByLastUse(uses[..|uses| - 1]);
      ByLastUseDistinct(uses[..|uses| - 1]);
      if i :| 0 <= i < |ks| && ks[i] == k {
        WithoutAt(ks, i);
      } else {
        WithoutAbsent(ks, k);
      }
    }
  }

  lemma DropConcat<K>(a: seq<K>, b: seq<K>, d: nat)
    requires d <= |a|
    ensures (a + b)[d..] == a[d..] + b
  {
  }

  lemma UseNewest<K>(ks: seq<K>, k: K, maxsize: nat)
    requires maxsize > 0 && Distinct(ks)
    ensures UseKey(Newest(ks, maxsize), k, maxsize) == Newest(Without(ks, k) + [k], maxsize)
  {
    var d := if |ks| <= maxsize then 0 else |ks| - maxsize;
    var now := Newest(ks, maxsize);
    assert now == ks[d..];
    if k !in ks {
      WithoutAbsent(ks, k);
      UseNewKey(ks, k, maxsize, d);
    } else {
      var i :| 0 <= i < |ks| && ks[i] == k;
      WithoutAt(ks, i);
      UseOldKey(ks, i, maxsize, d);
    }
  }

  lemma UseOldKey<K>(ks: seq<K>, i: nat, maxsize: nat, d: nat)
    requires maxsize > 0 && Distinct(ks) && i < |ks| && d == if |ks| <= maxsize then 0 else |ks| - maxsize
    ensures UseKey(ks[d..], ks[i], maxsize) == Newest(ks[..i] + ks[i + 1..] + [ks[i]], maxsize)
  {
    hide UseKey; hide Distinct;
    var all := ks[..i] + ks[i + 1..] + [ks[i]];
    assert |all| == |ks|;
    assert Newest(all, maxsize) == all[d..];
    if i >= d {
      UseKeptKey(ks, i, maxsize, d);
    } else {
      UseDroppedKey(ks, i, maxsize, d);
    }
  }

  lemma UseKeptKey<K>(ks: seq<K>, i: nat, maxsize: nat, d: nat)
    requires maxsize > 0 && Distinct(ks) && d <= i < |ks|
    ensures UseKey(ks[d..], ks[i], maxsize) == (ks[..i] + ks[i + 1..] + [ks[i]])[d..]
  {
    hide Without;
    KeepsKey(ks, i, d);
    assert ks[d..][i - d] == ks[i] && ks[i] in ks[d..];
    assert Distinct(ks[d..]);
    WithoutAt(ks[d..], i - d);
  }

  lemma UseDroppedKey<K>(ks: seq<K>, i: nat, maxsize: nat, d: nat)
    requires maxsize > 0 && Distinct(ks) && i < d == |ks| - maxsize
    ensures UseKey(ks[d..], ks[i], maxsize) == (ks[..i] + ks[i + 1..] + [ks[i]])[d..]
  {
    hide Without;
    var now := ks[d..];
    forall j | 0 <= j < |now| ensures now[j] != ks[i] { assert now[j] == ks[d + j]; }
    MovesOldKey(ks, i, d);
  }

  lemma UseNewKey<K>(ks: seq<K>, k: K, maxsize: nat, d: nat)
    requires maxsize > 0 && k !in ks && d == if |ks| <= maxsize then 0 else |ks| - maxsize
    ensures UseKey(ks[d..], k, maxsize) == Newest(ks + [k], maxsize)
  {
    assert k !in ks[d..];
    if |ks| >= maxsize {
      DropConcat(ks, [k], d + 1);
      assert ks[d..][1..] == ks[d + 1..];
    } else {
      assert ks[d..] == ks;
    }
  }

  lemma KeepsKey<K>(ks: seq<K>, i: nat, d: nat)
    requires d <= i < |ks|
    ensures ks[d..][i - d] == ks[i]
    ensures ks[d..][..i - d] + ks[d..][i - d + 1..] + [ks[i]] == (ks[..i] + ks[i + 1..] + [ks[i]])[d..]
  {
    assert ks[d..][..i - d] == ks[..i][d..];
    assert ks[d..][i - d + 1..] == ks[i + 1..];
    DropConcat(ks[..i], ks[i + 1..], d);
    DropConcat(ks[..i] + ks[i + 1..], [ks[i]], d);
  }

  lemma MovesOldKey<K>(ks: seq<K>, i: nat, d: nat)
    requires i < d <= |ks| && d > 0
    ensures d < |ks| ==> ks[d..][1..] + [ks[i]] == (ks[..i] + ks[i + 1..] + [ks[i]])[d..]
  {
    if d < |ks| {
      var x := ks[..i] + ks[i + 1..];
      assert forall j :: d <= j < |x| ==> x[j] == ks[j + 1];
      assert x[d..] == ks[d + 1..];
      assert ks[d..][1..] == ks[d + 1..];
      DropConcat(x, [ks[i]], d);
    }
  }

  /** After any run of uses the cache holds exactly the `maxsize` most recently used
      keys, in the order of their last uses. */
  lemma {:induction false} CacheHoldsMostRecent<K>(uses: seq<K>, maxsize: nat)
    requires maxsize > 0
    ensures UseAll(uses, maxsize) == Newest(ByLastUse(uses), maxsize)
    decreases |uses|
  {
    if uses != [] {
      var before := uses[..|uses| - 1];
      CacheHoldsMostRecent(before, maxsize);
      ByLastUseDistinct(before);
      UseNewest(ByLastUse(before), uses[|uses| - 1], maxsize);
    }
  }

  /** `UseKey` is what a lookup and, on a miss, the store after it do to the keys. */
  lemma UseIsLookupThenStore<K, V>(es: seq<Entry<K, V>>, k: K, v: V, maxsize: nat)
    requires maxsize > 0 && Distinct(Keys(es))
    ensures Keys(AfterStore(AfterLookup(es, k), k, v, maxsize)) == UseKey(Keys(es), k, maxsize)
  {
    var ks := Keys(es);
    var i := IndexOf(es, k);
    if i >= 0 {
      assert ks[i] == k;
      WithoutAt(ks, i);
      TouchKeys(es, k);
    } else {
      assert k !in ks;
      if |es| >= maxsize {
        assert Keys(es[1..] + [Entry(k, v)]) == ks[1..] + [k];
      } else {
        assert Keys(es + [Entry(k, v)]) == ks + [k];
      }
    }
  }

  lemma TouchKeys<K, V>(es: seq<Entry<K, V>>, k: K)
    requires Has(es, k)
    ensures Keys(Touch(es, k)) == MovedToEnd(Keys(es), IndexOf(es, k)) && Has(Touch(es, k), k)
  {
    var i := IndexOf(es, k);
    assert Touch(es, k)[|es| - 1].key == k;
    assert Keys(Touch(es, k)) == MovedToEnd(Keys(es), i);
  }

  function MovedToEnd<T>(s: seq<T>, i: nat): seq<T>
    requires i < |s|
  {
    s[..i] + s[i + 1..] + [s[i]]
  }
}
