/** `_bounded_lru_cache_wrapper`: a dictionary and a circular doubly linked list
    with a moving root, which refine the sequence of `LruSpec`. */
module LruCache {
  import opened Basics
  import opened LruSpec

  /** A list cell `[PREV, NEXT, KEY, RESULT]`. */
  class Link<K, V> {
    var prev: Link<K, V>
    var next: Link<K, V>
    var key: Option<K>
    var result: Option<V>

    constructor Root()
      ensures prev == this && next == this && key == None && result == None
    {
      prev, next, key, result := this, this, None, None;
    }

    constructor (prev: Link<K, V>, next: Link<K, V>, key: K, result: V)
      ensures this.prev == prev && this.next == next && this.key == Some(key) && this.result == Some(result)
    {
      this.prev, this.next, this.key, this.result := prev, next, Some(key), Some(result);
    }
  }

  /** Index after and before `i` on a cycle of `n`. */
  function After(i: nat, n: nat): nat {
    if i + 1 == n then 0 else i + 1
  }

  function Before(i: nat, n: nat): int {
    if i == 0 then n - 1 else i - 1
  }

  /** The links form one doubly linked cycle, in the order of `ring`. */
  ghost predicate IsRing<K, V>(ring: seq<Link<K, V>>)
    reads (set x | x in ring)`prev, (set x | x in ring)`next
  {
    && |ring| > 0
    && Distinct(ring)
    && (forall i {:trigger ring[i].next} :: 0 <= i < |ring| ==> ring[i].next == ring[After(i, |ring|)])
    && (forall i {:trigger ring[i].prev} :: 0 <= i < |ring| ==> ring[i].prev == ring[Before(i, |ring|)])
  }

  /** `s` without its element at `i`. */
  function Spliced<T>(s: seq<T>, i: nat): seq<T>
    requires i < |s|
  {
    seq(|s| - 1, j requires 0 <= j < |s| - 1 => if j < i then s[j] else s[j + 1])
  }

  lemma SplicedAt<T>(s: seq<T>, i: nat)
    requires i < |s|
    ensures |Spliced(s, i)| == |s| - 1
    ensures forall j :: 0 <= j < |s| - 1 ==> Spliced(s, i)[j] == s[if j < i then j else j + 1]
  {
  }

  lemma SplicedDistinct<T>(s: seq<T>, i: nat)
    requires i < |s| && Distinct(s)
    ensures Distinct(Spliced(s, i)) && s[i] !in Spliced(s, i)
  {
    hide Spliced;
    SplicedAt(s, i);
    var r := Spliced(s, i);
    forall j, k | 0 <= j < k < |r| ensures r[j] != r[k] {
      assert r[j] == s[if j < i then j else j + 1] && r[k] == s[if k < i then k else k + 1];
    }
    forall j | 0 <= j < |r| ensures r[j] != s[i] {
      assert r[j] == s[if j < i then j else j + 1];
    }
  }

  /** The cycle with the link at `i` passed over in both directions. */
  ghost predicate Bridged<K, V>(ring: seq<Link<K, V>>, i: nat)
    requires 0 < i < |ring|
    reads (set x | x in ring)`prev, (set x | x in ring)`next
  {
    && (forall j {:trigger ring[j].next} :: 0 <= j < |ring| && j != i ==>
          ring[j].next == ring[if j == i - 1 then After(i, |ring|) else After(j, |ring|)])
    && (forall j {:trigger ring[j].prev} :: 0 <= j < |ring| && j != i ==>
          ring[j].prev == ring[if j == After(i, |ring|) then i - 1 else Before(j, |ring|)])
  }

  lemma BridgedIsRing<K, V>(ring: seq<Link<K, V>>, i: nat)
    requires Distinct(ring) && 0 < i < |ring| && Bridged(ring, i)
    ensures IsRing(Spliced(ring, i)) && ring[i] !in Spliced(ring, i)
  {
    var n, rest := |ring|, Spliced(ring, i);
    SplicedDistinct(ring, i);
    SplicedAt(ring, i);
    hide Spliced; hide Distinct;
    forall j {:trigger rest[j].next} | 0 <= j < n - 1 ensures rest[j].next == rest[After(j, n - 1)] {
      var at := if j < i then j else j + 1;
      assert rest[j] == ring[at];
    }
    forall j {:trigger rest[j].prev} | 0 <= j < n - 1 ensures rest[j].prev == rest[Before(j, n - 1)] {
      var at := if j < i then j else j + 1;
      assert rest[j] == ring[at];
    }
  }

  /** Takes a link out of the cycle; its own pointers stay as they are. */
  method Unlink<K, V>(link: Link<K, V>, ghost ring: seq<Link<K, V>>, ghost i: nat)
    requires IsRing(ring) && 0 < i < |ring| && ring[i] == link
    modifies (set x | x in ring)`prev, (set x | x in ring)`next
    ensures IsRing(Spliced(ring, i)) && link !in Spliced(ring, i)
  {
    var linkPrev, linkNext := link.prev, link.next;
    assert linkPrev == ring[i - 1] && linkNext == ring[After(i, |ring|)];
    linkPrev.next := linkNext;
    linkNext.prev := linkPrev;
    BridgedIsRing(ring, i);
  }

  /** Puts a link, new or taken out before, in front of the root as the newest. */
  method LinkNewest<K, V>(link: Link<K, V>, root: Link<K, V>, ghost ring: seq<Link<K, V>>)
    requires IsRing(ring) && ring[0] == root && link !in ring
    modifies link`prev, link`next, (set x | x in ring)`prev, (set x | x in ring)`next
    ensures IsRing(ring + [link])
  {
    var last := root.prev;
    last.next := link;
    root.prev := link;
    link.prev := last;
    link.next := root;
  }

  /** The links after the root store the entries, and the dictionary finds each
      under its key. */
  ghost predicate Matches<K, V>(ring: seq<Link<K, V>>, es: seq<Entry<K, V>>, cache: map<K, Link<K, V>>)
    reads (set x | x in ring)`key, (set x | x in ring)`result
  {
    && |ring| == |es| + 1
    && (forall i :: 0 <= i < |es| ==> Stores(ring[i + 1], es[i], cache))
    && (forall k :: k in cache ==> Has(es, k))
  }

  ghost predicate Stores<K, V>(x: Link<K, V>, e: Entry<K, V>, cache: map<K, Link<K, V>>)
    reads x`key, x`result
  {
    x.key == Some(e.key) && x.result == Some(e.result) && e.key in cache && cache[e.key] == x
  }

  lemma TouchIndex<K, V>(es: seq<Entry<K, V>>, key: K)
    requires Has(es, key)
    ensures forall i :: 0 <= i < |es| ==> Touch(es, key)[i] == es[Was(i, IndexOf(es, key), |es|)]
  {
    LastIndex(es, IndexOf(es, key));
  }

  lemma LastIndex<T>(s: seq<T>, j: nat)
    requires j < |s|
    ensures forall i :: 0 <= i < |s| ==> (s[..j] + s[j + 1..] + [s[j]])[i] == s[Was(i, j, |s|)]
  {
  }

  /** A hit keeps every entry and moves one to the end. */
  lemma TouchAt<K, V>(es: seq<Entry<K, V>>, key: K)
    requires Has(es, key)
    ensures forall i :: 0 <= i < |es| ==> Touch(es, key)[i] == es[Was(i, IndexOf(es, key), |es|)]
    ensures forall k :: Has(es, k) ==> Has(Touch(es, key), k)
  {
    hide Touch;
    TouchIndex(es, key);
    var j := IndexOf(es, key);
    forall k | Has(es, k) ensures Has(Touch(es, key), k) {
      var i := IndexOf(es, k);
      var now := if i == j then |es| - 1 else if i < j then i else i - 1;
      assert Touch(es, key)[now] == es[Was(now, j, |es|)] == es[i];
    }
  }

  /** Where the element now at `i` was before the one at `j` of `n` went to the end. */
  function Was(i: nat, j: nat, n: nat): nat {
    if i == n - 1 then j else if i < j then i else i + 1
  }

  /** The cycle after its link at `i` went to the end. */
  function Moved<T>(s: seq<T>, i: nat): seq<T>
    requires i < |s|
  {
    Spliced(s, i) + [s[i]]
  }

  lemma MovedAt<T>(s: seq<T>, i: nat)
    requires 0 < i < |s|
    ensures |Moved(s, i)| == |s| && Moved(s, i)[0] == s[0]
    ensures forall j :: 0 < j < |s| ==> Moved(s, i)[j] == s[Was(j - 1, i - 1, |s| - 1) + 1]
    ensures forall x :: x in Moved(s, i) ==> x in s
  {
  }

  /** A hit moves its link to the newest end. */
  method MoveToEnd<K, V>(link: Link<K, V>, root: Link<K, V>, ghost ring: seq<Link<K, V>>, ghost i: nat)
    requires IsRing(ring) && 0 < i < |ring| && ring[0] == root && ring[i] == link
    modifies (set x | x in ring)`prev, (set x | x in ring)`next
    ensures IsRing(Moved(ring, i))
  {
    hide IsRing;
    MovedAt(ring, i);
    Unlink(link, ring, i);
    LinkNewest(link, root, Spliced(ring, i));
  }

  lemma TouchMatches<K, V>(ring: seq<Link<K, V>>, es: seq<Entry<K, V>>, cache: map<K, Link<K, V>>, key: K)
    requires Matches(ring, es, cache) && Has(es, key)
    ensures Matches(Moved(ring, IndexOf(es, key) + 1), Touch(es, key), cache)
  {
    hide Touch; hide Moved; hide Stores;
    var j := IndexOf(es, key);
    var now, entries := Moved(ring, j + 1), Touch(es, key);
    TouchAt(es, key);
    MovedAt(ring, j + 1);
    forall i | 0 <= i < |es| ensures Stores(now[i + 1], entries[i], cache) {
      var was := Was(i, j, |es|);
      assert Stores(ring[was + 1], es[was], cache);
    }
  }

  /** The dictionary holds exactly the keys of the entries. */
  lemma DictionaryFinds<K, V>(ring: seq<Link<K, V>>, es: seq<Entry<K, V>>, cache: map<K, Link<K, V>>, key: K)
    requires Matches(ring, es, cache)
    ensures key in cache <==> Has(es, key)
    ensures Has(es, key) ==> var i := IndexOf(es, key);
              i + 1 < |ring| && cache[key] == ring[i + 1] && cache[key].result == Some(es[i].result)
  {
    if Has(es, key) {
      var i := IndexOf(es, key);
      assert Stores(ring[i + 1], es[i], cache);
    }
  }

  predicate HasKeyAt<K(==), V>(es: seq<Entry<K, V>>, i: nat, key: K) {
    i < |es| && es[i].key == key
  }

  /** A hit gives the result of the entry and makes it the newest; a miss changes nothing. */
  ghost predicate LookedUp<K, V>(es: seq<Entry<K, V>>, key: K, result: Option<V>, es': seq<Entry<K, V>>) {
    if result.None? then es' == es && forall i: nat :: !HasKeyAt(es, i, key)
    else exists i: nat :: HasKeyAt(es, i, key) && es[i].result == result.value
                          && es' == es[..i] + es[i + 1..] + [es[i]]
  }

  /** A key that is there leaves everything as it is; a new one is the newest, and the oldest
      goes if there were `maxsize`. */
  ghost predicate Stored<K, V>(es: seq<Entry<K, V>>, key: K, result: V, maxsize: nat, es': seq<Entry<K, V>>) {
    if exists i: nat :: HasKeyAt(es, i, key) then es' == es
    else es' == (if 0 < |es| == maxsize then es[1..] else es) + [Entry(key, result)]
  }

  lemma TouchLooksUp<K, V>(es: seq<Entry<K, V>>, key: K)
    ensures LookedUp(es, key, Find(es, key), AfterLookup(es, key))
  {
    if Has(es, key) { assert HasKeyAt(es, IndexOf(es, key), key); }
  }

  lemma StoreStores<K, V>(es: seq<Entry<K, V>>, key: K, result: V, maxsize: nat)
    requires maxsize > 0 && |es| <= maxsize
    ensures Stored(es, key, result, maxsize, AfterStore(es, key, result, maxsize))
  {
    if Has(es, key) { assert HasKeyAt(es, IndexOf(es, key), key); }
  }

  lemma CacheGrows<K, V>(cache: map<K, Link<K, V>>, key: K, link: Link<K, V>)
    requires key !in cache
    ensures |cache[key := link]| == |cache| + 1
  {
    assert cache[key := link].Keys == cache.Keys + {key};
  }

  lemma RingIsDistinct<K, V>(ring: seq<Link<K, V>>)
    requires IsRing(ring)
    ensures |ring| > 0 && Distinct(ring)
  {
  }

  lemma SecondLink<K, V>(ring: seq<Link<K, V>>)
    requires IsRing(ring) && |ring| > 1
    ensures ring[0].next == ring[1]
  {
  }

  lemma MatchesSize<K, V>(ring: seq<Link<K, V>>, es: seq<Entry<K, V>>, cache: map<K, Link<K, V>>)
    requires Matches(ring, es, cache)
    ensures |ring| == |es| + 1
  {
  }

  lemma LoneRoot<K, V>(root: Link<K, V>)
    requires root.next == root && root.prev == root
    ensures IsRing([root]) && Matches([root], [], map[])
  {
  }

  /** The cycle read from its second link on. */
  function Rotated<T>(s: seq<T>): (r: seq<T>)
    requires |s| > 0
    ensures |r| == |s|
  {
    seq(|s|, i requires 0 <= i < |s| => s[After(i, |s|)])
  }

  lemma RotatedIsRing<K, V>(ring: seq<Link<K, V>>)
    requires IsRing(ring)
    ensures IsRing(Rotated(ring)) && Rotated(ring)[0] == ring[After(0, |ring|)]
    ensures forall x :: x in Rotated(ring) ==> x in ring
  {
    var n, now := |ring|, Rotated(ring);
    forall i, j | 0 <= i < j < n ensures now[i] != now[j] {
      assert now[i] == ring[After(i, n)] && now[j] == ring[After(j, n)];
    }
    forall i {:trigger now[i].next} | 0 <= i < n ensures now[i].next == now[After(i, n)] {
      assert now[i] == ring[After(i, n)];
    }
    forall i {:trigger now[i].prev} | 0 <= i < n ensures now[i].prev == now[Before(i, n)] {
      assert now[i] == ring[After(i, n)];
    }
  }

  /** A new link in front of the root. */
  method AppendNew<K, V>(root: Link<K, V>, key: K, result: V, ghost ring: seq<Link<K, V>>)
    returns (link: Link<K, V>)
    requires IsRing(ring) && ring[0] == root
    modifies (set x | x in ring)`prev, (set x | x in ring)`next
    ensures fresh(link) && link.key == Some(key) && link.result == Some(result)
    ensures IsRing(ring + [link])
  {
    var last := root.prev;
    link := new Link(last, root, key, result);
    last.next := link;
    root.prev := link;
  }

  lemma AppendMatches<K, V>(ring: seq<Link<K, V>>, es: seq<Entry<K, V>>, cache: map<K, Link<K, V>>,
                            link: Link<K, V>, e: Entry<K, V>)
    requires Matches(ring, es, cache) && !Has(es, e.key)
    requires link.key == Some(e.key) && link.result == Some(e.result)
    ensures Matches(ring + [link], es + [e], cache[e.key := link])
  {
    var now, entries, cache' := ring + [link], es + [e], cache[e.key := link];
    forall i | 0 <= i < |entries| ensures Stores(now[i + 1], entries[i], cache') {
      if i < |es| { assert Stores(ring[i + 1], es[i], cache); }
    }
    forall k | k in cache' ensures Has(entries, k) {
      assert entries[if k == e.key then |es| else IndexOf(es, k)].key == k;
    }
  }

  /** All that matching asks, but for what the oldest link stores. */
  ghost predicate OthersMatch<K, V>(ring: seq<Link<K, V>>, es: seq<Entry<K, V>>, cache: map<K, Link<K, V>>)
    requires |ring| > 1
    reads (set x | x in ring[2..])`key, (set x | x in ring[2..])`result
  {
    && |ring| == |es| + 1
    && (forall i :: 0 <= i < |es| - 1 ==> Stores(ring[2..][i], es[i + 1], cache))
    && es[0].key in cache && cache[es[0].key] == ring[1]
    && (forall k :: k in cache ==> Has(es, k))
  }

  lemma MatchesOthers<K, V>(ring: seq<Link<K, V>>, es: seq<Entry<K, V>>, cache: map<K, Link<K, V>>)
    requires Matches(ring, es, cache) && |ring| > 1 && Distinct(ring)
    ensures OthersMatch(ring, es, cache) && ring[1].key == Some(es[0].key)
    ensures ring[0] != ring[1] && ring[0] !in ring[2..] && ring[1] !in ring[2..]
  {
    assert Stores(ring[1], es[0], cache);
    forall i | 0 <= i < |es| - 1 ensures Stores(ring[2..][i], es[i + 1], cache) {
      assert Stores(ring[i + 2], es[i + 1], cache);
    }
  }

  /** Filling the old root and emptying the oldest link keeps the match; the other
      links are as they were. */
  lemma RotateMatches<K, V>(ring: seq<Link<K, V>>, es: seq<Entry<K, V>>, cache: map<K, Link<K, V>>,
                            e: Entry<K, V>)
    requires |ring| > 1 && Distinct(ring) && OthersMatch(ring, es, cache)
    requires e.key !in cache
    requires ring[0].key == Some(e.key) && ring[0].result == Some(e.result)
    ensures Matches(Rotated(ring), es[1..] + [e], (cache - {es[0].key})[e.key := ring[0]])
    ensures |(cache - {es[0].key})[e.key := ring[0]]| == |cache|
  {
    var now, entries := Rotated(ring), es[1..] + [e];
    var cache' := (cache - {es[0].key})[e.key := ring[0]];
    forall i | 0 <= i < |entries| ensures Stores(now[i + 1], entries[i], cache') {
      if i + 1 < |es| {
        assert Stores(ring[2..][i], es[i + 1], cache);
        assert ring[i + 2] != ring[1];
      }
    }
    forall k | k in cache' ensures Has(entries, k) {
      if k == e.key {
        assert entries[|es| - 1].key == k;
      } else {
        var i := IndexOf(es, k);
        assert entries[i - 1].key == k;
      }
    }
    assert cache.Keys == (cache.Keys - {es[0].key}) + {es[0].key};
    assert cache'.Keys == (cache.Keys - {es[0].key}) + {e.key};
  }

  /** The root takes the new entry, and the oldest link becomes the root. */
  method MoveRoot<K, V>(root: Link<K, V>, key: K, result: V, ghost ring: seq<Link<K, V>>,
                        ghost es: seq<Entry<K, V>>, ghost cache: map<K, Link<K, V>>)
    returns (newRoot: Link<K, V>, oldkey: K)
    requires IsRing(ring) && Matches(ring, es, cache) && |ring| > 1 && ring[0] == root && key !in cache
    modifies (set x | x in ring)`key, (set x | x in ring)`result
    ensures newRoot == ring[1] && oldkey == es[0].key
    ensures var cache' := (cache - {oldkey})[key := root];
      Matches(Rotated(ring), es[1..] + [Entry(key, result)], cache') && |cache'| == |cache|
  {
    hide Matches; hide IsRing; hide OthersMatch; hide Rotated; hide Distinct;
    RingIsDistinct(ring);
    MatchesOthers(ring, es, cache);
    SecondLink(ring);
    root.key, root.result := Some(key), Some(result);
    newRoot := root.next;
    oldkey := newRoot.key.value;
    newRoot.key, newRoot.result := None, None;
    RotateMatches(ring, es, cache, Entry(key, result));
  }

  class BoundedLruCache<K(==), V> {
    const maxsize: nat
    var cache: map<K, Link<K, V>>
    var root: Link<K, V>
    var full: bool
    var hits: nat
    var misses: nat
    ghost var ring: seq<Link<K, V>>     // the links from the root on, oldest entry first
    ghost var entries: seq<Entry<K, V>> // what the links after the root store
    ghost var repr: set<object>         // the links the cache has used

    ghost predicate Valid()
      reads this, repr
    {
      && this !in repr && (forall x :: x in ring ==> x in repr)
      && IsRing(ring) && ring[0] == root
      && Matches(ring, entries, cache)
      && |entries| == |cache| <= maxsize && maxsize > 0
      && (full <==> |cache| == maxsize)
    }

    constructor (maxsize: nat)
      requires maxsize > 0
      ensures Valid() && fresh(repr) && this.maxsize == maxsize
      ensures entries == [] && hits == misses == 0
    {
      this.maxsize := maxsize;
      var r := new Link<K, V>.Root();
      root, ring, entries, cache, full, hits, misses := r, [r], [], map[], false, 0, 0;
      repr := {r};
    }

    /** The first critical section of a call: a hit moves the entry to the newest end. */
    method Lookup(key: K) returns (result: Option<V>)
      requires Valid()
      modifies this, repr
      ensures Valid() && repr == old(repr)
      ensures result == Find(old(entries), key)
      ensures entries == AfterLookup(old(entries), key)
      ensures LookedUp(old(entries), key, result, entries)
      ensures hits == old(hits) + (if result.Some? then 1 else 0)
      ensures misses == old(misses) + (if result.Some? then 0 else 1)
    {
      hide Matches; hide Touch; hide IsRing; hide Moved; hide Distinct; hide LookedUp;
      DictionaryFinds(ring, entries, cache, key);
      TouchLooksUp(entries, key);
      if key in cache {
        var link := cache[key];
        result := link.result;
        ghost var i := IndexOf(entries, key) + 1;
        TouchMatches(ring, entries, cache, key);
        MovedAt(ring, i);
        MoveToEnd(link, root, ring, i);
        ring, entries := Moved(ring, i), Touch(entries, key);
        hits := hits + 1;
      } else {
        misses := misses + 1;
        result := None;
      }
    }

    /** The second critical section: a key that is already there is left alone, and a
        new one drops the oldest entry of a full cache. */
    method Store(key: K, result: V)
      requires Valid()
      modifies this, repr
      ensures Valid() && fresh(repr - old(repr))
      ensures entries == AfterStore(old(entries), key, result, maxsize)
      ensures Stored(old(entries), key, result, maxsize, entries)
      ensures hits == old(hits) && misses == old(misses)
    {
      hide Stored;
      DictionaryFinds(ring, entries, cache, key);
      StoreStores(entries, key, result, maxsize);
      if key in cache {
      } else if full {
        StoreFull(key, result);
      } else {
        StoreMore(key, result);
      }
    }

    method StoreMore(key: K, result: V)
      requires Valid() && !full && !Has(entries, key)
      modifies this, repr
      ensures Valid() && fresh(repr - old(repr))
      ensures entries == old(entries) + [Entry(key, result)]
      ensures hits == old(hits) && misses == old(misses)
    {
      hide Matches; hide IsRing; hide Distinct; hide IndexOf; hide Has;
      RingIsDistinct(ring);
      DictionaryFinds(ring, entries, cache, key);
      var link := AppendNew(root, key, result, ring);
      AppendMatches(ring, entries, cache, link, Entry(key, result));
      CacheGrows(cache, key, link);
      cache := cache[key := link];
      full := |cache| >= maxsize;
      ring, entries, repr := ring + [link], entries + [Entry(key, result)], repr + {link};
    }

    method StoreFull(key: K, result: V)
      requires Valid() && full && !Has(entries, key)
      modifies this, repr
      ensures Valid() && repr == old(repr)
      ensures entries == old(entries)[1..] + [Entry(key, result)]
      ensures hits == old(hits) && misses == old(misses)
    {
      hide Matches; hide IsRing; hide Rotated; hide Distinct; hide IndexOf; hide Has;
      RingIsDistinct(ring);
      DictionaryFinds(ring, entries, cache, key);
      MatchesSize(ring, entries, cache);
      RotatedIsRing(ring);
      var newRoot, oldkey := MoveRoot(root, key, result, ring, entries, cache);
      var others := cache - {oldkey};
      root, cache := newRoot, others[key := root];
      ring, entries := Rotated(ring), entries[1..] + [Entry(key, result)];
    }

    method CacheClear()
      requires Valid()
      modifies this, repr
      ensures Valid() && repr == old(repr)
      ensures entries == [] && hits == misses == 0
    {
      hide Matches; hide IsRing;
      RingIsDistinct(ring);
      cache := map[];
      root.prev, root.next, root.key, root.result := root, root, None, None;
      ring, entries := [root], [];
      LoneRoot(root);
      hits, misses, full := 0, 0, false;
    }
  }
}
