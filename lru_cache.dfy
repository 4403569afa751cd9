/**
 * LRU cache (LRUCache/LRUCache.java): a map from keys to list nodes plus the
 * doubly linked list that keeps the entries most recently used first.
 *
 * The abstract state is the sequence of entries, most recently used first;
 * `Put`, `Get` and `Remove` below say what each operation does to it, and
 * the class `LRUCache` is proved to follow them.
 */
module LruCache {
  import opened Wrappers
  import opened LinkedList

  datatype Entry<K, V> = Entry(key: K, value: V)

  /** What put does when it must evict from an empty list: removeLast unlinks
    * the head sentinel, whose previous link is null. */
  datatype CacheError = NullPointerException

  /** No key occurs twice. */
  ghost predicate DistinctKeys<K, V>(s: seq<Entry<K, V>>)
  {
    forall i, j :: 0 <= i < j < |s| ==> s[i].key != s[j].key
  }

  ghost function KeysOf<K, V>(s: seq<Entry<K, V>>): set<K>
  {
    set e | e in s :: e.key
  }

  /** The value stored under `k`, if any. */
  ghost function Lookup<K, V>(s: seq<Entry<K, V>>, k: K): (r: Option<V>)
    ensures r.None? <==> k !in KeysOf(s)
  {
    if s == [] then None
    else if s[0].key == k then Some(s[0].value)
    else
      assert KeysOf(s) == {s[0].key} + KeysOf(s[1..]);
      Lookup(s[1..], k)
  }

  /** `s` without the entry for `k`, the others in their order. */
  ghost function Without<K, V>(s: seq<Entry<K, V>>, k: K): seq<Entry<K, V>>
  {
    if s == [] then []
    else if s[0].key == k then Without(s[1..], k)
    else [s[0]] + Without(s[1..], k)
  }

  /** put(k, v): an existing entry is updated and becomes the most recent;
    * a new one is put in front, after evicting the least recently used entry
    * when the cache holds exactly `capacity` entries. */
  ghost function AfterPut<K, V>(s: seq<Entry<K, V>>, k: K, v: V, capacity: int): Result<seq<Entry<K, V>>, CacheError>
  {
    if k in KeysOf(s) then Ok([Entry(k, v)] + Without(s, k))
    else if |s| == capacity then
      if s == [] then Err(NullPointerException) else Ok([Entry(k, v)] + s[..|s| - 1])
    else Ok([Entry(k, v)] + s)
  }

  /** get(k): the value, if any, and the entries with `k` made the most recent. */
  ghost function AfterGet<K, V>(s: seq<Entry<K, V>>, k: K): (Option<V>, seq<Entry<K, V>>)
  {
    match Lookup(s, k)
    case None => (None, s)
    case Some(v) => (Some(v), [Entry(k, v)] + Without(s, k))
  }

  /** remove(k). */
  ghost function AfterRemove<K, V>(s: seq<Entry<K, V>>, k: K): seq<Entry<K, V>>
  {
    Without(s, k)
  }

  lemma {:induction false} WithoutSpec<K, V>(s: seq<Entry<K, V>>, k: K)
    ensures KeysOf(Without(s, k)) == KeysOf(s) - {k}
    ensures forall k' :: k' != k ==> Lookup(Without(s, k), k') == Lookup(s, k')
    ensures Lookup(Without(s, k), k).None?
    ensures DistinctKeys(s) ==> DistinctKeys(Without(s, k))
    ensures |Without(s, k)| <= |s|
    ensures DistinctKeys(s) && k in KeysOf(s) ==> |Without(s, k)| == |s| - 1
  {
    if s != [] {
      WithoutSpec(s[1..], k);
      assert KeysOf(s) == {s[0].key} + KeysOf(s[1..]);
      if s[0].key != k {
        var w := Without(s, k);
        assert w == [s[0]] + Without(s[1..], k);
        assert KeysOf(w) == {s[0].key} + KeysOf(Without(s[1..], k));
        if DistinctKeys(s) {
          forall e | e in s[1..]
            ensures e.key != s[0].key
          {
            var j :| 0 <= j < |s[1..]| && s[1..][j] == e;
            assert e == s[j + 1];
          }
          assert DistinctKeys(s[1..]);
          forall i, j | 0 <= i < j < |w|
            ensures w[i].key != w[j].key
          {
            if i == 0 {
              assert w[j] in Without(s[1..], k);
            }
          }
        }
      } else if DistinctKeys(s) {
        assert forall j :: 0 <= j < |s[1..]| ==> s[1..][j].key != k by {
          forall j | 0 <= j < |s[1..]|
            ensures s[1..][j].key != k
          {
            assert s[1..][j] == s[j + 1];
          }
        }
        WithoutAbsent(s[1..], k);
      }
    }
  }

  /** With distinct keys, dropping `k` is deleting the one position that holds it. */
  lemma {:induction false} WithoutIsRemoveAt<K, V>(s: seq<Entry<K, V>>, i: int)
    requires DistinctKeys(s) && 0 <= i < |s|
    ensures Without(s, s[i].key) == RemoveAt(s, i)
  {
    if i == 0 {
      WithoutAbsent(s[1..], s[0].key);
      assert RemoveAt(s, 0) == s[1..];
    } else {
      WithoutIsRemoveAt(s[1..], i - 1);
      assert RemoveAt(s, i) == [s[0]] + RemoveAt(s[1..], i - 1);
    }
  }

  lemma AbsentKey<K, V>(s: seq<Entry<K, V>>, k: K)
    requires forall j :: 0 <= j < |s| ==> s[j].key != k
    ensures k !in KeysOf(s)
  {
    forall e | e in s
      ensures e.key != k
    {
      var j :| 0 <= j < |s| && s[j] == e;
    }
  }

  /** Dropping an absent key changes nothing. */
  lemma {:induction false} WithoutAbsent<K, V>(s: seq<Entry<K, V>>, k: K)
    requires forall j :: 0 <= j < |s| ==> s[j].key != k
    ensures Without(s, k) == s
  {
    if s != [] {
      WithoutAbsent(s[1..], k);
    }
  }

  lemma LookupFirst<K, V>(s: seq<Entry<K, V>>, k: K, v: V)
    ensures Lookup([Entry(k, v)] + s, k) == Some(v)
  {
  }

  /** With distinct keys, the entry at `p` is what its key looks up. */
  lemma {:induction false} LookupAt<K, V>(s: seq<Entry<K, V>>, p: int)
    requires DistinctKeys(s) && 0 <= p < |s|
    ensures Lookup(s, s[p].key) == Some(s[p].value)
  {
    if p > 0 {
      assert DistinctKeys(s[1..]) by {
        forall i, j | 0 <= i < j < |s[1..]|
          ensures s[1..][i].key != s[1..][j].key
        {
          assert s[1..][i] == s[i + 1] && s[1..][j] == s[j + 1];
        }
      }
      LookupAt(s[1..], p - 1);
      assert s[0].key != s[p].key;
    }
  }

  /** Whatever put did, the key now maps to the new value and is the most recent. */
  lemma PutThenGet<K, V>(s: seq<Entry<K, V>>, k: K, v: V, capacity: int)
    requires AfterPut(s, k, v, capacity).Ok?
    ensures AfterGet(AfterPut(s, k, v, capacity).value, k) == (Some(v), AfterPut(s, k, v, capacity).value)
  {
    var t := AfterPut(s, k, v, capacity).value;
    assert t[0] == Entry(k, v);
    LookupFirst(t[1..], k, v);
    assert t == [Entry(k, v)] + t[1..];
    WithoutAbsentAfterPut(s, k, v, capacity);
    assert Without(t, k) == Without(t[1..], k);
  }

  lemma WithoutAbsentAfterPut<K, V>(s: seq<Entry<K, V>>, k: K, v: V, capacity: int)
    requires AfterPut(s, k, v, capacity).Ok?
    ensures Without(AfterPut(s, k, v, capacity).value[1..], k) == AfterPut(s, k, v, capacity).value[1..]
  {
    var t := AfterPut(s, k, v, capacity).value;
    if k in KeysOf(s) {
      WithoutIdempotent(s, k);
      assert t[1..] == Without(s, k);
    } else {
      forall j | 0 <= j < |t[1..]|
        ensures t[1..][j].key != k
      {
        assert t[1..][j] in s;
      }
      WithoutAbsent(t[1..], k);
    }
  }

  lemma {:induction false} WithoutIdempotent<K, V>(s: seq<Entry<K, V>>, k: K)
    ensures Without(Without(s, k), k) == Without(s, k)
  {
    if s != [] {
      WithoutIdempotent(s[1..], k);
    }
  }

  /** Put never touches another key, except the least recently used one it evicts. */
  lemma PutOtherKeys<K, V>(s: seq<Entry<K, V>>, k: K, v: V, capacity: int, k': K)
    requires DistinctKeys(s) && AfterPut(s, k, v, capacity).Ok? && k' != k
    ensures var evicted := k !in KeysOf(s) && |s| == capacity && s[|s| - 1].key == k';
      Lookup(AfterPut(s, k, v, capacity).value, k') == if evicted then None else Lookup(s, k')
  {
    var t := AfterPut(s, k, v, capacity).value;
    assert Lookup(t, k') == Lookup(t[1..], k');
    if k in KeysOf(s) {
      WithoutSpec(s, k);
    } else if |s| == capacity {
      PutEvicts(s, k, v, capacity);
      assert t[1..] == s[..|s| - 1];
      DropLastLookup(s, k');
    } else {
      assert t[1..] == s;
    }
  }

  /** Dropping the least recently used entry forgets its key and no other. */
  lemma DropLastLookup<K, V>(s: seq<Entry<K, V>>, k': K)
    requires DistinctKeys(s) && s != []
    ensures Lookup(s[..|s| - 1], k') == if s[|s| - 1].key == k' then None else Lookup(s, k')
  {
    var n := |s| - 1;
    var front := s[..n];
    assert s == front + [s[n]];
    LookupSplit(front, s[n], k');
    if s[n].key == k' {
      forall j | 0 <= j < |front|
        ensures front[j].key != k'
      {
        assert front[j] == s[j];
      }
      AbsentKey(front, k');
    }
  }

  lemma {:induction false} LookupSplit<K, V>(s: seq<Entry<K, V>>, e: Entry<K, V>, k: K)
    ensures Lookup(s + [e], k) == if k in KeysOf(s) then Lookup(s, k) else if e.key == k then Some(e.value) else None
  {
    if s != [] {
      assert (s + [e])[1..] == s[1..] + [e];
      assert KeysOf(s) == {s[0].key} + KeysOf(s[1..]);
      LookupSplit(s[1..], e, k);
    }
  }

  /** A new key meeting a full, non-empty cache replaces the least recently used entry. */
  lemma PutEvicts<K, V>(s: seq<Entry<K, V>>, k: K, v: V, capacity: int)
    requires k !in KeysOf(s) && |s| == capacity && s != []
    ensures AfterPut(s, k, v, capacity) == Ok([Entry(k, v)] + s[..|s| - 1])
  {
  }

  /** Put keeps keys distinct, grows by at most one entry and never above a
    * non-negative capacity it started within. */
  lemma PutBounded<K, V>(s: seq<Entry<K, V>>, k: K, v: V, capacity: int)
    requires DistinctKeys(s) && AfterPut(s, k, v, capacity).Ok?
    ensures DistinctKeys(AfterPut(s, k, v, capacity).value)
    ensures |AfterPut(s, k, v, capacity).value| == if k in KeysOf(s) || |s| == capacity then |s| else |s| + 1
    ensures 0 <= |s| <= capacity ==> |AfterPut(s, k, v, capacity).value| <= capacity
    ensures KeysOf(AfterPut(s, k, v, capacity).value) <= KeysOf(s) + {k}
  {
    var t := AfterPut(s, k, v, capacity).value;
    WithoutSpec(s, k);
    var rest := t[1..];
    assert t == [Entry(k, v)] + rest;
    assert DistinctKeys(rest) && k !in KeysOf(rest) by {
      if k in KeysOf(s) {
        assert rest == Without(s, k);
      } else if |s| == capacity {
        assert rest == s[..|s| - 1];
        assert KeysOf(rest) <= KeysOf(s);
      } else {
        assert rest == s;
      }
    }
    assert KeysOf(rest) <= KeysOf(s) by {
      if !(k in KeysOf(s)) && |s| == capacity {
        forall e | e in rest
          ensures e in s
        {
        }
      }
    }
    assert KeysOf(t) == {k} + KeysOf(rest);
    forall i, j | 0 <= i < j < |t|
      ensures t[i].key != t[j].key
    {
      if i == 0 {
        assert t[j] in rest;
      } else {
        assert t[i] == rest[i - 1] && t[j] == rest[j - 1];
      }
    }
  }

  /** An error only when a new key meets a cache of capacity zero. */
  lemma PutFailsOnlyAtCapacityZero<K, V>(s: seq<Entry<K, V>>, k: K, v: V, capacity: int)
    requires capacity >= 0 ==> |s| <= capacity
    ensures AfterPut(s, k, v, capacity).Err? <==> capacity == 0 && k !in KeysOf(s)
  {
  }

  /** get(k) finds what was stored, keeps the key set and moves `k` to the front. */
  lemma GetKeepsEntries<K, V>(s: seq<Entry<K, V>>, k: K)
    requires DistinctKeys(s)
    ensures AfterGet(s, k).0 == Lookup(s, k)
    ensures KeysOf(AfterGet(s, k).1) == KeysOf(s) && |AfterGet(s, k).1| == |s|
    ensures forall k' :: Lookup(AfterGet(s, k).1, k') == Lookup(s, k')
    ensures DistinctKeys(AfterGet(s, k).1)
    ensures Lookup(s, k).Some? ==> AfterGet(s, k).1[0].key == k
  {
    if Lookup(s, k).Some? {
      WithoutSpec(s, k);
      var v := Lookup(s, k).value;
      var t := [Entry(k, v)] + Without(s, k);
      assert KeysOf(t) == {k} + KeysOf(Without(s, k));
      forall i, j | 0 <= i < j < |t|
        ensures t[i].key != t[j].key
      {
        if i == 0 {
          assert t[j] in Without(s, k);
        }
      }
    }
  }

  /** An entry that was just read survives the next put of another key when the
    * capacity is at least two: eviction takes the least recently used entry. */
  lemma RecentlyUsedSurvives<K, V>(s: seq<Entry<K, V>>, k: K, k2: K, v2: V, capacity: int)
    requires DistinctKeys(s) && Lookup(s, k).Some? && k2 != k && capacity >= 2
    requires AfterPut(AfterGet(s, k).1, k2, v2, capacity).Ok?
    ensures Lookup(AfterPut(AfterGet(s, k).1, k2, v2, capacity).value, k) == Lookup(s, k)
  {
    var t := AfterGet(s, k).1;
    GetKeepsEntries(s, k);
    PutOtherKeys(t, k2, v2, capacity, k);
    if k2 !in KeysOf(t) && |t| == capacity {
      assert t[|t| - 1].key != t[0].key;
    }
  }

  /** remove(k) forgets `k` and nothing else. */
  lemma RemoveForgets<K, V>(s: seq<Entry<K, V>>, k: K)
    ensures Lookup(AfterRemove(s, k), k).None?
    ensures forall k' :: k' != k ==> Lookup(AfterRemove(s, k), k') == Lookup(s, k')
  {
    WithoutSpec(s, k);
  }

  /** The entries a sequence of list nodes holds, in list order. */
  ghost function EntriesOf<K(0), V(0)>(ns: seq<Node<K, V>>): (r: seq<Entry<K, V>>)
    reads ns
    ensures |r| == |ns|
    ensures forall i :: 0 <= i < |ns| ==> r[i] == Entry(ns[i].key, ns[i].value)
  {
    seq(|ns|, i requires 0 <= i < |ns| reads ns => Entry(ns[i].key, ns[i].value))
  }

  /** Moving the node at `p` to the front moves its entry to the front. */
  lemma EntriesMoved<K(0), V(0)>(ns: seq<Node<K, V>>, p: int)
    requires 0 <= p < |ns|
    ensures EntriesOf([ns[p]] + RemoveAt(ns, p)) == [EntriesOf(ns)[p]] + RemoveAt(EntriesOf(ns), p)
  {
    var ms := [ns[p]] + RemoveAt(ns, p);
    var c := EntriesOf(ns);
    var d := [c[p]] + RemoveAt(c, p);
    forall i | 0 <= i < |ms|
      ensures EntriesOf(ms)[i] == d[i]
    {
      if 0 < i <= p {
        assert ms[i] == ns[i - 1] && d[i] == c[i - 1];
      } else if p < i {
        assert ms[i] == ns[i] && d[i] == c[i];
      }
    }
  }

  /** Unlinking the node at `p` drops its entry. */
  lemma EntriesRemoved<K(0), V(0)>(ns: seq<Node<K, V>>, p: int)
    requires 0 <= p < |ns|
    ensures EntriesOf(RemoveAt(ns, p)) == RemoveAt(EntriesOf(ns), p)
  {
    var c := EntriesOf(ns);
    forall i | 0 <= i < |ns| - 1
      ensures EntriesOf(RemoveAt(ns, p))[i] == RemoveAt(c, p)[i]
    {
      if i >= p {
        assert RemoveAt(ns, p)[i] == ns[i + 1];
      }
    }
  }

  lemma EntriesFirst<K(0), V(0)>(ns: seq<Node<K, V>>)
    requires ns != []
    ensures EntriesOf(ns) == [Entry(ns[0].key, ns[0].value)] + EntriesOf(ns[1..])
  {
    var r := [Entry(ns[0].key, ns[0].value)] + EntriesOf(ns[1..]);
    forall i | 0 < i < |ns|
      ensures EntriesOf(ns)[i] == r[i]
    {
      assert ns[1..][i - 1] == ns[i];
    }
  }

  /** The keys the nodes of `ns` hold. */
  ghost function KeySet<K(0), V(0)>(ns: seq<Node<K, V>>): set<K>
  {
    if ns == [] then {} else {ns[0].key} + KeySet(ns[1..])
  }

  lemma {:induction false} KeySetConcat<K(0), V(0)>(a: seq<Node<K, V>>, b: seq<Node<K, V>>)
    ensures KeySet(a + b) == KeySet(a) + KeySet(b)
  {
    if a == [] {
      assert a + b == b;
    } else {
      assert (a + b)[0] == a[0] && (a + b)[1..] == a[1..] + b;
      KeySetConcat(a[1..], b);
    }
  }

  lemma {:induction false} KeyIndex<K(0), V(0)>(ns: seq<Node<K, V>>, k: K) returns (i: int)
    requires k in KeySet(ns)
    ensures 0 <= i < |ns| && ns[i].key == k
  {
    if ns[0].key == k {
      i := 0;
    } else {
      i := KeyIndex(ns[1..], k);
      i := i + 1;
    }
  }

  /** `cache` maps each key to the one node of `ns` that holds it, and back. */
  ghost predicate Linked<K(0), V(0)>(cache: map<K, Node<K, V>>, ns: seq<Node<K, V>>)
  {
    && (forall i :: 0 <= i < |ns| ==> ns[i].key in cache && cache[ns[i].key] == ns[i])
    && cache.Keys == KeySet(ns)
    && |cache| == |ns|
  }

  /** Linked nodes hold pairwise different keys. */
  lemma LinkedKeysDiffer<K(0), V(0)>(cache: map<K, Node<K, V>>, ns: seq<Node<K, V>>)
    requires Linked(cache, ns) && Distinct(ns)
    ensures forall i, j :: 0 <= i < j < |ns| ==> ns[i].key != ns[j].key
  {
    forall i, j | 0 <= i < j < |ns|
      ensures ns[i].key != ns[j].key
    {
      assert cache[ns[i].key] == ns[i] && cache[ns[j].key] == ns[j];
    }
  }

  /** Entries over linked nodes have distinct keys, exactly the keys of the map. */
  lemma LinkedKeys<K(0), V(0)>(cache: map<K, Node<K, V>>, ns: seq<Node<K, V>>, c: seq<Entry<K, V>>)
    requires Linked(cache, ns) && Distinct(ns) && |c| == |ns|
    requires forall i :: 0 <= i < |ns| ==> c[i].key == ns[i].key
    ensures DistinctKeys(c) && cache.Keys == KeysOf(c)
  {
    LinkedKeysDiffer(cache, ns);
    forall k | k in cache
      ensures k in KeysOf(c)
    {
      var i := KeyIndex(ns, k);
      assert c[i] in c;
    }
    forall k | k in KeysOf(c)
      ensures k in cache
    {
      var e :| e in c && e.key == k;
      var i :| 0 <= i < |c| && c[i] == e;
      assert ns[i].key == k;
    }
  }

  /** Taking out the node at `p` takes out its key and only that. */
  lemma KeySetRemoveAt<K(0), V(0)>(cache: map<K, Node<K, V>>, ns: seq<Node<K, V>>, p: int)
    requires Linked(cache, ns) && Distinct(ns) && 0 <= p < |ns|
    ensures KeySet(RemoveAt(ns, p)) == KeySet(ns) - {ns[p].key}
    ensures KeySet(ns) == KeySet(RemoveAt(ns, p)) + {ns[p].key}
  {
    LinkedKeysDiffer(cache, ns);
    assert ns == ns[..p] + [ns[p]] + ns[p + 1..];
    KeySetConcat(ns[..p] + [ns[p]], ns[p + 1..]);
    KeySetConcat(ns[..p], [ns[p]]);
    KeySetConcat(ns[..p], ns[p + 1..]);
    assert RemoveAt(ns, p) == ns[..p] + ns[p + 1..];
    assert KeySet([ns[p]]) == {ns[p].key};
    forall k | k in KeySet(RemoveAt(ns, p))
      ensures k != ns[p].key
    {
      var j := KeyIndex(RemoveAt(ns, p), k);
      assert RemoveAt(ns, p)[j] == if j < p then ns[j] else ns[j + 1];
    }
  }

  lemma LinkedMove<K(0), V(0)>(cache: map<K, Node<K, V>>, ns: seq<Node<K, V>>, p: int)
    requires Linked(cache, ns) && Distinct(ns) && 0 <= p < |ns|
    ensures Linked(cache, [ns[p]] + RemoveAt(ns, p))
  {
    var ms := [ns[p]] + RemoveAt(ns, p);
    KeySetRemoveAt(cache, ns, p);
    KeySetConcat([ns[p]], RemoveAt(ns, p));
    assert KeySet([ns[p]]) == {ns[p].key};
    forall i | 0 <= i < |ms|
      ensures ms[i].key in cache && cache[ms[i].key] == ms[i]
    {
      if 0 < i <= p {
        assert ms[i] == ns[i - 1];
      } else if p < i {
        assert ms[i] == ns[i];
      }
    }
  }

  lemma LinkedRemove<K(0), V(0)>(cache: map<K, Node<K, V>>, ns: seq<Node<K, V>>, p: int)
    requires Linked(cache, ns) && Distinct(ns) && 0 <= p < |ns|
    ensures Linked(cache - {ns[p].key}, RemoveAt(ns, p))
  {
    var c := cache - {ns[p].key};
    var ms := RemoveAt(ns, p);
    KeySetRemoveAt(cache, ns, p);
    LinkedKeysDiffer(cache, ns);
    forall i | 0 <= i < |ms|
      ensures ms[i].key in c && c[ms[i].key] == ms[i]
    {
      assert ms[i] == if i < p then ns[i] else ns[i + 1];
    }
    assert c.Keys == cache.Keys - {ns[p].key};
  }

  lemma LinkedEvict<K(0), V(0)>(cache: map<K, Node<K, V>>, ns: seq<Node<K, V>>)
    requires Linked(cache, ns) && Distinct(ns) && |ns| > 0
    ensures Linked(cache - {ns[|ns| - 1].key}, ns[..|ns| - 1])
  {
    LinkedRemove(cache, ns, |ns| - 1);
    assert RemoveAt(ns, |ns| - 1) == ns[..|ns| - 1];
  }

  lemma LinkedAdd<K(0), V(0)>(cache: map<K, Node<K, V>>, ns: seq<Node<K, V>>, n: Node<K, V>)
    requires Linked(cache, ns) && n.key !in cache
    ensures Linked(cache[n.key := n], [n] + ns)
  {
    assert ([n] + ns)[1..] == ns;
  }

  class LRUCache<K(==, 0), V(0)> {
    const capacity: int
    const list: DoubleLinkedList<K, V>
    var cache: map<K, Node<K, V>>

    /** The cached entries, most recently used first. */
    ghost function Contents(): seq<Entry<K, V>>
      reads list, list.Spine
      requires |list.Spine| >= 2
    {
      EntriesOf(list.Nodes())
    }

    ghost predicate Valid()
      reads this, list, list.Spine`next, list.Spine`previous
    {
      list.Valid() && this !in list.Repr && Linked(cache, list.Nodes())
    }

    constructor (capacity: int)
      ensures Valid() && fresh(list.Repr)
      ensures this.capacity == capacity && Contents() == []
    {
      this.capacity := capacity;
      list := new DoubleLinkedList();
      cache := map[];
    }

    /** The entries are read off the nodes. */
    lemma SameEntries(ns: seq<Node<K, V>>, c: seq<Entry<K, V>>)
      requires |list.Spine| >= 2 && list.Nodes() == ns && |c| == |ns|
      requires forall i :: 0 <= i < |ns| ==> c[i] == Entry(ns[i].key, ns[i].value)
      ensures Contents() == c
    {
    }

    /** The facts about the entries that Valid implies. */
    lemma ValidEntries()
      requires Valid()
      ensures DistinctKeys(Contents()) && cache.Keys == KeysOf(Contents())
      ensures |cache| == |Contents()|
      ensures Contents() == [] <==> list.head.next == list.tail
    {
      list.NodesDistinct();
      LinkedKeys(cache, list.Nodes(), Contents());
      assert list.head.next == list.Spine[1];
    }

    /** put(key, value). */
    method Put(key: K, value: V) returns (r: Result<(), CacheError>)
      requires Valid()
      modifies this, list.Repr
      ensures Valid()
      ensures match AfterPut(old(Contents()), key, value, capacity)
        case Ok(t) => r.Ok? && Contents() == t
        case Err(e) => r == Err(e) && Contents() == old(Contents())
    {
      ghost var c := Contents();
      ValidEntries();
      if key in cache {
        Update(key, value);
        assert Contents() == [Entry(key, value)] + Without(c, key);
      } else {
        ghost var kept := c;
        if |cache| == capacity {
          if list.head.next == list.tail {
            // removeLast would unlink the head sentinel, whose previous link is null
            assert c == [];
            return Err(NullPointerException);
          }
          EvictLeastRecent();
          kept := c[..|c| - 1];
        }
        assert Contents() == kept;
        InsertFirst(key, value);
        assert Contents() == [Entry(key, value)] + kept;
      }
      r := Ok(());
    }

    /** put of a cached key: the node takes the new value and moves to the front. */
    method Update(key: K, value: V)
      requires Valid() && key in cache
      modifies list.Repr
      ensures Valid()
      ensures Contents() == [Entry(key, value)] + Without(old(Contents()), key)
    {
      var node := cache[key];
      Touch(key);
      SetValue(node, value);
    }

    /** node.value = value, on the most recent entry. */
    method SetValue(node: Node<K, V>, value: V)
      requires Valid() && list.Nodes() != [] && list.Nodes()[0] == node
      modifies node
      ensures Valid()
      ensures Contents() == [Entry(node.key, value)] + old(Contents())[1..]
    {
      ghost var ms := list.Nodes();
      ghost var rest := EntriesOf(ms[1..]);
      list.FirstOnce();
      node.value := value;
      assert EntriesOf(ms[1..]) == rest;
      EntriesFirst(ms);
    }

    /** moveToFront of the node cached under `key`: its entry becomes the most recent. */
    method Touch(key: K)
      requires Valid() && key in cache
      modifies list.Repr
      ensures Valid() && list.Nodes() != [] && list.Nodes()[0] == cache[key]
      ensures Lookup(old(Contents()), key) == Some(cache[key].value)
      ensures Contents() == [Entry(key, cache[key].value)] + Without(old(Contents()), key)
    {
      ghost var ns := list.Nodes();
      ghost var c := Contents();
      ValidEntries();
      list.NodesDistinct();
      ghost var p := KeyIndex(ns, key);
      var node := cache[key];
      assert ns[p] == node && c[p] == Entry(key, node.value);
      WithoutIsRemoveAt(c, p);
      LookupAt(c, p);
      list.MoveToFront(node);
      assert list.Nodes() == [node] + RemoveAt(ns, p);
      LinkedMove(cache, ns, p);
      assert EntriesOf(ns) == c;
      EntriesMoved(ns, p);
    }

    /** get(key): the cached value, if any; a hit makes the entry the most recent. */
    method Get(key: K) returns (r: Option<V>)
      requires Valid()
      modifies list.Repr
      ensures Valid()
      ensures (r, Contents()) == AfterGet(old(Contents()), key)
    {
      if key in cache {
        var node := cache[key];
        Touch(key);
        r := Some(node.value);
      } else {
        ValidEntries();
        r := None;
      }
    }

    /** remove(key): unlinks the entry's node and drops the key from the map. */
    method Remove(key: K)
      requires Valid()
      modifies this, list.Repr
      ensures Valid()
      ensures Contents() == AfterRemove(old(Contents()), key)
    {
      if key in cache {
        Unlink(key);
      } else {
        ghost var c := Contents();
        ValidEntries();
        forall j | 0 <= j < |c|
          ensures c[j].key != key
        {
          assert c[j] in c;
        }
        WithoutAbsent(c, key);
      }
    }

    /** The cached key's node leaves the list and the key leaves the map. */
    method Unlink(key: K)
      requires Valid() && key in cache
      modifies this, list.Repr
      ensures Valid()
      ensures Contents() == Without(old(Contents()), key)
    {
      Detach(key);
      cache := cache - {key};
    }

    /** list.remove of the node cached under `key`; the map is left to the caller. */
    method Detach(key: K)
      requires Valid() && key in cache
      modifies list.Repr
      ensures list.Valid() && list.Repr == old(list.Repr) && Linked(cache - {key}, list.Nodes())
      ensures Contents() == Without(old(Contents()), key)
    {
      ghost var c := Contents();
      ValidEntries();
      ghost var ns := list.Nodes();
      list.NodesDistinct();
      ghost var p := KeyIndex(ns, key);
      var node := cache[key];
      assert ns[p] == node && c[p].key == key;
      WithoutIsRemoveAt(c, p);
      assert list.Position(node) == p + 1;
      list.Remove(node);
      assert list.Nodes() == RemoveAt(ns, p);
      assert EntriesOf(ns) == c;
      EntriesRemoved(ns, p);
      LinkedRemove(cache, ns, p);
    }

    /** removeLast, and the evicted key leaves the map. */
    method EvictLeastRecent()
      requires Valid() && Contents() != []
      modifies this, list.Repr
      ensures Valid()
      ensures Contents() == old(Contents()[..|Contents()| - 1])
      ensures cache.Keys <= old(cache.Keys) && list.Repr == old(list.Repr)
    {
      ghost var ns := list.Nodes();
      ghost var c := Contents();
      list.NodesDistinct();
      var lru := list.RemoveLast();
      ghost var ms := list.Nodes();
      assert ms == ns[..|ns| - 1];
      LinkedEvict(cache, ns);
      cache := cache - {lru.key};
      assert Linked(cache, ms);
      SameEntries(ms, c[..|c| - 1]);
    }

    /** A new node for `key` in front of every other entry. */
    method InsertFirst(key: K, value: V)
      requires Valid() && key !in cache
      modifies this, list.Repr
      ensures Valid()
      ensures Contents() == [Entry(key, value)] + old(Contents())
    {
      ghost var c := Contents();
      ghost var ms := list.Nodes();
      assert forall i :: 0 <= i < |ms| ==> c[i] == Entry(ms[i].key, ms[i].value);
      var newNode := new Node(key, value);
      assert newNode !in ms;
      list.AddFirst(newNode);
      ghost var ns := list.Nodes();
      assert ns == [newNode] + ms;
      LinkedAdd(cache, ms, newNode);
      cache := cache[key := newNode];
      assert Linked(cache, ns);
      ghost var d := [Entry(key, value)] + c;
      forall i | 0 <= i < |ns|
        ensures d[i] == Entry(ns[i].key, ns[i].value)
      {
        if i > 0 {
          assert ns[i] == ms[i - 1] && d[i] == c[i - 1];
        }
      }
      SameEntries(ns, d);
    }
  }
}
