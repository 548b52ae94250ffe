/** A hash table with separate chaining: `hash(key) % capacity` selects a bucket,
    each bucket is a chain of entries (an insert prepends; a resize relinks each old chain,
    head first, onto the front of the new buckets), and the bucket array doubles when the
    load factor exceeds 0.75 at the start of an insert. */
module HashTable {
  import opened Common

  /** HT_INITIAL_CAPACITY: the capacity used when the caller asks for 0. */
  const InitialCapacity: nat := 1024

  /** The load check of `ht_insert` against HT_MAX_LOAD_FACTOR 0.75, written without floating
      point: `size / capacity > 3/4`. */
  predicate Overloaded(size: nat, capacity: nat)
  {
    size * 4 > capacity * 3
  }

  /** One call of a release callback: `free_key` on a key or `free_value` on a value. */
  datatype Release<K, V> = KeyReleased(key: K) | ValueReleased(value: V)

  function Pow2(n: nat): nat
  {
    if n == 0 then 1 else 2 * Pow2(n - 1)
  }

  /** A table whose load was acceptable before its latest insert is no longer overloaded once
      its capacity doubles. */
  lemma DoublingRelievesLoad(size: nat, capacity: nat)
    requires 0 < capacity && (size == 0 || !Overloaded(size - 1, capacity))
    ensures !Overloaded(size, 2 * capacity)
  {
  }

  /** The capacity after `n` doublings of an initial capacity `c`. */
  function Grown(c: nat, n: nat): nat
  {
    if n == 0 then c else 2 * Grown(c, n - 1)
  }

  /** Since capacity only ever doubles, it is the initial capacity times a power of two. */
  lemma {:induction false} GrownIsPow2(c: nat, n: nat)
    ensures Grown(c, n) == c * Pow2(n)
  {
    if n > 0 {
      GrownIsPow2(c, n - 1);
      assert c * Pow2(n) == c * (2 * Pow2(n - 1)) == 2 * (c * Pow2(n - 1));
    }
  }

  /** The value stored under `k` in an abstract map, if any. */
  function Lookup<K(==, !new), V>(m: map<K, V>, k: K): Option<V>
  {
    if k in m then Some(m[k]) else None
  }

  // ---------- Chains ----------

  /** What a scan of one chain from its head finds for `k`: the value of the first entry
      whose key is `k`, or nothing when no entry has that key. */
  function Find<K(==, !new), V>(chain: seq<(K, V)>, k: K): (r: Option<V>)
    ensures r.None? <==> forall t | 0 <= t < |chain| :: chain[t].0 != k
  {
    if |chain| == 0 then None
    else if chain[0].0 == k then Some(chain[0].1)
    else Find(chain[1..], k)
  }

  /** No two entries of a chain carry the same key. */
  ghost predicate UniqueKeys<K(!new), V>(chain: seq<(K, V)>)
  {
    forall a, b | 0 <= a < b < |chain| :: chain[a].0 != chain[b].0
  }

  /** In a chain without duplicate keys the scan finds the one entry carrying `k`. */
  lemma {:induction false} FindUnique<K(!new), V>(chain: seq<(K, V)>, k: K, t: nat)
    requires UniqueKeys(chain) && t < |chain| && chain[t].0 == k
    ensures Find(chain, k) == Some(chain[t].1)
  {
    if t > 0 {
      assert chain[0].0 != k;
      assert UniqueKeys(chain[1..]) by {
        forall a, b | 0 <= a < b < |chain[1..]| ensures chain[1..][a].0 != chain[1..][b].0 {
          assert chain[1..][a] == chain[a + 1] && chain[1..][b] == chain[b + 1];
        }
      }
      FindUnique(chain[1..], k, t - 1);
    }
  }

  /** Appending an entry at the far end only matters to a scan that found nothing before it. */
  lemma {:induction false} FindSnoc<K(!new), V>(chain: seq<(K, V)>, x: (K, V), k: K)
    ensures Find(chain + [x], k) ==
      if Find(chain, k).Some? then Find(chain, k) else if x.0 == k then Some(x.1) else None
  {
    if |chain| == 0 {
      assert chain + [x] == [x];
    } else {
      assert (chain + [x])[1..] == chain[1..] + [x];
      if chain[0].0 != k {
        FindSnoc(chain[1..], x, k);
      }
    }
  }

  // ---------- The bucket array as a sequence of chains ----------

  /** Every entry sits in the bucket its hash selects. */
  ghost predicate Placed<K(!new), V>(s: seq<seq<(K, V)>>, hash: K -> nat)
  {
    forall i, t | 0 <= i < |s| && 0 <= t < |s[i]| :: hash(s[i][t].0) % |s| == i
  }

  ghost predicate ChainsUnique<K(!new), V>(s: seq<seq<(K, V)>>)
  {
    forall i | 0 <= i < |s| :: UniqueKeys(s[i])
  }

  /** Scanning the bucket `hash(k) % |s|` for `k` finds exactly what the map holds for `k`. */
  ghost predicate Agrees<K(!new), V>(s: seq<seq<(K, V)>>, hash: K -> nat, m: map<K, V>)
    requires |s| > 0
  {
    forall k {:trigger Lookup(m, k)} :: Find(s[hash(k) % |s|], k) == Lookup(m, k)
  }

  /** The bucket array `s` represents the map `m`. */
  ghost predicate Table<K(!new), V>(s: seq<seq<(K, V)>>, hash: K -> nat, m: map<K, V>)
  {
    |s| > 0 && Placed(s, hash) && ChainsUnique(s) && Agrees(s, hash, m)
  }

  /** All entries, bucket by bucket in index order and each chain from its head. */
  function Flatten<K(!new), V>(s: seq<seq<(K, V)>>): seq<(K, V)>
  {
    if |s| == 0 then [] else Flatten(s[..|s| - 1]) + s[|s| - 1]
  }

  lemma {:induction false} FlattenAppend<K(!new), V>(a: seq<seq<(K, V)>>, b: seq<seq<(K, V)>>)
    ensures Flatten(a + b) == Flatten(a) + Flatten(b)
    decreases |b|
  {
    if |b| == 0 {
      assert a + b == a;
    } else {
      var b' := b[..|b| - 1];
      assert (a + b)[..|a + b| - 1] == a + b';
      FlattenAppend(a, b');
    }
  }

  /** The chain that bucket `b` of an `n`-bucket array holds after the entries `es`, starting
      from empty buckets, are moved one after another onto the front of their buckets: those
      that land in `b`, the last one moved first. */
  function Relinked<K, V>(es: seq<(K, V)>, hash: K -> nat, n: nat, b: nat): seq<(K, V)>
    requires n > 0
  {
    if |es| == 0 then []
    else (if hash(es[|es| - 1].0) % n == b then [es[|es| - 1]] else []) + Relinked(es[..|es| - 1], hash, n, b)
  }

  /** Moving one more entry `e` puts it at the front of its own bucket and leaves the others. */
  lemma RelinkedSnoc<K, V>(es: seq<(K, V)>, e: (K, V), hash: K -> nat, n: nat, b: nat)
    requires n > 0
    ensures Relinked(es + [e], hash, n, b) ==
      (if hash(e.0) % n == b then [e] else []) + Relinked(es, hash, n, b)
  {
    assert (es + [e])[..|es|] == es;
  }

  /** Relinking loses and invents nothing: bucket `b` holds exactly the entries that hash to it. */
  lemma {:induction false} RelinkedMembers<K, V>(es: seq<(K, V)>, hash: K -> nat, n: nat, b: nat, x: (K, V))
    requires n > 0
    ensures x in Relinked(es, hash, n, b) <==> x in es && hash(x.0) % n == b
    decreases |es|
  {
    if |es| > 0 {
      var es' := es[..|es| - 1];
      assert es == es' + [es[|es| - 1]];
      RelinkedMembers(es', hash, n, b, x);
    }
  }

  /** Every bucket of `nbs` holds what relinking the entries `es` into empty buckets gives it. */
  ghost predicate LaidOut<K, V>(nbs: seq<seq<(K, V)>>, es: seq<(K, V)>, hash: K -> nat)
  {
    |nbs| > 0 && forall c | 0 <= c < |nbs| :: nbs[c] == Relinked(es, hash, |nbs|, c)
  }

  /** One step of the relinking loop: prepending `e` to its bucket turns the buckets for the
      entries `es` into the buckets for `es + [e]`. */
  lemma RelinkedStep<K, V>(nbs: seq<seq<(K, V)>>, es: seq<(K, V)>, e: (K, V), hash: K -> nat, r: seq<seq<(K, V)>>)
    requires LaidOut(nbs, es, hash)
    requires r == nbs[hash(e.0) % |nbs| := [e] + nbs[hash(e.0) % |nbs|]]
    ensures LaidOut(r, es + [e], hash)
  {
    var idx := hash(e.0) % |nbs|;
    forall c | 0 <= c < |nbs| ensures r[c] == Relinked(es + [e], hash, |nbs|, c) {
      RelinkedSnoc(es, e, hash, |nbs|, c);
      if c == idx {
        assert r[c] == [e] + nbs[c];
      } else {
        assert r[c] == nbs[c];
      }
    }
  }

  /** Entries moved later come out in front: relinking `a` and then `c` gives, in every bucket,
      the entries of `c` before those of `a`. */
  lemma {:induction false} RelinkedAppend<K, V>(a: seq<(K, V)>, c: seq<(K, V)>, hash: K -> nat, n: nat, b: nat)
    requires n > 0
    ensures Relinked(a + c, hash, n, b) == Relinked(c, hash, n, b) + Relinked(a, hash, n, b)
    decreases |c|
  {
    if |c| == 0 {
      assert a + c == a;
    } else {
      var c' := c[..|c| - 1];
      var e := c[|c| - 1];
      assert a + c == (a + c') + [e];
      assert c == c' + [e];
      RelinkedSnoc(a + c', e, hash, n, b);
      RelinkedSnoc(c', e, hash, n, b);
      RelinkedAppend(a, c', hash, n, b);
    }
  }

  /** The entries of buckets before `i`, then the first `j` entries of bucket `i`, are a prefix
      of all the entries. */
  lemma FlattenPrefix<K(!new), V>(s: seq<seq<(K, V)>>, i: nat, j: nat)
    requires i < |s| && j <= |s[i]|
    ensures |Flatten(s[..i])| + j <= |Flatten(s)|
    ensures Flatten(s[..i]) + s[i][..j] == Flatten(s)[..|Flatten(s[..i])| + j]
  {
    assert s == s[..i + 1] + s[i + 1..];
    FlattenAppend(s[..i + 1], s[i + 1..]);
    assert s[..i + 1][..i] == s[..i];
  }

  /** Replacing one chain changes the multiset of all entries by exactly that chain's difference. */
  lemma {:induction false} FlattenUpdate<K(!new), V>(s: seq<seq<(K, V)>>, i: nat, c: seq<(K, V)>)
    requires i < |s|
    ensures multiset(Flatten(s[i := c])) + multiset(s[i]) == multiset(Flatten(s)) + multiset(c)
    decreases |s|
  {
    var n := |s| - 1;
    if i == n {
      assert s[i := c][..n] == s[..n];
      assert Flatten(s[i := c]) == Flatten(s[..n]) + c;
    } else {
      assert s[i := c][..n] == s[..n][i := c];
      FlattenUpdate(s[..n], i, c);
      assert Flatten(s[i := c]) == Flatten(s[..n][i := c]) + s[n];
      assert s[..n][i] == s[i];
      ghost var x, y := multiset(Flatten(s[..n][i := c])), multiset(Flatten(s[..n]));
      assert x + multiset(s[i]) == y + multiset(c);
      assert multiset(Flatten(s[i := c])) + multiset(s[i]) == (x + multiset(s[i])) + multiset(s[n]);
    }
  }

  /** Prepending one entry to a chain adds exactly that entry to the multiset of all entries. */
  lemma {:induction false} FlattenPrepend<K(!new), V>(s: seq<seq<(K, V)>>, i: nat, e: (K, V))
    requires i < |s|
    ensures multiset(Flatten(s[i := [e] + s[i]])) == multiset(Flatten(s)) + multiset{e}
    decreases |s|
  {
    var n := |s| - 1;
    var s' := s[i := [e] + s[i]];
    if i == n {
      assert s'[..n] == s[..n];
      assert Flatten(s') == Flatten(s[..n]) + ([e] + s[n]);
    } else {
      assert s'[..n] == s[..n][i := [e] + s[..n][i]];
      FlattenPrepend(s[..n], i, e);
      assert Flatten(s') == Flatten(s[..n][i := [e] + s[..n][i]]) + s[n];
    }
  }

  lemma FlattenUpdateSize<K(!new), V>(s: seq<seq<(K, V)>>, i: nat, c: seq<(K, V)>)
    requires i < |s|
    ensures |Flatten(s[i := c])| == |Flatten(s)| - |s[i]| + |c|
  {
    FlattenUpdate(s, i, c);
    assert |multiset(Flatten(s[i := c])) + multiset(s[i])| == |multiset(Flatten(s)) + multiset(c)|;
  }

  // ---------- How insert, remove and resize change a represented map ----------

  /** `ht_insert` of a new key: prepending the entry to its bucket adds the key to the map. */
  lemma InsertNewKeepsTable<K(!new), V>(s: seq<seq<(K, V)>>, hash: K -> nat, m: map<K, V>, k: K, v: V)
    requires Table(s, hash, m) && k !in m
    ensures Table(s[hash(k) % |s| := [(k, v)] + s[hash(k) % |s|]], hash, m[k := v])
  {
    var i := hash(k) % |s|;
    var c: seq<(K, V)> := [(k, v)] + s[i];
    var s': seq<seq<(K, V)>> := s[i := c];
    assert Lookup(m, k) == None;
    assert Find(s[i], k) == None;
    assert c[1..] == s[i];
    assert UniqueKeys(c) by {
      forall a, b | 0 <= a < b < |c| ensures c[a].0 != c[b].0 {
        assert c[b] == s[i][b - 1];
        if a > 0 {
          assert c[a] == s[i][a - 1];
        }
      }
    }
    assert Placed(s', hash) by {
      forall j, t | 0 <= j < |s'| && 0 <= t < |s'[j]| ensures hash(s'[j][t].0) % |s'| == j {
        if j == i && t > 0 {
          assert s'[j][t] == s[i][t - 1];
        }
      }
    }
    forall k' ensures Find(s'[hash(k') % |s'|], k') == Lookup(m[k := v], k') {
      assert Find(s[hash(k') % |s|], k') == Lookup(m, k');
      if hash(k') % |s| == i && k' != k {
        assert Find(c, k') == Find(s[i], k');
      }
    }
  }

  /** `ht_insert` of a present key: overwriting the value in place maps the key to the new value. */
  lemma ReplaceKeepsTable<K(!new), V>(s: seq<seq<(K, V)>>, hash: K -> nat, m: map<K, V>, k: K, v: V, j: nat)
    requires Table(s, hash, m)
    requires j < |s[hash(k) % |s|]| && s[hash(k) % |s|][j].0 == k
    ensures k in m && m[k] == s[hash(k) % |s|][j].1
    ensures Table(s[hash(k) % |s| := s[hash(k) % |s|][j := (k, v)]], hash, m[k := v])
  {
    var i := hash(k) % |s|;
    var c: seq<(K, V)> := s[i][j := (k, v)];
    var s': seq<seq<(K, V)>> := s[i := c];
    FindUnique(s[i], k, j);
    assert Lookup(m, k) == Some(s[i][j].1);
    assert UniqueKeys(c) by {
      forall a, b | 0 <= a < b < |c| ensures c[a].0 != c[b].0 {
        assert c[a].0 == s[i][a].0 && c[b].0 == s[i][b].0;
      }
    }
    assert Placed(s', hash) by {
      forall p, t | 0 <= p < |s'| && 0 <= t < |s'[p]| ensures hash(s'[p][t].0) % |s'| == p {
        if p == i {
          assert s'[p][t].0 == s[i][t].0;
        }
      }
    }
    forall k' ensures Find(s'[hash(k') % |s'|], k') == Lookup(m[k := v], k') {
      assert Find(s[hash(k') % |s|], k') == Lookup(m, k');
      if hash(k') % |s| == i {
        if k' == k {
          FindUnique(c, k, j);
        } else if t :| 0 <= t < |c| && c[t].0 == k' {
          FindUnique(c, k', t);
          FindUnique(s[i], k', t);
        } else {
          assert Find(c, k') == None;
          assert forall t | 0 <= t < |s[i]| :: s[i][t].0 != k' by {
            forall t | 0 <= t < |s[i]| ensures s[i][t].0 != k' {
              assert c[t].0 == s[i][t].0 || t == j;
            }
          }
        }
      }
    }
  }

  /** `ht_remove`: unlinking the entry of a present key drops exactly that key from the map. */
  lemma RemoveKeepsTable<K(!new), V>(s: seq<seq<(K, V)>>, hash: K -> nat, m: map<K, V>, k: K, j: nat)
    requires Table(s, hash, m)
    requires j < |s[hash(k) % |s|]| && s[hash(k) % |s|][j].0 == k
    ensures k in m && m[k] == s[hash(k) % |s|][j].1
    ensures Table(s[hash(k) % |s| := s[hash(k) % |s|][..j] + s[hash(k) % |s|][j + 1..]], hash, m - {k})
  {
    var i := hash(k) % |s|;
    var c: seq<(K, V)> := s[i][..j] + s[i][j + 1..];
    var s': seq<seq<(K, V)>> := s[i := c];
    FindUnique(s[i], k, j);
    assert Lookup(m, k) == Some(s[i][j].1);
    assert forall t | 0 <= t < |c| :: c[t] == s[i][if t < j then t else t + 1];
    assert UniqueKeys(c) by {
      forall a, b | 0 <= a < b < |c| ensures c[a].0 != c[b].0 {
        assert c[a] == s[i][if a < j then a else a + 1];
        assert c[b] == s[i][if b < j then b else b + 1];
      }
    }
    assert Placed(s', hash) by {
      forall p, t | 0 <= p < |s'| && 0 <= t < |s'[p]| ensures hash(s'[p][t].0) % |s'| == p {
        if p == i {
          assert s'[p][t] == s[i][if t < j then t else t + 1];
        }
      }
    }
    forall k' ensures Find(s'[hash(k') % |s'|], k') == Lookup(m - {k}, k') {
      assert Find(s[hash(k') % |s|], k') == Lookup(m, k');
      if hash(k') % |s| == i {
        if k' == k {
          forall t | 0 <= t < |c| ensures c[t].0 != k {
            assert c[t] == s[i][if t < j then t else t + 1];
          }
        } else if t :| 0 <= t < |c| && c[t].0 == k' {
          FindUnique(c, k', t);
          FindUnique(s[i], k', if t < j then t else t + 1);
        } else {
          forall t | 0 <= t < |s[i]| ensures s[i][t].0 != k' {
            if t < j {
              assert c[t] == s[i][t];
            } else if t > j {
              assert c[t - 1] == s[i][t];
            }
          }
        }
      }
    }
  }

  /** A table is fully described by its lookups: two maps with the same lookups are equal. */
  lemma LookupExtensional<K(!new), V>(m1: map<K, V>, m2: map<K, V>)
    requires forall k :: Lookup(m1, k) == Lookup(m2, k)
    ensures m1 == m2
  {
    forall k ensures k in m1 <==> k in m2 {
      assert Lookup(m1, k).Some? <==> Lookup(m2, k).Some?;
    }
    forall k | k in m1 ensures m1[k] == m2[k] {
      assert Lookup(m1, k) == Lookup(m2, k);
    }
  }

  // ---------- Release logs ----------

  /** The release calls made for one entry: its key through `free_key`, then its value through
      `free_value`, each only when that callback was registered. */
  function EntryReleases<K(!new), V>(freeKey: bool, freeValue: bool, e: (K, V)): seq<Release<K, V>>
  {
    (if freeKey then [KeyReleased(e.0)] else []) + (if freeValue then [ValueReleased(e.1)] else [])
  }

  /** The release calls made for a sequence of entries, in order. */
  function ReleasesOf<K(!new), V>(freeKey: bool, freeValue: bool, es: seq<(K, V)>): seq<Release<K, V>>
  {
    if |es| == 0 then []
    else ReleasesOf(freeKey, freeValue, es[..|es| - 1]) + EntryReleases(freeKey, freeValue, es[|es| - 1])
  }

  lemma ReleasesOfSnoc<K(!new), V>(freeKey: bool, freeValue: bool, es: seq<(K, V)>, e: (K, V))
    ensures ReleasesOf(freeKey, freeValue, es + [e]) == ReleasesOf(freeKey, freeValue, es) + EntryReleases(freeKey, freeValue, e)
  {
    assert (es + [e])[..|es|] == es;
  }

  lemma {:induction false} ReleasesOfAppend<K(!new), V>(freeKey: bool, freeValue: bool, a: seq<(K, V)>, b: seq<(K, V)>)
    ensures ReleasesOf(freeKey, freeValue, a + b) == ReleasesOf(freeKey, freeValue, a) + ReleasesOf(freeKey, freeValue, b)
    decreases |b|
  {
    if |b| > 0 {
      var b' := b[..|b| - 1];
      assert (a + b)[..|a + b| - 1] == a + b';
      ReleasesOfAppend(freeKey, freeValue, a, b');
    } else {
      assert a + b == a;
    }
  }

  /** Destroying releases every key and every value exactly once: as many calls as entries
      times registered callbacks. */
  lemma {:induction false} ReleasesOfLength<K(!new), V>(freeKey: bool, freeValue: bool, es: seq<(K, V)>)
    ensures |ReleasesOf(freeKey, freeValue, es)| ==
      |es| * ((if freeKey then 1 else 0) + (if freeValue then 1 else 0))
  {
    if |es| > 0 {
      ReleasesOfLength(freeKey, freeValue, es[..|es| - 1]);
    }
  }

  // ---------- The table ----------

  class HashTable<K(==, !new), V> {
    var buckets: array<seq<(K, V)>>
    var capacity: nat
    var size: nat
    const hash: K -> nat
    /** Whether `free_key` / `free_value` were registered. */
    const freeKey: bool
    const freeValue: bool
    /** The map the table represents. */
    ghost var contents: map<K, V>
    /** The capacity the table was created with, and how often it has doubled since. */
    ghost const initialCapacity: nat
    ghost var doublings: nat
    /** Every call of a release callback, in order. */
    ghost var released: seq<Release<K, V>>

    ghost predicate Valid()
      reads this, buckets
    {
      && capacity == buckets.Length
      && 0 < capacity
      && capacity == Grown(initialCapacity, doublings)
      && Table(buckets[..], hash, contents)
      && size == |contents|
      && size == |Flatten(buckets[..])|
      && (size == 0 || !Overloaded(size - 1, capacity))
    }

    /** All entries in the order `ht_foreach` visits them. */
    ghost function Entries(): seq<(K, V)>
      reads this, buckets
    {
      Flatten(buckets[..])
    }

    /** The table starts at its initial capacity and only ever doubles it, so the capacity is
        the initial capacity times a power of two. */
    lemma CapacityIsPow2()
      requires Valid()
      ensures capacity == initialCapacity * Pow2(doublings)
    {
      GrownIsPow2(initialCapacity, doublings);
    }

    constructor Init(c: nat, hash: K -> nat, freeKey: bool, freeValue: bool)
      requires 0 < c
      ensures Valid() && fresh(buckets)
      ensures capacity == c && initialCapacity == c && doublings == 0
      ensures size == 0 && contents == map[] && Entries() == [] && released == []
      ensures forall i | 0 <= i < capacity :: buckets[i] == []
      ensures this.hash == hash && this.freeKey == freeKey && this.freeValue == freeValue
    {
      capacity := c;
      size := 0;
      this.hash := hash;
      buckets := new seq<(K, V)>[c](_ => []);
      this.freeKey := freeKey;
      this.freeValue := freeValue;
      contents := map[];
      initialCapacity := c;
      doublings := 0;
      released := [];
      new;
      EmptyBuckets(buckets[..], hash);
    }

    /** `ht_create`: capacity 0 means the default of 1024; null only when the table itself
        cannot be allocated. */
    static method Create(c: nat, hash: K -> nat, freeKey: bool, freeValue: bool, allocOk: bool)
      returns (t: HashTable?<K, V>)
      ensures t == null <==> !allocOk
      ensures t != null ==> fresh(t) && fresh(t.buckets) && t.Valid()
      ensures t != null ==> t.capacity == (if c == 0 then InitialCapacity else c)
      ensures t != null ==> t.size == 0 && t.contents == map[] && t.released == []
      ensures t != null ==> forall i | 0 <= i < t.capacity :: t.buckets[i] == []
      ensures t != null ==> t.hash == hash && t.freeKey == freeKey && t.freeValue == freeValue
    {
      var cap := if c == 0 then InitialCapacity else c;
      if !allocOk {
        return null;
      }
      t := new HashTable.Init(cap, hash, freeKey, freeValue);
    }

    /** `ht_resize`: relinks every entry, chain by chain, into a fresh bucket array of twice
        the capacity; -1 with nothing changed when that array cannot be allocated. */
    method Resize(newCap: nat, allocOk: bool) returns (r: int)
      requires Valid() && newCap == 2 * capacity
      modifies this
      ensures Valid()
      ensures r == (if allocOk then 0 else -1)
      ensures r == 0 ==> fresh(buckets) && capacity == newCap
      ensures r != 0 ==> buckets == old(buckets) && capacity == old(capacity)
      ensures r == 0 ==> !Overloaded(size, capacity)
      ensures r == 0 ==> forall c | 0 <= c < capacity :: buckets[c] == Relinked(old(Entries()), hash, capacity, c)
      ensures doublings == old(doublings) + (if r == 0 then 1 else 0)
      ensures multiset(Entries()) == multiset(old(Entries()))
      ensures contents == old(contents) && size == old(size) && released == old(released)
    {
      if !allocOk {
        return -1;
      }
      ghost var es := Entries();
      var nb := new seq<(K, V)>[newCap](_ => []);
      EmptyBuckets(nb[..], hash);
      Rehash(buckets, nb, hash, contents);
      ghost var nbs := nb[..];
      assert multiset(Flatten(nbs)) == multiset(es) && LaidOut(nbs, es, hash);
      FlattenSizeFromMultiset(Flatten(nbs), es);
      DoublingRelievesLoad(size, capacity);
      buckets := nb;
      capacity := newCap;
      doublings := doublings + 1;
      assert buckets[..] == nbs;
      assert Entries() == Flatten(nbs);
      return 0;
    }

    /** `ht_insert`: checks the load factor first (doubling on overload), then overwrites the
        value of a present key or prepends a new entry to the key's bucket. */
    method Insert(key: K, value: V, resizeOk: bool, entryOk: bool) returns (r: int)
      requires Valid()
      modifies this, buckets
      ensures Valid()
      ensures r == 0 || r == -1
      ensures r == -1 <==>
        (Overloaded(old(size), old(capacity)) && !resizeOk) || (key !in old(contents) && !entryOk)
      ensures capacity ==
        if Overloaded(old(size), old(capacity)) && resizeOk then 2 * old(capacity) else old(capacity)
      ensures r == 0 ==> contents == old(contents)[key := value]
      ensures r != 0 ==> contents == old(contents)
      ensures size == if r == 0 && key !in old(contents) then old(size) + 1 else old(size)
      ensures Overloaded(old(size), old(capacity)) && !resizeOk ==>
        buckets == old(buckets) && buckets[..] == old(buckets[..])
      ensures !Overloaded(old(size), old(capacity)) && r != 0 ==> buckets[..] == old(buckets[..])
      ensures r == 0 && key in old(contents) ==>
        released == old(released) + EntryReleases(freeKey, freeValue, (key, old(contents)[key]))
      ensures !(r == 0 && key in old(contents)) ==> released == old(released)
      ensures r == 0 && key !in old(contents) ==>
        |buckets[hash(key) % capacity]| > 0 && buckets[hash(key) % capacity][0] == (key, value)
      ensures !Overloaded(old(size), old(capacity)) ==>
        buckets == old(buckets) && forall i | 0 <= i < capacity && i != hash(key) % capacity :: buckets[i] == old(buckets[i])
      ensures !Overloaded(old(size), old(capacity)) && r == 0 && key !in old(contents) ==>
        buckets[hash(key) % capacity] == [(key, value)] + old(buckets[hash(key) % capacity])
      ensures !Overloaded(old(size), old(capacity)) && key in old(contents) ==>
        var c := old(buckets[hash(key) % capacity]);
        |buckets[hash(key) % capacity]| == |c| &&
        forall t | 0 <= t < |c| :: buckets[hash(key) % capacity][t] == (c[t].0, if c[t].0 == key then value else c[t].1)
      ensures Overloaded(old(size), old(capacity)) && resizeOk ==>
        forall i | 0 <= i < capacity && (i != hash(key) % capacity || r != 0) ::
          buckets[i] == Relinked(old(Entries()), hash, capacity, i)
      ensures Overloaded(old(size), old(capacity)) && resizeOk && r == 0 && key !in old(contents) ==>
        buckets[hash(key) % capacity] == [(key, value)] + Relinked(old(Entries()), hash, capacity, hash(key) % capacity)
      ensures Overloaded(old(size), old(capacity)) && resizeOk && key in old(contents) ==>
        var c := Relinked(old(Entries()), hash, capacity, hash(key) % capacity);
        |buckets[hash(key) % capacity]| == |c| &&
        forall t | 0 <= t < |c| :: buckets[hash(key) % capacity][t] == (c[t].0, if c[t].0 == key then value else c[t].1)
      ensures buckets == old(buckets) || fresh(buckets)
    {
      if Overloaded(size, capacity) {
        r := GrowThenPlace(key, value, resizeOk, entryOk);
      } else {
        r := Place(key, value, entryOk);
      }
    }

    /** The overloaded branch of `ht_insert`: doubles the capacity (failing with -1, nothing
        changed, when the new buckets cannot be allocated), then places the entry in the
        relinked buckets. */
    method GrowThenPlace(key: K, value: V, resizeOk: bool, entryOk: bool) returns (r: int)
      requires Valid() && Overloaded(size, capacity)
      modifies this, buckets
      ensures Valid()
      ensures r == (if resizeOk && (key in old(contents) || entryOk) then 0 else -1)
      ensures capacity == if resizeOk then 2 * old(capacity) else old(capacity)
      ensures r == 0 ==> contents == old(contents)[key := value]
      ensures r != 0 ==> contents == old(contents)
      ensures size == if r == 0 && key !in old(contents) then old(size) + 1 else old(size)
      ensures !resizeOk ==> buckets == old(buckets) && buckets[..] == old(buckets[..])
      ensures r == 0 && key in old(contents) ==>
        released == old(released) + EntryReleases(freeKey, freeValue, (key, old(contents)[key]))
      ensures !(r == 0 && key in old(contents)) ==> released == old(released)
      ensures resizeOk ==>
        forall i | 0 <= i < capacity && (i != hash(key) % capacity || r != 0) ::
          buckets[i] == Relinked(old(Entries()), hash, capacity, i)
      ensures resizeOk && r == 0 && key !in old(contents) ==>
        buckets[hash(key) % capacity] == [(key, value)] + Relinked(old(Entries()), hash, capacity, hash(key) % capacity)
      ensures resizeOk && key in old(contents) ==>
        var c := Relinked(old(Entries()), hash, capacity, hash(key) % capacity);
        |buckets[hash(key) % capacity]| == |c| &&
        forall t | 0 <= t < |c| :: buckets[hash(key) % capacity][t] == (c[t].0, if c[t].0 == key then value else c[t].1)
      ensures buckets == old(buckets) || fresh(buckets)
    {
      ghost var es := Entries();
      var rc := Resize(capacity * 2, resizeOk);
      if rc != 0 {
        return -1;
      }
      ghost var grown := buckets[..];
      assert forall c | 0 <= c < capacity :: grown[c] == Relinked(es, hash, capacity, c);
      r := Place(key, value, entryOk);
    }

    /** The second half of `ht_insert`, once the load is acceptable: the scan of the key's bucket
        that overwrites a present key's value (releasing the incoming key and the old value), or
        the new entry prepended to that bucket; -1 with nothing changed when the entry cannot be
        allocated. */
    method Place(key: K, value: V, entryOk: bool) returns (r: int)
      requires Valid() && !Overloaded(size, capacity)
      modifies this, buckets
      ensures Valid() && buckets == old(buckets) && capacity == old(capacity)
      ensures r == (if key in old(contents) || entryOk then 0 else -1)
      ensures r == 0 ==> contents == old(contents)[key := value]
      ensures r != 0 ==> contents == old(contents)
      ensures key in old(contents) ==>
        released == old(released) + EntryReleases(freeKey, freeValue, (key, old(contents)[key]))
      ensures key !in old(contents) ==> released == old(released)
      ensures forall i | 0 <= i < capacity && i != hash(key) % capacity :: buckets[i] == old(buckets[i])
      ensures r != 0 ==> buckets[..] == old(buckets[..])
      ensures r == 0 && key !in old(contents) ==>
        buckets[hash(key) % capacity] == [(key, value)] + old(buckets[hash(key) % capacity])
      ensures key in old(contents) ==>
        var c := old(buckets[hash(key) % capacity]);
        |buckets[hash(key) % capacity]| == |c| &&
        forall t | 0 <= t < |c| :: buckets[hash(key) % capacity][t] == (c[t].0, if c[t].0 == key then value else c[t].1)
    {
      var idx := hash(key) % capacity;
      var chain := buckets[idx];
      ghost var s := buckets[..];
      var j := ScanChain(chain, key);
      assert Find(chain, key) == Lookup(contents, key);
      if j < |chain| {
        ReplaceKeepsTable(s, hash, contents, key, value, j);
        FlattenUpdateSize(s, idx, chain[j := (key, value)]);
        released := released + EntryReleases(freeKey, freeValue, (key, chain[j].1));
        buckets[idx] := chain[j := (chain[j].0, value)];
        assert buckets[..] == s[idx := chain[j := (key, value)]];
        contents := contents[key := value];
        return 0;
      }
      assert Find(chain, key) == None;
      if !entryOk {
        return -1;
      }
      InsertNewKeepsTable(s, hash, contents, key, value);
      FlattenUpdateSize(s, idx, [(key, value)] + chain);
      buckets[idx] := [(key, value)] + chain;
      assert buckets[..] == s[idx := [(key, value)] + chain];
      size := size + 1;
      contents := contents[key := value];
      return 0;
    }

    /** `ht_get`: scans the key's bucket; the stored value, or nothing for an absent key. */
    method Get(key: K) returns (r: Option<V>)
      requires Valid()
      ensures r == Lookup(contents, key)
      ensures r.Some? <==> key in contents
    {
      var idx := hash(key) % capacity;
      var chain := buckets[idx];
      var j := 0;
      while j < |chain|
        invariant 0 <= j <= |chain|
        invariant forall t | 0 <= t < j :: chain[t].0 != key
      {
        if chain[j].0 == key {
          FindUnique(chain, key, j);
          return Some(chain[j].1);
        }
        j := j + 1;
      }
      return None;
    }

    /** The unlinking in `ht_remove`: the entry at position `j` of bucket `idx` leaves its
        chain, its key and then its value are released, and the count drops by one. */
    method Unlink(idx: nat, j: nat)
      requires Valid() && idx < capacity && j < |buckets[idx]|
      requires hash(buckets[idx][j].0) % capacity == idx
      modifies this, buckets
      ensures Valid()
      ensures old(buckets[idx][j].0) in old(contents)
      ensures contents == old(contents) - {old(buckets[idx][j].0)}
      ensures size == old(size) - 1
      ensures released == old(released) + EntryReleases(freeKey, freeValue, old(buckets[idx][j]))
      ensures buckets == old(buckets) && capacity == old(capacity)
      ensures forall i | 0 <= i < capacity && i != idx :: buckets[i] == old(buckets[i])
      ensures buckets[idx] == old(buckets[idx][..j] + buckets[idx][j + 1..])
    {
      var chain := buckets[idx];
      ghost var s := buckets[..];
      ghost var key := chain[j].0;
      RemoveKeepsTable(s, hash, contents, key, j);
      FlattenUpdateSize(s, idx, chain[..j] + chain[j + 1..]);
      buckets[idx] := chain[..j] + chain[j + 1..];
      assert buckets[..] == s[idx := chain[..j] + chain[j + 1..]];
      released := released + EntryReleases(freeKey, freeValue, chain[j]);
      size := size - 1;
      contents := contents - {key};
    }

    /** `ht_remove`: unlinks the key's entry and releases its key and value; -1 with nothing
        changed when the key is absent. On success `j` is the position the entry had in its
        chain, and the rest of that chain keeps its order. */
    method Remove(key: K) returns (r: int, ghost j: nat)
      requires Valid()
      modifies this, buckets
      ensures Valid()
      ensures r == (if key in old(contents) then 0 else -1)
      ensures contents == old(contents) - {key}
      ensures r == 0 ==> size == old(size) - 1
      ensures r == 0 ==> released == old(released) + EntryReleases(freeKey, freeValue, (key, old(contents)[key]))
      ensures r != 0 ==> size == old(size) && released == old(released) && buckets[..] == old(buckets[..])
      ensures buckets == old(buckets) && capacity == old(capacity)
      ensures forall i | 0 <= i < capacity && i != hash(key) % capacity :: buckets[i] == old(buckets[i])
      ensures r == 0 ==>
        var c := old(buckets[hash(key) % capacity]);
        j < |c| && c[j].0 == key && buckets[hash(key) % capacity] == c[..j] + c[j + 1..]
    {
      var idx := hash(key) % capacity;
      var chain := buckets[idx];
      var pos := ScanChain(chain, key);
      assert Find(chain, key) == Lookup(contents, key);
      if pos < |chain| {
        RemoveKeepsTable(buckets[..], hash, contents, key, pos);
        Unlink(idx, pos);
        return 0, pos;
      }
      assert Find(chain, key) == None;
      assert contents - {key} == contents;
      return -1, 0;
    }

    /** `ht_foreach`: the entries handed to the callback, bucket by bucket and each chain from
        its head, stopping after `limit` of them unless `limit` is 0. */
    method Foreach(limit: nat) returns (visited: seq<(K, V)>)
      requires Valid()
      ensures |visited| == VisitCount(limit, size)
      ensures visited == Entries()[..|visited|]
    {
      visited := [];
      ghost var bs := buckets[..];
      for i := 0 to capacity
        invariant visited == Flatten(bs[..i])
        invariant limit != 0 ==> |visited| < limit
      {
        var stop;
        ghost var done := visited;
        visited, stop := VisitChain(buckets[i], visited, limit);
        if stop {
          FlattenPrefix(bs, i, limit - |done|);
          return;
        }
        assert bs[..i + 1][..i] == bs[..i];
      }
      assert bs[..capacity] == bs;
    }

    /** `ht_size` */
    function Size(): (n: nat)
      reads this, buckets
      requires Valid()
      ensures n == |contents| && n == |Entries()|
    {
      size
    }

    /** `ht_destroy`: releases every entry's key and value, bucket by bucket and chain by chain. */
    method Destroy()
      requires capacity == buckets.Length
      modifies this
      ensures released == old(released) + ReleasesOf(freeKey, freeValue, old(Entries()))
    {
      ghost var bs := buckets[..];
      for i := 0 to capacity
        invariant buckets == old(buckets) && capacity == old(capacity)
        invariant released == old(released) + ReleasesOf(freeKey, freeValue, Flatten(bs[..i]))
      {
        ghost var done := ReleasesOf(freeKey, freeValue, Flatten(bs[..i]));
        ghost var step := ReleasesOf(freeKey, freeValue, bs[i]);
        ReleaseChain(buckets[i]);
        assert bs[..i + 1][..i] == bs[..i];
        assert Flatten(bs[..i + 1]) == Flatten(bs[..i]) + bs[i];
        ReleasesOfAppend(freeKey, freeValue, Flatten(bs[..i]), bs[i]);
        assert (old(released) + done) + step == old(released) + (done + step);
      }
      assert bs[..capacity] == bs;
    }

    /** The inner loop of `ht_destroy`: every entry of one chain released, key then value. */
    method ReleaseChain(chain: seq<(K, V)>)
      modifies this
      ensures released == old(released) + ReleasesOf(freeKey, freeValue, chain)
      ensures buckets == old(buckets) && capacity == old(capacity)
    {
      for j := 0 to |chain|
        invariant buckets == old(buckets) && capacity == old(capacity)
        invariant released == old(released) + ReleasesOf(freeKey, freeValue, chain[..j])
      {
        ghost var done := ReleasesOf(freeKey, freeValue, chain[..j]);
        ghost var step := EntryReleases(freeKey, freeValue, chain[j]);
        assert chain[..j + 1] == chain[..j] + [chain[j]];
        ReleasesOfSnoc(freeKey, freeValue, chain[..j], chain[j]);
        assert (old(released) + done) + step == old(released) + (done + step);
        released := released + step;
      }
      assert chain[..|chain|] == chain;
    }
  }

  // ---------- Chain walks ----------

  /** The walk `ht_insert` and `ht_remove` make along a chain: the index of the first entry
      whose key is `key`, or the chain's length when there is none. */
  method ScanChain<K(==), V>(chain: seq<(K, V)>, key: K) returns (j: nat)
    ensures j <= |chain|
    ensures j < |chain| ==> chain[j].0 == key
    ensures forall t | 0 <= t < j :: chain[t].0 != key
  {
    j := 0;
    while j < |chain| && chain[j].0 != key
      invariant j <= |chain|
      invariant forall t | 0 <= t < j :: chain[t].0 != key
    {
      j := j + 1;
    }
  }

  /** The callbacks `ht_foreach` makes along one chain, counting on from the `visited` entries
      before it: all of the chain, or just enough to reach `limit` when that is not 0. */
  method VisitChain<K, V>(chain: seq<(K, V)>, visited: seq<(K, V)>, limit: nat)
    returns (out: seq<(K, V)>, stop: bool)
    requires limit != 0 ==> |visited| < limit
    ensures stop <==> limit != 0 && |visited| + |chain| >= limit
    ensures stop ==> out == visited + chain[..limit - |visited|]
    ensures !stop ==> out == visited + chain
    ensures !stop && limit != 0 ==> |out| < limit
  {
    out := visited;
    var j := 0;
    while j < |chain|
      invariant 0 <= j <= |chain|
      invariant out == visited + chain[..j]
      invariant limit != 0 ==> |out| < limit
    {
      out := out + [chain[j]];
      assert chain[..j + 1] == chain[..j] + [chain[j]];
      if limit != 0 && |out| >= limit {
        return out, true;
      }
      j := j + 1;
    }
    assert chain[..|chain|] == chain;
    return out, false;
  }

  /** The loop of `ht_resize` over the old buckets: every entry of `b` relinked into the empty
      array `nb`, which then represents the same map with the same entries. */
  method Rehash<K(!new), V>(b: array<seq<(K, V)>>, nb: array<seq<(K, V)>>, hash: K -> nat,
                           ghost contents: map<K, V>)
    requires b != nb && Table(b[..], hash, contents) && Table(nb[..], hash, map[]) && Flatten(nb[..]) == []
    requires forall c | 0 <= c < nb.Length :: nb[c] == []
    modifies nb
    ensures Table(nb[..], hash, contents)
    ensures multiset(Flatten(nb[..])) == multiset(Flatten(b[..]))
    ensures LaidOut(nb[..], Flatten(b[..]), hash)
  {
    ghost var bs := b[..];
    ghost var moved: map<K, V> := map[];
    assert bs[..0] == [];
    for i := 0 to b.Length
      invariant bs == b[..]
      invariant Table(nb[..], hash, moved) && MovedUpTo(moved, contents, hash, b.Length, i, [])
      invariant multiset(Flatten(nb[..])) == multiset(Flatten(bs[..i]))
      invariant LaidOut(nb[..], Flatten(bs[..i]), hash)
    {
      moved := RehashChain(nb, hash, b[i], bs, contents, i, moved);
    }
    MovedAll(moved, contents, hash, bs);
    assert bs[..b.Length] == bs;
  }

  /** Moves every entry of old bucket `i`, in chain order, to the head of its bucket in the new
      array `nb`: the inner loop of `ht_resize`. */
  method RehashChain<K(!new), V>(nb: array<seq<(K, V)>>, hash: K -> nat, chain: seq<(K, V)>,
                                ghost bs: seq<seq<(K, V)>>, ghost contents: map<K, V>, ghost i: nat,
                                ghost moved: map<K, V>)
    returns (ghost moved': map<K, V>)
    requires Table(bs, hash, contents) && i < |bs| && chain == bs[i]
    requires Table(nb[..], hash, moved) && MovedUpTo(moved, contents, hash, |bs|, i, [])
    requires multiset(Flatten(nb[..])) == multiset(Flatten(bs[..i]))
    requires LaidOut(nb[..], Flatten(bs[..i]), hash)
    modifies nb
    ensures Table(nb[..], hash, moved') && MovedUpTo(moved', contents, hash, |bs|, i + 1, [])
    ensures multiset(Flatten(nb[..])) == multiset(Flatten(bs[..i + 1]))
    ensures LaidOut(nb[..], Flatten(bs[..i + 1]), hash)
  {
    moved' := moved;
    ghost var relinked := Flatten(bs[..i]);
    assert chain[..0] == [];
    for j := 0 to |chain|
      invariant Table(nb[..], hash, moved') && MovedUpTo(moved', contents, hash, |bs|, i, chain[..j])
      invariant multiset(Flatten(nb[..])) == multiset(Flatten(bs[..i])) + multiset(chain[..j])
      invariant relinked == Flatten(bs[..i]) + chain[..j]
      invariant LaidOut(nb[..], relinked, hash)
    {
      moved', relinked := RehashEntry(nb, hash, chain, bs, contents, i, j, moved', relinked);
    }
    RehashNextBucket(moved', contents, hash, bs, i);
  }

  /** One pass of the inner loop of `ht_resize`: entry `j` of old bucket `i` becomes the head of
      its bucket in `nb`, which keeps the new table consistent and laid out in relinking order. */
  method RehashEntry<K(!new), V>(nb: array<seq<(K, V)>>, hash: K -> nat, chain: seq<(K, V)>,
                                ghost bs: seq<seq<(K, V)>>, ghost contents: map<K, V>, ghost i: nat, j: nat,
                                ghost moved: map<K, V>, ghost relinked: seq<(K, V)>)
    returns (ghost moved': map<K, V>, ghost relinked': seq<(K, V)>)
    requires Table(bs, hash, contents) && i < |bs| && chain == bs[i] && j < |chain|
    requires Table(nb[..], hash, moved) && MovedUpTo(moved, contents, hash, |bs|, i, bs[i][..j])
    requires multiset(Flatten(nb[..])) == multiset(Flatten(bs[..i])) + multiset(bs[i][..j])
    requires relinked == Flatten(bs[..i]) + bs[i][..j] && LaidOut(nb[..], relinked, hash)
    modifies nb
    ensures Table(nb[..], hash, moved') && MovedUpTo(moved', contents, hash, |bs|, i, bs[i][..j + 1])
    ensures multiset(Flatten(nb[..])) == multiset(Flatten(bs[..i])) + multiset(bs[i][..j + 1])
    ensures relinked' == Flatten(bs[..i]) + bs[i][..j + 1] && LaidOut(nb[..], relinked', hash)
  {
    var e := chain[j];
    ghost var before := nb[..];
    RehashStep(before, hash, moved, contents, bs, i, j);
    MoveToFront(nb, hash, e);
    moved' := moved[e.0 := e.1];
    RelinkedStep(before, relinked, e, hash, nb[..]);
    relinked' := relinked + [e];
    PrefixSnoc(bs[i], j);
  }

  /** Growing a prefix of `s` by one element appends that element. */
  lemma PrefixSnoc<T>(s: seq<T>, j: nat)
    requires j < |s|
    ensures s[..j + 1] == s[..j] + [s[j]]
  {
  }

  /** The relinking of one entry in `ht_resize`: `e` becomes the head of its bucket in `nb`. */
  method MoveToFront<K, V>(nb: array<seq<(K, V)>>, hash: K -> nat, e: (K, V))
    requires nb.Length > 0
    modifies nb
    ensures nb[..] == old(nb[..])[hash(e.0) % nb.Length := [e] + old(nb[hash(e.0) % nb.Length])]
  {
    var idx := hash(e.0) % nb.Length;
    nb[idx] := [e] + nb[idx];
  }

  // ---------- Resize, one entry at a time ----------

  /** Part way through `ht_resize`: the moved map holds exactly the keys of the buckets
      before `i`, plus those of the first entries `prefix` of bucket `i`. */
  ghost predicate MovedUpTo<K(!new), V>(moved: map<K, V>, contents: map<K, V>, hash: K -> nat, cap: nat,
                                       i: nat, prefix: seq<(K, V)>)
    requires cap > 0
  {
    forall k {:trigger Lookup(moved, k)} :: Lookup(moved, k) ==
      if hash(k) % cap < i then Lookup(contents, k)
      else if hash(k) % cap == i then Find(prefix, k)
      else None
  }

  /** Moving entry `j` of old bucket `i` to the head of its new bucket keeps the new array a
      table of the moved map, extended by that entry. */
  lemma RehashStep<K(!new), V>(nbs: seq<seq<(K, V)>>, hash: K -> nat, moved: map<K, V>, contents: map<K, V>,
                              bs: seq<seq<(K, V)>>, i: nat, j: nat)
    requires Table(bs, hash, contents) && i < |bs| && j < |bs[i]|
    requires Table(nbs, hash, moved) && MovedUpTo(moved, contents, hash, |bs|, i, bs[i][..j])
    requires multiset(Flatten(nbs)) == multiset(Flatten(bs[..i])) + multiset(bs[i][..j])
    ensures var e := bs[i][j]; var idx := hash(e.0) % |nbs|;
      && Table(nbs[idx := [e] + nbs[idx]], hash, moved[e.0 := e.1])
      && MovedUpTo(moved[e.0 := e.1], contents, hash, |bs|, i, bs[i][..j + 1])
      && multiset(Flatten(nbs[idx := [e] + nbs[idx]])) == multiset(Flatten(bs[..i])) + multiset(bs[i][..j + 1])
  {
    var e := bs[i][j];
    assert hash(e.0) % |bs| == i;
    assert UniqueKeys(bs[i]);
    MoveOne(bs[i], j, moved, e.0);
    InsertNewKeepsTable(nbs, hash, moved, e.0, e.1);
    RehashMoved(moved, contents, hash, |bs|, i, bs[i], j);
    RehashCount(nbs, hash, bs, i, j);
  }

  /** The moved map, extended by entry `j` of bucket `i`, covers one more entry of that bucket. */
  lemma RehashMoved<K(!new), V>(moved: map<K, V>, contents: map<K, V>, hash: K -> nat, cap: nat,
                               i: nat, chain: seq<(K, V)>, j: nat)
    requires cap > 0 && j < |chain| && hash(chain[j].0) % cap == i && chain[j].0 !in moved
    requires MovedUpTo(moved, contents, hash, cap, i, chain[..j])
    ensures MovedUpTo(moved[chain[j].0 := chain[j].1], contents, hash, cap, i, chain[..j + 1])
  {
    var e := chain[j];
    assert chain[..j + 1] == chain[..j] + [e];
    forall k ensures Lookup(moved[e.0 := e.1], k) ==
      if hash(k) % cap < i then Lookup(contents, k)
      else if hash(k) % cap == i then Find(chain[..j + 1], k)
      else None
    {
      assert Lookup(moved, k) ==
        if hash(k) % cap < i then Lookup(contents, k)
        else if hash(k) % cap == i then Find(chain[..j], k)
        else None;
      FindSnoc(chain[..j], e, k);
      if k == e.0 {
        assert Lookup(moved, k) == None;
      }
    }
  }

  /** Moving entry `j` of bucket `i` adds exactly that entry to the new array's entries. */
  lemma RehashCount<K(!new), V>(nbs: seq<seq<(K, V)>>, hash: K -> nat, bs: seq<seq<(K, V)>>, i: nat, j: nat)
    requires |nbs| > 0 && i < |bs| && j < |bs[i]|
    requires multiset(Flatten(nbs)) == multiset(Flatten(bs[..i])) + multiset(bs[i][..j])
    ensures var e := bs[i][j]; var idx := hash(e.0) % |nbs|;
      multiset(Flatten(nbs[idx := [e] + nbs[idx]])) == multiset(Flatten(bs[..i])) + multiset(bs[i][..j + 1])
  {
    var e := bs[i][j];
    FlattenPrepend(nbs, hash(e.0) % |nbs|, e);
    assert bs[i][..j + 1] == bs[i][..j] + [e];
  }

  /** Once bucket `i` is fully moved, the next bucket starts with nothing of it moved. */
  lemma RehashNextBucket<K(!new), V>(moved: map<K, V>, contents: map<K, V>, hash: K -> nat,
                                    bs: seq<seq<(K, V)>>, i: nat)
    requires Table(bs, hash, contents) && i < |bs|
    requires MovedUpTo(moved, contents, hash, |bs|, i, bs[i][..|bs[i]|])
    ensures MovedUpTo(moved, contents, hash, |bs|, i + 1, [])
    ensures multiset(Flatten(bs[..i])) + multiset(bs[i]) == multiset(Flatten(bs[..i + 1]))
    ensures Flatten(bs[..i]) + bs[i][..|bs[i]|] == Flatten(bs[..i + 1])
  {
    assert bs[i][..|bs[i]|] == bs[i];
    assert bs[..i + 1][..i] == bs[..i];
  }

  /** After the last bucket every key has been moved with its value. */
  lemma MovedAll<K(!new), V>(moved: map<K, V>, contents: map<K, V>, hash: K -> nat, bs: seq<seq<(K, V)>>)
    requires |bs| > 0 && MovedUpTo(moved, contents, hash, |bs|, |bs|, [])
    ensures moved == contents
  {
    forall k ensures Lookup(moved, k) == Lookup(contents, k) {
      assert hash(k) % |bs| < |bs|;
    }
    LookupExtensional(moved, contents);
  }

  /** A fresh bucket array, every chain empty, represents the empty map. */
  lemma EmptyBuckets<K(!new), V>(s: seq<seq<(K, V)>>, hash: K -> nat)
    requires |s| > 0 && forall i | 0 <= i < |s| :: s[i] == []
    ensures Table(s, hash, map[]) && Flatten(s) == []
  {
    EmptyFlatten(s);
  }

  lemma {:induction false} EmptyFlatten<K(!new), V>(s: seq<seq<(K, V)>>)
    requires forall i | 0 <= i < |s| :: s[i] == []
    ensures Flatten(s) == []
  {
    if |s| > 0 {
      EmptyFlatten(s[..|s| - 1]);
    }
  }

  /** Equal multisets have equal sizes, which is how resize keeps `size` right. */
  lemma FlattenSizeFromMultiset<K(!new), V>(a: seq<(K, V)>, b: seq<(K, V)>)
    requires multiset(a) == multiset(b)
    ensures |a| == |b|
  {
    assert |multiset(a)| == |a| && |multiset(b)| == |b|;
  }

  /** The next entry `resize` moves has not been moved before: its key is new to the moved map. */
  lemma MoveOne<K(!new), V>(chain: seq<(K, V)>, j: nat, moved: map<K, V>, k: K)
    requires UniqueKeys(chain) && j < |chain| && k == chain[j].0
    requires Lookup(moved, k) == Find(chain[..j], k)
    ensures k !in moved
  {
    forall t | 0 <= t < |chain[..j]| ensures chain[..j][t].0 != k {
      assert chain[..j][t] == chain[t];
    }
  }
}
