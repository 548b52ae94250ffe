/** An array-backed vector of key/value elements with a "sorted" flag, a
    top-down stable merge sort over a temporary buffer, and a binary search
    that is only trusted while the flag is set. */
module Vector {
  import opened Common

  /** One slot of the vector: the key the comparator looks at and the value it carries. */
  datatype Elem<V> = Elem(key: int, value: V)

  /** Keys never decrease from left to right (equal keys are allowed). */
  ghost predicate Sorted<V>(s: seq<Elem<V>>)
  {
    forall i, j | 0 <= i < j < |s| :: s[i].key <= s[j].key
  }

  /** The elements whose key is `k`, in the order they appear. */
  function WithKey<V>(s: seq<Elem<V>>, k: int): seq<Elem<V>>
  {
    if |s| == 0 then []
    else (if s[0].key == k then [s[0]] else []) + WithKey(s[1..], k)
  }

  // ---------- Stable merge sort, as functions on sequences ----------

  /** Merging two runs, taking from the left run when its key is not greater. */
  function Merge<V>(a: seq<Elem<V>>, b: seq<Elem<V>>): seq<Elem<V>>
    decreases |a| + |b|
  {
    if |a| == 0 then b
    else if |b| == 0 then a
    else if a[0].key <= b[0].key then [a[0]] + Merge(a[1..], b)
    else [b[0]] + Merge(a, b[1..])
  }

  lemma MergeTakesLeft<V>(a: seq<Elem<V>>, b: seq<Elem<V>>)
    requires |a| > 0 && |b| > 0 && a[0].key <= b[0].key
    ensures Merge(a, b) == [a[0]] + Merge(a[1..], b)
  {
  }

  lemma MergeTakesRight<V>(a: seq<Elem<V>>, b: seq<Elem<V>>)
    requires |a| > 0 && |b| > 0 && b[0].key < a[0].key
    ensures Merge(a, b) == [b[0]] + Merge(a, b[1..])
  {
  }

  lemma WithKeyCons<V>(x: Elem<V>, rest: seq<Elem<V>>, k: int)
    ensures WithKey([x] + rest, k) == (if x.key == k then [x] else []) + WithKey(rest, k)
  {
    assert ([x] + rest)[1..] == rest;
  }

  /** Merging loses and invents nothing: the result is a permutation of both runs together. */
  lemma {:induction false} MergePermutes<V>(a: seq<Elem<V>>, b: seq<Elem<V>>)
    ensures multiset(Merge(a, b)) == multiset(a) + multiset(b)
    decreases |a| + |b|
  {
    if |a| == 0 {
      assert a == [];
    } else if |b| == 0 {
      assert b == [];
    } else if a[0].key <= b[0].key {
      MergeTakesLeft(a, b);
      MergePermutes(a[1..], b);
      assert a == [a[0]] + a[1..];
      assert multiset(a) == multiset([a[0]]) + multiset(a[1..]);
    } else {
      MergeTakesRight(a, b);
      MergePermutes(a, b[1..]);
      assert b == [b[0]] + b[1..];
      assert multiset(b) == multiset([b[0]]) + multiset(b[1..]);
    }
  }

  lemma SortedCons<V>(x: Elem<V>, rest: seq<Elem<V>>)
    requires Sorted(rest)
    requires forall y | y in rest :: x.key <= y.key
    ensures Sorted([x] + rest)
  {
    var s := [x] + rest;
    forall i, j | 0 <= i < j < |s| ensures s[i].key <= s[j].key {
      assert s[j] == rest[j - 1];
      if i > 0 {
        assert s[i] == rest[i - 1];
      }
    }
  }

  lemma {:induction false} MergeIsSorted<V>(a: seq<Elem<V>>, b: seq<Elem<V>>)
    requires Sorted(a) && Sorted(b)
    ensures Sorted(Merge(a, b))
    decreases |a| + |b|
  {
    if |a| == 0 || |b| == 0 {
    } else if a[0].key <= b[0].key {
      var rest := Merge(a[1..], b);
      MergeTakesLeft(a, b);
      MergeIsSorted(a[1..], b);
      MergePermutes(a[1..], b);
      forall y | y in rest ensures a[0].key <= y.key {
        assert y in multiset(rest);
        assert y in a[1..] || y in b;
      }
      SortedCons(a[0], rest);
    } else {
      var rest := Merge(a, b[1..]);
      MergeTakesRight(a, b);
      MergeIsSorted(a, b[1..]);
      MergePermutes(a, b[1..]);
      forall y | y in rest ensures b[0].key <= y.key {
        assert y in multiset(rest);
        assert y in a || y in b[1..];
      }
      SortedCons(b[0], rest);
    }
  }

  lemma {:induction false} WithKeyAppend<V>(a: seq<Elem<V>>, b: seq<Elem<V>>, k: int)
    ensures WithKey(a + b, k) == WithKey(a, k) + WithKey(b, k)
    decreases |a|
  {
    if a != [] {
      assert (a + b)[1..] == a[1..] + b;
      WithKeyAppend(a[1..], b, k);
    } else {
      assert a + b == b;
    }
  }

  lemma WithKeySplit<V>(s: seq<Elem<V>>, m: nat, k: int)
    requires m <= |s|
    ensures WithKey(s, k) == WithKey(s[..m], k) + WithKey(s[m..], k)
  {
    WithKeyAppend(s[..m], s[m..], k);
    assert s[..m] + s[m..] == s;
  }

  lemma {:induction false} WithKeyOfLarger<V>(a: seq<Elem<V>>, k: int)
    requires Sorted(a) && a != [] && k < a[0].key
    ensures WithKey(a, k) == []
    decreases |a|
  {
    if |a| > 1 {
      WithKeyOfLarger(a[1..], k);
    }
  }

  /** Merging keeps, for every key, the left run's elements of that key before the right run's. */
  lemma {:induction false} MergeIsStable<V>(a: seq<Elem<V>>, b: seq<Elem<V>>, k: int)
    requires Sorted(a)
    ensures WithKey(Merge(a, b), k) == WithKey(a, k) + WithKey(b, k)
    decreases |a| + |b|
  {
    if |a| == 0 {
      assert WithKey(a, k) == [];
    } else if |b| == 0 {
      assert WithKey(b, k) == [];
    } else if a[0].key <= b[0].key {
      var rest := Merge(a[1..], b);
      MergeTakesLeft(a, b);
      MergeIsStable(a[1..], b, k);
      WithKeyCons(a[0], rest, k);
      var h := if a[0].key == k then [a[0]] else [];
      assert WithKey(a, k) == h + WithKey(a[1..], k);
      assert h + (WithKey(a[1..], k) + WithKey(b, k)) == (h + WithKey(a[1..], k)) + WithKey(b, k);
    } else {
      var rest := Merge(a, b[1..]);
      MergeTakesRight(a, b);
      MergeIsStable(a, b[1..], k);
      WithKeyCons(b[0], rest, k);
      var h := if b[0].key == k then [b[0]] else [];
      assert WithKey(b, k) == h + WithKey(b[1..], k);
      if b[0].key == k {
        WithKeyOfLarger(a, k);
        assert h + ([] + WithKey(b[1..], k)) == [] + (h + WithKey(b[1..], k));
      } else {
        assert h == [];
        assert [] + (WithKey(a, k) + WithKey(b[1..], k)) == WithKey(a, k) + ([] + WithKey(b[1..], k));
      }
    }
  }

  /** `out` is what a stable sort of `s` must produce: keys in ascending order, the same
      elements, and for every key its elements in their original relative order. */
  ghost predicate StableSortOf<V>(out: seq<Elem<V>>, s: seq<Elem<V>>)
  {
    && Sorted(out)
    && multiset(out) == multiset(s)
    && forall k :: WithKey(out, k) == WithKey(s, k)
  }

  /** A sequence of fewer than two elements is its own stable sort. */
  lemma ShortIsStableSorted<V>(s: seq<Elem<V>>)
    requires |s| < 2
    ensures StableSortOf(s, s)
  {
  }

  /** The step of `merge_sort`: merging stable sorts of the two halves stably sorts the whole. */
  lemma MergeHalves<V>(s: seq<Elem<V>>, h: nat, left: seq<Elem<V>>, right: seq<Elem<V>>)
    requires h <= |s|
    requires StableSortOf(left, s[..h]) && StableSortOf(right, s[h..])
    ensures StableSortOf(Merge(left, right), s)
  {
    MergeIsSorted(left, right);
    MergePermutes(left, right);
    forall k ensures WithKey(Merge(left, right), k) == WithKey(s, k) {
      MergeIsStable(left, right, k);
      WithKeySplit(s, h, k);
    }
    assert s[..h] + s[h..] == s;
  }

  // ---------- Stable merge sort, in place over the array ----------

  /** What `merge` produces once it has consumed a[..x] and b[..y] into `acc`: each step
      takes from the left run unless it is exhausted or the right run's key is smaller. */
  function MergeFrom<V>(a: seq<Elem<V>>, b: seq<Elem<V>>, x: nat, y: nat, acc: seq<Elem<V>>): seq<Elem<V>>
    requires x <= |a| && y <= |b|
    decreases |a| - x + |b| - y
  {
    if x == |a| && y == |b| then acc
    else if y == |b| || (x < |a| && a[x].key <= b[y].key) then MergeFrom(a, b, x + 1, y, acc + [a[x]])
    else MergeFrom(a, b, x, y + 1, acc + [b[y]])
  }

  /** The step-by-step view of merging agrees with the recursive definition. */
  lemma {:induction false} MergeFromIsMerge<V>(a: seq<Elem<V>>, b: seq<Elem<V>>, x: nat, y: nat, acc: seq<Elem<V>>)
    requires x <= |a| && y <= |b|
    ensures MergeFrom(a, b, x, y, acc) == acc + Merge(a[x..], b[y..])
    decreases |a| - x + |b| - y
  {
    if x == |a| && y == |b| {
      assert a[x..] == [] && b[y..] == [];
    } else if y == |b| || (x < |a| && a[x].key <= b[y].key) {
      MergeFromIsMerge(a, b, x + 1, y, acc + [a[x]]);
      assert a[x..][1..] == a[x + 1..];
      if y == |b| {
        assert b[y..] == [] && a[x..] == [a[x]] + a[x + 1..];
      }
      assert Merge(a[x..], b[y..]) == [a[x]] + Merge(a[x + 1..], b[y..]);
    } else {
      MergeFromIsMerge(a, b, x, y + 1, acc + [b[y]]);
      assert b[y..][1..] == b[y + 1..];
      if x == |a| {
        assert a[x..] == [] && b[y..] == [b[y]] + b[y + 1..];
      }
      assert Merge(a[x..], b[y..]) == [b[y]] + Merge(a[x..], b[y + 1..]);
    }
  }

  /** Once one run is used up, merging just appends what is left of the other. */
  lemma {:induction false} MergeFromDrains<V>(a: seq<Elem<V>>, b: seq<Elem<V>>, x: nat, y: nat, acc: seq<Elem<V>>)
    requires x <= |a| && y <= |b| && (x == |a| || y == |b|)
    ensures MergeFrom(a, b, x, y, acc) == acc + a[x..] + b[y..]
    decreases |a| - x + |b| - y
  {
    if x == |a| && y == |b| {
    } else if y == |b| {
      MergeFromDrains(a, b, x + 1, y, acc + [a[x]]);
      assert a[x..] == [a[x]] + a[x + 1..];
    } else {
      MergeFromDrains(a, b, x, y + 1, acc + [b[y]]);
      assert b[y..] == [b[y]] + b[y + 1..];
    }
  }

  /** When the first loop of `merge` stops, what it has emitted followed by both leftovers is the merge. */
  lemma MergeLoopDone<V>(a: seq<Elem<V>>, b: seq<Elem<V>>, x: nat, y: nat, out: seq<Elem<V>>)
    requires x <= |a| && y <= |b| && (x == |a| || y == |b|)
    requires MergeFrom(a, b, x, y, out) == MergeFrom(a, b, 0, 0, [])
    ensures Merge(a, b) == out + a[x..] + b[y..]
  {
    MergeFromDrains(a, b, x, y, out);
    MergeFromIsMerge(a, b, 0, 0, []);
    assert a[0..] == a && b[0..] == b;
  }

  /** One of the two trailing loops of `merge`: copies tmp[from..to) to data from index k on.
      data[l..k) already holds `out`; afterwards data[l..k') holds `out` followed by the copied run. */
  method CopyRun<V>(data: array<Elem<V>>, tmp: array<Elem<V>>, from: nat, to: nat, k: nat,
                    ghost l: nat, ghost out: seq<Elem<V>>)
    returns (k': nat, ghost out': seq<Elem<V>>)
    requires data != tmp
    requires from <= to <= tmp.Length && l <= k && k + (to - from) <= data.Length
    requires |out| == k - l && forall t | l <= t < k :: data[t] == out[t - l]
    modifies data
    ensures k' == k + (to - from) && out' == out + tmp[from..to]
    ensures |out'| == k' - l && forall t | l <= t < k' :: data[t] == out'[t - l]
    ensures forall t | 0 <= t < data.Length && (t < k || k' <= t) :: data[t] == old(data[t])
  {
    var i := from;
    k', out' := k, out;
    while i < to
      invariant from <= i <= to && k' == k + (i - from) && out' == out + tmp[from..i]
      invariant |out'| == k' - l && forall t | l <= t < k' :: data[t] == out'[t - l]
      invariant forall t | 0 <= t < data.Length && (t < k || k' <= t) :: data[t] == old(data[t])
    {
      data[k'] := tmp[i];
      assert tmp[from..i + 1] == tmp[from..i] + [tmp[i]];
      out' := out' + [tmp[i]];
      i, k' := i + 1, k' + 1;
    }
  }

  /** The first loop of `merge`: takes the smaller head of the two runs, the left one on ties,
      until one run is used up; `out` is what it has written to data[l..k). */
  method MergeHeads<V>(data: array<Elem<V>>, tmp: array<Elem<V>>, cmp: (int, int) -> int,
                       l: nat, m: nat, r: nat)
    returns (i: nat, j: nat, k: nat, ghost out: seq<Elem<V>>)
    requires SignConsistent(cmp)
    requires data != tmp
    requires l <= m <= r <= data.Length && r <= tmp.Length
    modifies data
    ensures l <= i <= m <= j <= r && k == i + (j - m) && (i == m || j == r)
    ensures |out| == k - l && forall t | l <= t < k :: data[t] == out[t - l]
    ensures MergeFrom(old(tmp[l..m]), old(tmp[m..r]), i - l, j - m, out) == MergeFrom(old(tmp[l..m]), old(tmp[m..r]), 0, 0, [])
    ensures forall t | 0 <= t < data.Length && (t < l || k <= t) :: data[t] == old(data[t])
  {
    ghost var a, b := tmp[l..m], tmp[m..r];
    out := [];
    i, j, k := l, m, l;
    while i < m && j < r
      invariant l <= i <= m <= j <= r && k == i + (j - m)
      invariant |out| == k - l && forall t | l <= t < k :: data[t] == out[t - l]
      invariant MergeFrom(a, b, i - l, j - m, out) == MergeFrom(a, b, 0, 0, [])
      invariant forall t | 0 <= t < data.Length && (t < l || k <= t) :: data[t] == old(data[t])
    {
      if cmp(tmp[i].key, tmp[j].key) <= 0 {
        data[k] := tmp[i];
        out := out + [a[i - l]];
        i := i + 1;
      } else {
        data[k] := tmp[j];
        out := out + [b[j - m]];
        j := j + 1;
      }
      k := k + 1;
    }
  }

  /** `merge`: merges tmp[l..m) and tmp[m..r) into data[l..r): the head loop, then the two
      trailing copy loops. */
  method MergeRuns<V>(data: array<Elem<V>>, tmp: array<Elem<V>>, cmp: (int, int) -> int,
                      l: nat, m: nat, r: nat)
    requires SignConsistent(cmp)
    requires data != tmp
    requires l <= m <= r <= data.Length && r <= tmp.Length
    modifies data
    ensures data[l..r] == Merge(old(tmp[l..m]), old(tmp[m..r]))
    ensures forall t | 0 <= t < data.Length && (t < l || r <= t) :: data[t] == old(data[t])
  {
    ghost var a, b := tmp[l..m], tmp[m..r];
    var i, j, k, out := MergeHeads(data, tmp, cmp, l, m, r);
    MergeLoopDone(a, b, i - l, j - m, out);
    assert a[i - l..] == tmp[i..m] && b[j - m..] == tmp[j..r];
    var k1, out1 := CopyRun(data, tmp, i, m, k, l, out);
    var k2, out2 := CopyRun(data, tmp, j, r, k1, l, out1);
    assert data[l..r] == out2;
  }

  /** The tail of `merge_sort`: copies data[l..r) into tmp and merges the two sorted halves back. */
  method CopyAndMerge<V>(data: array<Elem<V>>, tmp: array<Elem<V>>, cmp: (int, int) -> int,
                         l: nat, m: nat, r: nat, ghost s: seq<Elem<V>>)
    requires SignConsistent(cmp)
    requires data != tmp
    requires l <= m <= r <= data.Length && r <= tmp.Length && |s| == r - l
    requires StableSortOf(data[l..m], s[..m - l]) && StableSortOf(data[m..r], s[m - l..])
    modifies data, tmp
    ensures StableSortOf(data[l..r], s)
    ensures forall t | 0 <= t < data.Length && (t < l || r <= t) :: data[t] == old(data[t])
  {
    ghost var left, right := data[l..m], data[m..r];
    forall t | l <= t < r {
      tmp[t] := data[t];
    }
    assert tmp[l..m] == left && tmp[m..r] == right;
    MergeRuns(data, tmp, cmp, l, m, r);
    MergeHalves(s, m - l, left, right);
  }

  /** `merge_sort`: stably sorts data[l..r) in place, using tmp[l..r) as scratch space. */
  method MergeSortRange<V>(data: array<Elem<V>>, tmp: array<Elem<V>>, cmp: (int, int) -> int,
                           l: nat, r: nat)
    requires SignConsistent(cmp)
    requires data != tmp
    requires l <= r <= data.Length && r <= tmp.Length
    modifies data, tmp
    ensures StableSortOf(data[l..r], old(data[l..r]))
    ensures forall t | 0 <= t < data.Length && (t < l || r <= t) :: data[t] == old(data[t])
    decreases r - l
  {
    if r - l < 2 {
      ShortIsStableSorted(data[l..r]);
      return;
    }
    ghost var s := data[l..r];
    var m := (l + r) / 2;
    assert s[..m - l] == data[l..m] && s[m - l..] == data[m..r];
    MergeSortRange(data, tmp, cmp, l, m);
    ghost var left := data[l..m];
    assert data[m..r] == s[m - l..];
    MergeSortRange(data, tmp, cmp, m, r);
    assert data[l..m] == left;
    CopyAndMerge(data, tmp, cmp, l, m, r, s);
  }

  /** The `memmove` of `vector_insert_after`: a[lo..hi) moves one slot up, to a[lo + 1..hi + 1). */
  method MoveUp<V>(a: array<Elem<V>>, lo: nat, hi: nat)
    requires lo <= hi < a.Length
    modifies a
    ensures forall t | 0 <= t < a.Length :: a[t] == if lo < t <= hi then old(a[t - 1]) else old(a[t])
  {
    var j := hi;
    while j > lo
      invariant lo <= j <= hi
      invariant forall t | 0 <= t < a.Length :: a[t] == if j < t <= hi then old(a[t - 1]) else old(a[t])
    {
      a[j] := a[j - 1];
      j := j - 1;
    }
  }

  /** The `memmove` of `vector_delete`: a[lo + 1..hi) moves one slot down, to a[lo..hi - 1). */
  method MoveDown<V>(a: array<Elem<V>>, lo: nat, hi: nat)
    requires lo < hi <= a.Length
    modifies a
    ensures forall t | 0 <= t < a.Length :: a[t] == if lo <= t < hi - 1 then old(a[t + 1]) else old(a[t])
    ensures a[..hi - 1] == old(a[..hi])[..lo] + old(a[..hi])[lo + 1..]
  {
    var j := lo;
    while j + 1 < hi
      invariant lo <= j < hi
      invariant forall t | 0 <= t < a.Length :: a[t] == if lo <= t < j then old(a[t + 1]) else old(a[t])
    {
      a[j] := a[j + 1];
      j := j + 1;
    }
    ghost var s := old(a[..hi]);
    forall t | 0 <= t < hi - 1 ensures a[t] == (s[..lo] + s[lo + 1..])[t] {
      if t < lo {
        assert (s[..lo] + s[lo + 1..])[t] == s[t];
      } else {
        assert (s[..lo] + s[lo + 1..])[t] == s[t + 1];
      }
    }
  }

  // ---------- The vector ----------

  class Vector<V(0)> {
    var data: array<Elem<V>>
    var size: nat
    var capacity: nat
    var sorted: bool
    const cmp: (int, int) -> int
    /** Whether a free function was registered; it is handed each released element. */
    const freeFunc: bool
    /** Every element handed to the free function, in order. */
    ghost var released: seq<Elem<V>>

    ghost predicate Valid()
      reads this, data
    {
      && capacity == data.Length
      && 0 < capacity
      && size <= capacity
      && SignConsistent(cmp)
      && (sorted ==> Sorted(data[..size]))
    }

    /** The elements the vector holds, in index order. */
    ghost function Elements(): seq<Elem<V>>
      reads this, data
      requires Valid()
    {
      data[..size]
    }

    constructor Init(initialCapacity: nat, cmp: (int, int) -> int, freeFunc: bool)
      requires 0 < initialCapacity
      requires SignConsistent(cmp)
      ensures Valid() && fresh(data)
      ensures Elements() == [] && capacity == initialCapacity && !sorted
      ensures this.cmp == cmp && this.freeFunc == freeFunc && released == []
    {
      data := new Elem<V>[initialCapacity];
      size := 0;
      capacity := initialCapacity;
      sorted := false;
      this.cmp := cmp;
      this.freeFunc := freeFunc;
      released := [];
    }

    /** `vector_create`: no vector without a comparator, with a zero capacity, or when allocation fails. */
    static method Create(initialCapacity: nat, cmp: Option<(int, int) -> int>, freeFunc: bool, allocOk: bool)
      returns (v: Vector?<V>)
      requires cmp.Some? ==> SignConsistent(cmp.value)
      ensures v == null <==> (cmp.None? || initialCapacity == 0 || !allocOk)
      ensures v != null ==> fresh(v) && fresh(v.data) && v.Valid()
      ensures v != null ==> v.Elements() == [] && v.capacity == initialCapacity && !v.sorted
      ensures v != null ==> v.cmp == cmp.value && v.freeFunc == freeFunc && v.released == []
    {
      if cmp.None? || initialCapacity == 0 {
        return null;
      }
      if !allocOk {
        return null;
      }
      v := new Vector.Init(initialCapacity, cmp.value, freeFunc);
    }

    /** `vector_resize`: moves the elements into storage of `newCap` slots; -1 when allocation fails. */
    method Resize(newCap: nat, allocOk: bool) returns (r: int)
      requires Valid() && capacity <= newCap
      modifies this
      ensures Valid()
      ensures r == (if allocOk then 0 else -1)
      ensures r == 0 ==> fresh(data) && capacity == newCap
      ensures r != 0 ==> data == old(data) && capacity == old(capacity)
      ensures Elements() == old(Elements()) && size == old(size) && sorted == old(sorted)
      ensures released == old(released)
    {
      if !allocOk {
        return -1;
      }
      var p := new Elem<V>[newCap];
      forall t | 0 <= t < capacity {
        p[t] := data[t];
      }
      assert p[..size] == data[..size];
      data := p;
      capacity := newCap;
      return 0;
    }

    /** `vector_push_back`: appends at index `size`, doubling the storage first when it is full. */
    method PushBack(key: int, value: V, allocOk: bool) returns (r: int)
      requires Valid()
      modifies this, data
      ensures Valid()
      ensures r == 0 || r == -1
      ensures r == 0 <==> (old(size) < old(capacity) || allocOk)
      ensures r == 0 ==> Elements() == old(Elements()) + [Elem(key, value)] && !sorted
      ensures r == 0 ==> capacity == (if old(size) == old(capacity) then 2 * old(capacity) else old(capacity))
      ensures r != 0 ==> Elements() == old(Elements()) && sorted == old(sorted) && capacity == old(capacity)
      ensures released == old(released)
      ensures data == old(data) || fresh(data)
    {
      if size == capacity {
        var rc := Resize(capacity * 2, allocOk);
        if rc != 0 {
          return -1;
        }
      }
      ghost var before := data[..size];
      data[size] := Elem(key, value);
      assert data[..size + 1] == before + [Elem(key, value)];
      size := size + 1;
      sorted := false;
      return 0;
    }

    /** `vector_insert_after`: puts the element at `index + 1`, shifting the later ones right. */
    method InsertAfter(index: nat, key: int, value: V, allocOk: bool) returns (r: int)
      requires Valid()
      modifies this, data
      ensures Valid()
      ensures r == 0 || r == -1
      ensures r == 0 <==> (index < old(size) && (old(size) < old(capacity) || allocOk))
      ensures r == 0 ==> Elements() == old(Elements())[..index + 1] + [Elem(key, value)] + old(Elements())[index + 1..]
      ensures r == 0 ==> !sorted
      ensures r == 0 ==> capacity == (if old(size) == old(capacity) then 2 * old(capacity) else old(capacity))
      ensures r != 0 ==> Elements() == old(Elements()) && sorted == old(sorted) && capacity == old(capacity)
      ensures released == old(released)
      ensures data == old(data) || fresh(data)
    {
      if index >= size {
        return -1;
      }
      if size == capacity {
        var rc := Resize(capacity * 2, allocOk);
        if rc != 0 {
          return -1;
        }
      }
      ghost var s := data[..size];
      MoveUp(data, index + 1, size);
      data[index + 1] := Elem(key, value);
      size := size + 1;
      sorted := false;
      ghost var want := s[..index + 1] + [Elem(key, value)] + s[index + 1..];
      forall t | 0 <= t < size
        ensures data[t] == want[t]
      {
        if t < index + 1 {
          assert want[t] == s[t];
        } else if index + 1 < t {
          assert want[t] == s[t - 1];
        }
      }
      assert data[..size] == want;
      return 0;
    }

    /** `vector_delete`: releases the element at `index` and shifts the later ones left;
        the sorted flag is left as it was, which removal cannot falsify. */
    method Delete(index: nat) returns (r: int)
      requires Valid()
      modifies this, data
      ensures Valid()
      ensures r == (if index < old(size) then 0 else -1)
      ensures r == 0 ==> Elements() == old(Elements())[..index] + old(Elements())[index + 1..]
      ensures r == 0 ==> released == old(released) + (if freeFunc then [old(Elements())[index]] else [])
      ensures r != 0 ==> Elements() == old(Elements()) && released == old(released)
      ensures sorted == old(sorted) && capacity == old(capacity)
      ensures data == old(data)
    {
      if index >= size {
        return -1;
      }
      if freeFunc {
        released := released + [data[index]];
      }
      ghost var s := data[..size];
      MoveDown(data, index, size);
      size := size - 1;
      if sorted {
        RemovalKeepsSorted(s, index);
      }
      return 0;
    }

    /** `vector_get`: the element at `index`, or nothing past the end. */
    function Get(index: nat): (r: Option<Elem<V>>)
      reads this, data
      requires Valid()
      ensures r.None? <==> index >= |Elements()|
      ensures r.Some? ==> r.value == Elements()[index]
    {
      if index >= size then None else Some(data[index])
    }

    /** `vector_clear`: releases every element in index order and empties the vector, keeping its storage. */
    method Clear()
      requires Valid()
      modifies this
      ensures Valid()
      ensures Elements() == [] && !sorted && capacity == old(capacity) && data == old(data)
      ensures released == old(released) + (if freeFunc then old(Elements()) else [])
    {
      if freeFunc {
        for i := 0 to size
          invariant released == old(released) + data[..i]
        {
          released := released + [data[i]];
        }
        assert data[..size] == old(Elements());
      }
      size := 0;
      sorted := false;
    }

    /** `vector_destroy`: clears the vector; its storage is then given back. */
    method Destroy()
      requires Valid()
      modifies this
      ensures released == old(released) + (if freeFunc then old(Elements()) else [])
    {
      Clear();
    }

    /** `vector_sort_stable`: merge-sorts the elements when there are at least two and the
        temporary buffer could be obtained, and only then sets the sorted flag. */
    method SortStable(allocOk: bool)
      requires Valid()
      modifies this, data
      ensures Valid()
      ensures old(size) >= 2 && allocOk ==> StableSortOf(Elements(), old(Elements())) && sorted
      ensures !(old(size) >= 2 && allocOk) ==> Elements() == old(Elements()) && sorted == old(sorted)
      ensures data == old(data) && capacity == old(capacity) && released == old(released)
    {
      if size < 2 {
        return;
      }
      if !allocOk {
        return;
      }
      var tmp := new Elem<V>[size];
      assert data[..size] == data[0..size];
      MergeSortRange(data, tmp, cmp, 0, size);
      assert data[..size] == data[0..size];
      sorted := true;
    }

    /** `vector_binary_search`: bisection over the keys; gives up at once unless the flag says sorted.
        The result is the index of the slot the returned element address designates. */
    method BinarySearch(key: int) returns (r: Option<nat>)
      requires Valid()
      ensures !sorted ==> r == None
      ensures r.Some? ==> r.value < |Elements()| && Elements()[r.value].key == key
      ensures sorted && r.None? ==> forall t | 0 <= t < |Elements()| :: Elements()[t].key != key
    {
      if !sorted {
        return None;
      }
      var l, h := 0, size;
      while l < h
        invariant 0 <= l <= h <= size
        invariant forall t | 0 <= t < l :: data[t].key < key
        invariant forall t | h <= t < size :: key < data[t].key
      {
        var m := (l + h) / 2;
        var c := cmp(key, data[m].key);
        if c == 0 {
          return Some(m);
        }
        if c < 0 {
          h := m;
        } else {
          l := m + 1;
        }
      }
      return None;
    }

    /** `vector_iterate`: the (index, element) pairs handed to the callback, in ascending index order. */
    method Iterate(limit: nat) returns (visited: seq<(nat, Elem<V>)>)
      requires Valid()
      ensures |visited| == VisitCount(limit, |Elements()|)
      ensures forall t | 0 <= t < |visited| :: visited[t] == (t, Elements()[t])
    {
      assert |Elements()| == size;
      visited := [];
      var i := 0;
      while i < size
        invariant 0 <= i <= size && |visited| == i
        invariant limit != 0 ==> i < limit
        invariant forall t | 0 <= t < i :: visited[t] == (t, data[t])
      {
        visited := visited + [(i, data[i])];
        i := i + 1;
        if limit != 0 && i >= limit {
          return;
        }
      }
    }

    /** `vector_iterate_reverse`: the (index, element) pairs in descending index order. */
    method IterateReverse(limit: nat) returns (visited: seq<(nat, Elem<V>)>)
      requires Valid()
      ensures |visited| == VisitCount(limit, |Elements()|)
      ensures forall t | 0 <= t < |visited| ::
        visited[t] == (|Elements()| - 1 - t, Elements()[|Elements()| - 1 - t])
    {
      assert |Elements()| == size;
      visited := [];
      var i := size;
      while i > 0
        invariant 0 <= i <= size && |visited| == size - i
        invariant limit != 0 ==> |visited| < limit
        invariant forall t | 0 <= t < |visited| :: visited[t] == (size - 1 - t, data[size - 1 - t])
      {
        i := i - 1;
        visited := visited + [(i, data[i])];
        if limit != 0 && |visited| >= limit {
          return;
        }
      }
    }

    /** `vector_iterate_sorted`: sorts first unless the flag is already set, then iterates. */
    method IterateSorted(limit: nat, allocOk: bool) returns (visited: seq<(nat, Elem<V>)>)
      requires Valid()
      modifies this, data
      ensures Valid()
      ensures !old(sorted) && old(size) >= 2 && allocOk ==> StableSortOf(Elements(), old(Elements()))
      ensures !(!old(sorted) && old(size) >= 2 && allocOk) ==> Elements() == old(Elements())
      ensures sorted == (old(sorted) || (old(size) >= 2 && allocOk))
      ensures data == old(data)
      ensures |visited| == VisitCount(limit, |Elements()|)
      ensures forall t | 0 <= t < |visited| :: visited[t] == (t, Elements()[t])
    {
      if !sorted {
        SortStable(allocOk);
      }
      visited := Iterate(limit);
    }

    /** `vector_iterate_sorted_reverse`: sorts first unless the flag is already set, then iterates backwards. */
    method IterateSortedReverse(limit: nat, allocOk: bool) returns (visited: seq<(nat, Elem<V>)>)
      requires Valid()
      modifies this, data
      ensures Valid()
      ensures !old(sorted) && old(size) >= 2 && allocOk ==> StableSortOf(Elements(), old(Elements()))
      ensures !(!old(sorted) && old(size) >= 2 && allocOk) ==> Elements() == old(Elements())
      ensures sorted == (old(sorted) || (old(size) >= 2 && allocOk))
      ensures data == old(data)
      ensures |visited| == VisitCount(limit, |Elements()|)
      ensures forall t | 0 <= t < |visited| ::
        visited[t] == (|Elements()| - 1 - t, Elements()[|Elements()| - 1 - t])
    {
      if !sorted {
        SortStable(allocOk);
      }
      visited := IterateReverse(limit);
    }

    /** `vector_size` */
    function Size(): (n: nat)
      reads this, data
      requires Valid()
      ensures n == |Elements()|
    {
      size
    }

    /** `vector_is_sorted`: when set, the elements are in ascending key order. */
    function IsSorted(): (b: bool)
      reads this, data
      requires Valid()
      ensures b ==> Sorted(Elements())
    {
      sorted
    }
  }

  /** Removing one element from an ordered sequence leaves it ordered. */
  lemma RemovalKeepsSorted<V>(s: seq<Elem<V>>, index: nat)
    requires Sorted(s) && index < |s|
    ensures Sorted(s[..index] + s[index + 1..])
  {
    var t := s[..index] + s[index + 1..];
    forall i, j | 0 <= i < j < |t| ensures t[i].key <= t[j].key {
      var i' := if i < index then i else i + 1;
      var j' := if j < index then j else j + 1;
      assert t[i] == s[i'] && t[j] == s[j'];
    }
  }
}
