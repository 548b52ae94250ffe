/** A doubly linked list kept in strictly increasing key order under a caller's comparator.
    Insert has fast paths at both ends and otherwise walks from the end the comparator's
    magnitudes suggest is closer; lookup and removal stop early once a greater key is met. */
module LinkedList {
  import opened Common

  /** What one node holds: its key and the data stored under it. */
  datatype Entry<V> = Entry(key: int, data: V)

  /** One call of a release callback: `free_key` on a key or `free_data` on a datum. */
  datatype Release<V> = KeyReleased(key: int) | DataReleased(data: V)

  // ---------- The list as a sequence of entries ----------

  /** Keys strictly increase from head to tail. */
  ghost predicate Ascending<V>(s: seq<Entry<V>>)
  {
    forall i, j | 0 <= i < j < |s| :: s[i].key < s[j].key
  }

  /** The data stored under `k`, if any entry carries that key. */
  function Lookup<V>(s: seq<Entry<V>>, k: int): (r: Option<V>)
    ensures r.None? <==> forall t | 0 <= t < |s| :: s[t].key != k
  {
    if |s| == 0 then None
    else if s[0].key == k then Some(s[0].data)
    else Lookup(s[1..], k)
  }

  /** The list after `ll_insert(k, v)`: the entry placed before the first greater key, or
      replacing the entry whose key is `k`. */
  function InsertSorted<V>(s: seq<Entry<V>>, k: int, v: V): seq<Entry<V>>
  {
    if |s| == 0 then [Entry(k, v)]
    else if k < s[0].key then [Entry(k, v)] + s
    else if k == s[0].key then [Entry(k, v)] + s[1..]
    else [s[0]] + InsertSorted(s[1..], k, v)
  }

  /** The list after `ll_remove(k)`: every entry with key `k` dropped. */
  function RemoveKey<V>(s: seq<Entry<V>>, k: int): seq<Entry<V>>
  {
    if |s| == 0 then []
    else if s[0].key == k then RemoveKey(s[1..], k)
    else [s[0]] + RemoveKey(s[1..], k)
  }

  lemma AscendingTail<V>(s: seq<Entry<V>>)
    requires Ascending(s) && |s| > 0
    ensures Ascending(s[1..])
  {
    forall i, j | 0 <= i < j < |s[1..]| ensures s[1..][i].key < s[1..][j].key {
      assert s[1..][i] == s[i + 1] && s[1..][j] == s[j + 1];
    }
  }

  /** In an ascending list the lookup finds the one entry carrying `k`. */
  lemma {:induction false} LookupAt<V>(s: seq<Entry<V>>, p: nat, k: int)
    requires Ascending(s) && p < |s| && s[p].key == k
    ensures Lookup(s, k) == Some(s[p].data)
  {
    if p > 0 {
      AscendingTail(s);
      assert s[1..][p - 1] == s[p];
      LookupAt(s[1..], p - 1, k);
    }
  }

  /** A key that falls strictly between two neighbours of an ascending list (or before the
      first, or after the last) is in no entry: why the walks may stop early. */
  lemma AbsentBetween<V>(s: seq<Entry<V>>, p: nat, k: int)
    requires Ascending(s) && p <= |s|
    requires p > 0 ==> s[p - 1].key < k
    requires p < |s| ==> k < s[p].key
    ensures Lookup(s, k) == None
  {
    forall t | 0 <= t < |s| ensures s[t].key != k {
      if t < p - 1 {
        assert s[t].key < s[p - 1].key;
      } else if t > p {
        assert s[p].key < s[t].key;
      }
    }
  }

  /** When every key before position `p` is smaller than `k` and the one at `p` (if any) is
      greater, `InsertSorted` places the new entry exactly at `p`. */
  lemma {:induction false} InsertSortedSplit<V>(s: seq<Entry<V>>, p: nat, k: int, v: V)
    requires p <= |s|
    requires forall t | 0 <= t < p :: s[t].key < k
    requires p < |s| ==> k < s[p].key
    ensures InsertSorted(s, k, v) == s[..p] + [Entry(k, v)] + s[p..]
  {
    if p == 0 {
      assert s[..0] + [Entry(k, v)] + s[0..] == [Entry(k, v)] + s;
    } else {
      var rest := s[1..];
      forall t | 0 <= t < p - 1 ensures rest[t].key < k {
        assert rest[t] == s[t + 1];
      }
      assert p - 1 < |rest| ==> rest[p - 1] == s[p];
      InsertSortedSplit(rest, p - 1, k, v);
      assert s[..p] == [s[0]] + rest[..p - 1];
      assert s[p..] == rest[p - 1..];
    }
  }

  /** Where the insertion walks stop between two neighbours, the key is absent and
      `InsertSorted` places the new entry exactly there. */
  lemma InsertSortedAt<V>(s: seq<Entry<V>>, p: nat, k: int, v: V)
    requires Ascending(s) && p <= |s|
    requires p > 0 ==> s[p - 1].key < k
    requires p < |s| ==> k < s[p].key
    ensures Lookup(s, k) == None
    ensures InsertSorted(s, k, v) == s[..p] + [Entry(k, v)] + s[p..]
  {
    AbsentBetween(s, p, k);
    forall t | 0 <= t < p ensures s[t].key < k {
      if t < p - 1 {
        assert s[t].key < s[p - 1].key;
      }
    }
    InsertSortedSplit(s, p, k, v);
  }

  /** When an entry already carries `k`, `InsertSorted` overwrites it in place. */
  lemma {:induction false} ReplaceSortedAt<V>(s: seq<Entry<V>>, p: nat, k: int, v: V)
    requires Ascending(s) && p < |s| && s[p].key == k
    ensures InsertSorted(s, k, v) == s[p := Entry(k, v)]
  {
    if p == 0 {
      assert s[0 := Entry(k, v)] == [Entry(k, v)] + s[1..];
    } else {
      AscendingTail(s);
      assert s[1..][p - 1] == s[p];
      assert s[0].key < k;
      ReplaceSortedAt(s[1..], p - 1, k, v);
      assert s[p := Entry(k, v)] == [s[0]] + s[1..][p - 1 := Entry(k, v)];
    }
  }

  /** Removing a present key drops exactly its one entry. */
  lemma {:induction false} RemoveKeyAt<V>(s: seq<Entry<V>>, p: nat, k: int)
    requires Ascending(s) && p < |s| && s[p].key == k
    ensures RemoveKey(s, k) == s[..p] + s[p + 1..]
  {
    if p == 0 {
      RemoveKeyAbsent(s[1..], k);
      forall t | 0 <= t < |s[1..]| ensures s[1..][t].key != k {
        assert s[1..][t] == s[t + 1];
      }
    } else {
      AscendingTail(s);
      assert s[1..][p - 1] == s[p];
      assert s[0].key < k;
      RemoveKeyAt(s[1..], p - 1, k);
      assert s[..p] == [s[0]] + s[1..][..p - 1];
      assert s[p + 1..] == s[1..][p..];
    }
  }

  /** Removing an absent key changes nothing. */
  lemma {:induction false} RemoveKeyAbsent<V>(s: seq<Entry<V>>, k: int)
    requires Lookup(s, k) == None
    ensures RemoveKey(s, k) == s
  {
    if |s| > 0 {
      assert Lookup(s[1..], k) == None;
      RemoveKeyAbsent(s[1..], k);
    }
  }

  // ---------- What insert and remove promise, on the sequence ----------

  /** An entry placed between two neighbours whose keys bracket its own keeps the keys
      strictly increasing. */
  lemma AscendingInsertAt<V>(s: seq<Entry<V>>, p: nat, e: Entry<V>)
    requires Ascending(s) && p <= |s|
    requires p > 0 ==> s[p - 1].key < e.key
    requires p < |s| ==> e.key < s[p].key
    ensures Ascending(s[..p] + [e] + s[p..])
  {
    var r := s[..p] + [e] + s[p..];
    forall i, j | 0 <= i < j < |r| ensures r[i].key < r[j].key {
      if j < p {
        assert r[i] == s[i] && r[j] == s[j];
      } else if j == p {
        assert r[i] == s[i];
        assert i < p - 1 ==> s[i].key < s[p - 1].key;
      } else if i > p {
        assert r[i] == s[i - 1] && r[j] == s[j - 1];
      } else if i == p {
        assert r[j] == s[j - 1];
        assert j - 1 > p ==> s[p].key < s[j - 1].key;
      } else {
        assert r[i] == s[i] && r[j] == s[j - 1];
      }
    }
  }

  /** Dropping one entry keeps the keys strictly increasing. */
  lemma AscendingRemoveAt<V>(s: seq<Entry<V>>, p: nat)
    requires Ascending(s) && p < |s|
    ensures Ascending(s[..p] + s[p + 1..])
  {
    var r := s[..p] + s[p + 1..];
    forall i, j | 0 <= i < j < |r| ensures r[i].key < r[j].key {
      assert r[i] == s[if i < p then i else i + 1];
      assert r[j] == s[if j < p then j else j + 1];
    }
  }

  /** A bound below the new key and below every key of the list stays below every key after
      insertion. */
  lemma {:induction false} InsertSortedAbove<V>(s: seq<Entry<V>>, k: int, v: V, b: int)
    requires b < k && forall t | 0 <= t < |s| :: b < s[t].key
    ensures forall t | 0 <= t < |InsertSorted(s, k, v)| :: b < InsertSorted(s, k, v)[t].key
  {
    var r := InsertSorted(s, k, v);
    if |s| > 0 && k > s[0].key {
      var rest := s[1..];
      forall t | 0 <= t < |rest| ensures b < rest[t].key {
        assert rest[t] == s[t + 1];
      }
      InsertSortedAbove(rest, k, v, b);
      var r' := InsertSorted(rest, k, v);
      forall t | 0 <= t < |r| ensures b < r[t].key {
        if t > 0 {
          assert r[t] == r'[t - 1];
        }
      }
    } else if |s| > 0 {
      forall t | 0 <= t < |r| ensures b < r[t].key {
        if t > 0 {
          assert r[t] == s[if k == s[0].key then t else t - 1];
        }
      }
    }
  }

  /** Insertion keeps the keys strictly increasing. */
  lemma {:induction false} InsertSortedAscending<V>(s: seq<Entry<V>>, k: int, v: V)
    requires Ascending(s)
    ensures Ascending(InsertSorted(s, k, v))
  {
    var r := InsertSorted(s, k, v);
    if |s| > 0 && k > s[0].key {
      var rest := s[1..];
      AscendingTail(s);
      InsertSortedAscending(rest, k, v);
      forall t | 0 <= t < |rest| ensures s[0].key < rest[t].key {
        assert rest[t] == s[t + 1];
      }
      InsertSortedAbove(rest, k, v, s[0].key);
      var r' := InsertSorted(rest, k, v);
      forall i, j | 0 <= i < j < |r| ensures r[i].key < r[j].key {
        assert r[j] == r'[j - 1];
        if i > 0 {
          assert r[i] == r'[i - 1];
        }
      }
    } else if |s| > 0 && k == s[0].key {
      forall i, j | 0 <= i < j < |r| ensures r[i].key < r[j].key {
        assert r[i].key == s[i].key && r[j].key == s[j].key;
      }
    } else if |s| > 0 {
      forall i, j | 0 <= i < j < |r| ensures r[i].key < r[j].key {
        assert r[j] == s[j - 1];
        if i > 0 {
          assert r[i] == s[i - 1];
        } else if j > 1 {
          assert s[0].key < s[j - 1].key;
        }
      }
    }
  }

  /** After insertion the key maps to the new data and every other key keeps its data. */
  lemma {:induction false} LookupInsertSorted<V>(s: seq<Entry<V>>, k: int, v: V, k': int)
    ensures Lookup(InsertSorted(s, k, v), k') == if k' == k then Some(v) else Lookup(s, k')
  {
    if |s| > 0 {
      if k < s[0].key {
        assert ([Entry(k, v)] + s)[1..] == s;
      } else if k == s[0].key {
        assert ([Entry(k, v)] + s[1..])[1..] == s[1..];
      } else {
        assert ([s[0]] + InsertSorted(s[1..], k, v))[1..] == InsertSorted(s[1..], k, v);
        LookupInsertSorted(s[1..], k, v, k');
      }
    }
  }

  /** Insertion adds one entry for a new key and none for a present one. */
  lemma {:induction false} InsertSortedLength<V>(s: seq<Entry<V>>, k: int, v: V)
    requires Ascending(s)
    ensures |InsertSorted(s, k, v)| == if Lookup(s, k).None? then |s| + 1 else |s|
  {
    if |s| > 0 && k > s[0].key {
      AscendingTail(s);
      InsertSortedLength(s[1..], k, v);
    } else if |s| > 0 && k < s[0].key {
      InsertSortedAt(s, 0, k, v);
    }
  }

  /** Removal keeps the keys strictly increasing. */
  lemma {:induction false} RemoveKeyAscending<V>(s: seq<Entry<V>>, k: int)
    requires Ascending(s)
    ensures Ascending(RemoveKey(s, k))
  {
    if Lookup(s, k).Some? {
      var p :| 0 <= p < |s| && s[p].key == k;
      RemoveKeyAt(s, p, k);
      var r := s[..p] + s[p + 1..];
      forall i, j | 0 <= i < j < |r| ensures r[i].key < r[j].key {
        assert r[i] == s[if i < p then i else i + 1];
        assert r[j] == s[if j < p then j else j + 1];
      }
    } else {
      RemoveKeyAbsent(s, k);
    }
  }

  /** After removal the key is absent and every other key keeps its data. */
  lemma {:induction false} LookupRemoveKey<V>(s: seq<Entry<V>>, k: int, k': int)
    ensures Lookup(RemoveKey(s, k), k') == if k' == k then None else Lookup(s, k')
  {
    if |s| > 0 {
      LookupRemoveKey(s[1..], k, k');
      if s[0].key != k {
        assert ([s[0]] + RemoveKey(s[1..], k))[1..] == RemoveKey(s[1..], k);
      }
    }
  }

  /** Removing a key just inserted undoes the insertion: what is left is the old list without
      that key, which is the old list itself when the key was new. */
  lemma {:induction false} RemoveInsertSorted<V>(s: seq<Entry<V>>, k: int, v: V)
    ensures RemoveKey(InsertSorted(s, k, v), k) == RemoveKey(s, k)
    ensures Lookup(s, k) == None ==> RemoveKey(InsertSorted(s, k, v), k) == s
  {
    if |s| > 0 && k > s[0].key {
      RemoveInsertSorted(s[1..], k, v);
      assert ([s[0]] + InsertSorted(s[1..], k, v))[1..] == InsertSorted(s[1..], k, v);
    } else if |s| > 0 && k == s[0].key {
      assert ([Entry(k, v)] + s[1..])[1..] == s[1..];
    } else if |s| > 0 {
      assert ([Entry(k, v)] + s)[1..] == s;
    } else {
      assert [Entry(k, v)][1..] == [];
    }
    if Lookup(s, k) == None {
      RemoveKeyAbsent(s, k);
    }
  }

  /** Removal drops one entry for a present key of an ascending list and none for an absent one. */
  lemma RemoveKeyLength<V>(s: seq<Entry<V>>, k: int)
    requires Ascending(s)
    ensures |RemoveKey(s, k)| == if Lookup(s, k).Some? then |s| - 1 else |s|
  {
    if Lookup(s, k).Some? {
      var p :| 0 <= p < |s| && s[p].key == k;
      RemoveKeyAt(s, p, k);
    } else {
      RemoveKeyAbsent(s, k);
    }
  }

  // ---------- Release logs ----------

  /** The release calls of `ll_remove` and `ll_destroy` for one node: its key, then its data. */
  function EntryReleases<V>(freeKey: bool, freeData: bool, e: Entry<V>): seq<Release<V>>
  {
    (if freeKey then [KeyReleased(e.key)] else []) + (if freeData then [DataReleased(e.data)] else [])
  }

  /** The release calls of a replacing `ll_insert` for the node it overwrites: its data, then
      its key (the reverse of removal's order). */
  function ReplaceReleases<V>(freeKey: bool, freeData: bool, e: Entry<V>): seq<Release<V>>
  {
    (if freeData then [DataReleased(e.data)] else []) + (if freeKey then [KeyReleased(e.key)] else [])
  }

  /** The release calls of `ll_insert(k, _)` on the list `s`: those of the replaced node when
      the key is present, none otherwise. */
  function InsertReleases<V>(freeKey: bool, freeData: bool, s: seq<Entry<V>>, k: int): seq<Release<V>>
  {
    match Lookup(s, k)
    case None => []
    case Some(d) => ReplaceReleases(freeKey, freeData, Entry(k, d))
  }

  /** The release calls of `ll_remove(k)` on the list `s`: those of the removed node when the
      key is present, none otherwise. */
  function RemoveReleases<V>(freeKey: bool, freeData: bool, s: seq<Entry<V>>, k: int): seq<Release<V>>
  {
    match Lookup(s, k)
    case None => []
    case Some(d) => EntryReleases(freeKey, freeData, Entry(k, d))
  }

  /** The release calls for a run of nodes, head first. */
  function ReleasesOf<V>(freeKey: bool, freeData: bool, es: seq<Entry<V>>): seq<Release<V>>
  {
    if |es| == 0 then []
    else ReleasesOf(freeKey, freeData, es[..|es| - 1]) + EntryReleases(freeKey, freeData, es[|es| - 1])
  }

  /** Where each element of `s` lands in `r`, which is `s` with `x` spliced in at position `p`. */
  lemma SpliceAt<T>(s: seq<T>, p: nat, x: T, r: seq<T>)
    requires p <= |s| && r == s[..p] + [x] + s[p..]
    ensures |r| == |s| + 1
    ensures forall j | 0 <= j < |r| :: r[j] == if j < p then s[j] else if j == p then x else s[j - 1]
  {
  }

  /** Where each element of `s` lands in `r`, which is `s` with position `p` cut out. */
  lemma CutAt<T>(s: seq<T>, p: nat, r: seq<T>)
    requires p < |s| && r == s[..p] + s[p + 1..]
    ensures |r| == |s| - 1
    ensures forall j | 0 <= j < |r| :: r[j] == if j < p then s[j] else s[j + 1]
  {
  }

  // ---------- Nodes and their links ----------

  /** `ll_node`: a key, its data and the links to both neighbours. */
  class Node<V> {
    var key: int
    var data: V
    var prev: Node?<V>
    var next: Node?<V>

    constructor (key: int, data: V, prev: Node?<V>, next: Node?<V>)
      ensures this.key == key && this.data == data && this.prev == prev && this.next == next
    {
      this.key := key;
      this.data := data;
      this.prev := prev;
      this.next := next;
    }
  }

  /** The nodes `ns`, head first, hold the entries `cs`. */
  ghost predicate Holds<V>(ns: seq<Node<V>>, cs: seq<Entry<V>>)
    reads ns
  {
    |ns| == |cs| && forall i | 0 <= i < |ns| :: ns[i].key == cs[i].key && ns[i].data == cs[i].data
  }

  /** Each node's `prev` points at the node before it in `ns`, null for the first. */
  ghost predicate BackLinked<V>(ns: seq<Node<V>>)
    reads ns
  {
    forall i {:trigger ns[i].prev} | 0 <= i < |ns| :: ns[i].prev == if i == 0 then null else ns[i - 1]
  }

  /** Each node's `next` points at the node after it in `ns`, null for the last. */
  ghost predicate ForwardLinked<V>(ns: seq<Node<V>>)
    reads ns
  {
    forall i {:trigger ns[i].next} | 0 <= i < |ns| :: ns[i].next == if i == |ns| - 1 then null else ns[i + 1]
  }

  /** `head` and `tail` are the first and last of the nodes `ns`, both null when there are none. */
  ghost predicate Ends<V>(head: Node?<V>, tail: Node?<V>, ns: seq<Node<V>>)
  {
    head == (if |ns| == 0 then null else ns[0]) && tail == (if |ns| == 0 then null else ns[|ns| - 1])
  }

  /** The node at position `p` (when `p` is a position) appears nowhere else in `ns`. */
  ghost predicate UniqueAt<V>(ns: seq<Node<V>>, p: int)
  {
    0 <= p < |ns| ==> forall i | 0 <= i < |ns| :: ns[i] == ns[p] ==> i == p
  }

  // ---------- The list ----------

  /** `linked_list`: the head and tail nodes, the node count, the comparator and which release
      callbacks were registered. */
  class SortedList<V> {
    var head: Node?<V>
    var tail: Node?<V>
    var size: nat
    const cmp: (int, int) -> int
    const freeKey: bool
    const freeData: bool
    /** The nodes from head to tail, and what they hold. */
    ghost var nodes: seq<Node<V>>
    ghost var contents: seq<Entry<V>>
    /** Every call of a release callback, in order. */
    ghost var released: seq<Release<V>>

    /** The structure invariant: the nodes hold the entries, keys strictly increase from head
        to tail, `prev` and `next` links mirror each other, `head` and `tail` are the ends and
        `size` counts the nodes. */
    ghost predicate Valid()
      reads this, nodes
    {
      && SignConsistent(cmp)
      && size == |nodes|
      && Holds(nodes, contents)
      && Ascending(contents)
      && Ends(head, tail, nodes)
      && BackLinked(nodes)
      && ForwardLinked(nodes)
    }

    constructor Init(cmp: (int, int) -> int, freeKey: bool, freeData: bool)
      requires SignConsistent(cmp)
      ensures Valid() && head == null && tail == null && size == 0
      ensures nodes == [] && contents == [] && released == []
      ensures this.cmp == cmp && this.freeKey == freeKey && this.freeData == freeData
    {
      head, tail := null, null;
      size := 0;
      this.cmp := cmp;
      this.freeKey := freeKey;
      this.freeData := freeData;
      nodes, contents, released := [], [], [];
    }

    /** `ll_create`: null without a comparator or when the list cannot be allocated,
        otherwise an empty list. */
    static method Create(cmp: Option<(int, int) -> int>, freeKey: bool, freeData: bool, allocOk: bool)
      returns (l: SortedList?<V>)
      requires cmp.Some? ==> SignConsistent(cmp.value)
      ensures l == null <==> cmp.None? || !allocOk
      ensures l != null ==> fresh(l) && l.Valid() && l.head == null && l.tail == null && l.size == 0
      ensures l != null ==> l.contents == [] && l.released == [] && l.cmp == cmp.value
      ensures l != null ==> l.freeKey == freeKey && l.freeData == freeData
    {
      if cmp.None? {
        return null;
      }
      if !allocOk {
        return null;
      }
      l := new SortedList.Init(cmp.value, freeKey, freeData);
    }

    // ---------- The relinking done by ll_insert and ll_remove ----------

    /** The state after overwriting the node at position `p` in place, with an equal key and
        every link untouched, satisfies the invariant again. */
    twostate lemma ValidAfterOverwrite(p: nat)
      requires old(Valid()) && p < |old(nodes)|
      requires nodes == old(nodes) && size == old(size) && head == old(head) && tail == old(tail)
      requires nodes[p].key == old(contents)[p].key
      requires contents == old(contents)[p := Entry(nodes[p].key, nodes[p].data)]
      requires forall i | 0 <= i < |nodes| ::
        && nodes[i].prev == old(nodes[i].prev) && nodes[i].next == old(nodes[i].next)
        && (nodes[i] != nodes[p] ==> nodes[i].key == old(nodes[i].key) && nodes[i].data == old(nodes[i].data))
      ensures Valid()
    {
      forall i | 0 <= i < |nodes| ensures nodes[i].key == contents[i].key && nodes[i].data == contents[i].data {
        if i != p {
          assert old(nodes[i].key) != old(nodes[p].key) by {
            assert old(contents)[i].key != old(contents)[p].key;
          }
        }
      }
      forall i, j | 0 <= i < j < |contents| ensures contents[i].key < contents[j].key {
        assert contents[i].key == old(contents)[i].key && contents[j].key == old(contents)[j].key;
      }
    }

    /** In a valid list no node occurs twice: the keys they hold differ. */
    lemma NodeUnique(p: int)
      requires Valid()
      ensures UniqueAt(nodes, p)
    {
      if 0 <= p < |nodes| {
        forall i | 0 <= i < |nodes| ensures nodes[i] == nodes[p] ==> i == p {
          if i < p {
            assert contents[i].key < contents[p].key;
          } else if i > p {
            assert contents[p].key < contents[i].key;
          }
        }
      }
    }

    /** After a fresh node is linked in at position `p`, the `prev` links are right again
        when only the node after it had its `prev` changed. */
    twostate lemma BackLinkedAfterLink(p: nat)
      requires p <= |old(nodes)| && |nodes| == |old(nodes)| + 1
      requires old(BackLinked(nodes)) && UniqueAt(old(nodes), p)
      requires nodes == old(nodes)[..p] + [nodes[p]] + old(nodes)[p..]
      requires nodes[p].prev == (if p == 0 then null else nodes[p - 1])
      requires p < |old(nodes)| ==> nodes[p + 1].prev == nodes[p]
      requires forall i | 0 <= i < |old(nodes)| ::
        p == |old(nodes)| || old(nodes)[i] != old(nodes)[p] ==> old(nodes)[i].prev == old(nodes[i].prev)
      ensures BackLinked(nodes)
    {
      ghost var ns := old(nodes);
      SpliceAt(ns, p, nodes[p], nodes);
      forall j | 0 <= j < |nodes| ensures nodes[j].prev == if j == 0 then null else nodes[j - 1] {
        if j < p {
          assert nodes[j] == ns[j];
          assert j > 0 ==> nodes[j - 1] == ns[j - 1];
        } else if j > p + 1 {
          assert nodes[j] == ns[j - 1] && nodes[j - 1] == ns[j - 2];
        }
      }
    }

    /** After a fresh node is linked in at position `p`, the `next` links are right again
        when only the node before it had its `next` changed. */
    twostate lemma ForwardLinkedAfterLink(p: nat)
      requires p <= |old(nodes)| && |nodes| == |old(nodes)| + 1
      requires old(ForwardLinked(nodes)) && UniqueAt(old(nodes), p - 1)
      requires nodes == old(nodes)[..p] + [nodes[p]] + old(nodes)[p..]
      requires nodes[p].next == (if p == |old(nodes)| then null else nodes[p + 1])
      requires p > 0 ==> nodes[p - 1].next == nodes[p]
      requires forall i | 0 <= i < |old(nodes)| ::
        p == 0 || old(nodes)[i] != old(nodes)[p - 1] ==> old(nodes)[i].next == old(nodes[i].next)
      ensures ForwardLinked(nodes)
    {
      ghost var ns := old(nodes);
      SpliceAt(ns, p, nodes[p], nodes);
      forall j | 0 <= j < |nodes| ensures nodes[j].next == if j == |nodes| - 1 then null else nodes[j + 1] {
        if j < p - 1 {
          assert nodes[j] == ns[j] && nodes[j + 1] == ns[j + 1];
        } else if j > p {
          assert nodes[j] == ns[j - 1];
          assert j + 1 < |nodes| ==> nodes[j + 1] == ns[j];
        }
      }
    }

    /** After a node holding a key between its neighbours' keys is spliced in at position `p`,
        with every other node's key and data untouched, the nodes hold the entries in
        ascending order again. */
    twostate lemma HoldsAfterLink(p: nat)
      requires p <= |old(nodes)| && |nodes| == |old(nodes)| + 1
      requires old(Holds(nodes, contents)) && old(Ascending(contents))
      requires nodes == old(nodes)[..p] + [nodes[p]] + old(nodes)[p..]
      requires contents == old(contents)[..p] + [Entry(nodes[p].key, nodes[p].data)] + old(contents)[p..]
      requires p > 0 ==> old(contents)[p - 1].key < nodes[p].key
      requires p < |old(nodes)| ==> nodes[p].key < old(contents)[p].key
      requires forall i | 0 <= i < |old(nodes)| ::
        old(nodes)[i].key == old(nodes[i].key) && old(nodes)[i].data == old(nodes[i].data)
      ensures Holds(nodes, contents) && Ascending(contents)
    {
      ghost var ns, cs := old(nodes), old(contents);
      AscendingInsertAt(cs, p, Entry(nodes[p].key, nodes[p].data));
      SpliceAt(ns, p, nodes[p], nodes);
      SpliceAt(cs, p, Entry(nodes[p].key, nodes[p].data), contents);
      forall j | 0 <= j < |nodes| ensures nodes[j].key == contents[j].key && nodes[j].data == contents[j].data {
        if j < p {
          assert nodes[j] == ns[j] && contents[j] == cs[j];
        } else if j > p {
          assert nodes[j] == ns[j - 1] && contents[j] == cs[j - 1];
        }
      }
    }

    /** The state after linking a fresh node in at position `p`, between its two neighbours
        and with every other link untouched, satisfies the invariant again. */
    twostate lemma ValidAfterLink(p: nat)
      requires old(Valid()) && p <= |old(nodes)| && |nodes| == |old(nodes)| + 1
      requires UniqueAt(old(nodes), p) && UniqueAt(old(nodes), p - 1)
      requires nodes == old(nodes)[..p] + [nodes[p]] + old(nodes)[p..]
      requires contents == old(contents)[..p] + [Entry(nodes[p].key, nodes[p].data)] + old(contents)[p..]
      requires p > 0 ==> old(contents)[p - 1].key < nodes[p].key
      requires p < |old(nodes)| ==> nodes[p].key < old(contents)[p].key
      requires size == old(size) + 1
      requires head == (if p == 0 then nodes[p] else old(head))
      requires tail == (if p == |old(nodes)| then nodes[p] else old(tail))
      requires nodes[p].prev == (if p == 0 then null else nodes[p - 1])
      requires nodes[p].next == (if p == |old(nodes)| then null else nodes[p + 1])
      requires p > 0 ==> nodes[p - 1].next == nodes[p]
      requires p < |old(nodes)| ==> nodes[p + 1].prev == nodes[p]
      requires forall i | 0 <= i < |old(nodes)| ::
        && old(nodes)[i].key == old(nodes[i].key) && old(nodes)[i].data == old(nodes[i].data)
        && (p == 0 || old(nodes)[i] != old(nodes)[p - 1] ==> old(nodes)[i].next == old(nodes[i].next))
        && (p == |old(nodes)| || old(nodes)[i] != old(nodes)[p] ==> old(nodes)[i].prev == old(nodes[i].prev))
      ensures Valid()
    {
      HoldsAfterLink(p);
      SpliceAt(old(nodes), p, nodes[p], nodes);
      BackLinkedAfterLink(p);
      ForwardLinkedAfterLink(p);
    }

    /** After the node at position `p` is unlinked, the `prev` links are right again when only
        the node after it had its `prev` changed. */
    twostate lemma BackLinkedAfterUnlink(p: nat)
      requires p < |old(nodes)|
      requires old(BackLinked(nodes)) && UniqueAt(old(nodes), p + 1)
      requires nodes == old(nodes)[..p] + old(nodes)[p + 1..]
      requires p < |old(nodes)| - 1 ==> old(nodes)[p + 1].prev == old(nodes[p].prev)
      requires forall i | 0 <= i < |old(nodes)| ::
        p == |old(nodes)| - 1 || old(nodes)[i] != old(nodes)[p + 1] ==> old(nodes)[i].prev == old(nodes[i].prev)
      ensures BackLinked(nodes)
    {
      ghost var ns := old(nodes);
      CutAt(ns, p, nodes);
      forall j | 0 <= j < |nodes| ensures nodes[j].prev == if j == 0 then null else nodes[j - 1] {
        if j < p {
          assert nodes[j] == ns[j];
          assert j > 0 ==> nodes[j - 1] == ns[j - 1];
        } else if j > p {
          assert nodes[j] == ns[j + 1] && nodes[j - 1] == ns[j];
        } else {
          assert nodes[j] == ns[p + 1];
          assert j > 0 ==> nodes[j - 1] == ns[p - 1];
        }
      }
    }

    /** After the node at position `p` is unlinked, the `next` links are right again when only
        the node before it had its `next` changed. */
    twostate lemma ForwardLinkedAfterUnlink(p: nat)
      requires p < |old(nodes)|
      requires old(ForwardLinked(nodes)) && UniqueAt(old(nodes), p - 1)
      requires nodes == old(nodes)[..p] + old(nodes)[p + 1..]
      requires p > 0 ==> old(nodes)[p - 1].next == old(nodes[p].next)
      requires forall i | 0 <= i < |old(nodes)| ::
        p == 0 || old(nodes)[i] != old(nodes)[p - 1] ==> old(nodes)[i].next == old(nodes[i].next)
      ensures ForwardLinked(nodes)
    {
      ghost var ns := old(nodes);
      CutAt(ns, p, nodes);
      forall j | 0 <= j < |nodes| ensures nodes[j].next == if j == |nodes| - 1 then null else nodes[j + 1] {
        if j < p - 1 {
          assert nodes[j] == ns[j] && nodes[j + 1] == ns[j + 1];
        } else if j == p - 1 {
          assert nodes[j] == ns[p - 1];
          assert j + 1 < |nodes| ==> nodes[j + 1] == ns[p + 1];
        } else {
          assert nodes[j] == ns[j + 1];
          assert j + 1 < |nodes| ==> nodes[j + 1] == ns[j + 2];
        }
      }
    }

    /** After the node at position `p` is cut out, with every other node's key and data
        untouched, the nodes hold the entries in ascending order again. */
    twostate lemma HoldsAfterUnlink(p: nat)
      requires p < |old(nodes)|
      requires old(Holds(nodes, contents)) && old(Ascending(contents))
      requires nodes == old(nodes)[..p] + old(nodes)[p + 1..]
      requires contents == old(contents)[..p] + old(contents)[p + 1..]
      requires forall i | 0 <= i < |old(nodes)| ::
        old(nodes)[i].key == old(nodes[i].key) && old(nodes)[i].data == old(nodes[i].data)
      ensures Holds(nodes, contents) && Ascending(contents)
    {
      ghost var ns, cs := old(nodes), old(contents);
      AscendingRemoveAt(cs, p);
      CutAt(ns, p, nodes);
      CutAt(cs, p, contents);
      forall j | 0 <= j < |nodes| ensures nodes[j].key == contents[j].key && nodes[j].data == contents[j].data {
        if j < p {
          assert nodes[j] == ns[j] && contents[j] == cs[j];
        } else {
          assert nodes[j] == ns[j + 1] && contents[j] == cs[j + 1];
        }
      }
    }

    /** The state after unlinking the node at position `p`, with its two neighbours pointing
        at each other and every other link untouched, satisfies the invariant again. */
    twostate lemma ValidAfterUnlink(p: nat)
      requires old(Valid()) && p < |old(nodes)|
      requires UniqueAt(old(nodes), p + 1) && UniqueAt(old(nodes), p - 1)
      requires nodes == old(nodes)[..p] + old(nodes)[p + 1..]
      requires contents == old(contents)[..p] + old(contents)[p + 1..]
      requires size + 1 == old(size)
      requires head == (if p == 0 then old(nodes[p].next) else old(head))
      requires tail == (if p == |old(nodes)| - 1 then old(nodes[p].prev) else old(tail))
      requires p > 0 ==> old(nodes)[p - 1].next == old(nodes[p].next)
      requires p < |old(nodes)| - 1 ==> old(nodes)[p + 1].prev == old(nodes[p].prev)
      requires forall i | 0 <= i < |old(nodes)| ::
        && old(nodes)[i].key == old(nodes[i].key) && old(nodes)[i].data == old(nodes[i].data)
        && (p == 0 || old(nodes)[i] != old(nodes)[p - 1] ==> old(nodes)[i].next == old(nodes[i].next))
        && (p == |old(nodes)| - 1 || old(nodes)[i] != old(nodes)[p + 1] ==> old(nodes)[i].prev == old(nodes[i].prev))
      ensures Valid()
    {
      HoldsAfterUnlink(p);
      CutAt(old(nodes), p, nodes);
      BackLinkedAfterUnlink(p);
      ForwardLinkedAfterUnlink(p);
    }

    /** The replacing branches of `ll_insert`: the node at position `p`, whose key compares
        equal, releases its old data and then its old key, and takes the new key and data. */
    method Overwrite(cur: Node<V>, ghost p: nat, key: int, data: V)
      requires Valid() && p < |nodes| && nodes[p] == cur && cur.key == key
      modifies this, cur
      ensures Valid()
      ensures nodes == old(nodes) && size == old(size)
      ensures contents == InsertSorted(old(contents), key, data)
      ensures released == old(released) + ReplaceReleases(freeKey, freeData, old(contents)[p])
      ensures Lookup(old(contents), key) == Some(old(contents)[p].data)
      ensures released == old(released) + InsertReleases(freeKey, freeData, old(contents), key)
    {
      ghost var cs := contents;
      LookupAt(cs, p, key);
      released := released + ReplaceReleases(freeKey, freeData, Entry(cur.key, cur.data));
      cur.key := key;
      cur.data := data;
      contents := cs[p := Entry(key, data)];
      ValidAfterOverwrite(p);
      ReplaceSortedAt(cs, p, key, data);
    }

    /** The allocation in `ll_insert` for a key that belongs at position `p`, between `a` and
        `b`: -1 with nothing changed when it fails, the new node linked in otherwise. */
    method LinkNew(a: Node?<V>, b: Node?<V>, ghost p: nat, key: int, data: V, allocOk: bool) returns (r: int)
      requires Valid() && p <= |nodes|
      requires a == (if p == 0 then null else nodes[p - 1])
      requires b == (if p == |nodes| then null else nodes[p])
      requires p > 0 ==> contents[p - 1].key < key
      requires p < |nodes| ==> key < contents[p].key
      modifies this, a, b
      ensures Valid()
      ensures r == (if allocOk then 0 else -1)
      ensures Lookup(old(contents), key) == None
      ensures r == 0 ==> contents == InsertSorted(old(contents), key, data) && size == old(size) + 1
      ensures r == -1 ==> contents == old(contents) && nodes == old(nodes) && size == old(size)
      ensures released == old(released)
      ensures forall n | n in nodes :: n in old(nodes) || fresh(n)
    {
      AbsentBetween(contents, p, key);
      if !allocOk {
        return -1;
      }
      Link(a, b, p, key, data);
      return 0;
    }

    /** The linking branches of `ll_insert`: a fresh node at position `p`, between `a` (null
        when it becomes the head) and `b` (null when it becomes the tail), then `size++`. */
    method Link(a: Node?<V>, b: Node?<V>, ghost p: nat, key: int, data: V)
      requires Valid() && p <= |nodes|
      requires a == (if p == 0 then null else nodes[p - 1])
      requires b == (if p == |nodes| then null else nodes[p])
      requires p > 0 ==> contents[p - 1].key < key
      requires p < |nodes| ==> key < contents[p].key
      modifies this, a, b
      ensures Valid()
      ensures |nodes| == |old(nodes)| + 1 && fresh(nodes[p])
      ensures nodes == old(nodes)[..p] + [nodes[p]] + old(nodes)[p..]
      ensures Lookup(old(contents), key) == None
      ensures contents == InsertSorted(old(contents), key, data)
      ensures released == old(released)
      ensures forall i | 0 <= i < |nodes| :: nodes[i] in old(nodes) || fresh(nodes[i])
    {
      ghost var ns, cs := nodes, contents;
      NodeUnique(p);
      NodeUnique(p - 1);
      var n := new Node(key, data, a, b);
      if a != null {
        a.next := n;
      } else {
        head := n;
      }
      if b != null {
        b.prev := n;
      } else {
        tail := n;
      }
      size := size + 1;
      nodes := ns[..p] + [n] + ns[p..];
      contents := cs[..p] + [Entry(key, data)] + cs[p..];
      assert released == old(released);
      assert nodes[p] == n;
      assert p > 0 ==> nodes[p - 1] == a;
      assert p < |ns| ==> nodes[p + 1] == b;
      ValidAfterLink(p);
      InsertSortedAt(cs, p, key, data);
      forall i | 0 <= i < |nodes| && i != p
        ensures nodes[i] in ns
      {
        assert nodes[i] == if i < p then ns[i] else ns[i - 1];
      }
    }

    /** The unlinking in `ll_remove`: the node at position `p` leaves the chain (moving `head`
        or `tail` when it was first or last), its key and then its data are released, and
        `size--`. */
    method Unlink(cur: Node<V>, ghost p: nat)
      requires Valid() && p < |nodes| && nodes[p] == cur
      modifies this, cur.prev, cur.next
      ensures Valid()
      ensures nodes == old(nodes)[..p] + old(nodes)[p + 1..]
      ensures contents == RemoveKey(old(contents), old(contents)[p].key)
      ensures released == old(released) + EntryReleases(freeKey, freeData, old(contents)[p])
    {
      ghost var ns, cs := nodes, contents;
      NodeUnique(p + 1);
      NodeUnique(p - 1);
      var a, b := cur.prev, cur.next;
      if a != null {
        a.next := b;
      } else {
        head := b;
      }
      if b != null {
        b.prev := a;
      } else {
        tail := a;
      }
      released := released + EntryReleases(freeKey, freeData, Entry(cur.key, cur.data));
      size := size - 1;
      nodes := ns[..p] + ns[p + 1..];
      contents := cs[..p] + cs[p + 1..];
      ValidAfterUnlink(p);
      RemoveKeyAt(cs, p, cs[p].key);
    }
  
    // ---------- The operations ----------

    /** `ll_insert`: an empty list gets its first node; a key comparing equal to the head's or
        the tail's replaces that node's key and data; a key past the tail is appended and one
        before the head prepended; otherwise the list is walked from the tail when the key
        compares below the tail by less than it compares above the head, from the head
        otherwise, and the key replaces an equal one or is linked in before the first greater
        key. Only linking allocates, so the call fails, changing nothing, exactly when the key is
        new and allocation fails. */
    method Insert(key: int, data: V, allocOk: bool) returns (r: int)
      requires Valid()
      modifies this, nodes
      ensures Valid()
      ensures r == 0 || r == -1
      ensures r == -1 <==> !allocOk && Lookup(old(contents), key) == None
      ensures r == 0 ==> contents == InsertSorted(old(contents), key, data)
      ensures r == -1 ==> contents == old(contents)
      ensures r == -1 || Lookup(old(contents), key).Some? ==> nodes == old(nodes)
      ensures released == old(released) + InsertReleases(freeKey, freeData, old(contents), key)
      ensures size == if r == 0 && Lookup(old(contents), key) == None then old(size) + 1 else old(size)
      ensures forall i | 0 <= i < |nodes| :: nodes[i] in old(nodes) || fresh(nodes[i])
    {
      if head == null {
        r := LinkNew(null, null, 0, key, data, allocOk);
        return;
      }
      var cmpHead := cmp(key, head.key);
      var cmpTail := cmp(key, tail.key);
      ghost var last := |nodes| - 1;
      if cmpHead == 0 {
        Overwrite(head, 0, key, data);
        return 0;
      }
      if cmpTail == 0 {
        Overwrite(tail, last, key, data);
        return 0;
      }
      if cmpTail > 0 {
        r := LinkNew(tail, null, |nodes|, key, data, allocOk);
        return;
      } else if cmpHead < 0 {
        r := LinkNew(null, head, 0, key, data, allocOk);
        return;
      }
      if cmpTail < 0 && -cmpTail < cmpHead {
        r := InsertFromTail(key, data, allocOk);
      } else {
        r := InsertFromHead(key, data, allocOk);
      }
    }

    /** The backward walk of `ll_insert`, for a key strictly between the head's and the tail's:
        from the node before the tail, step back while the key compares below, then replace an
        equal key or link a new node after the node reached. */
    method InsertFromTail(key: int, data: V, allocOk: bool) returns (r: int)
      requires Valid() && |nodes| >= 2
      requires contents[0].key < key < contents[|nodes| - 1].key
      modifies this, nodes
      ensures Valid()
      ensures r == 0 || r == -1
      ensures r == -1 <==> !allocOk && Lookup(old(contents), key) == None
      ensures r == 0 ==> contents == InsertSorted(old(contents), key, data)
      ensures r == -1 ==> contents == old(contents)
      ensures r == -1 || Lookup(old(contents), key).Some? ==> nodes == old(nodes)
      ensures released == old(released) + InsertReleases(freeKey, freeData, old(contents), key)
      ensures size == if r == 0 && Lookup(old(contents), key) == None then old(size) + 1 else old(size)
      ensures forall n | n in nodes :: n in old(nodes) || fresh(n)
    {
      var cur := tail.prev;
      ghost var q: int := |nodes| - 2;
      while cur != null && cmp(key, cur.key) < 0
        invariant -1 <= q <= |nodes| - 2
        invariant cur == if q < 0 then null else nodes[q]
        invariant key < contents[q + 1].key
        decreases q + 1
      {
        cur := cur.prev;
        q := q - 1;
      }
      if q < 0 {
        assert false;
      }
      if cmp(key, cur.key) == 0 {
        Overwrite(cur, q, key, data);
        return 0;
      }
      r := LinkNew(cur, cur.next, q + 1, key, data, allocOk);
    }

    /** The forward walk of `ll_insert`, for a key strictly between the head's and the tail's:
        from the node after the head, step on while the key compares above, then replace an
        equal key or link a new node before the node reached. */
    method InsertFromHead(key: int, data: V, allocOk: bool) returns (r: int)
      requires Valid() && |nodes| >= 2
      requires contents[0].key < key < contents[|nodes| - 1].key
      modifies this, nodes
      ensures Valid()
      ensures r == 0 || r == -1
      ensures r == -1 <==> !allocOk && Lookup(old(contents), key) == None
      ensures r == 0 ==> contents == InsertSorted(old(contents), key, data)
      ensures r == -1 ==> contents == old(contents)
      ensures r == -1 || Lookup(old(contents), key).Some? ==> nodes == old(nodes)
      ensures released == old(released) + InsertReleases(freeKey, freeData, old(contents), key)
      ensures size == if r == 0 && Lookup(old(contents), key) == None then old(size) + 1 else old(size)
      ensures forall n | n in nodes :: n in old(nodes) || fresh(n)
    {
      var cur := head.next;
      ghost var q: int := 1;
      while cur != null && cmp(key, cur.key) > 0
        invariant 1 <= q <= |nodes|
        invariant cur == if q == |nodes| then null else nodes[q]
        invariant contents[q - 1].key < key
        decreases |nodes| - q
      {
        cur := cur.next;
        q := q + 1;
      }
      if q == |nodes| {
        assert false;
      }
      if cmp(key, cur.key) == 0 {
        Overwrite(cur, q, key, data);
        return 0;
      }
      r := LinkNew(cur.prev, cur, q, key, data, allocOk);
    }

    /** The walk shared by `ll_get` and `ll_remove`: from the head, stop at the first node
        whose key compares equal (found) or greater (absent, as keys only grow from there). */
    method Locate(key: int) returns (cur: Node?<V>, ghost q: nat)
      requires Valid()
      ensures cur == null <==> Lookup(contents, key) == None
      ensures cur != null ==> q < |nodes| && nodes[q] == cur && contents[q].key == key
    {
      cur := head;
      q := 0;
      while cur != null
        invariant 0 <= q <= |nodes|
        invariant cur == if q == |nodes| then null else nodes[q]
        invariant q > 0 ==> contents[q - 1].key < key
        decreases |nodes| - q
      {
        var c := cmp(key, cur.key);
        if c == 0 {
          LookupAt(contents, q, key);
          return;
        }
        if c < 0 {
          AbsentBetween(contents, q, key);
          return null, q;
        }
        cur := cur.next;
        q := q + 1;
      }
      AbsentBetween(contents, q, key);
    }

    /** `ll_get`: the data under the node the walk stops at, if its key compares equal. */
    method Get(key: int) returns (r: Option<V>)
      requires Valid()
      ensures r == Lookup(contents, key)
    {
      var cur;
      ghost var q;
      cur, q := Locate(key);
      if cur == null {
        return None;
      }
      LookupAt(contents, q, key);
      return Some(cur.data);
    }

    /** `ll_remove`: -1 on an empty list or when the walk finds no equal key; otherwise the
        node found is unlinked and released. */
    method Remove(key: int) returns (r: int, ghost p: nat)
      requires Valid()
      modifies this, nodes
      ensures Valid()
      ensures r == 0 || r == -1
      ensures r == 0 <==> Lookup(old(contents), key).Some?
      ensures contents == RemoveKey(old(contents), key)
      ensures released == old(released) + RemoveReleases(freeKey, freeData, old(contents), key)
      ensures old(size) == size + (if r == 0 then 1 else 0)
      ensures r == -1 ==> nodes == old(nodes) && released == old(released)
      ensures r == 0 ==>
        p < |old(nodes)| && old(contents)[p].key == key && nodes == old(nodes)[..p] + old(nodes)[p + 1..]
      ensures forall i | 0 <= i < |nodes| :: nodes[i] in old(nodes)
    {
      if head == null {
        RemoveKeyAbsent(contents, key);
        return -1, 0;
      }
      var cur;
      ghost var q;
      cur, q := Locate(key);
      if cur == null {
        RemoveKeyAbsent(contents, key);
        return -1, 0;
      }
      LookupAt(contents, q, key);
      ghost var ns := nodes;
      Unlink(cur, q);
      forall i | 0 <= i < |nodes|
        ensures nodes[i] in ns
      {
        assert nodes[i] == if i < q then ns[i] else ns[i + 1];
      }
      return 0, q;
    }

    /** `ll_foreach`: the callback sees the entries from head to tail, stopping once `limit`
        calls were made when `limit` is not 0. */
    method Foreach(limit: nat) returns (visited: seq<Entry<V>>)
      requires Valid()
      ensures visited == contents[..VisitCount(limit, |contents|)]
    {
      visited := [];
      var cur := head;
      var count := 0;
      while cur != null
        invariant 0 <= count <= |nodes|
        invariant cur == if count == |nodes| then null else nodes[count]
        invariant visited == contents[..count]
        invariant limit != 0 ==> count < limit
        decreases |nodes| - count
      {
        visited := visited + [Entry(cur.key, cur.data)];
        count := count + 1;
        if limit != 0 && count >= limit {
          return;
        }
        cur := cur.next;
      }
    }

    /** `ll_foreach_reverse`: the callback sees the entries from tail to head, stopping once
        `limit` calls were made when `limit` is not 0. */
    method ForeachReverse(limit: nat) returns (visited: seq<Entry<V>>)
      requires Valid()
      ensures |visited| == VisitCount(limit, |contents|)
      ensures forall t | 0 <= t < |visited| :: visited[t] == contents[|contents| - 1 - t]
    {
      visited := [];
      var cur := tail;
      var count := 0;
      ghost var q := |nodes|;
      while cur != null
        invariant 0 <= q <= |nodes| && |visited| == |nodes| - q == count
        invariant cur == if q == 0 then null else nodes[q - 1]
        invariant forall t | 0 <= t < |visited| :: visited[t] == contents[|contents| - 1 - t]
        invariant limit != 0 ==> count < limit
        decreases q
      {
        visited := visited + [Entry(cur.key, cur.data)];
        count := count + 1;
        q := q - 1;
        if limit != 0 && count >= limit {
          return;
        }
        cur := cur.prev;
      }
    }

    /** `ll_size`: the node count kept by insert and remove. */
    function Size(): (n: nat)
      requires Valid()
      reads this, nodes
      ensures n == |contents|
    {
      size
    }

    /** `ll_destroy`: walks from the head releasing each node's key and then its data. */
    method Destroy()
      requires Valid()
      modifies this
      ensures released == old(released) + ReleasesOf(freeKey, freeData, old(contents))
    {
      ghost var log := released;
      var cur := head;
      ghost var q := 0;
      while cur != null
        invariant 0 <= q <= |nodes|
        invariant cur == if q == |nodes| then null else nodes[q]
        invariant log == old(released) + ReleasesOf(freeKey, freeData, contents[..q])
        decreases |nodes| - q
      {
        var next := cur.next;
        log := log + EntryReleases(freeKey, freeData, Entry(cur.key, cur.data));
        assert contents[..q + 1][..q] == contents[..q];
        q := q + 1;
        cur := next;
      }
      assert contents[..q] == contents;
      released := log;
    }
  }
}
