/**
 * The LRU cache of systemDesign.cs: a dictionary from key to the node that
 * holds the key's entry, plus a recency list whose head is the most recently
 * used entry and whose tail is the next one to be evicted.
 *
 * The list is a `seq<Entry>` (head first); the dictionary maps every key to
 * the entry its node holds. Node handles are identified by their contents,
 * which is sound because the list never holds two entries with one key.
 */
module Lru {
  import opened Sets

  /** The `(key, value)` tuple stored in one list node. */
  datatype Entry = Entry(key: int, value: int)

  /** The keys present in a recency list. */
  function Keys(list: seq<Entry>): set<int>
  {
    if list == [] then {} else {list[0].key} + Keys(list[1..])
  }

  /** No key occurs twice in the list. */
  predicate DistinctKeys(list: seq<Entry>)
  {
    list == [] || (list[0].key !in Keys(list[1..]) && DistinctKeys(list[1..]))
  }

  /** The dictionary that indexes a list: each key to the entry of its (first) node. */
  function AsMap(list: seq<Entry>): map<int, Entry>
  {
    if list == [] then map[] else AsMap(list[1..])[list[0].key := list[0]]
  }

  /** The representation invariant of the cache, on its abstract list. */
  predicate Inv(capacity: int, list: seq<Entry>)
  {
    1 <= capacity && DistinctKeys(list) && |list| <= capacity
  }

  /**
   * The list with the node of `key` unlinked (LinkedList.Remove): every
   * other entry stays, in the same relative order.
   */
  function Without(list: seq<Entry>, key: int): seq<Entry>
  {
    if list == [] then []
    else if list[0].key == key then Without(list[1..], key)
    else [list[0]] + Without(list[1..], key)
  }

  /** The value stored under `key`, or -1 when the key is absent (the source's sentinel). */
  function Lookup(list: seq<Entry>, key: int): int
  {
    if list == [] then -1
    else if list[0].key == key then list[0].value
    else Lookup(list[1..], key)
  }

  /** The list without its tail node (LinkedList.RemoveLast). */
  function DropLast(list: seq<Entry>): seq<Entry>
    requires list != []
  {
    list[..|list| - 1]
  }

  /** The entry `Put` evicts from a full cache: the tail of the list. */
  function LeastRecent(list: seq<Entry>): Entry
    requires list != []
  {
    list[|list| - 1]
  }

  /** The recency list after `Get(key)`: a present key moves to the head. */
  function AfterGet(list: seq<Entry>, key: int): seq<Entry>
  {
    if key in Keys(list) then [Entry(key, Lookup(list, key))] + Without(list, key)
    else list
  }

  /**
   * The recency list after `Put(key, value)`: an existing node is unlinked,
   * otherwise a full cache first drops its tail; then the new entry goes to
   * the head.
   */
  function AfterPut(capacity: int, list: seq<Entry>, key: int, value: int): seq<Entry>
    requires Inv(capacity, list)
  {
    var rest :=
      if key in Keys(list) then Without(list, key)
      else if |list| == capacity then DropLast(list)
      else list;
    [Entry(key, value)] + rest
  }

  // ---------------------------------------------------------------------
  // Facts about the list operations

  lemma Cons(e: Entry, rest: seq<Entry>)
    ensures ([e] + rest)[1..] == rest
    ensures Keys([e] + rest) == {e.key} + Keys(rest)
    ensures AsMap([e] + rest) == AsMap(rest)[e.key := e]
    ensures Lookup([e] + rest, e.key) == e.value
    ensures DistinctKeys([e] + rest) <==> e.key !in Keys(rest) && DistinctKeys(rest)
  {
    assert ([e] + rest)[1..] == rest;
  }

  lemma {:induction false} KeysCount(list: seq<Entry>)
    requires DistinctKeys(list)
    ensures |Keys(list)| == |list|
  {
    if list != [] {
      KeysCount(list[1..]);
    }
  }

  /** The dictionary's key set is the list's key set, and it maps each key to the entry `Lookup` finds. */
  lemma {:induction false} MapMatchesList(list: seq<Entry>)
    ensures AsMap(list).Keys == Keys(list)
    ensures forall k :: k in Keys(list) ==> AsMap(list)[k] == Entry(k, Lookup(list, k))
  {
    if list != [] {
      MapMatchesList(list[1..]);
    }
  }

  lemma {:induction false} LookupAbsent(list: seq<Entry>, key: int)
    requires key !in Keys(list)
    ensures Lookup(list, key) == -1
  {
    if list != [] {
      LookupAbsent(list[1..], key);
    }
  }

  /** Unlinking `key` removes exactly that key and nothing else. */
  lemma {:induction false} WithoutFacts(list: seq<Entry>, key: int)
    requires DistinctKeys(list)
    ensures Keys(Without(list, key)) == Keys(list) - {key}
    ensures DistinctKeys(Without(list, key))
    ensures |Without(list, key)| == if key in Keys(list) then |list| - 1 else |list|
    ensures AsMap(Without(list, key)) == AsMap(list) - {key}
    ensures forall k :: k != key ==> Lookup(Without(list, key), k) == Lookup(list, k)
    ensures key !in Keys(list) ==> Without(list, key) == list
  {
    if list != [] {
      var tail := list[1..];
      WithoutFacts(tail, key);
      if list[0].key != key {
        Cons(list[0], Without(tail, key));
        assert list == [list[0]] + tail;
      } else {
        assert AsMap(tail) - {key} == AsMap(list) - {key};
      }
    }
  }

  lemma {:induction false} KeysHoldIndices(list: seq<Entry>)
    ensures forall i :: 0 <= i < |list| ==> list[i].key in Keys(list)
  {
    if list != [] {
      KeysHoldIndices(list[1..]);
      assert forall i :: 1 <= i < |list| ==> list[i] == list[1..][i - 1];
    }
  }

  /** Dropping the tail removes exactly the least recently used key. */
  lemma {:induction false} DropLastFacts(list: seq<Entry>)
    requires DistinctKeys(list) && list != []
    ensures Keys(DropLast(list)) == Keys(list) - {LeastRecent(list).key}
    ensures DistinctKeys(DropLast(list))
    ensures AsMap(DropLast(list)) == AsMap(list) - {LeastRecent(list).key}
    ensures forall k :: k != LeastRecent(list).key ==> Lookup(DropLast(list), k) == Lookup(list, k)
  {
    if |list| == 1 {
      assert DropLast(list) == [];
    } else {
      var tail := list[1..];
      DropLastFacts(tail);
      assert DropLast(list) == [list[0]] + DropLast(tail);
      assert LeastRecent(tail) == LeastRecent(list);
      Cons(list[0], DropLast(tail));
      assert list[0].key != LeastRecent(list).key by {
        assert LeastRecent(tail) == tail[|tail| - 1];
        KeysHoldIndices(tail);
      }
    }
  }

  // ---------------------------------------------------------------------
  // What Get and Put do to the recency list

  /** `Get` keeps the key set, the size and the invariant. */
  lemma AfterGetKeys(capacity: int, list: seq<Entry>, key: int)
    requires Inv(capacity, list)
    ensures Keys(AfterGet(list, key)) == Keys(list)
    ensures |AfterGet(list, key)| == |list|
    ensures Inv(capacity, AfterGet(list, key))
  {
    if key in Keys(list) {
      WithoutFacts(list, key);
      Cons(Entry(key, Lookup(list, key)), Without(list, key));
    }
  }

  /**
   * `Put` keeps the invariant; an existing key keeps the size, a new key
   * grows a non-full cache by one and leaves a full one at capacity,
   * having lost its least recently used key.
   */
  lemma AfterPutKeys(capacity: int, list: seq<Entry>, key: int, value: int)
    requires Inv(capacity, list)
    ensures Inv(capacity, AfterPut(capacity, list, key, value))
    ensures key in Keys(list) ==>
      Keys(AfterPut(capacity, list, key, value)) == Keys(list) &&
      |AfterPut(capacity, list, key, value)| == |list|
    ensures key !in Keys(list) && |list| < capacity ==>
      Keys(AfterPut(capacity, list, key, value)) == Keys(list) + {key} &&
      |AfterPut(capacity, list, key, value)| == |list| + 1
    ensures key !in Keys(list) && |list| == capacity ==>
      Keys(AfterPut(capacity, list, key, value)) == Keys(list) - {LeastRecent(list).key} + {key} &&
      |AfterPut(capacity, list, key, value)| == capacity
  {
    var e := Entry(key, value);
    if key in Keys(list) {
      WithoutFacts(list, key);
      Cons(e, Without(list, key));
    } else if |list| == capacity {
      DropLastFacts(list);
      Cons(e, DropLast(list));
    } else {
      Cons(e, list);
    }
  }

  /**
   * `Get` of an absent key returns -1 and leaves the list as it was. `Get`
   * of a present key puts that key at the head and leaves every other entry
   * where it was relative to the rest.
   */
  lemma GetSemantics(capacity: int, list: seq<Entry>, key: int)
    requires Inv(capacity, list)
    ensures key !in Keys(list) ==> Lookup(list, key) == -1 && AfterGet(list, key) == list
    ensures key in Keys(list) ==>
      AfterGet(list, key)[0].key == key &&
      Lookup(AfterGet(list, key), key) == Lookup(list, key) &&
      Without(AfterGet(list, key), key) == Without(list, key)
  {
    if key in Keys(list) {
      var e := Entry(key, Lookup(list, key));
      WithoutFacts(list, key);
      WithoutFacts(Without(list, key), key);
      Cons(e, Without(list, key));
      assert ([e] + Without(list, key))[0] == e;
    } else {
      LookupAbsent(list, key);
    }
  }

  /**
   * After `Put(key, value)` the key is at the head and reads back as `value`;
   * the other entries keep their relative order, and only a full cache
   * given a new key loses one: its tail.
   */
  lemma PutSemantics(capacity: int, list: seq<Entry>, key: int, value: int)
    requires Inv(capacity, list)
    ensures AfterPut(capacity, list, key, value)[0] == Entry(key, value)
    ensures Lookup(AfterPut(capacity, list, key, value), key) == value
    ensures Without(AfterPut(capacity, list, key, value), key) ==
      if key !in Keys(list) && |list| == capacity then DropLast(list) else Without(list, key)
  {
    var e := Entry(key, value);
    var rest :=
      if key in Keys(list) then Without(list, key)
      else if |list| == capacity then DropLast(list)
      else list;
    Cons(e, rest);
    WithoutFacts(list, key);
    if key in Keys(list) {
      WithoutFacts(Without(list, key), key);
    } else if |list| == capacity {
      DropLastFacts(list);
      WithoutFacts(DropLast(list), key);
    }
    assert Without([e] + rest, key) == Without(rest, key);
  }

  /**
   * `Put` leaves every other key's value alone, except the one entry a full
   * cache evicts for a new key: the least recently used one.
   */
  lemma PutOtherKeys(capacity: int, list: seq<Entry>, key: int, value: int, other: int)
    requires Inv(capacity, list) && other != key
    ensures var evicted := key !in Keys(list) && |list| == capacity && LeastRecent(list).key == other;
      Lookup(AfterPut(capacity, list, key, value), other) == if evicted then -1 else Lookup(list, other)
  {
    var e := Entry(key, value);
    if key in Keys(list) {
      WithoutFacts(list, key);
      Cons(e, Without(list, key));
    } else if |list| == capacity {
      DropLastFacts(list);
      Cons(e, DropLast(list));
      if LeastRecent(list).key == other {
        LookupAbsent(DropLast(list), other);
      }
    } else {
      Cons(e, list);
    }
  }

  /** With room for two entries, the key just read by `Get` survives the next `Put`. */
  lemma RecentlyUsedSurvives(capacity: int, list: seq<Entry>, key: int, newKey: int, value: int)
    requires Inv(capacity, list) && capacity >= 2 && key in Keys(list)
    ensures Inv(capacity, AfterGet(list, key))
    ensures key in Keys(AfterPut(capacity, AfterGet(list, key), newKey, value))
  {
    var got := AfterGet(list, key);
    AfterGetKeys(capacity, list, key);
    GetSemantics(capacity, list, key);
    AfterPutKeys(capacity, got, newKey, value);
    if newKey !in Keys(got) && |got| == capacity {
      KeysHoldIndices(got[1..]);
      assert LeastRecent(got) == got[1..][|got| - 2];
      Cons(got[0], got[1..]);
      assert got == [got[0]] + got[1..];
    }
  }

  // ---------------------------------------------------------------------
  // Replaying a sequence of calls

  /** One call on the cache, as a caller issues it. */
  datatype Op = GetOp(key: int) | PutOp(key: int, value: int)

  function Step(capacity: int, list: seq<Entry>, op: Op): seq<Entry>
    requires Inv(capacity, list)
  {
    match op
    case GetOp(k) => AfterGet(list, k)
    case PutOp(k, v) => AfterPut(capacity, list, k, v)
  }

  lemma StepKeepsInv(capacity: int, list: seq<Entry>, op: Op)
    requires Inv(capacity, list)
    ensures Inv(capacity, Step(capacity, list, op))
  {
    match op
    case GetOp(k) => AfterGetKeys(capacity, list, k);
    case PutOp(k, v) => AfterPutKeys(capacity, list, k, v);
  }

  /** The recency list after replaying `ops` from `list`. */
  function Replay(capacity: int, list: seq<Entry>, ops: seq<Op>): seq<Entry>
    requires Inv(capacity, list)
    decreases |ops|
  {
    if ops == [] then list
    else
      StepKeepsInv(capacity, list, ops[0]);
      Replay(capacity, Step(capacity, list, ops[0]), ops[1..])
  }

  /** The keys written by the `Put` calls of a sequence of operations. */
  function PutKeys(ops: seq<Op>): set<int>
  {
    if ops == [] then {}
    else (if ops[0].PutOp? then {ops[0].key} else {}) + PutKeys(ops[1..])
  }

  function Min(a: int, b: int): int
  {
    if a <= b then a else b
  }

  /** A `Put` of key `k` keeps "size = min(capacity, keys written so far)". */
  lemma PutKeepsSize(capacity: int, list: seq<Entry>, written: set<int>, k: int, v: int)
    requires Inv(capacity, list)
    requires Keys(list) <= written && |list| == Min(capacity, |written|)
    ensures Keys(AfterPut(capacity, list, k, v)) <= written + {k}
    ensures |AfterPut(capacity, list, k, v)| == Min(capacity, |written + {k}|)
  {
    AfterPutKeys(capacity, list, k, v);
    KeysCount(list);
    if k in Keys(list) {
      assert written + {k} == written;
    } else if |list| == capacity {
      if k in written {
        assert written + {k} == written;
      } else {
        assert |written + {k}| == |written| + 1;
      }
    } else if k in written {
      // Keys(list) has as many keys as `written`, so it cannot miss k.
      ProperSubsetSize(Keys(list), written, k);
    } else {
      assert |written + {k}| == |written| + 1;
    }
  }

  /**
   * One call keeps "size = min(capacity, keys written so far)", where a
   * `Put` adds its key to the keys written; `w` is the new set of keys written.
   */
  lemma StepSize(capacity: int, list: seq<Entry>, written: set<int>, ops: seq<Op>) returns (w: set<int>)
    requires Inv(capacity, list) && ops != []
    requires Keys(list) <= written && |list| == Min(capacity, |written|)
    ensures Inv(capacity, Step(capacity, list, ops[0]))
    ensures Keys(Step(capacity, list, ops[0])) <= w && |Step(capacity, list, ops[0])| == Min(capacity, |w|)
    ensures w + PutKeys(ops[1..]) == written + PutKeys(ops)
  {
    StepKeepsInv(capacity, list, ops[0]);
    var k := ops[0].key;
    if ops[0].GetOp? {
      assert Step(capacity, list, ops[0]) == AfterGet(list, k);
      assert PutKeys(ops) == PutKeys(ops[1..]);
      AfterGetKeys(capacity, list, k);
      w := written;
    } else {
      assert Step(capacity, list, ops[0]) == AfterPut(capacity, list, k, ops[0].value);
      assert PutKeys(ops) == {k} + PutKeys(ops[1..]);
      PutKeepsSize(capacity, list, written, k, ops[0].value);
      w := written + {k};
    }
  }

  /**
   * The size of the cache is the smaller of its capacity and the number of
   * distinct keys ever put, whatever the interleaving of `Get` and `Put`.
   */
  lemma {:induction false} ReplaySize(capacity: int, list: seq<Entry>, written: set<int>, ops: seq<Op>)
    requires Inv(capacity, list)
    requires Keys(list) <= written && |list| == Min(capacity, |written|)
    ensures Keys(Replay(capacity, list, ops)) <= written + PutKeys(ops)
    ensures |Replay(capacity, list, ops)| == Min(capacity, |written + PutKeys(ops)|)
    decreases |ops|
  {
    if ops != [] {
      var w := StepSize(capacity, list, written, ops);
      var next := Step(capacity, list, ops[0]);
      assert Replay(capacity, list, ops) == Replay(capacity, next, ops[1..]);
      ReplaySize(capacity, next, w, ops[1..]);
    }
  }

  /** Replaying from an empty cache: its size is `min(capacity, distinct keys put)`. */
  lemma SizeFromEmpty(capacity: int, ops: seq<Op>)
    requires 1 <= capacity
    ensures |Replay(capacity, [], ops)| == Min(capacity, |PutKeys(ops)|)
  {
    ReplaySize(capacity, [], {}, ops);
    assert {} + PutKeys(ops) == PutKeys(ops);
  }

  /**
   * Putting `e` at the head of a list indexed by `m` (which may still hold
   * a stale entry for `e.key`) gives a list indexed by `m` with `e.key`
   * mapped to `e`.
   */
  lemma Reindex(rest: seq<Entry>, m: map<int, Entry>, e: Entry)
    requires AsMap(rest) == m || AsMap(rest) == m - {e.key}
    ensures AsMap([e] + rest) == m[e.key := e]
  {
    Cons(e, rest);
    if AsMap(rest) != m {
      assert (m - {e.key})[e.key := e] == m[e.key := e];
    }
  }

  // ---------------------------------------------------------------------
  // The object

  /**
   * The cache object. `index` is the dictionary (`map` in the source) from
   * key to the entry held by that key's node, `list` the recency list, head
   * first.
   */
  class LruCache {
    const capacity: int
    var index: map<int, Entry>
    var list: seq<Entry>

    ghost predicate Valid()
      reads this
    {
      Inv(capacity, list) && index == AsMap(list)
    }

    constructor (capacity: int)
      requires capacity >= 1
      ensures Valid() && this.capacity == capacity && list == []
    {
      this.capacity := capacity;
      index := map[];
      list := [];
    }

    /** Returns the value of `key` (or -1) and moves a present key to the head. */
    method Get(key: int) returns (v: int)
      requires Valid()
      modifies this
      ensures Valid()
      ensures v == Lookup(old(list), key)
      ensures list == AfterGet(old(list), key)
    {
      MapMatchesList(list);
      if key !in index {
        LookupAbsent(list, key);
        return -1;
      }
      var node := index[key];
      WithoutFacts(list, key);
      AfterGetKeys(capacity, list, key);
      Cons(node, Without(list, key));
      list := [node] + Without(list, key);
      v := node.value;
    }

    /** Stores `value` under `key` at the head, evicting the tail of a full cache for a new key. */
    method Put(key: int, value: int)
      requires Valid()
      modifies this
      ensures Valid()
      ensures list == AfterPut(capacity, old(list), key, value)
    {
      MapMatchesList(list);
      KeysCount(list);
      AfterPutKeys(capacity, list, key, value);
      if key in index {
        WithoutFacts(list, key);
        list := Without(list, key);
      } else if |index| == capacity {
        assert |index| == |index.Keys|;
        var last := list[|list| - 1];
        DropLastFacts(list);
        index := index - {last.key};
        list := list[..|list| - 1];
      }
      var node := Entry(key, value);
      Reindex(list, index, node);
      list := [node] + list;
      index := index[key := node];
    }
  }

  /** The scenario driven by systemDesign.cs's Main: capacity 2. */
  method Scenario() returns (first: int, second: int)
    ensures first == 10 && second == -1
  {
    var lru := new LruCache(2);
    lru.Put(1, 10);
    assert lru.list == [Entry(1, 10)];
    lru.Put(2, 20);
    assert Keys(lru.list) == {1, 2} by { Cons(Entry(2, 20), [Entry(1, 10)]); }
    first := lru.Get(1);
    assert lru.list == [Entry(1, 10), Entry(2, 20)];
    lru.Put(3, 30);
    assert lru.list == [Entry(3, 30), Entry(1, 10)];
    assert Keys(lru.list) == {3, 1} by { Cons(Entry(3, 30), [Entry(1, 10)]); }
    second := lru.Get(2);
  }
}
