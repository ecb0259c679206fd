/**
 LRU8WayCache and an LRUCache of size 8 give the same answers to the same calls.  They do so although
 an updater may look at what a reused slot was left with, for the slots of one cache are those of the
 other in the opposite order: slot i of the first is slot 7 - i of the second.
 */
module CachesAgree {
  import opened Basics
  import opened RecencyList
  import opened BitMatrix
  import opened MatrixOrder
  import LRUCache
  import LRU8WayCache

  // ----- the slots of both caches -----

  /** The used slots: the first cache's keys and order, and the second one's keys, slots and number of keys. */
  ghost predicate SameOrder(keys8: seq<nat>, order: seq<Slot>, keys: seq<nat>, indices: seq<nat>, used: nat) {
    && |keys8| == |keys| == |indices| == 8 && used == |order| <= 8
    && forall p {:trigger order[p]} :: 0 <= p < used ==> indices[p] == 7 - order[p] && keys[p] == keys8[order[p]]
  }

  /** The unused slots: those from `used` on in the first cache, and the others in the second one. */
  ghost predicate SameRest(order: seq<Slot>, indices: seq<nat>, used: nat) {
    && |indices| == 8 && used == |order| <= 8
    && (forall p {:trigger indices[p]} :: used <= p < 8 ==> indices[p] == p - used)
    && (forall i: Slot {:trigger i in order} :: i in order <==> i < used)
  }

  ghost predicate SameData<T>(data8: seq<T>, data: seq<T>) {
    |data8| == |data| == 8 && forall i: Slot {:trigger data8[i]} :: data[7 - i] == data8[i]
  }

  ghost predicate Mirrored<T>(keys8: seq<nat>, data8: seq<T>, order: seq<Slot>,
      keys: seq<nat>, indices: seq<nat>, data: seq<T>, used: nat)
  {
    SameOrder(keys8, order, keys, indices, used) && SameRest(order, indices, used) && SameData(data8, data)
  }

  /** The key's position in both orders, or the one behind all that stay. */
  ghost predicate UsedAt(keys8: seq<nat>, order: seq<Slot>, keys: seq<nat>, indices: seq<nat>, used: nat, key: nat,
      i: Slot, k: nat) {
    && |keys8| == |keys| == |indices| == 8 && used == |order| <= 8 && k < 8 && indices[k] == 7 - i
    && (keys8[i] == key <==> keys[k] == key)
    && if keys[k] == key then k < used && order[k] == i
       else k == 7 && if used < 8 then i == used && i !in order else order[7] == i
  }

  /** Both caches use the same slot for a key, counted from opposite ends. */
  lemma SameSlot(keys8: seq<nat>, order: seq<Slot>, keys: seq<nat>, indices: seq<nat>, used: nat, key: nat, i: Slot,
      k: nat)
    requires SameOrder(keys8, order, keys, indices, used) && SameRest(order, indices, used)
             && key < LRU8WayCache.CACHE_MISS
    requires LRU8WayCache.KeysOk(keys8, order) && LRUCache.KeysOk(keys, used)
    requires LRU8WayCache.SlotFor(keys8, order, key, i)
    requires k < 8 && LRUCache.ComesFrom(keys, used, k, key, keys[k] == key)
    ensures UsedAt(keys8, order, keys, indices, used, key, i, k)
  {
    if keys[k] == key { assert keys8[order[k]] == key; }
    if keys8[i] == key {
      assert i in order;
      var p :| 0 <= p < used && order[p] == i;
      assert keys[p] == key;
    } else if used < 8 {
      var u: Slot := used;
      assert u !in order && i !in order;
    }
  }

  lemma OrderKept(keys8: seq<nat>, order: seq<Slot>, keys: seq<nat>, indices: seq<nat>, used: nat, key: nat, i: Slot,
      k: nat, keys': seq<nat>, indices': seq<nat>)
    requires SameOrder(keys8, order, keys, indices, used) && Distinct(order)
    requires UsedAt(keys8, order, keys, indices, used, key, i, k)
    requires LRUCache.Rotated(keys[k := key], keys', k) && LRUCache.Rotated(indices, indices', k)
    ensures SameOrder(keys8[i := key], Front(order, i), keys', indices', LRUCache.UsedAfter(used, 8, keys[k] == key))
  {
    var order', p0 := Front(order, i), if keys[k] == key then k else Min(used, 7);
    FrontIs(order, i, p0);
    forall p {:trigger order'[p]} | 0 <= p < |order'|
      ensures indices'[p] == 7 - order'[p] && keys'[p] == keys8[i := key][order'[p]]
    {
      if p > 0 {
        var q := if p <= p0 then p - 1 else p;
        assert order'[p] == order[q];
        OthersDiffer(order, i, p0, q);
      }
    }
  }

  lemma RestKept(keys8: seq<nat>, order: seq<Slot>, keys: seq<nat>, indices: seq<nat>, used: nat, key: nat, i: Slot,
      k: nat, indices': seq<nat>)
    requires SameRest(order, indices, used) && Distinct(order) && UsedAt(keys8, order, keys, indices, used, key, i, k)
    requires LRUCache.Rotated(indices, indices', k)
    ensures SameRest(Front(order, i), indices', LRUCache.UsedAfter(used, 8, keys[k] == key))
  {
    FrontDistinct(order, i);
  }

  /** A use of the slot in both caches keeps them mirrored. */
  lemma MirrorKept<T>(keys8: seq<nat>, data8: seq<T>, order: seq<Slot>,
      keys: seq<nat>, indices: seq<nat>, data: seq<T>, used: nat, key: nat, i: Slot, k: nat, value: T,
      keys': seq<nat>, indices': seq<nat>)
    requires Mirrored(keys8, data8, order, keys, indices, data, used) && key < LRU8WayCache.CACHE_MISS
    requires LRU8WayCache.KeysOk(keys8, order) && LRUCache.KeysOk(keys, used) && Distinct(order)
    requires LRU8WayCache.SlotFor(keys8, order, key, i)
    requires k < 8 && LRUCache.ComesFrom(keys, used, k, key, keys[k] == key)
    requires LRUCache.Rotated(keys[k := key], keys', k) && LRUCache.Rotated(indices, indices', k)
    ensures indices'[0] == 7 - i
    ensures Mirrored(keys8[i := key], data8[i := value], Front(order, i),
                     keys', indices', data[7 - i := value], LRUCache.UsedAfter(used, 8, keys[k] == key))
  {
    SameSlot(keys8, order, keys, indices, used, key, i, k);
    OrderKept(keys8, order, keys, indices, used, key, i, k, keys', indices');
    RestKept(keys8, order, keys, indices, used, key, i, k, indices');
  }

  lemma OthersDiffer(order: seq<Slot>, i: Slot, p: nat, q: nat)
    requires Distinct(order) && q < |order| && q != p && if p < |order| then order[p] == i else i !in order
    ensures order[q] != i
  {
    if p < |order| { LRU8WayCache.DistinctAt(order, Min(p, q), if p < q then q else p); }
  }

  /** Moving a slot to the front, by positions: p is where it was, or the end of what remains of the order. */
  lemma FrontIs(order: seq<Slot>, i: Slot, p: nat)
    requires Distinct(order) && p <= |order| && if p < |order| then order[p] == i else i !in order
    ensures Front(order, i) == [i] + order[..p] + if p < |order| then order[p + 1..] else []
  {
    if p < |order| { LRU8WayCache.RemovedAt(order, p); } else { LRU8WayCache.RemovedNone(order, i); }
  }

  // ----- the same calls to both -----

  /** emplace is an insert of the value that it makes. */
  datatype Call<!T> =
    | Insert(key: nat, value: T)
    | Update(key: nat, updater: (nat, T) -> T)
    | QueryOrUpdate(key: nat, updater: (nat, T) -> T)
    | Query(key: nat)
    | Clear

  /** The value that a call leaves for its key; `left` is what a slot that is reused was left with. */
  function Stored<T>(list: seq<Entry<T>>, call: Call<T>, left: T): T
    requires !call.Query? && !call.Clear?
  {
    var found := Find(list, call.key);
    match call
    case Insert(_, value) => value
    case Update(key, updater) => updater(key, if found.Some? then found.value else left)
    case QueryOrUpdate(key, updater) => if found.Some? then found.value else updater(key, left)
  }

  /** What a call returns. */
  function Answer<T>(list: seq<Entry<T>>, call: Call<T>, left: T): Option<T> {
    if call.Query? then Find(list, call.key) else if call.Clear? then None else Some(Stored(list, call, left))
  }

  function Effect<T>(list: seq<Entry<T>>, call: Call<T>, left: T): seq<Entry<T>> {
    if call.Query? then list else if call.Clear? then [] else Use(list, 8, call.key, Stored(list, call, left))
  }

  /** The list after a run of calls. */
  function After<T>(calls: seq<Call<T>>, lefts: seq<T>): seq<Entry<T>>
    requires |calls| == |lefts|
  {
    if calls == [] then [] else
    var n := |calls| - 1;
    Effect(After(calls[..n], lefts[..n]), calls[n], lefts[n])
  }

  /** What the calls of a run return. */
  function Answers<T>(calls: seq<Call<T>>, lefts: seq<T>): seq<Option<T>>
    requires |calls| == |lefts|
  {
    if calls == [] then [] else
    var n := |calls| - 1;
    Answers(calls[..n], lefts[..n]) + [Answer(After(calls[..n], lefts[..n]), calls[n], lefts[n])]
  }

  predicate ProperKey<T>(call: Call<T>) {
    !call.Clear? ==> call.key < LRU8WayCache.CACHE_MISS
  }

  /** The two caches are in states that the same calls have led to. */
  ghost predicate Alike<T>(a: LRU8WayCache.Cache<T>, b: LRUCache.Cache<T>)
    reads a, a.mKeys, a.mData, b, b.mKeys, b.mIndices, b.mData
  {
    && a.Valid() && b.Valid() && {a as object, a.mKeys, a.mData} !! {b as object, b.mKeys, b.mIndices, b.mData}
    && Mirrored(a.mKeys[..], a.mData[..], a.order, b.mKeys[..], b.mIndices[..], b.mData[..], b.used)
  }

  /** The lists of mirrored caches are the same. */
  lemma SameList<T>(a: LRU8WayCache.Cache<T>, b: LRUCache.Cache<T>)
    requires Alike(a, b)
    ensures a.List() == b.List()
  {
    forall p | 0 <= p < b.used ensures a.List()[p] == b.List()[p] { assert a.order[p] in a.order; }
  }

  /** What a call does to the first cache: nothing, a clear, or a use of slot i. */
  ghost predicate EightWayDid<T>(list: seq<Entry<T>>, call: Call<T>, keys: seq<nat>, data: seq<T>, order: seq<Slot>,
      i: Slot, keys': seq<nat>, data': seq<T>, order': seq<Slot>)
  {
    && |keys| == |data| == 8
    && if call.Query? then keys' == keys && data' == data && order' == order
       else if call.Clear? then |keys'| == 8 && data' == data && order' == []
       else
         && LRU8WayCache.SlotFor(keys, order, call.key, i)
         && keys' == keys[i := call.key] && order' == Front(order, i)
         && data' == data[i := Stored(list, call, data[i])]
  }

  /** What a call does to the second cache: nothing, a clear, or a use of position k. */
  ghost predicate SizedDid<T>(list: seq<Entry<T>>, call: Call<T>, keys: seq<nat>, indices: seq<nat>, data: seq<T>,
      used: nat, k: nat, keys': seq<nat>, indices': seq<nat>, data': seq<T>, used': nat)
  {
    && |keys| == |indices| == |data| == 8 && k < 8
    && if call.Query? then keys' == keys && indices' == indices && data' == data && used' == used
       else if call.Clear? then
         && |keys'| == |indices'| == 8 && data' == data && used' == 0
         && forall p {:trigger indices'[p]} :: 0 <= p < 8 ==> indices'[p] == p
       else
         && LRUCache.ComesFrom(keys, used, k, call.key, keys[k] == call.key)
         && LRUCache.Rotated(keys[k := call.key], keys', k) && LRUCache.Rotated(indices, indices', k)
         && used' == LRUCache.UsedAfter(used, 8, keys[k] == call.key)
         && indices'[0] < 8 && data' == data[indices'[0] := Stored(list, call, data[indices'[0]])]
  }

  /** The same call keeps the caches mirrored. */
  lemma MirrorAfter<T>(list: seq<Entry<T>>, call: Call<T>, keys8: seq<nat>, data8: seq<T>, order: seq<Slot>,
      keys: seq<nat>, indices: seq<nat>, data: seq<T>, used: nat, i: Slot, k: nat,
      keys8': seq<nat>, data8': seq<T>, order': seq<Slot>,
      keys': seq<nat>, indices': seq<nat>, data': seq<T>, used': nat)
    requires Mirrored(keys8, data8, order, keys, indices, data, used) && ProperKey(call)
    requires LRU8WayCache.KeysOk(keys8, order) && LRUCache.KeysOk(keys, used) && Distinct(order)
    requires EightWayDid(list, call, keys8, data8, order, i, keys8', data8', order')
    requires SizedDid(list, call, keys, indices, data, used, k, keys', indices', data', used')
    ensures Mirrored(keys8', data8', order', keys', indices', data', used')
    ensures !call.Query? && !call.Clear? ==> data[indices'[0]] == data8[i]
  {
    if !call.Query? && !call.Clear? {
      MirrorKept(keys8, data8, order, keys, indices, data, used, call.key, i, k, Stored(list, call, data8[i]),
                 keys', indices');
    }
  }

  method CallEightWay<T>(a: LRU8WayCache.Cache<T>, call: Call<T>) returns (answer: Option<T>, ghost i: Slot)
    requires a.Valid() && ProperKey(call)
    modifies a, a.mKeys, a.mData
    ensures a.Valid()
    ensures EightWayDid(old(a.List()), call, old(a.mKeys[..]), old(a.mData[..]), old(a.order), i,
                        a.mKeys[..], a.mData[..], a.order)
    ensures a.List() == Effect(old(a.List()), call, old(a.mData[..])[i])
    ensures answer == Answer(old(a.List()), call, old(a.mData[..])[i])
  {
    answer, i := None, 0;
    match call
    case Insert(key, value) =>
      i := a.Insert(key, value);
      answer := Some(value);
    case Update(key, updater) =>
      var value;
      value, i := a.Update(key, updater);
      answer := Some(value);
    case QueryOrUpdate(key, updater) =>
      var value;
      value, i := a.QueryOrUpdate(key, updater);
      answer := Some(value);
    case Query(key) => answer := a.Query(key);
    case Clear => a.Clear();
  }

  method CallSized<T>(b: LRUCache.Cache<T>, call: Call<T>) returns (answer: Option<T>, ghost k: nat)
    requires b.Valid() && b.mKeys.Length == 8 && ProperKey(call)
    modifies b, b.mKeys, b.mIndices, b.mData
    ensures b.Valid() && k < 8
    ensures SizedDid(old(b.List()), call, old(b.mKeys[..]), old(b.mIndices[..]), old(b.mData[..]), old(b.used), k,
                     b.mKeys[..], b.mIndices[..], b.mData[..], b.used)
    ensures answer == Answer(old(b.List()), call, old(b.mData[..])[b.mIndices[0]])
  {
    answer, k := None, 0;
    match call
    case Insert(key, value) =>
      k := b.Insert(key, value);
      answer := Some(value);
    case Update(key, updater) =>
      var value;
      value, k := b.Update(key, updater);
      answer := Some(value);
    case QueryOrUpdate(key, updater) =>
      var value;
      value, k := b.QueryOrUpdate(key, updater);
      answer := Some(value);
    case Query(key) => answer := b.Query(key);
    case Clear => b.Clear();
  }

  /** One call to both: the same answer, the one that the list gives, and the caches stay alike. */
  method CallBoth<T>(a: LRU8WayCache.Cache<T>, b: LRUCache.Cache<T>, call: Call<T>)
    returns (x: Option<T>, y: Option<T>, ghost left: T)
    requires Alike(a, b) && ProperKey(call)
    modifies a, a.mKeys, a.mData, b, b.mKeys, b.mIndices, b.mData
    ensures Alike(a, b) && a.List() == Effect(old(a.List()), call, left)
    ensures x == y == Answer(old(a.List()), call, left)
  {
    SameList(a, b);
    ghost var keys8, data8, order := a.mKeys[..], a.mData[..], a.order;
    ghost var keys, indices, data, used := b.mKeys[..], b.mIndices[..], b.mData[..], b.used;
    ghost var i, k;
    x, i := CallEightWay(a, call);
    y, k := CallSized(b, call);
    left := data8[i];
    MirrorAfter(old(a.List()), call, keys8, data8, order, keys, indices, data, used, i, k,
                a.mKeys[..], a.mData[..], a.order, b.mKeys[..], b.mIndices[..], b.mData[..], b.used);
  }

  /**
   The same calls to a new cache of either kind return the same: what the list says, whatever the
   reused slots were left with.
   */
  method RunBoth<T>(calls: seq<Call<T>>, initial: T)
    returns (eightWay: seq<Option<T>>, sized: seq<Option<T>>, ghost lefts: seq<T>)
    requires forall i :: 0 <= i < |calls| ==> ProperKey(calls[i])
    ensures eightWay == sized
    ensures |lefts| == |calls| && eightWay == Answers(calls, lefts)
  {
    var a := new LRU8WayCache.Cache<T>(initial);
    var b := new LRUCache.Cache<T>(8, initial);
    eightWay, sized, lefts := [], [], [];
    var i := 0;
    while i < |calls|
      invariant 0 <= i <= |calls| && |lefts| == i && Alike(a, b)
      invariant fresh(a) && fresh(a.mKeys) && fresh(a.mData) && fresh(b) && fresh(b.mKeys) && fresh(b.mIndices)
                && fresh(b.mData)
      invariant a.List() == After(calls[..i], lefts) && eightWay == sized == Answers(calls[..i], lefts)
    {
      ghost var left;
      var x, y;
      x, y, left := CallBoth(a, b, calls[i]);
      assert calls[..i + 1][..i] == calls[..i] && (lefts + [left])[..i] == lefts;
      eightWay, sized, lefts := eightWay + [x], sized + [y], lefts + [left];
      i := i + 1;
    }
    assert calls[..i] == calls;
  }
}
