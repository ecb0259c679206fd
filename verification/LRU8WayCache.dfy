/**
 LRU8WayCache: eight slots, found by comparing all keys at once, and a bit matrix for the order of
 their use.
 */
module LRU8WayCache {
  import opened Basics
  import opened RecencyList
  import opened BitMatrix
  import opened MatrixOrder

  /** No key may be equal to it. */
  const CACHE_MISS: nat := 0xFFFF_FFFF

  function Pick(matches: bool, n: bv8): bv8 {
    if matches then n else 0
  }

  /** _lookup_index_for_key: at most one of the eight comparisons contributes. */
  function LookupIndexForKey(map8: seq<nat>, key: nat): int
    requires |map8| == 8
  {
    ((Pick(key == map8[0], 1) | Pick(key == map8[1], 2) | Pick(key == map8[2], 3) | Pick(key == map8[3], 4)
      | Pick(key == map8[4], 5) | Pick(key == map8[5], 6) | Pick(key == map8[6], 7) | Pick(key == map8[7], 8))
     as int) - 1
  }

  /** The lookup finds the key if it is there once, and otherwise says that it is not there. */
  lemma LookupIs(map8: seq<nat>, key: nat)
    requires |map8| == 8 && forall i, j :: 0 <= i < j < 8 ==> !(map8[i] == key && map8[j] == key)
    ensures var r := LookupIndexForKey(map8, key);
            if r < 0 then r == -1 && forall i :: 0 <= i < 8 ==> map8[i] != key else r < 8 && map8[r] == key
  {
    if i :| 0 <= i < 8 && map8[i] == key {
      assert forall j :: 0 <= j < 8 && j != i ==> map8[j] != key;
      if i == 0 {} else if i == 1 {} else if i == 2 {} else if i == 3 {}
      else if i == 4 {} else if i == 5 {} else if i == 6 {} else {}
    }
  }

  /** The slots in the order of their use. */
  function Entries<T>(keys: seq<nat>, data: seq<T>, order: seq<Slot>): seq<Entry<T>>
    requires |keys| == |data| == 8
  {
    seq(|order|, i requires 0 <= i < |order| => Entry(keys[order[i]], data[order[i]]))
  }

  /** Exactly the slots in the order have keys, and the keys are all different. */
  ghost predicate KeysOk(keys: seq<nat>, order: seq<Slot>)
    requires |keys| == 8
  {
    && (forall i: Slot :: if i in order then keys[i] < CACHE_MISS else keys[i] == CACHE_MISS)
    && (forall i: Slot, j: Slot :: i != j && keys[i] != CACHE_MISS ==> keys[i] != keys[j])
  }

  lemma {:induction false} DistinctAt(order: seq<Slot>, i: nat, j: nat)
    requires Distinct(order) && i < j < |order|
    ensures order[i] != order[j]
  {
    if i > 0 {
      assert order[1..][i - 1] == order[i] && order[1..][j - 1] == order[j];
      DistinctAt(order[1..], i - 1, j - 1);
    } else {
      assert order[1..][j - 1] == order[j];
    }
  }

  lemma EntriesDistinct<T>(keys: seq<nat>, data: seq<T>, order: seq<Slot>)
    requires |keys| == |data| == 8 && KeysOk(keys, order) && Distinct(order)
    ensures DistinctKeys(Entries(keys, data, order))
  {
    forall i, j | 0 <= i < j < |order| ensures keys[order[i]] != keys[order[j]] { DistinctAt(order, i, j); }
  }

  lemma {:induction false} RemovedAt(order: seq<Slot>, p: nat)
    requires Distinct(order) && p < |order|
    ensures Removed(order, order[p]) == order[..p] + order[p + 1..]
  {
    if p > 0 {
      assert order[1..][p - 1] == order[p];
      RemovedAt(order[1..], p - 1);
      assert order[..p] + order[p + 1..] == [order[0]] + (order[1..][..p - 1] + order[1..][p..]);
    }
  }

  lemma {:induction false} RemovedNone(order: seq<Slot>, i: Slot)
    requires i !in order
    ensures Removed(order, i) == order
  {
    if order != [] { RemovedNone(order[1..], i); }
  }

  /** A use of a key that has a slot. */
  lemma HitIsUse<T>(keys: seq<nat>, data: seq<T>, order: seq<Slot>, i: Slot)
    requires |keys| == |data| == 8 && Distinct(order) && |order| <= 8 && i in order
    requires DistinctKeys(Entries(keys, data, order))
    ensures var list := Entries(keys, data, order);
            && Find(list, keys[i]) == Some(data[i])
            && Entries(keys, data, Front(order, i)) == Use(list, 8, keys[i], data[i])
  {
    var list, p := Entries(keys, data, order), Pos(order, i);
    PosIs(order, i);
    FindAt(list, p);
    RemovedAt(order, p);
    EntriesMoved(keys, data, order, i, p);
  }

  lemma EntriesMoved<T>(keys: seq<nat>, data: seq<T>, order: seq<Slot>, i: Slot, p: nat)
    requires |keys| == |data| == 8 && p < |order| && Front(order, i) == [i] + (order[..p] + order[p + 1..])
    ensures var list := Entries(keys, data, order);
            Entries(keys, data, Front(order, i)) == [Entry(keys[i], data[i])] + (list[..p] + list[p + 1..])
  {
  }

  lemma KeyIsNew<T>(keys: seq<nat>, data: seq<T>, order: seq<Slot>, key: nat)
    requires |keys| == |data| == 8 && forall j: Slot :: keys[j] != key
    ensures Find(Entries(keys, data, order), key) == None
            && Without(Entries(keys, data, order), key) == Entries(keys, data, order)
  {
    FindNone(Entries(keys, data, order), key);
  }

  /** A slot gets a key and comes to the front; the others stay. */
  lemma SlotReused<T>(keys: seq<nat>, data: seq<T>, rest: seq<Slot>, i: Slot, key: nat)
    requires |keys| == |data| == 8 && i !in rest
    ensures Entries(keys[i := key], data, [i] + rest) == [Entry(key, data[i])] + Entries(keys, data, rest)
  {
    var before, after := Entries(keys, data, rest), Entries(keys[i := key], data, [i] + rest);
    forall p {:trigger after[p]} | 1 <= p < |after| ensures after[p] == before[p - 1] {
      assert ([i] + rest)[p] == rest[p - 1] && rest[p - 1] in rest;
    }
  }

  /** A free slot gets a key. */
  lemma FreeSlotUsed<T>(keys: seq<nat>, data: seq<T>, order: seq<Slot>, i: Slot, key: nat)
    requires |keys| == |data| == 8 && |order| < 8 && i !in order
    ensures Entries(keys[i := key], data, Front(order, i)) ==
              Take([Entry(key, data[i])] + Entries(keys, data, order), 8)
  {
    RemovedNone(order, i);
    SlotReused(keys, data, order, i, key);
  }

  /** The slot used longest ago gets a new key. */
  lemma LastSlotReused<T>(keys: seq<nat>, data: seq<T>, order: seq<Slot>, key: nat)
    requires |keys| == |data| == 8 && |order| == 8 && Distinct(order)
    ensures Entries(keys[order[7] := key], data, Front(order, order[7])) ==
              Take([Entry(key, data[order[7]])] + Entries(keys, data, order), 8)
  {
    var list, rest, i := Entries(keys, data, order), order[..7], order[7];
    RemovedAt(order, 7);
    forall j | 0 <= j < 7 ensures rest[j] != i { DistinctAt(order, j, 7); }
    SlotReused(keys, data, rest, i, key);
    assert Front(order, i) == [i] + rest && Entries(keys, data, rest) == list[..7];
  }

  /** A use of a key that has none: a slot is reused. */
  lemma MissIsUse<T>(keys: seq<nat>, data: seq<T>, order: seq<Slot>, i: Slot, key: nat)
    requires |keys| == |data| == 8 && Distinct(order) && |order| <= 8 && IsVictim(order, i)
    requires forall j: Slot :: keys[j] != key
    ensures var list := Entries(keys, data, order);
            Find(list, key) == None && Entries(keys[i := key], data, Front(order, i)) == Use(list, 8, key, data[i])
  {
    KeyIsNew(keys, data, order, key);
    if |order| < 8 {
      FreeSlotUsed(keys, data, order, i, key);
    } else {
      LastSlotReused(keys, data, order, key);
    }
  }

  lemma KeysAfter(keys: seq<nat>, order: seq<Slot>, i: Slot, key: nat)
    requires |keys| == 8 && KeysOk(keys, order) && Distinct(order) && key < CACHE_MISS
    requires keys[i] == key || forall j: Slot :: keys[j] != key
    ensures KeysOk(keys[i := key], Front(order, i))
  {
    FrontDistinct(order, i);
  }

  /** Storing a value in the slot used last changes the first entry only. */
  lemma StoredFirst<T>(keys: seq<nat>, data: seq<T>, order: seq<Slot>, list: seq<Entry<T>>, key: nat, value: T)
    requires |keys| == |data| == 8 && Distinct(order) && order != []
    requires Entries(keys, data, order) == Use(list, 8, key, data[order[0]])
    ensures Entries(keys, data[order[0] := value], order) == Use(list, 8, key, value)
  {
    var before, after := Entries(keys, data, order), Entries(keys, data[order[0] := value], order);
    assert Use(list, 8, key, data[order[0]])[0] == Entry(key, data[order[0]]);
    forall i {:trigger after[i]} | 1 <= i < |order| ensures after[i] == before[i] { DistinctAt(order, 0, i); }
    assert after[0] == Entry(key, value);
    assert after == [Entry(key, value)] + before[1..];
    assert Use(list, 8, key, value) == [Entry(key, value)] + Use(list, 8, key, data[order[0]])[1..];
  }

  /** The slot that a key has or, if it has none, gets. */
  ghost predicate SlotFor(keys: seq<nat>, order: seq<Slot>, key: nat, i: Slot)
    requires |keys| == 8
  {
    keys[i] == key || (IsVictim(order, i) && forall j: Slot :: keys[j] != key)
  }

  class Cache<T> {
    const mKeys: array<nat>
    var mCols: bv64
    const mData: array<T>
    ghost var order: seq<Slot>

    ghost predicate Valid()
      reads this, mKeys, mData
    {
      && (mData as object) != (mKeys as object) && mKeys.Length == mData.Length == 8
      && Distinct(order) && |order| <= 8 && KeysOk(mKeys[..], order) && Shows(mCols, order)
    }

    /** The cached entries, the most recently used first. */
    ghost function List(): seq<Entry<T>>
      requires Valid()
      reads this, mKeys, mData
    {
      Entries(mKeys[..], mData[..], order)
    }

    /** The constructor; `initial` is what the slots are made with. */
    constructor (initial: T)
      ensures Valid() && List() == [] && order == [] && mData[..] == seq(8, _ => initial)
      ensures fresh(mKeys) && fresh(mData)
    {
      mKeys := new nat[8](_ => CACHE_MISS);
      mCols := 0;
      mData := new T[8](_ => initial);
      order := [];
      NothingTouched();
    }

    /** clear */
    method Clear()
      requires Valid()
      modifies this, mKeys
      ensures Valid() && List() == [] && order == []
    {
      var i := 0;
      while i < 8
        invariant 0 <= i <= 8 && forall j :: 0 <= j < i ==> mKeys[j] == CACHE_MISS
      {
        mKeys[i] := CACHE_MISS;
        i := i + 1;
      }
      mCols := 0;
      order := [];
      NothingTouched();
    }

    /** query: no use of the key. */
    method Query(key: nat) returns (value: Option<T>)
      requires Valid() && key < CACHE_MISS
      ensures value == Find(List(), key)
    {
      var index := LookupIndexForKey(mKeys[..], key);
      LookupIs(mKeys[..], key);
      if index >= 0 {
        EntriesDistinct(mKeys[..], mData[..], order);
        HitIsUse(mKeys[..], mData[..], order, index);
        value := Some(mData[index]);
      } else {
        FindNone(List(), key);
        value := None;
      }
    }

    /** _update_lru_index, with the order kept in step. */
    method UpdateLruIndex(index: Slot)
      requires Shows(mCols, order)
      modifies `mCols, `order
      ensures Shows(mCols, order) && order == Front(old(order), index)
    {
      TouchShows(mCols, order, index);
      mCols := Touched(mCols, Word(index));
      order := Front(order, index);
    }

    /** The slot of a key or, if it has none, the one to be reused for it. */
    method FindSlot(key: nat) returns (index: Slot, hit: bool)
      requires Valid() && key < CACHE_MISS
      ensures hit <==> mKeys[index] == key
      ensures SlotFor(mKeys[..], order, key, index)
      ensures Entries(mKeys[..][index := key], mData[..], Front(order, index)) == Use(List(), 8, key, mData[index])
      ensures Find(List(), key) == if hit then Some(mData[index]) else None
    {
      var found := LookupIndexForKey(mKeys[..], key);
      LookupIs(mKeys[..], key);
      hit := found >= 0;
      if found < 0 {
        ghost var victim := Victim(mCols, order);
        index := GetLruIndex(mCols, victim);
        MissIsUse(mKeys[..], mData[..], order, index, key);
      } else {
        index := found;
        EntriesDistinct(mKeys[..], mData[..], order);
        HitIsUse(mKeys[..], mData[..], order, index);
        assert mKeys[..][index := key] == mKeys[..];
      }
    }

    /** The key has been used, in its slot. */
    ghost predicate UsedIn(keys: seq<nat>, before: seq<Slot>, key: nat, index: Slot)
      reads this, mKeys
    {
      && |keys| == 8 && SlotFor(keys, before, key, index)
      && mKeys[..] == keys[index := key] && order == Front(before, index)
    }

    /** What insert, update and query_or_update begin with: the key has a slot, which is touched. */
    method Promote(key: nat) returns (index: Slot, hit: bool)
      requires Valid() && key < CACHE_MISS
      modifies this, mKeys
      ensures Valid() && UsedIn(old(mKeys[..]), old(order), key, index)
      ensures List() == Use(old(List()), 8, key, mData[index])
      ensures Find(old(List()), key) == if hit then Some(mData[index]) else None
    {
      index, hit := FindSlot(key);
      KeysAfter(mKeys[..], order, index, key);
      FrontDistinct(order, index);
      AllSlots(Front(order, index));
      ghost var keys := mKeys[..][index := key];
      if !hit {
        mKeys[index] := key;
      }
      assert mKeys[..] == keys;
      UpdateLruIndex(index);
    }

    /** A value is stored in the slot that has just been touched. */
    method Store(index: Slot, value: T, ghost list: seq<Entry<T>>, ghost key: nat)
      requires Valid() && order != [] && order[0] == index && List() == Use(list, 8, key, mData[index])
      modifies mData
      ensures Valid() && List() == Use(list, 8, key, value) && mData[..] == old(mData[..])[index := value]
    {
      StoredFirst(mKeys[..], mData[..], order, list, key, value);
      mData[index] := value;
    }

    /** insert */
    method Insert(key: nat, value: T) returns (ghost index: Slot)
      requires Valid() && key < CACHE_MISS
      modifies this, mKeys, mData
      ensures Valid() && List() == Use(old(List()), 8, key, value)
      ensures UsedIn(old(mKeys[..]), old(order), key, index) && mData[..] == old(mData[..])[index := value]
    {
      ghost var list := List();
      var slot, hit := Promote(key);
      index := slot;
      Store(slot, value, list, key);
    }

    /** update: the updater sees the cached value or, on a miss, what was left in the slot. */
    method Update(key: nat, updater: (nat, T) -> T) returns (value: T, ghost index: Slot)
      requires Valid() && key < CACHE_MISS
      modifies this, mKeys, mData
      ensures Valid() && List() == Use(old(List()), 8, key, value) && value == updater(key, old(mData[..])[index])
      ensures Find(old(List()), key).Some? ==> old(mData[..])[index] == Find(old(List()), key).value
      ensures UsedIn(old(mKeys[..]), old(order), key, index) && mData[..] == old(mData[..])[index := value]
    {
      ghost var list := List();
      var slot, hit := Promote(key);
      index := slot;
      value := updater(key, mData[slot]);
      Store(slot, value, list, key);
    }

    /** query_or_update: the updater is called on a miss only. */
    method QueryOrUpdate(key: nat, updater: (nat, T) -> T) returns (value: T, ghost index: Slot)
      requires Valid() && key < CACHE_MISS
      modifies this, mKeys, mData
      ensures Valid() && List() == Use(old(List()), 8, key, value)
      ensures value == if Find(old(List()), key).Some? then Find(old(List()), key).value
                       else updater(key, old(mData[..])[index])
      ensures UsedIn(old(mKeys[..]), old(order), key, index) && mData[..] == old(mData[..])[index := value]
    {
      ghost var list := List();
      var slot, hit := Promote(key);
      index := slot;
      value := mData[slot];
      if !hit {
        value := updater(key, mData[slot]);
        Store(slot, value, list, key);
      }
    }
  }
}
