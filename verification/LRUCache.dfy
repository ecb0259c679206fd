/**
 LRUCache: keys in order of use, with the slot of each key's data beside it.
 */
module LRUCache {
  import opened Basics
  import opened RecencyList

  /** No key may be equal to it. */
  const CACHE_MISS: nat := 0xFFFF_FFFF_FFFF_FFFF

  /** The first `used` keys, with their data. */
  function Entries<T>(keys: seq<nat>, indices: seq<nat>, data: seq<T>, used: nat): seq<Entry<T>>
    requires used <= |keys| <= |indices| && forall i :: 0 <= i < |indices| ==> indices[i] < |data|
  {
    seq(used, i requires 0 <= i < used => Entry(keys[i], data[indices[i]]))
  }

  /** The keys in use come first and are all different. */
  ghost predicate KeysOk(keys: seq<nat>, used: nat) {
    && used <= |keys|
    && (forall i {:trigger keys[i]} :: 0 <= i < |keys| ==>
          if i < used then keys[i] < CACHE_MISS else keys[i] == CACHE_MISS)
    && (forall i, j :: 0 <= i < j < used ==> keys[i] != keys[j])
  }

  /** Every slot belongs to one position. */
  ghost predicate Permutation(indices: seq<nat>) {
    && (forall i :: 0 <= i < |indices| ==> indices[i] < |indices|)
    && (forall i, j :: 0 <= i < j < |indices| ==> indices[i] != indices[j])
  }

  ghost predicate Consistent(keys: seq<nat>, indices: seq<nat>, used: nat) {
    0 < |keys| == |indices| < CACHE_MISS && KeysOk(keys, used) && Permutation(indices)
  }

  /** t is s with its element k moved to the front. */
  ghost predicate Rotated(s: seq<nat>, t: seq<nat>, k: nat) {
    && k < |s| == |t| && t[0] == s[k]
    && forall i {:trigger t[i]} :: 1 <= i < |t| ==> t[i] == if i <= k then s[i - 1] else s[i]
  }

  /** How many keys are in use after a key has been. */
  function UsedAfter(used: nat, size: nat, found: bool): nat {
    if found || used == size then used else used + 1
  }

  /** Where a key comes to the front from: its own position, or the last one. */
  ghost predicate ComesFrom(keys: seq<nat>, used: nat, k: nat, key: nat, found: bool) {
    && used <= |keys|
    && if found then k < used && keys[k] == key
       else k == |keys| - 1 && forall i :: 0 <= i < |keys| ==> keys[i] != key
  }

  lemma RotatedKeys(keys: seq<nat>, used: nat, k: nat, key: nat, found: bool, keys': seq<nat>)
    requires KeysOk(keys, used) && key < CACHE_MISS && ComesFrom(keys, used, k, key, found) && k < |keys|
    requires Rotated(keys[k := key], keys', k)
    ensures KeysOk(keys', UsedAfter(used, |keys|, found))
  {
  }

  lemma RotatedPermutation(indices: seq<nat>, k: nat, indices': seq<nat>)
    requires Permutation(indices) && Rotated(indices, indices', k)
    ensures Permutation(indices')
  {
  }

  lemma RotatedEntries<T>(keys: seq<nat>, indices: seq<nat>, data: seq<T>, used: nat, k: nat, key: nat, found: bool,
      keys': seq<nat>, indices': seq<nat>)
    requires Consistent(keys, indices, used) && |data| == |keys| && ComesFrom(keys, used, k, key, found)
    requires Rotated(keys[k := key], keys', k) && Rotated(indices, indices', k) && Permutation(indices')
    ensures var list := Entries(keys, indices, data, used);
            var front := [Entry(key, data[indices'[0]])];
            Entries(keys', indices', data, UsedAfter(used, |keys|, found)) ==
            front + if found then list[..k] + list[k + 1..] else if used < |keys| then list else list[..k]
  {
  }

  /** Moving a key, or a free or the last position, to the front is what a use does to the list. */
  lemma RotationIsUse<T>(keys: seq<nat>, indices: seq<nat>, data: seq<T>, used: nat, k: nat, key: nat, found: bool,
      keys': seq<nat>, indices': seq<nat>)
    requires Consistent(keys, indices, used) && |data| == |keys| && key < CACHE_MISS
             && ComesFrom(keys, used, k, key, found)
    requires Rotated(keys[k := key], keys', k) && Rotated(indices, indices', k)
    ensures Consistent(keys', indices', UsedAfter(used, |keys|, found))
    ensures var list := Entries(keys, indices, data, used);
            && Entries(keys', indices', data, UsedAfter(used, |keys|, found)) ==
                 Use(list, |keys|, key, data[indices'[0]])
            && Find(list, key) == if found then Some(data[indices'[0]]) else None
  {
    RotatedKeys(keys, used, k, key, found, keys');
    RotatedPermutation(indices, k, indices');
    RotatedEntries(keys, indices, data, used, k, key, found, keys', indices');
    var list := Entries(keys, indices, data, used);
    if found {
      assert list[k].key == key;
      FindAt(list, k);
    } else {
      FindNone(list, key);
    }
  }

  /** Storing a value for the first key changes that entry only. */
  lemma StoredFirst<T>(keys: seq<nat>, indices: seq<nat>, data: seq<T>, used: nat, list: seq<Entry<T>>, key: nat,
      value: T)
    requires Consistent(keys, indices, used) && |data| == |keys| && used > 0
    requires Entries(keys, indices, data, used) == Use(list, |keys|, key, data[indices[0]])
    ensures Entries(keys, indices, data[indices[0] := value], used) == Use(list, |keys|, key, value)
  {
    var before, after := Entries(keys, indices, data, used), Entries(keys, indices, data[indices[0] := value], used);
    assert Use(list, |keys|, key, data[indices[0]])[0] == Entry(key, data[indices[0]]);
    assert forall i {:trigger after[i]} :: 1 <= i < used ==> indices[i] != indices[0] && after[i] == before[i];
    assert after[0] == Entry(key, value);
    assert after == [Entry(key, value)] + before[1..];
    assert Use(list, |keys|, key, value) == [Entry(key, value)] + Use(list, |keys|, key, data[indices[0]])[1..];
  }

  class Cache<T> {
    const mKeys: array<nat>
    const mIndices: array<nat>
    const mData: array<T>
    ghost var used: nat

    ghost predicate Valid()
      reads this, mKeys, mIndices, mData
    {
      && mKeys != mIndices && (mData as object) != (mKeys as object) && (mData as object) != (mIndices as object)
      && mKeys.Length == mIndices.Length == mData.Length
      && Consistent(mKeys[..], mIndices[..], used)
    }

    /** The cached entries, the most recently used first. */
    ghost function List(): seq<Entry<T>>
      requires Valid()
      reads this, mKeys, mIndices, mData
    {
      Entries(mKeys[..], mIndices[..], mData[..], used)
    }

    /** The constructor, for a cache of `size` elements; `initial` is what the slots are made with. */
    constructor (size: nat, initial: T)
      requires 0 < size < CACHE_MISS
      ensures Valid() && List() == [] && mKeys.Length == size && Cleared() && mData[..] == seq(size, _ => initial)
      ensures fresh(mKeys) && fresh(mIndices) && fresh(mData)
    {
      mKeys := new nat[size](_ => CACHE_MISS);
      mIndices := new nat[size](i => i);
      mData := new T[size](_ => initial);
      used := 0;
    }

    /** No key is in use, and the slots are in order. */
    ghost predicate Cleared()
      reads this, mIndices
    {
      used == 0 && forall i :: 0 <= i < mIndices.Length ==> mIndices[i] == i
    }

    /** clear */
    method Clear()
      requires Valid()
      modifies this, mKeys, mIndices
      ensures Valid() && List() == [] && Cleared()
    {
      var i := 0;
      while i < mKeys.Length
        invariant 0 <= i <= mKeys.Length
        invariant forall j :: 0 <= j < i ==> mKeys[j] == CACHE_MISS && mIndices[j] == j
      {
        mKeys[i] := CACHE_MISS;
        mIndices[i] := i;
        i := i + 1;
      }
      used := 0;
    }

    /** _search_index */
    method SearchIndex(key: nat) returns (index: nat)
      requires mKeys.Length < CACHE_MISS
      ensures index < mKeys.Length ==> mKeys[index] == key
      ensures index >= mKeys.Length ==> index == CACHE_MISS && forall i :: 0 <= i < mKeys.Length ==> mKeys[i] != key
    {
      var i := 0;
      while i < mKeys.Length
        invariant 0 <= i <= mKeys.Length && forall j :: 0 <= j < i ==> mKeys[j] != key
      {
        if key == mKeys[i] {
          return i;
        }
        i := i + 1;
      }
      return CACHE_MISS;
    }

    /** The rotation at the end of _update_index, for one of the two arrays. */
    method Rotate(a: array<nat>, k: nat)
      requires k < a.Length
      modifies a
      ensures Rotated(old(a[..]), a[..], k)
    {
      ghost var s := a[..];
      var first := a[k];
      var i := k;
      while i > 0
        invariant i <= k
        invariant forall j {:trigger a[j]} :: 0 <= j < a.Length ==> a[j] == if i < j <= k then s[j - 1] else s[j]
      {
        a[i] := a[i - 1];
        i := i - 1;
      }
      a[0] := first;
    }

    /** _update_index: the key's position comes to the front, or the last one does, with no key. */
    method UpdateIndex(key: nat) returns (i: nat, ghost k: nat, ghost found: bool)
      requires Valid() && key < CACHE_MISS
      modifies mKeys, mIndices
      ensures i == 0 && ComesFrom(old(mKeys[..]), used, k, key, found) && k < mKeys.Length
      ensures Rotated(old(mKeys[..])[k := if found then key else CACHE_MISS], mKeys[..], k)
      ensures Rotated(old(mIndices[..]), mIndices[..], k)
    {
      if key == mKeys[0] {
        return 0, 0, true;
      }
      var keyIndex := SearchIndex(key);
      found := keyIndex < mKeys.Length;
      if keyIndex == CACHE_MISS {
        keyIndex := mKeys.Length - 1;
        mKeys[keyIndex] := CACHE_MISS;
      }
      k := keyIndex;
      Rotate(mKeys, keyIndex);
      Rotate(mIndices, keyIndex);
      i := 0;
    }

    /** The key has come to the front from position k. */
    ghost predicate Fronted(keys: seq<nat>, indices: seq<nat>, before: nat, key: nat, k: nat)
      reads this, mKeys, mIndices
    {
      && k < |keys| == |indices| && ComesFrom(keys, before, k, key, keys[k] == key)
      && Rotated(keys[k := key], mKeys[..], k) && Rotated(indices, mIndices[..], k)
      && used == UsedAfter(before, |keys|, keys[k] == key)
    }

    /** What insert, update and query_or_update begin with: the key comes to the front. */
    method Promote(key: nat) returns (hit: bool, ghost k: nat)
      requires Valid() && key < CACHE_MISS
      modifies this, mKeys, mIndices
      ensures Valid() && used > 0 && Fronted(old(mKeys[..]), old(mIndices[..]), old(used), key, k)
      ensures List() == Use(old(List()), mKeys.Length, key, mData[mIndices[0]])
      ensures Find(old(List()), key) == if hit then Some(mData[mIndices[0]]) else None
    {
      ghost var keys, indices := mKeys[..], mIndices[..];
      ghost var found;
      var i;
      i, k, found := UpdateIndex(key);
      hit := mKeys[i] == key;
      if mKeys[i] != key {
        mKeys[i] := key;
      }
      assert Rotated(keys[k := key], mKeys[..], k);
      RotationIsUse(keys, indices, mData[..], used, k, key, found, mKeys[..], mIndices[..]);
      used := UsedAfter(used, mKeys.Length, found);
    }

    /** A value is stored for the key that has just come to the front. */
    method Store(value: T, ghost list: seq<Entry<T>>, ghost key: nat)
      requires Valid() && used > 0 && List() == Use(list, mKeys.Length, key, mData[mIndices[0]])
      modifies mData
      ensures Valid() && List() == Use(list, mKeys.Length, key, value)
              && mData[..] == old(mData[..])[mIndices[0] := value]
    {
      StoredFirst(mKeys[..], mIndices[..], mData[..], used, list, key, value);
      mData[mIndices[0]] := value;
    }

    /** query: no use of the key. */
    method Query(key: nat) returns (value: Option<T>)
      requires Valid() && key < CACHE_MISS
      ensures value == Find(List(), key)
    {
      var i := SearchIndex(key);
      if i != CACHE_MISS {
        FindAt(List(), i);
        assert List()[i].key == key;
        value := Some(mData[mIndices[i]]);
      } else {
        FindNone(List(), key);
        value := None;
      }
    }

    /** insert */
    method Insert(key: nat, value: T) returns (ghost k: nat)
      requires Valid() && key < CACHE_MISS
      modifies this, mKeys, mIndices, mData
      ensures Valid() && List() == Use(old(List()), mKeys.Length, key, value)
      ensures Fronted(old(mKeys[..]), old(mIndices[..]), old(used), key, k)
      ensures mData[..] == old(mData[..])[mIndices[0] := value]
    {
      ghost var list := List();
      var hit;
      hit, k := Promote(key);
      Store(value, list, key);
    }

    /** update: the updater sees the cached value or, on a miss, what was left in the slot. */
    method Update(key: nat, updater: (nat, T) -> T) returns (value: T, ghost k: nat)
      requires Valid() && key < CACHE_MISS
      modifies this, mKeys, mIndices, mData
      ensures Valid() && List() == Use(old(List()), mKeys.Length, key, value)
      ensures Fronted(old(mKeys[..]), old(mIndices[..]), old(used), key, k)
      ensures value == updater(key, old(mData[..])[mIndices[0]]) && mData[..] == old(mData[..])[mIndices[0] := value]
      ensures Find(old(List()), key).Some? ==> old(mData[..])[mIndices[0]] == Find(old(List()), key).value
    {
      ghost var list := List();
      var hit;
      hit, k := Promote(key);
      value := updater(key, mData[mIndices[0]]);
      Store(value, list, key);
    }

    /** query_or_update: the updater is called on a miss only. */
    method QueryOrUpdate(key: nat, updater: (nat, T) -> T) returns (value: T, ghost k: nat)
      requires Valid() && key < CACHE_MISS
      modifies this, mKeys, mIndices, mData
      ensures Valid() && List() == Use(old(List()), mKeys.Length, key, value)
      ensures Fronted(old(mKeys[..]), old(mIndices[..]), old(used), key, k)
      ensures mData[..] == old(mData[..])[mIndices[0] := value]
      ensures value == if Find(old(List()), key).Some? then Find(old(List()), key).value
                       else updater(key, old(mData[..])[mIndices[0]])
    {
      ghost var list := List();
      var hit;
      hit, k := Promote(key);
      value := mData[mIndices[0]];
      if !hit {
        value := updater(key, mData[mIndices[0]]);
        Store(value, list, key);
      }
    }
  }
}
