/**
 What both LRU caches implement: a list of entries, the most recently used first, of which at most
 `capacity` are kept.
 */
module RecencyList {
  import opened Basics

  datatype Entry<T> = Entry(key: nat, value: T)

  /** The value cached under a key. */
  function Find<T>(list: seq<Entry<T>>, key: nat): Option<T> {
    if list == [] then None
    else if list[0].key == key then Some(list[0].value)
    else Find(list[1..], key)
  }

  /** The list without the entry for a key. */
  function Without<T>(list: seq<Entry<T>>, key: nat): seq<Entry<T>> {
    if list == [] then []
    else if list[0].key == key then list[1..]
    else [list[0]] + Without(list[1..], key)
  }

  function Take<T>(list: seq<T>, n: nat): seq<T> {
    if |list| <= n then list else list[..n]
  }

  /** The value becomes the most recently used one, and whatever then exceeds the capacity goes. */
  function Use<T>(list: seq<Entry<T>>, capacity: nat, key: nat, value: T): seq<Entry<T>> {
    Take([Entry(key, value)] + Without(list, key), capacity)
  }

  ghost predicate DistinctKeys<T>(list: seq<Entry<T>>) {
    forall i, j :: 0 <= i < j < |list| ==> list[i].key != list[j].key
  }

  lemma {:induction false} FindAt<T>(list: seq<Entry<T>>, i: nat)
    requires DistinctKeys(list) && i < |list|
    ensures Find(list, list[i].key) == Some(list[i].value)
    ensures Without(list, list[i].key) == list[..i] + list[i + 1..]
  {
    if i > 0 {
      assert list[1..][i - 1] == list[i];
      FindAt(list[1..], i - 1);
      assert list[..i] + list[i + 1..] == [list[0]] + (list[1..][..i - 1] + list[1..][i..]);
    }
  }

  lemma {:induction false} FindNone<T>(list: seq<Entry<T>>, key: nat)
    requires forall i :: 0 <= i < |list| ==> list[i].key != key
    ensures Find(list, key) == None && Without(list, key) == list
  {
    if list != [] { FindNone(list[1..], key); }
  }

  // ----- what the list means -----

  /** The uses of a cache since it was last cleared, the latest last, lead to this list. */
  function Recent<T>(uses: seq<Entry<T>>, capacity: nat): seq<Entry<T>> {
    if uses == [] then [] else
    var last := uses[|uses| - 1];
    Use(Recent(uses[..|uses| - 1], capacity), capacity, last.key, last.value)
  }

  /** The keys used since a key was last used. */
  function UsedSince<T>(uses: seq<Entry<T>>, key: nat): set<nat> {
    if uses == [] || uses[|uses| - 1].key == key then {} else
    UsedSince(uses[..|uses| - 1], key) + {uses[|uses| - 1].key}
  }

  /** The value a key was last used with. */
  function LastValue<T>(uses: seq<Entry<T>>, key: nat): Option<T> {
    if uses == [] then None
    else if uses[|uses| - 1].key == key then Some(uses[|uses| - 1].value)
    else LastValue(uses[..|uses| - 1], key)
  }

  /** The list without a bound on its length. */
  function All<T>(uses: seq<Entry<T>>): seq<Entry<T>> {
    if uses == [] then [] else [uses[|uses| - 1]] + Without(All(uses[..|uses| - 1]), uses[|uses| - 1].key)
  }

  lemma {:induction false} TakeWithout<T>(list: seq<Entry<T>>, n: nat, key: nat)
    ensures Take(Without(Take(list, n + 1), key), n) == Take(Without(list, key), n)
  {
    if list != [] && list[0].key != key && n > 0 {
      TakeWithout(list[1..], n - 1, key);
      var cut := Take(list, n + 1);
      assert cut[0] == list[0] && cut[1..] == Take(list[1..], n);
      assert Take(Without(cut, key), n) == [list[0]] + Take(Without(cut[1..], key), n - 1);
    }
  }

  /** A bound only cuts the list off, whenever it is applied. */
  lemma {:induction false} RecentIsPrefix<T>(uses: seq<Entry<T>>, capacity: nat)
    requires capacity > 0
    ensures Recent(uses, capacity) == Take(All(uses), capacity)
  {
    if uses != [] {
      var before, last := uses[..|uses| - 1], uses[|uses| - 1];
      RecentIsPrefix(before, capacity);
      TakeWithout(All(before), capacity - 1, last.key);
      assert Take([last] + Without(Take(All(before), capacity), last.key), capacity)
          == [last] + Take(Without(Take(All(before), capacity), last.key), capacity - 1);
      assert Take([last] + Without(All(before), last.key), capacity) ==
               [last] + Take(Without(All(before), last.key), capacity - 1);
    }
  }

  /** No key occurs twice, said step by step. */
  predicate Unique<T>(list: seq<Entry<T>>) {
    list == [] || (list[0].key !in Keys(list[1..]) && Unique(list[1..]))
  }

  function Keys<T>(list: seq<Entry<T>>): set<nat> {
    if list == [] then {} else {list[0].key} + Keys(list[1..])
  }

  function KeysBefore<T>(list: seq<Entry<T>>, key: nat): set<nat> {
    if list == [] || list[0].key == key then {} else {list[0].key} + KeysBefore(list[1..], key)
  }

  lemma {:induction false} WithoutKeys<T>(list: seq<Entry<T>>, key: nat)
    requires Unique(list)
    ensures Unique(Without(list, key)) && Keys(Without(list, key)) == Keys(list) - {key}
  {
    if list != [] && list[0].key != key {
      WithoutKeys(list[1..], key);
      assert ([list[0]] + Without(list[1..], key))[1..] == Without(list[1..], key);
    }
  }

  lemma {:induction false} BeforeAreKeys<T>(list: seq<Entry<T>>, key: nat)
    ensures KeysBefore(list, key) <= Keys(list)
  {
    if list != [] { BeforeAreKeys(list[1..], key); }
  }

  lemma {:induction false} BeforeWithout<T>(list: seq<Entry<T>>, gone: nat, key: nat)
    requires Unique(list) && gone != key
    ensures KeysBefore(Without(list, gone), key) == KeysBefore(list, key) - {gone}
    ensures Find(Without(list, gone), key) == Find(list, key)
  {
    if list != [] {
      BeforeAreKeys(list[1..], key);
      if list[0].key != gone {
        BeforeWithout(list[1..], gone, key);
        assert ([list[0]] + Without(list[1..], gone))[1..] == Without(list[1..], gone);
      }
    }
  }

  /** The entries before a key are those used since it was. */
  lemma {:induction false} AllInOrder<T>(uses: seq<Entry<T>>, key: nat)
    ensures Unique(All(uses)) && Find(All(uses), key) == LastValue(uses, key)
    ensures LastValue(uses, key).Some? ==> KeysBefore(All(uses), key) == UsedSince(uses, key)
  {
    if uses != [] {
      var before, last := uses[..|uses| - 1], uses[|uses| - 1];
      AllInOrder(before, key);
      var rest := Without(All(before), last.key);
      WithoutKeys(All(before), last.key);
      assert ([last] + rest)[1..] == rest;
      if last.key != key { BeforeWithout(All(before), last.key, key); }
    }
  }

  lemma {:induction false} FindInPrefix<T>(list: seq<Entry<T>>, n: nat, key: nat)
    requires Unique(list)
    ensures Find(Take(list, n), key) == if |KeysBefore(list, key)| < n then Find(list, key) else None
  {
    if list != [] && n > 0 {
      BeforeAreKeys(list[1..], key);
      FindInPrefix(list[1..], n - 1, key);
      assert Take(list, n)[1..] == Take(list[1..], n - 1);
    }
  }

  /**
   A key is cached exactly if it has been used, and fewer than `capacity` other keys since then; what
   is cached is the value of its last use.
   */
  lemma LeastRecentlyUsedGo<T>(uses: seq<Entry<T>>, capacity: nat, key: nat)
    requires capacity > 0
    ensures Find(Recent(uses, capacity), key) ==
            if LastValue(uses, key).Some? && |UsedSince(uses, key)| < capacity then LastValue(uses, key) else None
  {
    RecentIsPrefix(uses, capacity);
    AllInOrder(uses, key);
    FindInPrefix(All(uses), capacity, key);
  }
}
