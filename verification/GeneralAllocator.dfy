/**
 The general allocator.  Addresses and sizes of blocks are counted in blocks of 32 bytes; a pointer
 that the caller gets is the address of the block after the header, and 0 is the null pointer.
 */
module GeneralAllocator {
  import opened Basics
  import opened Tiling
  import opened FreeList
  import opened Heap
  import opened Payload

  // ----- the memory source, and what it is asked for -----

  /** The memory source: what it gives for a number of bytes, at each of the three attempts of one call. */
  type Source = (nat, nat) -> Option<Region>

  /** What is assumed of the source: regions that are large enough and do not touch what is held. */
  ghost predicate Proper(source: Source, pools: set<Region>) {
    forall attempt: nat, bytes: nat, r: Region {:trigger source(attempt, bytes), PoolOk(r)} ::
      source(attempt, bytes) == Some(r) ==> PoolOk(r) && BLOCK * r.blocks >= bytes && FarFrom(r, pools)
  }

  ghost predicate FarFrom(r: Region, pools: set<Region>) {
    forall q {:trigger Apart(r, q)} :: q in pools ==> Apart(r, q)
  }

  /** The least multiple of m that is not below n. */
  function RoundUp(n: nat, m: nat): (r: nat)
    requires m > 0
    ensures n <= r < n + m && r % m == 0
  {
    LeastMultiple(n, m);
    var rem := n % m;
    n + if rem != 0 then m - rem else 0
  }

  lemma LeastMultiple(n: nat, m: nat)
    requires m > 0
    ensures n % m == 0 || (n + (m - n % m)) % m == 0
  {
    if n % m != 0 {
      Division(n, m);
      assert (n / m + 1) * m == n / m * m + m;
      Reduced(n + (m - n % m), 0, m, n / m + 1);
    }
  }

  /** What is asked for on top of n bytes. */
  function ReserveBytes(n: nat, cacheSize: nat, lastAllocSize: nat): (r: nat)
    ensures n < cacheSize ==> r == cacheSize
    ensures cacheSize <= n < lastAllocSize / 2 ==> r == lastAllocSize
    ensures cacheSize <= n && lastAllocSize / 2 <= n ==> 2 * r <= 3 * lastAllocSize < 2 * r + 2
  {
    if n < cacheSize then cacheSize else if n < lastAllocSize / 2 then lastAllocSize else lastAllocSize * 3 / 2
  }

  /** sizeof(size_type) */
  const SIZE_OF_SIZE: nat := 8

  /** The three sizes that are tried in turn: each is the least multiple that will do. */
  function Asked(n: nat, cacheSize: nat, lastAllocSize: nat, attempt: nat): (bytes: nat)
    requires cacheSize > 0
    ensures bytes >= n
    ensures attempt == 0 ==>
              bytes % cacheSize == 0 && 0 <= bytes - n - ReserveBytes(n, cacheSize, lastAllocSize) < cacheSize
    ensures attempt == 1 ==> bytes % cacheSize == 0 && bytes < n + cacheSize
    ensures attempt >= 2 ==> bytes % BLOCK == 0 && bytes < n + BLOCK
  {
    if attempt == 0 then RoundUp(n + ReserveBytes(n, cacheSize, lastAllocSize), cacheSize)
    else if attempt == 1 then RoundUp(n, cacheSize)
    else RoundUp(n, BLOCK)
  }

  /** What the source gives in the end. */
  function Granted(source: Source, n: nat, cacheSize: nat, lastAllocSize: nat): Option<Region>
    requires cacheSize > 0
  {
    var first := source(0, Asked(n, cacheSize, lastAllocSize, 0));
    if first.Some? then first else
    var second := source(1, Asked(n, cacheSize, lastAllocSize, 1));
    if second.Some? then second else
    source(2, Asked(n, cacheSize, lastAllocSize, 2))
  }

  lemma GrantedIsProper(source: Source, pools: set<Region>, n: nat, cacheSize: nat, lastAllocSize: nat)
    requires cacheSize > 0 && Proper(source, pools) && Granted(source, n, cacheSize, lastAllocSize).Some?
    ensures var r := Granted(source, n, cacheSize, lastAllocSize).value;
            PoolOk(r) && BLOCK * r.blocks >= n && FarFrom(r, pools)
  {
    var r := Granted(source, n, cacheSize, lastAllocSize).value;
    assert PoolOk(r);
  }

  /** b blocks hold a header, which takes up one of them, and n bytes. */
  predicate Holds(b: nat, n: nat) {
    b > 0 && BLOCK * (b - 1) >= n
  }

  /** The least number of blocks that hold a header and n bytes. */
  function Blocks(n: nat): (b: nat)
    ensures Holds(b, n) && (n > 0 ==> b >= 2)
    ensures forall c: nat {:trigger Holds(c, n)} :: Holds(c, n) ==> b <= c
  {
    (n + BLOCK) / BLOCK + if (n + BLOCK) % BLOCK != 0 then 1 else 0
  }

  /** a is the first entry of the list that is large enough. */
  ghost predicate FirstFit(a: nat, hdr: Headers, free: seq<nat>, needed: nat) {
    exists k: nat ::
      k < |free| && a == free[k] && a in hdr && hdr[a].numBlocks >= needed && !Fits(hdr, free[..k], needed)
  }

  /** Some entry of the list is large enough. */
  ghost predicate Fits(hdr: Headers, free: seq<nat>, needed: nat) {
    exists i: nat :: i < |free| && free[i] in hdr && hdr[free[i]].numBlocks >= needed
  }

  /** The writes of a merge keep the payloads. */
  lemma MergeKeeps(hdr: Headers, mem: Bytes, mem': Bytes, starts: set<nat>, pools: set<Region>, live: set<nat>,
      a: nat, b: nat, fuses: bool)
    requires PayloadsKept(hdr, mem, mem', live) && Tiled(hdr, starts, pools) && live <= starts
    requires a in starts && (fuses ==> b in starts)
    ensures PayloadsKept(hdr, mem, if fuses then Clobber(Clobber(mem', a), b) else Clobber(mem', a), live)
  {
    StartsOutside(hdr, starts, pools, live, a);
    WriteKeeps(hdr, mem, mem', live, a);
    if fuses {
      StartsOutside(hdr, starts, pools, live, b);
      WriteKeeps(hdr, mem, Clobber(mem', a), live, b);
    }
  }

  lemma SameAsBefore(hdr: Headers, mem: Bytes, starts: set<nat>, pools: set<Region>, live: set<nat>)
    requires Tiled(hdr, starts, pools) && live <= starts
    ensures LiveKept(hdr, hdr, live) && PayloadsKept(hdr, mem, mem, live) && live <= hdr.Keys
  {
    forall x | x in live ensures x in hdr { assert StartOk(hdr, starts, pools, x); }
    NothingChanged(hdr, mem, live);
  }

  /** A link that is written keeps what is live. */
  lemma RelinkKeeps(hdr: Headers, mem: Bytes, starts: set<nat>, pools: set<Region>, live: set<nat>, b: nat, next: nat)
    requires Tiled(hdr, starts, pools) && live <= starts && b in starts && b in hdr
    ensures LiveKept(hdr, hdr[b := hdr[b].(pNext := next)], live) && PayloadsKept(hdr, mem, Clobber(mem, b), live)
  {
    SameAsBefore(hdr, mem, starts, pools, live);
    StartsOutside(hdr, starts, pools, live, b);
    WriteKeeps(hdr, mem, mem, live, b);
    forall x {:trigger SameExtent(hdr, hdr[b := hdr[b].(pNext := next)], x)} | x in live
      ensures SameExtent(hdr, hdr[b := hdr[b].(pNext := next)], x)
    {
      assert SameExtent(hdr, hdr, x);
    }
  }

  lemma OneLess(pools: set<Region>, p: Region)
    requires p in pools
    ensures multiset(pools) == multiset(pools - {p}) + multiset{p}
  {
  }

  /** No block is live in a whole free pool. */
  lemma NothingLive(hdr: Headers, starts: set<nat>, pools: set<Region>, live: set<nat>, temp: nat)
    requires Tiled(hdr, starts, pools) && live <= starts && temp in starts && temp !in live && Whole(hdr, temp)
    ensures NoneLiveIn(hdr, live, PoolOf(hdr[temp]))
  {
    forall a | a in live ensures a in hdr && PoolOf(hdr[a]) != PoolOf(hdr[temp]) {
      assert StartOk(hdr, starts, pools, a);
      if PoolOf(hdr[a]) == PoolOf(hdr[temp]) { WholeIsAlone(hdr, starts, pools, temp, a); }
    }
  }

  lemma ClobberTwice(mem: Bytes, b: nat)
    ensures Clobber(Clobber(mem, b), b) == Clobber(mem, b)
  {
  }

  /** A new pool's base is none of the entries. */
  lemma NewEntry(hdr: Headers, free: seq<nat>, live: set<nat>, pools: set<Region>, p: Region)
    requires Laid(hdr, free, live, pools) && PoolOk(p) && FarFrom(p, pools)
    ensures forall x :: x in free ==> x in hdr && x != p.base
  {
    NewBase(hdr, Starts(free, live), pools, p);
    InSeg(hdr, free, 0);
    forall x | x in free ensures x in hdr && x != p.base { assert x in Starts(free, live); }
  }

  /** Live blocks have room for at least one byte. */
  ghost predicate Sizable(hdr: Headers, live: set<nat>) {
    forall a {:trigger a in live} :: a in live ==> a in hdr && 2 <= hdr[a].numBlocks
  }

  lemma StillSizable(hdr: Headers, hdr': Headers, live: set<nat>)
    requires Sizable(hdr, live) && LiveKept(hdr, hdr', live)
    ensures Sizable(hdr', live)
  {
    forall a {:trigger a in live} | a in live
      ensures a in hdr' && 2 <= hdr'[a].numBlocks
    {
      assert SameExtent(hdr, hdr', a);
    }
  }

  lemma OnePool(p: Region)
    requires PoolOk(p)
    ensures Consistent(p.base, map[p.base := Header(p.blocks, 0, p.base, p.blocks)], [p.base], {}, {p})
  {
    var none: Headers := map[];
    AddPool(none, [], [], {}, {}, p);
    assert WithPool(none, [], 0, p) == map[p.base := Header(p.blocks, 0, p.base, p.blocks)];
    assert [] + [p.base] + [] == [p.base] && {} + {p} == {p};
  }

  class Allocator {
    const cacheSize: nat
    var mHead: nat
    var mLastAllocSize: nat
    var hdr: Headers
    var mem: Bytes

    ghost var free: seq<nat>
    ghost var live: set<nat>
    ghost var pools: set<Region>
    ghost var acquired: multiset<Region>
    ghost var returned: multiset<Region>

    ghost predicate Valid()
      reads this
    {
      && Consistent(mHead, hdr, free, live, pools)
      && acquired == returned + multiset(pools)
      && 0 < cacheSize && cacheSize % BLOCK == 0
      && Sizable(hdr, live)
    }

    /** The constructor without an initial pool. */
    constructor (cacheSize: nat)
      requires 0 < cacheSize && cacheSize % BLOCK == 0
      ensures Valid() && live == {} && pools == {} && mLastAllocSize == 0 && this.cacheSize == cacheSize
    {
      this.cacheSize := cacheSize;
      mHead, mLastAllocSize, hdr, mem := 0, 0, map[], map[];
      free, live, pools, acquired, returned := [], {}, {}, multiset{}, multiset{};
    }

    /** The constructor with an initial pool, if the source gives one. */
    constructor Initial(cacheSize: nat, initial: Option<Region>)
      requires 0 < cacheSize && cacheSize % BLOCK == 0 && (initial.Some? ==> PoolOk(initial.value))
      ensures Valid() && live == {} && pools == (if initial.Some? then {initial.value} else {})
      ensures mLastAllocSize == (if initial.Some? then initial.value.blocks * BLOCK else 0)
              && this.cacheSize == cacheSize
    {
      this.cacheSize := cacheSize;
      mHead, mLastAllocSize, hdr, mem := 0, 0, map[], map[];
      free, live, pools, acquired, returned := [], {}, {}, multiset{}, multiset{};
      new;
      if initial.Some? {
        var p := initial.value;
        mHead := p.base;
        hdr := map[p.base := Header(p.blocks, 0, p.base, p.blocks)];
        mLastAllocSize := p.blocks * BLOCK;
        free, pools, acquired := [p.base], {p}, multiset{p};
        OnePool(p);
      }
    }

    /** The checks of that constructor, and what it asks the source for; null stands for an abort. */
    static method Create(cacheSize: nat, initialSize: nat, source: nat -> Option<Region>) returns (a: Allocator?)
      requires 0 < cacheSize && cacheSize % BLOCK == 0
      requires source(initialSize).Some? ==>
                 PoolOk(source(initialSize).value) && BLOCK * source(initialSize).value.blocks >= initialSize
      ensures a == null <==> initialSize <= BLOCK || initialSize % BLOCK != 0
      ensures a != null ==> fresh(a) && a.Valid() && a.cacheSize == cacheSize && a.live == {}
      ensures a != null && source(initialSize).None? ==> a.pools == {} && a.mLastAllocSize == 0
      ensures a != null && source(initialSize).Some? ==>
                a.pools == {source(initialSize).value} && a.mLastAllocSize >= initialSize
    {
      if initialSize < SIZE_OF_SIZE {
        return null;
      }
      if initialSize % BLOCK != 0 {
        return null;
      }
      if BLOCK >= initialSize {
        return null;
      }
      a := new Allocator.Initial(cacheSize, source(initialSize));
    }

    /** A header is written; its bytes are no payload any more. */
    method Write(a: nat, h: Header)
      modifies `hdr, `mem
      ensures hdr == old(hdr)[a := h] && mem == Clobber(old(mem), a)
    {
      hdr := hdr[a := h];
      mem := Clobber(mem, a);
    }

    /** _merge_allocation_blocks: the double-free branch is not reached if the blocks do not overlap. */
    method Merge(pHead: nat, pBlock: nat) returns (r: nat)
      requires pHead in hdr && 0 < pHead && End(hdr, pHead) < LIMIT
      requires pBlock != 0 ==> pBlock in hdr && End(hdr, pHead) <= pBlock < LIMIT
      modifies `hdr, `mem
      ensures hdr == Merged(old(hdr), pHead, pBlock)
      ensures mem == if Fuses(old(hdr), pHead, pBlock) then Clobber(Clobber(old(mem), pHead), pBlock)
                     else Clobber(old(mem), pHead)
      ensures r == if Fuses(old(hdr), pHead, pBlock) then pHead else pBlock
    {
      var numBlocks := hdr[pHead].numBlocks;
      var diff := if pBlock >= pHead then pBlock - pHead else pBlock + LIMIT - pHead;
      r := pBlock;
      if diff > numBlocks {
        Write(pHead, hdr[pHead].(pNext := pBlock));
      } else if diff == numBlocks {
        var merged := hdr[pBlock];
        Write(pHead, hdr[pHead].(numBlocks := numBlocks + merged.numBlocks, pNext := merged.pNext));
        Write(pBlock, Header(0, 0, 0, 0));
        r := pHead;
      } else {
        assert false;
      }
    }

    /** What is known of the list when r has been linked in as part of entry t. */
    ghost predicate LinkedIn(left: seq<nat>, t: nat, right: seq<nat>, r: nat, hdr0: Headers, mem0: Bytes)
      reads this
    {
      && Laid(hdr, left + [t] + right, live - {r}, pools) && OneWholeBut(hdr, left + [t] + right, t)
      && mHead == First(left + [t] + right, 0)
      && LiveKept(hdr0, hdr, live - {r}) && PayloadsKept(hdr0, mem0, mem, live - {r})
      && t in hdr && r in hdr0 && PoolOf(hdr[t]) == PoolOf(hdr0[r])
    }

    /** _free_impl, as far as the block goes to the front of the list. */
    method LinkFirst(r: nat) returns (ghost right: seq<nat>)
      requires Valid() && r in live && (mHead == 0 || mHead > r)
      modifies `hdr, `mem, `mHead
      ensures LinkedIn([], r, right, r, old(hdr), old(mem))
    {
      ghost var hdr0, mem0, starts, live' := hdr, mem, Starts(free, live), live - {r};
      ghost var tail := [r] + Behind(hdr, r, free);
      assert free[0..] == free && free[..0] == [];
      if free != [] { assert LinkOk(hdr, free, 0, 0); }
      JoinRight(hdr, free, live, pools, 0, r);
      Positive(hdr, starts, pools, r);
      if free != [] { Positive(hdr, starts, pools, free[0]); }
      SameAsBefore(hdr, mem, starts, pools, live');
      MergeKeeps(hdr, mem, mem, starts, pools, live', r, mHead, Fuses(hdr, r, mHead));
      var merged := Merge(r, mHead);
      mHead := r;
      right := Behind(hdr0, r, free);
      assert [] + tail == tail == [] + [r] + right;
      WholesKept(hdr0, hdr, free, tail, live', r);
    }

    /** _free_impl, as far as the block goes between entries or behind the last one. */
    method LinkBehind(r: nat) returns (temp: nat, prev: nat, ghost left: seq<nat>, ghost right: seq<nat>)
      requires Valid() && r in live && mHead != 0 && mHead <= r
      modifies `hdr, `mem
      ensures LinkedIn(left, temp, right, r, old(hdr), old(mem))
      ensures prev == if left == [] then 0 else left[|left| - 1]
    {
      ghost var hdr0, mem0, starts, live' := hdr, mem, Starts(free, live), live - {r};
      ghost var k := 1;
      InSeg(hdr, free, 0);
      assert LinkOk(hdr, free, 0, 0);
      var prev2 := 0;
      var curr := hdr[mHead].pNext;
      prev := mHead;
      while curr != 0 && curr < r
        invariant 1 <= k <= |free| && prev == free[k - 1] < r && curr == First(free[k..], 0)
        invariant prev2 == if k > 1 then free[k - 2] else 0
        decreases |free| - k
      {
        assert LinkOk(hdr, free, 0, k);
        prev2 := prev;
        prev := curr;
        curr := hdr[curr].pNext;
        k := k + 1;
      }
      temp := LinkBetween(r, prev, curr, k);
      left := if temp == prev then free[..k - 1] else free[..k];
      right := Behind(hdr0, r, free[k..]);
      if temp == prev {
        prev := prev2;
      }
    }

    /** The two merges around a place in the list. */
    method LinkBetween(r: nat, prev: nat, curr: nat, ghost k: nat) returns (temp: nat)
      requires Valid() && r in live && 1 <= k <= |free| && PlaceOf(free, k, r) && prev == free[k - 1]
               && curr == First(free[k..], 0)
      modifies `hdr, `mem
      ensures temp == prev || temp == r
      ensures LinkedIn(if temp == prev then free[..k - 1] else free[..k], temp, Behind(old(hdr), r, free[k..]),
                       r, old(hdr), old(mem))
    {
      ghost var hdr0, mem0, starts, live' := hdr, mem, Starts(free, live), live - {r};
      JoinBoth(hdr, free, live, pools, k, r);
      Positive(hdr, starts, pools, r);
      Positive(hdr, starts, pools, prev);
      if curr != 0 { Positive(hdr, starts, pools, curr); }
      SameAsBefore(hdr, mem, starts, pools, live');
      MergeKeeps(hdr, mem, mem, starts, pools, live', r, curr, Fuses(hdr, r, curr));
      var merged := Merge(r, curr);
      MergeKeeps(hdr0, mem0, mem, starts, pools, live', prev, r, Fuses(hdr, prev, r));
      temp := Merge(prev, r);
    }

    /** What a call leaves alone: the extents and the payloads of these live blocks. */
    ghost predicate Kept(blocks: set<nat>, hdr0: Headers, mem0: Bytes)
      reads this
    {
      LiveKept(hdr0, hdr, blocks) && PayloadsKept(hdr0, mem0, mem, blocks)
    }

    /**
     Pool p has gone back to the memory source, at its base and with its full size, exactly if nothing
     is live in it and it is not all that is free; no other pool has.
     */
    ghost predicate GaveBack(p: Region, pools0: set<Region>, returned0: multiset<Region>)
      reads this
    {
      if p in pools then
        pools == pools0 && returned == returned0 && (NoneLiveIn(hdr, live, p) ==> free == [p.base])
      else
        && p in pools0 && pools == pools0 - {p} && returned == returned0 + multiset{p}
        && NoneLiveIn(hdr, live, p) && free != []
    }

    /** The end of _free_impl: a whole pool goes back to the memory source, unless it is all there is. */
    method PruneIfWhole(temp: nat, prev: nat, ghost left: seq<nat>, ghost right: seq<nat>)
      requires free == left + [temp] + right && Laid(hdr, free, live, pools) && OneWholeBut(hdr, free, temp)
      requires mHead == First(free, 0) && prev == (if left == [] then 0 else left[|left| - 1])
      requires acquired == returned + multiset(pools) && 0 < cacheSize && cacheSize % BLOCK == 0 && Sizable(hdr, live)
      modifies this
      ensures Valid() && live == old(live) && acquired == old(acquired) && mLastAllocSize == old(mLastAllocSize)
      ensures Kept(live, old(hdr), old(mem))
      ensures temp in old(hdr) && GaveBack(PoolOf(old(hdr)[temp]), old(pools), old(returned))
    {
      ghost var starts := Starts(free, live);
      Around(hdr, left, temp, right);
      assert temp in free;
      SameAsBefore(hdr, mem, starts, pools, live);
      if left != [] { Positive(hdr, starts, pools, prev) by { assert prev in free; } }
      if right != [] { Positive(hdr, starts, pools, right[0]) by { assert right[0] in free; } }
      ghost var pool := PoolOf(hdr[temp]);
      assert StartOk(hdr, starts, pools, temp);
      if NoneLiveIn(hdr, live, pool) {
        BaseIsWhole(hdr, free, live, pools, pool);
        WholeIsAlone(hdr, starts, pools, pool.base, temp);
      }
      if hdr[temp].numBlocks == hdr[temp].allocatedBlocks {
        WholeAtBase(hdr, starts, pools, temp);
        if !(prev != 0 || hdr[temp].pNext != 0) {
          assert free == [temp];
          return;
        }
        GiveBack(temp, prev, left, right);
      }
    }

    /** An entry is taken out of the list. */
    method Unlink(temp: nat, prev: nat, ghost left: seq<nat>, ghost right: seq<nat>)
      requires free == left + [temp] + right && Laid(hdr, free, live, pools) && mHead == First(free, 0)
      requires if prev != 0 then left != [] && prev == left[|left| - 1] else left == []
      modifies `hdr, `mem, `mHead
      ensures (left != [] ==> left[|left| - 1] in old(hdr)) && hdr == Bypassed(old(hdr), left, First(right, 0))
      ensures mHead == First(left + right, 0) && Kept(live, old(hdr), old(mem))
    {
      ghost var starts := Starts(free, live);
      Around(hdr, left, temp, right);
      SameAsBefore(hdr, mem, starts, pools, live);
      if prev != 0 {
        assert prev in free;
        RelinkKeeps(hdr, mem, starts, pools, live, prev, hdr[temp].pNext);
        Write(prev, hdr[prev].(pNext := hdr[temp].pNext));
      } else {
        mHead := hdr[temp].pNext;
      }
    }

    /** A whole pool is taken out of the list and handed back. */
    method GiveBack(temp: nat, prev: nat, ghost left: seq<nat>, ghost right: seq<nat>)
      requires free == left + [temp] + right && Laid(hdr, free, live, pools) && OneWholeBut(hdr, free, temp)
               && Whole(hdr, temp)
      requires mHead == First(free, 0) && left + right != []
      requires if prev != 0 then left != [] && prev == left[|left| - 1] else left == []
      requires acquired == returned + multiset(pools) && 0 < cacheSize && cacheSize % BLOCK == 0 && Sizable(hdr, live)
      modifies this
      ensures Valid() && live == old(live) && acquired == old(acquired) && mLastAllocSize == old(mLastAllocSize)
      ensures Kept(live, old(hdr), old(mem))
      ensures temp in old(hdr) && GaveBack(PoolOf(old(hdr)[temp]), old(pools), old(returned))
    {
      ghost var pool := PoolOf(hdr[temp]);
      assert temp in free;
      Prune(hdr, left, temp, right, live, pools);
      NothingLive(hdr, Starts(free, live), pools, live, temp);
      OneLess(pools, pool);
      var numBlocks := hdr[temp].numBlocks;
      ghost var hdr0 := hdr;
      Unlink(temp, prev, left, right);
      StillSizable(hdr0, hdr, live);
      assert forall a {:trigger a in live} :: a in live ==> SameExtent(hdr0, hdr, a);
      // The memory source takes numBlocks blocks at temp.
      returned := returned + multiset{Region(temp, numBlocks)};
      pools := pools - {pool};
      free := left + right;
    }

    /** _free_impl */
    method FreeImpl(r: nat)
      requires Valid() && r in live
      modifies this
      ensures Valid() && live == old(live) - {r} && acquired == old(acquired) && mLastAllocSize == old(mLastAllocSize)
      ensures Kept(live, old(hdr), old(mem))
      ensures r in old(hdr) && GaveBack(PoolOf(old(hdr)[r]), old(pools), old(returned))
    {
      ghost var hdr0, mem0 := hdr, mem;
      var temp, prev;
      ghost var left, right;
      if mHead == 0 || mHead > r {
        right := LinkFirst(r);
        temp, prev, left := r, 0, [];
      } else {
        temp, prev, left, right := LinkBehind(r);
      }
      live := live - {r};
      free := left + [temp] + right;
      ghost var hdr1, mem1 := hdr, mem;
      StillSizable(hdr0, hdr, live);
      PruneIfWhole(temp, prev, left, right);
      Payload.KeptTwice(hdr0, hdr1, hdr, mem0, mem1, mem, live);
    }

    /** _alloc_new_cache */
    method AllocNewCache(n: nat, source: Source) returns (p: nat)
      requires 0 < cacheSize && Proper(source, pools)
      modifies `hdr, `mem, `mLastAllocSize
      ensures var r := Granted(source, n, cacheSize, old(mLastAllocSize));
              if r.None? then p == 0 && hdr == old(hdr) && mem == old(mem) && mLastAllocSize == old(mLastAllocSize)
              else p == r.value.base != 0 && hdr == old(hdr)[p := Header(r.value.blocks, 0, p, r.value.blocks)]
                   && mem == Clobber(old(mem), p) && mLastAllocSize == BLOCK * r.value.blocks
    {
      var lastAllocSize := mLastAllocSize;
      var cache := source(0, Asked(n, cacheSize, lastAllocSize, 0));
      if cache.None? {
        cache := source(1, Asked(n, cacheSize, lastAllocSize, 1));
        if cache.None? {
          cache := source(2, Asked(n, cacheSize, lastAllocSize, 2));
          if cache.None? {
            return 0;
          }
        }
      }
      GrantedIsProper(source, pools, n, cacheSize, lastAllocSize);
      p := cache.value.base;
      mLastAllocSize := BLOCK * cache.value.blocks;
      Write(p, Header(cache.value.blocks, 0, p, cache.value.blocks));
    }

    /** A new cache comes into the list; `last` is the last entry. */
    method LinkCache(iter: nat, last: nat, ghost hdr0: Headers, ghost p: Region)
      returns (prev: nat, ghost left: seq<nat>, ghost right: seq<nat>)
      requires Laid(hdr0, free, live, pools) && OneWhole(hdr0, free) && mHead == First(free, 0)
      requires last == (if free == [] then 0 else free[|free| - 1])
      requires p.base == iter && PoolOk(p) && FarFrom(p, pools)
               && hdr == hdr0[iter := Header(p.blocks, 0, iter, p.blocks)]
      modifies `hdr, `mem, `mHead
      ensures free == left + right && prev == (if left == [] then 0 else left[|left| - 1])
              && mHead == First(left + [iter] + right, 0)
      ensures (left != [] ==> left[|left| - 1] in hdr0) && PlaceOf(free, |left|, iter)
              && hdr == WithPool(hdr0, left, First(right, 0), p)
      ensures old(mem) == Clobber(old(mem), iter) ==> mem == if left == [] then old(mem) else Clobber(old(mem), prev)
    {
      NullHead(hdr0, free);
      if mHead == 0 {
        mHead := iter;
        prev, left, right := 0, [], [];
      } else {
        prev, left, right := InsertCache(iter, last, hdr0, p);
      }
    }

    /** Where a new cache goes; `last` is the last entry. */
    method FindPlace(iter: nat, last: nat) returns (prev: nat, curr: nat, ghost k: nat)
      requires Seg(hdr, free, 0) && mHead == First(free, 0) && free != [] && last == free[|free| - 1] && mHead < iter
               && iter !in free
      ensures 0 < k && PlaceOf(free, k, iter) && prev == free[k - 1] && curr == First(free[k..], 0)
    {
      NullHead(hdr, free);
      NullLink(hdr, free, |free| - 1);
      if last != 0 && iter > last {
        prev := last;
        curr := hdr[last].pNext;
        k := |free|;
      } else {
        prev := 0;
        curr := mHead;
        k := 0;
      }
      while curr != 0 && curr < iter
        invariant k <= |free| && curr == First(free[k..], 0) && (k > 0 ==> prev == free[k - 1] && prev < iter)
                  && (curr == 0 <==> k == |free|)
        decreases |free| - k
      {
        assert LinkOk(hdr, free, 0, k);
        NullLink(hdr, free, k);
        prev := curr;
        curr := hdr[curr].pNext;
        k := k + 1;
      }
    }

    /** A new cache is put in its place in the list. */
    method InsertCache(iter: nat, last: nat, ghost hdr0: Headers, ghost p: Region)
      returns (prev: nat, ghost left: seq<nat>, ghost right: seq<nat>)
      requires Laid(hdr0, free, live, pools) && OneWhole(hdr0, free) && mHead == First(free, 0) && free != []
               && last == free[|free| - 1]
      requires p.base == iter && PoolOk(p) && FarFrom(p, pools)
               && hdr == hdr0[iter := Header(p.blocks, 0, iter, p.blocks)]
      modifies `hdr, `mem, `mHead
      ensures free == left + right && prev == (if left == [] then 0 else left[|left| - 1])
              && mHead == First(left + [iter] + right, 0)
      ensures (left != [] ==> left[|left| - 1] in hdr0) && PlaceOf(free, |left|, iter)
              && hdr == WithPool(hdr0, left, First(right, 0), p)
      ensures mem == if left == [] then Clobber(old(mem), iter) else Clobber(Clobber(old(mem), iter), prev)
    {
      NewEntry(hdr0, free, live, pools, p);
      if iter < mHead {
        prev := 0;
        Write(iter, hdr[iter].(pNext := mHead));
        mHead := iter;
        left, right := [], free;
      } else {
        ghost var k;
        var curr;
        SegFrame(hdr0, hdr, free, 0);
        assert mHead in free;
        prev, curr, k := FindPlace(iter, last);
        left, right := free[..k], free[k..];
        assert prev in free;
        Write(iter, hdr[iter].(pNext := curr));
        Write(prev, hdr[prev].(pNext := iter));
      }
    }

    /** An entry has been found: it is large enough, and the entries before it are not. */
    ghost predicate Found(iter: nat, prev: nat, left: seq<nat>, right: seq<nat>, needed: nat)
      reads this
    {
      && free == left + [iter] + right && Laid(hdr, free, live, pools) && OneWholeBut(hdr, free, iter)
      && mHead == First(free, 0) && prev == (if left == [] then 0 else left[|left| - 1])
      && iter in hdr && hdr[iter].numBlocks >= needed && Sizable(hdr, live)
      && acquired == returned + multiset(pools) && 0 < cacheSize && cacheSize % BLOCK == 0
    }

    /** The search in _find_or_allocate_entry. */
    method Search(needed: nat) returns (found: bool, iter: nat, prev: nat, ghost left: seq<nat>, ghost right: seq<nat>)
      requires Valid() && mHead != 0
      ensures found <==> Fits(hdr, free, needed)
      ensures found ==> Found(iter, prev, left, right, needed) && !Fits(hdr, left, needed)
      ensures !found ==> free != [] && prev == free[|free| - 1]
    {
      prev, iter := 0, mHead;
      ghost var k := 0;
      NullHead(hdr, free);
      assert LinkOk(hdr, free, 0, 0);
      var count := hdr[mHead].numBlocks;
      while count < needed
        invariant k < |free| && iter == free[k] && iter in hdr && count == hdr[iter].numBlocks
        invariant prev == if k > 0 then free[k - 1] else 0
        invariant forall i: nat :: i < k ==> free[i] in hdr && hdr[free[i]].numBlocks < needed
        decreases |free| - k
      {
        assert LinkOk(hdr, free, 0, k);
        NullLink(hdr, free, k);
        prev := iter;
        iter := hdr[iter].pNext;
        if iter == 0 {
          return false, 0, prev, [], [];
        }
        k := k + 1;
        assert LinkOk(hdr, free, 0, k);
        count := hdr[iter].numBlocks;
      }
      left, right := free[..k], free[k + 1..];
      assert free == left + [iter] + right;
      found := true;
    }

    /** The other half of _find_or_allocate_entry: a new cache becomes the entry. */
    method AddCache(needed: nat, last: nat, source: Source)
      returns (iter: nat, prev: nat, ghost left: seq<nat>, ghost right: seq<nat>)
      requires Valid() && Proper(source, pools) && last == (if free == [] then 0 else free[|free| - 1])
      modifies this
      ensures live == old(live) && returned == old(returned)
      ensures var r := Granted(source, needed * BLOCK, cacheSize, old(mLastAllocSize));
              if r.None? then iter == 0 && Same(old(mHead), old(hdr), old(mem), old(free), old(pools), old(acquired))
                              && mLastAllocSize == old(mLastAllocSize)
              else iter == r.value.base && Found(iter, prev, left, right, needed) && left + right == old(free)
                   && pools == old(pools) + {r.value} && acquired == old(acquired) + multiset{r.value}
                   && mLastAllocSize == BLOCK * r.value.blocks
                   && Kept(live, old(hdr), old(mem))
    {
      ghost var hdr0, mem0 := hdr, mem;
      ghost var r := Granted(source, needed * BLOCK, cacheSize, mLastAllocSize);
      if r.Some? { GrantedIsProper(source, pools, needed * BLOCK, cacheSize, mLastAllocSize); }
      iter := AllocNewCache(needed * BLOCK, source);
      prev, left, right := 0, [], [];
      if iter != 0 {
        prev, left, right := Enlist(iter, last, needed, hdr0, mem0, r.value);
      }
    }

    /** A new cache is linked in and counted. */
    method Enlist(iter: nat, last: nat, ghost needed: nat, ghost hdr0: Headers, ghost mem0: Bytes, ghost p: Region)
      returns (prev: nat, ghost left: seq<nat>, ghost right: seq<nat>)
      requires Consistent(mHead, hdr0, free, live, pools) && acquired == returned + multiset(pools) && 0 < cacheSize
               && cacheSize % BLOCK == 0
      requires Sizable(hdr0, live)
      requires last == (if free == [] then 0 else free[|free| - 1])
      requires p.base == iter && PoolOk(p) && p.blocks >= needed && FarFrom(p, pools)
      requires hdr == hdr0[iter := Header(p.blocks, 0, iter, p.blocks)] && mem == Clobber(mem0, iter)
      modifies this
      ensures live == old(live) && returned == old(returned) && mLastAllocSize == old(mLastAllocSize)
      ensures Found(iter, prev, left, right, needed) && left + right == old(free)
      ensures pools == old(pools) + {p} && acquired == old(acquired) + multiset{p}
      ensures Kept(live, hdr0, mem0)
    {
      ClobberTwice(mem0, iter);
      prev, left, right := LinkCache(iter, last, hdr0, p);
      PoolAdded(hdr0, mem0, left, right, live, pools, p, mem);
      StillSizable(hdr0, hdr, live);
      OneLess(pools + {p}, p);
      assert pools + {p} - {p} == pools;
      free := left + [iter] + right;
      acquired := acquired + multiset{p};
      pools := pools + {p};
    }

    ghost predicate Same(mHead0: nat, hdr0: Headers, mem0: Bytes, free0: seq<nat>, pools0: set<Region>,
        acquired0: multiset<Region>)
      reads this
    {
      mHead == mHead0 && hdr == hdr0 && mem == mem0 && free == free0 && pools == pools0 && acquired == acquired0
    }

    /** _find_or_allocate_entry */
    method FindOrAllocateEntry(needed: nat, source: Source)
      returns (found: bool, iter: nat, prev: nat, ghost left: seq<nat>, ghost right: seq<nat>)
      requires Valid() && Proper(source, pools)
      modifies this
      ensures live == old(live) && returned == old(returned)
      ensures found ==> Found(iter, prev, left, right, needed) && Kept(live, old(hdr), old(mem)) && left + right != free
      ensures Fits(old(hdr), old(free), needed) ==>
                && found && Same(old(mHead), old(hdr), old(mem), old(free), old(pools), old(acquired))
                   && !Fits(hdr, left, needed)
                && mLastAllocSize == old(mLastAllocSize)
      ensures !Fits(old(hdr), old(free), needed) ==>
                var r := Granted(source, needed * BLOCK, cacheSize, old(mLastAllocSize));
                if r.None? then !found && Same(old(mHead), old(hdr), old(mem), old(free), old(pools), old(acquired))
                                && mLastAllocSize == old(mLastAllocSize)
                else found && iter == r.value.base && left + right == old(free)
                     && mLastAllocSize == BLOCK * r.value.blocks
                     && pools == old(pools) + {r.value} && acquired == old(acquired) + multiset{r.value}
    {
      NullHead(hdr, free);
      SameAsBefore(hdr, mem, Starts(free, live), pools, live);
      found, iter, prev, left, right := false, 0, 0, [], [];
      if mHead != 0 {
        found, iter, prev, left, right := Search(needed);
      }
      if !found {
        if Granted(source, needed * BLOCK, cacheSize, mLastAllocSize).Some? {
          GrantedIsProper(source, pools, needed * BLOCK, cacheSize, mLastAllocSize);
        }
        iter, prev, left, right := AddCache(needed, prev, source);
        found := iter != 0;
      }
    }

    /** The writes of allocate. */
    method CarveWrites(iter: nat, prev: nat, needed: nat, ghost left: seq<nat>)
      requires iter in hdr && 0 < needed <= hdr[iter].numBlocks && 0 < iter && (left != [] ==> left[|left| - 1] in hdr)
      requires prev == (if left == [] then 0 else left[|left| - 1]) && (left != [] ==> prev != 0 && prev != iter)
      requires mHead == if left == [] then iter else left[0]
      requires hdr[iter].numBlocks > needed ==> prev != iter + needed
      modifies `hdr, `mem, `mHead
      ensures hdr == Carved(old(hdr), left, iter, needed) && mem == CarvedBytes(old(hdr), old(mem), left, iter, needed)
      ensures mHead == if left != [] then left[0]
                       else if old(hdr)[iter].numBlocks > needed then iter + needed
                       else old(hdr)[iter].pNext
    {
      ghost var hdr0 := hdr;
      var newBlockCount := hdr[iter].numBlocks - needed;
      var pNext;
      if newBlockCount > 0 {
        pNext := iter + needed;
        Write(pNext, hdr[iter].(numBlocks := newBlockCount));
      } else {
        pNext := hdr[iter].pNext;
      }
      if prev != 0 {
        Write(prev, hdr[prev].(pNext := pNext));
      } else if mHead == iter {
        mHead := pNext;
      } else {
        assert false;
      }
      Write(iter, hdr[iter].(numBlocks := needed, pNext := 0));
      assert hdr == Carved(hdr0, left, iter, needed);
    }

    /** The middle of allocate: `needed` blocks are taken from the beginning of the entry. */
    method Carve(iter: nat, prev: nat, needed: nat, ghost left: seq<nat>, ghost right: seq<nat>)
      requires Found(iter, prev, left, right, needed) && 2 <= needed
      modifies this
      ensures Valid() && iter !in old(live) && live == old(live) + {iter}
      ensures pools == old(pools) && acquired == old(acquired) && returned == old(returned)
              && mLastAllocSize == old(mLastAllocSize)
      ensures iter in hdr && hdr[iter].numBlocks == needed && Kept(old(live), old(hdr), old(mem))
      ensures free == Remaining(old(hdr), left, iter, right, needed)
    {
      ghost var free', live' := Remaining(hdr, left, iter, right, needed), live + {iter};
      Around(hdr, left, iter, right);
      NullLast(hdr, left, iter);
      Carving(hdr, mem, left, iter, right, live, pools, needed);
      ghost var hdr0 := hdr;
      CarveWrites(iter, prev, needed, left);
      StillSizable(hdr0, hdr, live);
      free := free';
      live := live';
    }

    /** A call has left everything as it was. */
    twostate predicate Unchanged()
      reads this
    {
      && mHead == old(mHead) && mLastAllocSize == old(mLastAllocSize) && hdr == old(hdr) && mem == old(mem)
      && free == old(free) && live == old(live) && pools == old(pools) && acquired == old(acquired)
         && returned == old(returned)
    }

    /**
     allocate: the first entry that is large enough is carved up; only if there is none is the source
     asked, and only if it refuses all three sizes does the call fail.
     */
    method Allocate(n: nat, source: Source) returns (p: nat)
      requires Valid() && Proper(source, pools)
      modifies this
      ensures Valid() && returned == old(returned)
      ensures p == 0 ==> Unchanged()
      ensures p == 0 <==> n == 0 || (!Fits(old(hdr), old(free), Blocks(n))
                                     && Granted(source, Blocks(n) * BLOCK, cacheSize, old(mLastAllocSize)).None?)
      ensures p != 0 ==>
                && p - 1 !in old(live) && live == old(live) + {p - 1}
                && p - 1 in hdr && hdr[p - 1].numBlocks == Blocks(n)
                && n <= PayloadSize(hdr, p - 1) < n + BLOCK
      ensures Kept(old(live), old(hdr), old(mem))
      ensures p != 0 && Fits(old(hdr), old(free), Blocks(n)) ==>
                FirstFit(p - 1, old(hdr), old(free), Blocks(n)) && pools == old(pools) && acquired == old(acquired)
      ensures p != 0 && !Fits(old(hdr), old(free), Blocks(n)) ==>
                var r := Granted(source, Blocks(n) * BLOCK, cacheSize, old(mLastAllocSize)).value;
                p - 1 == r.base && pools == old(pools) + {r} && acquired == old(acquired) + multiset{r}
    {
      SameAsBefore(hdr, mem, Starts(free, live), pools, live);
      if n == 0 {
        return 0;
      }
      SizeOfBlock(Blocks(n), n);
      var found, iter := AllocateBlocks(Blocks(n), source);
      p := if found then iter + 1 else 0;
    }

    /** The rest of allocate: an entry is found and carved up. */
    method AllocateBlocks(needed: nat, source: Source) returns (found: bool, iter: nat)
      requires Valid() && Proper(source, pools) && 2 <= needed
      modifies this
      ensures Valid() && returned == old(returned) && (!found ==> Unchanged())
      ensures found ==> iter !in old(live) && live == old(live) + {iter} && iter in hdr && hdr[iter].numBlocks == needed
      ensures found ==> Kept(old(live), old(hdr), old(mem))
      ensures Fits(old(hdr), old(free), needed) ==>
                found && FirstFit(iter, old(hdr), old(free), needed) && pools == old(pools) && acquired == old(acquired)
      ensures !Fits(old(hdr), old(free), needed) ==>
                var r := Granted(source, needed * BLOCK, cacheSize, old(mLastAllocSize));
                && found == r.Some?
                && (found ==> iter == r.value.base && pools == old(pools) + {r.value}
                              && acquired == old(acquired) + multiset{r.value})
    {
      ghost var hdr0, mem0, free0, live0 := hdr, mem, free, live;
      var prev;
      ghost var left, right;
      found, iter, prev, left, right := FindOrAllocateEntry(needed, source);
      if found {
        if Fits(hdr0, free0, needed) { IsFirstFit(hdr0, left, iter, right, needed); }
        ghost var hdr1, mem1 := hdr, mem;
        Carve(iter, prev, needed, left, right);
        Payload.KeptTwice(hdr0, hdr1, hdr, mem0, mem1, mem, live0);
      }
    }

    /** free without a size; ok is false where the source aborts. */
    method Free(p: nat) returns (ok: bool)
      requires Valid() && (p != 0 ==> p - 1 in live)
      modifies this
      ensures ok && Valid() && live == (if p == 0 then old(live) else old(live) - {p - 1}) && acquired == old(acquired)
      ensures p == 0 ==> Unchanged()
      ensures p != 0 ==> p - 1 in old(hdr) && GaveBack(PoolOf(old(hdr)[p - 1]), old(pools), old(returned))
      ensures Kept(live, old(hdr), old(mem))
    {
      SameAsBefore(hdr, mem, Starts(free, live), pools, live);
      if p == 0 {
        return true;
      }
      var reclaimed := p - 1;
      HeadIsFree(mHead, hdr, free, live, pools);
      if reclaimed == mHead {
        return false;
      }
      FreeImpl(reclaimed);
      ok := true;
    }

    /** free with a size: it aborts exactly if the size does not need the block's number of blocks. */
    method FreeSized(p: nat, n: nat) returns (ok: bool)
      requires Valid() && (p != 0 ==> p - 1 in live)
      modifies this
      ensures ok <==> p == 0 || n == 0 || (p - 1 in old(hdr) && old(hdr)[p - 1].numBlocks == Blocks(n))
      ensures ok && p != 0 && n != 0 ==> p - 1 in old(hdr) && n <= PayloadSize(old(hdr), p - 1) < n + BLOCK
      ensures Valid() && live == (if p == 0 || n == 0 || !ok then old(live) else old(live) - {p - 1})
              && acquired == old(acquired)
      ensures p == 0 || n == 0 || !ok ==> Unchanged()
      ensures p != 0 && n != 0 && ok ==>
                p - 1 in old(hdr) && GaveBack(PoolOf(old(hdr)[p - 1]), old(pools), old(returned))
      ensures Kept(live, old(hdr), old(mem))
    {
      SameAsBefore(hdr, mem, Starts(free, live), pools, live);
      if p == 0 || n == 0 {
        return true;
      }
      var blocksFreed := Blocks(n);
      SizeOfBlock(Blocks(n), n);
      var reclaimed := p - 1;
      HeadIsFree(mHead, hdr, free, live, pools);
      if reclaimed == mHead {
        return false;
      }
      var allocSize := hdr[reclaimed].numBlocks;
      if allocSize != blocksFreed {
        return false;
      }
      FreeImpl(reclaimed);
      ok := true;
    }

    /** Bytes within a live block's payload are written; the others keep theirs. */
    method Fill(q: nat, len: nat, bytes: Bytes)
      requires Valid() && q != 0 && q - 1 in live && q - 1 in hdr && len <= BLOCK * (hdr[q - 1].numBlocks - 1)
      requires forall x: nat :: !(BLOCK * q <= x < BLOCK * q + len) ==> SameByte(mem, bytes, x)
      modifies `mem
      ensures mem == bytes && Valid() && Kept(live - {q - 1}, hdr, old(mem))
    {
      SameAsBefore(hdr, mem, Starts(free, live), pools, live);
      FillKeeps(hdr, Starts(free, live), pools, live - {q - 1}, q - 1, mem, bytes, len);
      mem := bytes;
    }

    /** The end of reallocate: the bytes are copied to the new block, and the old block is freed. */
    method CopyAndFree(p: nat, q: nat, numNewBytes: nat, numPrevBytes: nat) returns (ok: bool)
      requires Valid() && p != 0 && q != 0 && p != q && p - 1 in live && q - 1 in live && q - 1 in hdr
      requires hdr[q - 1].numBlocks == Blocks(numNewBytes)
      modifies this
      ensures ok <==> numPrevBytes == 0 || (p - 1 in old(hdr) && old(hdr)[p - 1].numBlocks == Blocks(numPrevBytes))
      ensures Valid() && live == if numPrevBytes > 0 && ok then old(live) - {p - 1} else old(live)
      ensures Kept(old(live) - {p - 1, q - 1}, old(hdr), old(mem)) && SameExtent(old(hdr), hdr, q - 1)
      ensures Carried(old(mem), p, q, Min(numNewBytes, numPrevBytes))
    {
      var numMaxBytes := Min(numNewBytes, numPrevBytes);
      ghost var hdr0, mem0, live0 := hdr, mem, live;
      forall x: nat | !(BLOCK * q <= x < BLOCK * q + numMaxBytes)
        ensures SameByte(mem, Copied(mem, BLOCK * q, BLOCK * p, numMaxBytes), x)
      {
        CopiedElsewhere(mem, BLOCK * q, BLOCK * p, numMaxBytes, x);
      }
      Fill(q, numMaxBytes, Copied(mem, BLOCK * q, BLOCK * p, numMaxBytes));
      ghost var mem1 := mem;
      ok := FreeSized(p, numPrevBytes);
      assert SameExtent(hdr0, hdr, q - 1) && SamePayload(hdr0, mem1, mem, q - 1);
      forall i: nat | i < numMaxBytes ensures CarriedAt(mem0, mem, p, q, i) {
        CopiedByte(mem0, BLOCK * q, BLOCK * p, numMaxBytes, i);
        assert InPayload(hdr0, q - 1, BLOCK * q + i) && SameByte(mem1, mem, BLOCK * q + i);
      }
      ghost var others := live0 - {p - 1, q - 1};
      KeptFewer(hdr0, hdr0, mem0, mem1, live0 - {q - 1}, others);
      KeptFewer(hdr0, hdr, mem1, mem, live, others);
      Payload.KeptTwice(hdr0, hdr0, hdr, mem0, mem1, mem, others);
    }

    /** What is done with a new block: it takes over the bytes of the previous one, or is cleared. */
    method Replace(p: nat, q: nat, numNewBytes: nat, numPrevBytes: nat, ghost hdr0: Headers, ghost mem0: Bytes,
        ghost live0: set<nat>)
      returns (ok: bool)
      requires Valid() && (p != 0 ==> p - 1 in live0) && q != 0 && q - 1 !in live0 && live == live0 + {q - 1}
      requires q - 1 in hdr && hdr[q - 1].numBlocks == Blocks(numNewBytes) && Kept(live0, hdr0, mem0)
      modifies this
      ensures ok <==> p == 0 || numPrevBytes == 0 || (p - 1 in hdr0 && hdr0[p - 1].numBlocks == Blocks(numPrevBytes))
      ensures Valid() && live == Others(live0, p, numPrevBytes > 0 && ok) + {q - 1}
      ensures q - 1 in hdr && hdr[q - 1].numBlocks == Blocks(numNewBytes)
      ensures if p == 0 then AllZero(q, numNewBytes)
              else p - 1 in hdr0 && Carried(mem0, p, q, Min(Min(numNewBytes, numPrevBytes), PayloadSize(hdr0, p - 1)))
      ensures Kept(Others(live0, p, true), hdr0, mem0)
    {
      ghost var hdr1, mem1, others := hdr, mem, Others(live0, p, true);
      KeptFewer(hdr0, hdr1, mem0, mem1, live0, others);
      assert live - {q - 1} == live0;
      if p != 0 {
        assert SameExtent(hdr0, hdr1, p - 1);
        ok := CopyAndFree(p, q, numNewBytes, numPrevBytes);
        assert live0 + {q - 1} - {p - 1, q - 1} == others;
        Payload.KeptTwice(hdr0, hdr1, hdr, mem0, mem1, mem, others);
        CarriedFrom(hdr0, mem0, mem1, mem, p, q, Min(Min(numNewBytes, numPrevBytes), PayloadSize(hdr0, p - 1)), live0);
      } else {
        ok := true;
        ZeroFill(q, numNewBytes);
        Payload.KeptTwice(hdr0, hdr1, hdr, mem0, mem1, mem, others);
      }
    }

    /**
     reallocate with the previous size.  A wrong size makes it abort after the bytes have been copied;
     a size of 0 leaves the previous block live.
     */
    method ReallocateSized(p: nat, numNewBytes: nat, numPrevBytes: nat, source: Source) returns (q: nat, ok: bool)
      requires Valid() && Proper(source, pools) && (p != 0 ==> p - 1 in live)
      modifies this
      ensures Valid()
      ensures ok <==> (p == 0 || q == 0 || numPrevBytes == 0 ||
                       (p - 1 in old(hdr) && old(hdr)[p - 1].numBlocks == Blocks(numPrevBytes)))
      ensures q == 0 <==> (numNewBytes == 0 || (!Fits(old(hdr), old(free), Blocks(numNewBytes)) &&
                          Granted(source, Blocks(numNewBytes) * BLOCK, cacheSize, old(mLastAllocSize)).None?))
      ensures numNewBytes == 0 ==> live == Others(old(live), p, true)
      ensures numNewBytes > 0 && q == 0 ==> Unchanged()
      ensures q != 0 ==> q - 1 !in old(live) && q - 1 in hdr && hdr[q - 1].numBlocks == Blocks(numNewBytes)
      ensures q != 0 ==> live == Others(old(live), p, numPrevBytes > 0 && ok) + {q - 1}
      ensures q != 0 && p == 0 ==> AllZero(q, numNewBytes)
      ensures q != 0 && p != 0 ==>
                && p - 1 in old(hdr)
                && Carried(old(mem), p, q, Min(Min(numNewBytes, numPrevBytes), PayloadSize(old(hdr), p - 1)))
      ensures Kept(Others(old(live), p, true), old(hdr), old(mem))
    {
      ghost var hdr0, mem0, live0 := hdr, mem, live;
      if numNewBytes == 0 {
        q := 0;
        ok := Free(p);
        KeptFewer(hdr0, hdr, mem0, mem, live, Others(live0, p, true));
        return;
      }
      q := Allocate(numNewBytes, source);
      ok := true;
      if q != 0 {
        ok := Replace(p, q, numNewBytes, numPrevBytes, hdr0, mem0, live0);
      } else {
        KeptFewer(hdr0, hdr, mem0, mem, live0, Others(live0, p, true));
      }
    }

    method ZeroFill(q: nat, len: nat)
      requires Valid() && q != 0 && q - 1 in live && q - 1 in hdr && hdr[q - 1].numBlocks == Blocks(len)
      modifies `mem
      ensures Valid() && Kept(live - {q - 1}, hdr, old(mem)) && AllZero(q, len)
    {
      forall x: nat | !(BLOCK * q <= x < BLOCK * q + len) ensures SameByte(mem, Zeroed(mem, BLOCK * q, len), x) {
        ZeroedBytes(mem, BLOCK * q, len, x);
      }
      forall i: nat | i < len ensures ZeroAt(Zeroed(mem, BLOCK * q, len), q, i) {
        ZeroedBytes(mem, BLOCK * q, len, BLOCK * q + i);
      }
      Fill(q, len, Zeroed(mem, BLOCK * q, len));
    }

    /** reallocate: the previous size is the block's. */
    method Reallocate(p: nat, numNewBytes: nat, source: Source) returns (q: nat, ok: bool)
      requires Valid() && Proper(source, pools) && (p != 0 ==> p - 1 in live)
      modifies this
      ensures ok && Valid()
      ensures numNewBytes == 0 ==> q == 0 && live == Others(old(live), p, true)
      ensures numNewBytes > 0 && q == 0 ==> Unchanged()
      ensures q == 0 <==> (numNewBytes == 0 || (!Fits(old(hdr), old(free), Blocks(numNewBytes)) &&
                          Granted(source, Blocks(numNewBytes) * BLOCK, cacheSize, old(mLastAllocSize)).None?))
      ensures q != 0 ==> q - 1 !in old(live) && q - 1 in hdr && hdr[q - 1].numBlocks == Blocks(numNewBytes)
      ensures q != 0 ==> live == Others(old(live), p, true) + {q - 1}
      ensures q != 0 && p != 0 ==>
                p - 1 in old(hdr) && Carried(old(mem), p, q, Min(numNewBytes, PayloadSize(old(hdr), p - 1)))
      ensures Kept(Others(old(live), p, true), old(hdr), old(mem))
    {
      HeadIsFree(mHead, hdr, free, live, pools);
      q := 0;
      if p == 0 {
        ok := true;
        SameAsBefore(hdr, mem, Starts(free, live), pools, live);
        if numNewBytes > 0 {
          q := Allocate(numNewBytes, source);
        }
        return;
      }
      if p - 1 == mHead {
        ok := false;
        return;
      }
      var numPrevBytes := hdr[p - 1].numBlocks * BLOCK - BLOCK;
      q, ok := ReallocateSized(p, numNewBytes, numPrevBytes, source);
    }

    ghost predicate AllZero(q: nat, len: nat)
      reads this
    {
      forall i: nat :: i < len ==> ZeroAt(mem, q, i)
    }

    /** The first len bytes at p are at q now. */
    ghost predicate Carried(mem0: Bytes, p: nat, q: nat, len: nat)
      reads this
    {
      forall i: nat :: i < len ==> CarriedAt(mem0, mem, p, q, i)
    }

    /** Once every live block has been freed, the list is exactly one whole pool, if any pool is held. */
    lemma AllBlocksFreed()
      requires Valid() && live == {}
      ensures pools == {} <==> free == []
      ensures free != [] ==>
                && free == [mHead] && Whole(hdr, mHead)
                && pools == {PoolOf(hdr[mHead])} && mHead == PoolOf(hdr[mHead]).base
    {
      AllFreed(mHead, hdr, free, pools);
    }
  }

  /** A new pool keeps what is live. */
  lemma PoolAdded(hdr: Headers, mem: Bytes, left: seq<nat>, right: seq<nat>, live: set<nat>, pools: set<Region>,
      p: Region, mem': Bytes)
    requires Laid(hdr, left + right, live, pools) && OneWhole(hdr, left + right) && PoolOk(p) && FarFrom(p, pools)
    requires PlaceOf(left + right, |left|, p.base) && (left != [] ==> left[|left| - 1] in hdr)
    requires mem' == if left == [] then Clobber(mem, p.base) else Clobber(Clobber(mem, p.base), left[|left| - 1])
    ensures var hdr' := WithPool(hdr, left, First(right, 0), p);
            && p !in pools && Laid(hdr', left + [p.base] + right, live, pools + {p})
            && OneWholeBut(hdr', left + [p.base] + right, p.base)
            && LiveKept(hdr, hdr', live) && PayloadsKept(hdr, mem, mem', live)
  {
    var starts, hdr' := Starts(left + right, live), WithPool(hdr, left, First(right, 0), p);
    AddPool(hdr, left, right, live, pools, p);
    NewBase(hdr, starts, pools, p);
    SameAsBefore(hdr, mem, starts, pools, live);
    forall a {:trigger Outside(hdr, a, p.base)} | a in live ensures Outside(hdr, a, p.base) { assert a in starts; }
    WriteKeeps(hdr, mem, mem, live, p.base);
    if left != [] {
      assert left[|left| - 1] in left + right;
      StartsOutside(hdr, starts, pools, live, left[|left| - 1]);
      WriteKeeps(hdr, mem, Clobber(mem, p.base), live, left[|left| - 1]);
    }
  }

  lemma IsFirstFit(hdr: Headers, left: seq<nat>, iter: nat, right: seq<nat>, needed: nat)
    requires iter in hdr && hdr[iter].numBlocks >= needed && !Fits(hdr, left, needed)
    ensures FirstFit(iter, hdr, left + [iter] + right, needed)
  {
    var free := left + [iter] + right;
    assert free[|left|] == iter && free[..|left|] == left;
  }

  lemma NullLast(hdr: Headers, left: seq<nat>, next: nat)
    requires Seg(hdr, left, next)
    ensures left != [] ==> left[|left| - 1] != 0
  {
    if left != [] { assert LinkOk(hdr, left, next, |left| - 1); }
  }

  /** Carving up an entry keeps what is live, and leaves the state consistent with one block more. */
  lemma Carving(hdr: Headers, mem: Bytes, left: seq<nat>, e: nat, right: seq<nat>, live: set<nat>, pools: set<Region>,
      needed: nat)
    requires Laid(hdr, left + [e] + right, live, pools) && OneWholeBut(hdr, left + [e] + right, e)
    requires e in hdr && 0 < needed <= hdr[e].numBlocks && (left != [] ==> left[|left| - 1] in hdr)
    ensures var hdr', free' := Carved(hdr, left, e, needed), Remaining(hdr, left, e, right, needed);
            && e !in live && Laid(hdr', free', live + {e}, pools) && OneWhole(hdr', free') && LiveKept(hdr, hdr', live)
            && First(free', 0) == (if left != [] then left[0]
                                   else if hdr[e].numBlocks > needed then e + needed
                                   else hdr[e].pNext)
    ensures hdr[e].numBlocks > needed ==> e != e + needed && (left != [] ==> left[|left| - 1] != e + needed)
    ensures PayloadsKept(hdr, mem, CarvedBytes(hdr, mem, left, e, needed), live)
  {
    var starts := Starts(left + [e] + right, live);
    Around(hdr, left, e, right);
    if hdr[e].numBlocks > needed {
      CarvePart(hdr, left, e, right, live, pools, needed);
      if left != [] { assert left[|left| - 1] in left + [e] + right; }
    } else {
      CarveAll(hdr, left, e, right, live, pools, needed);
    }
    assert e in left + [e] + right;
    SameAsBefore(hdr, mem, starts, pools, live);
    if hdr[e].numBlocks > needed {
      WithinOutside(hdr, starts, pools, live, e, e + needed);
      WriteKeeps(hdr, mem, mem, live, e + needed);
    }
    var mem1 := if hdr[e].numBlocks > needed then Clobber(mem, e + needed) else mem;
    if left != [] {
      assert left[|left| - 1] in left + [e] + right;
      StartsOutside(hdr, starts, pools, live, left[|left| - 1]);
      WriteKeeps(hdr, mem, mem1, live, left[|left| - 1]);
    }
    var mem2 := if left != [] then Clobber(mem1, left[|left| - 1]) else mem1;
    StartsOutside(hdr, starts, pools, live, e);
    WriteKeeps(hdr, mem, mem2, live, e);
  }

  function CarvedBytes(hdr: Headers, mem: Bytes, left: seq<nat>, e: nat, needed: nat): Bytes
    requires e in hdr
  {
    var mem1 := if hdr[e].numBlocks > needed then Clobber(mem, e + needed) else mem;
    Clobber(if left != [] then Clobber(mem1, left[|left| - 1]) else mem1, e)
  }

  /** The head of the list is not live. */
  lemma HeadIsFree(head: nat, hdr: Headers, free: seq<nat>, live: set<nat>, pools: set<Region>)
    requires Consistent(head, hdr, free, live, pools)
    ensures head !in live && live <= hdr.Keys && 0 !in live
  {
    forall a | a in live ensures a in hdr && 0 < a { Positive(hdr, Starts(free, live), pools, a); }
    if free != [] { assert free[0] in free; }
  }

  lemma KeptFewer(hdr: Headers, hdr': Headers, mem: Bytes, mem': Bytes, live: set<nat>, fewer: set<nat>)
    requires LiveKept(hdr, hdr', live) && PayloadsKept(hdr, mem, mem', live) && fewer <= live
    ensures LiveKept(hdr, hdr', fewer) && PayloadsKept(hdr, mem, mem', fewer)
  {
  }

  /** The bytes of a block that are not its header's. */
  function PayloadSize(hdr: Headers, a: nat): nat
    requires a in hdr
  {
    if hdr[a].numBlocks == 0 then 0 else BLOCK * (hdr[a].numBlocks - 1)
  }

  /** A size needs the blocks that a block has exactly if the block has fewer than BLOCK bytes more than it. */
  lemma SizeOfBlock(b: nat, n: nat)
    ensures b == Blocks(n) <==> b > 0 && n <= BLOCK * (b - 1) < n + BLOCK
  {
    if BLOCK * (Blocks(n) - 1) >= n + BLOCK { assert Holds(Blocks(n) - 1, n); }
  }

  /** What is live but for the block at p, if there is one and it goes. */
  function Others(live: set<nat>, p: nat, goes: bool): set<nat> {
    if p != 0 && goes then live - {p - 1} else live
  }

  predicate ZeroAt(mem: Bytes, q: nat, i: nat) {
    BLOCK * q + i in mem && mem[BLOCK * q + i] == 0
  }

  predicate CarriedAt(mem: Bytes, mem': Bytes, p: nat, q: nat, i: nat) {
    Moved(mem, mem', BLOCK * p + i, BLOCK * q + i)
  }

  /** What was carried from a payload that had been kept was carried from the original. */
  lemma CarriedFrom(hdr: Headers, mem0: Bytes, mem1: Bytes, mem2: Bytes, p: nat, q: nat, len: nat, live: set<nat>)
    requires 0 < p && p - 1 in live && p - 1 in hdr && len <= BLOCK * (hdr[p - 1].numBlocks - 1)
             && PayloadsKept(hdr, mem0, mem1, live)
    requires forall i: nat :: i < len ==> CarriedAt(mem1, mem2, p, q, i)
    ensures forall i: nat :: i < len ==> CarriedAt(mem0, mem2, p, q, i)
  {
    assert SamePayload(hdr, mem0, mem1, p - 1);
    forall i: nat | i < len ensures CarriedAt(mem0, mem2, p, q, i) {
      assert InPayload(hdr, p - 1, BLOCK * p + i) && SameByte(mem0, mem1, BLOCK * p + i);
      assert CarriedAt(mem1, mem2, p, q, i);
    }
  }
}
