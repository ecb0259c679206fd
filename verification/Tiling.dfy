/**
 The memory that the allocator holds: pools, cut into free entries and live blocks.  Addresses and
 sizes are counted in blocks of 32 bytes, and every entry and block begins with a header.
 */
module Tiling {

  /** One more than the largest number of blocks a 64-bit address can name. */
  const LIMIT: nat := 0x800_0000_0000_0000

  /** AllocationEntry; pNext and pSrcPool are addresses, and 0 is the null pointer. */
  datatype Header = Header(numBlocks: nat, pNext: nat, pSrcPool: nat, allocatedBlocks: nat)

  type Headers = map<nat, Header>

  /** A pool as the memory source knows it. */
  datatype Region = Region(base: nat, blocks: nat)

  function End(hdr: Headers, a: nat): nat
    requires a in hdr
  {
    a + hdr[a].numBlocks
  }

  /** The pool that a header names. */
  function PoolOf(h: Header): Region {
    Region(h.pSrcPool, h.allocatedBlocks)
  }

  /** The entry is all of its pool. */
  predicate Whole(hdr: Headers, a: nat) {
    a in hdr && hdr[a].numBlocks == hdr[a].allocatedBlocks
  }

  predicate Apart(p: Region, q: Region) {
    p.base + p.blocks < q.base || q.base + q.blocks < p.base
  }

  predicate PoolOk(p: Region) {
    0 < p.base && 0 < p.blocks && p.base + p.blocks < LIMIT
  }

  /** Pools do not overlap, and do not even touch. */
  ghost predicate PoolsOk(pools: set<Region>) {
    && (forall p {:trigger PoolOk(p)} :: p in pools ==> PoolOk(p))
    && (forall p, q {:trigger Apart(p, q)} :: p in pools && q in pools && p != q ==> Apart(p, q))
  }

  /** What begins at a lies in the pool its header names, and ends where something else begins or the pool ends. */
  ghost predicate StartOk(hdr: Headers, starts: set<nat>, pools: set<Region>, a: nat) {
    && a in hdr
    && var p := PoolOf(hdr[a]);
    && 0 < hdr[a].numBlocks && p in pools && p.base <= a && End(hdr, a) <= p.base + p.blocks
    && (End(hdr, a) in starts || End(hdr, a) == p.base + p.blocks)
  }

  predicate InOrder(hdr: Headers, a: nat, b: nat) {
    a in hdr && (a < b ==> End(hdr, a) <= b)
  }

  predicate BaseIn(p: Region, starts: set<nat>) {
    p.base in starts
  }

  /** What begins at `starts` fills the pools exactly, with no overlap. */
  ghost predicate Tiled(hdr: Headers, starts: set<nat>, pools: set<Region>) {
    && PoolsOk(pools)
    && (forall a {:trigger StartOk(hdr, starts, pools, a)} :: a in starts ==> StartOk(hdr, starts, pools, a))
    && (forall p {:trigger BaseIn(p, starts)} :: p in pools ==> BaseIn(p, starts))
    && (forall a, b {:trigger InOrder(hdr, a, b)} :: a in starts && b in starts && a != b ==> InOrder(hdr, a, b))
  }

  /** Two starts next to each other are in the same pool, because pools do not touch. */
  lemma SamePool(hdr: Headers, starts: set<nat>, pools: set<Region>, a: nat, b: nat)
    requires Tiled(hdr, starts, pools) && a in starts && b in starts && a in hdr && End(hdr, a) == b
    ensures b in hdr && PoolOf(hdr[a]) == PoolOf(hdr[b])
  {
    assert StartOk(hdr, starts, pools, a) && StartOk(hdr, starts, pools, b);
    var p, q := PoolOf(hdr[a]), PoolOf(hdr[b]);
    assert p != q ==> Apart(p, q);
  }

  /** A whole entry begins at its pool's base. */
  lemma WholeAtBase(hdr: Headers, starts: set<nat>, pools: set<Region>, a: nat)
    requires Tiled(hdr, starts, pools) && a in starts && Whole(hdr, a)
    ensures a == hdr[a].pSrcPool && PoolOf(hdr[a]) in pools
  {
    assert StartOk(hdr, starts, pools, a);
  }

  /** The pool of a whole entry has no other starts. */
  lemma WholeIsAlone(hdr: Headers, starts: set<nat>, pools: set<Region>, a: nat, b: nat)
    requires Tiled(hdr, starts, pools) && a in starts && b in starts && Whole(hdr, a)
    requires b in hdr && PoolOf(hdr[b]) == PoolOf(hdr[a])
    ensures a == b
  {
    assert StartOk(hdr, starts, pools, a) && StartOk(hdr, starts, pools, b);
    assert a != b ==> InOrder(hdr, a, b) && InOrder(hdr, b, a);
  }

  /** hdr' has the same header at x, but for the link. */
  predicate SameExtent(hdr: Headers, hdr': Headers, x: nat) {
    x in hdr && x in hdr' && hdr'[x].numBlocks == hdr[x].numBlocks && PoolOf(hdr'[x]) == PoolOf(hdr[x])
  }

  /** The headers at `starts`, but for those at `other`, are the same but for the links. */
  ghost predicate SameExtents(hdr: Headers, hdr': Headers, starts: set<nat>, other: set<nat>) {
    forall x {:trigger SameExtent(hdr, hdr', x)} :: x in starts && x !in other ==> SameExtent(hdr, hdr', x)
  }

  /** Links do not matter. */
  lemma Relinked(hdr: Headers, hdr': Headers, starts: set<nat>, pools: set<Region>)
    requires Tiled(hdr, starts, pools) && SameExtents(hdr, hdr', starts, {})
    ensures Tiled(hdr', starts, pools)
  {
    forall a {:trigger StartOk(hdr', starts, pools, a)} | a in starts ensures StartOk(hdr', starts, pools, a) {
      assert SameExtent(hdr, hdr', a) && StartOk(hdr, starts, pools, a);
    }
    forall a, b {:trigger InOrder(hdr', a, b)} | a in starts && b in starts && a != b ensures InOrder(hdr', a, b) {
      assert SameExtent(hdr, hdr', a) && InOrder(hdr, a, b);
    }
  }

  /** Two neighbours become one. */
  lemma Fused(hdr: Headers, hdr': Headers, starts: set<nat>, pools: set<Region>, a: nat, b: nat)
    requires Tiled(hdr, starts, pools) && a in starts && b in starts && a in hdr && b in hdr && End(hdr, a) == b
    requires a in hdr' && hdr'[a].numBlocks == hdr[a].numBlocks + hdr[b].numBlocks && PoolOf(hdr'[a]) == PoolOf(hdr[a])
    requires SameExtents(hdr, hdr', starts, {a, b})
    ensures a < b && Tiled(hdr', starts - {b}, pools)
  {
    SamePool(hdr, starts, pools, a, b);
    assert StartOk(hdr, starts, pools, a) && StartOk(hdr, starts, pools, b);
    var starts' := starts - {b};
    forall x {:trigger StartOk(hdr', starts', pools, x)} | x in starts' ensures StartOk(hdr', starts', pools, x) {
      assert StartOk(hdr, starts, pools, x);
      if x != a {
        assert SameExtent(hdr, hdr', x);
        assert InOrder(hdr, x, a) && InOrder(hdr, a, x);
      }
    }
    forall x, y {:trigger InOrder(hdr', x, y)} | x in starts' && y in starts' && x != y ensures InOrder(hdr', x, y) {
      assert InOrder(hdr, x, y);
      if x == a { assert InOrder(hdr, b, y); } else { assert SameExtent(hdr, hdr', x); }
    }
    forall p {:trigger BaseIn(p, starts')} | p in pools ensures BaseIn(p, starts') {
      assert BaseIn(p, starts);
      assert p == PoolOf(hdr[a]) || Apart(p, PoolOf(hdr[a]));
    }
  }

  /** An entry is cut in two. */
  lemma Cut(hdr: Headers, hdr': Headers, starts: set<nat>, pools: set<Region>, a: nat, k: nat)
    requires Tiled(hdr, starts, pools) && a in starts && a in hdr && 0 < k < hdr[a].numBlocks
    requires a in hdr' && hdr'[a].numBlocks == k && PoolOf(hdr'[a]) == PoolOf(hdr[a])
    requires a + k in hdr' && hdr'[a + k].numBlocks == hdr[a].numBlocks - k && PoolOf(hdr'[a + k]) == PoolOf(hdr[a])
    requires SameExtents(hdr, hdr', starts, {a})
    ensures a + k !in starts && Tiled(hdr', starts + {a + k}, pools)
  {
    assert StartOk(hdr, starts, pools, a);
    assert a + k in starts ==> InOrder(hdr, a, a + k);
    var starts' := starts + {a + k};
    forall x {:trigger StartOk(hdr', starts', pools, x)} | x in starts' ensures StartOk(hdr', starts', pools, x) {
      if x != a && x != a + k { assert SameExtent(hdr, hdr', x) && StartOk(hdr, starts, pools, x); }
    }
    forall x, y {:trigger InOrder(hdr', x, y)} | x in starts' && y in starts' && x != y ensures InOrder(hdr', x, y) {
      assert x in starts && x != a ==> SameExtent(hdr, hdr', x) && InOrder(hdr, x, a) && InOrder(hdr, a, x);
      assert y in starts && y != a ==> InOrder(hdr, a, y);
      assert x in starts && y in starts ==> InOrder(hdr, x, y);
    }
    forall p {:trigger BaseIn(p, starts')} | p in pools ensures BaseIn(p, starts') { assert BaseIn(p, starts); }
  }

  /** A pool that is one entry goes. */
  lemma Dropped(hdr: Headers, starts: set<nat>, pools: set<Region>, a: nat)
    requires Tiled(hdr, starts, pools) && a in starts && Whole(hdr, a)
    ensures Tiled(hdr, starts - {a}, pools - {PoolOf(hdr[a])})
  {
    WholeAtBase(hdr, starts, pools, a);
    assert StartOk(hdr, starts, pools, a);
    var starts', pools' := starts - {a}, pools - {PoolOf(hdr[a])};
    forall x {:trigger StartOk(hdr, starts', pools', x)} | x in starts' ensures StartOk(hdr, starts', pools', x) {
      assert StartOk(hdr, starts, pools, x);
      if PoolOf(hdr[x]) == PoolOf(hdr[a]) { WholeIsAlone(hdr, starts, pools, a, x); }
      if End(hdr, x) == a { SamePool(hdr, starts, pools, x, a); }
    }
    forall p {:trigger BaseIn(p, starts')} | p in pools' ensures BaseIn(p, starts') {
      assert BaseIn(p, starts);
      assert Apart(p, PoolOf(hdr[a]));
    }
  }

  /** A new pool comes, as one entry. */
  lemma Grown(hdr: Headers, hdr': Headers, starts: set<nat>, pools: set<Region>, p: Region)
    requires Tiled(hdr, starts, pools) && PoolOk(p)
    requires forall q {:trigger Apart(p, q)} :: q in pools ==> Apart(p, q)
    requires p.base in hdr' && hdr'[p.base].numBlocks == p.blocks && PoolOf(hdr'[p.base]) == p
    requires SameExtents(hdr, hdr', starts, {p.base})
    ensures p.base !in starts && Tiled(hdr', starts + {p.base}, pools + {p})
  {
    var starts', pools' := starts + {p.base}, pools + {p};
    forall x {:trigger StartOk(hdr, starts, pools, x)} | x in starts
      ensures x != p.base && x in hdr && (x < p.base ==> End(hdr, x) <= p.base)
              && (x > p.base ==> p.base + p.blocks <= x)
    {
      assert StartOk(hdr, starts, pools, x) && Apart(p, PoolOf(hdr[x]));
    }
    assert p.base in starts ==> StartOk(hdr, starts, pools, p.base);
    forall x {:trigger StartOk(hdr', starts', pools', x)} | x in starts' ensures StartOk(hdr', starts', pools', x) {
      if x != p.base { assert SameExtent(hdr, hdr', x) && StartOk(hdr, starts, pools, x); }
    }
    forall x, y {:trigger InOrder(hdr', x, y)} | x in starts' && y in starts' && x != y ensures InOrder(hdr', x, y) {
      assert x != p.base ==> SameExtent(hdr, hdr', x) && StartOk(hdr, starts, pools, x);
      assert y != p.base ==> StartOk(hdr, starts, pools, y);
      assert x != p.base && y != p.base ==> InOrder(hdr, x, y);
    }
    forall q {:trigger BaseIn(q, starts')} | q in pools'
      ensures BaseIn(q, starts')
    {
      assert q != p ==> BaseIn(q, starts);
    }
    forall q, r {:trigger Apart(q, r)} | q in pools' && r in pools' && q != r ensures Apart(q, r) {
      assert Apart(p, q) || q == p;
      assert Apart(p, r) || r == p;
    }
  }
}
