/**
 The allocator's whole state, and what the steps of freeing and allocating do to it.
 */
module Heap {
  import opened Tiling
  import opened FreeList

  ghost function Starts(free: seq<nat>, live: set<nat>): set<nat> {
    (set x | x in free) + live
  }

  /** At most one entry of the free list is a whole pool. */
  ghost predicate OneWhole(hdr: Headers, free: seq<nat>) {
    forall a, b {:trigger Whole(hdr, a), Whole(hdr, b)} ::
      a in free && b in free && Whole(hdr, a) && Whole(hdr, b) ==> a == b
  }

  /** Free entries and live blocks tile the pools, and the free entries are linked in order with gaps. */
  ghost predicate Laid(hdr: Headers, free: seq<nat>, live: set<nat>, pools: set<Region>) {
    && Tiled(hdr, Starts(free, live), pools)
    && Seg(hdr, free, 0)
    && forall x {:trigger x in live} :: x in live ==> x !in free
  }

  ghost predicate Consistent(head: nat, hdr: Headers, free: seq<nat>, live: set<nat>, pools: set<Region>) {
    Laid(hdr, free, live, pools) && head == First(free, 0) && OneWhole(hdr, free)
  }

  /** k is the place of r in the order of the free list. */
  predicate PlaceOf(free: seq<nat>, k: nat, r: nat) {
    k <= |free| && (k > 0 ==> free[k - 1] < r) && (k < |free| ==> r < free[k])
  }

  /** At most one entry besides `but` is a whole pool. */
  ghost predicate OneWholeBut(hdr: Headers, free: seq<nat>, but: nat) {
    forall a, b {:trigger Whole(hdr, a), Whole(hdr, b)} ::
      a in free && b in free && a != but && b != but && Whole(hdr, a) && Whole(hdr, b) ==> a == b
  }

  /** The entries but for `but` were free before, and have kept their extents; so have the live blocks. */
  ghost predicate OthersKept(hdr: Headers, hdr': Headers, free: seq<nat>, free': seq<nat>, live': set<nat>, but: nat) {
    && (forall x {:trigger SameExtent(hdr, hdr', x)} ::
          x in free' && x != but ==> x in free && SameExtent(hdr, hdr', x))
    && (forall x {:trigger SameExtent(hdr, hdr', x)} :: x in live' ==> SameExtent(hdr, hdr', x))
  }

  lemma WholesKept(hdr: Headers, hdr': Headers, free: seq<nat>, free': seq<nat>, live': set<nat>, but: nat)
    requires OneWhole(hdr, free) && OthersKept(hdr, hdr', free, free', live', but)
    ensures OneWholeBut(hdr', free', but)
  {
    forall a, b | a in free' && b in free' && a != but && b != but && Whole(hdr', a) && Whole(hdr', b) ensures a == b {
      assert SameExtent(hdr, hdr', a) && SameExtent(hdr, hdr', b);
      assert Whole(hdr, a) && Whole(hdr, b);
    }
  }

  // ----- freeing: the block joins the list -----

  /** Merging changes the extents of the two blocks only if it fuses them, and no others'. */
  lemma MergedKeeps(hdr: Headers, starts: set<nat>, pools: set<Region>, a: nat, b: nat)
    requires Tiled(hdr, starts, pools) && a in starts && a in hdr && (b != 0 ==> b in hdr)
    ensures SameExtents(hdr, Merged(hdr, a, b), starts, if Fuses(hdr, a, b) then {a, b} else {})
  {
    forall x | x in starts ensures x in hdr { assert StartOk(hdr, starts, pools, x); }
  }

  lemma Positive(hdr: Headers, starts: set<nat>, pools: set<Region>, a: nat)
    requires Tiled(hdr, starts, pools) && a in starts
    ensures 0 < a && a in hdr && 0 < hdr[a].numBlocks && End(hdr, a) < LIMIT
  {
    assert StartOk(hdr, starts, pools, a) && PoolOk(PoolOf(hdr[a]));
  }

  /** The list in two parts, of which the first one's last link may be out of date. */
  ghost predicate InTwo(hdr: Headers, left: seq<nat>, next: nat, tail: seq<nat>, live: set<nat>, pools: set<Region>) {
    && Seg(hdr, left, next) && Seg(hdr, tail, 0) && tail != []
    && Tiled(hdr, Starts(left + tail, live), pools)
    && (forall x {:trigger x in live} :: x in live ==> x !in left + tail)
    && (left != [] ==> left[|left| - 1] in hdr && End(hdr, left[|left| - 1]) <= tail[0])
  }

  /** r is merged with what follows it. */
  lemma JoinRight(hdr: Headers, free: seq<nat>, live: set<nat>, pools: set<Region>, k: nat, r: nat)
    requires Laid(hdr, free, live, pools) && r in live && PlaceOf(free, k, r)
    ensures var right := free[k..];
            var tail := [r] + Behind(hdr, r, right);
            && r in hdr && (right != [] ==> right[0] in hdr && End(hdr, r) <= right[0])
            && var hdr' := Merged(hdr, r, First(right, 0));
            && InTwo(hdr', free[..k], First(right, 0), tail, live - {r}, pools)
            && OthersKept(hdr, hdr', free, free[..k] + tail, live - {r}, r)
            && r in hdr' && PoolOf(hdr'[r]) == PoolOf(hdr[r])
  {
    var starts, right := Starts(free, live), free[k..];
    var tail := [r] + Behind(hdr, r, right);
    InSeg(hdr, free, 0);
    Positive(hdr, starts, pools, r);
    if right != [] { assert InOrder(hdr, r, right[0]); }
    if k > 0 { assert InOrder(hdr, free[k - 1], r); }
    Parts(hdr, free, 0, k);
    RightMerged(hdr, r, right);
    var b := First(right, 0);
    var hdr' := Merged(hdr, r, b);
    MergedKeeps(hdr, starts, pools, r, b);
    LowerPart(hdr, free, k, b);
    SegFrame(hdr, hdr', free[..k], b);
    if right != [] && Fuses(hdr, r, b) {
      UpperPart(hdr, free, k);
      Fused(hdr, hdr', starts, pools, r, b);
      assert starts - {b} == Starts(free[..k] + tail, live - {r});
    } else {
      Relinked(hdr, hdr', starts, pools);
      assert starts == Starts(free[..k] + tail, live - {r});
    }
  }

  /** The entries below a place are different from the one there. */
  lemma LowerPart(hdr: Headers, free: seq<nat>, k: nat, b: nat)
    requires Seg(hdr, free, 0) && k <= |free| && b == First(free[k..], 0)
    ensures b !in free[..k]
  {
    InSeg(hdr, free, 0);
    if b in free[..k] {
      var i: nat :| i < k && free[i] == b;
      assert free[i] in free;
      if k < |free| { Ascending(hdr, free, 0, i, k); }
    }
  }

  lemma UpperPart(hdr: Headers, free: seq<nat>, k: nat)
    requires Seg(hdr, free, 0) && k < |free|
    ensures free[k] !in free[k + 1..]
    ensures forall x :: x in free <==> x in free[..k] || x == free[k] || x in free[k + 1..]
  {
    if free[k] in free[k + 1..] {
      var i: nat :| i < |free| - k - 1 && free[k + 1..][i] == free[k];
      Ascending(hdr, free, 0, k, k + 1 + i);
    }
    assert free == free[..k] + [free[k]] + free[k + 1..];
  }

  /** Which entry r has become part of. */
  function Target(hdr: Headers, left: seq<nat>, r: nat): nat {
    if left != [] && Fuses(hdr, left[|left| - 1], r) then left[|left| - 1] else r
  }

  /** The first part is merged with the second. */
  lemma JoinLeft(hdr: Headers, left: seq<nat>, next: nat, tail: seq<nat>, live: set<nat>, pools: set<Region>)
    requires InTwo(hdr, left, next, tail, live, pools) && left != []
    ensures var p, r := left[|left| - 1], tail[0];
            && p in hdr && r in hdr && End(hdr, p) <= r
            && var hdr' := Merged(hdr, p, r);
            && Laid(hdr', Front(hdr, left, tail), live, pools)
            && OthersKept(hdr, hdr', left + tail, Front(hdr, left, tail), live, Target(hdr, left, r))
            && Target(hdr, left, r) in Front(hdr, left, tail)
            && Target(hdr, left, r) in hdr' && PoolOf(hdr'[Target(hdr, left, r)]) == PoolOf(hdr[r])
            && (Target(hdr, left, r) != r ==> r !in Front(hdr, left, tail))
  {
    var p, r, starts := left[|left| - 1], tail[0], Starts(left + tail, live);
    assert p in left && r in tail;
    Positive(hdr, starts, pools, r);
    LeftMerged(hdr, left, next, tail);
    var hdr', free' := Merged(hdr, p, r), Front(hdr, left, tail);
    MergedKeeps(hdr, starts, pools, p, r);
    if Fuses(hdr, p, r) {
      SamePool(hdr, starts, pools, p, r);
      UpperPart(hdr, tail, 0);
      NotBefore(hdr, left, next, r);
      Fused(hdr, hdr', starts, pools, p, r);
      assert starts - {r} == Starts(free', live);
    } else {
      Relinked(hdr, hdr', starts, pools);
      assert starts == Starts(free', live);
    }
  }

  lemma KeptTwice(hdr: Headers, hdr': Headers, hdr'': Headers, free: seq<nat>, free': seq<nat>, free'': seq<nat>,
      live: set<nat>, r: nat, t: nat)
    requires OthersKept(hdr, hdr', free, free', live, r) && OthersKept(hdr', hdr'', free', free'', live, t)
    requires t != r ==> r !in free''
    ensures OthersKept(hdr, hdr'', free, free'', live, t)
  {
    forall x | x in free'' && x != t ensures x in free && SameExtent(hdr, hdr'', x) {
      assert SameExtent(hdr', hdr'', x) && SameExtent(hdr, hdr', x);
    }
    forall x | x in live ensures SameExtent(hdr, hdr'', x) {
      assert SameExtent(hdr', hdr'', x) && SameExtent(hdr, hdr', x);
    }
  }

  lemma NotBefore(hdr: Headers, left: seq<nat>, next: nat, r: nat)
    requires Seg(hdr, left, next) && left != [] && left[|left| - 1] in hdr && left[|left| - 1] < r
    ensures r !in left
  {
    if r in left {
      var i: nat :| i < |left| && left[i] == r;
      if i + 1 < |left| { Ascending(hdr, left, next, i, |left| - 1); }
    }
  }

  /** The list after r has been merged with its neighbours on both sides. */
  lemma JoinBoth(hdr: Headers, free: seq<nat>, live: set<nat>, pools: set<Region>, k: nat, r: nat)
    requires Laid(hdr, free, live, pools) && OneWhole(hdr, free) && r in live && PlaceOf(free, k, r) && k >= 1
    ensures var (p, right) := (free[k - 1], free[k..]);
            && r in hdr && p in hdr && (right != [] ==> right[0] in hdr && End(hdr, r) <= right[0])
            && var hdr1 := Merged(hdr, r, First(right, 0));
            && r in hdr1 && p in hdr1 && End(hdr1, p) <= r
            && Joined(hdr, Merged(hdr1, p, r), free, if Fuses(hdr1, p, r) then free[..k - 1] else free[..k],
                      if Fuses(hdr1, p, r) then p else r, Behind(hdr, r, right), live - {r}, pools)
            && var t := if Fuses(hdr1, p, r) then p else r;
               t in Merged(hdr1, p, r) && PoolOf(Merged(hdr1, p, r)[t]) == PoolOf(hdr[r])
  {
    var p, right := free[k - 1], free[k..];
    var left, rest := free[..k], Behind(hdr, r, right);
    var tail := [r] + rest;
    JoinRight(hdr, free, live, pools, k, r);
    var hdr1 := Merged(hdr, r, First(right, 0));
    JoinLeft(hdr1, left, First(right, 0), tail, live - {r}, pools);
    var hdr2, t, after := Merged(hdr1, p, r), Target(hdr1, left, r), Front(hdr1, left, tail);
    KeptTwice(hdr, hdr1, hdr2, free, left + tail, after, live - {r}, r, t);
    WholesKept(hdr, hdr2, free, after, live - {r}, t);
    assert after == (if Fuses(hdr1, p, r) then free[..k - 1] else left) + [t] + rest;
  }

  /** The list with t in it, which may be a whole pool; what else is in it, and what is live, is as before. */
  ghost predicate Joined(hdr: Headers, hdr': Headers, free: seq<nat>, left: seq<nat>, t: nat, right: seq<nat>,
      live: set<nat>, pools: set<Region>) {
    && Laid(hdr', left + [t] + right, live, pools) && OneWholeBut(hdr', left + [t] + right, t)
    && OthersKept(hdr, hdr', free, left + [t] + right, live, t)
  }

  // ----- freeing: a whole pool goes -----

  /** The link around an entry that is taken out, or replaced by another one. */
  function Bypassed(hdr: Headers, left: seq<nat>, next: nat): Headers
    requires left != [] ==> left[|left| - 1] in hdr
  {
    if left == [] then hdr else hdr[left[|left| - 1] := hdr[left[|left| - 1]].(pNext := next)]
  }

  lemma BypassedSeg(hdr: Headers, left: seq<nat>, stale: nat, right: seq<nat>)
    requires Seg(hdr, left, stale) && Seg(hdr, right, 0)
    requires left != [] ==> left[|left| - 1] in hdr && left[|left| - 1] !in right
    requires left != [] && right != [] ==> End(hdr, left[|left| - 1]) < right[0]
    ensures Seg(Bypassed(hdr, left, First(right, 0)), left + right, 0)
  {
    var hdr' := Bypassed(hdr, left, First(right, 0));
    InSeg(hdr, right, 0);
    InSeg(hdr, left, stale);
    if left == [] {
      assert left + right == right;
    } else {
      assert LinkOk(hdr, left, stale, |left| - 1);
      SegLast(hdr, hdr', left, stale, First(right, 0));
      SegFrame(hdr, hdr', right, 0);
      Join(hdr', left, right, 0);
    }
  }

  lemma Prune(hdr: Headers, left: seq<nat>, t: nat, right: seq<nat>, live: set<nat>, pools: set<Region>)
    requires Laid(hdr, left + [t] + right, live, pools) && Whole(hdr, t) && OneWholeBut(hdr, left + [t] + right, t)
    ensures left != [] ==> left[|left| - 1] in hdr
    ensures hdr[t].pNext == First(right, 0) && t == hdr[t].pSrcPool && PoolOf(hdr[t]) in pools
    ensures var hdr' := Bypassed(hdr, left, First(right, 0));
            && Laid(hdr', left + right, live, pools - {PoolOf(hdr[t])})
            && OneWhole(hdr', left + right)
  {
    var free, k := left + [t] + right, |left|;
    var starts := Starts(free, live);
    var pools' := pools - {PoolOf(hdr[t])};
    assert free[k] == t && free[..k] == left && free[k + 1..] == right;
    assert LinkOk(hdr, free, 0, k);
    WholeAtBase(hdr, starts, pools, t);
    Dropped(hdr, starts, pools, t);
    Parts(hdr, free, 0, k);
    Parts(hdr, free, 0, k + 1);
    InSeg(hdr, free, 0);
    LowerPart(hdr, free, k, t);
    UpperPart(hdr, free, k);
    if left != [] {
      assert free[k - 1] == left[k - 1] && left[k - 1] in free;
      if right != [] { Ascending(hdr, free, 0, k - 1, k + 1); }
      Apart2(hdr, free, k);
    }
    BypassedSeg(hdr, left, t, right);
    var hdr' := Bypassed(hdr, left, First(right, 0));
    assert starts - {t} == Starts(left + right, live);
    Relinked(hdr, hdr', starts - {t}, pools') by {
      forall x {:trigger SameExtent(hdr, hdr', x)} | x in starts - {t}
        ensures SameExtent(hdr, hdr', x)
      {
        assert StartOk(hdr, starts - {t}, pools', x);
      }
    }
    forall a, b | a in left + right && b in left + right && Whole(hdr', a) && Whole(hdr', b) ensures a == b {
      assert Whole(hdr, a) && Whole(hdr, b);
    }
  }

  /** The entry before a place is not behind it. */
  lemma Apart2(hdr: Headers, free: seq<nat>, k: nat)
    requires Seg(hdr, free, 0) && 0 < k < |free|
    ensures free[k - 1] !in free[k + 1..]
  {
    if free[k - 1] in free[k + 1..] {
      var i: nat :| i < |free| - k - 1 && free[k + 1..][i] == free[k - 1];
      Ascending(hdr, free, 0, k - 1, k + 1 + i);
    }
  }

  // ----- allocating: an entry is carved up -----

  /** The headers after `needed` blocks have been taken from the beginning of entry e. */
  function Carved(hdr: Headers, left: seq<nat>, e: nat, needed: nat): Headers
    requires e in hdr && (left != [] ==> left[|left| - 1] in hdr)
  {
    var h, size := hdr[e], hdr[e].numBlocks;
    if size > needed then
      var rest := hdr[e + needed := h.(numBlocks := size - needed)];
      Bypassed(rest, left, e + needed)[e := h.(numBlocks := needed, pNext := 0)]
    else
      Bypassed(hdr, left, h.pNext)[e := h.(numBlocks := needed, pNext := 0)]
  }

  /** The free list afterwards. */
  function Remaining(hdr: Headers, left: seq<nat>, e: nat, right: seq<nat>, needed: nat): seq<nat>
    requires e in hdr
  {
    if hdr[e].numBlocks > needed then left + [e + needed] + right else left + right
  }

  /** What the neighbours of an entry in the list are like. */
  lemma Around(hdr: Headers, left: seq<nat>, e: nat, right: seq<nat>)
    requires Seg(hdr, left + [e] + right, 0)
    ensures Seg(hdr, left, e) && Seg(hdr, right, 0) && e in hdr && 0 < e && 0 < hdr[e].numBlocks
            && hdr[e].pNext == First(right, 0)
    ensures e !in left && e !in right
    ensures left != [] ==> left[|left| - 1] in hdr && End(hdr, left[|left| - 1]) < e && left[|left| - 1] !in right
    ensures right != [] ==> End(hdr, e) < right[0]
  {
    var free, k := left + [e] + right, |left|;
    assert free[k] == e && free[..k] == left && free[k + 1..] == right && free[k..] == [e] + right;
    assert LinkOk(hdr, free, 0, k);
    Parts(hdr, free, 0, k);
    Parts(hdr, free, 0, k + 1);
    LowerPart(hdr, free, k, e);
    UpperPart(hdr, free, k);
    if left != [] {
      assert free[k - 1] == left[k - 1];
      Ascending(hdr, free, 0, k - 1, k);
      Apart2(hdr, free, k);
    }
    if right != [] { Ascending(hdr, free, 0, k, k + 1); }
  }

  lemma CarveAll(hdr: Headers, left: seq<nat>, e: nat, right: seq<nat>, live: set<nat>, pools: set<Region>, needed: nat)
    requires Laid(hdr, left + [e] + right, live, pools) && OneWholeBut(hdr, left + [e] + right, e)
    requires e in hdr && hdr[e].numBlocks == needed && (left != [] ==> left[|left| - 1] in hdr)
    ensures e !in live && Laid(Carved(hdr, left, e, needed), left + right, live + {e}, pools)
    ensures OneWhole(Carved(hdr, left, e, needed), left + right)
    ensures SameExtents(hdr, Carved(hdr, left, e, needed), Starts(left + right, live + {e}), {})
  {
    var free := left + [e] + right;
    var starts, hdr' := Starts(free, live), Carved(hdr, left, e, needed);
    Around(hdr, left, e, right);
    assert e in free;
    BypassedSeg(hdr, left, e, right) by {
      if left != [] && right != [] { assert End(hdr, e) < right[0]; }
    }
    SegFrame(Bypassed(hdr, left, First(right, 0)), hdr', left + right, 0) by {
      InSeg(Bypassed(hdr, left, First(right, 0)), left + right, 0);
    }
    assert starts == Starts(left + right, live + {e});
    forall x {:trigger SameExtent(hdr, hdr', x)} | x in starts
      ensures SameExtent(hdr, hdr', x)
    {
      assert StartOk(hdr, starts, pools, x);
    }
    Relinked(hdr, hdr', starts, pools);
    forall a, b | a in left + right && b in left + right && Whole(hdr', a) && Whole(hdr', b) ensures a == b {
      assert SameExtent(hdr, hdr', a) && SameExtent(hdr, hdr', b);
      assert Whole(hdr, a) && Whole(hdr, b);
    }
  }

  /** An entry n comes between two parts of a list. */
  lemma Insert(hdr: Headers, hdr': Headers, left: seq<nat>, stale: nat, n: nat, right: seq<nat>)
    requires Seg(hdr, left, stale) && Seg(hdr, right, 0)
    requires forall x :: x in right ==> x in hdr && x in hdr' && hdr'[x] == hdr[x]
    requires left != [] ==> var last := left[|left| - 1];
               && (forall x :: x in left && x != last ==> x in hdr && x in hdr' && hdr'[x] == hdr[x])
               && last in hdr' && 0 < hdr'[last].numBlocks && hdr'[last].pNext == n && End(hdr', last) < n
    requires 0 < n && n in hdr' && 0 < hdr'[n].numBlocks && hdr'[n].pNext == First(right, 0)
    requires right != [] ==> End(hdr', n) < right[0]
    ensures Seg(hdr', left + [n] + right, 0)
  {
    SegFrame(hdr, hdr', right, 0);
    assert LinkOk(hdr', [n], First(right, 0), 0);
    Join(hdr', [n], right, 0);
    if left == [] {
      assert left + [n] + right == [n] + right;
    } else {
      SegLast(hdr, hdr', left, stale, n);
      Join(hdr', left, [n] + right, 0);
      assert left + [n] + right == left + ([n] + right);
    }
  }

  /** The part of e that remains is tiled in. */
  lemma CarveTiled(hdr: Headers, left: seq<nat>, e: nat, right: seq<nat>, live: set<nat>, pools: set<Region>,
      needed: nat)
    requires Laid(hdr, left + [e] + right, live, pools) && e in hdr && 0 < needed < hdr[e].numBlocks
    requires left != [] ==> left[|left| - 1] in hdr
    ensures e !in live && e + needed !in Starts(left + [e] + right, live)
    ensures Tiled(Carved(hdr, left, e, needed), Starts(left + [e + needed] + right, live + {e}), pools)
    ensures SameExtents(hdr, Carved(hdr, left, e, needed), Starts(left + right, live), {})
  {
    var free, n := left + [e] + right, e + needed;
    var starts, hdr' := Starts(free, live), Carved(hdr, left, e, needed);
    Around(hdr, left, e, right);
    assert e in free && StartOk(hdr, starts, pools, e);
    assert n in starts ==> InOrder(hdr, e, n);
    forall x {:trigger SameExtent(hdr, hdr', x)} | x in starts && x != e
      ensures SameExtent(hdr, hdr', x)
    {
      assert StartOk(hdr, starts, pools, x);
    }
    Cut(hdr, hdr', starts, pools, e, needed);
    assert starts + {n} == Starts(left + [n] + right, live + {e});
  }

  lemma CarvePart(hdr: Headers, left: seq<nat>, e: nat, right: seq<nat>, live: set<nat>, pools: set<Region>,
      needed: nat)
    requires Laid(hdr, left + [e] + right, live, pools) && OneWholeBut(hdr, left + [e] + right, e)
    requires e in hdr && 0 < needed < hdr[e].numBlocks && (left != [] ==> left[|left| - 1] in hdr)
    ensures e !in live && Laid(Carved(hdr, left, e, needed), left + [e + needed] + right, live + {e}, pools)
    ensures OneWhole(Carved(hdr, left, e, needed), left + [e + needed] + right)
    ensures SameExtents(hdr, Carved(hdr, left, e, needed), Starts(left + right, live), {})
    ensures e + needed !in Starts(left + [e] + right, live)
  {
    var n, hdr' := e + needed, Carved(hdr, left, e, needed);
    CarveTiled(hdr, left, e, right, live, pools, needed);
    Around(hdr, left, e, right);
    CarveSeg(hdr, left, e, right, needed) by {
      assert forall x :: x in left || x in right ==> x in Starts(left + [e] + right, live);
    }
    assert e in left + [e] + right && StartOk(hdr, Starts(left + [e] + right, live), pools, e);
    forall a, b | a in left + [n] + right && b in left + [n] + right && Whole(hdr', a) && Whole(hdr', b)
      ensures a == b
    {
      assert !Whole(hdr', n);
      assert SameExtent(hdr, hdr', a) && SameExtent(hdr, hdr', b);
      assert Whole(hdr, a) && Whole(hdr, b);
    }
  }

  lemma CarveSeg(hdr: Headers, left: seq<nat>, e: nat, right: seq<nat>, needed: nat)
    requires Seg(hdr, left + [e] + right, 0) && e in hdr && 0 < needed < hdr[e].numBlocks
    requires e + needed !in left && e + needed !in right && (left != [] ==> left[|left| - 1] in hdr)
    ensures Seg(Carved(hdr, left, e, needed), left + [e + needed] + right, 0)
  {
    Around(hdr, left, e, right);
    InSeg(hdr, left, e);
    InSeg(hdr, right, 0);
    if left != [] {
      assert LinkOk(hdr, left, e, |left| - 1);
      LastIsLast(hdr, left, e);
    }
    forall x | x in right ensures left != [] ==> x != left[|left| - 1] {}
    Insert(hdr, Carved(hdr, left, e, needed), left, e, e + needed, right);
  }

  lemma LastIsLast(hdr: Headers, left: seq<nat>, next: nat)
    requires Seg(hdr, left, next) && left != []
    ensures left[|left| - 1] in left && left[|left| - 1] in hdr && 0 < hdr[left[|left| - 1]].numBlocks
  {
    assert LinkOk(hdr, left, next, |left| - 1);
  }

  // ----- allocating: a new pool -----

  /** The headers after a new pool has been put between `left` and what begins at `next`. */
  function WithPool(hdr: Headers, left: seq<nat>, next: nat, p: Region): Headers
    requires left != [] ==> left[|left| - 1] in hdr
  {
    Bypassed(hdr[p.base := Header(p.blocks, next, p.base, p.blocks)], left, p.base)
  }

  lemma AddPool(hdr: Headers, left: seq<nat>, right: seq<nat>, live: set<nat>, pools: set<Region>, p: Region)
    requires Laid(hdr, left + right, live, pools) && OneWhole(hdr, left + right)
    requires PoolOk(p) && forall q {:trigger Apart(p, q)} :: q in pools ==> Apart(p, q)
    requires PlaceOf(left + right, |left|, p.base) && (left != [] ==> left[|left| - 1] in hdr)
    ensures p !in pools && Laid(WithPool(hdr, left, First(right, 0), p), left + [p.base] + right, live, pools + {p})
    ensures OneWholeBut(WithPool(hdr, left, First(right, 0), p), left + [p.base] + right, p.base)
    ensures SameExtents(hdr, WithPool(hdr, left, First(right, 0), p), Starts(left + right, live), {})
    ensures p.base !in Starts(left + right, live)
  {
    var free, starts := left + right, Starts(left + right, live);
    var hdr', free' := WithPool(hdr, left, First(right, 0), p), left + [p.base] + right;
    assert free[..|left|] == left && free[|left|..] == right;
    NewBase(hdr, starts, pools, p);
    forall x {:trigger SameExtent(hdr, hdr', x)} | x in starts
      ensures SameExtent(hdr, hdr', x)
    {
      assert StartOk(hdr, starts, pools, x);
    }
    assert !(p in pools) by { assert p in pools ==> Apart(p, p); }
    Grown(hdr, hdr', starts, pools, p);
    assert starts + {p.base} == Starts(free', live);
    Parts(hdr, free, 0, |left|);
    InSeg(hdr, left, First(right, 0));
    InSeg(hdr, right, 0);
    assert forall x :: x in left || x in right ==> x in starts && x != p.base;
    if left != [] {
      LastIsLast(hdr, left, First(right, 0));
      Apart3(hdr, left, right);
    }
    if right != [] { assert right[0] in starts; }
    Insert(hdr, hdr', left, First(right, 0), p.base, right);
    forall a, b | a in free' && b in free' && a != p.base && b != p.base && Whole(hdr', a) && Whole(hdr', b)
      ensures a == b
    {
      assert SameExtent(hdr, hdr', a) && SameExtent(hdr, hdr', b);
      assert Whole(hdr, a) && Whole(hdr, b);
    }
  }

  lemma Apart3(hdr: Headers, left: seq<nat>, right: seq<nat>)
    requires Seg(hdr, left + right, 0) && left != []
    ensures left[|left| - 1] !in right
  {
    var free := left + right;
    if left[|left| - 1] in right {
      var i: nat :| i < |right| && right[i] == left[|left| - 1];
      Ascending(hdr, free, 0, |left| - 1, |left| + i);
    }
  }

  /** Nothing reaches into a new pool, or to its base. */
  lemma NewBase(hdr: Headers, starts: set<nat>, pools: set<Region>, p: Region)
    requires Tiled(hdr, starts, pools) && PoolOk(p) && forall q {:trigger Apart(p, q)} :: q in pools ==> Apart(p, q)
    ensures forall x {:trigger x in starts} :: x in starts ==>
              x in hdr && x != p.base && (x < p.base ==> End(hdr, x) < p.base) && (x > p.base ==> p.base + p.blocks < x)
  {
    forall x | x in starts
      ensures x in hdr && x != p.base && (x < p.base ==> End(hdr, x) < p.base) && (x > p.base ==> p.base + p.blocks < x)
    {
      assert StartOk(hdr, starts, pools, x) && Apart(p, PoolOf(hdr[x]));
    }
  }

  // ----- pools in which nothing is live -----

  ghost predicate NoneLiveIn(hdr: Headers, live: set<nat>, p: Region) {
    forall a {:trigger a in live} :: a in live ==> a in hdr && PoolOf(hdr[a]) != p
  }

  /** A free entry in a pool without live blocks reaches to the end of the pool, for free entries do not touch. */
  lemma ReachesEnd(hdr: Headers, free: seq<nat>, live: set<nat>, pools: set<Region>, i: nat)
    requires Laid(hdr, free, live, pools) && i < |free| && free[i] in hdr && NoneLiveIn(hdr, live, PoolOf(hdr[free[i]]))
    ensures PoolOf(hdr[free[i]]) in pools
    ensures End(hdr, free[i]) == PoolOf(hdr[free[i]]).base + PoolOf(hdr[free[i]]).blocks
  {
    var a, starts := free[i], Starts(free, live);
    assert StartOk(hdr, starts, pools, a);
    assert LinkOk(hdr, free, 0, i);
    if End(hdr, a) in starts {
      SamePool(hdr, starts, pools, a, End(hdr, a));
      var j: nat :| j < |free| && free[j] == End(hdr, a);
      if j < i { Ascending(hdr, free, 0, j, i); } else if i < j { Ascending(hdr, free, 0, i, j); }
      assert false;
    }
  }

  /** Such a pool is one free entry. */
  lemma BaseIsWhole(hdr: Headers, free: seq<nat>, live: set<nat>, pools: set<Region>, p: Region)
    requires Laid(hdr, free, live, pools) && p in pools && NoneLiveIn(hdr, live, p)
    ensures p.base in free && Whole(hdr, p.base) && PoolOf(hdr[p.base]) == p
  {
    var starts := Starts(free, live);
    assert BaseIn(p, starts);
    assert StartOk(hdr, starts, pools, p.base);
    var q := PoolOf(hdr[p.base]);
    assert PoolOk(p) && (p != q ==> Apart(p, q));
    var i: nat :| i < |free| && free[i] == p.base;
    ReachesEnd(hdr, free, live, pools, i);
  }

  /** Once nothing is live, the list is at most one entry, which is all of the only pool. */
  lemma AllFreed(head: nat, hdr: Headers, free: seq<nat>, pools: set<Region>)
    requires Consistent(head, hdr, free, {}, pools)
    ensures pools == {} <==> free == []
    ensures free != [] ==>
              && free == [head] && Whole(hdr, head)
              && pools == {PoolOf(hdr[head])} && head == PoolOf(hdr[head]).base
  {
    InSeg(hdr, free, 0);
    if p :| p in pools {
      BaseIsWhole(hdr, free, {}, pools, p);
      forall q | q in pools ensures q == p { BaseIsWhole(hdr, free, {}, pools, q); }
      forall i: nat | i < |free| ensures free[i] == p.base {
        assert free[i] in free;
        ReachesEnd(hdr, free, {}, pools, i);
        WholeIsAlone(hdr, Starts(free, {}), pools, p.base, free[i]);
      }
      if |free| > 1 { Ascending(hdr, free, 0, 0, 1); }
      assert pools == {p};
    } else if free != [] {
      assert free[0] in free;
      ReachesEnd(hdr, free, {}, pools, 0);
    }
  }
}
