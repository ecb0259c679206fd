/**
 The free list: entries linked by their headers, in the order of their addresses, no two of them
 adjacent.
 */
module FreeList {
  import opened Tiling

  function First(list: seq<nat>, next: nat): nat {
    if list == [] then next else list[0]
  }

  /** Entry i of a list links to the one behind it, which begins after a gap; the last one links to `next`. */
  predicate LinkOk(hdr: Headers, list: seq<nat>, next: nat, i: nat)
    requires i < |list|
  {
    && 0 < list[i] && list[i] in hdr && 0 < hdr[list[i]].numBlocks
    && hdr[list[i]].pNext == (if i + 1 < |list| then list[i + 1] else next)
    && (i + 1 < |list| ==> End(hdr, list[i]) < list[i + 1])
  }

  ghost predicate Seg(hdr: Headers, list: seq<nat>, next: nat) {
    forall i: nat {:trigger LinkOk(hdr, list, next, i)} :: i < |list| ==> LinkOk(hdr, list, next, i)
  }

  lemma {:induction false} Ascending(hdr: Headers, list: seq<nat>, next: nat, i: nat, j: nat)
    requires Seg(hdr, list, next) && i < j < |list|
    ensures list[i] in hdr && End(hdr, list[i]) < list[j] && list[i] < list[j]
    decreases j - i
  {
    assert LinkOk(hdr, list, next, i);
    if i + 1 < j {
      Ascending(hdr, list, next, i + 1, j);
      assert LinkOk(hdr, list, next, i + 1);
    }
  }

  lemma Parts(hdr: Headers, list: seq<nat>, next: nat, k: nat)
    requires Seg(hdr, list, next) && k <= |list|
    ensures Seg(hdr, list[..k], First(list[k..], next)) && Seg(hdr, list[k..], next)
  {
    forall i: nat {:trigger LinkOk(hdr, list[..k], First(list[k..], next), i)} | i < k
      ensures LinkOk(hdr, list[..k], First(list[k..], next), i)
    {
      assert LinkOk(hdr, list, next, i);
    }
    forall i: nat {:trigger LinkOk(hdr, list[k..], next, i)} | i < |list| - k ensures LinkOk(hdr, list[k..], next, i) {
      assert LinkOk(hdr, list, next, k + i);
    }
  }

  lemma Join(hdr: Headers, left: seq<nat>, right: seq<nat>, next: nat)
    requires Seg(hdr, left, First(right, next)) && Seg(hdr, right, next)
    requires left != [] && right != [] ==> left[|left| - 1] in hdr && End(hdr, left[|left| - 1]) < right[0]
    ensures Seg(hdr, left + right, next)
  {
    var list := left + right;
    forall i: nat {:trigger LinkOk(hdr, list, next, i)} | i < |list| ensures LinkOk(hdr, list, next, i) {
      if i < |left| {
        assert LinkOk(hdr, left, First(right, next), i);
      } else {
        assert LinkOk(hdr, right, next, i - |left|);
      }
    }
  }

  /** A segment depends on its own headers only. */
  lemma SegFrame(hdr: Headers, hdr': Headers, list: seq<nat>, next: nat)
    requires Seg(hdr, list, next) && forall x :: x in list ==> x in hdr && x in hdr' && hdr'[x] == hdr[x]
    ensures Seg(hdr', list, next)
  {
    forall i: nat {:trigger LinkOk(hdr', list, next, i)} | i < |list| ensures LinkOk(hdr', list, next, i) {
      assert LinkOk(hdr, list, next, i) && list[i] in list;
    }
  }

  /** The last entry gets another size and another link. */
  lemma SegLast(hdr: Headers, hdr': Headers, list: seq<nat>, next: nat, next': nat)
    requires Seg(hdr, list, next) && list != []
    requires forall x :: x in list && x != list[|list| - 1] ==> x in hdr && x in hdr' && hdr'[x] == hdr[x]
    requires var last := list[|list| - 1]; last in hdr' && 0 < hdr'[last].numBlocks && hdr'[last].pNext == next'
    ensures Seg(hdr', list, next')
  {
    forall i: nat {:trigger LinkOk(hdr', list, next', i)} | i < |list| ensures LinkOk(hdr', list, next', i) {
      assert LinkOk(hdr, list, next, i) && list[i] in list;
      if i + 1 < |list| { Ascending(hdr, list, next, i, |list| - 1); }
    }
  }

  // ----- merging -----

  /** What _merge_allocation_blocks leaves, for a block b behind a, or null. */
  function Merged(hdr: Headers, a: nat, b: nat): Headers
    requires a in hdr && (b != 0 ==> b in hdr)
  {
    if b != 0 && End(hdr, a) == b then
      var fused := hdr[a].(numBlocks := hdr[a].numBlocks + hdr[b].numBlocks, pNext := hdr[b].pNext);
      hdr[a := fused][b := Header(0, 0, 0, 0)]
    else
      hdr[a := hdr[a].(pNext := b)]
  }

  predicate Fuses(hdr: Headers, a: nat, b: nat) {
    a in hdr && b != 0 && End(hdr, a) == b
  }

  /** The list after r is put before `right`: its first entry is swallowed if it is adjacent. */
  function Behind(hdr: Headers, r: nat, right: seq<nat>): seq<nat> {
    if right != [] && Fuses(hdr, r, right[0]) then right[1..] else right
  }

  lemma RightMerged(hdr: Headers, r: nat, right: seq<nat>)
    requires Seg(hdr, right, 0) && 0 < r && r in hdr && 0 < hdr[r].numBlocks && r !in right
    requires right != [] ==> right[0] in hdr && End(hdr, r) <= right[0]
    ensures First(right, 0) != 0 ==> First(right, 0) in hdr
    ensures Seg(Merged(hdr, r, First(right, 0)), [r] + Behind(hdr, r, right), 0)
  {
    var b, rest := First(right, 0), Behind(hdr, r, right);
    if right != [] { assert LinkOk(hdr, right, 0, 0); }
    var hdr' := Merged(hdr, r, b);
    if right != [] && Fuses(hdr, r, b) {
      Parts(hdr, right, 0, 1);
      forall x | x in rest ensures x != b {
        var j :| 0 <= j < |rest| && rest[j] == x;
        assert right[j + 1] == x;
        Ascending(hdr, right, 0, 0, j + 1);
      }
      InSeg(hdr, rest, 0);
      SegFrame(hdr, hdr', rest, 0);
    } else {
      InSeg(hdr, rest, 0);
      SegFrame(hdr, hdr', rest, 0);
    }
    assert LinkOk(hdr', [r], First(rest, 0), 0);
    Join(hdr', [r], rest, 0);
  }

  lemma InSeg(hdr: Headers, list: seq<nat>, next: nat)
    requires Seg(hdr, list, next)
    ensures forall x :: x in list ==> x in hdr && 0 < x
  {
    forall x | x in list ensures x in hdr && 0 < x {
      var i: nat :| i < |list| && list[i] == x;
      assert LinkOk(hdr, list, next, i);
    }
  }

  /** The list after `tail`, which begins with r, is put behind `left`: r is swallowed if it is adjacent. */
  function Front(hdr: Headers, left: seq<nat>, tail: seq<nat>): seq<nat> {
    if left != [] && tail != [] && Fuses(hdr, left[|left| - 1], tail[0]) then left + tail[1..] else left + tail
  }

  lemma LeftMerged(hdr: Headers, left: seq<nat>, next: nat, tail: seq<nat>)
    requires Seg(hdr, left, next) && left != [] && Seg(hdr, tail, 0) && tail != []
    requires left[|left| - 1] in hdr && tail[0] in hdr && End(hdr, left[|left| - 1]) <= tail[0]
    ensures Seg(Merged(hdr, left[|left| - 1], tail[0]), Front(hdr, left, tail), 0)
  {
    var p, r := left[|left| - 1], tail[0];
    var hdr' := Merged(hdr, p, r);
    assert LinkOk(hdr, tail, 0, 0) && LinkOk(hdr, left, next, |left| - 1);
    forall x | x in left ensures x in hdr && x <= p {
      var i: nat :| i < |left| && left[i] == x;
      assert LinkOk(hdr, left, next, i);
      if i < |left| - 1 { Ascending(hdr, left, next, i, |left| - 1); }
    }
    var right := if Fuses(hdr, p, r) then tail[1..] else tail;
    Parts(hdr, tail, 0, 1);
    forall x | x in tail ensures x in hdr && p < x && (x in tail[1..] ==> x > r) {
      var i: nat :| i < |tail| && tail[i] == x;
      assert LinkOk(hdr, tail, 0, i);
      if i > 0 { Ascending(hdr, tail, 0, 0, i); }
      if x in tail[1..] {
        var j: nat :| j < |tail| - 1 && tail[1..][j] == x;
        assert tail[j + 1] == x;
        Ascending(hdr, tail, 0, 0, j + 1);
      }
    }
    SegFrame(hdr, hdr', right, 0);
    SegLast(hdr, hdr', left, next, First(right, 0));
    Join(hdr', left, right, 0);
  }

  lemma NullHead(hdr: Headers, list: seq<nat>)
    requires Seg(hdr, list, 0)
    ensures First(list, 0) == 0 <==> list == []
  {
    if list != [] { assert LinkOk(hdr, list, 0, 0); }
  }

  lemma NullLink(hdr: Headers, list: seq<nat>, k: nat)
    requires Seg(hdr, list, 0) && k < |list|
    ensures list[k] in hdr && (hdr[list[k]].pNext == 0 <==> k + 1 == |list|)
  {
    assert LinkOk(hdr, list, 0, k);
    if k + 1 < |list| { assert LinkOk(hdr, list, 0, k + 1); }
  }
}
