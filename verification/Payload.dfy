/**
 The bytes of live blocks: a block's payload is what follows its header.
 */
module Payload {
  import opened Tiling
  import opened FreeList
  import opened Heap

  const BLOCK: nat := 32

  /** Memory that holds a known byte, by byte address. */
  type Bytes = map<nat, nat>

  /** A header at b overwrites the bytes of block b. */
  function Clobber(mem: Bytes, b: nat): Bytes {
    map x | x in mem && !(BLOCK * b <= x < BLOCK * b + BLOCK) :: mem[x]
  }

  predicate SameByte(mem: Bytes, mem': Bytes, x: nat) {
    (x in mem <==> x in mem') && (x in mem ==> mem'[x] == mem[x])
  }

  /** The payload of a live block: the bytes of its blocks but the first. */
  predicate InPayload(hdr: Headers, a: nat, x: nat) {
    a in hdr && BLOCK * (a + 1) <= x < BLOCK * End(hdr, a)
  }

  ghost predicate SamePayload(hdr: Headers, mem: Bytes, mem': Bytes, a: nat) {
    a in hdr && forall x: nat :: InPayload(hdr, a, x) ==> SameByte(mem, mem', x)
  }

  /** The payloads of the live blocks are the same. */
  ghost predicate PayloadsKept(hdr: Headers, mem: Bytes, mem': Bytes, live: set<nat>) {
    forall a {:trigger SamePayload(hdr, mem, mem', a)} :: a in live ==> SamePayload(hdr, mem, mem', a)
  }

  /** Block b is not in the payload of a. */
  predicate Outside(hdr: Headers, a: nat, b: nat) {
    a in hdr && (b <= a || End(hdr, a) <= b)
  }

  /** A header that is written outside all payloads keeps them. */
  lemma WriteKeeps(hdr: Headers, mem: Bytes, mem': Bytes, live: set<nat>, b: nat)
    requires PayloadsKept(hdr, mem, mem', live) && forall a {:trigger Outside(hdr, a, b)} :: a in live ==>
               Outside(hdr, a, b)
    ensures PayloadsKept(hdr, mem, Clobber(mem', b), live)
  {
    forall a {:trigger SamePayload(hdr, mem, Clobber(mem', b), a)} | a in live
      ensures SamePayload(hdr, mem, Clobber(mem', b), a)
    {
      assert Outside(hdr, a, b) && SamePayload(hdr, mem, mem', a);
      forall x: nat | InPayload(hdr, a, x) ensures SameByte(mem, Clobber(mem', b), x) {
        assert SameByte(mem, mem', x);
      }
    }
  }

  lemma NothingChanged(hdr: Headers, mem: Bytes, live: set<nat>)
    requires live <= hdr.Keys
    ensures PayloadsKept(hdr, mem, mem, live)
  {
    forall a {:trigger SamePayload(hdr, mem, mem, a)} | a in live ensures SamePayload(hdr, mem, mem, a) {
      assert a in hdr.Keys;
    }
  }

  /** Headers are outside all payloads. */
  lemma StartsOutside(hdr: Headers, starts: set<nat>, pools: set<Region>, live: set<nat>, b: nat)
    requires Tiled(hdr, starts, pools) && live <= starts && b in starts
    ensures forall a {:trigger Outside(hdr, a, b)} :: a in live ==> Outside(hdr, a, b)
  {
    forall a {:trigger Outside(hdr, a, b)} | a in live ensures Outside(hdr, a, b) {
      assert StartOk(hdr, starts, pools, a);
      assert a != b ==> InOrder(hdr, a, b);
    }
  }

  /** So is what lies within a free entry. */
  lemma WithinOutside(hdr: Headers, starts: set<nat>, pools: set<Region>, live: set<nat>, e: nat, b: nat)
    requires Tiled(hdr, starts, pools) && live <= starts && e in starts && e !in live && e in hdr
             && e <= b < End(hdr, e)
    ensures forall a {:trigger Outside(hdr, a, b)} :: a in live ==> Outside(hdr, a, b)
  {
    forall a {:trigger Outside(hdr, a, b)} | a in live ensures Outside(hdr, a, b) {
      assert InOrder(hdr, a, e) && InOrder(hdr, e, a);
    }
  }

  /** The live blocks have kept their extents, so that their payloads are where they were. */
  ghost predicate LiveKept(hdr: Headers, hdr': Headers, live: set<nat>) {
    forall a {:trigger SameExtent(hdr, hdr', a)} :: a in live ==> SameExtent(hdr, hdr', a)
  }

  /** One change after another. */
  lemma KeptTwice(hdr: Headers, hdr': Headers, hdr'': Headers, mem: Bytes, mem': Bytes, mem'': Bytes, live: set<nat>)
    requires LiveKept(hdr, hdr', live) && LiveKept(hdr', hdr'', live)
    requires PayloadsKept(hdr, mem, mem', live) && PayloadsKept(hdr', mem', mem'', live)
    ensures LiveKept(hdr, hdr'', live) && PayloadsKept(hdr, mem, mem'', live)
  {
    forall a {:trigger SameExtent(hdr, hdr'', a)} | a in live ensures SameExtent(hdr, hdr'', a) {
      assert SameExtent(hdr, hdr', a) && SameExtent(hdr', hdr'', a);
    }
    forall a {:trigger SamePayload(hdr, mem, mem'', a)} | a in live ensures SamePayload(hdr, mem, mem'', a) {
      assert SameExtent(hdr, hdr', a) && SamePayload(hdr, mem, mem', a) && SamePayload(hdr', mem', mem'', a);
      forall x: nat | InPayload(hdr, a, x) ensures SameByte(mem, mem'', x) {
        assert InPayload(hdr', a, x) && SameByte(mem, mem', x) && SameByte(mem', mem'', x);
      }
    }
  }

  // ----- copying -----

  /** fast_memcpy: the bytes at src, as far as they are known, are at dst, too. */
  function Copied(mem: Bytes, dst: nat, src: nat, len: nat): Bytes {
    if len == 0 then mem else
    var before, i := Copied(mem, dst, src, len - 1), len - 1;
    if src + i in mem then before[dst + i := mem[src + i]] else before - {dst + i}
  }

  /** fast_memset with zero. */
  function Zeroed(mem: Bytes, dst: nat, len: nat): Bytes {
    if len == 0 then mem else Zeroed(mem, dst, len - 1)[dst + (len - 1) := 0]
  }

  /** Byte y of mem' is what byte x of mem was. */
  predicate Moved(mem: Bytes, mem': Bytes, x: nat, y: nat) {
    (x in mem <==> y in mem') && (x in mem ==> mem'[y] == mem[x])
  }

  lemma {:induction false} CopiedByte(mem: Bytes, dst: nat, src: nat, len: nat, i: nat)
    requires i < len
    ensures Moved(mem, Copied(mem, dst, src, len), src + i, dst + i)
  {
    if i < len - 1 { CopiedByte(mem, dst, src, len - 1, i); }
  }

  lemma {:induction false} CopiedElsewhere(mem: Bytes, dst: nat, src: nat, len: nat, x: nat)
    requires !(dst <= x < dst + len)
    ensures SameByte(mem, Copied(mem, dst, src, len), x)
  {
    if len > 0 { CopiedElsewhere(mem, dst, src, len - 1, x); }
  }

  lemma {:induction false} ZeroedBytes(mem: Bytes, dst: nat, len: nat, x: nat)
    ensures if dst <= x < dst + len then x in Zeroed(mem, dst, len)
            && Zeroed(mem, dst, len)[x] == 0 else SameByte(mem, Zeroed(mem, dst, len), x)
  {
    if len > 0 { ZeroedBytes(mem, dst, len - 1, x); }
  }

  /** Writing within the payload of one block keeps the others. */
  lemma FillKeeps(hdr: Headers, starts: set<nat>, pools: set<Region>, live: set<nat>, q: nat, mem: Bytes, mem': Bytes,
      len: nat)
    requires Tiled(hdr, starts, pools) && live <= starts && q in starts && q !in live && q in hdr
    requires len <= BLOCK * (hdr[q].numBlocks - 1)
    requires forall x: nat :: !(BLOCK * (q + 1) <= x < BLOCK * (q + 1) + len) ==> SameByte(mem, mem', x)
    ensures PayloadsKept(hdr, mem, mem', live)
  {
    forall a {:trigger SamePayload(hdr, mem, mem', a)} | a in live ensures SamePayload(hdr, mem, mem', a) {
      assert StartOk(hdr, starts, pools, a) && InOrder(hdr, a, q) && InOrder(hdr, q, a);
      forall x: nat | InPayload(hdr, a, x) ensures SameByte(mem, mem', x) {}
    }
  }
}
