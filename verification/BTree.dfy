/**
 The bit trie: a node for every prefix of a key's bits, the highest bit of each byte first.
 */
module BTree {
  import opened Basics

  type Byte = n: nat | n < 256

  /** The bytes of a key: 8 of them for a number, or those before the NUL of a string. */
  type Key = seq<Byte>

  /** Bit b of a number. */
  predicate Bit(n: nat, b: nat) {
    if b == 0 then n % 2 == 1 else Bit(n / 2, b - 1)
  }

  /** The way that iterate takes: bits 7, ..., 0 of each byte. */
  function Path(key: Key): (p: seq<bool>)
    ensures |p| == 8 * |key|
  {
    seq(8 * |key|, i requires 0 <= i < 8 * |key| => Bit(key[i / 8], 7 - i % 8))
  }

  lemma {:induction false} SameBits(m: nat, n: nat, k: nat)
    requires m < Power(k) && n < Power(k) && forall b: nat :: b < k ==> Bit(m, b) == Bit(n, b)
    ensures m == n
  {
    if k > 0 {
      assert Bit(m, 0) == Bit(n, 0);
      forall b: nat | b < k - 1 ensures Bit(m / 2, b) == Bit(n / 2, b) { assert Bit(m, b + 1) == Bit(n, b + 1); }
      SameBits(m / 2, n / 2, k - 1);
    }
  }

  /** Different keys take different ways. */
  lemma PathsDiffer(k: Key, l: Key)
    requires Path(k) == Path(l)
    ensures k == l
  {
    assert |k| == |l|;
    forall i | 0 <= i < |k| ensures k[i] == l[i] {
      forall b: nat | b < 8 ensures Bit(k[i], b) == Bit(l[i], b) {
        var j := 8 * i + (7 - b);
        assert j / 8 == i && 7 - j % 8 == b;
        assert Path(k)[j] == Path(l)[j];
      }
      assert Power(8) == 256;
      SameBits(k[i], l[i], 8);
    }
  }

  lemma MapSize<T>(m: map<Key, T>, key: Key, d: Option<T>)
    ensures |m - {key}| == |m| - if key in m then 1 else 0
    ensures d.Some? ==> |m[key := d.value]| == |m| + if key in m then 0 else 1
  {
    assert (m - {key}).Keys == m.Keys - {key};
    if d.Some? { assert m[key := d.value].Keys == m.Keys + {key}; }
  }

  /** BTreeNode: the two sub-nodes are allocated together. */
  class Node<T> {
    var data: Option<T>
    var left: Node?<T>
    var right: Node?<T>

    constructor ()
      ensures data == None && left == null && right == null
    {
      data, left, right := None, null, null;
    }
  }

  class BTree<T> {
    const head: Node<T>
    var numNodes: nat
    /** Every node, by the way that leads to it. */
    ghost var nodes: map<seq<bool>, Node<T>>
    /** What the tree stands for. */
    ghost var contents: map<Key, T>

    /** The node at p is linked to exactly the nodes one step further. */
    ghost predicate NodeOk(p: seq<bool>)
      requires p in nodes
      reads `nodes, nodes[p]
    {
      var n := nodes[p];
      && (n.left == null <==> p + [false] !in nodes) && (n.right == null <==> p + [true] !in nodes)
      && (n.left != null ==> n.left == nodes[p + [false]]) && (n.right != null ==> n.right == nodes[p + [true]])
      && (n.left == null <==> n.right == null)
    }

    ghost predicate Separate(p: seq<bool>, q: seq<bool>)
      requires p in nodes && q in nodes
      reads `nodes
    {
      nodes[p] != nodes[q]
    }

    /** The way to a node leads through nodes. */
    ghost predicate ParentIn(p: seq<bool>)
      reads `nodes
    {
      p == [] || p[..|p| - 1] in nodes
    }

    ghost predicate Shape()
      reads `nodes, nodes.Values
    {
      && [] in nodes && nodes[[]] == head
      && (forall p {:trigger NodeOk(p)} :: p in nodes ==> NodeOk(p))
      && (forall p {:trigger ParentIn(p)} :: p in nodes ==> ParentIn(p))
      && (forall p, q {:trigger Separate(p, q)} :: p in nodes && q in nodes && p != q ==> Separate(p, q))
    }

    ghost predicate Stored(k: Key)
      reads this, nodes.Values
    {
      k in contents && Path(k) in nodes && nodes[Path(k)].data == Some(contents[k])
    }

    /** What the node at p holds is stored under a key. */
    ghost predicate Accounted(p: seq<bool>)
      reads this, nodes.Values
    {
      p in nodes && (nodes[p].data.Some? ==> exists k :: k in contents && Path(k) == p)
    }

    /** A key's node holds what the key stands for, and no other node holds anything. */
    ghost predicate Holds()
      reads this, nodes.Values
    {
      && (forall k {:trigger Stored(k)} :: k in contents ==> Stored(k))
      && (forall p {:trigger Accounted(p)} :: p in nodes ==> Accounted(p))
    }

    ghost predicate Valid()
      reads this, nodes.Values
    {
      Shape() && Holds() && numNodes == |contents|
    }

    constructor ()
      ensures Valid() && contents == map[]
    {
      var n := new Node<T>();
      head := n;
      numNodes := 0;
      nodes := map[[] := n];
      contents := map[];
      new;
      assert NodeOk([]);
    }

    /** iterate without creating nodes. */
    method Find(key: Key) returns (n: Node?<T>)
      requires Valid()
      ensures n != null <==> Path(key) in nodes
      ensures n != null ==> n == nodes[Path(key)]
    {
      var path := Path(key);
      n := head;
      var i := 0;
      while i < |path|
        invariant 0 <= i <= |path| && path[..i] in nodes && n == nodes[path[..i]]
      {
        assert NodeOk(path[..i]) && path[..i + 1] == path[..i] + [path[i]];
        if n.left == null {
          assert path == path[..|path|];
          Unreachable(path, i, path);
          return null;
        }
        n := if path[i] then n.right else n.left;
        i := i + 1;
      }
      assert path[..i] == path;
    }

    /** Beyond a node without sub-nodes there is nothing. */
    lemma Unreachable(path: seq<bool>, i: nat, p: seq<bool>)
      requires Shape() && i < |path| && path[..i + 1] !in nodes && i < |p| <= |path| && p == path[..|p|]
      ensures p !in nodes
      decreases |p|
    {
      if i + 1 < |p| {
        assert p[..|p| - 1] == path[..|p| - 1];
        Unreachable(path, i, p[..|p| - 1]);
        assert p in nodes ==> ParentIn(p);
      }
    }

    /** A node gets its two sub-nodes: nothing that the tree stands for changes. */
    method AddSubNodes(n: Node<T>, ghost p: seq<bool>)
      requires Valid() && p in nodes && n == nodes[p] && n.left == null
      modifies `nodes, n
      ensures Valid() && n.left != null
      ensures nodes.Keys == old(nodes).Keys + {p + [false], p + [true]}
      ensures forall q {:trigger nodes[q]} :: q in old(nodes) ==> nodes[q] == old(nodes)[q]
      ensures forall q {:trigger nodes[q]} :: q in nodes && q !in old(nodes) ==> fresh(nodes[q])
    {
      ghost var before := nodes;
      LinkSubNodes(n, p);
      forall k {:trigger Stored(k)} | k in contents ensures Stored(k) { assert old(Stored(k)); }
      forall q {:trigger Accounted(q)} | q in nodes ensures Accounted(q) { assert q in before ==> old(Accounted(q)); }
    }

    method LinkSubNodes(n: Node<T>, ghost p: seq<bool>)
      requires Shape() && p in nodes && n == nodes[p] && n.left == null
      modifies `nodes, n
      ensures Shape() && n.left != null && n.data == old(n.data)
      ensures nodes.Keys == old(nodes).Keys + {p + [false], p + [true]}
      ensures forall q {:trigger nodes[q]} :: q in old(nodes) ==> nodes[q] == old(nodes)[q]
      ensures forall q {:trigger nodes[q]} :: q in nodes && q !in old(nodes) ==>
                fresh(nodes[q]) && nodes[q].data == None
    {
      ghost var before, pl, pr := nodes, p + [false], p + [true];
      assert NodeOk(p);
      var l := new Node<T>();
      var r := new Node<T>();
      n.left, n.right := l, r;
      nodes := nodes[pl := l][pr := r];
      forall q | q in before && q != p ensures before[q] != n { assert old(Separate(q, p)); }
      forall q {:trigger NodeOk(q)} | q in nodes ensures NodeOk(q) {
        Children(p, q);
        if q in before && q != p {
          assert old(NodeOk(q));
        } else if q != p {
          assert q + [false] in before ==> old(ParentIn(q + [false]));
          assert q + [true] in before ==> old(ParentIn(q + [true]));
        }
      }
      forall q {:trigger ParentIn(q)} | q in nodes ensures ParentIn(q) {
        if q in before { assert old(ParentIn(q)); } else { assert q[..|q| - 1] == p; }
      }
      forall q, q' {:trigger Separate(q, q')} | q in nodes && q' in nodes && q != q' ensures Separate(q, q') {
        assert q in before && q' in before ==> old(Separate(q, q'));
      }
    }

    /** Which ways the sub-nodes of q are reached. */
    lemma Children(p: seq<bool>, q: seq<bool>)
      ensures forall b, c :: q + [b] == p + [c] ==> q == p && b == c
      ensures forall b :: (q + [b])[..|q + [b]| - 1] == q
    {
      forall b, c | q + [b] == p + [c] ensures q == p && b == c {
        assert (q + [b])[..|q|] == q && (p + [c])[..|p|] == p && (q + [b])[|q|] == b;
      }
    }

    /** iterate with createNodes: the way to the key's node is made, and nothing else changes. */
    method FindOrCreate(key: Key) returns (n: Node<T>)
      requires Valid()
      modifies `nodes, nodes.Values
      ensures Valid() && Path(key) in nodes && n == nodes[Path(key)]
      ensures fresh(nodes.Values - old(nodes).Values)
    {
      var path := Path(key);
      n := head;
      var i := 0;
      while i < |path|
        invariant 0 <= i <= |path| && Valid() && path[..i] in nodes && n == nodes[path[..i]]
        invariant fresh(nodes.Values - old(nodes).Values)
      {
        if n.left == null {
          AddSubNodes(n, path[..i]);
        }
        assert NodeOk(path[..i]) && path[..i + 1] == path[..i] + [path[i]];
        n := if path[i] then n.right else n.left;
        i := i + 1;
      }
      assert path[..i] == path;
    }

    /** A node's data is written: the shape stays, and no other node is touched. */
    method WriteData(n: Node<T>, ghost p: seq<bool>, d: Option<T>)
      requires Shape() && p in nodes && n == nodes[p]
      modifies n`data
      ensures Shape() && n.data == d && forall q {:trigger nodes[q]} :: q in nodes && q != p ==> nodes[q] != n
    {
      n.data := d;
      forall q {:trigger NodeOk(q)} | q in nodes ensures NodeOk(q) { assert old(NodeOk(q)); }
      forall q | q in nodes && q != p ensures nodes[q] != n { assert old(Separate(q, p)); }
    }

    /** Data comes to a key's node, or leaves it. */
    method SetData(n: Node<T>, key: Key, d: Option<T>)
      requires Valid() && Path(key) in nodes && n == nodes[Path(key)]
      modifies `contents, `numNodes, n`data
      ensures Valid() && contents == if d.Some? then old(contents)[key := d.value] else old(contents) - {key}
    {
      ghost var p, before := Path(key), contents;
      InContents(key);
      MapSize(before, key, d);
      if n.data.None? && d.Some? { numNodes := numNodes + 1; }
      if n.data.Some? && d.None? { numNodes := numNodes - 1; }
      WriteData(n, p, d);
      contents := if d.Some? then contents[key := d.value] else contents - {key};
      forall k {:trigger Stored(k)} | k in contents ensures Stored(k) {
        if k != key {
          assert old(Stored(k));
          if Path(k) == p { PathsDiffer(k, key); }
        }
      }
      forall q {:trigger Accounted(q)} | q in nodes ensures Accounted(q) {
        assert old(Accounted(q));
        if q != p && nodes[q].data.Some? {
          var k :| k in before && Path(k) == q;
          assert k in contents;
        } else if q == p && d.Some? {
          assert key in contents;
        }
      }
    }

    /** push and emplace */
    method Push(key: Key, d: T)
      requires Valid()
      modifies this, nodes.Values
      ensures Valid() && contents == old(contents)[key := d] && numNodes == |contents|
      ensures fresh(nodes.Values - old(nodes).Values)
    {
      var iter := FindOrCreate(key);
      SetData(iter, key, Some(d));
    }

    /** The subscript operator: a key without data gets the default. */
    method Index(key: Key, default: T) returns (d: T)
      requires Valid()
      modifies this, nodes.Values
      ensures Valid() && contents == old(contents)[key := d]
              && d == (if key in old(contents) then old(contents)[key] else default)
      ensures fresh(nodes.Values - old(nodes).Values)
    {
      var iter := FindOrCreate(key);
      InContents(key);
      if iter.data.None? {
        SetData(iter, key, Some(default));
      }
      InContents(key);
      d := iter.data.value;
    }

    method Pop(key: Key)
      requires Valid()
      modifies this, nodes.Values
      ensures Valid() && contents == old(contents) - {key} && nodes == old(nodes)
    {
      var iter := Find(key);
      InContents(key);
      if iter == null || iter.data.None? {
        return;
      }
      SetData(iter, key, None);
    }

    method Contains(key: Key) returns (r: bool)
      requires Valid()
      ensures r <==> key in contents
    {
      var iter := Find(key);
      InContents(key);
      r := iter != null && iter.data.Some?;
    }

    /** at: None models the failed assertion. */
    method At(key: Key) returns (d: Option<T>)
      requires Valid()
      ensures d == if key in contents then Some(contents[key]) else None
    {
      var iter := Find(key);
      InContents(key);
      d := if iter == null then None else iter.data;
    }

    function Size(): (n: nat)
      requires Valid()
      reads this, nodes.Values
      ensures n == |contents|
    {
      numNodes
    }

    method Clear()
      requires Valid()
      modifies this, head
      ensures Valid() && contents == map[]
    {
      head.data, head.left, head.right := None, null, null;
      numNodes := 0;
      nodes := map[[] := head];
      contents := map[];
      assert NodeOk([]);
    }

    /** A key is stored exactly if its node holds something. */
    lemma InContents(key: Key)
      requires Valid()
      ensures key in contents <==> Path(key) in nodes && nodes[Path(key)].data.Some?
      ensures key in contents ==> nodes[Path(key)].data == Some(contents[key])
    {
      if key in contents {
        assert Stored(key);
      } else if Path(key) in nodes && nodes[Path(key)].data.Some? {
        assert Accounted(Path(key));
        var k :| k in contents && Path(k) == Path(key);
        PathsDiffer(k, key);
        assert false;
      }
    }
  }
}
