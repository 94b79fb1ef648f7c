/** The disk B+Tree: nodes by offset, insertion, deletion, search, traversal. */
module BTree {
  import opened ByteOrder
  import opened BTreeShape
  import opened BTreeNode
  import opened BTreeGrow
  import opened BTreeShrink

  const HEADER_BLOCK: int := 16 // DB_HEADER_BLOCK_SIZE
  const NODE_BLOCK: int := 128 // the first block of a node

  type Order = n: nat | n >= 3 witness 5

  datatype Status = SUCCESS | ERROR | DUPLICATE

  /** Free offsets are distinct, past the header, before the end, and unused. */
  ghost predicate FreeIsApart(used: set<int>, free: seq<int>, fileEnd: int) {
    && fileEnd >= HEADER_BLOCK
    && (forall o <- used :: HEADER_BLOCK <= o < fileEnd)
    && (forall i | 0 <= i < |free| :: free[i] !in used && HEADER_BLOCK <= free[i] < fileEnd)
    && (forall i, j | 0 <= i < j < |free| :: free[i] != free[j])
  }

  lemma WithLength(n: NodeV, i: nat, k: Key, p: int)
    requires i <= |n.keys| && |n.children| == |n.keys| + 1
    ensures |With(n, i, k, p).keys| == |n.keys| + 1 && |With(n, i, k, p).children| == |n.children| + 1
  {
  }

  lemma UpdatedTwice(before: Disk, disk: Disk, off: int, newOff: int, a: NodeV, b: NodeV)
    requires disk.Keys == before.Keys + {newOff} && forall o <- before :: disk[o] == before[o]
    ensures disk[off := a][newOff := b] == before[off := a][newOff := b]
  {
    var x, y := disk[off := a][newOff := b], before[off := a][newOff := b];
    assert x.Keys == y.Keys;
    assert forall o <- x :: x[o] == y[o];
  }

  lemma UpdatedOnce(before: Disk, disk: Disk, off: int, a: NodeV)
    requires disk.Keys == before.Keys + {off} && forall o <- before :: disk[o] == before[o]
    ensures disk[off := a] == before[off := a]
  {
    var x, y := disk[off := a], before[off := a];
    assert x.Keys == y.Keys;
    assert forall o <- x :: x[o] == y[o];
  }

  lemma AfterSize(es: seq<Entry>, k: Key, p: int, replaceDup: bool)
    ensures |After(es, k, p, replaceDup)| == |es| + if Has(es, k) then 0 else 1
    ensures Dict(After(es, k, p, replaceDup)) == if Has(es, k) && !replaceDup then Dict(es) else Dict(es)[k := p]
  {
    DictReplace(es, k, p);
    if !Has(es, k) {
      DictPut(es, k, p);
    }
  }

  lemma DeletedEntries(t: Tree, d: nat, order: nat, k: Key)
    requires Ok(t, LOW, HIGH, d, order, 1)
    ensures Has(Entries(t), k) <==> k in Dict(Entries(t))
    ensures Dict(Del(Entries(t), k)) == Dict(Entries(t)) - {k}
    ensures |Del(Entries(t), k)| == |Entries(t)| - if Has(Entries(t), k) then 1 else 0
    ensures !Has(Entries(t), k) ==> Del(Entries(t), k) == Entries(t)
    ensures |t.keys| > 0
  {
    hide Fraction, NulFree, Dict, Del, Has, Entries;
    EntriesRise(t, LOW, HIGH, d, order, 1);
    DictHas(Entries(t), k);
    DictDel(Entries(t), k);
    if !Has(Entries(t), k) {
      DelNothing(Entries(t), k);
    }
  }

  lemma PositionOf(t: Tree, d: nat, order: nat, k: Key, p: int)
    requires Ok(t, LOW, HIGH, d, order, 1) && (k, p) in Entries(t)
    ensures k in Dict(Entries(t)) && Dict(Entries(t))[k] == p
  {
    hide Fraction, NulFree, Ok, Dict, Entries;
    EntriesRise(t, LOW, HIGH, d, order, 1);
    var i :| 0 <= i < |Entries(t)| && Entries(t)[i] == (k, p);
    DictAt(Entries(t), i);
  }

  lemma WholeIs(disk: Disk, t: Tree, d: nat, order: nat, root: int, leftLeaf: int, size: nat)
    requires Whole(disk, t, d, order, root, leftLeaf, size)
    ensures t.off == root && Rep(disk, t, 0) && Ok(t, LOW, HIGH, d, order, 1) && size == |Entries(t)|
  {
  }

  /** What an insertion into the whole tree comes to. */
  lemma InsertedWhole(disk: Disk, disk': Disk, t: Tree, d: nat, order: nat, root: int, leftLeaf: int, size: nat,
                      k: Key, p: int, replaceDup: bool,
                      success: bool, split: bool, up: Key, newOff: int, t': Tree, r: Tree)
    requires Whole(disk, t, d, order, root, leftLeaf, size)
    requires Inserted(disk, disk', t, 0, LOW, HIGH, d, order, 1, k, p, replaceDup, success, split, up, newOff, t', r)
    ensures (success <==> !Has(Entries(t), k)) && (split ==> success)
    ensures var es := After(Entries(t), k, p, replaceDup);
            if split then
              && r.off == newOff && Halved(disk, disk', t, t', r, up, 0, LOW, HIGH, d, order, es)
              && disk.Keys == Offsets(t) && root == t.off && leftLeaf == First(t)
            else
              Whole(disk', t', d, order, root, leftLeaf, |es|) && Entries(t') == es
  {
    hide Fraction, NulFree, Entries, Rep, Ok, After, Halved, Offsets, First;
  }

  /** No position is 0, so that 0 can stand for a missing key. */
  ghost predicate Placed(es: seq<Entry>) {
    forall i | 0 <= i < |es| :: es[i].1 != 0
  }

  lemma PlacedAfter(es: seq<Entry>, k: Key, p: int, replaceDup: bool)
    requires Placed(es) && p != 0
    ensures Placed(After(es, k, p, replaceDup))
  {
    PlacedPut(es, k, p);
  }

  lemma {:induction false} PlacedPut(es: seq<Entry>, k: Key, p: int)
    requires Placed(es) && p != 0
    ensures Placed(Put(es, k, p))
  {
    if es != [] {
      PlacedPut(es[1..], k, p);
    }
  }

  lemma {:induction false} PlacedDel(es: seq<Entry>, k: Key)
    requires Placed(es)
    ensures Placed(Del(es, k))
  {
    if es != [] {
      PlacedDel(es[1..], k);
    }
  }

  lemma NothingHas(k: Key)
    ensures !Has([], k)
  {
  }

  /** Where the search stops in a leaf is the position of the key, if it is there. */
  lemma SearchLeaf(disk: Disk, t: Tree, next: int, lo: real, hi: real, order: nat, least: int, k: Key)
    requires t.Leaf? && Rep(disk, t, next) && Ok(t, lo, hi, 0, order, least)
    ensures var i := Find(t.keys, k);
            && (Has(Entries(t), k) <==> i < |t.keys| && t.keys[i] == k)
            && (Has(Entries(t), k) ==> (k, disk[t.off].children[i]) in Entries(t))
  {
    hide Fraction, NulFree, Find, Has, Rising;
    var i := Find(t.keys, k);
    FindInLeaf(t.keys, t.vals, k);
    if i < |t.keys| && t.keys[i] == k {
      assert Entries(t)[i] == (k, t.vals[i]);
    }
  }

  lemma ThreeUpdates(before: Disk, disk: Disk, a: int, b: int, c: int, x: NodeV, y: NodeV, z: NodeV)
    requires a != b && a != c && b != c && a in disk && b in disk && c in disk && disk.Keys == before.Keys
    requires disk[a] == x && disk[b] == y && disk[c] == z
    requires forall o <- before | o !in {a, b, c} :: disk[o] == before[o]
    ensures disk == before[a := x][b := y][c := z]
  {
    var d := before[a := x][b := y][c := z];
    assert d.Keys == disk.Keys;
    assert forall o <- disk :: disk[o] == d[o];
  }

  /** A node that lacks a key and a minimal sibling fit into one node. */
  lemma MergeFits(d: nat, order: nat)
    requires order >= 3
    ensures 2 * MinFill(d, order) - 1 + (if d == 0 then 0 else 1) <= order - 1
  {
  }

  lemma TopOnDisk(disk: Disk, t: Tree, next: int)
    requires Rep(disk, t, next)
    ensures t.off in disk && disk[t.off].leaf == t.Leaf? && disk[t.off].keys == t.keys && |disk[t.off].children| == |t.keys| + 1
  {
  }

  /** The node at `s` has one key less. */
  ghost predicate GaveOne(disk: Disk, disk': Disk, s: int) {
    s in disk && s in disk' && |disk'[s].keys| == |disk[s].keys| - 1
  }

  lemma GivesFirst(n: NodeV)
    requires n.keys != [] && |n.children| == |n.keys| + 1
    ensures |Without(n, 0).keys| == |n.keys| - 1
  {
  }

  lemma GivesLast(n: NodeV)
    requires n.keys != [] && |n.children| == |n.keys| + 1
    ensures |Shortened(n).keys| == |n.keys| - 1
  {
  }

  class BTree {
    const order: Order
    var root: int
    var leftLeaf: int
    var size: nat
    /** Reading an offset twice yields one object (the block cache). */
    var nodes: map<int, Node>
    /** Offsets given back, and the end of the file. */
    var free: seq<int>
    var fileEnd: int
    /** The tree that the nodes spell out, and its depth, while root is not 0. */
    ghost var tree: Tree
    ghost var depth: nat

    /** An empty tree (btreeCreateHeader fixes order 5). */
    constructor (order: Order)
      ensures Valid() && Positions() == map[] && leftLeaf == 0 && this.order == order && fresh(Memory())
    {
      this.order := order;
      root, leftLeaf, size := 0, 0, 0;
      nodes := map[];
      free, fileEnd := [], HEADER_BLOCK;
      tree, depth := Leaf(0, [], []), 0;
      new;
      assert Memory() == {};
    }

    // ---------- memory ----------

    /** All objects the nodes are made of. */
    ghost function Memory(): (all: set<object>)
      reads this`nodes
      ensures this !in all
    {
      (set o | o in nodes :: nodes[o] as object) + (set o | o in nodes :: nodes[o].keys as object)
      + (set o | o in nodes :: nodes[o].children as object)
    }

    /** Nodes have the order of the tree, share no memory, and free offsets are
        not in use. */
    ghost predicate Heap()
      reads this`nodes, this`free, this`fileEnd, Memory()
    {
      && (forall o <- nodes :: nodes[o].order == order && nodes[o].Valid())
      && (forall o, p | o in nodes && p in nodes && o != p :: Apart(nodes[o], nodes[p]))
      && FreeIsApart(nodes.Keys, free, fileEnd)
    }

    /** The contents of the nodes. */
    ghost function Disk(): (disk: Disk)
      requires Heap()
      reads this`nodes, this`free, this`fileEnd, Memory()
      ensures disk.Keys == nodes.Keys
    {
      map o | o in nodes :: nodes[o].Value()
    }

    // ---------- nodes, one operation at a time ----------

    /** btreeNewNode, with the offset btreeWriteNode gives it. */
    method NewNode(leaf: bool) returns (off: int)
      requires Heap()
      modifies this`nodes, this`free, this`fileEnd
      ensures Heap()
      ensures old(Memory()) <= Memory()
      ensures forall o <- Memory() :: o in old(Memory()) || fresh(o)
      ensures off !in old(Disk()) && off >= HEADER_BLOCK && off in nodes && nodes[off].leaf == leaf && nodes[off].keyCount == 0
      ensures nodes[off].children[1] == 0
      ensures fresh(nodes[off]) && fresh(nodes[off].keys) && fresh(nodes[off].children)
      ensures nodes.Keys == old(nodes.Keys) + {off} && forall o <- old(nodes) :: nodes[o] == old(nodes)[o]
      ensures forall o <- old(Disk()) :: Disk()[o] == old(Disk())[o]
    {
      hide ShortRight, FreeIsApart, Disk;
      off := Reserve();
      var node := new Node(order, leaf);
      nodes := nodes[off := node];
      assert nodes.Keys == old(nodes.Keys) + {off};
      NodeAdded(off);
    }

    twostate lemma NodeAdded(off: int)
      requires old(Heap()) && off !in old(nodes) && off in nodes && FreeIsApart(nodes.Keys, free, fileEnd)
      requires nodes.Keys == old(nodes.Keys) + {off} && forall o <- old(nodes) :: nodes[o] == old(nodes)[o]
      requires forall o <- old(nodes) :: unchanged(nodes[o]) && unchanged(nodes[o].keys) && unchanged(nodes[o].children)
      requires nodes[off].Valid() && nodes[off].order == order
      requires fresh(nodes[off]) && fresh(nodes[off].keys) && fresh(nodes[off].children)
      ensures Heap() && forall o <- old(Disk()) :: Disk()[o] == old(Disk())[o]
    {
      hide ShortRight, FreeIsApart;
      forall o <- old(nodes)
        ensures nodes[o].Valid() && nodes[o].Value() == old(nodes[o].Value())
      {
        assert unchanged(nodes[o]) && unchanged(nodes[o].keys) && unchanged(nodes[o].children);
      }
    }

    /** An offset for a new node: a free one, or the end of the file. */
    method Reserve() returns (off: int)
      requires FreeIsApart(nodes.Keys, free, fileEnd)
      modifies this`free, this`fileEnd
      ensures off !in nodes && off >= HEADER_BLOCK && FreeIsApart(nodes.Keys + {off}, free, fileEnd)
    {
      if free != [] {
        off := free[0];
        free := free[1..];
      } else {
        off := fileEnd;
        fileEnd := fileEnd + NODE_BLOCK;
      }
    }

    /** btreeEraseNode */
    method EraseNode(off: int)
      requires Heap() && off in nodes
      modifies this`nodes, this`free
      ensures Heap() && Memory() <= old(Memory()) && nodes == old(nodes) - {off}
      ensures Disk() == old(Disk()) - {off}
    {
      nodes := nodes - {off};
      free := free + [off];
    }

    method AddKey(off: int, key: Key, filePos: int, replaceDup: bool) returns (success: bool)
      requires Heap() && off in nodes && |Disk()[off].keys| < order - 1
      modifies nodes[off], nodes[off].keys, nodes[off].children
      ensures Heap() && Memory() == old(Memory())
      ensures var was := old(Disk())[off];
              var i := Find(was.keys, key);
              if i < |was.keys| && was.keys[i] == key then
                !success && Disk() == if replaceDup && was.leaf
                                      then old(Disk())[off := was.(children := was.children[i := filePos])] else old(Disk())
              else
                success && Disk() == old(Disk())[off := With(was, i, key, filePos)]
    {
      hide Find, With, Fraction, NulFree, FreeIsApart, ShortRight, Disk, Node.Value, Node.Sizes;
      NodeAt(off);
      ghost var disk := Disk();
      assert disk[off := disk[off]] == disk;
      success := nodes[off].AddKey(key, filePos, replaceDup);
      OneChanged(off);
      NodeAt(off);
    }

    /** Only the nodes at `offs` were changed. */
    twostate lemma OnlyChanged(offs: set<int>)
      requires old(Heap()) && nodes == old(nodes) && free == old(free) && fileEnd == old(fileEnd)
      requires forall o <- nodes | o in offs :: nodes[o].Valid()
      requires forall o <- nodes | o !in offs :: unchanged(nodes[o]) && unchanged(nodes[o].keys) && unchanged(nodes[o].children)
      ensures Heap()
      ensures forall o <- nodes | o !in offs :: Disk()[o] == old(Disk())[o]
    {
      hide FreeIsApart;
      forall o <- nodes | o !in offs
        ensures nodes[o].Valid() && nodes[o].Value() == old(nodes[o].Value())
      {
        assert unchanged(nodes[o]) && unchanged(nodes[o].keys) && unchanged(nodes[o].children);
      }
    }

    twostate lemma OneChanged(off: int)
      requires old(Heap()) && nodes == old(nodes) && free == old(free) && fileEnd == old(fileEnd)
      requires off in nodes && nodes[off].Valid()
      requires forall o <- nodes | o != off :: unchanged(nodes[o]) && unchanged(nodes[o].keys) && unchanged(nodes[o].children)
      ensures Heap() && Memory() == old(Memory()) && Disk() == old(Disk())[off := nodes[off].Value()]
    {
      hide FreeIsApart;
      OnlyChanged({off});
    }

    lemma NodeAt(off: int)
      requires Heap() && off in nodes
      ensures nodes[off].Valid() && nodes[off].order == order && Disk()[off] == nodes[off].Value()
      ensures |Disk()[off].keys| == nodes[off].keyCount && |Disk()[off].children| == nodes[off].keyCount + 1
      ensures Disk()[off].leaf == nodes[off].leaf
      ensures off >= HEADER_BLOCK
    {
    }

    /** Whatever was inserted and deleted, the sizes in a node whose keys have at
        most 126 bytes are right. */
    lemma SizesAreRight(off: int)
      requires Heap() && off in nodes && forall i | 0 <= i < nodes[off].keyCount :: |nodes[off].keys[i]| < MOST
      ensures RightSizes(nodes[off].Value().keys, nodes[off].Sizes())
    {
      hide FreeIsApart;
      assert nodes[off].Valid();
    }

    /** __splitNode */
    method SplitNode(off: int, key: Key, filePos: int, replaceDup: bool) returns (success: bool, up: Key, newOff: int)
      requires Heap() && off in nodes && |Disk()[off].keys| == order - 1
      modifies this`nodes, this`free, this`fileEnd, nodes[off], nodes[off].keys, nodes[off].children
      ensures Heap()
      ensures forall o <- Memory() :: o in old(Memory()) || fresh(o)
      ensures var was := old(Disk())[off];
              var i := Find(was.keys, key);
              if i < |was.keys| && was.keys[i] == key then
                !success && Disk() == if replaceDup && was.leaf
                                      then old(Disk())[off := was.(children := was.children[i := filePos])] else old(Disk())
              else
                var full := With(was, i, key, filePos);
                && success && up == full.keys[Div(full.leaf, order)] && newOff !in old(Disk()) && newOff >= HEADER_BLOCK
                && Disk() == old(Disk())[off := LeftHalf(full, order, newOff)][newOff := RightHalf(full, order)]
    {
      hide Heap, Disk, Find, With, LeftHalf, RightHalf, Div, Fraction, NulFree, FreeIsApart;
      var i, there := FindAt(off, key);
      up, newOff, success := key, 0, !there;
      if !there {
        up, newOff := SplitAt(off, i, key, filePos);
      } else {
        NodeAt(off);
        if replaceDup && nodes[off].leaf {
          ReplaceAt(off, i, filePos);
        }
      }
    }

    /** Where a search in one node stops, and whether the key is there. */
    method FindAt(off: int, key: Key) returns (i: nat, there: bool)
      requires Heap() && off in nodes
      ensures Heap() && Memory() == old(Memory()) && Disk() == old(Disk())
      ensures i == Find(Disk()[off].keys, key) && i <= |Disk()[off].keys|
      ensures there <==> i < |Disk()[off].keys| && Disk()[off].keys[i] == key
    {
      hide Find, Fraction, NulFree, FreeIsApart;
      var node := nodes[off];
      i := node.FindKey(key);
      there := i < node.keyCount && StrCmp(key, node.keys[i]) == 0;
    }

    method SplitAt(off: int, i: nat, key: Key, filePos: int) returns (up: Key, newOff: int)
      requires Heap() && off in nodes && i <= |Disk()[off].keys| == order - 1
      modifies this`nodes, this`free, this`fileEnd, nodes[off], nodes[off].keys, nodes[off].children
      ensures Heap()
      ensures forall o <- Memory() :: o in old(Memory()) || fresh(o)
      ensures newOff !in old(Disk()) && newOff >= HEADER_BLOCK
      ensures var full := With(old(Disk())[off], i, key, filePos);
              && up == full.keys[Div(full.leaf, order)]
              && Disk() == old(Disk())[off := LeftHalf(full, order, newOff)][newOff := RightHalf(full, order)]
    {
      hide Heap, Disk, Memory, With, LeftHalf, RightHalf, Div, Fraction, NulFree, FreeIsApart;
      NodeAt(off);
      ghost var before := Disk();
      newOff := NewNode(nodes[off].leaf);
      ghost var disk := Disk();
      ghost var full := With(before[off], i, key, filePos);
      WithLength(before[off], i, key, filePos);
      UpdatedTwice(before, disk, off, newOff, LeftHalf(full, order, newOff), RightHalf(full, order));
      up := Halve(off, i, key, filePos, newOff);
    }

    method ReplaceAt(off: int, i: nat, filePos: int)
      requires Heap() && off in nodes && i <= nodes[off].keyCount
      modifies nodes[off].children
      ensures Heap() && Memory() == old(Memory())
      ensures var was := old(Disk())[off];
              Disk() == old(Disk())[off := was.(children := was.children[i := filePos])]
    {
      hide Fraction, NulFree, FreeIsApart, ShortRight;
      nodes[off].children[i] := filePos;
      OneChanged(off);
    }

    method Halve(off: int, i: nat, key: Key, filePos: int, newOff: int) returns (up: Key)
      requires Heap() && off in nodes && newOff in nodes && off != newOff && i <= nodes[off].keyCount == order - 1
      requires nodes[newOff].leaf == nodes[off].leaf && nodes[newOff].keyCount == 0
      modifies nodes[off], nodes[off].keys, nodes[off].children, nodes[newOff], nodes[newOff].keys, nodes[newOff].children
      ensures Heap()
      ensures var full := With(old(Disk())[off], i, key, filePos);
              && up == full.keys[Div(full.leaf, order)]
              && Disk() == old(Disk())[off := LeftHalf(full, order, newOff)][newOff := RightHalf(full, order)]
    {
      hide Find, With, LeftHalf, RightHalf, Div, Fraction, NulFree, FreeIsApart, ShortRight;
      up := nodes[off].Split(i, key, filePos, nodes[newOff], newOff);
      OnlyChanged({off, newOff});
    }

    // ---------- insertion ----------

    /** __insertKey, at a leaf. */
    method InsertLeaf(off: int, key: Key, filePos: int, replaceDup: bool,
                      ghost t: Tree, ghost next: int, ghost lo: real, ghost hi: real, ghost least: int)
      returns (success: bool, split: bool, up: Key, newOff: int, ghost t': Tree, ghost r: Tree)
      requires Heap() && t.off == off && t.Leaf? && Rep(Disk(), t, next) && Ok(t, lo, hi, 0, order, least)
      requires lo < Fraction(key) <= hi
      modifies this`nodes, this`free, this`fileEnd, Memory()
      ensures Heap() && old(Disk()).Keys <= Disk().Keys
      ensures forall o <- Memory() :: o in old(Memory()) || fresh(o)
      ensures Inserted(old(Disk()), Disk(), t, next, lo, hi, 0, order, least, key, filePos, replaceDup,
                       success, split, up, newOff, t', r)
    {
      hide Heap, Disk, Find, With, LeftHalf, RightHalf, Div, Fraction, NulFree, FreeIsApart, Has, Put, Replace, Became, Halved;
      NodeAt(off);
      ghost var disk := Disk();
      FindInLeaf(t.keys, t.vals, key);
      if nodes[off].keyCount < order - 1 {
        success := AddKey(off, key, filePos, replaceDup);
        split, up, newOff, r := false, key, 0, t;
        if success {
          t' := LeafGrows(disk, t, next, lo, hi, order, least, key, filePos);
        }
      } else {
        success, up, newOff := SplitNode(off, key, filePos, replaceDup);
        split, r := success, t;
        if success {
          ghost var k;
          t', r, k := LeafHalves(disk, t, next, lo, hi, order, least, key, filePos, newOff);
        }
      }
      if !success {
        if replaceDup {
          t' := LeafReplaces(disk, t, next, lo, hi, order, least, key, filePos);
        } else {
          t' := t;
          Unchanged(disk, t, next, lo, hi, 0, order, least);
        }
      }
    }

    /** The end of __insertKey at an internal node: the separator of a kid that
        was halved goes in, which may halve this node as well. */
    method Promote(off: int, key: Key, filePos: int,
                   ghost disk: Disk, ghost t: Tree, ghost next: int, ghost lo: real, ghost hi: real, ghost d: nat,
                   ghost least: int, ghost keys': seq<Key>, ghost kids': seq<Tree>)
      returns (split: bool, up: Key, newOff: int, ghost t': Tree, ghost r: Tree)
      requires Heap() && t.off == off && off in nodes && disk.Keys <= Disk().Keys && off in disk
      requires Overfull(disk, Disk(), t, next, lo, hi, d, order, keys', kids')
      requires Disk()[off] == NodeV(false, t.keys, Roots(t.kids)) && least <= |t.keys| <= order - 1 && |t.kids| == |t.keys| + 1
      requires Find(t.keys, key) < |t.keys| ==> t.keys[Find(t.keys, key)] != key
      requires With(Disk()[off], Find(t.keys, key), key, filePos) == NodeV(false, keys', Roots(kids'))
      modifies this`nodes, this`free, this`fileEnd, Memory()
      ensures Heap() && old(Disk()).Keys <= Disk().Keys
      ensures forall o <- Memory() :: o in old(Memory()) || fresh(o)
      ensures !split ==> Became(disk, Disk(), t, t', next, lo, hi, d, order, least, Flat(kids'))
      ensures split ==> r.off == newOff && Halved(disk, Disk(), t, t', r, up, next, lo, hi, d, order, Flat(kids'))
    {
      hide Heap, Disk, Find, With, LeftHalf, RightHalf, Div, Fraction, NulFree, FreeIsApart, Became, Halved, Overfull;
      NodeAt(off);
      ghost var disk' := Disk();
      WithLength(disk'[off], Find(t.keys, key), key, filePos);
      if nodes[off].keyCount < order - 1 {
        var _ := AddKey(off, key, filePos, false);
        split, up, newOff, r := false, key, 0, t;
        t' := InnerGrows(disk, disk', t, next, lo, hi, d, order, least, keys', kids');
      } else {
        split, up, newOff := SplitNode(off, key, filePos, false);
        t', r := InnerHalves(disk, disk', t, next, lo, hi, d, order, keys', kids', newOff);
      }
    }

    /** __insertKey */
    method InsertKey(rootOffset: int, key: Key, filePos: int, replaceDup: bool,
                     ghost t: Tree, ghost next: int, ghost lo: real, ghost hi: real, ghost d: nat, ghost least: int)
      returns (success: bool, split: bool, up: Key, newOff: int, ghost t': Tree, ghost r: Tree)
      requires Heap() && t.off == rootOffset && Rep(Disk(), t, next) && Ok(t, lo, hi, d, order, least)
      requires lo < Fraction(key) <= hi
      modifies this`nodes, this`free, this`fileEnd, Memory()
      ensures Heap() && old(Disk()).Keys <= Disk().Keys
      ensures forall o <- Memory() :: o in old(Memory()) || fresh(o)
      ensures Inserted(old(Disk()), Disk(), t, next, lo, hi, d, order, least, key, filePos, replaceDup,
                       success, split, up, newOff, t', r)
      decreases t, 1
    {
      hide Inserted, Fraction, NulFree, FreeIsApart, KidsRep, KidsOk, Offsets;
      if nodes[rootOffset].leaf {
        success, split, up, newOff, t', r := InsertLeaf(rootOffset, key, filePos, replaceDup, t, next, lo, hi, least);
      } else {
        success, split, up, newOff, t', r := InsertInner(rootOffset, key, filePos, replaceDup, t, next, lo, hi, d, least);
      }
    }

    /** __insertKey, at an internal node. */
    method InsertInner(off: int, key: Key, filePos: int, replaceDup: bool,
                       ghost t: Tree, ghost next: int, ghost lo: real, ghost hi: real, ghost d: nat, ghost least: int)
      returns (success: bool, split: bool, up: Key, newOff: int, ghost t': Tree, ghost r: Tree)
      requires Heap() && t.off == off && t.Inner? && Rep(Disk(), t, next) && Ok(t, lo, hi, d, order, least)
      requires lo < Fraction(key) <= hi
      modifies this`nodes, this`free, this`fileEnd, Memory()
      ensures Heap() && old(Disk()).Keys <= Disk().Keys
      ensures forall o <- Memory() :: o in old(Memory()) || fresh(o)
      ensures Inserted(old(Disk()), Disk(), t, next, lo, hi, d, order, least, key, filePos, replaceDup,
                       success, split, up, newOff, t', r)
      decreases t, 0
    {
      hide Heap, Disk, Find, With, Fraction, NulFree, FreeIsApart, Became, Halved, Has, After, Flat, Entries, KidsRep, KidsOk,
           Offsets, Rep, Ok, Memory;
      ghost var disk := Disk();
      TopOnDisk(disk, t, next);
      InnerOk(t, lo, hi, d, order, least);
      var i, _ := FindAt(off, key);
      NodeAt(off);
      KidRep(disk, t, next, i);
      FindKid(t, lo, hi, d, order, least, key);
      WithinKid(t, lo, hi, d, order, least, i, key, filePos);
      KidOk(t, lo, hi, d, order, least, i);
      ghost var c, cr;
      success, split, up, newOff, c, cr :=
        InsertKey(nodes[off].children[i], key, filePos, replaceDup, t.kids[i], NextOf(t.kids, i, next),
                  LoAt(t.keys, i, lo), HiAt(t.keys, i, hi), d - 1, MinFill(d - 1, order));
      ghost var es := After(Entries(t.kids[i]), key, filePos, replaceDup);
      if !split {
        t' := KidBecame(disk, Disk(), t, next, lo, hi, d, order, least, i, c, es);
        r := t;
      } else {
        KidHalved(disk, Disk(), t, next, lo, hi, d, order, least, i, c, cr, up, es);
        split, up, newOff, t', r :=
          Promote(off, up, newOff, disk, t, next, lo, hi, d, least,
                  SpliceKeys(t.keys, i, i + 1, [up]), SpliceKids(t.kids, i, i + 1, [c, cr]));
      }
    }

    // ---------- the whole tree ----------

    /** An empty tree, or nodes that spell out a B+Tree whose leaves are linked
        from `leftLeaf` on, with no position 0. An empty tree keeps a stale
        `leftLeaf`. */
    ghost predicate Valid()
      reads this, Memory()
    {
      && Heap()
      && (if root == 0 then size == 0 && nodes == map[] else Whole(Disk(), tree, depth, order, root, leftLeaf, size))
      && Placed(Contents())
    }

    /** The entries of the tree, in order of their keys. */
    ghost function Contents(): seq<Entry>
      reads this
    {
      if root == 0 then [] else Entries(tree)
    }

    /** The positions of the keys. */
    ghost function Positions(): map<Key, int>
      reads this
    {
      Dict(Contents())
    }

    /** The first node of the tree, or a new root above two halves. */
    method NewRoot(leaf: bool, key: Key, first: int, second: int) returns (off: int)
      requires Heap() && (leaf ==> second == 0)
      modifies this`nodes, this`free, this`fileEnd
      ensures Heap() && off !in old(Disk()) && off >= HEADER_BLOCK
      ensures forall o <- Memory() :: o in old(Memory()) || fresh(o)
      ensures Disk() == old(Disk())[off := NodeV(leaf, [key], [first, second])]
    {
      hide Fraction, NulFree, FreeIsApart, Disk, Heap, Memory;
      ghost var before := Disk();
      off := NewNode(leaf);
      ghost var disk := Disk();
      UpdatedOnce(before, disk, off, NodeV(leaf, [key], [first, second]));
      FillRoot(off, key, first, second);
    }

    method FillRoot(off: int, key: Key, first: int, second: int)
      requires Heap() && off in nodes && nodes[off].keyCount == 0 && (nodes[off].leaf ==> nodes[off].children[1] == second)
      modifies nodes[off], nodes[off].keys, nodes[off].children
      ensures Heap() && Memory() == old(Memory())
      ensures Disk() == old(Disk())[off := NodeV(old(nodes[off].leaf), [key], [first, second])]
    {
      hide Fraction, NulFree, FreeIsApart, ShortRight;
      nodes[off].Start(key, first, second);
      OneChanged(off);
    }

    /** btreeInsert */
    method Insert(key: Key, filePos: int, replaceDup: bool) returns (status: Status)
      requires Valid()
      modifies this, Memory()
      ensures Valid()
      ensures forall o <- Memory() :: o in old(Memory()) || fresh(o)
      ensures status == if filePos == 0 then ERROR
                        else if key in old(Positions()) && !replaceDup then DUPLICATE else SUCCESS
      ensures Positions() == if status == SUCCESS then old(Positions())[key := filePos] else old(Positions())
    {
      hide Fraction, NulFree, FreeIsApart, Heap, Disk, Memory, After, Whole, Placed;
      if filePos == 0 {
        return ERROR;
      }
      DictHas(Contents(), key);
      if root == 0 {
        status := InsertFirst(key, filePos);
        assert Contents()[1..] == [];
      } else {
        AfterSize(Contents(), key, filePos, replaceDup);
        status := InsertMore(key, filePos, replaceDup);
      }
    }

    lemma NoNodes()
      requires Heap() && nodes == map[]
      ensures Disk() == map[]
    {
    }

    method InsertFirst(key: Key, filePos: int) returns (status: Status)
      requires Valid() && root == 0 && filePos != 0
      modifies this, Memory()
      ensures Valid() && Contents() == [(key, filePos)] && status == SUCCESS
      ensures forall o <- Memory() :: o in old(Memory()) || fresh(o)
    {
      hide Fraction, NulFree, FreeIsApart, Whole, Entries, Heap, Disk, Memory;
      size := size + 1;
      ghost var before := Disk();
      NoNodes();
      var off := NewRoot(true, key, filePos, 0);
      tree := Sprouts(before, off, key, filePos, order);
      depth := 0;
      leftLeaf := off;
      root := off;
      status := SUCCESS;
    }

    method InsertMore(key: Key, filePos: int, replaceDup: bool) returns (status: Status)
      requires Valid() && root != 0 && filePos != 0
      modifies this, Memory()
      ensures Valid() && Contents() == After(old(Contents()), key, filePos, replaceDup)
      ensures status == if Has(old(Contents()), key) && !replaceDup then DUPLICATE else SUCCESS
      ensures forall o <- Memory() :: o in old(Memory()) || fresh(o)
    {
      hide Fraction, NulFree, FreeIsApart, Entries, Rep, Ok, Heap, Disk, Memory, After, Placed, Whole, Inserted, Halved;
      ghost var disk, es := Disk(), After(Entries(tree), key, filePos, replaceDup);
      WholeIs(disk, tree, depth, order, root, leftLeaf, size);
      PlacedAfter(Entries(tree), key, filePos, replaceDup);
      AfterSize(Entries(tree), key, filePos, replaceDup);
      ghost var t', r;
      var success, split, up, newOff;
      success, split, up, newOff, t', r :=
        InsertKey(root, key, filePos, replaceDup, tree, 0, LOW, HIGH, depth, 1);
      InsertedWhole(disk, Disk(), tree, depth, order, root, leftLeaf, size, key, filePos, replaceDup,
                    success, split, up, newOff, t', r);
      if !success {
        tree := t';
        return if replaceDup then SUCCESS else DUPLICATE;
      }
      size := size + 1;
      status := SUCCESS;
      if split {
        GrowRoot(up, newOff, disk, t', r, es);
      } else {
        tree := t';
      }
    }

    /** A root that was halved: a new one goes above the halves. */
    method GrowRoot(up: Key, newOff: int, ghost disk: Disk, ghost t': Tree, ghost r: Tree, ghost es: seq<Entry>)
      requires Heap() && root == tree.off && leftLeaf == First(tree) && size == |es| && newOff == r.off && Placed(es)
      requires disk.Keys == Offsets(tree) && Halved(disk, Disk(), tree, t', r, up, 0, LOW, HIGH, depth, order, es)
      modifies this, Memory()
      ensures Valid() && Contents() == es
      ensures forall o <- Memory() :: o in old(Memory()) || fresh(o)
    {
      hide Fraction, NulFree, Entries, Rep, Ok, Heap, Disk, Memory, Halved, Whole, Placed;
      ghost var disk' := Disk();
      var off := NewRoot(false, up, root, newOff);
      tree := Rises(disk, disk', tree, t', r, up, depth, order, es, off);
      depth := depth + 1;
      root := off;
    }

    // ---------- deletion, one node at a time ----------

    /** minLeaf and minInt (btree_header.c) */
    function MinKeys(leaf: bool): int {
      if leaf then order / 2 else (order + 1) / 2 - 1
    }

    method RemoveKey(off: int, key: Key) returns (success: bool, filePos: int)
      requires Heap() && off in nodes
      modifies nodes[off], nodes[off].keys, nodes[off].children
      ensures Heap() && Memory() == old(Memory())
      ensures var was := old(Disk())[off];
              var i := Find(was.keys, key);
              if was.leaf && i < |was.keys| && was.keys[i] == key then
                success && filePos == was.children[i] && Disk() == old(Disk())[off := Without(was, i)]
              else
                !success && Disk() == old(Disk())
    {
      hide Find, Without, Fraction, NulFree, FreeIsApart, ShortRight;
      success, filePos := nodes[off].RemoveKey(key);
      OneChanged(off);
    }

    /** Three different nodes, `off` and its sibling `s` below `prevOff`. */
    ghost predicate Beside(off: int, prevOff: int, s: int)
      requires Heap()
      reads this`nodes, this`free, this`fileEnd, Memory()
    {
      && off in nodes && prevOff in nodes && s in nodes && off != prevOff && off != s && s != prevOff
      && Disk()[off].leaf == Disk()[s].leaf
    }

    /** The three nodes, and the others, share no memory. */
    lemma BesideApart(off: int, prevOff: int, s: int)
      requires Heap() && Beside(off, prevOff, s)
      ensures off in nodes && prevOff in nodes && s in nodes && nodes[off].leaf == nodes[s].leaf
      ensures Apart(nodes[off], nodes[prevOff]) && Apart(nodes[off], nodes[s]) && Apart(nodes[prevOff], nodes[s])
      ensures forall o <- nodes | o !in {off, prevOff, s} ::
                Apart(nodes[o], nodes[off]) && Apart(nodes[o], nodes[prevOff]) && Apart(nodes[o], nodes[s])
    {
    }

    method TakeRight(off: int, prevOff: int, s: int, div: nat)
      requires Heap() && Beside(off, prevOff, s) && nodes[off].keyCount < order - 1
      requires nodes[s].keyCount > 0 && div < nodes[prevOff].keyCount
      modifies nodes[off], nodes[off].keys, nodes[off].children, nodes[prevOff], nodes[prevOff].keys
      modifies nodes[s], nodes[s].keys, nodes[s].children
      ensures Heap() && Memory() == old(Memory())
      ensures var (c, p, r) := (old(Disk())[off], old(Disk())[prevOff], old(Disk())[s]);
              Disk() == old(Disk())[off := BorrowedRight(c, p.keys[div], r)][s := Without(r, 0)]
                                   [prevOff := p.(keys := p.keys[div := r.keys[0]])]
    {
      hide BorrowedRight, Without, Fraction, NulFree, FreeIsApart, Heap, Disk, Memory, ShortRight, Node.Value, Node.Sizes;
      BesideApart(off, prevOff, s);
      NodeAt(off);
      NodeAt(prevOff);
      NodeAt(s);
      ghost var disk := Disk();
      ghost var c, p, r := disk[off], disk[prevOff], disk[s];
      nodes[off].BorrowRight(nodes[prevOff], nodes[s], div);
      OnlyChanged({off, prevOff, s});
      NodeAt(off);
      NodeAt(prevOff);
      NodeAt(s);
      ThreeUpdates(disk, Disk(), off, s, prevOff, BorrowedRight(c, p.keys[div], r), Without(r, 0),
                   p.(keys := p.keys[div := r.keys[0]]));
    }

    method TakeLeft(off: int, prevOff: int, s: int, div: nat)
      requires Heap() && Beside(off, prevOff, s) && nodes[off].keyCount < order - 1
      requires nodes[s].keyCount > (if nodes[s].leaf then 1 else 0) && 0 < div <= nodes[prevOff].keyCount
      modifies nodes[off], nodes[off].keys, nodes[off].children, nodes[prevOff], nodes[prevOff].keys
      modifies nodes[s], nodes[s].keys, nodes[s].children
      ensures Heap() && Memory() == old(Memory())
      ensures var (c, p, l) := (old(Disk())[off], old(Disk())[prevOff], old(Disk())[s]);
              Disk() == old(Disk())[s := Shortened(l)][off := BorrowedLeft(c, p.keys[div - 1], l)]
                                   [prevOff := p.(keys := p.keys[div - 1 := l.keys[|l.keys| - (if l.leaf then 2 else 1)]])]
    {
      hide BorrowedLeft, Shortened, Fraction, NulFree, FreeIsApart, Heap, Disk, Memory, ShortRight, Node.Value, Node.Sizes;
      BesideApart(off, prevOff, s);
      NodeAt(off);
      NodeAt(prevOff);
      NodeAt(s);
      ghost var disk := Disk();
      ghost var c, p, l := disk[off], disk[prevOff], disk[s];
      nodes[off].BorrowLeft(nodes[prevOff], nodes[s], div);
      OnlyChanged({off, prevOff, s});
      NodeAt(off);
      NodeAt(prevOff);
      NodeAt(s);
      ThreeUpdates(disk, Disk(), s, off, prevOff, Shortened(l), BorrowedLeft(c, p.keys[div - 1], l),
                   p.(keys := p.keys[div - 1 := l.keys[|l.keys| - (if l.leaf then 2 else 1)]]));
    }

    /** The left node of a merge gets the contents of the right one. */
    method AppendNode(off: int, s: int, sep: Key, sepSize: nat)
      requires Heap() && off in nodes && s in nodes && off != s && nodes[off].leaf == nodes[s].leaf
      requires ShortRight([sep], [sepSize])
      requires nodes[off].keyCount + nodes[s].keyCount + (if nodes[off].leaf then 0 else 1) <= order - 1
      modifies nodes[off], nodes[off].keys, nodes[off].children
      ensures Heap() && Memory() == old(Memory())
      ensures Disk() == old(Disk())[off := Merged(old(Disk())[off], sep, old(Disk())[s])]
    {
      hide Merged, Fraction, NulFree, FreeIsApart, ShortRight;
      nodes[off].Append(sep, sepSize, nodes[s]);
      OneChanged(off);
    }

    /** The parent of a merge: pointer `i` + 1 goes to the merged node, key and
        pointer `i` go. */
    method DropKey(prevOff: int, i: nat, merged: int)
      requires Heap() && prevOff in nodes && i < |Disk()[prevOff].keys|
      modifies nodes[prevOff], nodes[prevOff].keys, nodes[prevOff].children
      ensures Heap() && Memory() == old(Memory())
      ensures var p := old(Disk())[prevOff];
              Disk() == old(Disk())[prevOff := Without(p.(children := p.children[i + 1 := merged]), i)]
    {
      hide Without, Fraction, NulFree, FreeIsApart, ShortRight;
      nodes[prevOff].Redirect(i + 1, merged);
      nodes[prevOff].RemoveAt(i);
      OneChanged(prevOff);
    }

    lemma InMemory(off: int)
      requires off in nodes
      ensures nodes[off] in Memory() && nodes[off].keys in Memory() && nodes[off].children in Memory()
    {
    }

    lemma ParentOf(off: int, prevOff: int, disk: Disk, t: Tree, next: int, lo: real, hi: real, d: nat, least: int,
                   i: nat, c: Tree, es: seq<Entry>)
      requires Heap() && Lacking(disk, Disk(), t, next, lo, hi, d, order, least, i, c, es)
      requires off == c.off && prevOff == t.off && |t.keys| > 0
      ensures off in nodes && prevOff in nodes && off != prevOff && |t.kids| == |t.keys| + 1 && i < |t.kids| && d > 0
      ensures nodes[prevOff].Valid() && nodes[prevOff].Value() == NodeV(false, t.keys, Roots(t.kids))
      ensures nodes[off].Valid() && nodes[off].order == order && nodes[off].leaf == (d == 1) && nodes[off].keyCount == |c.keys|
      ensures nodes[prevOff].keyCount == |t.keys| && 1 <= MinKeys(d == 1) == MinFill(d - 1, order)
      ensures |c.keys| == MinFill(d - 1, order) - 1 && nodes[off].keyCount < order - 1
      ensures forall j | 0 <= j < |t.kids| :: nodes[prevOff].children[j] == t.kids[j].off
    {
      hide Fraction, NulFree, Became, Rep, Ok;
      Neighbours(disk, Disk(), t, next, lo, hi, d, order, least, i, c, es, if i < |t.keys| then i + 1 else i - 1);
      assert nodes[prevOff].Value().keys == t.keys && nodes[prevOff].Value().children == Roots(t.kids);
      assert nodes[off].Value().keys == c.keys;
    }

    lemma NodesOf(off: int, prevOff: int, s: int, disk: Disk, t: Tree, next: int, lo: real, hi: real, d: nat, least: int,
                  i: nat, c: Tree, es: seq<Entry>, j: nat)
      requires Heap() && Lacking(disk, Disk(), t, next, lo, hi, d, order, least, i, c, es)
      requires off == c.off && prevOff == t.off
      requires j < |t.kids| && (j == i + 1 || i == j + 1) && s == t.kids[j].off
      ensures Beside(off, prevOff, s) && nodes[s].Valid()
      ensures nodes[s].keyCount == |t.kids[j].keys| >= MinFill(d - 1, order) && nodes[s].leaf == (d == 1)
      ensures forall o | o in {off, prevOff, s} ::
                nodes[o] in Memory() && nodes[o].keys in Memory() && nodes[o].children in Memory()
    {
      hide Fraction, NulFree, Became, Rep, Ok;
      Neighbours(disk, Disk(), t, next, lo, hi, d, order, least, i, c, es, j);
      assert nodes[s].Value().keys == t.kids[j].keys;
    }

    // ---------- deletion ----------

    /** __borrowRight: `off` is kid `div` of `prevOff` and lacks one key. */
    method BorrowRight(off: int, prevOff: int, div: nat,
                       ghost disk: Disk, ghost t: Tree, ghost next: int, ghost lo: real, ghost hi: real, ghost d: nat,
                       ghost least: int, ghost c: Tree, ghost es: seq<Entry>)
      returns (borrowed: bool, ghost t': Tree)
      requires Heap() && Lacking(disk, Disk(), t, next, lo, hi, d, order, least, div, c, es)
      requires off == c.off && prevOff == t.off && |t.keys| > 0
      modifies Memory()
      ensures Heap() && Memory() == old(Memory())
      ensures borrowed <==> div < |t.keys| && |t.kids[div + 1].keys| > MinFill(d - 1, order)
      ensures !borrowed ==> Disk() == old(Disk())
      ensures borrowed ==> GaveOne(old(Disk()), Disk(), t.kids[div + 1].off)
      ensures borrowed ==> |t'.keys| == |t.keys|
                           && Became(disk, Disk(), t, t', next, lo, hi, d, order, least,
                                     Flat(t.kids[..div]) + es + Flat(t.kids[div + 1..]))
    {
      hide Heap, Disk, Memory, Fraction, NulFree, Lacking, Became, Flat, BorrowedRight, Without, MinFill, MinKeys;
      t', borrowed := t, false;
      ParentOf(off, prevOff, disk, t, next, lo, hi, d, least, div, c, es);
      if div >= nodes[prevOff].keyCount {
        return;
      }
      var s := nodes[prevOff].children[div + 1];
      NodesOf(off, prevOff, s, disk, t, next, lo, hi, d, least, div, c, es, div + 1);
      if nodes[s].keyCount > MinKeys(nodes[s].leaf) {
        t' := BorrowsRight(disk, Disk(), t, next, lo, hi, d, order, least, div, c, es);
        ghost var before := Disk();
        TakeRight(off, prevOff, s, div);
        GivesFirst(before[s]);
        borrowed := true;
      }
    }

    /** __borrowLeft */
    method BorrowLeft(off: int, prevOff: int, div: nat,
                      ghost disk: Disk, ghost t: Tree, ghost next: int, ghost lo: real, ghost hi: real, ghost d: nat,
                      ghost least: int, ghost c: Tree, ghost es: seq<Entry>)
      returns (borrowed: bool, ghost t': Tree)
      requires Heap() && Lacking(disk, Disk(), t, next, lo, hi, d, order, least, div, c, es)
      requires off == c.off && prevOff == t.off && |t.keys| > 0
      modifies Memory()
      ensures Heap() && Memory() == old(Memory())
      ensures borrowed <==> div > 0 && |t.kids[div - 1].keys| > MinFill(d - 1, order)
      ensures !borrowed ==> Disk() == old(Disk())
      ensures borrowed ==> GaveOne(old(Disk()), Disk(), t.kids[div - 1].off)
      ensures borrowed ==> |t'.keys| == |t.keys|
                           && Became(disk, Disk(), t, t', next, lo, hi, d, order, least,
                                     Flat(t.kids[..div]) + es + Flat(t.kids[div + 1..]))
    {
      hide Heap, Disk, Memory, Fraction, NulFree, Lacking, Became, Flat, BorrowedLeft, Shortened, MinFill, MinKeys;
      t', borrowed := t, false;
      ParentOf(off, prevOff, disk, t, next, lo, hi, d, least, div, c, es);
      if div == 0 {
        return;
      }
      var s := nodes[prevOff].children[div - 1];
      NodesOf(off, prevOff, s, disk, t, next, lo, hi, d, least, div, c, es, div - 1);
      if nodes[s].keyCount > MinKeys(nodes[s].leaf) {
        t' := BorrowsLeft(disk, Disk(), t, next, lo, hi, d, order, least, div, c, es);
        ghost var before := Disk();
        TakeLeft(off, prevOff, s, div);
        GivesLast(before[s]);
        borrowed := true;
      }
    }

    /** __mergeNode: with the left sibling, or with the right one at the left end. */
    method MergeNode(off: int, prevOff: int, div: nat,
                     ghost disk: Disk, ghost t: Tree, ghost next: int, ghost lo: real, ghost hi: real, ghost d: nat,
                     ghost least: int, ghost c: Tree, ghost es: seq<Entry>)
      returns (ghost t': Tree)
      requires Heap() && Lacking(disk, Disk(), t, next, lo, hi, d, order, least, div, c, es)
      requires off == c.off && prevOff == t.off && |t.keys| > 0
      requires div > 0 ==> |t.kids[div - 1].keys| <= MinFill(d - 1, order)
      requires div < |t.keys| ==> |t.kids[div + 1].keys| <= MinFill(d - 1, order)
      modifies this`nodes, this`free, Memory()
      ensures Heap() && Memory() <= old(Memory())
      ensures |t'.keys| == |t.keys| - 1
      ensures Became(disk, Disk(), t, t', next, lo, hi, d, order, least - 1,
                     Flat(t.kids[..div]) + es + Flat(t.kids[div + 1..]))
    {
      hide Heap, Disk, Memory, Fraction, NulFree, Lacking, Became, Flat, Merged, Without, MinFill, MinKeys;
      ParentOf(off, prevOff, disk, t, next, lo, hi, d, least, div, c, es);
      MergeFits(d - 1, order);
      if div > 0 {
        var s := nodes[prevOff].children[div - 1];
        NodesOf(off, prevOff, s, disk, t, next, lo, hi, d, least, div, c, es, div - 1);
        t' := MergesLeft(disk, Disk(), t, next, lo, hi, d, order, least, div, c, es);
        Merge(s, off, prevOff, div - 1);
      } else {
        var s := nodes[prevOff].children[div + 1];
        NodesOf(off, prevOff, s, disk, t, next, lo, hi, d, least, div, c, es, div + 1);
        t' := MergesRight(disk, Disk(), t, next, lo, hi, d, order, least, div, c, es);
        Merge(off, s, prevOff, div);
      }
    }

    /** The contents of node `s` go behind those of `off`, the separator at `i`
        between them if they are internal; `s` is given back. */
    method Merge(off: int, s: int, prevOff: int, i: nat)
      requires Heap() && (Beside(off, prevOff, s) || Beside(s, prevOff, off))
      requires nodes[off].keyCount + nodes[s].keyCount + (if nodes[off].leaf then 0 else 1) <= order - 1
      requires i < nodes[prevOff].keyCount
      modifies this`nodes, this`free, Memory()
      ensures Heap() && Memory() <= old(Memory())
      ensures var (l, r, p) := (old(Disk())[off], old(Disk())[s], old(Disk())[prevOff]);
              Disk() == (old(Disk())[off := Merged(l, p.keys[i], r)] - {s})
                          [prevOff := Without(p.(children := p.children[i + 1 := off]), i)]
    {
      hide Heap, Disk, Memory, Fraction, NulFree, Merged, Without;
      Involved(off, s, prevOff);
      ShortAt(nodes[prevOff].Value().keys, nodes[prevOff].Sizes(), i);
      AppendNode(off, s, nodes[prevOff].keys[i], nodes[prevOff].keySizes[i]);
      EraseNode(s);
      InMemory(prevOff);
      DropKey(prevOff, i, off);
    }

    lemma Involved(off: int, s: int, prevOff: int)
      requires Heap() && (Beside(off, prevOff, s) || Beside(s, prevOff, off))
      ensures off in nodes && s in nodes && prevOff in nodes && off != s && off != prevOff && s != prevOff
      ensures nodes[off].leaf == nodes[s].leaf && nodes[prevOff].Valid()
      ensures Disk()[prevOff] == nodes[prevOff].Value()
      ensures forall o | o in {off, prevOff, s} ::
                nodes[o] in Memory() && nodes[o].keys in Memory() && nodes[o].children in Memory()
    {
    }

    /** What __delete does after the key is gone: a kid that lacks a key borrows
        one or is merged. */
    method Rebalance(off: int, prevOff: int, index: nat,
                     ghost disk: Disk, ghost t: Tree, ghost next: int, ghost lo: real, ghost hi: real, ghost d: nat,
                     ghost least: int, ghost c: Tree, ghost es: seq<Entry>)
      returns (merged: bool, ghost t': Tree)
      requires Heap() && Lacking(disk, Disk(), t, next, lo, hi, d, order, least, index, c, es)
      requires off == c.off && prevOff == t.off && |t.keys| > 0
      modifies this`nodes, this`free, Memory()
      ensures Heap() && Memory() <= old(Memory())
      ensures |t'.keys| < |t.keys| ==> merged
      ensures var right := index < |t.keys| && |t.kids[index + 1].keys| > MinFill(d - 1, order);
              var left := index > 0 && |t.kids[index - 1].keys| > MinFill(d - 1, order);
              && (merged <==> !right && !left)
              && (right ==> GaveOne(old(Disk()), Disk(), t.kids[index + 1].off))
              && (!right && left ==> GaveOne(old(Disk()), Disk(), t.kids[index - 1].off))
      ensures Became(disk, Disk(), t, t', next, lo, hi, d, order, least - 1,
                     Flat(t.kids[..index]) + es + Flat(t.kids[index + 1..]))
    {
      hide Heap, Disk, Memory, Fraction, NulFree, Became, Flat, MinFill, Rep, Ok, GaveOne;
      ghost var all := Flat(t.kids[..index]) + es + Flat(t.kids[index + 1..]);
      var borrowed;
      borrowed, t' := BorrowRight(off, prevOff, index, disk, t, next, lo, hi, d, least, c, es);
      if !borrowed {
        borrowed, t' := BorrowLeft(off, prevOff, index, disk, t, next, lo, hi, d, least, c, es);
      }
      merged := !borrowed;
      if merged {
        t' := MergeNode(off, prevOff, index, disk, t, next, lo, hi, d, least, c, es);
      } else {
        BecameKeys(disk, Disk(), t, t', next, lo, hi, d, order, least, all);
        BecameFilled(disk, Disk(), t, t', next, lo, hi, d, order, least, least - 1, all);
      }
    }

    /** __delete up to the test of the fill: the key goes from the leaf, or from
        below kid `i`. */
    method DeleteFrom(rootOffset: int, key: Key,
                      ghost t: Tree, ghost next: int, ghost lo: real, ghost hi: real, ghost d: nat, ghost least: int)
      returns (success: bool, filePos: int, merged: bool, ghost t': Tree)
      requires Heap() && t.off == rootOffset && Rep(Disk(), t, next) && Ok(t, lo, hi, d, order, least)
      requires lo < Fraction(key) <= hi && (d > 0 ==> least > 0)
      modifies this`nodes, this`free, Memory()
      ensures Heap() && Memory() <= old(Memory())
      ensures Deleted(old(Disk()), Disk(), t, next, lo, hi, d, order, least, key, success, filePos, merged, t')
      decreases t, 1
    {
      hide Heap, Disk, Memory, Deleted, Fraction, NulFree, KidsRep, KidsOk, Offsets, Find;
      TopOnDisk(Disk(), t, next);
      NodeAt(rootOffset);
      if nodes[rootOffset].leaf {
        success, filePos, t' := DeleteInLeaf(rootOffset, key, t, next, lo, hi, least);
        merged := false;
      } else {
        var i, _ := FindAt(rootOffset, key);
        NodeAt(rootOffset);
        FindKid(t, lo, hi, d, order, least, key);
        success, filePos, merged, t' :=
          Delete(nodes[rootOffset].children[i], rootOffset, key, i, t, next, lo, hi, d, least);
      }
    }

    method DeleteInLeaf(off: int, key: Key, ghost t: Tree, ghost next: int, ghost lo: real, ghost hi: real, ghost least: int)
      returns (success: bool, filePos: int, ghost t': Tree)
      requires Heap() && t.off == off && t.Leaf? && Rep(Disk(), t, next) && Ok(t, lo, hi, 0, order, least)
      requires lo < Fraction(key) <= hi
      modifies Memory()
      ensures Heap() && Memory() == old(Memory())
      ensures Deleted(old(Disk()), Disk(), t, next, lo, hi, 0, order, least, key, success, filePos, false, t')
    {
      hide Heap, Disk, Memory, Find, Without, Fraction, NulFree, Has, Del, Became;
      TopOnDisk(Disk(), t, next);
      InMemory(off);
      ghost var disk := Disk();
      FindInLeaf(t.keys, t.vals, key);
      success, filePos := RemoveKey(off, key);
      t' := t;
      if success {
        t' := LeafShrinks(disk, t, next, lo, hi, order, least, key);
        assert Entries(t)[Find(t.keys, key)] == (key, filePos);
      }
    }

    /** __delete on kid `index` of `prevOff`. */
    method Delete(rootOffset: int, prevOff: int, key: Key, index: nat,
                  ghost t: Tree, ghost next: int, ghost lo: real, ghost hi: real, ghost d: nat, ghost least: int)
      returns (success: bool, filePos: int, merged: bool, ghost t': Tree)
      requires Heap() && t.off == prevOff && t.Inner? && Rep(Disk(), t, next) && Ok(t, lo, hi, d, order, least)
      requires index < |t.kids| && rootOffset == t.kids[index].off && least > 0 && d > 0
      requires lo < Fraction(key) <= hi && LoAt(t.keys, index, lo) < Fraction(key) <= HiAt(t.keys, index, hi)
      modifies this`nodes, this`free, Memory()
      ensures Heap() && Memory() <= old(Memory())
      ensures Deleted(old(Disk()), Disk(), t, next, lo, hi, d, order, least, key, success, filePos, merged, t')
      decreases t, 0
    {
      hide Heap, Disk, Memory, Fraction, NulFree, Became, Has, Del, Flat, Entries, KidsRep, KidsOk, Offsets, Rep, Ok, MinFill, MinKeys;
      ghost var disk := Disk();
      KidRep(disk, t, next, index);
      KidOk(t, lo, hi, d, order, least, index);
      WithinKid(t, lo, hi, d, order, least, index, key, 0);
      MinFillIs(d - 1);
      ghost var kid := t.kids[index];
      ghost var next', lo', hi' := NextOf(t.kids, index, next), LoAt(t.keys, index, lo), HiAt(t.keys, index, hi);
      ghost var c;
      success, filePos, merged, c := DeleteFrom(rootOffset, key, kid, next', lo', hi', d - 1, MinFill(d - 1, order));
      t' := t;
      if success {
        ghost var es := Del(Entries(kid), key);
        BecameKeys(disk, Disk(), kid, c, next', lo', hi', d - 1, order, MinFill(d - 1, order) - 1, es);
        NodeAt(rootOffset);
        if nodes[rootOffset].keyCount >= MinKeys(nodes[rootOffset].leaf) {
          t' := KidKept(disk, Disk(), t, next, lo, hi, d, order, least, index, c, es);
        } else {
          InnerOk(t, lo, hi, d, order, least);
          merged, t' := Rebalance(rootOffset, prevOff, index, disk, t, next, lo, hi, d, least, c, es);
        }
      }
    }

    lemma MinFillIs(d: nat)
      ensures 1 <= MinFill(d, order) == MinKeys(d == 0)
    {
    }

    /** btreeDelete: the position the key had, or 0. The nodes of an empty tree
        cannot be read. */
    method Remove(key: Key) returns (filePos: int)
      requires Valid() && root != 0
      modifies this, Memory()
      ensures Valid() && Memory() <= old(Memory())
      ensures filePos == if key in old(Positions()) then old(Positions())[key] else 0
      ensures Contents() == Del(old(Contents()), key)
      ensures Positions() == old(Positions()) - {key}
    {
      hide Fraction, NulFree, FreeIsApart, Heap, Disk, Memory, Became, Del, Entries, Dict, Ok, Rep, Has, Placed;
      PlacedDel(Entries(tree), key);
      ghost var disk, es := Disk(), Del(Entries(tree), key);
      DeletedEntries(tree, depth, order, key);
      var success, merged;
      ghost var t';
      success, filePos, merged, t' := DeleteFrom(root, key, tree, 0, LOW, HIGH, depth, 1);
      if !success {
        return 0;
      }
      PositionOf(tree, depth, order, key, filePos);
      size := size - 1;
      Settle(merged, disk, t', es);
    }

    /** The end of btreeDelete: a root that lost its last key goes. */
    method Settle(merged: bool, ghost disk: Disk, ghost t': Tree, ghost es: seq<Entry>)
      requires Heap() && root != 0 && root == tree.off && leftLeaf == First(tree) && tree.keys != [] && size == |es| && Placed(es)
      requires disk.Keys == Offsets(tree) && Became(disk, Disk(), tree, t', 0, LOW, HIGH, depth, order, 0, es)
      requires depth > 0 && |t'.keys| < |tree.keys| ==> merged
      modifies this`root, this`size, this`tree, this`depth, this`nodes, this`free
      ensures Valid() && Contents() == es && Memory() <= old(Memory())
    {
      hide Fraction, NulFree, FreeIsApart, Heap, Disk, Memory, Became, Whole, Entries, Placed;
      BecameKeys(disk, Disk(), tree, t', 0, LOW, HIGH, depth, order, 0, es);
      NodeAt(root);
      var rootNode := nodes[root];
      if rootNode.leaf && rootNode.keyCount == 0 {
        Vanishes(disk, Disk(), tree, t', order, es);
        EraseNode(root);
        assert nodes == map[] by {
          assert Disk().Keys == {};
        }
        root := 0;
      } else if merged && rootNode.keyCount == 0 {
        ghost var kid := Collapses(disk, Disk(), tree, t', depth, order, es);
        var first := rootNode.children[0];
        assert first == Disk()[root].children[0];
        NodeAt(first);
        EraseNode(root);
        root, tree, depth := first, kid, depth - 1;
      } else {
        StaysWhole(disk, Disk(), tree, t', depth, order, es);
        assert this !in Memory();
        tree := t';
      }
    }

    // ---------- search ----------

    /** __search */
    method Search(rootOffset: int, key: Key,
                  ghost t: Tree, ghost next: int, ghost lo: real, ghost hi: real, ghost d: nat, ghost least: int)
      returns (found: bool, filePos: int)
      requires Heap() && t.off == rootOffset && Rep(Disk(), t, next) && Ok(t, lo, hi, d, order, least)
      requires lo < Fraction(key) <= hi
      ensures found <==> Has(Entries(t), key)
      ensures found ==> (key, filePos) in Entries(t)
      decreases t
    {
      hide Heap, Disk, Memory, Fraction, NulFree, KidsRep, KidsOk, Offsets, Find, Has, LeafOk;
      TopOnDisk(Disk(), t, next);
      NodeAt(rootOffset);
      ghost var disk := Disk();
      var i, there := FindAt(rootOffset, key);
      NodeAt(rootOffset);
      if nodes[rootOffset].leaf {
        SearchLeaf(disk, t, next, lo, hi, order, least, key);
        filePos := nodes[rootOffset].children[i];
        assert filePos == disk[rootOffset].children[i];
        return there, filePos;
      }
      FindKid(t, lo, hi, d, order, least, key);
      KidRep(disk, t, next, i);
      KidOk(t, lo, hi, d, order, least, i);
      WithinKid(t, lo, hi, d, order, least, i, key, 0);
      assert nodes[rootOffset].children[i] == disk[rootOffset].children[i];
      found, filePos := Search(nodes[rootOffset].children[i], key, t.kids[i], NextOf(t.kids, i, next),
                               LoAt(t.keys, i, lo), HiAt(t.keys, i, hi), d - 1, MinFill(d - 1, order));
    }

    /** btreeSearch */
    method Get(key: Key) returns (filePos: int)
      requires Valid()
      ensures filePos == if key in Positions() then Positions()[key] else 0
      ensures filePos == 0 <==> key !in Positions()
    {
      hide Fraction, NulFree, Heap, Disk, Memory, Rep, Ok, Entries, Dict, Has;
      if root == 0 {
        DictHas([], key);
        NothingHas(key);
        return 0;
      }
      var found;
      found, filePos := Search(root, key, tree, 0, LOW, HIGH, depth, 1);
      DeletedEntries(tree, depth, order, key);
      if found {
        PositionOf(tree, depth, order, key, filePos);
      } else {
        filePos := 0;
      }
    }
  }
}
