/** Walking the linked leaves of a B+Tree, and whole runs of operations. */
module BTreeScan {
  import opened ByteOrder
  import opened BTreeShape
  import opened BTreeNode
  import opened BTreeGrow
  import opened BTree

  // ---------- the leaves ----------

  ghost function Leaves(t: Tree): seq<Tree>
    decreases t
  {
    match t
    case Leaf(_, _, _) => [t]
    case Inner(_, _, kids) => LeavesOf(kids)
  }

  ghost function LeavesOf(kids: seq<Tree>): seq<Tree>
    decreases kids
  {
    if kids == [] then [] else Leaves(kids[0]) + LeavesOf(kids[1..])
  }

  /** Each leaf is on disk, has a key, and links to the one behind it. */
  ghost predicate Chain(disk: Disk, leaves: seq<Tree>, next: int) {
    forall i | 0 <= i < |leaves| ::
      && leaves[i].Leaf? && leaves[i].keys != [] && |leaves[i].vals| == |leaves[i].keys|
      && leaves[i].off in disk
      && disk[leaves[i].off] == NodeV(true, leaves[i].keys, leaves[i].vals + [Behind(leaves, i, next)])
  }

  ghost function Behind(leaves: seq<Tree>, i: int, next: int): int {
    if 0 <= i < |leaves| - 1 then leaves[i + 1].off else next
  }

  lemma ChainJoin(disk: Disk, a: seq<Tree>, b: seq<Tree>, next: int)
    requires b != [] && Chain(disk, a, b[0].off) && Chain(disk, b, next)
    ensures Chain(disk, a + b, next)
  {
  }

  /** The leaves of a subtree form a chain from its first leaf on, and hold its
      entries in order. */
  lemma {:induction false} LeavesChain(disk: Disk, t: Tree, next: int, lo: real, hi: real, d: nat, order: nat, least: int)
    requires Rep(disk, t, next) && Ok(t, lo, hi, d, order, least) && least >= 1 && order >= 3
    ensures Leaves(t) != [] && Leaves(t)[0].off == First(t)
    ensures Chain(disk, Leaves(t), next) && Flat(Leaves(t)) == Entries(t)
    decreases t, 1
  {
    if t.Leaf? {
      FlatOne(t);
    } else {
      KidsChain(disk, t, next, lo, hi, d, order, least, 0);
      assert t.kids[0..] == t.kids;
    }
  }

  lemma {:induction false} KidsChain(disk: Disk, t: Tree, next: int, lo: real, hi: real, d: nat, order: nat, least: int, i: nat)
    requires t.Inner? && Rep(disk, t, next) && Ok(t, lo, hi, d, order, least) && least >= 1 && order >= 3 && i < |t.kids|
    ensures LeavesOf(t.kids[i..]) != [] && LeavesOf(t.kids[i..])[0].off == First(t.kids[i])
    ensures Chain(disk, LeavesOf(t.kids[i..]), next) && Flat(LeavesOf(t.kids[i..])) == Flat(t.kids[i..])
    decreases t, 0, |t.kids| - i
  {
    hide Rep, Ok, Chain, First, Flat, Entries, KidsRep, Offsets, LoAt, HiAt;
    var kid, rest := t.kids[i], t.kids[i + 1..];
    KidRep(disk, t, next, i);
    KidChainOk(t, lo, hi, d, order, least, i);
    LeavesChain(disk, kid, NextOf(t.kids, i, next), LoAt(t.keys, i, lo), HiAt(t.keys, i, hi), d - 1, order, MinFill(d - 1, order));
    assert t.kids[i..] == [kid] + rest;
    assert t.kids[i..][1..] == rest;
    FlatAppend([kid], rest);
    FlatOne(kid);
    if i + 1 < |t.kids| {
      KidsChain(disk, t, next, lo, hi, d, order, least, i + 1);
      ChainJoin(disk, Leaves(kid), LeavesOf(rest), next);
      FlatAppend(Leaves(kid), LeavesOf(rest));
    } else {
      assert rest == [] && LeavesOf(rest) == [];
      assert Leaves(kid) + [] == Leaves(kid);
      NoKids();
    }
  }

  lemma NoKids()
    ensures Flat([]) == []
  {
  }

  lemma KidChainOk(t: Tree, lo: real, hi: real, d: nat, order: nat, least: int, i: nat)
    requires t.Inner? && Ok(t, lo, hi, d, order, least) && i < |t.kids| && order >= 3
    ensures d > 0 && MinFill(d - 1, order) >= 1
    ensures Ok(t.kids[i], LoAt(t.keys, i, lo), HiAt(t.keys, i, hi), d - 1, order, MinFill(d - 1, order))
  {
  }

  /** A tree with a root has entries. */
  lemma NotEmpty(disk: Disk, t: Tree, d: nat, order: nat)
    requires Rep(disk, t, 0) && Ok(t, LOW, HIGH, d, order, 1) && order >= 3
    ensures Entries(t) != [] && Dict(Entries(t)) != map[]
  {
    hide Rep, Ok;
    LeavesChain(disk, t, 0, LOW, HIGH, d, order, 1);
    assert Entries(Leaves(t)[0]) != [];
    assert Entries(t)[0].0 in Dict(Entries(t));
  }

  /** The entries from position `pos` of leaf `leaf` on. */
  ghost function Rest(leaves: seq<Tree>, leaf: nat, pos: nat): seq<Entry> {
    if leaf >= |leaves| then [] else
    var here := Entries(leaves[leaf]);
    (if pos <= |here| then here[pos..] else []) + Flat(leaves[leaf + 1..])
  }

  lemma RestEnds(leaves: seq<Tree>, leaf: nat)
    requires leaf >= |leaves|
    ensures Rest(leaves, leaf, 0) == []
  {
  }

  lemma RestIsAll(leaves: seq<Tree>)
    requires leaves != []
    ensures Rest(leaves, 0, 0) == Flat(leaves)
  {
    FlatAt(leaves, 0);
    assert leaves[0..] == leaves;
  }

  lemma RestStep(leaves: seq<Tree>, leaf: nat, pos: nat)
    requires leaf < |leaves| && leaves[leaf].Leaf? && |leaves[leaf].vals| == |leaves[leaf].keys| >= pos
    ensures var (l, rest) := (leaves[leaf], Rest(leaves, leaf, pos));
            if pos < |l.keys| then rest != [] && rest[0].1 == l.vals[pos] && rest[1..] == Rest(leaves, leaf, pos + 1)
            else rest == Rest(leaves, leaf + 1, 0)
  {
    if pos == |leaves[leaf].keys| {
      if leaf + 1 < |leaves| {
        FlatAt(leaves, leaf + 1);
      } else {
        assert leaves[leaf + 1..] == [];
      }
    }
  }

  // ---------- the traversal ----------

  lemma FirstLeaf(tree: BTree)
    requires tree.Valid() && tree.root != 0
    ensures Leaves(tree.tree) != [] && Leaves(tree.tree)[0].off == tree.leftLeaf
    ensures Flat(Leaves(tree.tree)) == tree.Contents()
    ensures Chain(tree.Disk(), Leaves(tree.tree), 0)
  {
    hide Rep, Ok, Chain, Flat, Entries, First, Leaves;
    LeavesChain(tree.Disk(), tree.tree, 0, LOW, HIGH, tree.depth, tree.order, 1);
  }

  /** What the node of leaf `j` holds. */
  lemma LeafAt(tree: BTree, j: nat)
    requires tree.Valid() && tree.root != 0 && j < |Leaves(tree.tree)|
    ensures var l := Leaves(tree.tree)[j];
            && l.Leaf? && l.off in tree.nodes && l.off >= HEADER_BLOCK && |l.vals| == |l.keys| > 0
            && var n := tree.nodes[l.off];
            && n.Valid() && n.keyCount == |l.keys| && n.children[..n.keyCount + 1] == l.vals + [Behind(Leaves(tree.tree), j, 0)]
  {
    hide Rep, Ok, Flat, Entries, First, Leaves;
    FirstLeaf(tree);
    var off := Leaves(tree.tree)[j].off;
    tree.NodeAt(off);
    assert tree.nodes[off].Value().children == Leaves(tree.tree)[j].vals + [Behind(Leaves(tree.tree), j, 0)];
  }

  lemma FlatAt(leaves: seq<Tree>, j: nat)
    requires j < |leaves|
    ensures Flat(leaves[j..]) == Entries(leaves[j]) + Flat(leaves[j + 1..])
  {
    assert leaves[j..][1..] == leaves[j + 1..];
  }

  /** BTreeTraversal: a leaf and a position in it. */
  class Traversal {
    const tree: BTree
    var node: Node?
    var pos: nat
    /** The number of the leaf. */
    ghost var leaf: nat

    /** The traversal has not ended, and stands inside a leaf of its tree. */
    ghost predicate Valid()
      reads this, tree, tree.Memory()
    {
      && tree.Valid() && this !in tree.Memory()
      && (node != null ==>
            && tree.root != 0 && leaf < |Leaves(tree.tree)| && Leaves(tree.tree)[leaf].off in tree.nodes
            && node == tree.nodes[Leaves(tree.tree)[leaf].off] && pos <= |Leaves(tree.tree)[leaf].keys|)
    }

    /** The entries that are still to come. */
    ghost function Ahead(): seq<Entry>
      requires Valid()
      reads this, tree, tree.Memory()
    {
      if node == null then tree.Contents() else Rest(Leaves(tree.tree), leaf, pos)
    }

    /** btreeInitTraversal */
    constructor (tree: BTree)
      requires tree.Valid()
      ensures Valid() && this.tree == tree && node == null
    {
      this.tree := tree;
      node := null;
      pos := 0;
      leaf := 0;
      new;
      assert this !in tree.Memory();
    }

    /** btreeGetFirstOffset; a tree that became empty keeps a link to a leaf that
        was given back. */
    method GetFirstOffset() returns (offset: int)
      requires Valid() && (tree.root != 0 || tree.leftLeaf == 0)
      modifies this
      ensures Valid()
      ensures old(Ahead()) == [] ==> offset == -1 && node == null
      ensures old(Ahead()) != [] ==> offset == old(Ahead())[0].1 && node != null && Ahead() == old(Ahead())[1..]
    {
      hide Leaves, Flat, Entries, Rest, BTree.Heap, BTree.Disk, BTree.Memory, BTree.Valid;
      if node != null {
        offset := GetNextOffset();
        return;
      }
      if tree.leftLeaf < HEADER_BLOCK {
        if tree.root != 0 {
          FirstLeaf(tree);
          LeafAt(tree, 0);
        }
        return -1;
      }
      FirstLeaf(tree);
      LeafAt(tree, 0);
      RestIsAll(Leaves(tree.tree));
      RestStep(Leaves(tree.tree), 0, 0);
      node := tree.nodes[tree.leftLeaf];
      leaf := 0;
      pos := 1;
      offset := node.children[..node.keyCount + 1][0];
    }

    /** btreeGetNextOffset; a traversal that ended must not be asked again. */
    method GetNextOffset() returns (offset: int)
      requires Valid() && node != null
      modifies this
      ensures Valid()
      ensures old(Ahead()) == [] ==> offset == -1 && node == null
      ensures old(Ahead()) != [] ==> offset == old(Ahead())[0].1 && node != null && Ahead() == old(Ahead())[1..]
    {
      hide Leaves, Flat, Rest, Entries, BTree.Heap, BTree.Disk, BTree.Memory, BTree.Valid, BTree.Contents;
      ghost var leaves := Leaves(tree.tree);
      LeafAt(tree, leaf);
      RestStep(leaves, leaf, pos);
      if leaf + 1 < |leaves| {
        LeafAt(tree, leaf + 1);
        RestStep(leaves, leaf + 1, 0);
      } else {
        RestEnds(leaves, leaf + 1);
      }
      if pos == node.keyCount {
        var next := node.children[..node.keyCount + 1][pos];
        node := null;
        if next == 0 {
          return -1;
        }
        node := tree.nodes[next];
        leaf := leaf + 1;
        pos := 0;
      }
      offset := node.children[..node.keyCount + 1][pos];
      pos := pos + 1;
    }
  }

  /** The positions up to the first that reads as the end mark. */
  function UpToMark(es: seq<Entry>): seq<int> {
    if es == [] || es[0].1 == -1 then [] else [es[0].1] + UpToMark(es[1..])
  }

  /** They come in order and end only at the first -1, so that they are all of
      them exactly if none is -1. */
  lemma {:induction false} AllPassed(es: seq<Entry>)
    ensures |UpToMark(es)| <= |es|
    ensures forall i | 0 <= i < |UpToMark(es)| :: UpToMark(es)[i] == es[i].1 && es[i].1 != -1
    ensures |UpToMark(es)| < |es| ==> es[|UpToMark(es)|].1 == -1
    ensures |UpToMark(es)| == |es| <==> forall i | 0 <= i < |es| :: es[i].1 != -1
  {
    if es != [] && es[0].1 != -1 {
      AllPassed(es[1..]);
      assert forall i | 0 < i < |es| :: es[i] == es[1..][i - 1];
      assert |UpToMark(es)| == |es| ==> forall i | 0 <= i < |es[1..]| :: es[1..][i].1 != -1;
    }
  }

  /** btreeTraverse; the offsets are collected instead of handed to a function. */
  method Traverse(tree: BTree) returns (offsets: seq<int>)
    requires tree.Valid() && (tree.root != 0 || tree.leftLeaf == 0)
    ensures offsets == UpToMark(tree.Contents())
  {
    hide Leaves, Flat, Entries, Rest, BTree.Heap, BTree.Disk, BTree.Memory, BTree.Valid, BTree.Contents, Traversal.Valid, UpToMark;
    var trav := new Traversal(tree);
    offsets := [];
    ghost var all := tree.Contents();
    ghost var n := 0;
    var offset := trav.GetFirstOffset();
    UpToEnd(all, n);
    while offset != -1
      invariant trav.Valid() && trav.tree == tree && n <= |all|
      invariant offset != -1 ==> trav.node != null && n < |all| && offset == all[n].1 && trav.Ahead() == all[n + 1..]
      invariant UpToMark(all) == offsets + UpToMark(all[n..])
      invariant offset == -1 ==> UpToMark(all[n..]) == []
      decreases |all| - n
    {
      UpToNext(all, n);
      offsets := offsets + [offset];
      n := n + 1;
      offset := trav.GetNextOffset();
      UpToEnd(all, n);
    }
  }

  /** A tree with a key at -1, which a traversal does not pass. */
  method PassesNothing(order: Order, key: Key) returns (tree: BTree, offsets: seq<int>)
    ensures tree.Valid() && tree.Positions() == map[key := -1]
    ensures offsets == []
  {
    hide BTree.Heap, BTree.Disk, BTree.Valid, BTree.Contents;
    tree := new BTree(order);
    var _ := tree.Insert(key, -1, false);
    ContentsInOrder(tree);
    assert |map[key := -1]| == 1 && tree.Contents()[0].1 == -1;
    offsets := Traverse(tree);
  }

  lemma UpToNext(es: seq<Entry>, n: nat)
    requires n < |es| && es[n].1 != -1
    ensures UpToMark(es[n..]) == [es[n].1] + UpToMark(es[n + 1..])
  {
    assert es[n..][1..] == es[n + 1..];
  }

  lemma UpToEnd(es: seq<Entry>, n: nat)
    requires n <= |es|
    ensures es[n..] == [] || es[n..][0].1 == -1 ==> UpToMark(es[n..]) == []
  {
  }

  /** The entries are exactly the map, each key once, in ascending order of the
      bytes of the keys. */
  lemma ContentsInOrder(tree: BTree)
    requires tree.Valid()
    ensures forall i, j | 0 <= i < j < |tree.Contents()| :: Precedes(tree.Contents()[i].0, tree.Contents()[j].0)
    ensures forall i | 0 <= i < |tree.Contents()| ::
              tree.Contents()[i].0 in tree.Positions() && tree.Positions()[tree.Contents()[i].0] == tree.Contents()[i].1
    ensures tree.size == |tree.Contents()| == |tree.Positions()|
    ensures tree.root == 0 <==> tree.Positions() == map[]
  {
    hide Rep, Ok, Entries, Fraction, NulFree, Dict, Precedes;
    var es := tree.Contents();
    if tree.root != 0 {
      EntriesRise(tree.tree, LOW, HIGH, tree.depth, tree.order, 1);
      NotEmpty(tree.Disk(), tree.tree, tree.depth, tree.order);
    }
    DictSize(es);
    forall i, j | 0 <= i < j < |es|
      ensures Precedes(es[i].0, es[j].0)
    {
      StrCmpByBytes(es[i].0, es[j].0);
      assert StrCmp(es[i].0, es[j].0) < 0;
    }
    forall i | 0 <= i < |es|
      ensures es[i].0 in Dict(es) && Dict(es)[es[i].0] == es[i].1
    {
      DictAt(es, i);
    }
  }

  // ---------- runs ----------

  datatype Update = InsertOp(key: Key, filePos: int, replaceDup: bool) | DeleteOp(key: Key)

  /** What one call does to a plain map. */
  function Applied(m: map<Key, int>, u: Update): map<Key, int> {
    match u
    case InsertOp(k, p, dup) => if p == 0 || (k in m && !dup) then m else m[k := p]
    case DeleteOp(k) => m - {k}
  }

  function AppliedAll(m: map<Key, int>, us: seq<Update>): map<Key, int> {
    if us == [] then m else Applied(AppliedAll(m, us[..|us| - 1]), us[|us| - 1])
  }

  /** Nothing is deleted from an empty tree. */
  predicate Callable(m: map<Key, int>, us: seq<Update>) {
    forall i | 0 <= i < |us| && us[i].DeleteOp? :: AppliedAll(m, us[..i]) != map[]
  }

  method ApplyOne(tree: BTree, u: Update)
    requires tree.Valid() && (u.DeleteOp? ==> tree.Positions() != map[])
    modifies tree, tree.Memory()
    ensures forall o <- tree.Memory() :: o in old(tree.Memory()) || fresh(o)
    ensures tree.Valid() && tree.Positions() == Applied(old(tree.Positions()), u)
  {
    hide BTree.Heap, BTree.Disk, BTree.Memory, Fraction, NulFree, Entries, Rep, Ok, Whole;
    ContentsInOrder(tree);
    match u
    case InsertOp(k, p, dup) =>
      var _ := tree.Insert(k, p, dup);
    case DeleteOp(k) =>
      var _ := tree.Remove(k);
  }

  /** Any run of insertions and deletions leaves a B+Tree that stands for the map
      the same updates make of a plain map, with its size. */
  method Run(tree: BTree, us: seq<Update>)
    requires tree.Valid() && Callable(tree.Positions(), us)
    modifies tree, tree.Memory()
    ensures forall o <- tree.Memory() :: o in old(tree.Memory()) || fresh(o)
    ensures tree.Valid() && tree.Positions() == AppliedAll(old(tree.Positions()), us)
    ensures tree.size == |AppliedAll(old(tree.Positions()), us)|
  {
    hide BTree.Heap, BTree.Disk, BTree.Memory, BTree.Valid, BTree.Positions, Applied;
    var i := 0;
    while i < |us|
      invariant 0 <= i <= |us|
      invariant forall o <- tree.Memory() :: o in old(tree.Memory()) || fresh(o)
      invariant tree.Valid() && tree.Positions() == AppliedAll(old(tree.Positions()), us[..i])
    {
      assert us[..i + 1][..|us[..i + 1]| - 1] == us[..i];
      ApplyOne(tree, us[i]);
      i := i + 1;
    }
    assert us[..i] == us;
    ContentsInOrder(tree);
  }
}
