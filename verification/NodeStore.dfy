/** B+Tree nodes in a file of blocks: from one node object to the file, and from
    the file to another. */
module NodeStore {
  import BTree
  import BTreeGrow
  import opened BTreeShape
  import BlockChain
  import opened BlockStore
  import opened BTreeNode
  import opened NodeBlock
  import opened NodeCodec
  import opened Options

  const NODE_BLOCK := 3 // GDB_BLOCK_BTREE_NODE
  const LEAF_FLAG := 16 // BTREE_FLAG_LEAF behind the flags of the block itself

  /** BTREE_IS_LEAF */
  function IsLeaf(flags: nat): bool {
    flags / LEAF_FLAG % 2 == 1
  }

  /** The bytes of a node are in the store. */
  ghost predicate Saved(cs: Contents, o: nat, leaf: bool, order: nat, keys: seq<Key>, zs: seq<nat>, children: seq<nat>)
    requires order > 0 && Distinct(keys, zs) && Writable(keys, zs)
  {
    && o in cs && cs[o].t == NODE_BLOCK && cs[o].flags < 0x10000 && IsLeaf(cs[o].flags) == leaf
    && cs[o].listNext < 0x1_0000_0000 && cs[o].data == Encoded(order, keys, zs, children)
  }

  /** btreeWriteNode for a new node: all other blocks keep their contents. There
      is no block when a buffer is too small for the coded keys. */
  method SaveNode(store: Store, node: Node) returns (o: Option<nat>)
    requires store.Valid() && node.Shaped()
    requires Fits(node.order, node.keys[..node.keyCount], node.Sizes(), node.children[..])
    modifies store`open, store`data, store.db
    ensures store.Valid()
    ensures o.Some? <==> Writable(node.keys[..node.keyCount], node.Sizes())
    ensures o.Some? ==>
              && o.value !in old(store.open) && o.value in store.open
              && Saved(store.ContentsOf(), o.value, node.leaf, node.order, node.keys[..node.keyCount], node.Sizes(),
                       node.children[..])
              && store.ContentsOf() - {o.value} == old(store.ContentsOf())
  {
    hide Encoded, Writable, Distinct, Whole, Saved, store.ContentsOf;
    var buffer := WriteNodeBlock(node);
    if buffer == None {
      return None;
    }
    ghost var keys, zs, children := node.keys[..node.keyCount], node.Sizes(), node.children[..];
    EncodedIsSomething(node.order, keys, zs, children);
    ghost var cs := store.ContentsOf();
    var off := store.Add(NODE_BLOCK, if node.leaf then LEAF_FLAG else 0, 0, buffer.value[..]);
    JustSaved(cs, off, node.leaf, node.order, keys, zs, children);
    o := Some(off);
  }

  lemma JustSaved(cs: Contents, o: nat, leaf: bool, order: nat, keys: seq<Key>, zs: seq<nat>, children: seq<nat>)
    requires order > 0 && o !in cs && Distinct(keys, zs) && Writable(keys, zs)
    ensures var c := BlockChain.Content(NODE_BLOCK, if leaf then LEAF_FLAG else 0, 0, Encoded(order, keys, zs, children));
            Saved(cs[o := c], o, leaf, order, keys, zs, children) && cs[o := c] - {o} == cs
  {
    hide Encoded, Writable, Distinct;
  }

  lemma EncodedIsSomething(order: nat, keys: seq<Key>, zs: seq<nat>, children: seq<nat>)
    requires order > 0 && Distinct(keys, zs) && Writable(keys, zs)
    ensures Encoded(order, keys, zs, children) != []
  {
  }

  /** btreeReadNode for a node that is not in memory. Whatever happened to other
      blocks since it was written, it is the node that was written, exactly if all
      of its keys are legible. */
  method LoadNode(store: Store, o: nat, order: nat,
                  ghost leaf: bool, ghost keys: seq<Key>, ghost zs: seq<nat>, ghost children: seq<nat>)
    returns (read: Option<Node>)
    requires store.Valid() && Fits(order, keys, zs, children) && Writable(keys, zs)
    requires Saved(store.ContentsOf(), o, leaf, order, keys, zs, children)
    requires |store.db.file| <= 0x1_0000_0000 && |Encoded(order, keys, zs, children)| < 0x1_0000_0000
    modifies store.db`fpos
    ensures store.Valid()
    ensures read.Some? ==> read.value.Shaped() && read.value.leaf == leaf && read.value.children[..] == children
                           && read.value.keyCount == |keys|
    ensures read.Some? && read.value.keys[..|keys|] == keys <==> AllLegible(keys, zs, |keys|)
    ensures AllLegible(keys, zs, |keys|) ==> read.value.Sizes() == zs
  {
    hide Encoded, Distinct, Writable, AllLegible, Decoded, CString, Whole;
    EncodedIsSomething(order, keys, zs, children);
    var block, buffer := store.Load(o);
    read := ReadNodeBlock(buffer, order, IsLeaf(block.flags), keys, zs, children);
    RestoredExactly(keys, zs, |keys|);
    if read.Some? {
      SameKeys(keys, zs, read.value.keys[..|keys|], read.value.Sizes());
    }
  }

  /** So no tree loses a node whose keys have at most 126 bytes, whatever was
      inserted into it and deleted from it. */
  lemma TreeNodeIsLegible(tree: BTree.BTree, off: int)
    requires tree.Valid() && off in tree.nodes
    requires forall i | 0 <= i < tree.nodes[off].keyCount :: |tree.nodes[off].keys[i]| < MOST
    ensures var node := tree.nodes[off];
            && node.Valid() && Distinct(node.Value().keys, node.Sizes())
            && AllLegible(node.Value().keys, node.Sizes(), node.keyCount)
  {
    hide AllLegible, BTree.FreeIsApart, Ok, Rep;
    var keys, zs := tree.nodes[off].Value().keys, tree.nodes[off].Sizes();
    assert tree.nodes[off].Valid();
    assert off in tree.Disk() && tree.Disk()[off].keys == keys;
    NodeKeysRise(tree.Disk(), tree.tree, 0, BTreeGrow.LOW, BTreeGrow.HIGH, tree.depth, tree.order, 1, off);
    ShortKeysLegible(keys, zs);
  }
}
