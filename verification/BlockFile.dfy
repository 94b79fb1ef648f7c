/** A file of fixed-size blocks: reserving, freeing, and chains of blocks that
    hold data of any size. */
module BlockFile {
  import opened ByteOrder
  import opened BlockSpace
  import opened CabinSort

  const HEADER: nat := 15 // GDB_BLOCK_HEADER_SIZE
  const LINK: nat := 4 // sizeof(offset_t)
  const START: nat := 16 + 2048 // behind the header block and the free list

  /** GDB_BLOCK_DATA to GDB_BLOCK_OFFSET_LIST */
  type BlockType = t: nat | 1 <= t <= 5 witness 1

  /** blockTypeInfo: the size of the blocks of each type. */
  function Multiple(t: BlockType): (m: nat)
    ensures m > HEADER && m > LINK
  {
    if t == 3 then 128 else if t == 1 || t == 4 then 64 else 32
  }

  // ---------- sorting ----------

  function OffsetCmp(a: nat, b: nat): int {
    if a < b then -1 else if a > b then 1 else 0
  }

  function BlockCmp(a: FreeBlock, b: FreeBlock): int {
    if a.size > b.size then 1
    else if a.size < b.size then -1
    else if a.offset > b.offset then 1
    else if a.offset < b.offset then -1
    else 0
  }

  method Sort<T(!new)>(s: seq<T>, cmp: (T, T) -> int) returns (t: seq<T>)
    requires Preorder(cmp)
    ensures Permuted(s, t) && Sorted(cmp, t)
  {
    if s == [] {
      t := [];
      return;
    }
    hide Preorder, Sorted;
    var a := new T[|s|](i requires 0 <= i < |s| => s[i]);
    assert a[0..|s|] == s;
    QuickSort(a, 0, |s|, cmp);
    t := a[0..|s|];
  }

  /** Sorted offsets, each once, are strictly ascending. */
  lemma Ascending(chain: seq<nat>, sorted: seq<nat>)
    requires Permuted(chain, sorted) && Sorted(OffsetCmp, sorted)
    requires forall i, j | 0 <= i < j < |chain| :: chain[i] != chain[j]
    ensures forall i, j | 0 <= i < j < |sorted| :: sorted[i] < sorted[j]
    ensures Offsets(sorted) == Offsets(chain)
  {
    assert forall o :: o in sorted <==> o in multiset(sorted);
    assert forall o :: o in chain <==> o in multiset(chain);
    forall i, j | 0 <= i < j < |sorted|
      ensures sorted[i] < sorted[j]
    {
      assert OffsetCmp(sorted[i], sorted[j]) <= 0;
      if sorted[i] == sorted[j] {
        Twice(sorted, i, j);
        OnceIn(chain, sorted[i]);
      }
    }
  }

  lemma OnceIn(s: seq<nat>, x: nat)
    requires forall i, j | 0 <= i < j < |s| :: s[i] != s[j]
    ensures multiset(s)[x] <= 1
  {
    if x in s {
      var i :| 0 <= i < |s| && s[i] == x;
      assert s == s[..i] + [s[i]] + s[i + 1..];
      assert x !in s[..i] && x !in s[i + 1..];
    }
  }

  // ---------- the file ----------

  class BlockFile {
    var file: Bytes
    var fpos: nat
    var free: seq<FreeBlock>
    ghost var tiles: Tiles
    ghost var held: set<nat>

    ghost predicate Valid()
      reads this
    {
      Conserved(tiles, held, multiset(free), START, |file|)
    }

    /** A new database: the header block and an empty free list. */
    constructor ()
      ensures Valid() && |file| == START && free == [] && held == {}
    {
      file := seq(START, _ => 0);
      fpos, free, tiles, held := 0, [], map[], {};
    }

    /** The loop that fills a chain from the free list. */
    method TakeFree(count: nat, size: nat) returns (chain: seq<nat>, rest: seq<FreeBlock>)
      ensures chain == Taken(free, size, count) && rest == Left(free, size, count)
    {
      chain, rest := [], [];
      var i := 0;
      while i < |free|
        invariant 0 <= i <= |free|
        invariant chain == Taken(free[..i], size, count) && rest == Left(free[..i], size, count)
      {
        assert free[..i + 1][..i] == free[..i];
        if |chain| < count && free[i].size == size {
          chain := chain + [free[i].offset];
        } else {
          rest := rest + [free[i]];
        }
        i := i + 1;
      }
      assert free[..i] == free;
    }

    /** A new block at the end of the file. */
    method Extend(size: nat) returns (o: nat)
      requires Valid() && size > 0
      modifies this`file, this`tiles, this`held
      ensures Valid() && o == old(|file|) && o !in old(tiles)
      ensures file == old(file) + seq(size, _ => 0) && tiles == old(tiles)[o := size] && held == old(held) + {o}
    {
      hide Conserved;
      ConservedGrows(tiles, held, multiset(free), START, |file|, size);
      o := |file|;
      file := file + seq(size, _ => 0);
      tiles, held := tiles[o := size], held + {o};
    }

    /** The new blocks of a chain: one behind the other at the end of the file. */
    method ExtendAll(count: nat, size: nat) returns (chain: seq<nat>)
      requires Valid() && size > 0
      modifies this`file, this`tiles, this`held
      ensures Valid() && |chain| == count && |file| == old(|file|) + count * size && file[..old(|file|)] == old(file)
      ensures Added(old(tiles), tiles, chain, size) && held == old(held) + Offsets(chain)
    {
      hide Valid, Added, Offsets;
      chain := [];
      NoneAdded(tiles, size);
      var n := 0;
      while n < count
        invariant Valid() && n == |chain| <= count
        invariant |file| == old(|file|) + n * size && file[..old(|file|)] == old(file)
        invariant Added(old(tiles), tiles, chain, size) && held == old(held) + Offsets(chain)
      {
        ghost var was, t := file, tiles;
        var o := Extend(size);
        assert file[..old(|file|)] == was[..old(|file|)];
        OneAdded(old(tiles), t, chain, size, o);
        chain := chain + [o];
        NextTile(n + 1, size);
        n := n + 1;
      }
    }

    /** gdbReserveBlockChain: matching free blocks first, then new ones. */
    method Reserve(count: nat, t: BlockType) returns (chain: seq<nat>)
      requires Valid()
      modifies this`file, this`free, this`tiles, this`held
      ensures Valid() && |chain| == count
      ensures forall i, j | 0 <= i < j < count :: chain[i] < chain[j]
      ensures forall o | o in chain :: o !in old(held) && o in tiles && tiles[o] == Multiple(t)
      ensures held == old(held) + Offsets(chain)
      ensures forall o <- old(tiles) :: o in tiles && tiles[o] == old(tiles)[o]
      ensures var fitting := Fitting(old(free), Multiple(t));
              |file| == old(|file|) + Multiple(t) * if fitting < count then count - fitting else 0
      ensures file[..old(|file|)] == old(file)
    {
      hide Valid, Offsets, Preorder, Permuted, Sorted, OffsetCmp;
      var size := Multiple(t);
      ghost var tiles0, held0 := tiles, held;
      var taken := TakeAway(count, size);
      var more := ExtendAll(count - |taken|, size);
      TogetherOnce(taken, more, tiles0, tiles, held0, size);
      CmpIsPreorder();
      chain := Sort(taken + more, OffsetCmp);
      Ascending(taken + more, chain);
      SameMembers(taken + more, chain);
    }

    /** The part that the free list supplies. */
    method TakeAway(count: nat, size: nat) returns (taken: seq<nat>)
      requires Valid()
      modifies this`free, this`held
      ensures Valid() && held == old(held) + Offsets(taken)
      ensures |taken| == if Fitting(old(free), size) < count then Fitting(old(free), size) else count
      ensures forall o | o in taken :: o in tiles && tiles[o] == size && o !in old(held)
      ensures forall i, j | 0 <= i < j < |taken| :: taken[i] != taken[j]
      ensures old(held) <= tiles.Keys
    {
      HeldAreTiles(tiles, held, multiset(free));
      hide Partitioned, Listed, Offsets;
      var rest;
      taken, rest := TakeFree(count, size);
      TakenOrLeft(free, size, count);
      HandOut(tiles, held, multiset(free), taken, size, multiset(rest));
      free := rest;
      held := held + Offsets(taken);
    }

    /** gdbFreeBlockChain */
    method Free(chain: seq<nat>, t: BlockType)
      requires Valid()
      requires forall o | o in chain :: o in held && o in tiles && tiles[o] == Multiple(t)
      requires forall i, j | 0 <= i < j < |chain| :: chain[i] != chain[j]
      modifies this`free, this`held
      ensures Valid() && held == old(held) - Offsets(chain)
      ensures multiset(free) == multiset(old(free)) + multiset(Blocks(chain, Multiple(t)))
    {
      hide Partitioned, Listed, Offsets, Preorder, Sorted, BlockCmp;
      GiveBack(tiles, held, multiset(free), chain, Multiple(t));
      var added := seq(|chain|, i requires 0 <= i < |chain| => FreeBlock(chain[i], Multiple(t)));
      assert added == Blocks(chain, Multiple(t));
      held := held - Offsets(chain);
      if free == [] {
        free := added;
        assert multiset(free) == multiset(old(free)) + multiset(added);
      } else {
        CmpIsPreorder();
        free := Sort(free + added, BlockCmp);
        assert multiset(free) == multiset(old(free)) + multiset(added);
      }
    }
  }

  lemma HeldAreTiles(t: Tiles, held: set<nat>, free: multiset<FreeBlock>)
    requires Listed(t, held, free)
    ensures held <= t.Keys
  {
  }

  /** The blocks of `chain`, of one size, are there in addition. */
  ghost predicate Added(t: Tiles, t': Tiles, chain: seq<nat>, size: nat) {
    && (forall o <- t :: o in t' && t'[o] == t[o])
    && (forall o | o in chain :: o !in t && o in t' && t'[o] == size)
    && (forall i, j | 0 <= i < j < |chain| :: chain[i] != chain[j])
  }

  lemma NoneAdded(t: Tiles, size: nat)
    ensures Added(t, t, [], size) && Offsets([]) == {}
  {
  }

  lemma OneAdded(t: Tiles, t': Tiles, chain: seq<nat>, size: nat, o: nat)
    requires Added(t, t', chain, size) && o !in t'
    ensures Added(t, t'[o := size], chain + [o], size) && Offsets(chain + [o]) == Offsets(chain) + {o}
  {
  }

  /** Blocks from the free list and new ones are different. */
  lemma TogetherOnce(taken: seq<nat>, more: seq<nat>, t: Tiles, t': Tiles, held: set<nat>, size: nat)
    requires Added(t, t', more, size) && held <= t.Keys
    requires forall o | o in taken :: o in t && t[o] == size && o !in held
    requires forall i, j | 0 <= i < j < |taken| :: taken[i] != taken[j]
    ensures forall i, j | 0 <= i < j < |taken + more| :: (taken + more)[i] != (taken + more)[j]
    ensures forall o | o in taken + more :: o !in held && o in t' && t'[o] == size
    ensures forall o <- t :: o in t' && t'[o] == t[o]
    ensures Offsets(taken + more) == Offsets(taken) + Offsets(more)
  {
    var all := taken + more;
    forall i, j | 0 <= i < j < |all|
      ensures all[i] != all[j]
    {
      if i < |taken| <= j {
        assert taken[i] in t && more[j - |taken|] !in t;
      }
    }
  }

  lemma SameMembers(s: seq<nat>, t: seq<nat>)
    requires Permuted(s, t)
    ensures forall o :: o in t <==> o in s
    ensures Offsets(t) == Offsets(s) && |t| == |s|
  {
    assert forall o :: o in t <==> o in multiset(t);
    assert forall o :: o in s <==> o in multiset(s);
  }

  lemma NextTile(n: nat, size: nat)
    requires n > 0
    ensures (n - 1) * size + size == n * size
  {
  }

  lemma CmpIsPreorder()
    ensures Preorder(OffsetCmp) && Preorder(BlockCmp)
  {
  }
}
