/** Many blocks in one file: what any history of writing, rewriting and erasing
    leaves of each of them. */
module BlockStore {
  import opened ByteOrder
  import opened BlockSpace
  import opened BlockFile
  import opened BlockChain

  type Contents = map<nat, Content>
  type Chains = map<nat, seq<nat>>

  // ---------- what a file of blocks keeps ----------

  ghost predicate Apart(a: seq<nat>, b: seq<nat>) {
    forall x | x in a :: x !in b
  }

  /** One block is whole: on disk, in a chain of the right length that starts at `o`. */
  ghost predicate Alive(t: Tiles, held: set<nat>, file: Bytes, o: nat, c: Content, chain: seq<nat>) {
    chain != [] && chain[0] == o && Shaped(t, held, c, chain) && Stored(file, c, chain)
  }

  ghost predicate AllAlive(t: Tiles, held: set<nat>, file: Bytes, cs: Contents, chains: Chains) {
    cs.Keys == chains.Keys && forall o <- chains :: Alive(t, held, file, o, cs[o], chains[o])
  }

  ghost predicate AllApart(chains: Chains) {
    forall o, p | o in chains && p in chains && o != p :: Apart(chains[o], chains[p])
  }

  ghost predicate Owned(chains: Chains, x: nat) {
    exists o :: o in chains && x in chains[o]
  }

  /** Every block that is handed out is in one chain, or lost. */
  ghost predicate Accounted(held: set<nat>, chains: Chains, lost: set<nat>) {
    && (forall x <- held :: x in lost || Owned(chains, x))
    && (forall x <- lost :: x in held && !Owned(chains, x))
    && (forall x | Owned(chains, x) :: x in held)
  }

  ghost predicate Whole(t: Tiles, held: set<nat>, file: Bytes, cs: Contents, chains: Chains, lost: set<nat>) {
    AllAlive(t, held, file, cs, chains) && AllApart(chains) && Accounted(held, chains, lost)
  }

  /** Another owner's block after the write. */
  lemma StillAlive(t: Tiles, t': Tiles, held: set<nat>, held': set<nat>, file: Bytes, file': Bytes,
                   oldChain: seq<nat>, chain: seq<nat>, o: nat, c: Content, other: seq<nat>)
    requires Spared(t, t', held, held', file, file', oldChain, chain)
    requires Alive(t, held, file, o, c, other) && Apart(other, oldChain)
    ensures Alive(t', held', file', o, c, other) && Apart(other, chain) && Apart(chain, other)
  {
    hide Image, Multiple, Capacity, Tile;
    forall i | 0 <= i < |other|
      ensures other[i] in held && other[i] !in oldChain && other[i] !in chain
    {
      assert other[i] in other;
    }
    forall i | 0 <= i < |other|
      ensures other[i] + Multiple(c.t) <= |file'| && Tile(file', other[i], Multiple(c.t)) == Image(c, other, i)
    {
      assert other[i] in held && t[other[i]] == Multiple(c.t);
    }
  }

  /** All blocks after a write of one of them, or of a new one. */
  lemma OneWritten(t: Tiles, t': Tiles, held: set<nat>, held': set<nat>, file: Bytes, file': Bytes,
                   cs: Contents, chains: Chains, o: nat, oldChain: seq<nat>, c: Content, chain: seq<nat>)
    requires AllAlive(t, held, file, cs, chains) && AllApart(chains)
    requires if oldChain == [] then o !in chains else o in chains && chains[o] == oldChain
    requires Spared(t, t', held, held', file, file', oldChain, chain) && Alive(t', held', file', o, c, chain)
    ensures AllAlive(t', held', file', cs[o := c], chains[o := chain]) && AllApart(chains[o := chain])
  {
    hide Alive, Apart, Spared;
    var chains' := chains[o := chain];
    forall p <- chains | p != o
      ensures Alive(t', held', file', p, cs[p], chains[p]) && Apart(chains[p], chain) && Apart(chain, chains[p])
    {
      assert Alive(t, held, file, p, cs[p], chains[p]);
      if oldChain == [] {
        ApartFromNothing(chains[p]);
      } else {
        assert Apart(chains[p], oldChain);
      }
      StillAlive(t, t', held, held', file, file', oldChain, chain, p, cs[p], chains[p]);
    }
  }

  lemma ApartFromNothing(a: seq<nat>)
    ensures Apart(a, [])
  {
  }

  /** Handed out blocks after a write. */
  lemma StillAccounted(held: set<nat>, held': set<nat>, chains: Chains, lost: set<nat>, o: nat, oldChain: seq<nat>, chain: seq<nat>)
    requires Accounted(held, chains, lost) && AllApart(chains[o := chain]) && (o in chains ==> AllApart(chains))
    requires if oldChain == [] then o !in chains else o in chains && chains[o] == oldChain
    requires held' == held - Offsets(oldChain) + Offsets(chain)
    requires forall x <- held | x !in oldChain :: x !in chain
    ensures Accounted(held', chains[o := chain], lost)
  {
    var chains' := chains[o := chain];
    forall x: nat
      ensures Owned(chains', x) <==> x in chain || (Owned(chains, x) && x !in oldChain)
    {
      if Owned(chains, x) && x !in oldChain {
        var p :| p in chains && x in chains[p];
        assert p in chains' && chains'[p] == chains[p];
      }
      if x in chain {
        assert o in chains';
      }
      if Owned(chains', x) && x !in chain {
        var p :| p in chains' && x in chains'[p];
        assert p in chains && x in chains[p] && p != o;
        if o in chains {
          assert Apart(chains[p], chains[o]);
        }
      }
    }
    if o in chains {
      forall x | x in oldChain
        ensures Owned(chains, x)
      {
      }
    }
  }

  /** One block, new or old, was written. */
  lemma WholeWritten(t: Tiles, t': Tiles, held: set<nat>, held': set<nat>, file: Bytes, file': Bytes,
                     cs: Contents, chains: Chains, lost: set<nat>, o: nat, oldChain: seq<nat>, c: Content, chain: seq<nat>)
    requires Whole(t, held, file, cs, chains, lost)
    requires if oldChain == [] then o !in chains else o in chains && chains[o] == oldChain
    requires Spared(t, t', held, held', file, file', oldChain, chain)
    requires chain != [] && chain[0] == o && Shaped(t', held', c, chain) && Stored(file', c, chain)
    ensures Whole(t', held', file', cs[o := c], chains[o := chain], lost)
  {
    hide Shaped, Stored, AllAlive, AllApart, Accounted, Tile, Offsets;
    OneWritten(t, t', held, held', file, file', cs, chains, o, oldChain, c, chain);
    StillAccounted(held, held', chains, lost, o, oldChain, chain);
  }

  lemma ChainIsHeld(t: Tiles, held: set<nat>, file: Bytes, cs: Contents, chains: Chains, lost: set<nat>, o: nat)
    requires Whole(t, held, file, cs, chains, lost) && o in chains
    ensures OfType(t, held, cs[o].t, chains[o]) && chains[o] != [] && chains[o][0] == o && o in held
    ensures Shaped(t, held, cs[o], chains[o]) && Stored(file, cs[o], chains[o])
  {
    hide Image, Capacity, Tile;
    assert Alive(t, held, file, o, cs[o], chains[o]);
  }

  /** A new block starts where no other block does. */
  lemma IsNew(t: Tiles, t': Tiles, held: set<nat>, held': set<nat>, file: Bytes, file': Bytes,
              cs: Contents, chains: Chains, lost: set<nat>, chain: seq<nat>)
    requires Spared(t, t', held, held', file, file', [], chain) && chain != []
    requires Whole(t, held, file, cs, chains, lost)
    ensures chain[0] !in chains
  {
    hide Whole, Tile;
    assert chain[0] in chain;
    if chain[0] in chains {
      ChainIsHeld(t, held, file, cs, chains, lost, chain[0]);
    }
  }

  function Rest<T>(s: seq<T>): seq<T> {
    if s == [] then [] else s[1..]
  }

  /** Freeing the first block of a chain: the rest of the chain is lost. */
  lemma OneErased(t: Tiles, held: set<nat>, file: Bytes, cs: Contents, chains: Chains, lost: set<nat>, o: nat)
    requires Whole(t, held, file, cs, chains, lost) && o in chains
    ensures Whole(t, held - Offsets([o]), file, cs - {o}, chains - {o}, lost + Offsets(Rest(chains[o])))
    ensures o in held && o in t && t[o] == Multiple(cs[o].t)
  {
    ChainIsHeld(t, held, file, cs, chains, lost, o);
    RestIs(t, held, cs[o].t, chains[o]);
    hide AllAlive, AllApart, Accounted, Shaped, Stored, Multiple, OfType, Rest, Offsets;
    AliveWithout(t, held, file, cs, chains, o);
    AccountedWithout(held, chains, lost, o);
  }

  /** Something is lost exactly if the data did not fit the first block. */
  lemma LostExactly(t: Tiles, held: set<nat>, file: Bytes, cs: Contents, chains: Chains, lost: set<nat>, o: nat)
    requires Whole(t, held, file, cs, chains, lost) && o in chains && o in cs
    ensures lost + Offsets(Rest(chains[o])) == lost <==> |cs[o].data| <= Multiple(cs[o].t) - HEADER
  {
    hide AllAlive, AllApart, Stored, OfType, Image, Tile;
    ChainIsHeld(t, held, file, cs, chains, lost, o);
    var chain := chains[o];
    if |chain| > 1 {
      CapacityMonotone(Multiple(cs[o].t), 1, |chain| - 1);
      assert chain[1] == Rest(chain)[0] && chain[1] in Offsets(Rest(chain));
      assert Owned(chains, chain[1]);
    } else {
      assert Rest(chain) == [];
    }
  }

  lemma RestIs(t: Tiles, held: set<nat>, bt: BlockType, chain: seq<nat>)
    requires OfType(t, held, bt, chain) && chain != []
    ensures chain == [chain[0]] + Rest(chain) && chain[0] !in Rest(chain)
    ensures chain[0] in held && chain[0] in t && t[chain[0]] == Multiple(bt)
  {
    assert forall i | 0 < i < |chain| :: chain[i] == Rest(chain)[i - 1];
  }

  lemma AliveWithout(t: Tiles, held: set<nat>, file: Bytes, cs: Contents, chains: Chains, o: nat)
    requires AllAlive(t, held, file, cs, chains) && AllApart(chains) && o in chains && o in chains[o]
    ensures AllAlive(t, held - Offsets([o]), file, cs - {o}, chains - {o})
  {
    hide Image, Multiple, Capacity, Stored;
    forall p <- chains | p != o
      ensures Alive(t, held - Offsets([o]), file, p, cs[p], chains[p])
    {
      assert Alive(t, held, file, p, cs[p], chains[p]) && Apart(chains[p], chains[o]);
      forall i | 0 <= i < |chains[p]|
        ensures chains[p][i] in held - Offsets([o])
      {
        assert chains[p][i] in chains[p];
      }
    }
  }

  lemma AccountedWithout(held: set<nat>, chains: Chains, lost: set<nat>, o: nat)
    requires Accounted(held, chains, lost) && AllApart(chains) && o in chains && chains[o] == [o] + Rest(chains[o])
    requires o !in Rest(chains[o])
    ensures Accounted(held - Offsets([o]), chains - {o}, lost + Offsets(Rest(chains[o])))
  {
    forall x: nat
      ensures Owned(chains, x) <==> Owned(chains - {o}, x) || x in chains[o]
      ensures Owned(chains - {o}, x) ==> x !in chains[o]
    {
      if Owned(chains, x) {
        var p :| p in chains && x in chains[p];
        assert p == o || p in chains - {o};
      }
      if Owned(chains - {o}, x) {
        var p :| p in chains - {o} && x in (chains - {o})[p];
        assert Apart(chains[p], chains[o]);
      }
    }
  }

  lemma CanBeRead(t: Tiles, held: set<nat>, free: multiset<FreeBlock>, eof: nat, c: Content, chain: seq<nat>)
    requires Conserved(t, held, free, START, eof) && eof <= 0x1_0000_0000 && Fits(c) && Shaped(t, held, c, chain)
    ensures Readable(c, chain)
  {
    hide Capacity, Multiple;
  }

  lemma NoChain(t: Tiles, held: set<nat>, bt: BlockType)
    ensures OfType(t, held, bt, [])
  {
  }

  // ---------- the store ----------

  /** The blocks of a database that are open, by their offsets. */
  class Store {
    const db: BlockFile
    var open: map<nat, GdbBlock>
    ghost var data: map<nat, Bytes>
    ghost var lost: set<nat>

    ghost function ChainsOf(): Chains
      reads this, open.Values
    {
      map o | o in open :: open[o].chain
    }

    /** What each block is to have on disk. */
    ghost function ContentsOf(): (cs: Contents)
      requires data.Keys == open.Keys
      reads this, open.Values
      ensures cs.Keys == open.Keys
    {
      map o | o in open :: Content(open[o].blockType, open[o].flags, open[o].listNext, data[o])
    }

    ghost predicate Valid()
      reads this, db, open.Values
    {
      && db.Valid() && data.Keys == open.Keys
      && Whole(db.tiles, db.held, db.file, ContentsOf(), ChainsOf(), lost)
    }

    lemma ContentsAre(cs: Contents, chains: Chains)
      requires data.Keys == open.Keys == cs.Keys == chains.Keys
      requires forall o <- open :: cs[o] == Content(open[o].blockType, open[o].flags, open[o].listNext, data[o])
      requires forall o <- open :: chains[o] == open[o].chain
      ensures ContentsOf() == cs && ChainsOf() == chains
    {
    }

    lemma ApartObjects(o: nat)
      requires Valid() && o in open
      ensures forall p <- open | p != o :: open[p] != open[o]
    {
      forall p <- open
        ensures open[p].chain != [] && open[p].chain[0] == p
      {
        ChainIsHeld(db.tiles, db.held, db.file, ContentsOf(), ChainsOf(), lost, p);
      }
    }

    /** A database without blocks. */
    constructor ()
      ensures Valid() && open == map[] && lost == {} && fresh(db)
    {
      db := new BlockFile();
      open, data, lost := map[], map[], {};
    }

    /** gdbNewBlock and gdbWriteBlock */
    method Add(t: BlockType, flags: nat, listNext: nat, buffer: Bytes) returns (o: nat)
      requires Valid() && buffer != []
      modifies this`open, this`data, db
      ensures Valid() && o !in old(open) && o in open && fresh(open[o]) && open == old(open)[o := open[o]]
      ensures ContentsOf() == old(ContentsOf())[o := Content(t, flags, listNext, buffer)] && lost == old(lost)
    {
      hide Whole, Shaped, OfType, Stored, Conserved, Spared;
      ghost var tiles, held, file, cs, chains := db.tiles, db.held, db.file, ContentsOf(), ChainsOf();
      var block := new GdbBlock(t);
      block.flags, block.listNext := flags, listNext;
      NoChain(tiles, held, t);
      WriteBlock(db, block, buffer);
      o := block.offset;
      ghost var c := Content(t, flags, listNext, buffer);
      IsNew(tiles, db.tiles, held, db.held, file, db.file, cs, chains, lost, block.chain);
      WholeWritten(tiles, db.tiles, held, db.held, file, db.file, cs, chains, lost, o, [], c, block.chain);
      open, data := open[o := block], data[o := buffer];
      forall p <- open
        ensures cs[o := c][p] == Content(open[p].blockType, open[p].flags, open[p].listNext, data[p])
        ensures chains[o := block.chain][p] == open[p].chain
      {
        assert p == o || p in chains;
      }
      ContentsAre(cs[o := c], chains[o := block.chain]);
    }

    /** gdbWriteBlock on a block that was written before, with other data. */
    method Rewrite(o: nat, buffer: Bytes)
      requires Valid() && buffer != [] && o in open
      modifies this`data, db, open[o]
      ensures Valid() && open == old(open) && lost == old(lost)
      ensures ContentsOf() == old(ContentsOf())[o := old(ContentsOf())[o].(data := buffer)]
    {
      hide Whole, Shaped, OfType, Stored, Conserved, Spared;
      ghost var tiles, held, file, cs, chains := db.tiles, db.held, db.file, ContentsOf(), ChainsOf();
      var block := open[o];
      ChainIsHeld(tiles, held, file, cs, chains, lost, o);
      ApartObjects(o);
      WriteBlock(db, block, buffer);
      ghost var c := cs[o].(data := buffer);
      WholeWritten(tiles, db.tiles, held, db.held, file, db.file, cs, chains, lost, o, chains[o], c, block.chain);
      data := data[o := buffer];
      ContentsAre(cs[o := c], chains[o := block.chain]);
    }

    /** gdbFreeBlock: it frees the first block, and nobody frees the others. So
        nothing is lost exactly if the data fits one block. */
    method Erase(o: nat)
      requires Valid() && o in open
      modifies this`open, this`data, this`lost, db
      ensures Valid() && open == old(open) - {o} && ContentsOf() == old(ContentsOf()) - {o}
      ensures lost == old(lost) + Offsets(Rest(old(open[o].chain)))
      ensures lost == old(lost) <==> |old(ContentsOf()[o]).data| <= Multiple(old(ContentsOf()[o]).t) - HEADER
    {
      hide Whole, Shaped, OfType, Stored, Conserved, Offsets;
      ghost var cs, chains := ContentsOf(), ChainsOf();
      var block := open[o];
      OneErased(db.tiles, db.held, db.file, cs, chains, lost, o);
      LostExactly(db.tiles, db.held, db.file, cs, chains, lost, o);
      db.Free([o], block.blockType);
      open, data, lost := open - {o}, data - {o}, lost + Offsets(Rest(block.chain));
      ContentsAre(cs - {o}, chains - {o});
    }

    /** gdbReadBlock on a block that is not in memory: what was written last. */
    method Load(o: nat) returns (block: GdbBlock, buffer: Bytes)
      requires Valid() && o in open
      requires |db.file| <= 0x1_0000_0000 && Fits(ContentsOf()[o])
      modifies db`fpos
      ensures Valid() && buffer == data[o] && fresh(block)
      ensures ContentsOf()[o] == Content(block.blockType, block.flags, block.listNext, buffer)
      ensures block.chain == open[o].chain && block.offset == o
    {
      hide Whole, Shaped, OfType, Stored, Conserved, Offsets, Fits, Readable;
      ghost var c, chain := ContentsOf()[o], open[o].chain;
      ChainIsHeld(db.tiles, db.held, db.file, ContentsOf(), ChainsOf(), lost, o);
      CanBeRead(db.tiles, db.held, multiset(db.free), |db.file|, c, chain);
      block, buffer := ReadBlock(db, o, c, chain);
    }
  }
  /** One byte more than fits a block, written and erased: the store has its old
      contents, and blocks that nobody owns. */
  method AddThenErase(store: Store, t: BlockType, buffer: Bytes)
    requires store.Valid() && |buffer| == Multiple(t) - HEADER + 1
    modifies store`open, store`data, store`lost, store.db
    ensures store.Valid() && store.ContentsOf() == old(store.ContentsOf()) && old(store.lost) < store.lost
  {
    hide Whole, Multiple, store.ContentsOf, store.ChainsOf, store.db.Valid, Rest, Offsets;
    ghost var cs := store.ContentsOf();
    var o := store.Add(t, 0, 0, buffer);
    store.Erase(o);
    assert cs[o := Content(t, 0, 0, buffer)] - {o} == cs;
  }
}
