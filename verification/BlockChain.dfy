/** Data in a chain of blocks: the image of every block on disk, writing a block
    that grew or shrank, and reading it back. */
module BlockChain {
  import opened ByteOrder
  import opened BigEndian
  import opened BlockSpace
  import opened BlockFile

  // ---------- how many blocks ----------

  /** The data that `count` blocks hold: the first one has a header, the others
      a link. */
  function Capacity(multiple: nat, count: nat): (c: nat)
    requires multiple > HEADER
  {
    if count == 0 then 0 else multiple - HEADER + (count - 1) * (multiple - LINK)
  }

  /** gdbGetNeededBlockCount: the least number of blocks that hold the data. */
  method NeededBlockCount(size: nat, multiple: nat) returns (count: nat)
    requires multiple > HEADER
    ensures Capacity(multiple, count) >= size
    ensures count > 0 ==> Capacity(multiple, count - 1) < size
    ensures count == 0 <==> size == 0
  {
    if size == 0 {
      return 0;
    }
    var dataSize := size + HEADER;
    if dataSize == multiple {
      return 1;
    }
    count := 1;
    var i := multiple;
    while i < dataSize
      invariant count > 0 && i == HEADER + Capacity(multiple, count)
      invariant Capacity(multiple, count - 1) < size
      decreases dataSize - i
    {
      CapacityGrows(multiple, count);
      i := i + (multiple - LINK);
      count := count + 1;
    }
  }

  lemma CapacityGrows(multiple: nat, count: nat)
    requires multiple > HEADER && count > 0
    ensures Capacity(multiple, count + 1) == Capacity(multiple, count) + (multiple - LINK)
  {
  }

  lemma {:induction false} CapacityMonotone(multiple: nat, a: nat, b: nat)
    requires multiple > HEADER && a <= b
    ensures Capacity(multiple, a) <= Capacity(multiple, b)
    decreases b - a
  {
    if a < b {
      CapacityMonotone(multiple, a, b - 1);
      if b > 1 {
        CapacityGrows(multiple, b - 1);
      }
    }
  }

  /** Two least counts for the same data are one. */
  lemma LeastIsUnique(multiple: nat, size: nat, a: nat, b: nat)
    requires multiple > HEADER && Capacity(multiple, a) >= size && Capacity(multiple, b) >= size
    requires a > 0 ==> Capacity(multiple, a - 1) < size
    requires b > 0 ==> Capacity(multiple, b - 1) < size
    ensures a == b
  {
    if a < b {
      CapacityMonotone(multiple, a, b - 1);
    } else if b < a {
      CapacityMonotone(multiple, b, a - 1);
    }
  }

  // ---------- images ----------

  /** What a block is about, apart from where it is. */
  datatype Content = Content(t: BlockType, flags: nat, listNext: nat, data: Bytes)

  /** Numbers fit their fields, and there is data. */
  ghost predicate Fits(c: Content) {
    c.data != [] && |c.data| < 0x1_0000_0000 && c.flags < 0x10000 && c.listNext < 0x1_0000_0000
  }

  function Zeros(n: nat): (z: Bytes)
    ensures |z| == n
  {
    seq(n, _ => 0)
  }

  /** `size` bytes of the data from `pos` on, filled up with zeros. */
  function Padded(data: Bytes, pos: nat, size: nat): (bs: Bytes)
    ensures |bs| == size
  {
    if pos > |data| then Zeros(size)
    else if pos + size <= |data| then data[pos..pos + size]
    else data[pos..] + Zeros(pos + size - |data|)
  }

  function Following(chain: seq<nat>, i: nat): nat {
    if i + 1 < |chain| then chain[i + 1] else 0
  }

  function Head(c: Content, next: nat): (h: Bytes)
    ensures |h| == HEADER
  {
    Put(c.t, 1) + Put(|c.data|, 4) + Put(c.flags, 2) + Put(next, 4) + Put(c.listNext, 4)
  }

  /** Block `i` of the chain. */
  function Image(c: Content, chain: seq<nat>, i: nat): (bs: Bytes)
    ensures |bs| == Multiple(c.t)
  {
    var m := Multiple(c.t);
    if i == 0 then Head(c, Following(chain, 0)) + Padded(c.data, 0, m - HEADER)
    else Put(Following(chain, i), 4) + Padded(c.data, Capacity(m, i), m - LINK)
  }

  function Tile(file: Bytes, o: nat, size: nat): (bs: Bytes)
    requires o + size <= |file|
    ensures |bs| == size
  {
    file[o..o + size]
  }

  /** A block is on disk. */
  ghost predicate Stored(file: Bytes, c: Content, chain: seq<nat>) {
    && (forall i | 0 <= i < |chain| :: chain[i] + Multiple(c.t) <= |file|)
    && (forall i | 0 <= i < |chain| :: Tile(file, chain[i], Multiple(c.t)) == Image(c, chain, i))
  }

  /** A chain as long as the data needs, of handed out blocks of the right size,
      each once. */
  ghost predicate Shaped(t: Tiles, held: set<nat>, c: Content, chain: seq<nat>) {
    && OfType(t, held, c.t, chain)
    && |chain| > 0 && Capacity(Multiple(c.t), |chain|) >= |c.data| > Capacity(Multiple(c.t), |chain| - 1)
  }

  ghost predicate OfType(t: Tiles, held: set<nat>, bt: BlockType, chain: seq<nat>) {
    && (forall i | 0 <= i < |chain| :: chain[i] in held && chain[i] in t && t[chain[i]] == Multiple(bt))
    && (forall i, j | 0 <= i < j < |chain| :: chain[i] != chain[j])
  }

  // ---------- writing at a position ----------

  function Overwrite(file: Bytes, pos: nat, bs: Bytes): (f: Bytes)
    requires pos + |bs| <= |file|
    ensures |f| == |file|
  {
    file[..pos] + bs + file[pos + |bs|..]
  }

  lemma OverwriteTwice(file: Bytes, pos: nat, a: Bytes, b: Bytes)
    requires pos + |a| + |b| <= |file|
    ensures Overwrite(Overwrite(file, pos, a), pos + |a|, b) == Overwrite(file, pos, a + b)
  {
    var f := Overwrite(file, pos, a);
    assert f[..pos + |a|] == file[..pos] + a;
    assert f[pos + |a| + |b|..] == file[pos + |a| + |b|..];
  }

  /** A whole block written leaves the other blocks alone. */
  lemma OverwriteTile(t: Tiles, file: Bytes, o: nat, bs: Bytes)
    requires Partitioned(t, START, |file|) && o in t && t[o] == |bs|
    ensures Tile(Overwrite(file, o, bs), o, |bs|) == bs
    ensures forall p <- t | p != o :: Tile(Overwrite(file, o, bs), p, t[p]) == Tile(file, p, t[p])
  {
    var f := Overwrite(file, o, bs);
    forall p <- t | p != o
      ensures Tile(f, p, t[p]) == Tile(file, p, t[p])
    {
      TilesApart(t, |file|, o, p);
    }
  }

  lemma TilesApart(t: Tiles, eof: nat, o: nat, p: nat)
    requires Partitioned(t, START, eof) && o in t && p in t && o != p
    ensures o + t[o] <= p || p + t[p] <= o
    ensures o + t[o] <= eof && p + t[p] <= eof
  {
  }

  // ---------- writing a block ----------

  /** GdbBlock: what is known of a block in memory. */
  class GdbBlock {
    const blockType: BlockType
    var flags: nat
    var listNext: nat
    var dataSize: nat
    var offset: nat
    var next: nat
    var chain: seq<nat>

    /** gdbNewBlock */
    constructor (blockType: BlockType)
      ensures this.blockType == blockType && flags == 0 && listNext == 0 && chain == []
    {
      this.blockType := blockType;
      flags, listNext, dataSize, offset, next, chain := 0, 0, 0, 0, 0, [];
    }
  }

  /** The blocks of a partition that are not in `chain` are as they were. */
  ghost predicate OthersKept(t: Tiles, file: Bytes, file': Bytes, chain: seq<nat>) {
    && |file'| >= |file| && (forall p <- t :: p + t[p] <= |file|)
    && (forall p <- t | p !in chain :: Tile(file', p, t[p]) == Tile(file, p, t[p]))
  }

  method Fwrite(db: BlockFile, bs: Bytes)
    requires db.fpos + |bs| <= |db.file|
    modifies db`file, db`fpos
    ensures db.file == Overwrite(old(db.file), old(db.fpos), bs) && db.fpos == old(db.fpos) + |bs|
  {
    db.file := Overwrite(db.file, db.fpos, bs);
    db.fpos := db.fpos + |bs|;
  }

  /** The first block: header, data, and padding if the data ends in it. */
  method WriteFirst(db: BlockFile, c: Content, chain: seq<nat>)
    requires chain != [] && chain[0] + Multiple(c.t) <= |db.file|
    modifies db`file, db`fpos
    ensures db.file == Overwrite(old(db.file), chain[0], Image(c, chain, 0)) && db.fpos == chain[0] + Multiple(c.t)
  {
    var m := Multiple(c.t);
    var first := if |c.data| < m - HEADER then |c.data| else m - HEADER;
    ghost var file := db.file;
    db.fpos := chain[0];
    var header := Head(c, Following(chain, 0));
    Fwrite(db, header);
    Fwrite(db, c.data[..first]);
    OverwriteTwice(file, chain[0], header, c.data[..first]);
    if |c.data| < m - HEADER {
      Fwrite(db, Zeros(m - HEADER - |c.data|));
      OverwriteTwice(file, chain[0], header + c.data[..first], Zeros(m - HEADER - |c.data|));
      assert header + c.data[..first] + Zeros(m - HEADER - |c.data|) == Image(c, chain, 0);
    } else {
      assert header + c.data[..first] == Image(c, chain, 0);
    }
  }

  /** One overflow block. */
  method WriteOverflow(db: BlockFile, c: Content, chain: seq<nat>, i: nat, pos: nat)
    requires 0 < i < |chain| && pos == Capacity(Multiple(c.t), i) <= |c.data|
    requires chain[i] + Multiple(c.t) <= |db.file| && db.fpos == chain[i - 1] + Multiple(c.t)
    modifies db`file, db`fpos
    ensures db.file == Overwrite(old(db.file), chain[i], Image(c, chain, i)) && db.fpos == chain[i] + Multiple(c.t)
  {
    var m := Multiple(c.t);
    var relPos := |c.data| - pos;
    var size := if relPos < m - LINK then relPos else m - LINK;
    var blockBuffer := Put(Following(chain, i), 4) + c.data[pos..pos + size] + Zeros(m - LINK - size);
    assert blockBuffer == Image(c, chain, i);
    if chain[i - 1] + m != chain[i] {
      db.fpos := chain[i];
    }
    Fwrite(db, blockBuffer);
  }

  /** The part of gdbWriteBlock that writes the chain. */
  method WriteChain(db: BlockFile, c: Content, chain: seq<nat>)
    requires db.Valid() && Shaped(db.tiles, db.held, c, chain)
    modifies db`file, db`fpos
    ensures db.Valid() && |db.file| == old(|db.file|)
    ensures Stored(db.file, c, chain) && OthersKept(db.tiles, old(db.file), db.file, chain)
  {
    hide Conserved, Shaped, Image, Overwrite, Stored, OthersKept, Put, Padded, Capacity;
    ghost var t, file := db.tiles, db.file;
    ChainInFile(t, db.held, multiset(db.free), |file|, c, chain);
    WriteFirst(db, c, chain);
    FirstWritten(t, db.held, multiset(db.free), file, c, chain);
    var m := Multiple(c.t);
    var i, pos: nat := 1, m - HEADER;
    while i < |chain|
      invariant 1 <= i <= |chain| && pos == Capacity(m, i)
      invariant |db.file| == |file| && db.fpos == chain[i - 1] + m
      invariant WrittenTo(t, file, db.file, c, chain, i)
    {
      ghost var before := db.file;
      NextPosition(t, db.held, c, chain, i);
      WriteOverflow(db, c, chain, i, pos);
      NextWritten(t, db.held, multiset(db.free), file, before, c, chain, i);
      i := i + 1;
      pos := pos + (m - LINK);
    }
    AllWritten(t, file, db.file, c, chain);
  }

  /** The first `n` blocks of the chain are written. */
  ghost predicate WrittenTo(t: Tiles, file: Bytes, file': Bytes, c: Content, chain: seq<nat>, n: nat) {
    && n <= |chain| && |file'| == |file| && (forall p <- t :: p + t[p] <= |file|)
    && (forall i | 0 <= i < |chain| :: chain[i] in t && t[chain[i]] == Multiple(c.t))
    && (forall i | 0 <= i < n :: Tile(file', chain[i], Multiple(c.t)) == Image(c, chain, i))
    && (forall p <- t | p !in chain[..n] :: Tile(file', p, t[p]) == Tile(file, p, t[p]))
  }

  lemma ChainInFile(t: Tiles, held: set<nat>, free: multiset<FreeBlock>, eof: nat, c: Content, chain: seq<nat>)
    requires Conserved(t, held, free, START, eof) && Shaped(t, held, c, chain)
    ensures chain != [] && Partitioned(t, START, eof)
    ensures forall i | 0 <= i < |chain| :: chain[i] in t && t[chain[i]] == Multiple(c.t) && chain[i] + Multiple(c.t) <= eof
    ensures forall p <- t :: p + t[p] <= eof
    ensures Capacity(Multiple(c.t), 1) == Multiple(c.t) - HEADER
  {
  }

  lemma FirstWritten(t: Tiles, held: set<nat>, free: multiset<FreeBlock>, file: Bytes, c: Content, chain: seq<nat>)
    requires Conserved(t, held, free, START, |file|) && Shaped(t, held, c, chain)
    requires chain[0] + Multiple(c.t) <= |file|
    ensures WrittenTo(t, file, Overwrite(file, chain[0], Image(c, chain, 0)), c, chain, 1)
  {
    hide Image, Overwrite, Tile, Capacity;
    ChainInFile(t, held, free, |file|, c, chain);
    OverwriteTile(t, file, chain[0], Image(c, chain, 0));
    hide Partitioned, Listed;
    assert chain[..1] == [chain[0]];
  }

  lemma NextWritten(t: Tiles, held: set<nat>, free: multiset<FreeBlock>, file: Bytes, file': Bytes, c: Content, chain: seq<nat>, i: nat)
    requires Conserved(t, held, free, START, |file|) && Shaped(t, held, c, chain) && i < |chain|
    requires WrittenTo(t, file, file', c, chain, i) && chain[i] + Multiple(c.t) <= |file'|
    ensures WrittenTo(t, file, Overwrite(file', chain[i], Image(c, chain, i)), c, chain, i + 1)
  {
    hide Image, Overwrite, Tile, Capacity;
    ChainInFile(t, held, free, |file|, c, chain);
    OverwriteTile(t, file', chain[i], Image(c, chain, i));
    hide Partitioned, Listed;
    assert chain[..i + 1] == chain[..i] + [chain[i]];
  }

  lemma NextPosition(t: Tiles, held: set<nat>, c: Content, chain: seq<nat>, i: nat)
    requires Shaped(t, held, c, chain) && 0 < i < |chain|
    ensures Capacity(Multiple(c.t), i) < |c.data|
    ensures Capacity(Multiple(c.t), i + 1) == Capacity(Multiple(c.t), i) + (Multiple(c.t) - LINK)
  {
    CapacityMonotone(Multiple(c.t), i, |chain| - 1);
    CapacityGrows(Multiple(c.t), i);
  }

  lemma AllWritten(t: Tiles, file: Bytes, file': Bytes, c: Content, chain: seq<nat>)
    requires WrittenTo(t, file, file', c, chain, |chain|)
    ensures Stored(file', c, chain) && OthersKept(t, file, file', chain)
  {
    assert chain[..|chain|] == chain;
    forall i | 0 <= i < |chain|
      ensures chain[i] + Multiple(c.t) <= |file'|
    {
      assert chain[i] in t;
    }
  }

  /** The file after blocks were added to it: every old block is as it was. */
  ghost predicate Grown(t: Tiles, t': Tiles, file: Bytes, file': Bytes) {
    && (forall o <- t :: o in t' && t'[o] == t[o])
    && |file| <= |file'| && file'[..|file|] == file
  }

  /** How a chain and the blocks handed out change together. */
  ghost predicate Rechained(held: set<nat>, held': set<nat>, oldChain: seq<nat>, chain: seq<nat>) {
    if |chain| <= |oldChain| then chain == oldChain[..|chain|] && held' == held
    else
      && oldChain == chain[..|oldChain|] && held' == held + Offsets(chain[|oldChain|..])
      && (forall o | o in chain[|oldChain|..] :: o !in held)
  }

  /** The chain for the new size: longer by reserved blocks, shorter, or the same. */
  method Rechain(db: BlockFile, oldChain: seq<nat>, bt: BlockType, count: nat) returns (chain: seq<nat>)
    requires db.Valid() && OfType(db.tiles, db.held, bt, oldChain)
    modifies db`file, db`free, db`tiles, db`held
    ensures db.Valid() && OfType(db.tiles, db.held, bt, chain) && |chain| == count
    ensures Grown(old(db.tiles), db.tiles, old(db.file), db.file) && OfType(db.tiles, db.held, bt, oldChain)
    ensures Rechained(old(db.held), db.held, oldChain, chain)
  {
    hide Conserved;
    if count <= |oldChain| {
      chain := oldChain[..count];
      assert db.file[..|db.file|] == db.file;
    } else {
      var newChain := db.Reserve(count - |oldChain|, bt);
      chain := oldChain + newChain;
      assert chain[|oldChain|..] == newChain;
      Lengthened(old(db.tiles), db.tiles, old(db.held), db.held, bt, oldChain, newChain);
    }
  }

  lemma Lengthened(t: Tiles, t': Tiles, held: set<nat>, held': set<nat>, bt: BlockType, chain: seq<nat>, more: seq<nat>)
    requires OfType(t, held, bt, chain) && held' == held + Offsets(more)
    requires forall o <- t :: o in t' && t'[o] == t[o]
    requires forall i, j | 0 <= i < j < |more| :: more[i] < more[j]
    requires forall o | o in more :: o !in held && o in t' && t'[o] == Multiple(bt)
    ensures OfType(t', held', bt, chain + more) && OfType(t', held', bt, chain)
  {
    hide Multiple;
    var all := chain + more;
    forall i, j | 0 <= i < j < |all|
      ensures all[i] != all[j]
    {
      if i < |chain| <= j {
        assert all[i] in held && more[j - |chain|] !in held;
      }
    }
  }

  /** What a write of the chain `oldChain` keeps of the other owners' blocks. */
  ghost predicate Spared(t: Tiles, t': Tiles, held: set<nat>, held': set<nat>, file: Bytes, file': Bytes,
                         oldChain: seq<nat>, chain: seq<nat>) {
    && held' == held - Offsets(oldChain) + Offsets(chain)
    && forall p <- held | p !in oldChain ::
         && p in t && p in t' && t'[p] == t[p] && p !in chain
         && p + t'[p] <= |file| <= |file'| && Tile(file', p, t'[p]) == Tile(file, p, t[p])
  }

  /** gdbWriteBlock: the block keeps its first offset, its chain has the least
      length that holds the data, and the blocks of other owners stay as they are. */
  method WriteBlock(db: BlockFile, block: GdbBlock, buffer: Bytes)
    requires db.Valid() && OfType(db.tiles, db.held, block.blockType, block.chain)
    requires buffer != []
    modifies db, block
    ensures db.Valid() && block.flags == old(block.flags) && block.listNext == old(block.listNext) && block.chain != []
    ensures var c := Content(block.blockType, block.flags, block.listNext, buffer);
            Shaped(db.tiles, db.held, c, block.chain) && Stored(db.file, c, block.chain)
    ensures block.dataSize == |buffer| && block.offset == block.chain[0] && block.next == Following(block.chain, 0)
    ensures old(block.chain) != [] ==> block.offset == old(block.chain[0])
    ensures Spared(old(db.tiles), db.tiles, old(db.held), db.held, old(db.file), db.file, old(block.chain), block.chain)
  {
    hide Conserved, OfType, Stored, OthersKept, Grown, Shaped, Tile, Offsets;
    var t, oldChain := block.blockType, block.chain;
    var c := Content(t, block.flags, block.listNext, buffer);
    ghost var tiles, held, file := db.tiles, db.held, db.file;
    HeldInFile(tiles, held, multiset(db.free), |file|);
    var count := NeededBlockCount(|buffer|, Multiple(t));
    var chain := Rechain(db, oldChain, t, count);
    ghost var tiles1, held1, file1 := db.tiles, db.held, db.file;
    IsShaped(tiles1, held1, c, chain);
    block.dataSize, block.chain, block.offset, block.next := |buffer|, chain, chain[0], Following(chain, 0);
    WriteChain(db, c, chain);
    OwnersApart(held, held1, oldChain, chain);
    forall p <- held | p !in oldChain
      ensures p in tiles && p in tiles1 && tiles1[p] == tiles[p] && p !in chain && p + tiles[p] <= |file| <= |db.file|
      ensures Tile(db.file, p, tiles[p]) == Tile(file, p, tiles[p])
    {
      OtherKept(tiles, tiles1, file, file1, db.file, chain, p);
    }
    if count < |oldChain| {
      Discard(db, oldChain, count, c);
    } else {
      NoneDiscarded(tiles, held, held1, t, oldChain, chain);
    }
  }

  lemma HeldInFile(t: Tiles, held: set<nat>, free: multiset<FreeBlock>, eof: nat)
    requires Conserved(t, held, free, START, eof)
    ensures forall p <- held :: p in t && p + t[p] <= eof
  {
  }

  lemma IsShaped(t: Tiles, held: set<nat>, c: Content, chain: seq<nat>)
    requires OfType(t, held, c.t, chain) && |chain| > 0
    requires Capacity(Multiple(c.t), |chain|) >= |c.data| > Capacity(Multiple(c.t), |chain| - 1)
    ensures Shaped(t, held, c, chain)
  {
  }

  lemma OwnersApart(held: set<nat>, held': set<nat>, oldChain: seq<nat>, chain: seq<nat>)
    requires Rechained(held, held', oldChain, chain)
    ensures forall p <- held | p !in oldChain :: p !in chain
    ensures chain != [] && oldChain != [] ==> chain[0] == oldChain[0]
  {
    if |chain| > |oldChain| {
      assert chain == oldChain + chain[|oldChain|..];
    }
  }

  lemma OtherKept(t: Tiles, t': Tiles, file: Bytes, file': Bytes, file'': Bytes, chain: seq<nat>, p: nat)
    requires Grown(t, t', file, file') && OthersKept(t', file', file'', chain)
    requires p in t && p + t[p] <= |file| && p !in chain
    ensures p in t' && t'[p] == t[p] && |file| <= |file''| && Tile(file'', p, t[p]) == Tile(file, p, t[p])
  {
    assert file'[..|file|][p..p + t[p]] == file'[p..p + t[p]];
  }

  /** The blocks that a shorter chain does not need any more. */
  method Discard(db: BlockFile, oldChain: seq<nat>, count: nat, c: Content)
    requires db.Valid() && OfType(db.tiles, db.held, c.t, oldChain) && 0 < count < |oldChain|
    requires Shaped(db.tiles, db.held, c, oldChain[..count])
    modifies db`free, db`held
    ensures db.Valid() && Shaped(db.tiles, db.held, c, oldChain[..count])
    ensures db.held == old(db.held) - Offsets(oldChain) + Offsets(oldChain[..count])
  {
    hide Conserved;
    var rest := oldChain[count..];
    assert forall i | 0 <= i < |rest| :: rest[i] == oldChain[count + i];
    db.Free(rest, c.t);
    RestApart(oldChain, count, old(db.held));
  }

  lemma RestApart(chain: seq<nat>, count: nat, held: set<nat>)
    requires count <= |chain| && forall i, j | 0 <= i < j < |chain| :: chain[i] != chain[j]
    requires forall i | 0 <= i < |chain| :: chain[i] in held
    ensures forall i | 0 <= i < count :: chain[i] in held - Offsets(chain[count..])
    ensures held - Offsets(chain[count..]) == held - Offsets(chain) + Offsets(chain[..count])
  {
    forall i | 0 <= i < count
      ensures chain[i] !in chain[count..]
    {
    }
    assert chain == chain[..count] + chain[count..];
    forall o | o in chain[..count]
      ensures o !in chain[count..] && o in held
    {
      var i :| 0 <= i < count && chain[i] == o;
    }
  }

  lemma NoneDiscarded(t: Tiles, held: set<nat>, held': set<nat>, bt: BlockType, oldChain: seq<nat>, chain: seq<nat>)
    requires OfType(t, held, bt, oldChain) && Rechained(held, held', oldChain, chain) && |chain| >= |oldChain|
    ensures held' == held - Offsets(oldChain) + Offsets(chain)
  {
    hide Multiple;
    forall o | o in oldChain
      ensures o in held
    {
      var i :| 0 <= i < |oldChain| && oldChain[i] == o;
    }
    if |chain| == |oldChain| {
      assert oldChain[..|chain|] == oldChain;
    } else {
      assert chain == oldChain + chain[|oldChain|..];
    }
  }

  // ---------- reading a block ----------

  method Fread(db: BlockFile, n: nat) returns (bs: Bytes)
    requires db.fpos + n <= |db.file|
    modifies db`fpos
    ensures bs == Tile(db.file, old(db.fpos), n) && db.fpos == old(db.fpos) + n
  {
    bs := db.file[db.fpos..db.fpos + n];
    db.fpos := db.fpos + n;
  }

  /** The size of the part of the data from `pos` on that fits into `room` bytes. */
  function Part(size: nat, pos: nat, room: nat): (n: nat)
    requires pos <= size
    ensures n <= room && pos + n <= size
  {
    if size - pos < room then size - pos else room
  }

  /** A chain as gdbReadBlock finds it: as long as needed, with offsets that fit
      their four bytes. */
  ghost predicate Readable(c: Content, chain: seq<nat>) {
    && Fits(c) && |chain| > 0
    && Capacity(Multiple(c.t), |chain|) >= |c.data| > Capacity(Multiple(c.t), |chain| - 1)
    && (forall i | 0 <= i < |chain| :: 0 < chain[i] < 0x1_0000_0000)
  }

  lemma ImageHead(c: Content, chain: seq<nat>)
    requires Readable(c, chain)
    ensures var h := Image(c, chain, 0);
            && Get(h[0..1]) == c.t && Get(h[1..5]) == |c.data| && Get(h[5..7]) == c.flags
            && Get(h[7..11]) == Following(chain, 0) && Get(h[11..15]) == c.listNext
            && var first := Part(|c.data|, 0, Multiple(c.t) - HEADER);
            h[HEADER..HEADER + first] == c.data[..first]
  {
    hide Put, Get;
    Widths();
    GetPut(c.t, 1);
    GetPut(|c.data|, 4);
    GetPut(c.flags, 2);
    GetPut(Following(chain, 0), 4);
    GetPut(c.listNext, 4);
    var h := Image(c, chain, 0);
    assert h[0..1] == Put(c.t, 1) && h[1..5] == Put(|c.data|, 4) && h[5..7] == Put(c.flags, 2);
    assert h[7..11] == Put(Following(chain, 0), 4) && h[11..15] == Put(c.listNext, 4);
    hide Head;
    PaddedStart(c.data, 0, Multiple(c.t) - HEADER);
    ImageEnd(Head(c, Following(chain, 0)), Padded(c.data, 0, Multiple(c.t) - HEADER),
             Part(|c.data|, 0, Multiple(c.t) - HEADER));
  }

  /** Padding follows the data. */
  lemma PaddedStart(data: Bytes, pos: nat, size: nat)
    requires pos <= |data|
    ensures var n := Part(|data|, pos, size);
            Padded(data, pos, size)[..n] == data[pos..pos + n]
  {
  }

  lemma ImageEnd(a: Bytes, b: Bytes, n: nat)
    requires n <= |b|
    ensures (a + b)[|a|..|a| + n] == b[..n]
  {
  }

  lemma ImageLink(c: Content, chain: seq<nat>, i: nat)
    requires Readable(c, chain) && 0 < i < |chain| && Capacity(Multiple(c.t), i) <= |c.data|
    ensures var (h, pos) := (Image(c, chain, i), Capacity(Multiple(c.t), i));
            var size := Part(|c.data|, pos, Multiple(c.t) - LINK);
            Get(h[0..LINK]) == Following(chain, i) && h[LINK..LINK + size] == c.data[pos..pos + size]
  {
    hide Put, Get, Capacity;
    Widths();
    GetPut(Following(chain, i), 4);
    var h, pos := Image(c, chain, i), Capacity(Multiple(c.t), i);
    assert h[0..4] == Put(Following(chain, i), 4);
    PaddedStart(c.data, pos, Multiple(c.t) - LINK);
    ImageEnd(Put(Following(chain, i), 4), Padded(c.data, pos, Multiple(c.t) - LINK),
             Part(|c.data|, pos, Multiple(c.t) - LINK));
  }

  lemma TilePart(file: Bytes, o: nat, size: nat, from: nat, to: nat)
    requires o + size <= |file| && from <= to <= size
    ensures Tile(file, o, size)[from..to] == Tile(file, o + from, to - from)
  {
    var a, b := Tile(file, o, size)[from..to], file[o + from..o + to];
    assert |a| == |b| && forall k | 0 <= k < |a| :: a[k] == b[k];
  }

  lemma StoredTile(file: Bytes, c: Content, chain: seq<nat>, i: nat)
    requires Stored(file, c, chain) && i < |chain|
    ensures chain[i] + Multiple(c.t) <= |file| && Tile(file, chain[i], Multiple(c.t)) == Image(c, chain, i)
  {
  }

  /** The header of the first block, byte by byte. */
  lemma HeaderStored(file: Bytes, c: Content, chain: seq<nat>)
    requires Stored(file, c, chain) && chain != []
    ensures var o := chain[0];
            && o + 15 <= |file| && file[o] == c.t && file[o + 1..o + 5] == Put(|c.data|, 4)
            && file[o + 5..o + 7] == Put(c.flags, 2)
            && file[o + 7..o + 11] == Put(if |chain| > 1 then chain[1] else 0, 4)
            && file[o + 11..o + 15] == Put(c.listNext, 4)
  {
    StoredTile(file, c, chain, 0);
    OneByte(c.t);
    var o, m := chain[0], Multiple(c.t);
    HeadByPosition(c, Following(chain, 0), Padded(c.data, 0, m - HEADER));
    assert Image(c, chain, 0) == Head(c, Following(chain, 0)) + Padded(c.data, 0, m - HEADER);
    hide Image, Put, Multiple, Stored, Head;
    TilePart(file, o, m, 0, 1);
    TilePart(file, o, m, 1, 5);
    TilePart(file, o, m, 5, 7);
    TilePart(file, o, m, 7, 11);
    TilePart(file, o, m, 11, 15);
    assert Tile(file, o, m)[0..1] == [c.t];
  }

  /** Every other block starts with a link to the next one. */
  lemma LinkStored(file: Bytes, c: Content, chain: seq<nat>, i: nat)
    requires Stored(file, c, chain) && 0 < i < |chain|
    ensures chain[i] + 4 <= |file| && file[chain[i]..chain[i] + 4] == Put(if i + 1 < |chain| then chain[i + 1] else 0, 4)
  {
    StoredTile(file, c, chain, i);
    LinkByPosition(c, chain, i);
    hide Image, Put, Stored;
    TilePart(file, chain[i], Multiple(c.t), 0, 4);
  }

  /** Behind that come the bytes of the data that are due, and zeros behind them. */
  lemma DataStored(file: Bytes, c: Content, chain: seq<nat>, i: nat, x: nat)
    requires Stored(file, c, chain) && i < |chain| && (if i == 0 then 15 else 4) <= x < Multiple(c.t)
    ensures var d := if i == 0 then x - 15 else Multiple(c.t) - 15 + (i - 1) * (Multiple(c.t) - 4) + (x - 4);
            chain[i] + x < |file| && file[chain[i] + x] == if d < |c.data| then c.data[d] else 0
  {
    StoredTile(file, c, chain, i);
    DataByte(c, chain, i, x);
    hide Image, Stored, Multiple;
    assert Tile(file, chain[i], Multiple(c.t))[x] == file[chain[i] + x];
  }

  lemma HeadByPosition(c: Content, next: nat, rest: Bytes)
    ensures var h := Head(c, next) + rest;
            && h[0..1] == Put(c.t, 1) && h[1..5] == Put(|c.data|, 4) && h[5..7] == Put(c.flags, 2)
            && h[7..11] == Put(next, 4) && h[11..15] == Put(c.listNext, 4)
  {
    hide Put;
  }

  lemma LinkByPosition(c: Content, chain: seq<nat>, i: nat)
    requires 0 < i
    ensures |Image(c, chain, i)| > 4 && Image(c, chain, i)[0..4] == Put(Following(chain, i), 4)
  {
    hide Put;
  }

  lemma DataByte(c: Content, chain: seq<nat>, i: nat, x: nat)
    requires (if i == 0 then HEADER else LINK) <= x < Multiple(c.t)
    ensures var d := if i == 0 then x - HEADER else Capacity(Multiple(c.t), i) + (x - LINK);
            Image(c, chain, i)[x] == if d < |c.data| then c.data[d] else 0
  {
    hide Put, Head, Capacity;
  }

  /** What the header on disk says. */
  lemma HeaderIs(file: Bytes, c: Content, chain: seq<nat>)
    requires Stored(file, c, chain) && Readable(c, chain)
    ensures chain[0] + Multiple(c.t) <= |file|
    ensures var h := Tile(file, chain[0], HEADER);
            && Get(h[0..1]) == c.t && Get(h[1..5]) == |c.data| && Get(h[5..7]) == c.flags
            && Get(h[7..11]) == Following(chain, 0) && Get(h[11..15]) == c.listNext
  {
    ImageHead(c, chain);
    hide Image, Get, Pow256, Capacity;
    var i, o := Image(c, chain, 0), chain[0];
    assert Tile(file, o, Multiple(c.t)) == i;
    TilePart(file, o, Multiple(c.t), 0, HEADER);
    hide Stored, Readable;
    SamePart(file[o..o + HEADER], i, 0, 1);
    SamePart(file[o..o + HEADER], i, 1, 5);
    SamePart(file[o..o + HEADER], i, 5, 7);
    SamePart(file[o..o + HEADER], i, 7, 11);
    SamePart(file[o..o + HEADER], i, 11, 15);
  }

  lemma SamePart(h: Bytes, i: Bytes, from: nat, to: nat)
    requires |h| == HEADER <= |i| && h == i[0..HEADER] && from <= to <= HEADER
    ensures h[from..to] == i[from..to]
  {
  }

  /** What an overflow block on disk says. */
  lemma OverflowIs(file: Bytes, c: Content, chain: seq<nat>, i: nat)
    requires Stored(file, c, chain) && Readable(c, chain) && 0 < i < |chain| && Capacity(Multiple(c.t), i) <= |c.data|
    ensures chain[i] + Multiple(c.t) <= |file|
    ensures var (o, pos) := (chain[i], Capacity(Multiple(c.t), i));
            var size := Part(|c.data|, pos, Multiple(c.t) - LINK);
            Get(Tile(file, o, LINK)) == Following(chain, i) && Tile(file, o + LINK, size) == c.data[pos..pos + size]
  {
    hide *;
    ImageLink(c, chain, i);
    var o, pos, m := chain[i], Capacity(Multiple(c.t), i), Multiple(c.t);
    StoredTile(file, c, chain, i);
    TilePart(file, o, m, 0, LINK);
    TilePart(file, o, m, LINK, LINK + Part(|c.data|, pos, m - LINK));
  }

  /** gdbReadBlockHeader */
  method ReadHeader(db: BlockFile, offset: nat, ghost c: Content, ghost chain: seq<nat>) returns (block: GdbBlock)
    requires Stored(db.file, c, chain) && Readable(c, chain) && offset == chain[0]
    modifies db`fpos
    ensures fresh(block) && block.blockType == c.t && block.dataSize == |c.data| && block.flags == c.flags
    ensures block.offset == offset && block.next == Following(chain, 0) && block.listNext == c.listNext
    ensures offset + Multiple(c.t) <= |db.file| && db.fpos == offset + HEADER
  {
    HeaderIs(db.file, c, chain);
    hide Image, Get, Pow256, Capacity, Stored, Readable, Tile, Multiple, Following;
    db.fpos := offset;
    var header := Fread(db, HEADER);
    block := new GdbBlock(Get(header[0..1]));
    block.offset := offset;
    block.dataSize, block.flags := Get(header[1..5]), Get(header[5..7]);
    block.next, block.listNext := Get(header[7..11]), Get(header[11..15]);
  }

  /** One turn of the loop over the overflow blocks. */
  method ReadOverflow(db: BlockFile, dataSize: nat, m: nat, prev: nat, at: nat, pos: nat,
                      ghost c: Content, ghost chain: seq<nat>, ghost i: nat)
    returns (next: nat, bytes: Bytes)
    requires Stored(db.file, c, chain) && Readable(c, chain) && 0 < i < |chain|
    requires m == Multiple(c.t) && dataSize == |c.data| && pos == Capacity(m, i) <= dataSize
    requires prev == chain[i - 1] && at == chain[i] && db.fpos == prev + m
    modifies db`fpos
    ensures next == Following(chain, i)
    ensures var size := Part(dataSize, pos, m - LINK);
            bytes == c.data[pos..pos + size] && db.fpos == at + LINK + size
  {
    hide *;
    OverflowIs(db.file, c, chain, i);
    var size := Part(dataSize, pos, m - LINK);
    if prev + m != at {
      db.fpos := at;
    }
    var link := Fread(db, LINK);
    next := Get(link);
    bytes := Fread(db, size);
  }

  /** gdbReadBlock: every block that was written comes back whole. */
  method ReadBlock(db: BlockFile, offset: nat, ghost c: Content, ghost chain: seq<nat>) returns (block: GdbBlock, buffer: Bytes)
    requires Stored(db.file, c, chain) && Readable(c, chain) && offset == chain[0]
    modifies db`fpos
    ensures fresh(block) && block.blockType == c.t && block.dataSize == |c.data| && block.flags == c.flags
    ensures block.offset == offset && block.listNext == c.listNext && block.chain == chain
    ensures buffer == c.data
  {
    block := ReadHeader(db, offset, c, chain);
    ImageHead(c, chain);
    hide Image, Get, Pow256, Stored, Readable, Capacity, Tile;
    var m, dataSize := Multiple(block.blockType), block.dataSize;
    var count := NeededBlockCount(dataSize, m);
    CountIs(c, chain, count);
    var first := Part(dataSize, 0, m - HEADER);
    FirstPart(db.file, c, chain);
    var data := Fread(db, first);
    buffer, block.chain := ReadLinks(db, dataSize, m, count, offset, block.next, data, c, chain);
  }

  method ReadNext(db: BlockFile, dataSize: nat, m: nat, count: nat, pos: nat, prev: nat, at: nat, links: seq<nat>, buffer: Bytes,
                  ghost c: Content, ghost chain: seq<nat>, ghost i: nat)
    returns (next: nat, links': seq<nat>, buffer': Bytes)
    requires Stored(db.file, c, chain) && Readable(c, chain) && m == Multiple(c.t) && dataSize == |c.data| && count == |chain|
    requires Reading(c, chain, i, pos, prev, at, links, buffer) && at != 0 && db.fpos == prev + m
    modifies db`fpos
    ensures Reading(c, chain, i + 1, pos + (m - LINK), at, next, links', buffer') && i < |chain|
    ensures next != 0 ==> db.fpos == at + m
  {
    hide *;
    ReadingStep(c, chain, i, pos, prev, at, links, buffer);
    var bytes;
    next, bytes := ReadOverflow(db, dataSize, m, prev, at, pos, c, chain, i);
    links' := if |links| < count then links + [next] else links;
    buffer' := buffer + bytes;
  }

  /** The loop over the overflow blocks. */
  method ReadLinks(db: BlockFile, dataSize: nat, m: nat, count: nat, offset: nat, first: nat, data: Bytes,
                   ghost c: Content, ghost chain: seq<nat>)
    returns (buffer: Bytes, links: seq<nat>)
    requires Stored(db.file, c, chain) && Readable(c, chain) && offset == chain[0] && first == Following(chain, 0)
    requires m == Multiple(c.t) && dataSize == |c.data| && count == |chain|
    requires data == c.data[..Part(dataSize, 0, m - HEADER)]
    requires |chain| > 1 ==> db.fpos == offset + m
    modifies db`fpos
    ensures buffer == c.data && links == chain
  {
    hide *;
    ReadingStarts(c, chain, data);
    buffer, links := data, [offset];
    var pos: nat, prev: nat, next: nat := m - HEADER, offset, first;
    if next != 0 {
      assert [offset] + [next] == [offset, next];
      links := links + [next];
    }
    ghost var i := 1;
    while next != 0
      invariant Reading(c, chain, i, pos, prev, next, links, buffer)
      invariant next != 0 ==> db.fpos == prev + m
      decreases |chain| - i
    {
      var at := next;
      next, links, buffer := ReadNext(db, dataSize, m, count, pos, prev, at, links, buffer, c, chain, i);
      prev := at;
      pos := pos + (m - LINK);
      i := i + 1;
    }
    ReadingEnds(c, chain, i, pos, prev, next, links, buffer);
  }

  /** Before block `i` is read: the data up to it, and the chain one further. */
  ghost predicate Reading(c: Content, chain: seq<nat>, i: nat, pos: nat, prev: nat, next: nat, links: seq<nat>, buffer: Bytes) {
    && 1 <= i <= |chain| && pos == Capacity(Multiple(c.t), i) && prev == chain[i - 1] && next == Following(chain, i - 1)
    && (next != 0 <==> i < |chain|)
    && links == chain[..if i < |chain| then i + 1 else i]
    && buffer == c.data[..if pos < |c.data| then pos else |c.data|]
    && (i == |chain| ==> |c.data| <= pos)
  }

  lemma ReadingStarts(c: Content, chain: seq<nat>, data: Bytes)
    requires Readable(c, chain)
    requires data == c.data[..Part(|c.data|, 0, Multiple(c.t) - HEADER)]
    ensures var first := Following(chain, 0);
            Reading(c, chain, 1, Multiple(c.t) - HEADER, chain[0], first, if first != 0 then [chain[0], first] else [chain[0]], data)
    ensures Following(chain, 0) != 0 ==> |chain| > 1
  {
    CountIs(c, chain, |chain|);
  }

  lemma ReadingStep(c: Content, chain: seq<nat>, i: nat, pos: nat, prev: nat, next: nat, links: seq<nat>, buffer: Bytes)
    requires Readable(c, chain) && Reading(c, chain, i, pos, prev, next, links, buffer) && next != 0
    ensures 0 < i < |chain| && pos == Capacity(Multiple(c.t), i) <= |c.data| && prev == chain[i - 1] && next == chain[i]
    ensures var m := Multiple(c.t);
            var size := Part(|c.data|, pos, m - LINK);
            && Reading(c, chain, i + 1, pos + (m - LINK), next, Following(chain, i),
                       if |links| < |chain| then links + [Following(chain, i)] else links, buffer + c.data[pos..pos + size])
            && (Following(chain, i) != 0 ==> size == m - LINK)
  {
    hide Capacity, Multiple, Readable;
    var m := Multiple(c.t);
    NextPart(c, chain, i);
    UpTo(c.data, pos, if |c.data| - pos < m - LINK then |c.data| else pos + (m - LINK));
    if i + 1 < |chain| {
      UpTo(chain, i + 1, i + 2);
    }
  }

  lemma ReadingEnds(c: Content, chain: seq<nat>, i: nat, pos: nat, prev: nat, next: nat, links: seq<nat>, buffer: Bytes)
    requires Reading(c, chain, i, pos, prev, next, links, buffer) && next == 0
    ensures links == chain && buffer == c.data
  {
    assert chain[..|chain|] == chain && c.data[..|c.data|] == c.data;
  }

  lemma UpTo<T>(s: seq<T>, i: nat, j: nat)
    requires i <= j <= |s|
    ensures s[..i] + s[i..j] == s[..j]
  {
  }

  lemma CountIs(c: Content, chain: seq<nat>, count: nat)
    requires Readable(c, chain) && Capacity(Multiple(c.t), count) >= |c.data|
    requires count > 0 ==> Capacity(Multiple(c.t), count - 1) < |c.data|
    ensures count == |chain| > 0 && Capacity(Multiple(c.t), 1) == Multiple(c.t) - HEADER
    ensures Following(chain, 0) != 0 <==> |chain| > 1
    ensures |chain| > 1 ==> Multiple(c.t) - HEADER < |c.data|
    ensures |chain| == 1 ==> |c.data| <= Multiple(c.t) - HEADER
  {
    LeastIsUnique(Multiple(c.t), |c.data|, count, |chain|);
    if |chain| > 1 {
      CapacityMonotone(Multiple(c.t), 1, |chain| - 1);
    }
  }

  lemma FirstPart(file: Bytes, c: Content, chain: seq<nat>)
    requires Stored(file, c, chain) && Readable(c, chain)
    ensures var first := Part(|c.data|, 0, Multiple(c.t) - HEADER);
            chain[0] + HEADER + first <= |file| && Tile(file, chain[0] + HEADER, first) == c.data[..first]
  {
    ImageHead(c, chain);
    hide Image;
    var first := Part(|c.data|, 0, Multiple(c.t) - HEADER);
    assert Tile(file, chain[0], Multiple(c.t)) == Image(c, chain, 0);
    TilePart(file, chain[0], Multiple(c.t), HEADER, HEADER + first);
  }

  /** Where the loop stands after block `i`. */
  lemma NextPart(c: Content, chain: seq<nat>, i: nat)
    requires Readable(c, chain) && 0 < i < |chain|
    ensures Capacity(Multiple(c.t), i + 1) == Capacity(Multiple(c.t), i) + (Multiple(c.t) - LINK)
    ensures Capacity(Multiple(c.t), i) < |c.data| && (i + 1 < |chain| ==> Capacity(Multiple(c.t), i + 1) < |c.data|)
    ensures Following(chain, i) != 0 <==> i + 1 < |chain|
    ensures i + 1 == |chain| ==> |c.data| <= Capacity(Multiple(c.t), i + 1)
  {
    CapacityGrows(Multiple(c.t), i);
    CapacityMonotone(Multiple(c.t), i, |chain| - 1);
    if i + 1 < |chain| {
      CapacityMonotone(Multiple(c.t), i + 1, |chain| - 1);
    }
  }
}
