/** The space behind the free-list area of a block file: every byte belongs to
    one block, and every block is either handed out or on the free list. */
module BlockSpace {

  /** GdbFreeBlock */
  datatype FreeBlock = FreeBlock(offset: nat, size: nat)

  /** The sizes of all blocks, by their offsets. */
  type Tiles = map<nat, nat>

  ghost predicate Covered(t: Tiles, x: nat) {
    exists o :: o in t && o <= x < o + t[o]
  }

  /** The blocks partition the bytes from `start` to `eof`. */
  ghost predicate Partitioned(t: Tiles, start: nat, eof: nat) {
    && start <= eof
    && (forall o <- t :: start <= o && t[o] > 0 && o + t[o] <= eof)
    && (forall o, p | o in t && p in t && o < p :: o + t[o] <= p)
    && (forall x | start <= x < eof :: Covered(t, x))
  }

  /** The free list has just the blocks that are not handed out, each once. */
  ghost predicate Listed(t: Tiles, held: set<nat>, free: multiset<FreeBlock>) {
    && held <= t.Keys
    && (forall b | b in free :: free[b] == 1 && b.offset in t && t[b.offset] == b.size && b.offset !in held)
    && (forall o <- t :: o !in held ==> FreeBlock(o, t[o]) in free)
  }

  ghost predicate Conserved(t: Tiles, held: set<nat>, free: multiset<FreeBlock>, start: nat, eof: nat) {
    Partitioned(t, start, eof) && Listed(t, held, free)
  }

  /** A new block at the end of the file. */
  lemma PartitionGrows(t: Tiles, start: nat, eof: nat, size: nat)
    requires Partitioned(t, start, eof) && size > 0
    ensures eof !in t && Partitioned(t[eof := size], start, eof + size)
  {
    var t' := t[eof := size];
    forall x | start <= x < eof + size
      ensures Covered(t', x)
    {
      if x < eof {
        assert Covered(t, x);
        var o :| o in t && o <= x < o + t[o];
        assert o in t' && t'[o] == t[o];
      } else {
        assert eof in t';
      }
    }
  }

  /** A new block at the end of the file that is handed out at once. */
  lemma ConservedGrows(t: Tiles, held: set<nat>, free: multiset<FreeBlock>, start: nat, eof: nat, size: nat)
    requires Conserved(t, held, free, start, eof) && size > 0
    ensures eof !in t && Conserved(t[eof := size], held + {eof}, free, start, eof + size)
  {
    PartitionGrows(t, start, eof, size);
    hide Partitioned;
  }

  /** No byte belongs to two blocks. */
  lemma OneOwner(t: Tiles, start: nat, eof: nat, o: nat, p: nat, x: nat)
    requires Partitioned(t, start, eof) && o in t && p in t
    requires o <= x < o + t[o] && p <= x < p + t[p]
    ensures o == p
  {
  }

  // ---------- taking blocks ----------

  /** The first `count` free blocks of one size, in the order of the list. */
  ghost function Taken(free: seq<FreeBlock>, size: nat, count: nat): (chain: seq<nat>)
    ensures |chain| <= count
  {
    if free == [] then [] else
    var n := |free| - 1;
    var t := Taken(free[..n], size, count);
    if |t| < count && free[n].size == size then t + [free[n].offset] else t
  }

  ghost function Left(free: seq<FreeBlock>, size: nat, count: nat): seq<FreeBlock> {
    if free == [] then [] else
    var n := |free| - 1;
    var t := Taken(free[..n], size, count);
    Left(free[..n], size, count) + if |t| < count && free[n].size == size then [] else [free[n]]
  }

  ghost function Blocks(chain: seq<nat>, size: nat): (bs: seq<FreeBlock>)
    ensures |bs| == |chain| && forall i | 0 <= i < |chain| :: bs[i] == FreeBlock(chain[i], size)
  {
    seq(|chain|, i requires 0 <= i < |chain| => FreeBlock(chain[i], size))
  }

  ghost function Offsets(chain: seq<nat>): set<nat> {
    set o | o in chain
  }

  ghost function Fitting(free: seq<FreeBlock>, size: nat): nat {
    if free == [] then 0 else Fitting(free[..|free| - 1], size) + if free[|free| - 1].size == size then 1 else 0
  }

  /** Nothing is lost: what is not taken is left. */
  lemma {:induction false} TakenOrLeft(free: seq<FreeBlock>, size: nat, count: nat)
    ensures multiset(free) == multiset(Blocks(Taken(free, size, count), size)) + multiset(Left(free, size, count))
    ensures |Taken(free, size, count)| == if Fitting(free, size) < count then Fitting(free, size) else count
  {
    if free != [] {
      var n := |free| - 1;
      var t := Taken(free[..n], size, count);
      TakenOrLeft(free[..n], size, count);
      assert free == free[..n] + [free[n]];
      if |t| < count && free[n].size == size {
        assert Blocks(t + [free[n].offset], size) == Blocks(t, size) + [free[n]];
      }
    }
  }

  /** The blocks taken are the first ones of their size, in the order of the list. */
  lemma {:induction false} TakenAt(free: seq<FreeBlock>, size: nat, count: nat, k: nat)
    requires k < |free| && free[k].size == size && Fitting(free[..k], size) < count
    ensures var i := Fitting(free[..k], size);
            i < |Taken(free, size, count)| && Taken(free, size, count)[i] == free[k].offset
    decreases |free|
  {
    hide Fitting;
    var n := |free| - 1;
    if k < n {
      assert free[..n][..k] == free[..k];
      TakenAt(free[..n], size, count, k);
    } else {
      TakenOrLeft(free[..n], size, count);
    }
  }

  /** Blocks handed out, or given back. */
  lemma HandOut(t: Tiles, held: set<nat>, free: multiset<FreeBlock>, chain: seq<nat>, size: nat, left: multiset<FreeBlock>)
    requires Listed(t, held, free) && free == multiset(Blocks(chain, size)) + left
    ensures Listed(t, held + Offsets(chain), left)
    ensures forall o | o in chain :: o in t && t[o] == size && o !in held
    ensures forall i, j | 0 <= i < j < |chain| :: chain[i] != chain[j]
  {
    var bs := Blocks(chain, size);
    forall o | o in chain
      ensures FreeBlock(o, size) in multiset(bs) && FreeBlock(o, size) in free && FreeBlock(o, size) !in left
    {
      var i :| 0 <= i < |chain| && chain[i] == o;
      assert bs[i] == FreeBlock(o, size);
      assert free[FreeBlock(o, size)] == 1;
    }
    forall i, j | 0 <= i < j < |chain|
      ensures chain[i] != chain[j]
    {
      assert free[bs[i]] <= 1;
      if chain[i] == chain[j] {
        Twice(bs, i, j);
      }
    }
    forall o <- t | o !in held + Offsets(chain)
      ensures FreeBlock(o, t[o]) in left
    {
      BlocksHave(chain, size, FreeBlock(o, t[o]));
      assert FreeBlock(o, t[o]) in free;
    }
  }

  lemma BlocksHave(chain: seq<nat>, size: nat, b: FreeBlock)
    ensures b in multiset(Blocks(chain, size)) <==> b.size == size && b.offset in chain
  {
    var bs := Blocks(chain, size);
    if b.size == size && b.offset in chain {
      var i :| 0 <= i < |chain| && chain[i] == b.offset;
      assert bs[i] == b;
    }
  }

  lemma Twice<T>(s: seq<T>, i: nat, j: nat)
    requires i < j < |s| && s[i] == s[j]
    ensures multiset(s)[s[i]] >= 2
  {
    assert s == s[..i] + [s[i]] + s[i + 1..j] + [s[j]] + s[j + 1..];
  }

  lemma GiveBack(t: Tiles, held: set<nat>, free: multiset<FreeBlock>, chain: seq<nat>, size: nat)
    requires Listed(t, held, free)
    requires forall o | o in chain :: o in held && t[o] == size
    requires forall i, j | 0 <= i < j < |chain| :: chain[i] != chain[j]
    ensures Listed(t, held - Offsets(chain), free + multiset(Blocks(chain, size)))
  {
    var bs := Blocks(chain, size);
    forall b: FreeBlock | b in multiset(bs)
      ensures multiset(bs)[b] == 1 && b.offset in chain && b.size == size && b !in free
    {
      var i :| 0 <= i < |bs| && bs[i] == b;
      Once(bs, i);
      assert b.offset == chain[i];
    }
    forall o <- t | o !in held - Offsets(chain)
      ensures FreeBlock(o, t[o]) in free + multiset(bs)
    {
      if o in held {
        assert o in chain;
        var i :| 0 <= i < |chain| && chain[i] == o;
        assert bs[i] == FreeBlock(o, t[o]);
      }
    }
  }

  lemma {:induction false} Once(bs: seq<FreeBlock>, i: nat)
    requires i < |bs| && forall j | 0 <= j < |bs| && j != i :: bs[j] != bs[i]
    ensures multiset(bs)[bs[i]] == 1
  {
    assert bs == bs[..i] + [bs[i]] + bs[i + 1..];
    assert bs[i] !in bs[..i] && bs[i] !in bs[i + 1..];
  }
}
