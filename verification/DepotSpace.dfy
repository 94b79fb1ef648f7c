/** The linear layout of a Depot file: records tile the bytes after the bucket
    array, and the free block pool remembers some runs of reusable records.

    The file is kept as a store of records by offset. Writing a record forgets
    every record whose first byte it covers, so reading at an offset the store
    still knows is the proof obligation that the bytes there are a record. */
module DepotSpace {
  import opened ByteOrder

  type Store = map<nat, Record>

  const RECORD_HEAD: nat := 28 // DP_RHNUM * sizeof(int)

  /** A record: its header words and the key and value bytes behind them.
      `deleted` is DP_RECFDEL and `reusable` is DP_RECFREUSE. */
  datatype Record = Record(deleted: bool, reusable: bool, hash: int, key: seq<byte>,
                           value: seq<byte>, padding: nat, left: nat, right: nat)
  {
    /** dprecsize */
    function Size(): nat {
      RECORD_HEAD + |key| + |value| + padding
    }
  }

  /** One slot of the free block pool; an empty slot holds -1 twice. */
  datatype Region = Region(off: int, size: int)
  {
    function End(): int {
      off + size
    }
  }

  const NO_REGION := Region(-1, -1)

  /** The records tile the bytes [start, fsiz) without gaps or overlaps. */
  ghost predicate Tiled(store: Store, start: nat, fsiz: nat) {
    && start <= fsiz
    && (start == fsiz || start in store)
    && (forall o <- store :: start <= o)
    && (forall o {:trigger EndsWell(store, fsiz, o)} | o in store :: EndsWell(store, fsiz, o))
    && (forall o, p | o in store && p in store && o < p :: o + store[o].Size() <= p)
  }

  /** A place where a record starts or where the file ends. */
  ghost predicate IsEdge(store: Store, fsiz: nat, o: int) {
    o == fsiz || (0 <= o < fsiz && o in store)
  }

  /** The record at `o` ends where the next one starts, or at the end of the file. */
  ghost predicate EndsWell(store: Store, fsiz: nat, o: nat)
    requires o in store
  {
    IsEdge(store, fsiz, o + store[o].Size())
  }

  /** Whole reusable records, one after the other, fill the region. */
  ghost predicate ReusableRun(store: Store, fsiz: nat, r: Region) {
    && r.size > 0
    && 0 < r.off < fsiz
    && r.off in store
    && r.End() <= fsiz
    && IsEdge(store, fsiz, r.End())
    && (forall o | o in store && r.off <= o < r.End() :: store[o].reusable)
  }

  ghost predicate Apart(r: Region, s: Region) {
    r.End() <= s.off || s.End() <= r.off
  }

  /** Every used pool slot is a run of reusable records, and no two overlap. */
  ghost predicate PoolSound(store: Store, fsiz: nat, pool: seq<Region>) {
    && (forall i | 0 <= i < |pool| :: pool[i] == NO_REGION || ReusableRun(store, fsiz, pool[i]))
    && (forall i, j | 0 <= i < j < |pool| ::
          pool[i] == NO_REGION || pool[j] == NO_REGION || Apart(pool[i], pool[j]))
  }

  /** The space invariant of a database handle. */
  ghost predicate SpaceSound(store: Store, start: nat, fsiz: nat, pool: seq<Region>) {
    && 0 < start
    && Tiled(store, start, fsiz)
    && PoolSound(store, fsiz, pool)
    && (forall o <- store :: store[o].reusable ==> store[o].deleted)
  }

  // ---------- writing ----------

  /** The store after writing `rec` at `off`: whatever it covers is gone. */
  ghost function Written(store: Store, off: nat, rec: Record): Store {
    (map o | o in store && !(off < o < off + rec.Size()) :: store[o])[off := rec]
  }

  /** The pool after every slot that starts in [lo, hi) is cleared. */
  function Cleared(pool: seq<Region>, lo: int, hi: int): (cleared: seq<Region>)
    ensures |cleared| == |pool|
    ensures forall i | 0 <= i < |pool| ::
              cleared[i] == if lo <= pool[i].off < hi then NO_REGION else pool[i]
  {
    seq(|pool|, i requires 0 <= i < |pool| => if lo <= pool[i].off < hi then NO_REGION else pool[i])
  }

  // ---------- tiling ----------

  /** Tiling means just that: every byte of the record area belongs to exactly
      one record. */
  lemma {:induction false} EachByteHasOneOwner(store: Store, start: nat, fsiz: nat, at: nat)
    requires Tiled(store, start, fsiz) && start <= at < fsiz
    ensures exists o :: o in store && o <= at < o + store[o].Size()
    ensures forall o, p | o in store && p in store && o <= at < o + store[o].Size()
                          && p <= at < p + store[p].Size() :: o == p
  {
    var o := start;
    while o + store[o].Size() <= at
      invariant o in store && o <= at
      decreases at - o
    {
      assert EndsWell(store, fsiz, o);
      o := o + store[o].Size();
    }
  }

  ghost predicate SameOutside(store: Store, after: Store, lo: nat, hi: nat) {
    forall o: nat | !(lo <= o < hi) ::
      (o in store <==> o in after) && (o in store ==> after[o] == store[o])
  }

  /** The last byte rewritten: the file keeps its size, or is extended to there. */
  ghost predicate Boundary(store: Store, fsiz: nat, newFsiz: nat, hi: nat) {
    if newFsiz == fsiz then IsEdge(store, fsiz, hi) else fsiz < newFsiz == hi
  }

  /** `after` has its own records in the bytes [lo, hi), tiling them, and is
      `store` elsewhere. */
  ghost predicate Rewritten(store: Store, after: Store, lo: nat, hi: nat) {
    && SameOutside(store, after, lo, hi)
    && lo in after
    && (forall o {:trigger EndsWell(after, hi, o)} | o in after && lo <= o < hi :: EndsWell(after, hi, o))
    && (forall o, p | o in after && p in after && lo <= o < p < hi :: o + after[o].Size() <= p)
  }

  lemma EndsBefore(store: Store, start: nat, fsiz: nat, o: nat, edge: nat)
    requires Tiled(store, start, fsiz) && o in store && IsEdge(store, fsiz, edge) && o < edge
    ensures o + store[o].Size() <= edge
  {
    assert EndsWell(store, fsiz, o);
  }

  lemma BeforeTheEnd(store: Store, start: nat, fsiz: nat)
    requires Tiled(store, start, fsiz)
    ensures forall o <- store :: start <= o < fsiz
  {
    forall o <- store
      ensures o < fsiz
    {
      assert EndsWell(store, fsiz, o);
    }
  }

  lemma RewrittenEndsWell(store: Store, after: Store, start: nat, fsiz: nat, newFsiz: nat,
                          lo: nat, hi: nat, o: nat)
    requires Tiled(store, start, fsiz)
    requires IsEdge(store, fsiz, lo) && Boundary(store, fsiz, newFsiz, hi) && lo < hi
    requires Rewritten(store, after, lo, hi)
    requires o in after
    ensures EndsWell(after, newFsiz, o)
  {
    if o < lo {
      EndsBefore(store, start, fsiz, o, lo);
      assert EndsWell(store, fsiz, o);
    } else if hi <= o {
      assert EndsWell(store, fsiz, o);
    } else {
      assert EndsWell(after, hi, o);
    }
  }

  lemma RewrittenApart(store: Store, after: Store, start: nat, fsiz: nat, newFsiz: nat,
                       lo: nat, hi: nat, o: nat, p: nat)
    requires Tiled(store, start, fsiz)
    requires IsEdge(store, fsiz, lo) && Boundary(store, fsiz, newFsiz, hi) && lo < hi
    requires Rewritten(store, after, lo, hi)
    requires o in after && p in after && o < p
    ensures o + after[o].Size() <= p
  {
    if o < lo <= p {
      EndsBefore(store, start, fsiz, o, lo);
    } else if lo <= o < hi <= p {
      assert EndsWell(after, hi, o);
    }
  }

  /** Rewriting the bytes [lo, hi) keeps the tiling. */
  lemma RewrittenTiled(store: Store, after: Store, start: nat, fsiz: nat, newFsiz: nat, lo: nat, hi: nat)
    requires Tiled(store, start, fsiz)
    requires IsEdge(store, fsiz, lo) && Boundary(store, fsiz, newFsiz, hi) && start <= lo < hi
    requires Rewritten(store, after, lo, hi)
    ensures Tiled(after, start, newFsiz)
  {
    forall o {:trigger EndsWell(after, newFsiz, o)} | o in after
      ensures EndsWell(after, newFsiz, o)
    {
      RewrittenEndsWell(store, after, start, fsiz, newFsiz, lo, hi, o);
    }
    forall o, p | o in after && p in after && o < p
      ensures o + after[o].Size() <= p
    {
      RewrittenApart(store, after, start, fsiz, newFsiz, lo, hi, o, p);
    }
  }

  /** A run survives any rewriting outside of it. */
  lemma RunUntouched(store: Store, after: Store, fsiz: nat, newFsiz: nat, lo: nat, hi: nat, r: Region)
    requires ReusableRun(store, fsiz, r)
    requires SameOutside(store, after, lo, hi) && lo in after
    requires Apart(r, Region(lo, hi - lo))
    requires fsiz <= newFsiz && (fsiz != newFsiz ==> r.End() <= lo <= fsiz)
    ensures ReusableRun(after, newFsiz, r)
  {
  }

  lemma WrittenIsRewritten(store: Store, off: nat, rec: Record)
    ensures Rewritten(store, Written(store, off, rec), off, off + rec.Size())
    ensures forall o | o in Written(store, off, rec) && off <= o < off + rec.Size() :: o == off
    ensures off in Written(store, off, rec) && Written(store, off, rec)[off] == rec
  {
  }

  /** Rewriting keeps the space invariant when no pool entry is touched. */
  lemma RewrittenKeepsSpace(store: Store, after: Store, start: nat, fsiz: nat, newFsiz: nat,
                            pool: seq<Region>, lo: nat, hi: nat)
    requires SpaceSound(store, start, fsiz, pool)
    requires IsEdge(store, fsiz, lo) && Boundary(store, fsiz, newFsiz, hi) && start <= lo < hi
    requires Rewritten(store, after, lo, hi)
    requires forall o | o in after && lo <= o < hi :: after[o].reusable ==> after[o].deleted
    requires forall i | 0 <= i < |pool| && pool[i] != NO_REGION :: Apart(pool[i], Region(lo, hi - lo))
    ensures SpaceSound(after, start, newFsiz, pool)
  {
    RewrittenTiled(store, after, start, fsiz, newFsiz, lo, hi);
    forall i | 0 <= i < |pool| && pool[i] != NO_REGION
      ensures ReusableRun(after, newFsiz, pool[i])
    {
      assert ReusableRun(store, fsiz, pool[i]) && Apart(pool[i], Region(lo, hi - lo));
      RunUntouched(store, after, fsiz, newFsiz, lo, hi, pool[i]);
    }
    forall o <- after
      ensures after[o].reusable ==> after[o].deleted
    {
      assert lo <= o < hi || o in store;
    }
  }

  // ---------- a live record and the room it may take ----------

  /** What a record in use may overwrite: itself and reusable records behind it,
      or, as the last record, bytes past the end of the file. */
  ghost predicate Room(store: Store, fsiz: nat, newFsiz: nat, off: nat, size: nat) {
    && off in store && !store[off].reusable
    && store[off].Size() <= size
    && Boundary(store, fsiz, newFsiz, off + size)
    && (fsiz != newFsiz ==> off + store[off].Size() == fsiz)
    && (forall o | o in store && off < o < off + size :: store[o].reusable)
  }

  /** A record in use has at least the room of its own bytes. */
  lemma RoomAtFirst(store: Store, start: nat, fsiz: nat, off: nat)
    requires Tiled(store, start, fsiz) && off in store && !store[off].reusable
    ensures Room(store, fsiz, fsiz, off, store[off].Size()) && off + store[off].Size() <= fsiz
  {
    assert EndsWell(store, fsiz, off);
  }

  /** Absorbing the reusable record at the end of the room. */
  lemma RoomGrows(store: Store, start: nat, fsiz: nat, off: nat, size: nat)
    requires Tiled(store, start, fsiz) && Room(store, fsiz, fsiz, off, size) && off + size < fsiz
    ensures off + size in store
    ensures store[off + size].reusable ==> Room(store, fsiz, fsiz, off, size + store[off + size].Size())
  {
    assert EndsWell(store, fsiz, off + size);
  }

  /** The last record may grow past the end of the file, and no pool slot is
      in its way. */
  lemma RoomAtTheEnd(store: Store, start: nat, fsiz: nat, pool: seq<Region>, off: nat, size: nat)
    requires SpaceSound(store, start, fsiz, pool) && off in store && !store[off].reusable
    requires off + store[off].Size() == fsiz < off + size
    ensures Room(store, fsiz, off + size, off, size)
    ensures Cleared(pool, off, off + size) == pool
  {
    BeforeTheEnd(store, start, fsiz);
    assert forall o | o in store && off < o :: off + store[off].Size() <= o;
    forall i | 0 <= i < |pool|
      ensures !(off <= pool[i].off < off + size)
    {
      assert pool[i] == NO_REGION || ReusableRun(store, fsiz, pool[i]);
    }
  }

  lemma NothingInRoom(store: Store, start: nat, fsiz: nat, pool: seq<Region>, off: nat)
    requires SpaceSound(store, start, fsiz, pool) && off in store && !store[off].reusable
    ensures Cleared(pool, off, off + store[off].Size()) == pool
  {
    forall i | 0 <= i < |pool|
      ensures !(off <= pool[i].off < off + store[off].Size())
    {
      assert pool[i] == NO_REGION || ReusableRun(store, fsiz, pool[i]);
    }
  }

  /** A part of a region is apart from whatever the region is apart from. */
  lemma TailIsApart(pool: seq<Region>, r: Region, tail: Region)
    requires forall i | 0 <= i < |pool| && pool[i] != NO_REGION :: Apart(pool[i], r)
    requires r.off <= tail.off && tail.End() <= r.End()
    ensures forall i | 0 <= i < |pool| && pool[i] != NO_REGION :: Apart(pool[i], tail)
  {
  }

  /** No run reaches into the room of a record unless it starts there. */
  lemma RoomIsApart(store: Store, start: nat, fsiz: nat, newFsiz: nat, off: nat, size: nat, r: Region)
    requires Tiled(store, start, fsiz) && Room(store, fsiz, newFsiz, off, size)
    requires ReusableRun(store, fsiz, r) && !(off <= r.off < off + size)
    ensures Apart(r, Region(off, size))
  {
    BeforeTheEnd(store, start, fsiz);
  }

  lemma RoomIsApartFromPool(store: Store, start: nat, fsiz: nat, newFsiz: nat, off: nat, size: nat,
                            pool: seq<Region>)
    requires SpaceSound(store, start, fsiz, pool) && Room(store, fsiz, newFsiz, off, size)
    ensures SpaceSound(store, start, fsiz, Cleared(pool, off, off + size))
    ensures var cleared := Cleared(pool, off, off + size);
            forall i | 0 <= i < |cleared| && cleared[i] != NO_REGION :: Apart(cleared[i], Region(off, size))
  {
    var cleared := Cleared(pool, off, off + size);
    forall i | 0 <= i < |cleared| && cleared[i] != NO_REGION
      ensures Apart(cleared[i], Region(off, size))
    {
      RoomIsApart(store, start, fsiz, newFsiz, off, size, pool[i]);
    }
  }

  /** Overwriting a record within its room keeps the space invariant. */
  lemma OverwriteKeepsSpace(store: Store, start: nat, fsiz: nat, newFsiz: nat, pool: seq<Region>,
                            off: nat, rec: Record)
    requires SpaceSound(store, start, fsiz, pool)
    requires Room(store, fsiz, newFsiz, off, rec.Size()) && !rec.reusable
    ensures SpaceSound(Written(store, off, rec), start, newFsiz, Cleared(pool, off, off + rec.Size()))
  {
    hide Tiled, PoolSound, Written, Rewritten;
    RoomIsApartFromPool(store, start, fsiz, newFsiz, off, rec.Size(), pool);
    WrittenIsRewritten(store, off, rec);
    BeforeTheEnd(store, start, fsiz);
    RewrittenKeepsSpace(store, Written(store, off, rec), start, fsiz, newFsiz,
                        Cleared(pool, off, off + rec.Size()), off, off + rec.Size());
  }

  // ---------- releasing ----------

  /** Giving up a record: its flags say so, nothing else changes on disk. */
  ghost function Flagged(store: Store, off: nat, reusable: bool): Store
    requires off in store
  {
    store[off := store[off].(deleted := true, reusable := reusable)]
  }

  lemma FlaggedKeepsSpace(store: Store, start: nat, fsiz: nat, pool: seq<Region>, off: nat, reusable: bool)
    requires SpaceSound(store, start, fsiz, pool)
    requires off in store && !store[off].reusable
    ensures SpaceSound(Flagged(store, off, reusable), start, fsiz, pool)
  {
    var hi := off + store[off].Size();
    BeforeTheEnd(store, start, fsiz);
    assert EndsWell(store, fsiz, off);
    FlaggedIsRewritten(store, off, reusable);
    forall i | 0 <= i < |pool| && pool[i] != NO_REGION
      ensures Apart(pool[i], Region(off, hi - off))
    {
      assert ReusableRun(store, fsiz, pool[i]);
      if off < pool[i].off {
        assert off + store[off].Size() <= pool[i].off;
      } else {
        assert pool[i].End() <= off;
      }
    }
    RewrittenKeepsSpace(store, Flagged(store, off, reusable), start, fsiz, fsiz, pool, off, hi);
  }

  lemma FlaggedIsRewritten(store: Store, off: nat, reusable: bool)
    requires off in store
    requires forall p | p in store && off < p :: off + store[off].Size() <= p
    ensures Rewritten(store, Flagged(store, off, reusable), off, off + store[off].Size())
  {
  }

  /** A released record together with the reusable records in its room is one
      run, even though no header on disk spans it. */
  lemma ReleasedIsRun(store: Store, start: nat, fsiz: nat, off: nat, size: nat)
    requires Tiled(store, start, fsiz) && 0 < start
    requires Room(store, fsiz, fsiz, off, size)
    ensures ReusableRun(Flagged(store, off, true), fsiz, Region(off, size))
  {
    BeforeTheEnd(store, start, fsiz);
  }

  // ---------- reusing ----------

  /** Putting one record over a whole run that no pool slot names any more. */
  lemma ReuseKeepsSpace(store: Store, start: nat, fsiz: nat, pool: seq<Region>, r: Region, rec: Record)
    requires SpaceSound(store, start, fsiz, pool)
    requires ReusableRun(store, fsiz, r) && rec.Size() == r.size
    requires forall i | 0 <= i < |pool| && pool[i] != NO_REGION :: Apart(pool[i], r)
    requires rec.reusable ==> rec.deleted
    ensures SpaceSound(Written(store, r.off, rec), start, fsiz, pool)
  {
    hide Tiled, PoolSound, Written, Rewritten;
    BeforeTheEnd(store, start, fsiz);
    WrittenIsRewritten(store, r.off, rec);
    RewrittenKeepsSpace(store, Written(store, r.off, rec), start, fsiz, fsiz, pool, r.off, r.End());
  }

  lemma WrittenTwice(store: Store, off: nat, front: Record, rest: Record)
    ensures var cut := off + front.Size();
            var after := Written(Written(store, off, front), cut, rest);
            && SameOutside(store, after, off, cut + rest.Size())
            && off in after && after[off] == front && cut in after && after[cut] == rest
            && (forall o | o in after && off <= o < cut + rest.Size() :: o == off || o == cut)
  {
    var cut := off + front.Size();
    assert SameOutside(store, Written(store, off, front), off, cut);
    assert SameOutside(Written(store, off, front), Written(Written(store, off, front), cut, rest), cut, cut + rest.Size());
  }

  lemma TwoAreRewritten(store: Store, after: Store, off: nat, cut: nat, hi: nat)
    requires SameOutside(store, after, off, hi)
    requires off in after && off + after[off].Size() == cut
    requires cut in after && cut + after[cut].Size() == hi
    requires forall o | o in after && off <= o < hi :: o == off || o == cut
    ensures Rewritten(store, after, off, hi)
  {
  }

  lemma SplitIsSound(store: Store, after: Store, start: nat, fsiz: nat, pool: seq<Region>,
                     off: nat, cut: nat, hi: nat)
    requires SpaceSound(store, start, fsiz, pool)
    requires off in store && off + store[off].Size() == hi
    requires forall i | 0 <= i < |pool| && pool[i] != NO_REGION :: Apart(pool[i], Region(off, hi - off))
    requires SameOutside(store, after, off, hi)
    requires off in after && off + after[off].Size() == cut && !after[off].reusable
    requires cut in after && cut + after[cut].Size() == hi && after[cut].reusable && after[cut].deleted
    requires forall o | o in after && off <= o < hi :: o == off || o == cut
    ensures SpaceSound(after, start, fsiz, pool)
    ensures ReusableRun(after, fsiz, Region(cut, hi - cut))
  {
    TwoAreRewritten(store, after, off, cut, hi);
    BeforeTheEnd(store, start, fsiz);
    assert EndsWell(store, fsiz, off);
    RewrittenKeepsSpace(store, after, start, fsiz, fsiz, pool, off, hi);
  }

  /** Cutting a run that is reused in two: the front goes into use, the rest is
      a reusable record that can go back to the pool. */
  lemma SplitKeepsSpace(store: Store, start: nat, fsiz: nat, pool: seq<Region>, r: Region,
                        front: Record, rest: Record)
    requires SpaceSound(store, start, fsiz, pool)
    requires ReusableRun(store, fsiz, r) && front.Size() + rest.Size() == r.size
    requires forall i | 0 <= i < |pool| && pool[i] != NO_REGION :: Apart(pool[i], r)
    requires !front.reusable && rest.reusable && rest.deleted
    ensures var cut := r.off + front.Size();
            var after := Written(Written(store, r.off, front), cut, rest);
            && SpaceSound(after, start, fsiz, pool)
            && ReusableRun(after, fsiz, Region(cut, rest.Size()))
            && InUse(after) == InUse(store)[r.off := front]
  {
    hide SpaceSound, Written, Rewritten, InUse;
    var cut := r.off + front.Size();
    var after := Written(Written(store, r.off, front), cut, rest);
    var whole := Record(true, true, 0, [], [], r.size - RECORD_HEAD, 0, 0);
    var joined := Written(store, r.off, whole);
    ReuseKeepsSpace(store, start, fsiz, pool, r, whole);
    WrittenIsRewritten(store, r.off, whole);
    WrittenTwice(store, r.off, front, rest);
    SameElsewhere(store, joined, after, r.off, r.off + r.size);
    SplitIsSound(joined, after, start, fsiz, pool, r.off, cut, r.off + r.size);
    InUseAfterSplit(store, after, fsiz, r, cut);
  }

  lemma SameElsewhere(store: Store, joined: Store, after: Store, lo: nat, hi: nat)
    requires Rewritten(store, joined, lo, hi) && SameOutside(store, after, lo, hi)
    ensures SameOutside(joined, after, lo, hi)
  {
  }

  lemma InUseAfterSplit(store: Store, after: Store, fsiz: nat, r: Region, cut: nat)
    requires ReusableRun(store, fsiz, r) && SameOutside(store, after, r.off, r.End())
    requires r.off in after && !after[r.off].reusable
    requires cut in after && after[cut].reusable
    requires forall o | o in after && r.off <= o < r.End() :: o == r.off || o == cut
    ensures InUse(after) == InUse(store)[r.off := after[r.off]]
  {
  }

  // ---------- appending ----------

  lemma AppendKeepsSpace(store: Store, start: nat, fsiz: nat, pool: seq<Region>, rec: Record)
    requires SpaceSound(store, start, fsiz, pool)
    requires rec.reusable ==> rec.deleted
    ensures Written(store, fsiz, rec) == store[fsiz := rec]
    ensures fsiz !in store
    ensures SpaceSound(store[fsiz := rec], start, fsiz + rec.Size(), pool)
  {
    BeforeTheEnd(store, start, fsiz);
    assert Written(store, fsiz, rec) == store[fsiz := rec];
    WrittenIsRewritten(store, fsiz, rec);
    forall i | 0 <= i < |pool| && pool[i] != NO_REGION
      ensures Apart(pool[i], Region(fsiz, rec.Size()))
    {
      assert ReusableRun(store, fsiz, pool[i]);
    }
    RewrittenKeepsSpace(store, store[fsiz := rec], start, fsiz, fsiz + rec.Size(), pool, fsiz, fsiz + rec.Size());
  }

  // ---------- the records in use ----------

  /** The records that are not reusable: the ones the search trees may reach. */
  ghost function InUse(store: Store): Store {
    map o | o in store && !store[o].reusable :: store[o]
  }

  lemma InUseAfterOverwrite(store: Store, fsiz: nat, newFsiz: nat, off: nat, rec: Record)
    requires Room(store, fsiz, newFsiz, off, rec.Size()) && !rec.reusable
    ensures InUse(Written(store, off, rec)) == InUse(store)[off := rec]
  {
  }

  lemma InUseAfterReuse(store: Store, fsiz: nat, r: Region, rec: Record)
    requires ReusableRun(store, fsiz, r) && rec.Size() == r.size && !rec.reusable
    ensures InUse(Written(store, r.off, rec)) == InUse(store)[r.off := rec]
  {
  }

  lemma RunSurvivesRelease(store: Store, fsiz: nat, off: nat, r: Region)
    requires ReusableRun(store, fsiz, r) && off in store && !store[off].reusable
    ensures ReusableRun(Flagged(store, off, true), fsiz, r)
  {
  }

  lemma RunStarts(store: Store, fsiz: nat, r: Region)
    requires ReusableRun(store, fsiz, r)
    ensures r.off > 0 && r.size > 0 && r.off in store && r.off !in InUse(store)
  {
  }

  /** Taking a region out of the pool: nothing pooled overlaps it any more. */
  lemma TakenFromPool(store: Store, fsiz: nat, pool: seq<Region>, i: nat, pool': seq<Region>)
    requires PoolSound(store, fsiz, pool) && i < |pool| && pool[i] != NO_REGION
    requires pool' == pool[i := NO_REGION]
    ensures ReusableRun(store, fsiz, pool[i])
    ensures PoolSound(store, fsiz, pool')
    ensures forall x | pool[i].off <= x < pool[i].End() :: !Pooled(pool', x)
  {
    forall j | 0 <= j < |pool'| && pool'[j] != NO_REGION
      ensures Apart(pool'[j], pool[i])
    {
      assert Apart(pool[i], pool[j]) || Apart(pool[j], pool[i]);
    }
  }

  /** Writing a child word of a record moves nothing. */
  lemma LinkKeepsSpace(store: Store, start: nat, fsiz: nat, pool: seq<Region>, off: nat, rec: Record)
    requires SpaceSound(store, start, fsiz, pool)
    requires off in store && !store[off].reusable && !rec.reusable && rec.Size() == store[off].Size()
    ensures SpaceSound(store[off := rec], start, fsiz, pool)
    ensures InUse(store[off := rec]) == InUse(store)[off := rec]
  {
    hide Tiled, PoolSound, Room;
    RoomAtFirst(store, start, fsiz, off);
    NothingInRoom(store, start, fsiz, pool, off);
    OverwriteKeepsSpace(store, start, fsiz, fsiz, pool, off, rec);
    WrittenInPlace(store, start, fsiz, off, rec);
  }

  lemma WrittenInPlace(store: Store, start: nat, fsiz: nat, off: nat, rec: Record)
    requires Tiled(store, start, fsiz) && off in store && rec.Size() == store[off].Size()
    ensures Written(store, off, rec) == store[off := rec]
  {
    assert forall o | o in store && off < o :: off + store[off].Size() <= o;
  }

  lemma NothingAtTheEnd(store: Store, start: nat, fsiz: nat, pool: seq<Region>)
    requires SpaceSound(store, start, fsiz, pool)
    ensures fsiz !in store && fsiz !in InUse(store)
  {
    BeforeTheEnd(store, start, fsiz);
  }

  lemma InUseAfterRelease(store: Store, off: nat)
    requires off in store
    ensures InUse(Flagged(store, off, true)) == InUse(store) - {off}
  {
  }

  lemma InUseAfterTombstone(store: Store, off: nat)
    requires off in store && !store[off].reusable
    ensures InUse(Flagged(store, off, false)) == InUse(store)[off := store[off].(deleted := true)]
  {
  }

  lemma InUseAfterAppend(store: Store, off: nat, rec: Record)
    requires !rec.reusable
    ensures InUse(store[off := rec]) == InUse(store)[off := rec]
  {
  }

  // ---------- the pool ----------

  /** The pool knows the byte `x` to be reusable. */
  ghost predicate Pooled(pool: seq<Region>, x: int) {
    exists i :: 0 <= i < |pool| && pool[i] != NO_REGION && pool[i].off <= x < pool[i].End()
  }

  /** A region no byte of which is pooled is apart from every used slot. */
  lemma UnpooledIsApart(store: Store, fsiz: nat, pool: seq<Region>, r: Region)
    requires PoolSound(store, fsiz, pool) && r.size > 0
    requires forall x | r.off <= x < r.End() :: !Pooled(pool, x)
    ensures forall i | 0 <= i < |pool| && pool[i] != NO_REGION :: Apart(pool[i], r)
  {
    forall i | 0 <= i < |pool| && pool[i] != NO_REGION
      ensures Apart(pool[i], r)
    {
      assert ReusableRun(store, fsiz, pool[i]);
      var x := if pool[i].off <= r.off then r.off else pool[i].off;
      assert pool[i].off <= x < pool[i].End() && r.off <= x < r.End() ==> Pooled(pool, x);
    }
  }

  lemma SlotFilled(store: Store, fsiz: nat, pool: seq<Region>, i: nat, r: Region)
    requires PoolSound(store, fsiz, pool) && i < |pool|
    requires ReusableRun(store, fsiz, r)
    requires forall j | 0 <= j < |pool| && pool[j] != NO_REGION :: Apart(pool[j], r)
    ensures PoolSound(store, fsiz, pool[i := r])
  {
  }

  /** Two adjacent runs are one run. */
  lemma JoinedRuns(store: Store, fsiz: nat, r: Region, s: Region)
    requires ReusableRun(store, fsiz, r) && ReusableRun(store, fsiz, s)
    requires r.End() == s.off
    ensures ReusableRun(store, fsiz, Region(r.off, r.size + s.size))
  {
  }

  lemma PooledPermuted(pool: seq<Region>, pool': seq<Region>)
    requires multiset(pool) == multiset(pool')
    ensures forall x :: Pooled(pool, x) <==> Pooled(pool', x)
  {
    assert forall r :: r in pool <==> r in multiset(pool);
    assert forall r :: r in pool' <==> r in multiset(pool');
    forall x
      ensures Pooled(pool, x) <==> Pooled(pool', x)
    {
      PooledIn(pool, x);
      PooledIn(pool', x);
    }
  }

  lemma PooledIn(pool: seq<Region>, x: int)
    ensures Pooled(pool, x) <==> exists r :: r in pool && r != NO_REGION && r.off <= x < r.End()
  {
  }

  lemma PooledAfterPut(pool: seq<Region>, i: nat, r: Region)
    requires i < |pool| && r != NO_REGION
    ensures var pool' := pool[i := r];
            && (forall x | Pooled(pool', x) :: Pooled(pool, x) || r.off <= x < r.End())
            && (forall x | r.off <= x < r.End() :: Pooled(pool', x))
            && (pool[i] == NO_REGION ==> forall x | Pooled(pool, x) :: Pooled(pool', x))
  {
    var pool' := pool[i := r];
    forall x | r.off <= x < r.End()
      ensures Pooled(pool', x)
    {
      assert pool'[i] == r;
    }
    if pool[i] == NO_REGION {
      forall x | Pooled(pool, x)
        ensures Pooled(pool', x)
      {
        var j :| 0 <= j < |pool| && pool[j] != NO_REGION && pool[j].off <= x < pool[j].End();
        assert pool'[j] == pool[j];
      }
    }
  }

  /** Slots i - 1 and i trading places. */
  ghost function Swapped(pool: seq<Region>, i: nat): seq<Region>
    requires 0 < i < |pool|
  {
    pool[i - 1 := pool[i]][i := pool[i - 1]]
  }

  lemma SwapKeepsPool(store: Store, fsiz: nat, pool: seq<Region>, i: nat)
    requires PoolSound(store, fsiz, pool) && 0 < i < |pool|
    ensures PoolSound(store, fsiz, Swapped(pool, i))
    ensures multiset(Swapped(pool, i)) == multiset(pool)
  {
    hide ReusableRun;
  }

  /** The first `n` slots rise by offset, but for slot `m`, which may belong
      further to the front. */
  ghost predicate RisingBut(pool: seq<Region>, n: nat, m: nat)
    requires m < n <= |pool|
  {
    forall i, j | 0 <= i < j < n && j != m :: pool[i].off <= pool[j].off
  }

  lemma RisingButLast(pool: seq<Region>, n: nat)
    requires n < |pool|
    requires forall i, j | 0 <= i < j < n :: pool[i].off <= pool[j].off
    ensures RisingBut(pool, n + 1, n)
  {
  }

  lemma SwapKeepsRising(pool: seq<Region>, n: nat, m: nat)
    requires 0 < m < n <= |pool| && RisingBut(pool, n, m) && pool[m - 1].off > pool[m].off
    ensures RisingBut(Swapped(pool, m), n, m - 1)
  {
  }

  lemma NowRising(pool: seq<Region>, n: nat, m: nat)
    requires m < n <= |pool| && RisingBut(pool, n, m) && (m == 0 || pool[m - 1].off <= pool[m].off)
    ensures forall i, j | 0 <= i < j < n :: pool[i].off <= pool[j].off
  {
  }

  /** Slot i - 1 joined into slot i. */
  ghost function Joined(pool: seq<Region>, i: nat): seq<Region>
    requires 0 < i < |pool|
  {
    pool[i := Region(pool[i - 1].off, pool[i].size + pool[i - 1].size)][i - 1 := NO_REGION]
  }

  lemma JoinKeepsPool(store: Store, fsiz: nat, pool: seq<Region>, i: nat)
    requires PoolSound(store, fsiz, pool) && 0 < i < |pool|
    requires pool[i - 1].off > 0 && pool[i - 1].End() == pool[i].off
    ensures PoolSound(store, fsiz, Joined(pool, i))
  {
    JoinedRuns(store, fsiz, pool[i - 1], pool[i]);
    assert pool[i - 1].size > 0 && pool[i].size > 0;
    hide ReusableRun;
  }

  /** Joining runs that touch loses no byte and adds none. */
  lemma JoinKeepsBytes(pool: seq<Region>, i: nat, x: int)
    requires 0 < i < |pool| && pool[i - 1].size > 0 && pool[i].size > 0 && pool[i - 1].off > 0
    requires pool[i - 1].End() == pool[i].off
    ensures Pooled(pool, x) <==> Pooled(Joined(pool, i), x)
  {
    var pool' := Joined(pool, i);
    if Pooled(pool, x) {
      var j :| 0 <= j < |pool| && pool[j] != NO_REGION && pool[j].off <= x < pool[j].End();
      assert pool'[if j == i - 1 then i else j].off <= x;
    }
    if Pooled(pool', x) {
      var j :| 0 <= j < |pool'| && pool'[j] != NO_REGION && pool'[j].off <= x < pool'[j].End();
      if j == i {
        assert pool[i - 1].off <= x < pool[i - 1].End() || pool[i].off <= x < pool[i].End();
      } else {
        assert pool[j] == pool'[j];
      }
    }
  }
}
