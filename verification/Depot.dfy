/** Depot: a hash database in a single file. */
module Depot {
  import opened ByteOrder
  import opened DepotSpace
  import opened HashIndex
  import opened Options

  const FILE_HEAD: nat := 48 // DP_HEADSIZ
  const POOL_SIZE: nat := 16 // DP_FBPOOLSIZ
  const FS_BLOCK: nat := 4096 // DP_FSBLKSIZ

  datatype Mode = Over | Keep | Cat

  /** The file word that holds the pointer a search last followed. */
  datatype Joint = NoJoint | LeftWord(owner: nat) | RightWord(owner: nat)

  ghost function JointOf(link: Link, at: Places): Joint {
    match link
    case FromBucket => NoJoint
    case LeftOf(p) => if p in at then LeftWord(at[p]) else NoJoint
    case RightOf(p) => if p in at then RightWord(at[p]) else NoJoint
  }

  function Pow2(n: nat): (p: nat)
    ensures p > 0
  {
    if n == 0 then 1 else 2 * Pow2(n - 1)
  }

  /** The bytes from `end` to the next multiple of `unit`, never none. */
  function PadTo(end: nat, unit: nat): (pad: nat)
    requires unit > 0
    ensures 0 < pad <= unit && end + pad == (end / unit + 1) * unit
  {
    unit - end % unit
  }

  function Floor(n: nat, unit: nat): nat
    requires unit > 0
  {
    n / unit * unit
  }

  /** vsiz * (2.0 / (1 << a)), truncated: the quotient is exact in binary. */
  function Share(vsiz: nat, a: nat): nat {
    vsiz * 2 / Pow2(a)
  }

  /** A search for `k` that has come to subtree `cur` of `top` by way of `link`. */
  ghost predicate Looking(live: Store, at: Places, second: Ranking, top: Tree, k: Key, delhit: bool,
                          cur: Tree, link: Link, off: nat, joint: Joint) {
    && off == Root(at, cur) && Linked(live, at, cur) && Ordered(second, cur)
    && (k in at && at[k] in live && (delhit || !live[at[k]].deleted) ==> k in Keys(cur))
    && (delhit ==> LinkTo(second, top, k, FromBucket) == LinkTo(second, cur, k, link))
    && joint == JointOf(link, at)
  }

  /** One comparison of the search. A search that does not stop at a tombstone
      goes on to the left of it. */
  lemma LookingOn(live: Store, at: Places, second: Ranking, top: Tree, k: Key, delhit: bool,
                  cur: Tree, link: Link, off: nat, joint: Joint)
    requires Looking(live, at, second, top, k, delhit, cur, link, off, joint) && off != 0
    requires Placed(live, at, second)
    ensures cur.Node? && off in live && cur.key in at && off == at[cur.key]
    ensures live[off].key == cur.key && live[off].hash == second.hash(cur.key)
    ensures Compare(second, k, cur.key) > 0 || (k == cur.key && !delhit && live[off].deleted) ==>
              Looking(live, at, second, top, k, delhit, cur.left, LeftOf(cur.key), live[off].left, LeftWord(off))
    ensures Compare(second, k, cur.key) < 0 ==>
              Looking(live, at, second, top, k, delhit, cur.right, RightOf(cur.key), live[off].right, RightWord(off))
    ensures k == cur.key ==> LinkTo(second, cur, k, link) == link
    ensures k == cur.key && delhit ==> joint == JointOf(LinkTo(second, top, k, FromBucket), at)
  {
    assert NodeAt(live, at, cur.key, Root(at, cur.left), Root(at, cur.right));
    if cur.key != k {
      SearchStep(second, cur, k);
    }
  }

  lemma NotFound(live: Store, at: Places, second: Ranking, top: Tree, k: Key, delhit: bool,
                 cur: Tree, link: Link, off: nat, joint: Joint)
    requires Looking(live, at, second, top, k, delhit, cur, link, off, joint) && off == 0
    requires Placed(live, at, second)
    ensures !(k in at && at[k] in live && (delhit || !live[at[k]].deleted))
    ensures delhit ==> joint == JointOf(LinkTo(second, top, k, FromBucket), at)
  {
  }

  /** A database handle. */
  class Database {
    const first: Hash
    /** The comparison of dprecsearch. */
    const second: KeysUp
    var store: Store
    var buckets: array<nat>
    var fsiz: nat
    var rnum: int
    var align: int
    var fbpool: array<Region>
    var fbpinc: nat
    var ioff: nat
    ghost var at: Places
    ghost var trees: seq<Tree>

    /** Where the records begin. */
    function Start(): nat
      reads this`buckets
    {
      FILE_HEAD + 4 * buckets.Length
    }

    /** The space invariant. */
    ghost predicate Sound()
      reads this`store, this`fsiz, this`fbpool, this`buckets, fbpool
    {
      SpaceSound(store, Start(), fsiz, fbpool[..])
    }

    /** The index invariant. */
    ghost predicate Findable()
      reads this`store, this`at, this`trees, this`buckets, buckets
    {
      Indexed(InUse(store), at, trees, buckets[..], first, second)
    }

    /** The map the database stands for. */
    ghost function Contents(): map<Key, seq<byte>>
      reads this`store, this`at
    {
      Live(InUse(store), at)
    }

    ghost predicate Valid()
      reads this, fbpool, buckets
    {
      Sound() && Findable() && rnum == |Contents()|
    }

    // ---------- searching ----------

    /** dprecsearch */
    method Search(k: Key, delhit: bool) returns (bi: nat, off: nat, joint: Joint, head: Record, found: bool)
      requires Findable()
      ensures bi < buckets.Length == |trees| && bi == BucketOf(first, k, |trees|)
      ensures found <==> k in at && (delhit || !InUse(store)[at[k]].deleted)
      ensures found ==> off == at[k] && off in store && !store[off].reusable && head == store[off]
      ensures delhit ==> joint == JointOf(LinkTo(second, trees[bi], k, FromBucket), at)
    {
      hide BucketOf;
      head := Record(false, false, 0, [], [], 0, 0, 0);
      var hash := second.hash(k);
      bi := BucketOf(first, k, buckets.Length);
      off := buckets[bi];
      joint := NoJoint;
      found := false;
      ghost var live := InUse(store);
      ghost var cur := trees[bi];
      ghost var link := FromBucket;
      assert BucketOk(live, at, trees[bi], buckets[..][bi], second);
      hide Looking, Indexed, LinkTo, JointOf;
      while off != 0
        invariant Looking(live, at, second, trees[bi], k, delhit, cur, link, off, joint)
        decreases cur
      {
        LookingOn(live, at, second, trees[bi], k, delhit, cur, link, off, joint);
        head := store[off];
        if hash > head.hash {
          joint := LeftWord(off);
          off := head.left;
          cur, link := cur.left, LeftOf(cur.key);
        } else if hash < head.hash {
          joint := RightWord(off);
          off := head.right;
          cur, link := cur.right, RightOf(cur.key);
        } else {
          var kcmp := KeyCmp(k, head.key);
          if kcmp > 0 {
            joint := LeftWord(off);
            off := head.left;
            cur, link := cur.left, LeftOf(cur.key);
          } else if kcmp < 0 {
            joint := RightWord(off);
            off := head.right;
            cur, link := cur.right, RightOf(cur.key);
          } else if !delhit && head.deleted {
            joint := LeftWord(off);
            off := head.left;
            cur, link := cur.left, LeftOf(cur.key);
          } else {
            found := true;
            return;
          }
        }
      }
      NotFound(live, at, second, trees[bi], k, delhit, cur, link, off, joint);
    }

    // ---------- the free block pool ----------

    /** Clear every slot that starts in [lo, hi). */
    method ClearSlots(lo: int, hi: int)
      modifies fbpool
      ensures fbpool[..] == Cleared(old(fbpool[..]), lo, hi)
    {
      var i := 0;
      while i < fbpool.Length
        invariant 0 <= i <= fbpool.Length
        invariant forall j | 0 <= j < i ::
                    fbpool[j] == if lo <= old(fbpool[j]).off < hi then NO_REGION else old(fbpool[j])
        invariant forall j | i <= j < fbpool.Length :: fbpool[j] == old(fbpool[j])
      {
        if lo <= fbpool[i].off < hi {
          fbpool[i] := NO_REGION;
        }
        i := i + 1;
      }
    }

    /** The slot of the smallest region that holds `nsiz` bytes, or -1. */
    method BestFit(nsiz: nat) returns (mi: int)
      requires nsiz > 0
      ensures -1 <= mi < fbpool.Length
      ensures mi == -1 ==> forall i | 0 <= i < fbpool.Length :: fbpool[i].size < nsiz
      ensures mi >= 0 ==> nsiz <= fbpool[mi].size
                          && forall i | 0 <= i < fbpool.Length && nsiz <= fbpool[i].size :: fbpool[mi].size <= fbpool[i].size
    {
      mi := -1;
      var min := -1;
      var i := 0;
      while i < fbpool.Length
        invariant 0 <= i <= fbpool.Length && -1 <= mi < i
        invariant mi == -1 ==> forall j | 0 <= j < i :: fbpool[j].size < nsiz
        invariant mi >= 0 ==> nsiz <= fbpool[mi].size == min
                              && forall j | 0 <= j < i && nsiz <= fbpool[j].size :: min <= fbpool[j].size
      {
        if nsiz <= fbpool[i].size && (mi == -1 || fbpool[i].size < min) {
          mi := i;
          min := fbpool[i].size;
        }
        i := i + 1;
      }
    }

    /** qsort with dpfbpoolcmp: slots by ascending offset. */
    method SortSlots(ghost file: Store)
      requires PoolSound(file, fsiz, fbpool[..])
      modifies fbpool
      ensures PoolSound(file, fsiz, fbpool[..])
      ensures multiset(fbpool[..]) == multiset(old(fbpool[..]))
      ensures forall i, j | 0 <= i < j < fbpool.Length :: fbpool[i].off <= fbpool[j].off
    {
      var n := 0;
      while n < fbpool.Length
        invariant 0 <= n <= fbpool.Length
        invariant PoolSound(file, fsiz, fbpool[..])
        invariant multiset(fbpool[..]) == multiset(old(fbpool[..]))
        invariant forall i, j | 0 <= i < j < n :: fbpool[i].off <= fbpool[j].off
      {
        SinkSlot(n, file);
        n := n + 1;
      }
    }

    method SinkSlot(n: nat, ghost file: Store)
      requires n < fbpool.Length && PoolSound(file, fsiz, fbpool[..])
      requires forall i, j | 0 <= i < j < n :: fbpool[i].off <= fbpool[j].off
      modifies fbpool
      ensures PoolSound(file, fsiz, fbpool[..])
      ensures multiset(fbpool[..]) == multiset(old(fbpool[..]))
      ensures forall i, j | 0 <= i < j <= n :: fbpool[i].off <= fbpool[j].off
    {
      hide PoolSound, RisingBut, Swapped;
      var m := n;
      assert RisingBut(fbpool[..], n + 1, n) by {
        RisingButLast(fbpool[..], n);
      }
      while m > 0 && fbpool[m - 1].off > fbpool[m].off
        invariant 0 <= m <= n
        invariant PoolSound(file, fsiz, fbpool[..])
        invariant multiset(fbpool[..]) == multiset(old(fbpool[..]))
        invariant RisingBut(fbpool[..], n + 1, m)
      {
        ghost var before := fbpool[..];
        SwapKeepsPool(file, fsiz, before, m);
        SwapKeepsRising(before, n + 1, m);
        SwapSlots(m);
        m := m - 1;
      }
      NowRising(fbpool[..], n + 1, m);
    }

    method SwapSlots(m: nat)
      requires 0 < m < fbpool.Length
      modifies fbpool
      ensures fbpool[..] == Swapped(old(fbpool[..]), m)
    {
      fbpool[m - 1], fbpool[m] := fbpool[m], fbpool[m - 1];
    }

    /** dpfbpoolcoal: now and then, join the slots of adjacent runs. */
    method Coalesce(ghost file: Store)
      requires PoolSound(file, fsiz, fbpool[..])
      modifies this`fbpinc, fbpool
      ensures PoolSound(file, fsiz, fbpool[..])
      ensures forall x :: Pooled(fbpool[..], x) <==> Pooled(old(fbpool[..]), x)
    {
      fbpinc := fbpinc + 1;
      if fbpinc - 1 <= 2 * fbpool.Length / 4 {
        return;
      }
      fbpinc := 0;
      SortSlots(file);
      PooledPermuted(old(fbpool[..]), fbpool[..]);
      var i := 1;
      while i < fbpool.Length
        invariant 1 <= i
        invariant PoolSound(file, fsiz, fbpool[..])
        invariant forall x :: Pooled(fbpool[..], x) <==> Pooled(old(fbpool[..]), x)
      {
        if fbpool[i - 1].off > 0 && fbpool[i - 1].off + fbpool[i - 1].size - fbpool[i].off == 0 {
          ghost var before := fbpool[..];
          fbpool[i] := Region(fbpool[i - 1].off, fbpool[i].size + fbpool[i - 1].size);
          fbpool[i - 1] := NO_REGION;
          assert fbpool[..] == Joined(before, i);
          JoinKeepsPool(file, fsiz, before, i);
          forall x
            ensures Pooled(before, x) <==> Pooled(Joined(before, i), x)
          {
            JoinKeepsBytes(before, i, x);
          }
        }
        i := i + 1;
      }
    }

    /** The loop dprecdelete and dprecrewrite share: a region goes to an empty
        slot, or else replaces the smallest one if it is larger. `file` is the store the caller
        is about to leave behind. */
    method PoolAdd(off: nat, size: nat, ghost file: Store)
      requires PoolSound(file, fsiz, fbpool[..])
      requires ReusableRun(file, fsiz, Region(off, size))
      requires forall i | 0 <= i < fbpool.Length && fbpool[i] != NO_REGION :: Apart(fbpool[i], Region(off, size))
      modifies this`fbpinc, fbpool
      ensures PoolSound(file, fsiz, fbpool[..])
      ensures forall x | Pooled(fbpool[..], x) :: Pooled(old(fbpool[..]), x) || off <= x < off + size
      ensures NO_REGION in old(fbpool[..]) ==>
                forall x :: Pooled(fbpool[..], x) <==> Pooled(old(fbpool[..]), x) || off <= x < off + size
    {
      var mi, min := -1, -1;
      var i := 0;
      while i < fbpool.Length
        invariant 0 <= i <= fbpool.Length && fbpool[..] == old(fbpool[..])
        invariant -1 <= mi < i && (mi >= 0 ==> fbpool[mi].size == min)
        invariant forall j | 0 <= j < i :: fbpool[j] != NO_REGION
        invariant i > 0 ==> mi >= 0
      {
        if fbpool[i].off == -1 {
          assert fbpool[..][i] == NO_REGION;
          PutSlot(i, off, size, file);
          return;
        }
        if mi == -1 || fbpool[i].size < min {
          mi := i;
          min := fbpool[i].size;
        }
        i := i + 1;
      }
      if mi >= 0 && size > min {
        PutSlot(mi, off, size, file);
      }
    }

    method PutSlot(i: nat, off: nat, size: nat, ghost file: Store)
      requires i < fbpool.Length
      requires PoolSound(file, fsiz, fbpool[..])
      requires ReusableRun(file, fsiz, Region(off, size))
      requires forall i | 0 <= i < fbpool.Length && fbpool[i] != NO_REGION :: Apart(fbpool[i], Region(off, size))
      modifies this`fbpinc, fbpool
      ensures PoolSound(file, fsiz, fbpool[..])
      ensures forall x | Pooled(fbpool[..], x) :: Pooled(old(fbpool[..]), x) || off <= x < off + size
      ensures forall x | off <= x < off + size :: Pooled(fbpool[..], x)
      ensures old(fbpool[i]) == NO_REGION ==> forall x | Pooled(old(fbpool[..]), x) :: Pooled(fbpool[..], x)
    {
      SlotFilled(file, fsiz, fbpool[..], i, Region(off, size));
      PooledAfterPut(fbpool[..], i, Region(off, size));
      fbpool[i] := Region(off, size);
      assert fbpool[..] == old(fbpool[..])[i := Region(off, size)];
      Coalesce(file);
    }

    // ---------- writing records ----------

    /** dppadsize */
    function PadSize(ksiz: nat, vsiz: nat): nat
      reads this`align, this`fsiz
    {
      var end := fsiz + RECORD_HEAD + ksiz + vsiz;
      if align > 0 then
        PadTo(end, align)
      else if align < 0 then
        var pad := Share(vsiz, -align);
        if vsiz + pad >= FS_BLOCK then
          var unit := if fsiz % FS_BLOCK == 0 then FS_BLOCK else FS_BLOCK / 2;
          Floor(if vsiz <= FS_BLOCK then 0 else pad, unit) + PadTo(end, unit)
        else if pad >= RECORD_HEAD then pad else RECORD_HEAD
      else
        0
    }

    /** Write a whole record, over whatever was there. */
    method Write(off: nat, rec: Record)
      modifies this`store
      ensures store == Written(old(store), off, rec)
    {
      store := (map o | o in store && !(off < o < off + rec.Size()) :: store[o])[off := rec];
    }

    /** dprecappend */
    method Append(k: Key, v: seq<byte>, hash: int, left: nat, right: nat) returns (off: nat, ghost rec: Record)
      requires Sound()
      modifies this`store, this`fsiz
      ensures Sound()
      ensures off == old(fsiz) && off !in old(store) && off > 0
      ensures rec == Record(false, false, hash, k, v, rec.padding, left, right)
      ensures store == old(store)[off := rec] && fsiz == old(fsiz) + rec.Size()
      ensures align > 0 ==> fsiz == ((old(fsiz) + RECORD_HEAD + |k| + |v|) / align + 1) * align
    {
      var written := Record(false, false, hash, k, v, PadSize(|k|, |v|), left, right);
      rec := written;
      AppendKeepsSpace(store, Start(), fsiz, fbpool[..], rec);
      off := fsiz;
      store := store[off := written];
      fsiz := fsiz + written.Size();
    }

    /** dprecover: write `v` into a record at `off` whose header, as it is to be
        written, is `head`. */
    method Recover(off: nat, head: Record, v: seq<byte>, cat: bool) returns (ghost rec: Record)
      requires (if cat then |v| else |v| - |head.value|) <= head.padding
      modifies this`store, fbpool
      ensures forall i | 0 <= i < fbpool.Length ::
                fbpool[i] == old(fbpool[i]) || (old(fbpool[i]).off == off && fbpool[i] == NO_REGION)
      ensures rec == Record(false, false, head.hash, head.key, if cat then head.value + v else v, rec.padding,
                            head.left, head.right)
      ensures rec.Size() == head.Size() && store == Written(old(store), off, rec)
    {
      var i := 0;
      while i < fbpool.Length
        invariant 0 <= i <= fbpool.Length
        invariant forall j | 0 <= j < fbpool.Length :: fbpool[j] == old(fbpool[j])
      {
        if fbpool[i].off == off {
          fbpool[i] := NO_REGION;
          break;
        }
        i := i + 1;
      }
      var value, pad := head.value, head.padding;
      if cat {
        pad := pad - |v|;
        value := value + v;
      } else {
        pad := pad + |value| - |v|;
        value := v;
      }
      var written := Record(false, false, head.hash, head.key, value, pad, head.left, head.right);
      rec := written;
      Write(off, written);
    }

    /** dprecdelete: `head` may span absorbed neighbours that the header on disk
        does not know of; only the flags word is written. */
    method Release(off: nat, head: Record, reusable: bool)
      requires Sound() && off in store && !store[off].reusable
      requires reusable ==> Room(store, fsiz, fsiz, off, head.Size())
      requires reusable ==> forall i | 0 <= i < fbpool.Length && fbpool[i] != NO_REGION ::
                              Apart(fbpool[i], Region(off, head.Size()))
      modifies this`store, this`fbpinc, fbpool
      ensures Sound()
      ensures store == Flagged(old(store), off, reusable)
      ensures forall x | Pooled(fbpool[..], x) ::
                Pooled(old(fbpool[..]), x) || (reusable && off <= x < off + head.Size())
      ensures !reusable ==> fbpool[..] == old(fbpool[..])
    {
      var size := head.Size();
      FlaggedKeepsSpace(store, Start(), fsiz, fbpool[..], off, reusable);
      if reusable {
        ReleasedIsRun(store, Start(), fsiz, off, size);
      }
      if reusable {
        PoolAdd(off, size, Flagged(store, off, true));
      }
      store := store[off := store[off].(deleted := true, reusable := reusable)];
    }

    /** dprecrewrite: a record goes over a run of reusable ones. With an enlarged
        pool, a region twice too large is cut and the rest goes to the pool. */
    method Rewrite(off: nat, rsiz: nat, k: Key, v: seq<byte>, hash: int, left: nat, right: nat) returns (ghost rec: Record)
      requires Sound()
      requires ReusableRun(store, fsiz, Region(off, rsiz)) && RECORD_HEAD + |k| + |v| <= rsiz
      requires forall i | 0 <= i < fbpool.Length && fbpool[i] != NO_REGION :: Apart(fbpool[i], Region(off, rsiz))
      modifies this`store, this`fbpinc, fbpool
      ensures Sound()
      ensures rec == Record(false, false, hash, k, v, rec.padding, left, right)
      ensures InUse(store) == InUse(old(store))[off := rec]
    {
      hide Tiled, PoolSound, ReusableRun, InUse, Written;
      var asiz := RECORD_HEAD + |k| + |v|;
      var padding, rest: nat := rsiz - asiz, 0;
      if 2 * fbpool.Length > 4 * POOL_SIZE && padding > asiz {
        rest := (padding - asiz) / 2 + asiz;
        padding := padding - rest;
      }
      var head := Record(false, false, hash, k, v, padding, left, right);
      rec := head;
      if rest == 0 {
        ReuseKeepsSpace(store, Start(), fsiz, fbpool[..], Region(off, rsiz), head);
        InUseAfterReuse(store, fsiz, Region(off, rsiz), head);
        Write(off, head);
      } else {
        var cut := off + head.Size();
        // Only the header of the rest is written; its key and value bytes are
        // whatever lies there and are never read.
        var tail := Record(true, true, hash, k, v, rest - asiz, 0, 0);
        SplitKeepsSpace(store, Start(), fsiz, fbpool[..], Region(off, rsiz), head, tail);
        Write(off, head);
        Write(cut, tail);
        TailIsApart(fbpool[..], Region(off, rsiz), Region(cut, rest));
        PoolAdd(cut, rest, store);
      }
    }

    // ---------- dpput ----------

    /** The room for `nsiz` bytes at `off`: the last record grows, any other
        absorbs reusable neighbours. Only the header in memory says so yet. */
    method MakeRoom(off: nat, head0: Record, nsiz: nat) returns (head: Record)
      requires Sound() && off in store && !store[off].reusable && head0.Size() == store[off].Size()
      modifies this`fsiz, fbpool
      ensures head0.padding <= head.padding && head == head0.(padding := head.padding)
      ensures Room(store, old(fsiz), fsiz, off, head.Size())
      ensures fbpool[..] == Cleared(old(fbpool[..]), off, off + head.Size())
      ensures fsiz != old(fsiz) ==> nsiz <= head.Size()
    {
      hide Tiled, PoolSound, ReusableRun, Room;
      head := head0;
      var rsiz := head.Size();
      RoomAtFirst(store, Start(), fsiz, off);
      if off + rsiz >= fsiz {
        if rsiz < nsiz {
          RoomAtTheEnd(store, Start(), fsiz, fbpool[..], off, nsiz);
          head := head.(padding := head.padding + (nsiz - rsiz));
          rsiz := nsiz;
          fsiz := off + rsiz;
        } else {
          NothingInRoom(store, Start(), fsiz, fbpool[..], off);
        }
      } else {
        while nsiz > rsiz && off + rsiz < fsiz
          invariant head.Size() == rsiz && head0.padding <= head.padding && head == head0.(padding := head.padding)
          invariant fsiz == old(fsiz) && fbpool[..] == old(fbpool[..])
          invariant Room(store, fsiz, fsiz, off, rsiz)
          decreases fsiz - rsiz
        {
          RoomGrows(store, Start(), fsiz, off, rsiz);
          var next := store[off + rsiz];
          if !next.reusable {
            break;
          }
          head := head.(padding := head.padding + next.Size());
          rsiz := rsiz + next.Size();
        }
        ClearSlots(off, off + rsiz);
      }
    }

    /** The rest of the branch of dpput for a record that must move: best fit
        from the pool, release the old record, write the new one. */
    method Relocate(off: nat, head: Record, k: Key, v: seq<byte>) returns (newoff: nat, ghost rec: Record)
      requires Sound()
      requires Room(store, fsiz, fsiz, off, head.Size())
      requires forall i | 0 <= i < fbpool.Length :: !(off <= fbpool[i].off < off + head.Size())
      modifies this`store, this`fsiz, this`fbpinc, fbpool
      ensures Sound()
      ensures newoff > 0 && newoff !in InUse(old(store))
      ensures rec == Record(false, false, second.hash(k), k, v, rec.padding, head.left, head.right)
      ensures InUse(store) == (InUse(old(store)) - {off})[newoff := rec]
    {
      hide Tiled, PoolSound, ReusableRun, InUse, Flagged;
      var nsiz := RECORD_HEAD + |k| + |v|;
      var mi := BestFit(nsiz);
      var mroff, mrsiz := -1, -1;
      InUseAfterRelease(store, off);
      NothingAtTheEnd(store, Start(), fsiz, fbpool[..]);
      if mi >= 0 {
        ghost var pool := fbpool[..];
        TakenFromPool(store, fsiz, pool, mi, pool[mi := NO_REGION]);
        RunStarts(store, fsiz, fbpool[mi]);
        RoomIsApart(store, Start(), fsiz, fsiz, off, head.Size(), fbpool[mi]);
        RunSurvivesRelease(store, fsiz, off, fbpool[mi]);
        mroff, mrsiz := fbpool[mi].off, fbpool[mi].size;
        fbpool[mi] := NO_REGION;
        assert fbpool[..] == pool[mi := NO_REGION];
      }
      RoomIsApartFromPool(store, Start(), fsiz, fsiz, off, head.Size(), fbpool[..]);
      assert Cleared(fbpool[..], off, off + head.Size()) == fbpool[..];
      Release(off, head, true);
      if mroff > 0 && nsiz <= mrsiz {
        ghost var r := Region(mroff, mrsiz);
        UnpooledIsApart(store, fsiz, fbpool[..], r);
        rec := Rewrite(mroff, mrsiz, k, v, second.hash(k), head.left, head.right);
        newoff := mroff;
      } else {
        newoff, rec := Append(k, v, second.hash(k), head.left, head.right);
        InUseAfterAppend(Flagged(old(store), off, true), newoff, rec);
      }
    }

    /** The end of dpput: the link the search ended at gets the new offset. */
    method SetLink(bi: nat, joint: Joint, newoff: nat, ghost link: Link)
      requires Sound() && bi < buckets.Length && newoff > 0
      requires joint == JointOf(link, at)
      requires !link.FromBucket? ==> link.parent in at && at[link.parent] in InUse(store)
      modifies this`store, buckets
      ensures Sound()
      ensures !link.FromBucket? ==> link.parent in at && at[link.parent] in InUse(old(store))
      ensures InUse(store) == Relink(InUse(old(store)), at, link, newoff)
      ensures buckets[..] == if link.FromBucket? then old(buckets[..])[bi := newoff] else old(buckets[..])
    {
      if joint.NoJoint? {
        buckets[bi] := newoff;
      } else {
        var rec := Linking(store[joint.owner], joint.LeftWord?, newoff);
        LinkKeepsSpace(store, Start(), fsiz, fbpool[..], joint.owner, rec);
        store := store[joint.owner := rec];
      }
    }

    /** The branch of dpput for a key that has a record, in use or a tombstone. */
    method PutFound(off: nat, head0: Record, k: Key, v: seq<byte>, mode: Mode) returns (newoff: int, ghost rec: Record)
      requires Sound() && off in store && !store[off].reusable
      requires head0 == if store[off].deleted
                        then store[off].(padding := store[off].padding + |store[off].value|, value := [])
                        else store[off]
      requires head0.key == k && head0.hash == second.hash(k)
      modifies this`store, this`fsiz, this`fbpinc, fbpool
      ensures Sound()
      ensures rec == Record(false, false, second.hash(k), k, if mode.Cat? then head0.value + v else v, rec.padding,
                            head0.left, head0.right)
      ensures newoff == -1 ==> InUse(store) == InUse(old(store))[off := rec]
      ensures newoff != -1 ==> newoff > 0 && newoff !in InUse(old(store))
                               && InUse(store) == (InUse(old(store)) - {off})[newoff := rec]
    {
      hide Tiled, PoolSound, ReusableRun, InUse, Room;
      var nsiz := RECORD_HEAD + |k| + |v|;
      if mode.Cat? {
        nsiz := nsiz + |head0.value|;
      }
      var head := MakeRoom(off, head0, nsiz);
      if nsiz <= head.Size() {
        newoff := -1;
        label before:
        rec := Recover(off, head, v, mode.Cat?);
        OverwriteKeepsSpace(old(store), Start(), old(fsiz), fsiz, old(fbpool[..]), off, rec);
        InUseAfterOverwrite(old(store), old(fsiz), fsiz, off, rec);
        assert fbpool[..] == Cleared(old(fbpool[..]), off, off + rec.Size());
      } else {
        RoomIsApartFromPool(store, Start(), fsiz, fsiz, off, head.Size(), old(fbpool[..]));
        newoff, rec := Relocate(off, head, k, if mode.Cat? then head.value + v else v);
      }
    }

    /** The key's record has moved to, or appeared at, `newoff`: link it. */
    method Relinked(bi: nat, joint: Joint, newoff: nat, k: Key, ghost live: Store, ghost rec: Record)
      requires Sound() && Indexed(live, at, trees, buckets[..], first, second)
      requires Relinking(live, at, second, k, newoff, rec) && InUse(store) == Moved(live, at, k, newoff, rec)
      requires !rec.deleted
      requires bi < buckets.Length && bi == BucketOf(first, k, |trees|)
      requires joint == JointOf(LinkTo(second, trees[bi], k, FromBucket), at)
      modifies this`store, this`at, this`trees, buckets
      ensures Sound() && Findable()
      ensures Contents() == Live(live, old(at))[k := rec.value]
    {
      hide SpaceSound, BucketOk, Filed, Placed, InUse, Live, Moved, Relink, With, LinkTo, BucketOf, Relinking;
      ghost var link := LinkTo(second, trees[bi], k, FromBucket);
      RelinkKeepsIndex(live, at, trees, buckets[..], first, second, k, newoff, rec, bi, link);
      LiveAfterRelink(live, at, second, k, newoff, rec, link);
      RelinkingIsFresh(live, at, second, k, newoff, rec);
      SetLink(bi, joint, newoff, link);
      at := at[k := newoff];
      trees := trees[bi := With(second, trees[bi], k)];
    }

    /** dpput */
    method Put(k: Key, v: seq<byte>, mode: Mode) returns (ok: bool)
      requires Valid()
      modifies this`store, this`fsiz, this`rnum, this`fbpinc, this`at, this`trees, fbpool, buckets
      ensures Valid()
      ensures ok <==> !(mode.Keep? && k in old(Contents()))
      ensures Contents() == if !ok then old(Contents())
                            else if mode.Cat? && k in old(Contents()) then old(Contents())[k := old(Contents())[k] + v]
                            else old(Contents())[k := v]
    {
      hide SpaceSound, BucketOk, Filed, Placed, InUse, Live, LinkTo, BucketOf, Moved, Relinking, ChildWords;
      var bi, off, joint, head, found := Search(k, true);
      FoundRecord(store, at, second, k);
      ghost var live := InUse(store);
      ghost var rec;
      var newoff := -1;
      if found {
        var fdel := head.deleted;
        if mode.Keep? && !fdel {
          return false;
        }
        if fdel {
          head := head.(padding := head.padding + |head.value|, value := []);
        }
        newoff, rec := PutFound(off, head, k, v, mode);
        assert [] + v == v;
        if fdel {
          rnum := rnum + 1;
        }
      } else {
        NothingAtTheEnd(store, Start(), fsiz, fbpool[..]);
        newoff, rec := Append(k, v, second.hash(k), 0, 0);
        InUseAfterAppend(old(store), newoff, rec);
        rnum := rnum + 1;
      }
      SizeAfterPut(old(Contents()), k, rec.value);
      if newoff > 0 {
        PutMoves(live, at, second, k, newoff, rec);
        Relinked(bi, joint, newoff, k, live, rec);
      } else {
        RewriteKeepsIndex(live, at, trees, buckets[..], first, second, off, rec);
        LiveAfterRewrite(live, at, second, off, rec);
      }
      ok := true;
    }

    /** dpout */
    method Out(k: Key) returns (ok: bool)
      requires Valid()
      modifies this`store, this`rnum, this`fbpinc, fbpool
      ensures Valid()
      ensures ok <==> k in old(Contents())
      ensures Contents() == old(Contents()) - {k}
    {
      hide SpaceSound, Tiled, BucketOk, Filed, Placed, InUse, Live, Flagged;
      var bi, off, joint, head, found := Search(k, false);
      FoundRecord(store, at, second, k);
      if !found {
        return false;
      }
      ghost var gone := head.(deleted := true);
      RewriteKeepsIndex(InUse(store), at, trees, buckets[..], first, second, off, gone);
      LiveAfterRewrite(InUse(store), at, second, off, gone);
      InUseAfterTombstone(store, off);
      Release(off, head, false);
      SizeAfterOut(old(Contents()), k);
      rnum := rnum - 1;
      ok := true;
    }

    /** dpget: the value from `start` on, at most `max` bytes of it unless `max`
        is negative. */
    method Get(k: Key, start: nat, max: int) returns (value: Option<seq<byte>>)
      requires Valid()
      ensures value.None? <==> k !in Contents() || start > |Contents()[k]|
      ensures value.Some? ==>
                var v := Contents()[k];
                && |value.value| == (if 0 <= max < |v| - start then max else |v| - start)
                && forall i | 0 <= i < |value.value| :: value.value[i] == v[start + i]
    {
      hide SpaceSound, BucketOk, Filed, Placed, InUse, Live;
      var bi, off, joint, head, found := Search(k, false);
      FoundRecord(store, at, second, k);
      if !found || start > |head.value| {
        return None;
      }
      var rest := |head.value| - start;
      var vsiz := if max < 0 then rest else if max < rest then max else rest;
      value := Some(head.value[start..start + vsiz]);
    }

    /** dpsetfbpsiz: a new pool, all slots empty. */
    method SetPoolSize(size: nat)
      requires Valid()
      modifies this`fbpool
      ensures Valid() && Contents() == old(Contents())
      ensures fresh(fbpool) && fbpool.Length == size
    {
      hide SpaceSound, Indexed, InUse, Live;
      fbpool := new Region[size](_ => NO_REGION);
      PoolEmptied(store, Start(), fsiz, old(fbpool[..]), fbpool[..]);
    }

    /** dpsetalign */
    method SetAlign(align: int)
      requires Valid()
      modifies this`align
      ensures Valid() && Contents() == old(Contents()) && this.align == align
    {
      hide SpaceSound, Indexed, InUse, Live;
      this.align := align;
    }

    // ---------- iterating ----------

    /** The live keys whose records lie at `o` or behind it. */
    ghost function LiveFrom(o: nat): set<Key>
      reads this`store
    {
      KeysFrom(store, o)
    }

    /** The iterator stands before the records or at the edge of one. */
    ghost predicate IterOk()
      reads this`ioff, this`store, this`fsiz, this`buckets
    {
      ioff <= Start() || IsEdge(store, fsiz, ioff)
    }

    /** dpiterinit */
    method IterInit()
      requires Valid()
      modifies this`ioff
      ensures Valid() && Contents() == old(Contents())
      ensures IterOk() && LiveFrom(ioff) == Contents().Keys
    {
      hide SpaceSound, Filed, BucketOk, Placed, InUse, Live, KeysFrom;
      ioff := 0;
      AllKeys(store, at, second, 0, Start(), fsiz, fbpool[..]);
    }

    lemma Scannable()
      requires Valid()
      ensures SpaceSound(store, Start(), fsiz, fbpool[..]) && Placed(InUse(store), at, second)
    {
      hide SpaceSound, InUse, Filed, BucketOk;
    }

    /** dpiternext, with no update since dpiterinit: the next live key. */
    method IterNext() returns (k: Option<Key>)
      requires Valid() && IterOk()
      modifies this`ioff
      ensures Valid() && Contents() == old(Contents()) && IterOk()
      ensures k.None? ==> LiveFrom(old(ioff)) == {}
      ensures k.Some? ==> k.value in LiveFrom(old(ioff)) && LiveFrom(ioff) == LiveFrom(old(ioff)) - {k.value}
    {
      hide Sound, Findable, SpaceSound, Scanning, IsEdge, KeysFrom, Contents, InUse, Placed;
      ghost var start, pool := Start(), fbpool[..];
      var off := Start();
      off := if off > ioff then off else ioff;
      Scannable();
      ScanStarts(store, at, second, start, fsiz, pool, ioff, off);
      while off < fsiz
        invariant ioff == old(ioff) && Scanning(store, at, second, start, fsiz, pool, ioff, off)
        decreases fsiz - off
      {
        ScanOn(store, at, second, start, fsiz, pool, ioff, off);
        var head := store[off];
        if head.deleted {
          off := off + head.Size();
        } else {
          k := Some(head.key);
          ioff := off + head.Size();
          return;
        }
      }
      ScanEnds(store, at, second, start, fsiz, pool, ioff, off);
      k := None;
    }

    /** dpopen of a new file. */
    constructor (first: Hash, second: KeysUp, bnum: nat)
      requires bnum > 0
      ensures Valid() && Contents() == map[] && fresh(buckets) && fresh(fbpool)
      ensures this.first == first && this.second == second && buckets.Length == bnum
      ensures align == 0 && ioff == 0
    {
      this.first, this.second := first, second;
      buckets := new nat[bnum](_ => 0);
      fbpool := new Region[POOL_SIZE](_ => NO_REGION);
      fsiz := FILE_HEAD + 4 * bnum;
      store, at, trees := map[], map[], seq(bnum, _ => Nil);
      rnum, align, fbpinc, ioff := 0, 0, 0, 0;
      new;
      EmptyFile(first, second, Start(), fbpool[..], buckets[..], trees);
    }
  }

  lemma PoolEmptied(store: Store, start: nat, fsiz: nat, pool: seq<Region>, pool': seq<Region>)
    requires SpaceSound(store, start, fsiz, pool)
    requires forall i | 0 <= i < |pool'| :: pool'[i] == NO_REGION
    ensures SpaceSound(store, start, fsiz, pool')
  {
    hide Tiled;
  }

  // ---------- scanning the file ----------

  ghost function KeysFrom(store: Store, o: nat): set<Key> {
    set p | p in store && o <= p && !store[p].deleted :: store[p].key
  }

  lemma AllKeys(store: Store, at: Places, second: Ranking, o: nat, start: nat, fsiz: nat, pool: seq<Region>)
    requires SpaceSound(store, start, fsiz, pool) && Placed(InUse(store), at, second) && o <= start
    ensures KeysFrom(store, o) == Live(InUse(store), at).Keys
  {
    forall k <- KeysFrom(store, o)
      ensures k in Live(InUse(store), at)
    {
      var p :| p in store && o <= p && !store[p].deleted && store[p].key == k;
      assert p in InUse(store);
    }
  }

  lemma KeysFromStart(store: Store, start: nat, fsiz: nat, pool: seq<Region>, o: nat)
    requires SpaceSound(store, start, fsiz, pool)
    ensures o <= start ==> KeysFrom(store, o) == KeysFrom(store, start)
  {
  }

  lemma EdgeAtStart(store: Store, start: nat, fsiz: nat, pool: seq<Region>)
    requires SpaceSound(store, start, fsiz, pool)
    ensures IsEdge(store, fsiz, start)
  {
    BeforeTheEnd(store, start, fsiz);
  }

  lemma KeysAtEnd(store: Store, start: nat, fsiz: nat, pool: seq<Region>)
    requires SpaceSound(store, start, fsiz, pool)
    ensures KeysFrom(store, fsiz) == {}
  {
    BeforeTheEnd(store, start, fsiz);
  }

  /** Stepping over one record passes by its key, if it is live, and no other. */
  lemma KeysStep(store: Store, at: Places, second: Ranking, start: nat, fsiz: nat, pool: seq<Region>, o: nat)
    requires SpaceSound(store, start, fsiz, pool) && Placed(InUse(store), at, second) && o in store
    ensures var next := o + store[o].Size();
            && IsEdge(store, fsiz, next) && start <= o < next
            && KeysFrom(store, next) == (if store[o].deleted then KeysFrom(store, o) else KeysFrom(store, o) - {store[o].key})
            && (!store[o].deleted ==> store[o].key in KeysFrom(store, o))
  {
    var next := o + store[o].Size();
    assert EndsWell(store, fsiz, o);
    forall p | p in store && o <= p && !store[p].deleted
      ensures p == o || (next <= p && (!store[o].deleted ==> store[p].key != store[o].key))
    {
      assert p in InUse(store);
      assert !store[o].deleted ==> o in InUse(store);
    }
  }

  /** A scan that started at `from` has come to the record at `off`, and met no
      live record on the way. */
  ghost predicate Scanning(store: Store, at: Places, second: Ranking, start: nat, fsiz: nat, pool: seq<Region>, from: nat, off: nat) {
    && SpaceSound(store, start, fsiz, pool) && Placed(InUse(store), at, second)
    && IsEdge(store, fsiz, off) && start <= off && KeysFrom(store, off) == KeysFrom(store, from)
  }

  lemma ScanStarts(store: Store, at: Places, second: Ranking, start: nat, fsiz: nat, pool: seq<Region>, from: nat, off: nat)
    requires SpaceSound(store, start, fsiz, pool) && Placed(InUse(store), at, second)
    requires from <= start || IsEdge(store, fsiz, from)
    requires off == if start > from then start else from
    ensures Scanning(store, at, second, start, fsiz, pool, from, off)
  {
    hide SpaceSound, Placed, InUse, KeysFrom;
    EdgeAtStart(store, start, fsiz, pool);
    KeysFromStart(store, start, fsiz, pool, from);
  }

  /** One record of the scan: it is passed over, or ends the scan. */
  lemma ScanOn(store: Store, at: Places, second: Ranking, start: nat, fsiz: nat, pool: seq<Region>, from: nat, off: nat)
    requires Scanning(store, at, second, start, fsiz, pool, from, off) && off < fsiz
    ensures off in store && store[off].Size() > 0
    ensures var next := off + store[off].Size();
            if store[off].deleted then Scanning(store, at, second, start, fsiz, pool, from, next)
            else IsEdge(store, fsiz, next) && store[off].key in KeysFrom(store, from)
                 && KeysFrom(store, next) == KeysFrom(store, from) - {store[off].key}
  {
    hide SpaceSound, Placed, InUse, KeysFrom;
    KeysStep(store, at, second, start, fsiz, pool, off);
  }

  lemma ScanEnds(store: Store, at: Places, second: Ranking, start: nat, fsiz: nat, pool: seq<Region>, from: nat, off: nat)
    requires Scanning(store, at, second, start, fsiz, pool, from, off) && off >= fsiz
    ensures KeysFrom(store, from) == {}
  {
    hide KeysFrom, Placed, InUse;
    assert off == fsiz;
    KeysAtEnd(store, start, fsiz, pool);
  }

  /** What the index says about one key. */
  lemma FoundRecord(store: Store, at: Places, second: Ranking, k: Key)
    requires Placed(InUse(store), at, second)
    ensures k !in at ==> k !in Live(InUse(store), at)
    ensures k in at ==> at[k] in InUse(store) && at[k] > 0 && at[k] in store && InUse(store)[at[k]] == store[at[k]]
                        && !store[at[k]].reusable && store[at[k]].key == k && store[at[k]].hash == second.hash(k)
                        && ChildWords(InUse(store), at, k) == (store[at[k]].left, store[at[k]].right)
                        && (k in Live(InUse(store), at) <==> !store[at[k]].deleted)
                        && (k in Live(InUse(store), at) ==> Live(InUse(store), at)[k] == store[at[k]].value)
  {
  }

  lemma PutMoves(live: Store, at: Places, second: Ranking, k: Key, off: nat, rec: Record)
    requires off > 0 && off !in live && rec.key == k && rec.hash == second.hash(k)
    requires (rec.left, rec.right) == (if k in at then ChildWords(live, at, k) else (0, 0))
    ensures Relinking(live, at, second, k, off, rec)
    ensures k in at ==> (live - {at[k]})[off := rec] == Moved(live, at, k, off, rec)
    ensures k !in at ==> live[off := rec] == Moved(live, at, k, off, rec)
  {
  }

  lemma RelinkingIsFresh(live: Store, at: Places, second: Ranking, k: Key, off: nat, rec: Record)
    requires Relinking(live, at, second, k, off, rec)
    ensures off > 0
  {
  }

  lemma EmptyFile(first: Hash, second: Ranking, start: nat, pool: seq<Region>, buckets: seq<nat>, trees: seq<Tree>)
    requires start > 0 && |buckets| == |trees| > 0
    requires forall i | 0 <= i < |pool| :: pool[i] == NO_REGION
    requires forall b | 0 <= b < |trees| :: trees[b] == Nil && buckets[b] == 0
    ensures SpaceSound(map[], start, start, pool)
    ensures Indexed(InUse(map[]), map[], trees, buckets, first, second)
    ensures Live(InUse(map[]), map[]) == map[]
  {
    hide BucketOf;
    assert forall b | 0 <= b < |trees| :: BucketOk(InUse(map[]), map[], trees[b], buckets[b], second);
  }

  lemma SizeAfterOut(m: map<Key, seq<byte>>, k: Key)
    requires k in m
    ensures |m - {k}| == |m| - 1
  {
    assert (m - {k}).Keys == m.Keys - {k};
  }

  lemma SizeAfterPut(m: map<Key, seq<byte>>, k: Key, v: seq<byte>)
    ensures |m[k := v]| == if k in m then |m| else |m| + 1
  {
    assert m[k := v].Keys == m.Keys + {k};
  }
}
