/** Cabin's map: buckets of search trees whose records are also threaded by a
    doubly linked list in the order of insertion. */
module CabinMap {
  import opened ByteOrder
  import opened DepotSpace
  import opened HashIndex
  import opened HashRemoval
  import opened CabinList

  type KeysDown = r: Ranking | !r.keysUp witness Ranking((k: Key) => 0, false)

  /** A pointer to a pointer: a bucket, or a child field of a record. */
  datatype Entp = Bucket(bidx: nat) | Left(of: Ptr) | Right(of: Ptr)

  /** Where the link a search ended at is in memory. */
  ghost function EntpOf(link: Link, at: Places, bidx: nat): Entp {
    match link
    case FromBucket => Bucket(bidx)
    case LeftOf(p) => Left(if p in at then at[p] else 0)
    case RightOf(p) => Right(if p in at then at[p] else 0)
  }

  /** A child field written through such a pointer. */
  function Assigned(mem: Memory, entp: Entp, x: Ptr): (mem': Memory)
    ensures mem'.Keys == mem.Keys
  {
    match entp
    case Bucket(_) => mem
    case Left(p) => if p in mem then mem[p := mem[p].(left := x)] else mem
    case Right(p) => if p in mem then mem[p := mem[p].(right := x)] else mem
  }

  lemma AssignedIsRelink(mem: Memory, at: Places, link: Link, bidx: nat, x: Ptr)
    requires !link.FromBucket? ==> link.parent in at && at[link.parent] in mem
    ensures Indexable(Assigned(mem, EntpOf(link, at, bidx), x)) == Relink(Indexable(mem), at, link, x)
  {
  }

  /** A search for `k` that has come to subtree `t` of `top` by way of `link`. */
  ghost predicate Looking(mem: Memory, at: Places, second: Ranking, top: Tree, k: Key, t: Tree, link: Link,
                          bidx: nat, datum: Ptr, entp: Entp) {
    && Linked(Indexable(mem), at, t) && Ordered(second, t)
    && (k in Keys(top) <==> k in Keys(t))
    && LinkTo(second, top, k, FromBucket) == LinkTo(second, t, k, link)
    && datum == Root(at, t) && entp == EntpOf(link, at, bidx)
  }

  /** One comparison of the search. */
  lemma LookingOn(mem: Memory, at: Places, second: Ranking, top: Tree, k: Key, t: Tree, link: Link,
                  bidx: nat, datum: Ptr, entp: Entp)
    requires Looking(mem, at, second, top, k, t, link, bidx, datum, entp)
    requires Placed(Indexable(mem), at, second)
    ensures datum == 0 ==> t.Nil?
    ensures datum != 0 ==> t.Node? && datum in mem && t.key in at && datum == at[t.key]
                           && mem[datum].key == t.key && mem[datum].hash == second.hash(t.key)
    ensures datum != 0 && Compare(second, k, t.key) > 0 ==>
              Looking(mem, at, second, top, k, t.left, LeftOf(t.key), bidx, mem[datum].left, Left(datum))
    ensures datum != 0 && Compare(second, k, t.key) < 0 ==>
              Looking(mem, at, second, top, k, t.right, RightOf(t.key), bidx, mem[datum].right, Right(datum))
  {
    if t.Node? {
      assert NodeAt(Indexable(mem), at, t.key, Root(at, t.left), Root(at, t.right));
      if t.key != k {
        SearchStep(second, t, k);
      }
    }
  }

  class Map {
    const first: Hash
    const second: KeysDown
    var mem: Memory
    var buckets: array<Ptr>
    var head: Ptr
    var last: Ptr
    var cur: Ptr
    var rnum: nat
    ghost var at: Places
    ghost var trees: seq<Tree>
    ghost var list: seq<Ptr>

    ghost predicate Findable()
      reads this`mem, this`at, this`trees, this`buckets, buckets
    {
      Indexed(Indexable(mem), at, trees, buckets[..], first, second)
    }

    ghost predicate Threaded()
      reads this`mem, this`list, this`head, this`last
    {
      Chain(mem, list) && head == At(list, 0) && last == At(list, |list| - 1)
    }

    ghost predicate Valid()
      reads this, buckets
    {
      Findable() && Threaded() && rnum == |list|
    }

    /** The records in the order of their insertion. */
    ghost function Contents(): (es: seq<Entry>)
      reads this`mem, this`list
    {
      Entries(mem, list)
    }

    /** cbmapopenex */
    constructor (first: Hash, second: KeysDown, bnum: nat)
      requires bnum > 0
      ensures Valid() && Contents() == [] && fresh(buckets) && mem == map[]
    {
      this.first, this.second := first, second;
      buckets := new Ptr[bnum](_ => 0);
      mem, head, last, cur, rnum := map[], 0, 0, 0, 0;
      at, trees, list := map[], seq(bnum, _ => Nil), [];
      new;
      EmptyIndex(first, second, buckets[..], trees);
    }

    // ---------- searching ----------

    /** The search all operations begin with. */
    method Search(kbuf: Key) returns (bidx: nat, datum: Ptr, entp: Entp)
      requires Findable()
      ensures bidx < buckets.Length == |trees| && bidx == BucketOf(first, kbuf, |trees|)
      ensures datum == if kbuf in at then at[kbuf] else 0
      ensures entp == EntpOf(LinkTo(second, trees[bidx], kbuf, FromBucket), at, bidx)
      ensures kbuf in at ==> datum != 0 && datum in mem && mem[datum].key == kbuf
    {
      hide BucketOf;
      var hash := second.hash(kbuf);
      bidx := BucketOf(first, kbuf, buckets.Length);
      datum := buckets[bidx];
      entp := Bucket(bidx);
      ghost var t, link := trees[bidx], FromBucket;
      assert BucketOk(Indexable(mem), at, trees[bidx], buckets[..][bidx], second);
      assert kbuf in at ==> kbuf in Keys(trees[bidx]);
      assert kbuf in Keys(trees[bidx]) ==> kbuf in at;
      hide Looking, Indexed, LinkTo;
      while datum != 0
        invariant Looking(mem, at, second, trees[bidx], kbuf, t, link, bidx, datum, entp)
        decreases t
      {
        LookingOn(mem, at, second, trees[bidx], kbuf, t, link, bidx, datum, entp);
        if hash > mem[datum].hash {
          entp := Left(datum);
          datum := mem[datum].left;
          t, link := t.left, LeftOf(t.key);
        } else if hash < mem[datum].hash {
          entp := Right(datum);
          datum := mem[datum].right;
          t, link := t.right, RightOf(t.key);
        } else {
          var kcmp := KeyCmp(kbuf, mem[datum].key);
          if kcmp < 0 {
            entp := Left(datum);
            datum := mem[datum].left;
            t, link := t.left, LeftOf(t.key);
          } else if kcmp > 0 {
            entp := Right(datum);
            datum := mem[datum].right;
            t, link := t.right, RightOf(t.key);
          } else {
            FoundIt(mem, at, second, trees[bidx], kbuf, t, link, bidx, datum, entp);
            return;
          }
        }
      }
      NotFound(mem, at, second, trees[bidx], kbuf, t, link, bidx, datum, entp);
    }

    /** cbmapget */
    method Get(kbuf: Key) returns (found: bool, value: Bytes)
      requires Valid()
      ensures found <==> HasKey(Contents(), kbuf)
      ensures found ==> value == ValueOf(Contents(), kbuf)
      ensures forall i | 0 <= i < |Contents()| && Contents()[i].0 == kbuf :: value == Contents()[i].1
    {
      hide Indexed, ValueOf, EntpOf, KeysDiffer;
      KeysAreDistinct(this);
      StoredDroppedValue(Contents(), kbuf, []);
      IndexIsPlaced(Indexable(mem), at, trees, buckets[..], first, second);
      var bidx, datum, entp := Search(kbuf);
      found := datum != 0;
      if found {
        value := mem[datum].value;
        ghost var i := Position(mem, list, at, second, kbuf);
        StoredAt(Contents(), i, []);
        ValueAt(Contents(), i);
      } else {
        value := [];
        PlacesArePositive(mem, at, second);
        NoPosition(mem, list, at, second, kbuf);
      }
    }

    // ---------- storing ----------

    /** The value of a record is overwritten where it is. */
    method SetValue(datum: Ptr, v: Bytes, ghost k: Key)
      requires Valid() && k in at && datum == at[k]
      requires datum in mem
      modifies this`mem
      ensures Valid() && mem.Keys == old(mem.Keys)
      ensures Contents() == Stored(old(Contents()), k, v) && HasKey(old(Contents()), k)
    {
      hide Indexed, HasKey, Stored, Chain;
      ghost var mem0 := mem;
      IndexIsPlaced(Indexable(mem), at, trees, buckets[..], first, second);
      ghost var i := Position(mem, list, at, second, k);
      StoredAt(Contents(), i, v);
      mem := mem[datum := mem[datum].(value := v)];
      RewrittenMemory(mem0, list, i, v);
      RewriteKeepsIndex(Indexable(mem0), at, trees, buckets[..], first, second, datum, Indexable(mem)[datum]);
    }

    /** The record may have got a new address: everything that points at it follows. */
    method Reallocated(datum: Ptr, alloc: Ptr, bidx: nat, entp: Entp, ghost k: Key)
      requires Valid() && k in at && datum == at[k] && datum in mem
      requires alloc != 0 && alloc !in mem
      requires bidx < buckets.Length && bidx == BucketOf(first, k, |trees|)
      requires entp == EntpOf(LinkTo(second, trees[bidx], k, FromBucket), at, bidx)
      modifies this`mem, this`head, this`last, this`at, this`trees, this`list, buckets
      ensures Valid() && Contents() == old(Contents()) && at == old(at)[k := alloc] && alloc in mem
      ensures mem.Keys <= old(mem.Keys) + {alloc} && buckets == old(buckets)
    {
      hide Indexed, Chain, EntpOf, LinkTo, BucketOf, Relink, Moved, Relinking, With, Assigned, Indexable, Entries, SetNext, SetPrev, At, Only;
      ghost var mem0, link := mem, LinkTo(second, trees[bidx], k, FromBucket);
      IndexIsPlaced(Indexable(mem), at, trees, buckets[..], first, second);
      ghost var i := Position(mem, list, at, second, k);
      MovingIsRelinking(mem, at, second, k, alloc);
      RelinkKeepsIndex(Indexable(mem), at, trees, buckets[..], first, second, k, alloc, Indexable(mem)[datum], bidx, link);
      MovedIndexable(mem, at, k, alloc, link, bidx);
      MovedMemory(mem, list, i, alloc, entp);
      EndsMoved(mem, list, i, alloc);
      Repoint(datum, alloc, bidx, entp);
      list := list[i := alloc];
      at := at[k := alloc];
      trees := trees[bidx := With(second, trees[bidx], k)];
    }

    /** A record copied to `alloc`, and the pointers to it. */
    method Repoint(datum: Ptr, alloc: Ptr, bidx: nat, entp: Entp)
      requires datum in mem && bidx < buckets.Length && (entp.Bucket? ==> entp.bidx == bidx)
      requires entp.Left? || entp.Right? ==> entp.of in mem && entp.of != datum
      modifies this`mem, this`head, this`last, buckets
      ensures var d := old(mem)[datum];
              mem == SetPrev(SetNext(Assigned((old(mem) - {datum})[alloc := d], entp, alloc), d.prev, alloc), d.next, alloc)
      ensures buckets[..] == if entp.Bucket? then old(buckets[..])[bidx := alloc] else old(buckets[..])
      ensures head == (if old(head) == datum then alloc else old(head)) && last == if old(last) == datum then alloc else old(last)
    {
      hide SetNext, SetPrev;
      var d := mem[datum];
      mem := (mem - {datum})[alloc := d];
      if head == datum {
        head := alloc;
      }
      if last == datum {
        last := alloc;
      }
      SetEntp(entp, alloc, bidx);
      mem := SetNext(mem, d.prev, alloc);
      mem := SetPrev(mem, d.next, alloc);
    }

    /** *entp = x */
    method SetEntp(entp: Entp, x: Ptr, bidx: nat)
      requires bidx < buckets.Length && (entp.Bucket? ==> entp.bidx == bidx)
      requires entp.Left? || entp.Right? ==> entp.of in mem
      modifies this`mem, buckets
      ensures mem == Assigned(old(mem), entp, x)
      ensures buckets[..] == if entp.Bucket? then old(buckets[..])[bidx := x] else old(buckets[..])
    {
      match entp
      case Bucket(b) =>
        buckets[b] := x;
      case Left(p) =>
        mem := mem[p := mem[p].(left := x)];
      case Right(p) =>
        mem := mem[p := mem[p].(right := x)];
    }

    /** A new record at the end of the list. */
    method Append(kbuf: Key, vbuf: Bytes, alloc: Ptr, bidx: nat, entp: Entp)
      requires Valid() && kbuf !in at
      requires alloc != 0 && alloc !in mem
      requires bidx < buckets.Length && bidx == BucketOf(first, kbuf, |trees|)
      requires entp == EntpOf(LinkTo(second, trees[bidx], kbuf, FromBucket), at, bidx)
      modifies this`mem, this`head, this`last, this`rnum, this`at, this`trees, this`list, buckets
      ensures Valid() && Contents() == old(Contents()) + [(kbuf, vbuf)]
      ensures mem.Keys <= old(mem.Keys) + {alloc} && buckets == old(buckets)
    {
      hide Indexed, Chain, EntpOf, LinkTo, BucketOf, Relink, Moved, Relinking, With, Assigned, Indexable, Entries, SetNext, At;
      var d := Datum(kbuf, vbuf, second.hash(kbuf), 0, 0, last, 0);
      ghost var link := LinkTo(second, trees[bidx], kbuf, FromBucket);
      IndexIsPlaced(Indexable(mem), at, trees, buckets[..], first, second);
      ghost var rec := RecordOf(d);
      AddingIsRelinking(mem, at, second, kbuf, alloc, d);
      RelinkKeepsIndex(Indexable(mem), at, trees, buckets[..], first, second, kbuf, alloc, rec, bidx, link);
      AddedIndexable(mem, at, kbuf, alloc, d, link, bidx);
      AddedMemory(mem, list, alloc, d, entp);
      Attach(alloc, d, bidx, entp);
      rnum := rnum + 1;
      list := list + [alloc];
      at := at[kbuf := alloc];
      trees := trees[bidx := With(second, trees[bidx], kbuf)];
    }

    /** A record put into memory, its tree and the end of the list. */
    method Attach(alloc: Ptr, d: Datum, bidx: nat, entp: Entp)
      requires bidx < buckets.Length && (entp.Bucket? ==> entp.bidx == bidx)
      requires entp.Left? || entp.Right? ==> entp.of in mem[alloc := d]
      modifies this`mem, this`head, this`last, buckets
      ensures var mem2 := Assigned(old(mem)[alloc := d], entp, alloc);
              mem == if old(last) != 0 then SetNext(mem2, old(last), alloc) else mem2
      ensures buckets[..] == if entp.Bucket? then old(buckets[..])[bidx := alloc] else old(buckets[..])
      ensures head == (if old(head) == 0 then alloc else old(head)) && last == alloc
    {
      hide SetNext;
      mem := mem[alloc := d];
      SetEntp(entp, alloc, bidx);
      if head == 0 {
        head := alloc;
      }
      if last != 0 {
        mem := SetNext(mem, last, alloc);
      }
      last := alloc;
    }

    /** cbmapput; `alloc` is the address the allocator hands out, should it be
        asked, and `moves` says whether a larger record has to move. */
    method Put(kbuf: Key, vbuf: Bytes, over: bool, alloc: Ptr, moves: bool) returns (ok: bool)
      requires Valid() && alloc != 0 && alloc !in mem
      modifies this`mem, this`head, this`last, this`rnum, this`at, this`trees, this`list, buckets
      ensures Valid()
      ensures ok <==> over || !HasKey(old(Contents()), kbuf)
      ensures Contents() == if ok then Stored(old(Contents()), kbuf, vbuf) else old(Contents())
      ensures !HasKey(old(Contents()), kbuf) ==> Contents() == old(Contents()) + [(kbuf, vbuf)]
      ensures over ==> forall i | 0 <= i < |old(Contents())| && old(Contents())[i].0 == kbuf ::
                         Contents() == old(Contents())[i := (kbuf, vbuf)]
      ensures mem.Keys <= old(mem.Keys) + {alloc} && buckets == old(buckets)
    {
      hide Indexed, Chain, EntpOf, LinkTo, BucketOf, HasKey, Entries, Stored, KeysDiffer;
      KeysAreDistinct(this);
      StoredDroppedValue(Contents(), kbuf, vbuf);
      var bidx, datum, entp := Search(kbuf);
      HasPlace(mem, list, at, trees, buckets[..], first, second, kbuf);
      if datum != 0 {
        if !over {
          return false;
        }
        if |vbuf| > |mem[datum].value| && moves {
          Reallocated(datum, alloc, bidx, entp, kbuf);
          datum := alloc;
        }
        SetValue(datum, vbuf, kbuf);
      } else {
        Append(kbuf, vbuf, alloc, bidx, entp);
      }
      ok := true;
    }

    /** cbmapputcat */
    method PutCat(kbuf: Key, vbuf: Bytes, alloc: Ptr, moves: bool)
      requires Valid() && alloc != 0 && alloc !in mem
      modifies this`mem, this`head, this`last, this`rnum, this`at, this`trees, this`list, buckets
      ensures Valid()
      ensures Contents() == Stored(old(Contents()), kbuf,
                if HasKey(old(Contents()), kbuf) then ValueOf(old(Contents()), kbuf) + vbuf else vbuf)
      ensures !HasKey(old(Contents()), kbuf) ==> Contents() == old(Contents()) + [(kbuf, vbuf)]
      ensures forall i | 0 <= i < |old(Contents())| && old(Contents())[i].0 == kbuf ::
                Contents() == old(Contents())[i := (kbuf, old(Contents())[i].1 + vbuf)]
      ensures mem.Keys <= old(mem.Keys) + {alloc} && buckets == old(buckets)
    {
      hide Indexed, Chain, EntpOf, LinkTo, BucketOf, HasKey, Entries, ValueOf, Stored, KeysDiffer;
      KeysAreDistinct(this);
      StoredDroppedValue(Contents(), kbuf, if HasKey(Contents(), kbuf) then ValueOf(Contents(), kbuf) + vbuf else vbuf);
      var bidx, datum, entp := Search(kbuf);
      HasPlace(mem, list, at, trees, buckets[..], first, second, kbuf);
      if datum != 0 {
        var value := mem[datum].value;
        if moves {
          Reallocated(datum, alloc, bidx, entp, kbuf);
          datum := alloc;
        }
        SetValue(datum, value + vbuf, kbuf);
      } else {
        Append(kbuf, vbuf, alloc, bidx, entp);
      }
    }

    // ---------- removing ----------

    /** The rightmost record of a subtree whose hashes are not below `hash`; the
        comparisons on the way never turn left. */
    method FindTail(left: Ptr, hash: int, ghost t: Tree) returns (tmp: Ptr)
      requires t.Node? && Linked(Indexable(mem), at, t) && left == at[t.key]
      requires forall x <- Keys(t) :: x in at && at[x] in mem && at[x] != 0 && mem[at[x]].hash >= hash
      ensures Rightmost(t) in at && tmp == at[Rightmost(t)] && tmp in mem && tmp != 0
    {
      tmp := left;
      ghost var cur := t;
      assert t.key in Keys(t);
      assert NodeAt(Indexable(mem), at, cur.key, Root(at, cur.left), Root(at, cur.right));
      while mem[tmp].right != 0
        invariant cur.Node? && Linked(Indexable(mem), at, cur) && Keys(cur) <= Keys(t)
        invariant cur.key in at && tmp == at[cur.key] && tmp in mem && mem[tmp].right == Root(at, cur.right)
        invariant Rightmost(cur) == Rightmost(t)
        decreases cur
      {
        assert mem[tmp].hash >= hash;
        tmp := mem[tmp].right;
        cur := cur.right;
        assert cur.key in Keys(cur);
        assert NodeAt(Indexable(mem), at, cur.key, Root(at, cur.left), Root(at, cur.right));
      }
      RootIsNil(at, cur.right);
      RightmostIsInside(t);
    }

    /** cbmapout */
    method Out(kbuf: Key) returns (ok: bool)
      requires Valid()
      modifies this`mem, this`head, this`last, this`rnum, this`at, this`trees, this`list, buckets
      ensures Valid()
      ensures ok <==> HasKey(old(Contents()), kbuf)
      ensures Contents() == Dropped(old(Contents()), kbuf) && (!ok ==> Contents() == old(Contents()))
      ensures forall i | 0 <= i < |old(Contents())| && old(Contents())[i].0 == kbuf ::
                Contents() == old(Contents())[..i] + old(Contents())[i + 1..]
      ensures mem.Keys <= old(mem.Keys) && buckets == old(buckets)
    {
      hide Indexed, Chain, EntpOf, LinkTo, BucketOf, HasKey, Entries, Dropped, Indexable, At, Placed, KeysDiffer;
      KeysAreDistinct(this);
      StoredDroppedValue(Contents(), kbuf, []);
      var bidx, datum, entp := Search(kbuf);
      HasPlace(mem, list, at, trees, buckets[..], first, second, kbuf);
      if datum == 0 {
        DroppedNothing(Contents(), kbuf);
        return false;
      }
      Remove(kbuf, bidx, datum, entp);
      ok := true;
    }

    method Remove(kbuf: Key, bidx: nat, datum: Ptr, entp: Entp)
      requires Valid() && kbuf in at && datum == at[kbuf] && datum in mem
      requires bidx < buckets.Length && bidx == BucketOf(first, kbuf, |trees|)
      requires entp == EntpOf(LinkTo(second, trees[bidx], kbuf, FromBucket), at, bidx)
      modifies this`mem, this`head, this`last, this`rnum, this`at, this`trees, this`list, buckets
      ensures Valid() && Contents() == Dropped(old(Contents()), kbuf)
      ensures mem.Keys <= old(mem.Keys) && buckets == old(buckets)
    {
      hide Indexed, Chain, EntpOf, LinkTo, BucketOf, Entries, Dropped, Indexable, SurgeryFor, Removed, Cut, At, Only, Excised, Placed;
      IndexIsPlaced(Indexable(mem), at, trees, buckets[..], first, second);
      ghost var i := Position(mem, list, at, second, kbuf);
      ghost var s := SurgeryFor(second, at, trees[bidx], kbuf, FromBucket);
      RemovalKeepsIndex(Indexable(mem), at, trees, buckets[..], first, second, kbuf, bidx, s);
      var target, tail := Successor(bidx, datum, kbuf, s);
      RemovedIndexable(mem, at, kbuf, s, bidx, entp, tail);
      RemovedMemory(mem, list, i, entp, target, tail);
      Detach(datum, bidx, entp, target, tail);
      rnum := rnum - 1;
      list := list[..i] + list[i + 1..];
      at := at - {kbuf};
      trees := trees[bidx := Cut(second, trees[bidx], kbuf)];
    }

    /** What takes the place of a record in its tree, and where its right subtree
        is grafted, if it is. */
    method Successor(bidx: nat, datum: Ptr, kbuf: Key, ghost s: Surgery) returns (target: Ptr, tail: Ptr)
      requires Valid() && kbuf in at && datum == at[kbuf] && datum in mem
      requires bidx < |trees| && bidx == BucketOf(first, kbuf, |trees|)
      requires s == SurgeryFor(second, at, trees[bidx], kbuf, FromBucket)
      ensures target == s.target && (s.graft <==> tail != 0)
      ensures s.graft ==> s.tail in at && tail == at[s.tail] && s.grafted == mem[datum].right
      ensures s.link == LinkTo(second, trees[bidx], kbuf, FromBucket)
    {
      hide Indexed, Chain, BucketOf;
      ghost var t := Sub(second, trees[bidx], kbuf);
      SubFacts(mem, at, trees, buckets[..], first, second, kbuf, bidx);
      var d := mem[datum];
      tail := 0;
      if d.left != 0 && d.right == 0 {
        target := d.left;
      } else if d.left == 0 && d.right != 0 {
        target := d.right;
      } else if d.left == 0 {
        target := 0;
      } else {
        target := d.left;
        tail := FindTail(d.left, d.hash, t.left);
        GraftRoot(at, t.left, t.right);
      }
    }

    /** A record taken out of the list, its tree, and memory. */
    method Detach(datum: Ptr, bidx: nat, entp: Entp, target: Ptr, tail: Ptr)
      requires datum in mem && bidx < buckets.Length && (entp.Bucket? ==> entp.bidx == bidx)
      requires entp.Left? || entp.Right? ==> entp.of in mem
      modifies this`mem, this`head, this`last, buckets
      ensures mem == Excised(old(mem), datum, entp, target, tail)
      ensures buckets[..] == if entp.Bucket? then old(buckets[..])[bidx := target] else old(buckets[..])
      ensures head == (if old(head) == datum then old(mem)[datum].next else old(head))
      ensures last == (if old(last) == datum then old(mem)[datum].prev else old(last))
    {
      var d := mem[datum];
      mem := SetNext(mem, d.prev, d.next);
      mem := SetPrev(mem, d.next, d.prev);
      if datum == head {
        head := d.next;
      }
      if datum == last {
        last := d.prev;
      }
      SetEntp(entp, target, bidx);
      if tail in mem {
        mem := mem[tail := mem[tail].(right := d.right)];
      }
      mem := mem - {datum};
    }

    // ---------- moving ----------

    /** cbmapmove */
    method Move(kbuf: Key, tohead: bool) returns (ok: bool)
      requires Valid()
      modifies this`mem, this`head, this`last, this`list
      ensures Valid()
      ensures ok <==> HasKey(old(Contents()), kbuf)
      ensures var es := old(Contents());
              Contents() == if !ok then es
                            else if tohead then [(kbuf, ValueOf(es, kbuf))] + Dropped(es, kbuf)
                            else Dropped(es, kbuf) + [(kbuf, ValueOf(es, kbuf))]
      ensures forall i | 0 <= i < |old(Contents())| && old(Contents())[i].0 == kbuf ::
                var (e, others) := (old(Contents())[i], old(Contents())[..i] + old(Contents())[i + 1..]);
                Contents() == if tohead then [e] + others else others + [e]
      ensures mem.Keys == old(mem.Keys)
    {
      hide Indexed, Chain, EntpOf, LinkTo, BucketOf, HasKey, Entries, Dropped, Indexable, Only, ValueOf, KeysDiffer;
      KeysAreDistinct(this);
      StoredDroppedValue(Contents(), kbuf, []);
      var bidx, datum, entp := Search(kbuf);
      HasPlace(mem, list, at, trees, buckets[..], first, second, kbuf);
      if datum == 0 {
        return false;
      }
      IndexIsPlaced(Indexable(mem), at, trees, buckets[..], first, second);
      ghost var i := Position(mem, list, at, second, kbuf);
      if tohead {
        MoveToFront(datum, i);
      } else {
        MoveToBack(datum, i);
      }
      ok := true;
    }

    method MoveToFront(datum: Ptr, ghost i: nat)
      requires Valid() && i < |list| && datum == list[i] && datum in mem && Only(Contents(), i)
      modifies this`mem, this`head, this`last, this`list
      ensures Valid() && Contents() == [old(Contents())[i]] + Dropped(old(Contents()), old(Contents())[i].0)
      ensures mem.Keys == old(mem.Keys)
    {
      hide Indexed, Chain, Entries, Dropped, Indexable, Only, At;
      EndsOfChain(mem, list, i);
      if head == datum {
        FirstIsFirst(mem, list);
        return;
      }
      var d := mem[datum];
      FrontedMemory(mem, list, i);
      if last == datum {
        last := d.prev;
      }
      mem := SetNext(mem, d.prev, d.next);
      mem := SetPrev(mem, d.next, d.prev);
      mem := mem[datum := mem[datum].(prev := 0, next := head)];
      mem := SetPrev(mem, head, datum);
      head := datum;
      list := [datum] + (list[..i] + list[i + 1..]);
    }

    method MoveToBack(datum: Ptr, ghost i: nat)
      requires Valid() && i < |list| && datum == list[i] && datum in mem && Only(Contents(), i)
      modifies this`mem, this`head, this`last, this`list
      ensures Valid() && Contents() == Dropped(old(Contents()), old(Contents())[i].0) + [old(Contents())[i]]
      ensures mem.Keys == old(mem.Keys)
    {
      hide Indexed, Chain, Entries, Dropped, Indexable, Only, At;
      EndsOfChain(mem, list, i);
      if last == datum {
        LastIsLast(mem, list);
        return;
      }
      var d := mem[datum];
      BackedMemory(mem, list, i);
      if head == datum {
        head := d.next;
      }
      mem := SetNext(mem, d.prev, d.next);
      mem := SetPrev(mem, d.next, d.prev);
      mem := mem[datum := mem[datum].(prev := last, next := 0)];
      mem := SetNext(mem, last, datum);
      last := datum;
      list := (list[..i] + list[i + 1..]) + [datum];
    }

    // ---------- iterating ----------

    /** cbmapiterinit */
    method IterInit()
      requires Valid()
      modifies this`cur
      ensures Valid() && cur == At(list, 0)
    {
      cur := head;
    }

    /** cbmapiternext; the record it stands at must not have been freed. */
    method IterNext(ghost i: nat) returns (more: bool, kbuf: Key)
      requires Valid() && cur == At(list, i) && i <= |list|
      modifies this`cur
      ensures Valid()
      ensures more <==> i < |list|
      ensures if more then kbuf == Contents()[i].0 && cur == At(list, i + 1) else cur == 0
    {
      hide Indexed;
      if i < |list| {
        Neighbours(mem, list, i);
      }
      if cur == 0 {
        return false, [];
      }
      var datum := cur;
      cur := mem[datum].next;
      more, kbuf := true, mem[datum].key;
    }

    /** cbmapkeys: the keys in the order of their insertion. */
    method AllKeys() returns (keys: seq<Key>)
      requires Valid()
      modifies this`cur
      ensures Valid() && |keys| == |Contents()| && forall i | 0 <= i < |keys| :: keys[i] == Contents()[i].0
    {
      hide Indexed, Chain, Indexable;
      keys := [];
      IterInit();
      var more, k := IterNext(0);
      while more
        invariant Valid()
        invariant |keys| <= |list| && forall i | 0 <= i < |keys| :: keys[i] == Contents()[i].0
        invariant if more then |keys| < |list| && k == Contents()[|keys|].0 && cur == At(list, |keys| + 1) else |keys| == |list|
        decreases |list| - |keys|, more
      {
        keys := keys + [k];
        more, k := IterNext(|keys|);
      }
    }
  }

  lemma IndexIsPlaced(live: Store, at: Places, trees: seq<Tree>, buckets: seq<nat>, first: Hash, second: Ranking)
    requires Indexed(live, at, trees, buckets, first, second)
    ensures Placed(live, at, second) && |trees| == |buckets| > 0
  {
  }

  lemma PlacesArePositive(mem: Memory, at: Places, second: Ranking)
    requires Placed(Indexable(mem), at, second)
    ensures forall k <- at :: at[k] != 0
  {
  }

  /** Only the value of record `i` changed. */
  lemma RewrittenMemory(mem: Memory, ps: seq<Ptr>, i: nat, v: Bytes)
    requires Chain(mem, ps) && i < |ps| && ps[i] in mem
    ensures var mem' := mem[ps[i] := mem[ps[i]].(value := v)];
            && Chain(mem', ps)
            && Entries(mem', ps) == Entries(mem, ps)[i := (mem[ps[i]].key, v)]
            && Indexable(mem') == Indexable(mem)[ps[i] := Indexable(mem)[ps[i]].(value := v)]
  {
    var mem' := mem[ps[i] := mem[ps[i]].(value := v)];
    ChainFrame(mem, mem', ps);
    forall j | 0 <= j < |ps|
      ensures ps[j] in mem && (j != i ==> ps[j] != ps[i])
    {
      assert LinkedAt(mem, ps, j);
    }
  }

  lemma MovingIsRelinking(mem: Memory, at: Places, second: Ranking, k: Key, alloc: Ptr)
    requires Placed(Indexable(mem), at, second) && k in at && alloc != 0 && alloc !in mem
    ensures at[k] in mem && Relinking(Indexable(mem), at, second, k, alloc, Indexable(mem)[at[k]])
  {
  }

  lemma MovedIndexable(mem: Memory, at: Places, k: Key, alloc: Ptr, link: Link, bidx: nat)
    requires k in at && at[k] in mem && alloc !in mem
    requires !link.FromBucket? ==> link.parent in at && link.parent != k
                                   && at[link.parent] in Moved(Indexable(mem), at, k, alloc, Indexable(mem)[at[k]])
    requires !link.FromBucket? ==> at[link.parent] != alloc
    ensures Indexable(Assigned((mem - {at[k]})[alloc := mem[at[k]]], EntpOf(link, at, bidx), alloc))
              == Relink(Moved(Indexable(mem), at, k, alloc, Indexable(mem)[at[k]]), at, link, alloc)
    ensures !link.FromBucket? ==> at[link.parent] in mem && at[link.parent] != at[k]
    ensures link.FromBucket? <==> EntpOf(link, at, bidx).Bucket?
    ensures !link.FromBucket? ==> EntpOf(link, at, bidx).of == at[link.parent]
    ensures link.FromBucket? ==> EntpOf(link, at, bidx).bidx == bidx
  {
    var mem1 := (mem - {at[k]})[alloc := mem[at[k]]];
    assert Indexable(mem1) == Moved(Indexable(mem), at, k, alloc, Indexable(mem)[at[k]]);
    AssignedIsRelink(mem1, at, link, bidx, alloc);
  }

  lemma EndsMoved(mem: Memory, ps: seq<Ptr>, i: nat, alloc: Ptr)
    requires Chain(mem, ps) && i < |ps|
    ensures At(ps[i := alloc], 0) == if At(ps, 0) == ps[i] then alloc else At(ps, 0)
    ensures At(ps[i := alloc], |ps| - 1) == if At(ps, |ps| - 1) == ps[i] then alloc else At(ps, |ps| - 1)
  {
    Neighbours(mem, ps, i);
  }

  /** The list and the entries after record `i` moved to `alloc`. */
  lemma MovedMemory(mem: Memory, ps: seq<Ptr>, i: nat, alloc: Ptr, entp: Entp)
    requires Chain(mem, ps) && i < |ps| && ps[i] in mem && alloc != 0 && alloc !in mem
    ensures var d := mem[ps[i]];
            var mem' := SetPrev(SetNext(Assigned((mem - {ps[i]})[alloc := d], entp, alloc), d.prev, alloc), d.next, alloc);
            && Chain(mem', ps[i := alloc]) && Entries(mem', ps[i := alloc]) == Entries(mem, ps)
            && Indexable(mem') == Indexable(Assigned((mem - {ps[i]})[alloc := d], entp, alloc))
            && alloc in mem'
  {
    hide Assigned, Bypassed, Chain, Indexable;
    var d := mem[ps[i]];
    var mem1 := (mem - {ps[i]})[alloc := d];
    var mem2 := Assigned(mem1, entp, alloc);
    var mem3 := SetNext(mem2, d.prev, alloc);
    var mem4 := SetPrev(mem3, d.next, alloc);
    LinkingIsUnseen(mem2, d.prev, alloc);
    LinkingIsUnseen(mem3, d.next, alloc);
    hide SetNext, SetPrev;
    Neighbours(mem, ps, i);
    ChainMoved(mem, ps, i, alloc, d);
    var target := (Bypassed(mem, ps[i], alloc, alloc) - {ps[i]})[alloc := d];
    forall q <- target
      ensures mem4[q].next == target[q].next && mem4[q].prev == target[q].prev
    {
      MovedLinks(mem, ps, i, alloc, entp, q);
    }
    ChainFrame(target, mem4, ps[i := alloc]);
    forall j | 0 <= j < |ps|
      ensures Entries(mem4, ps[i := alloc])[j] == Entries(mem, ps)[j]
    {
      Neighbours(mem, ps, j);
      MovedLinks(mem, ps, i, alloc, entp, if j == i then alloc else ps[j]);
    }
  }

  lemma MovedLinks(mem: Memory, ps: seq<Ptr>, i: nat, alloc: Ptr, entp: Entp, q: Ptr)
    requires Chain(mem, ps) && i < |ps| && ps[i] in mem && alloc != 0 && alloc !in mem
    requires q == alloc || (q in mem && q != ps[i])
    ensures var d := mem[ps[i]];
            var mem' := SetPrev(SetNext(Assigned((mem - {ps[i]})[alloc := d], entp, alloc), d.prev, alloc), d.next, alloc);
            var target := (Bypassed(mem, ps[i], alloc, alloc) - {ps[i]})[alloc := d];
            && q in mem' && q in target && mem'[q].next == target[q].next && mem'[q].prev == target[q].prev
            && (mem'[q].key, mem'[q].value) == if q == alloc then (d.key, d.value) else (mem[q].key, mem[q].value)
  {
    hide Chain, LinkedAt;
    Neighbours(mem, ps, i);
  }

  lemma FoundIt(mem: Memory, at: Places, second: Ranking, top: Tree, k: Key, t: Tree, link: Link,
                bidx: nat, datum: Ptr, entp: Entp)
    requires Looking(mem, at, second, top, k, t, link, bidx, datum, entp) && t.Node? && t.key == k
    ensures k in Keys(top) && entp == EntpOf(LinkTo(second, top, k, FromBucket), at, bidx)
  {
  }

  lemma NotFound(mem: Memory, at: Places, second: Ranking, top: Tree, k: Key, t: Tree, link: Link,
                 bidx: nat, datum: Ptr, entp: Entp)
    requires Looking(mem, at, second, top, k, t, link, bidx, datum, entp) && datum == 0
    requires Placed(Indexable(mem), at, second)
    ensures k !in Keys(top) && entp == EntpOf(LinkTo(second, top, k, FromBucket), at, bidx)
  {
    LookingOn(mem, at, second, top, k, t, link, bidx, datum, entp);
  }

  ghost function RecordOf(d: Datum): Record {
    Record(false, false, d.hash, d.key, d.value, 0, d.left, d.right)
  }

  lemma AddingIsRelinking(mem: Memory, at: Places, second: Ranking, k: Key, alloc: Ptr, d: Datum)
    requires k !in at && alloc != 0 && alloc !in mem && d.key == k && d.hash == second.hash(k) && d.left == 0 && d.right == 0
    ensures Relinking(Indexable(mem), at, second, k, alloc, RecordOf(d))
  {
  }

  lemma AddedIndexable(mem: Memory, at: Places, k: Key, alloc: Ptr, d: Datum, link: Link, bidx: nat)
    requires k !in at && alloc !in mem
    requires !link.FromBucket? ==> link.parent in at && link.parent != k
                                   && at[link.parent] in Moved(Indexable(mem), at, k, alloc, RecordOf(d))
    ensures Indexable(Assigned(mem[alloc := d], EntpOf(link, at, bidx), alloc))
              == Relink(Moved(Indexable(mem), at, k, alloc, RecordOf(d)), at, link, alloc)
    ensures !link.FromBucket? ==> at[link.parent] in mem[alloc := d]
    ensures link.FromBucket? <==> EntpOf(link, at, bidx).Bucket?
    ensures !link.FromBucket? ==> EntpOf(link, at, bidx).of == at[link.parent]
    ensures link.FromBucket? ==> EntpOf(link, at, bidx).bidx == bidx
  {
    assert Indexable(mem[alloc := d]) == Moved(Indexable(mem), at, k, alloc, RecordOf(d));
    AssignedIsRelink(mem[alloc := d], at, link, bidx, alloc);
  }

  /** The list and the entries with a new record behind the others. */
  lemma AddedMemory(mem: Memory, ps: seq<Ptr>, alloc: Ptr, d: Datum, entp: Entp)
    requires Chain(mem, ps) && alloc != 0 && alloc !in mem && d.prev == At(ps, |ps| - 1) && d.next == 0
    ensures var (mem2, last) := (Assigned(mem[alloc := d], entp, alloc), At(ps, |ps| - 1));
            var mem' := if last != 0 then SetNext(mem2, last, alloc) else mem2;
            && Chain(mem', ps + [alloc]) && Entries(mem', ps + [alloc]) == Entries(mem, ps) + [(d.key, d.value)]
            && Indexable(mem') == Indexable(mem2)
    ensures At(ps + [alloc], 0) == (if At(ps, 0) == 0 then alloc else At(ps, 0)) && At(ps + [alloc], |ps|) == alloc
  {
    hide Assigned, Chain, Indexable;
    var last := At(ps, |ps| - 1);
    var mem2 := Assigned(mem[alloc := d], entp, alloc);
    var mem' := if last != 0 then SetNext(mem2, last, alloc) else mem2;
    LinkingIsUnseen(mem2, last, alloc);
    ChainPushBack(mem, ps, alloc, d);
    if ps != [] {
      Neighbours(mem, ps, 0);
      Neighbours(mem, ps, |ps| - 1);
    }
    var target := SetNext(mem, last, alloc)[alloc := d];
    hide SetNext;
    forall q <- target
      ensures q in mem' && mem'[q].next == target[q].next && mem'[q].prev == target[q].prev
    {
      AddedLinks(mem, ps, alloc, d, entp, q);
    }
    AddedLinks(mem, ps, alloc, d, entp, alloc);
    ChainFrame(target, mem', ps + [alloc]);
    forall j | 0 <= j < |ps|
      ensures Entries(mem', ps + [alloc])[j] == Entries(mem, ps)[j]
    {
      Neighbours(mem, ps, j);
      AddedLinks(mem, ps, alloc, d, entp, ps[j]);
    }
  }

  lemma AddedLinks(mem: Memory, ps: seq<Ptr>, alloc: Ptr, d: Datum, entp: Entp, q: Ptr)
    requires Chain(mem, ps) && alloc != 0 && alloc !in mem && (q == alloc || q in mem)
    ensures var (mem2, last) := (Assigned(mem[alloc := d], entp, alloc), At(ps, |ps| - 1));
            var mem' := if last != 0 then SetNext(mem2, last, alloc) else mem2;
            var target := SetNext(mem, last, alloc)[alloc := d];
            && mem'.Keys == target.Keys && q in mem' && q in target
            && mem'[q].next == target[q].next && mem'[q].prev == target[q].prev
            && (mem'[q].key, mem'[q].value) == if q == alloc then (d.key, d.value) else (mem[q].key, mem[q].value)
  {
    if ps != [] {
      Neighbours(mem, ps, |ps| - 1);
    }
    hide Chain, LinkedAt;
  }

  /** A key is in the list just when it has a place. */
  lemma HasPlace(mem: Memory, ps: seq<Ptr>, at: Places, trees: seq<Tree>, buckets: seq<nat>, first: Hash, second: Ranking, k: Key)
    requires Indexed(Indexable(mem), at, trees, buckets, first, second) && Chain(mem, ps)
    ensures HasKey(Entries(mem, ps), k) <==> k in at
    ensures k in at ==> at[k] != 0 && at[k] in mem && ValueOf(Entries(mem, ps), k) == mem[at[k]].value
  {
    if k in at {
      var i := Position(mem, ps, at, second, k);
      StoredAt(Entries(mem, ps), i, []);
      ValueAt(Entries(mem, ps), i);
      PlacesArePositive(mem, at, second);
    } else {
      NoPosition(mem, ps, at, second, k);
    }
  }

  /** Memory without a record that was unlinked and cut out of its tree. */
  function Excised(mem: Memory, p: Ptr, entp: Entp, target: Ptr, tail: Ptr): Memory
    requires p in mem
  {
    var d := mem[p];
    var mem2 := Assigned(Bypassed(mem, p, d.next, d.prev), entp, target);
    (if tail in mem2 then mem2[tail := mem2[tail].(right := d.right)] else mem2) - {p}
  }

  lemma {:induction false} SubLinked(live: Store, at: Places, h: Ranking, t: Tree, k: Key)
    requires Linked(live, at, t) && Ordered(h, t) && k in Keys(t)
    ensures Sub(h, t, k).Node? && Linked(live, at, Sub(h, t, k)) && Ordered(h, Sub(h, t, k)) && Keys(Sub(h, t, k)) <= Keys(t)
  {
    if t.key != k {
      SearchStep(h, t, k);
      SubLinked(live, at, h, if Compare(h, k, t.key) > 0 then t.left else t.right, k);
    }
  }

  lemma RootIsNil(at: Places, t: Tree)
    requires forall x <- Keys(t) :: x in at && at[x] != 0
    ensures Root(at, t) == 0 <==> t.Nil?
  {
    assert t.Node? ==> t.key in Keys(t);
  }

  /** The record that is removed, and the subtrees below it. */
  lemma SubFacts(mem: Memory, at: Places, trees: seq<Tree>, buckets: seq<nat>, first: Hash, second: Ranking, k: Key, b: nat)
    requires Indexed(Indexable(mem), at, trees, buckets, first, second) && k in at
    requires b < |trees| && b == BucketOf(first, k, |trees|)
    ensures at[k] in mem && k in Keys(trees[b]) && Ordered(second, trees[b])
    ensures var t := Sub(second, trees[b], k);
            && t.Node? && t.key == k && Linked(Indexable(mem), at, t.left) && Linked(Indexable(mem), at, t.right)
            && mem[at[k]].left == Root(at, t.left) && mem[at[k]].right == Root(at, t.right)
            && (mem[at[k]].left == 0 <==> t.left.Nil?) && (mem[at[k]].right == 0 <==> t.right.Nil?)
            && (t.left.Node? ==> t.left.key in at)
            && (forall x <- Keys(t.left) :: x in at && at[x] in mem && at[x] != 0 && mem[at[x]].hash >= mem[at[k]].hash)
  {
    hide BucketOf, Linked, Ordered, Sub, Keys, Placed, Smaller;
    FiledUnder(Indexable(mem), at, trees, buckets, first, second, k, b);
    hide Indexed;
    SubLinked(Indexable(mem), at, second, trees[b], k);
    BelowSub(mem, at, second, Sub(second, trees[b], k));
    InOrder(second, Sub(second, trees[b], k));
    TopLinked(Indexable(mem), at, Sub(second, trees[b], k));
    SubKey(second, trees[b], k);
  }

  lemma FiledUnder(live: Store, at: Places, trees: seq<Tree>, buckets: seq<nat>, first: Hash, second: Ranking, k: Key, b: nat)
    requires Indexed(live, at, trees, buckets, first, second) && k in at
    requires b < |trees| && b == BucketOf(first, k, |trees|)
    ensures at[k] in live && k in Keys(trees[b]) && Ordered(second, trees[b]) && Linked(live, at, trees[b])
    ensures Placed(live, at, second) && forall x <- Keys(trees[b]) :: x in at
  {
    hide BucketOf, Linked, Ordered;
    assert BucketOk(live, at, trees[b], buckets[b], second);
  }

  lemma InOrder(second: Ranking, t: Tree)
    requires t.Node? && Ordered(second, t)
    ensures Ordered(second, t.left) && Ordered(second, t.right)
  {
  }

  lemma TopLinked(live: Store, at: Places, t: Tree)
    requires t.Node? && Linked(live, at, t)
    ensures Linked(live, at, t.left) && Linked(live, at, t.right)
  {
  }

  lemma SubKey(second: Ranking, t: Tree, k: Key)
    ensures Sub(second, t, k).Node? ==> Sub(second, t, k).key == k
  {
  }

  lemma BelowSub(mem: Memory, at: Places, second: Ranking, t: Tree)
    requires t.Node? && Linked(Indexable(mem), at, t) && Ordered(second, t) && Placed(Indexable(mem), at, second)
    requires forall x <- Keys(t) :: x in at
    ensures t.key in at && at[t.key] in mem
    ensures mem[at[t.key]].left == Root(at, t.left) && mem[at[t.key]].right == Root(at, t.right)
    ensures (mem[at[t.key]].left == 0 <==> t.left.Nil?) && (mem[at[t.key]].right == 0 <==> t.right.Nil?)
    ensures t.left.Node? ==> t.left.key in at
    ensures forall x <- Keys(t.left) :: x in at && at[x] in mem && at[x] != 0 && mem[at[x]].hash >= mem[at[t.key]].hash
  {
    assert NodeAt(Indexable(mem), at, t.key, Root(at, t.left), Root(at, t.right));
    forall x | x in Keys(t)
      ensures x in at && at[x] in mem && at[x] != 0 && mem[at[x]].hash == second.hash(x)
    {
      assert Indexable(mem)[at[x]].hash == second.hash(x);
    }
    RootIsNil(at, t.left);
    RootIsNil(at, t.right);
    assert t.left.Node? ==> t.left.key in Keys(t.left);
    forall x <- Keys(t.left)
      ensures second.hash(x) >= second.hash(t.key)
    {
      assert Smaller(second, t.key, x);
    }
  }

  lemma GraftRoot(at: Places, l: Tree, r: Tree)
    requires l.Node?
    ensures Root(at, Grafted(l, r)) == Root(at, l)
  {
  }

  lemma BypassIsUnseen(mem: Memory, p: Ptr, behind: Ptr, before: Ptr)
    requires p in mem
    ensures Indexable(Bypassed(mem, p, behind, before)) == Indexable(mem)
  {
    hide Indexable;
    LinkingIsUnseen(mem, mem[p].prev, behind);
    LinkingIsUnseen(SetNext(mem, mem[p].prev, behind), mem[p].next, before);
  }

  /** What the search trees see of that. */
  lemma RemovedIndexable(mem: Memory, at: Places, k: Key, s: Surgery, bidx: nat, entp: Entp, tail: Ptr)
    requires k in at && at[k] in mem && 0 !in mem && entp == EntpOf(s.link, at, bidx)
    requires !s.link.FromBucket? ==> s.link.parent in at && at[s.link.parent] in mem
    requires s.graft ==> s.tail in at && at[s.tail] in mem && s.grafted == mem[at[k]].right
    requires tail == if s.graft then at[s.tail] else 0
    ensures Indexable(Excised(mem, at[k], entp, s.target, tail)) == Removed(Indexable(mem), at, k, s)
    ensures s.link.FromBucket? <==> entp.Bucket?
    ensures !s.link.FromBucket? ==> entp.of in mem
    ensures s.link.FromBucket? ==> entp.bidx == bidx
  {
    hide Bypassed;
    var d := mem[at[k]];
    var mem1 := Bypassed(mem, at[k], d.next, d.prev);
    BypassIsUnseen(mem, at[k], d.next, d.prev);
    AssignedIsRelink(mem1, at, s.link, bidx, s.target);
    hide Assigned;
    var mem2 := Assigned(mem1, entp, s.target);
    GraftIndexable(mem2, tail, d.right, at[k]);
  }

  lemma GraftIndexable(mem: Memory, tail: Ptr, x: Ptr, p: Ptr)
    ensures Indexable((if tail in mem then mem[tail := mem[tail].(right := x)] else mem) - {p})
              == (if tail in mem then Indexable(mem)[tail := Indexable(mem)[tail].(right := x)] else Indexable(mem)) - {p}
  {
  }

  /** The list and the entries after that. */
  lemma RemovedMemory(mem: Memory, ps: seq<Ptr>, i: nat, entp: Entp, target: Ptr, tail: Ptr)
    requires Chain(mem, ps) && i < |ps| && ps[i] in mem && Only(Entries(mem, ps), i)
    ensures var (mem', qs) := (Excised(mem, ps[i], entp, target, tail), ps[..i] + ps[i + 1..]);
            && Chain(mem', qs) && Entries(mem', qs) == Dropped(Entries(mem, ps), mem[ps[i]].key)
            && mem'.Keys <= mem.Keys
            && At(qs, 0) == (if At(ps, 0) == ps[i] then mem[ps[i]].next else At(ps, 0))
            && At(qs, |qs| - 1) == (if At(ps, |ps| - 1) == ps[i] then mem[ps[i]].prev else At(ps, |ps| - 1))
  {
    var p, d := ps[i], mem[ps[i]];
    var mem', qs := Excised(mem, p, entp, target, tail), ps[..i] + ps[i + 1..];
    var bypassed := Bypassed(mem, p, d.next, d.prev) - {p};
    ChainUnlink(mem, ps, i);
    ExcisedFields(mem, p, entp, target, tail);
    hide Excised, Bypassed;
    ChainFrame(bypassed, mem', qs);
    EndsRemoved(mem, ps, i);
    EntriesRemoved(mem, ps, i, mem');
  }

  lemma EndsRemoved(mem: Memory, ps: seq<Ptr>, i: nat)
    requires Chain(mem, ps) && i < |ps| && ps[i] in mem
    ensures var qs := ps[..i] + ps[i + 1..];
            && At(qs, 0) == (if At(ps, 0) == ps[i] then mem[ps[i]].next else At(ps, 0))
            && At(qs, |qs| - 1) == (if At(ps, |ps| - 1) == ps[i] then mem[ps[i]].prev else At(ps, |ps| - 1))
  {
    Neighbours(mem, ps, i);
    hide Chain;
  }

  lemma EachOnce(mem: Memory, ps: seq<Ptr>, i: nat)
    requires Chain(mem, ps) && i < |ps|
    ensures forall j | 0 <= j < |ps| :: ps[j] in mem && (ps[j] == ps[i] <==> j == i)
  {
    Neighbours(mem, ps, i);
    forall j | 0 <= j < |ps|
      ensures ps[j] in mem
    {
      Neighbours(mem, ps, j);
    }
  }

  lemma EntriesRemoved(mem: Memory, ps: seq<Ptr>, i: nat, mem': Memory)
    requires Chain(mem, ps) && i < |ps| && ps[i] in mem && Only(Entries(mem, ps), i) && mem'.Keys == mem.Keys - {ps[i]}
    requires forall q <- mem' :: mem'[q].key == mem[q].key && mem'[q].value == mem[q].value
    ensures Entries(mem', ps[..i] + ps[i + 1..]) == Dropped(Entries(mem, ps), mem[ps[i]].key)
  {
    var qs, es := ps[..i] + ps[i + 1..], Entries(mem, ps);
    DroppedAt(es, i);
    EachOnce(mem, ps, i);
    hide Chain, Only, Dropped;
    forall j | 0 <= j < |qs|
      ensures Entries(mem', qs)[j] == (es[..i] + es[i + 1..])[j]
    {
      assert qs[j] == ps[if j < i then j else j + 1];
    }
    hide Entries;
    assert Entries(mem', qs) == es[..i] + es[i + 1..];
  }

  lemma ExcisedFields(mem: Memory, p: Ptr, entp: Entp, target: Ptr, tail: Ptr)
    requires p in mem
    ensures var (mem', bypassed) := (Excised(mem, p, entp, target, tail), Bypassed(mem, p, mem[p].next, mem[p].prev) - {p});
            && mem'.Keys == bypassed.Keys == mem.Keys - {p}
            && (forall q <- bypassed :: mem'[q].next == bypassed[q].next && mem'[q].prev == bypassed[q].prev)
            && (forall q <- mem' :: mem'[q].key == mem[q].key && mem'[q].value == mem[q].value)
  {
    var d := mem[p];
    var mem1 := Bypassed(mem, p, d.next, d.prev);
    BypassedData(mem, p, d.next, d.prev);
    hide Bypassed;
    var mem2 := Assigned(mem1, entp, target);
    AssignedData(mem1, entp, target);
    hide Assigned;
    var mem3 := if tail in mem2 then mem2[tail := mem2[tail].(right := d.right)] else mem2;
    assert forall q <- mem2 :: mem3[q] == mem2[q] || mem3[q] == mem2[q].(right := d.right);
  }

  lemma BypassedData(mem: Memory, p: Ptr, behind: Ptr, before: Ptr)
    requires p in mem
    ensures forall q <- mem :: var d := Bypassed(mem, p, behind, before)[q]; d.key == mem[q].key && d.value == mem[q].value
  {
  }

  lemma AssignedData(mem: Memory, entp: Entp, x: Ptr)
    ensures forall q <- mem :: var d := Assigned(mem, entp, x)[q];
              d.key == mem[q].key && d.value == mem[q].value && d.next == mem[q].next && d.prev == mem[q].prev
  {
  }

  lemma EndsOfChain(mem: Memory, ps: seq<Ptr>, i: nat)
    requires Chain(mem, ps) && i < |ps|
    ensures At(ps, 0) == ps[i] <==> i == 0
    ensures At(ps, |ps| - 1) == ps[i] <==> i == |ps| - 1
  {
    Neighbours(mem, ps, i);
  }

  /** The first entry is in front of the others already, the last one behind. */
  lemma FirstIsFirst(mem: Memory, ps: seq<Ptr>)
    requires Chain(mem, ps) && ps != [] && Only(Entries(mem, ps), 0)
    ensures Entries(mem, ps) == [Entries(mem, ps)[0]] + Dropped(Entries(mem, ps), Entries(mem, ps)[0].0)
  {
    DroppedAt(Entries(mem, ps), 0);
  }

  lemma LastIsLast(mem: Memory, ps: seq<Ptr>)
    requires Chain(mem, ps) && ps != [] && Only(Entries(mem, ps), |ps| - 1)
    ensures var es := Entries(mem, ps); es == Dropped(es, es[|es| - 1].0) + [es[|es| - 1]]
  {
    DroppedAt(Entries(mem, ps), |ps| - 1);
  }

  /** Only the threading of the records changed. */
  ghost predicate Rethreaded(mem: Memory, mem': Memory) {
    && mem'.Keys == mem.Keys
    && (forall p <- mem :: mem'[p] == mem[p].(prev := mem'[p].prev, next := mem'[p].next))
  }

  lemma RethreadedIsUnseen(mem: Memory, mem': Memory)
    requires Rethreaded(mem, mem')
    ensures Indexable(mem') == Indexable(mem)
  {
  }

  lemma SettingRethreads(mem: Memory, p: Ptr, x: Ptr)
    ensures Rethreaded(mem, SetNext(mem, p, x)) && Rethreaded(mem, SetPrev(mem, p, x))
  {
  }

  lemma RethreadedTwice(mem: Memory, mem': Memory, mem'': Memory)
    requires Rethreaded(mem, mem') && Rethreaded(mem', mem'')
    ensures Rethreaded(mem, mem'')
  {
    forall p <- mem
      ensures mem''[p] == mem[p].(prev := mem''[p].prev, next := mem''[p].next)
    {
      assert mem'[p] == mem[p].(prev := mem'[p].prev, next := mem'[p].next);
    }
  }

  lemma BypassRethreads(mem: Memory, p: Ptr, behind: Ptr, before: Ptr)
    requires p in mem
    ensures Rethreaded(mem, Bypassed(mem, p, behind, before))
  {
    hide Rethreaded;
    var mem1 := SetNext(mem, mem[p].prev, behind);
    SettingRethreads(mem, mem[p].prev, behind);
    SettingRethreads(mem1, mem[p].next, before);
    RethreadedTwice(mem, mem1, SetPrev(mem1, mem[p].next, before));
  }

  /** The entries of records in another order. */
  lemma SameEntries(mem: Memory, ps: seq<Ptr>, i: nat, mem': Memory)
    requires Chain(mem, ps) && i < |ps| && Rethreaded(mem, mem')
    ensures Entries(mem', ps) == Entries(mem, ps)
  {
    EachOnce(mem, ps, i);
    hide Chain;
  }

  lemma EntriesJoin(mem: Memory, a: seq<Ptr>, b: seq<Ptr>)
    ensures Entries(mem, a + b) == Entries(mem, a) + Entries(mem, b)
  {
  }

  lemma EntriesRethreaded(mem: Memory, ps: seq<Ptr>, i: nat, mem': Memory)
    requires Chain(mem, ps) && i < |ps| && Only(Entries(mem, ps), i) && Rethreaded(mem, mem')
    ensures var (p, qs, es) := (ps[i], ps[..i] + ps[i + 1..], Entries(mem, ps));
            && Entries(mem', [p] + qs) == [es[i]] + Dropped(es, es[i].0)
            && Entries(mem', qs + [p]) == Dropped(es, es[i].0) + [es[i]]
  {
    hide *;
    DroppedAt(Entries(mem, ps), i);
    SameEntries(mem, ps, i, mem');
    EntriesAround(mem', ps, i);
  }

  lemma EntriesAround(mem: Memory, ps: seq<Ptr>, i: nat)
    requires i < |ps|
    ensures var (p, qs, es) := (ps[i], ps[..i] + ps[i + 1..], Entries(mem, ps));
            && Entries(mem, [p] + qs) == [es[i]] + (es[..i] + es[i + 1..])
            && Entries(mem, qs + [p]) == (es[..i] + es[i + 1..]) + [es[i]]
  {
    var before, p, after := ps[..i], ps[i], ps[i + 1..];
    EntriesOf(mem, ps, i);
    hide Entries;
    EntriesJoin(mem, before, after);
    EntriesJoin(mem, [p], before + after);
    EntriesJoin(mem, before + after, [p]);
  }

  lemma EntriesOf(mem: Memory, ps: seq<Ptr>, i: nat)
    requires i < |ps|
    ensures var es := Entries(mem, ps);
            Entries(mem, ps[..i]) == es[..i] && Entries(mem, [ps[i]]) == [es[i]] && Entries(mem, ps[i + 1..]) == es[i + 1..]
  {
  }

  /** Record `i` unlinked and put in front of the first one. */
  lemma FrontedMemory(mem: Memory, ps: seq<Ptr>, i: nat)
    requires Chain(mem, ps) && 0 < i < |ps| && ps[i] in mem && Only(Entries(mem, ps), i)
    ensures var (p, d, qs) := (ps[i], mem[ps[i]], ps[..i] + ps[i + 1..]);
            var mem1 := Bypassed(mem, p, d.next, d.prev);
            var mem' := SetPrev(mem1[p := mem1[p].(prev := 0, next := At(ps, 0))], At(ps, 0), p);
            && Chain(mem', [p] + qs) && Indexable(mem') == Indexable(mem)
            && Entries(mem', [p] + qs) == [Entries(mem, ps)[i]] + Dropped(Entries(mem, ps), Entries(mem, ps)[i].0)
    ensures At([ps[i]] + (ps[..i] + ps[i + 1..]), 0) == ps[i]
    ensures At([ps[i]] + (ps[..i] + ps[i + 1..]), |ps| - 1) == if At(ps, |ps| - 1) == ps[i] then mem[ps[i]].prev else At(ps, |ps| - 1)
  {
    var p, d, qs := ps[i], mem[ps[i]], ps[..i] + ps[i + 1..];
    var mem1 := Bypassed(mem, p, d.next, d.prev);
    BypassRethreads(mem, p, d.next, d.prev);
    ChainUnlink(mem, ps, i);
    hide Bypassed, Chain, Only, Rethreaded, Entries, Dropped, Indexable, SetPrev;
    PutElsewhere(mem, ps, i, mem1, 0, ps[0], ps[0]);
    FrontEnds(mem, ps, i);
    PushedFront(mem1, qs, p, ps[0]);
  }

  /** A record with other links, and a neighbour that follows. */
  lemma PutElsewhere(mem: Memory, ps: seq<Ptr>, i: nat, mem1: Memory, prev: Ptr, next: Ptr, q: Ptr)
    requires Chain(mem, ps) && i < |ps| && Only(Entries(mem, ps), i) && Rethreaded(mem, mem1) && ps[i] in mem1
    ensures var (p, qs, es) := (ps[i], ps[..i] + ps[i + 1..], Entries(mem, ps));
            var mem2 := mem1[p := mem1[p].(prev := prev, next := next)];
            && Indexable(SetPrev(mem2, q, p)) == Indexable(mem) == Indexable(SetNext(mem2, q, p))
            && Entries(SetPrev(mem2, q, p), [p] + qs) == [es[i]] + Dropped(es, es[i].0)
            && Entries(SetNext(mem2, q, p), qs + [p]) == Dropped(es, es[i].0) + [es[i]]
  {
    var p := ps[i];
    var mem2 := mem1[p := mem1[p].(prev := prev, next := next)];
    RethreadedTwice(mem, mem1, mem2);
    hide Chain, Only, Rethreaded, Entries, Dropped, Indexable, SetPrev, SetNext;
    SettingRethreads(mem2, q, p);
    RethreadedTwice(mem, mem2, SetPrev(mem2, q, p));
    RethreadedTwice(mem, mem2, SetNext(mem2, q, p));
    RethreadedIsUnseen(mem, SetPrev(mem2, q, p));
    RethreadedIsUnseen(mem, SetNext(mem2, q, p));
    EntriesRethreaded(mem, ps, i, SetPrev(mem2, q, p));
    EntriesRethreaded(mem, ps, i, SetNext(mem2, q, p));
  }

  lemma PushedFront(mem1: Memory, qs: seq<Ptr>, p: Ptr, first: Ptr)
    requires p in mem1 && p != 0 && Chain(mem1 - {p}, qs) && first == At(qs, 0) && first != p
    ensures Chain(SetPrev(mem1[p := mem1[p].(prev := 0, next := first)], first, p), [p] + qs)
  {
    var d' := mem1[p].(prev := 0, next := first);
    ChainPushFront(mem1 - {p}, qs, p, d');
    hide Chain;
    assert SetPrev(mem1[p := d'], first, p) == SetPrev(mem1 - {p}, first, p)[p := d'];
  }

  lemma PushedBack(mem1: Memory, qs: seq<Ptr>, p: Ptr, last: Ptr)
    requires p in mem1 && p != 0 && Chain(mem1 - {p}, qs) && last == At(qs, |qs| - 1) && last != p
    ensures Chain(SetNext(mem1[p := mem1[p].(prev := last, next := 0)], last, p), qs + [p])
  {
    var d' := mem1[p].(prev := last, next := 0);
    ChainPushBack(mem1 - {p}, qs, p, d');
    hide Chain;
    assert SetNext(mem1[p := d'], last, p) == SetNext(mem1 - {p}, last, p)[p := d'];
  }

  lemma FrontEnds(mem: Memory, ps: seq<Ptr>, i: nat)
    requires Chain(mem, ps) && 0 < i < |ps| && ps[i] in mem
    ensures At(ps[..i] + ps[i + 1..], 0) == At(ps, 0) == ps[0] != ps[i] && ps[i] != 0
    ensures At([ps[i]] + (ps[..i] + ps[i + 1..]), |ps| - 1) == if At(ps, |ps| - 1) == ps[i] then mem[ps[i]].prev else At(ps, |ps| - 1)
  {
    Neighbours(mem, ps, i);
    hide Chain;
  }

  lemma BackEnds(mem: Memory, ps: seq<Ptr>, i: nat)
    requires Chain(mem, ps) && i + 1 < |ps| && ps[i] in mem
    ensures At(ps[..i] + ps[i + 1..], |ps| - 2) == At(ps, |ps| - 1) == ps[|ps| - 1] != ps[i] && ps[i] != 0
    ensures At((ps[..i] + ps[i + 1..]) + [ps[i]], 0) == if At(ps, 0) == ps[i] then mem[ps[i]].next else At(ps, 0)
  {
    Neighbours(mem, ps, i);
    hide Chain;
  }

  /** Record `i` unlinked and put behind the last one. */
  lemma BackedMemory(mem: Memory, ps: seq<Ptr>, i: nat)
    requires Chain(mem, ps) && i + 1 < |ps| && ps[i] in mem && Only(Entries(mem, ps), i)
    ensures var (p, d, qs, last) := (ps[i], mem[ps[i]], ps[..i] + ps[i + 1..], At(ps, |ps| - 1));
            var mem1 := Bypassed(mem, p, d.next, d.prev);
            var mem' := SetNext(mem1[p := mem1[p].(prev := last, next := 0)], last, p);
            && Chain(mem', qs + [p]) && Indexable(mem') == Indexable(mem)
            && Entries(mem', qs + [p]) == Dropped(Entries(mem, ps), Entries(mem, ps)[i].0) + [Entries(mem, ps)[i]]
    ensures At((ps[..i] + ps[i + 1..]) + [ps[i]], |ps| - 1) == ps[i]
    ensures At((ps[..i] + ps[i + 1..]) + [ps[i]], 0) == if At(ps, 0) == ps[i] then mem[ps[i]].next else At(ps, 0)
  {
    var p, d, qs, last := ps[i], mem[ps[i]], ps[..i] + ps[i + 1..], ps[|ps| - 1];
    var mem1 := Bypassed(mem, p, d.next, d.prev);
    BypassRethreads(mem, p, d.next, d.prev);
    ChainUnlink(mem, ps, i);
    hide Bypassed, Chain, Only, Rethreaded, Entries, Dropped, Indexable, SetNext;
    PutElsewhere(mem, ps, i, mem1, last, 0, last);
    BackEnds(mem, ps, i);
    PushedBack(mem1, qs, p, last);
  }

  lemma EmptyIndex(first: Hash, second: Ranking, buckets: seq<nat>, trees: seq<Tree>)
    requires |buckets| == |trees| > 0
    requires forall b | 0 <= b < |trees| :: trees[b].Nil? && buckets[b] == 0
    ensures Indexed(Indexable(map[]), map[], trees, buckets, first, second)
  {
    assert Indexable(map[]) == map[];
    forall b | 0 <= b < |trees|
      ensures BucketOk(map[], map[], trees[b], buckets[b], second)
    {
    }
  }

  /** No key occurs twice, and rnum counts the keys. */
  lemma KeysAreDistinct(m: Map)
    requires m.Valid()
    ensures forall i, j | 0 <= i < j < |m.Contents()| :: m.Contents()[i].0 != m.Contents()[j].0
    ensures KeysDiffer(m.Contents())
    ensures m.rnum == |m.Contents()|
  {
    hide Indexed;
    IndexIsPlaced(Indexable(m.mem), m.at, m.trees, m.buckets[..], m.first, m.second);
    forall i, j | 0 <= i < j < |m.list|
      ensures m.Contents()[i].0 != m.Contents()[j].0
    {
      Neighbours(m.mem, m.list, i);
      Neighbours(m.mem, m.list, j);
      assert Indexable(m.mem)[m.list[i]].key == m.Contents()[i].0;
      assert Indexable(m.mem)[m.list[j]].key == m.Contents()[j].0;
    }
  }

  // ---------- runs ----------

  datatype Update = PutOp(key: Key, value: Bytes, over: bool) | CatOp(key: Key, value: Bytes)
                  | OutOp(key: Key) | MoveOp(key: Key, tohead: bool)

  /** What one call does to a list of keys and values. */
  ghost function Applied(es: seq<Entry>, u: Update): seq<Entry> {
    match u
    case PutOp(k, v, over) => if over || !HasKey(es, k) then Stored(es, k, v) else es
    case CatOp(k, v) => Stored(es, k, if HasKey(es, k) then ValueOf(es, k) + v else v)
    case OutOp(k) => Dropped(es, k)
    case MoveOp(k, tohead) =>
      if !HasKey(es, k) then es
      else if tohead then [(k, ValueOf(es, k))] + Dropped(es, k)
      else Dropped(es, k) + [(k, ValueOf(es, k))]
  }

  ghost function AppliedAll(es: seq<Entry>, us: seq<Update>): seq<Entry> {
    if us == [] then es else Applied(AppliedAll(es, us[..|us| - 1]), us[|us| - 1])
  }

  method ApplyOne(m: Map, u: Update, alloc: Ptr, moves: bool)
    requires m.Valid() && alloc != 0 && alloc !in m.mem
    modifies m, m.buckets
    ensures m.Valid() && m.Contents() == Applied(old(m.Contents()), u)
    ensures m.mem.Keys <= old(m.mem.Keys) + {alloc} && m.buckets == old(m.buckets)
  {
    hide Indexed, Chain, Entries, HasKey, Stored, Dropped, ValueOf;
    match u
    case PutOp(k, v, over) =>
      var _ := m.Put(k, v, over, alloc, moves);
    case CatOp(k, v) =>
      m.PutCat(k, v, alloc, moves);
    case OutOp(k) =>
      var _ := m.Out(k);
    case MoveOp(k, tohead) =>
      var _ := m.Move(k, tohead);
  }

  /** Some address is free. */
  lemma FreeAddress(used: set<Ptr>) returns (p: Ptr)
    ensures p != 0 && forall q <- used :: q < p
  {
    p := 1;
    var rest := used;
    while rest != {}
      invariant p != 0 && rest <= used && forall q <- used | q !in rest :: q < p
      decreases rest
    {
      var q :| q in rest;
      p := if p > q then p else q + 1;
      rest := rest - {q};
    }
  }

  /** Any run of updates leaves a map whose trees and list hold the same records,
      and which stands for the entries that the same updates make of a plain
      list, wherever the allocator puts records, also where others were freed,
      and whether or not a growing record moves. */
  method Run(m: Map, us: seq<Update>)
    requires m.Valid()
    modifies m, m.buckets
    ensures m.Valid() && m.Contents() == AppliedAll(old(m.Contents()), us) && m.rnum == |m.Contents()|
  {
    hide Indexed, Chain, Entries, Applied;
    var i := 0;
    while i < |us|
      invariant 0 <= i <= |us| && m.buckets == old(m.buckets)
      invariant m.Valid() && m.Contents() == AppliedAll(old(m.Contents()), us[..i])
    {
      assert us[..i + 1][..|us[..i + 1]| - 1] == us[..i];
      ghost var p := FreeAddress(m.mem.Keys);
      assert p !in m.mem.Keys && p !in m.mem;
      var alloc: Ptr :| alloc != 0 && alloc !in m.mem;
      var moves: bool := *;
      ApplyOne(m, us[i], alloc, moves);
      i := i + 1;
    }
    assert us[..i] == us;
    KeysAreDistinct(m);
  }
}
