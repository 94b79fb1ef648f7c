/** Whole-file operations on a Depot database: runs of updates, optimizing,
    repairing, exporting and importing. */
module DepotTools {
  import opened ByteOrder
  import opened DepotSpace
  import opened HashIndex
  import opened Depot

  const BATCH: nat := 256 // DP_OPTRUNIT

  // ---------- runs ----------

  datatype Update = PutOp(key: Key, value: seq<byte>, mode: Mode) | OutOp(key: Key)

  type Dict = map<Key, seq<byte>>

  /** What one call does to a plain map. */
  function Applied(m: Dict, u: Update): Dict {
    match u
    case PutOp(k, v, mode) =>
      if mode.Keep? && k in m then m else if mode.Cat? && k in m then m[k := m[k] + v] else m[k := v]
    case OutOp(k) => m - {k}
  }

  function AppliedAll(m: Dict, us: seq<Update>): Dict {
    if us == [] then m else Applied(AppliedAll(m, us[..|us| - 1]), us[|us| - 1])
  }

  method ApplyOne(d: Database, u: Update)
    requires d.Valid()
    modifies d, d.fbpool, d.buckets
    ensures d.fbpool == old(d.fbpool) && d.buckets == old(d.buckets)
    ensures d.Valid() && d.Contents() == Applied(old(d.Contents()), u)
  {
    hide SpaceSound, Indexed, InUse, Live;
    match u
    case PutOp(k, v, mode) =>
      var _ := d.Put(k, v, mode);
    case OutOp(k) =>
      var _ := d.Out(k);
  }

  /** Any run of updates leaves the database valid and standing for the map the
      same updates make of a plain map. */
  method Run(d: Database, us: seq<Update>)
    requires d.Valid()
    modifies d, d.fbpool, d.buckets
    ensures d.fbpool == old(d.fbpool) && d.buckets == old(d.buckets)
    ensures d.Valid() && d.Contents() == AppliedAll(old(d.Contents()), us)
    ensures d.rnum == |AppliedAll(old(d.Contents()), us)|
  {
    hide SpaceSound, Indexed, InUse, Live, Applied;
    var i := 0;
    while i < |us|
      invariant 0 <= i <= |us|
      invariant d.fbpool == old(d.fbpool) && d.buckets == old(d.buckets)
      invariant d.Valid() && d.Contents() == AppliedAll(old(d.Contents()), us[..i])
    {
      assert us[..i + 1][..|us[..i + 1]| - 1] == us[..i];
      ApplyOne(d, us[i]);
      i := i + 1;
    }
    assert us[..i] == us;
  }

  // ---------- linear scans ----------

  /** What the live records in front of `o` stand for. */
  ghost function Before(store: Store, at: Places, o: nat): Dict {
    PlacedBefore(Live(InUse(store), at), at, o)
  }

  ghost function PlacedBefore(m: Dict, at: Places, o: nat): Dict {
    map k | k in m && k in at && at[k] < o :: m[k]
  }

  lemma NoneGained(m: Dict, at: Places, o: nat, next: nat)
    requires forall k | k in m && k in at :: at[k] < next <==> at[k] < o
    ensures PlacedBefore(m, at, next) == PlacedBefore(m, at, o)
  {
  }

  lemma OneGained(m: Dict, at: Places, o: nat, next: nat, k: Key)
    requires forall x | x in m && x in at :: at[x] < next <==> at[x] < o || x == k
    requires k in m && k in at && at[k] == o < next
    ensures k !in PlacedBefore(m, at, o)
    ensures PlacedBefore(m, at, next) == PlacedBefore(m, at, o)[k := m[k]]
  {
  }

  /** The space and index invariants, spelled out over values. */
  ghost predicate WellFormed(store: Store, at: Places, second: Ranking, start: nat, fsiz: nat) {
    && Tiled(store, start, fsiz)
    && Placed(InUse(store), at, second)
    && (forall o <- store :: store[o].reusable ==> store[o].deleted)
  }

  lemma ValidIsWellFormed(d: Database)
    requires d.Valid()
    ensures WellFormed(d.store, d.at, d.second, d.Start(), d.fsiz)
  {
    hide PoolSound, Tiled, Placed, Filed, BucketOk;
  }

  lemma BeforeEnds(store: Store, at: Places, second: Ranking, start: nat, fsiz: nat)
    requires WellFormed(store, at, second, start, fsiz)
    ensures Before(store, at, start) == map[] && Before(store, at, fsiz) == Live(InUse(store), at)
    ensures IsEdge(store, fsiz, start)
  {
    BeforeTheEnd(store, start, fsiz);
  }

  /** Stepping over the record at `o`. */
  lemma BeforeStep(store: Store, at: Places, second: Ranking, start: nat, fsiz: nat, o: nat)
    requires WellFormed(store, at, second, start, fsiz) && o in store
    ensures var rec := store[o];
            var next := o + rec.Size();
            && o < next && IsEdge(store, fsiz, next) && start <= o
            && (if rec.deleted then Before(store, at, next) == Before(store, at, o)
                else rec.key !in Before(store, at, o)
                     && Before(store, at, next) == Before(store, at, o)[rec.key := rec.value])
  {
    var rec := store[o];
    var next := o + rec.Size();
    hide WellFormed, InUse, Live;
    NoneInside(store, at, second, start, fsiz, o);
    LivePlaces(store, at, second, start, fsiz, o);
    var m := Live(InUse(store), at);
    hide PlacedBefore;
    if rec.deleted {
      NoneGained(m, at, o, next);
    } else {
      OneGained(m, at, o, next, rec.key);
    }
  }

  lemma LivePlaces(store: Store, at: Places, second: Ranking, start: nat, fsiz: nat, o: nat)
    requires WellFormed(store, at, second, start, fsiz) && o in store
    ensures forall k | k in Live(InUse(store), at) ::
              k in at && at[k] in store && !store[at[k]].deleted && store[at[k]].key == k
              && Live(InUse(store), at)[k] == store[at[k]].value
    ensures !store[o].deleted ==> store[o].key in Live(InUse(store), at) && at[store[o].key] == o
  {
    assert !store[o].deleted ==> o in InUse(store);
  }

  lemma NoneInside(store: Store, at: Places, second: Ranking, start: nat, fsiz: nat, o: nat)
    requires WellFormed(store, at, second, start, fsiz) && o in store
    ensures start <= o && IsEdge(store, fsiz, o + store[o].Size())
    ensures forall p | p in store :: p < o + store[o].Size() <==> p <= o
  {
    assert EndsWell(store, fsiz, o);
  }

  // ---------- copying a database ----------

  type Item = (Key, seq<byte>)

  function AsMap(items: seq<Item>): Dict {
    if items == [] then map[]
    else AsMap(items[..|items| - 1])[items[|items| - 1].0 := items[|items| - 1].1]
  }

  ghost predicate Distinct(items: seq<Item>) {
    forall i, j | 0 <= i < j < |items| :: items[i].0 != items[j].0
  }

  lemma {:induction false} AsMapKeys(items: seq<Item>)
    ensures forall k :: k in AsMap(items) <==> exists i :: 0 <= i < |items| && items[i].0 == k
  {
    if items != [] {
      var n := |items| - 1;
      AsMapKeys(items[..n]);
      forall k
        ensures k in AsMap(items) <==> exists i :: 0 <= i < |items| && items[i].0 == k
      {
        if k in AsMap(items[..n]) {
          var i :| 0 <= i < n && items[..n][i].0 == k;
          assert items[i].0 == k;
        }
        if i :| 0 <= i < |items| && items[i].0 == k {
          assert i < n ==> items[..n][i].0 == k;
        }
      }
    }
  }

  lemma AsMapPush(items: seq<Item>, item: Item)
    ensures AsMap(items + [item]) == AsMap(items)[item.0 := item.1]
  {
    assert (items + [item])[..|items|] == items;
  }

  lemma NoItems(m: Dict, items: seq<Item>)
    ensures items[..0] == [] && m + AsMap(items[..0]) == m
  {
  }

  lemma {:induction false} NotYet(items: seq<Item>, i: nat, j: nat)
    requires Distinct(items) && j <= i < |items|
    ensures items[i].0 !in AsMap(items[..j])
  {
    if j > 0 {
      NotYet(items, i, j - 1);
      assert items[..j][..j - 1] == items[..j - 1];
    }
  }

  lemma {:induction false} HasItem(items: seq<Item>, i: nat)
    requires i < |items|
    ensures items[i].0 in AsMap(items)
  {
    if i < |items| - 1 {
      HasItem(items[..|items| - 1], i);
    }
  }

  lemma NextIsNew(m: Dict, items: seq<Item>, i: nat)
    requires Distinct(items) && m.Keys !! AsMap(items).Keys && i < |items|
    ensures items[i].0 !in m + AsMap(items[..i])
    ensures (m + AsMap(items[..i]))[items[i].0 := items[i].1] == m + AsMap(items[..i + 1])
  {
    hide AsMap, Distinct;
    NotYet(items, i, i);
    HasItem(items, i);
    assert items[..i + 1] == items[..i] + [items[i]];
    AsMapPush(items[..i], items[i]);
  }

  /** Store items under keys that are all new to the database. */
  method PutAll(d: Database, items: seq<Item>) returns (ok: bool)
    requires d.Valid() && Distinct(items)
    requires d.Contents().Keys !! AsMap(items).Keys
    modifies d, d.fbpool, d.buckets
    ensures d.fbpool == old(d.fbpool) && d.buckets == old(d.buckets) && d.align == old(d.align)
    ensures ok && d.Valid() && d.Contents() == old(d.Contents()) + AsMap(items)
  {
    hide Database.Sound, Database.Findable, Database.Contents, AsMap, Distinct;
    ok := true;
    NoItems(old(d.Contents()), items);
    var i := 0;
    while i < |items|
      invariant 0 <= i <= |items| && ok
      invariant d.fbpool == old(d.fbpool) && d.buckets == old(d.buckets) && d.align == old(d.align)
      invariant d.Valid() && d.Contents() == old(d.Contents()) + AsMap(items[..i])
    {
      NextIsNew(old(d.Contents()), items, i);
      ghost var was := d.Contents();
      ok := d.Put(items[i].0, items[i].1, Keep);
      assert ok && d.Contents() == was[items[i].0 := items[i].1];
      if !ok {
        break;
      }
      i := i + 1;
    }
    assert items[..|items|] == items;
  }

  /** Keep one more item for `t`, and put the batch when it is full. */
  method Stash(t: Database, batch: seq<Item>, item: Item, ghost all: Dict) returns (batch': seq<Item>, ok: bool)
    requires t.Valid() && Pending(t.Contents(), batch, all) && item.0 !in all
    modifies t, t.fbpool, t.buckets
    ensures ok && t.Valid() && Pending(t.Contents(), batch', all[item.0 := item.1])
    ensures t.fbpool == old(t.fbpool) && t.buckets == old(t.buckets)
  {
    hide SpaceSound, Indexed, InUse, Live, AsMap, Distinct, Pending;
    ok := true;
    PendingPush(t.Contents(), batch, all, item);
    batch' := batch + [item];
    if |batch'| >= BATCH {
      PendingFlush(t.Contents(), batch', all[item.0 := item.1]);
      ok := PutAll(t, batch');
      batch' := [];
    }
  }

  /** The scanning loop of dpoptimize over a file: live records go over in
      batches. */
  method CopyAll(store: Store, start: nat, fsiz: nat, t: Database, ghost at: Places, ghost second: Ranking) returns (ok: bool)
    requires WellFormed(store, at, second, start, fsiz)
    requires t.Valid() && t.Contents() == map[]
    modifies t, t.fbpool, t.buckets
    ensures ok && t.Valid() && t.Contents() == Live(InUse(store), at)
    ensures t.fbpool == old(t.fbpool) && t.buckets == old(t.buckets)
  {
    hide SpaceSound, Indexed, InUse, Live, Before, WellFormed, AsMap, Distinct, Pending;
    ok := true;
    BeforeEnds(store, at, second, start, fsiz);
    var off := start;
    var batch: seq<Item> := [];
    PendingNone();
    while off < fsiz
      invariant IsEdge(store, fsiz, off) && ok && t.Valid()
      invariant t.fbpool == old(t.fbpool) && t.buckets == old(t.buckets)
      invariant Pending(t.Contents(), batch, Before(store, at, off))
      decreases fsiz - off
    {
      var head := store[off];
      BeforeStep(store, at, second, start, fsiz, off);
      if !head.deleted {
        batch, ok := Stash(t, batch, (head.key, head.value), Before(store, at, off));
      }
      off := off + head.Size();
    }
    PendingFlush(t.Contents(), batch, Before(store, at, off));
    ok := PutAll(t, batch);
    PendingDone(t.Contents(), Before(store, at, off));
  }

  /** dpoptimize: copy the live records to a new file with `bnum` buckets and
      take that file over. */
  method Optimize(d: Database, bnum: nat) returns (ok: bool)
    requires d.Valid() && bnum > 0
    modifies d, d.fbpool
    ensures ok && d.Valid() && d.Contents() == old(d.Contents())
    ensures d.buckets.Length == bnum && fresh(d.buckets) && d.fbpool == old(d.fbpool)
  {
    hide SpaceSound, Indexed, InUse, Live;
    var t := new Database(d.first, d.second, bnum);
    t.align := d.align;
    ValidIsWellFormed(d);
    ok := CopyAll(d.store, d.Start(), d.fsiz, t, d.at, d.second);
    TakeOver(d, t);
  }

  /** `done` holds what has been copied, `batch` what is about to be. */
  ghost predicate Pending(done: Dict, batch: seq<Item>, all: Dict) {
    && Distinct(batch)
    && done.Keys !! AsMap(batch).Keys
    && done + AsMap(batch) == all
  }

  lemma PendingPush(done: Dict, batch: seq<Item>, all: Dict, item: Item)
    requires Pending(done, batch, all) && item.0 !in all
    ensures Pending(done, batch + [item], all[item.0 := item.1])
  {
    AsMapPush(batch, item);
    AsMapKeys(batch);
  }

  lemma PendingFlush(done: Dict, batch: seq<Item>, all: Dict)
    requires Pending(done, batch, all)
    ensures Distinct(batch) && done.Keys !! AsMap(batch).Keys
    ensures Pending(done + AsMap(batch), [], all)
  {
  }

  lemma PendingNone()
    ensures Pending(map[], [], map[])
  {
  }

  lemma PendingDone(done: Dict, all: Dict)
    requires Pending(done, [], all)
    ensures done == all
  {
  }

  method EmptyPool(pool: array<Region>)
    modifies pool
    ensures forall i | 0 <= i < pool.Length :: pool[i] == NO_REGION
  {
    var i := 0;
    while i < pool.Length
      invariant 0 <= i <= pool.Length
      invariant forall j | 0 <= j < i :: pool[j] == NO_REGION
    {
      pool[i] := NO_REGION;
      i := i + 1;
    }
  }

  /** The end of dpoptimize: the old file gets the bytes of the new one. */
  method TakeOver(d: Database, t: Database)
    requires d.Valid() && t.Valid() && d != t && d.fbpool != t.fbpool
    requires d.first == t.first && d.second == t.second && d.Contents() == t.Contents()
    modifies d, d.fbpool
    ensures d.Valid() && d.Contents() == old(d.Contents())
    ensures d.buckets == t.buckets && d.fbpool == old(d.fbpool)
  {
    hide SpaceSound, Indexed, InUse, Live;
    d.store, d.fsiz, d.buckets, d.ioff := t.store, t.fsiz, t.buckets, 0;
    d.at, d.trees := t.at, t.trees;
    EmptyPool(d.fbpool);
    PoolEmptied(t.store, t.Start(), t.fsiz, t.fbpool[..], d.fbpool[..]);
  }

  // ---------- repairing ----------

  /** The records without the deletion flag from offset `o` on, as they follow
      each other in the file. Nothing else of the file matters. */
  function Records(store: Store, fsiz: nat, o: nat): seq<Item>
    decreases fsiz - o
  {
    if o >= fsiz || o !in store then []
    else (if store[o].deleted then [] else [(store[o].key, store[o].value)]) + Records(store, fsiz, o + store[o].Size())
  }

  /** What items stand for when the first one of a key counts. */
  function FirstOfEach(items: seq<Item>): (m: Dict) {
    if items == [] then map[]
    else
      var n := |items| - 1;
      var m := FirstOfEach(items[..n]);
      if items[n].0 in m then m else m[items[n].0 := items[n].1]
  }

  /** Exactly the keys of the items are there, each with the value it had first. */
  lemma {:induction false} FirstCounts(items: seq<Item>, i: nat)
    requires i < |items| && forall j | 0 <= j < i :: items[j].0 != items[i].0
    ensures items[i].0 in FirstOfEach(items) && FirstOfEach(items)[items[i].0] == items[i].1
    ensures forall k :: k in FirstOfEach(items) <==> exists j :: 0 <= j < |items| && items[j].0 == k
  {
    FirstOfDistinct(items);
    AsMapKeys(items);
    hide AsMap, Distinct;
    var n := |items| - 1;
    if i < n {
      assert forall j | 0 <= j <= i :: items[..n][j] == items[j];
      FirstCounts(items[..n], i);
    } else {
      FirstOfDistinct(items[..n]);
      AsMapKeys(items[..n]);
      assert forall j | 0 <= j < n :: items[..n][j] == items[j];
    }
  }

  /** The live records of the file, by their offsets. */
  lemma RecordsByOffset(store: Store, start: nat, fsiz: nat) returns (offs: seq<nat>)
    requires Tiled(store, start, fsiz)
    ensures |offs| == |Records(store, fsiz, start)| && forall i, j | 0 <= i < j < |offs| :: offs[i] < offs[j]
    ensures forall i | 0 <= i < |offs| ::
              && offs[i] in store && !store[offs[i]].deleted
              && Records(store, fsiz, start)[i] == (store[offs[i]].key, store[offs[i]].value)
    ensures forall o <- store | !store[o].deleted :: o in offs
  {
    hide Records;
    BeforeTheEnd(store, start, fsiz);
    offs := RecordsFrom(store, start, fsiz, start);
  }

  lemma {:induction false} RecordsFrom(store: Store, start: nat, fsiz: nat, o: nat) returns (offs: seq<nat>)
    requires Tiled(store, start, fsiz) && IsEdge(store, fsiz, o)
    ensures |offs| == |Records(store, fsiz, o)| && forall i, j | 0 <= i < j < |offs| :: offs[i] < offs[j]
    ensures forall i | 0 <= i < |offs| ::
              && offs[i] >= o && offs[i] in store && !store[offs[i]].deleted
              && Records(store, fsiz, o)[i] == (store[offs[i]].key, store[offs[i]].value)
    ensures forall p <- store | p >= o && !store[p].deleted :: p in offs
    decreases fsiz - o
  {
    hide Records, Tiled, IsEdge;
    NextRecord(store, start, fsiz, o);
    if o >= fsiz {
      offs := [];
    } else if store[o].deleted {
      offs := RecordsFrom(store, start, fsiz, o + store[o].Size());
      assert Records(store, fsiz, o) == Records(store, fsiz, o + store[o].Size());
    } else {
      var more := RecordsFrom(store, start, fsiz, o + store[o].Size());
      offs := [o] + more;
      var rest := Records(store, fsiz, o + store[o].Size());
      assert Records(store, fsiz, o) == [(store[o].key, store[o].value)] + rest;
      forall i | 0 <= i < |offs|
        ensures offs[i] >= o && offs[i] in store && !store[offs[i]].deleted
        ensures Records(store, fsiz, o)[i] == (store[offs[i]].key, store[offs[i]].value)
      {
        assert i > 0 ==> offs[i] == more[i - 1];
      }
      forall p <- store | p >= o && !store[p].deleted
        ensures p in offs
      {
        assert p == o || p in more;
      }
    }
  }

  /** Nothing starts between a record and the next one, and none at the end. */
  lemma NextRecord(store: Store, start: nat, fsiz: nat, o: nat)
    requires Tiled(store, start, fsiz) && IsEdge(store, fsiz, o)
    ensures o >= fsiz ==> Records(store, fsiz, o) == [] && forall p <- store :: p < o
    ensures o < fsiz ==>
              && o in store && store[o].Size() > 0 && IsEdge(store, fsiz, o + store[o].Size()) && o + store[o].Size() <= fsiz
              && (forall p <- store | p >= o :: p == o || p >= o + store[o].Size())
              && Records(store, fsiz, o) == (if store[o].deleted then [] else [(store[o].key, store[o].value)])
                                            + Records(store, fsiz, o + store[o].Size())
  {
    if o >= fsiz {
      forall p <- store
        ensures p < o
      {
        assert EndsWell(store, fsiz, p);
      }
    } else {
      assert EndsWell(store, fsiz, o);
    }
  }

  lemma {:induction false} FirstOfDistinct(items: seq<Item>)
    ensures FirstOfEach(items).Keys == AsMap(items).Keys
    ensures Distinct(items) ==> FirstOfEach(items) == AsMap(items)
  {
    if items != [] {
      var n := |items| - 1;
      FirstOfDistinct(items[..n]);
      if Distinct(items) {
        NotYet(items, n, n);
      }
    }
  }

  lemma FirstOfMore(items: seq<Item>, item: Item)
    ensures var m := FirstOfEach(items);
            FirstOfEach(items + [item]) == if item.0 in m then m else m[item.0 := item.1]
    ensures Distinct(items + [item]) <==> Distinct(items) && item.0 !in FirstOfEach(items)
  {
    var more := items + [item];
    assert more[..|items|] == items;
    FirstOfDistinct(items);
    AsMapKeys(items);
    if Distinct(more) {
      forall i, j | 0 <= i < j < |items|
        ensures items[i].0 != items[j].0
      {
        assert more[i].0 != more[j].0;
      }
      forall i | 0 <= i < |items|
        ensures items[i].0 != item.0
      {
        assert more[i].0 != more[|items|].0;
      }
    }
  }

  /** The records up to `o` and those behind it are all of them. */
  ghost predicate Halfway(store: Store, start: nat, fsiz: nat, o: nat, done: seq<Item>) {
    Tiled(store, start, fsiz) && IsEdge(store, fsiz, o) && Records(store, fsiz, start) == done + Records(store, fsiz, o)
  }

  lemma HalfwayStarts(store: Store, start: nat, fsiz: nat)
    requires Tiled(store, start, fsiz)
    ensures Halfway(store, start, fsiz, start, [])
  {
    BeforeTheEnd(store, start, fsiz);
    assert [] + Records(store, fsiz, start) == Records(store, fsiz, start);
  }

  lemma HalfwayOn(store: Store, start: nat, fsiz: nat, o: nat, done: seq<Item>)
    requires Halfway(store, start, fsiz, o, done) && o < fsiz
    ensures o in store && store[o].Size() > 0
    ensures Halfway(store, start, fsiz, o + store[o].Size(),
                    if store[o].deleted then done else done + [(store[o].key, store[o].value)])
  {
    assert EndsWell(store, fsiz, o);
  }

  lemma HalfwayEnds(store: Store, start: nat, fsiz: nat, o: nat, done: seq<Item>)
    requires Halfway(store, start, fsiz, o, done) && o >= fsiz
    ensures done == Records(store, fsiz, start)
  {
  }

  /** What is found where a record should start: not even a whole header, a header
      with the key or the value behind it cut off, or all that is needed. */
  datatype Found = NoHead | NoBody(deleted: bool) | Entire(head: Record)

  /** The live records of a file of `size` bytes: those that tile it up to `fsiz`,
      and what is found there if it goes on. */
  function Salvaged(store: Store, start: nat, fsiz: nat, size: nat, tail: Found): seq<Item> {
    Records(store, fsiz, start)
    + if fsiz < size && tail.Entire? && !tail.head.deleted then [(tail.head.key, tail.head.value)] else []
  }

  function FoundAt(store: Store, fsiz: nat, tail: Found, off: nat): Found {
    if off < fsiz && off in store then Entire(store[off]) else tail
  }

  /** The records up to `off` are `done`, and those behind it are the others. */
  ghost predicate Salvaging(store: Store, start: nat, fsiz: nat, size: nat, tail: Found, off: nat, done: seq<Item>) {
    && fsiz <= size && (fsiz < size && tail.Entire? ==> fsiz + tail.head.Size() >= size)
    && if off <= fsiz then Halfway(store, start, fsiz, off, done)
       else off >= size && fsiz < size && tail.Entire? && done == Salvaged(store, start, fsiz, size, tail)
  }

  lemma SalvagingStarts(store: Store, start: nat, fsiz: nat, size: nat, tail: Found)
    requires Tiled(store, start, fsiz) && fsiz <= size
    requires fsiz < size && tail.Entire? ==> fsiz + tail.head.Size() >= size
    ensures Salvaging(store, start, fsiz, size, tail, start, [])
  {
    hide Halfway;
    HalfwayStarts(store, start, fsiz);
  }

  lemma SalvagingOn(store: Store, start: nat, fsiz: nat, size: nat, tail: Found, off: nat, done: seq<Item>)
    requires Salvaging(store, start, fsiz, size, tail, off, done) && off < size
    ensures var found := FoundAt(store, fsiz, tail, off);
            if found.Entire? then
              && found.head.Size() > 0
              && Salvaging(store, start, fsiz, size, tail, off + found.head.Size(),
                           if found.head.deleted then done else done + [(found.head.key, found.head.value)])
            else
              done == Salvaged(store, start, fsiz, size, tail) && tail == found && fsiz < size
  {
    hide Records, Tiled;
    if off < fsiz {
      HalfwayOn(store, start, fsiz, off, done);
    } else {
      HalfwayEnds(store, start, fsiz, off, done);
    }
  }

  lemma SalvagingEnds(store: Store, start: nat, fsiz: nat, size: nat, tail: Found, off: nat, done: seq<Item>)
    requires Salvaging(store, start, fsiz, size, tail, off, done) && off >= size
    ensures done == Salvaged(store, start, fsiz, size, tail) && (fsiz == size || tail.Entire?)
  {
    hide Records, Tiled;
    if off <= fsiz {
      HalfwayEnds(store, start, fsiz, off, done);
    }
  }

  /** dprepair on a file whose records still follow each other but for a last one
      that may be cut off, whatever has become of buckets, child words, hashes and
      the record count: every record without the deletion flag is put into a new
      database, the first one of a key if there are several. Success means that
      there are not, and that no such record lacks a part of its key or value; a
      header that is cut off counts as the end. */
  method Repair(store: Store, start: nat, fsiz: nat, size: nat, tail: Found, first: Hash, second: KeysUp, bnum: nat)
    returns (t: Database, ok: bool)
    requires Tiled(store, start, fsiz) && fsiz <= size && bnum > 0
    requires fsiz < size && tail.Entire? ==> fsiz + tail.head.Size() >= size
    ensures fresh(t) && fresh(t.buckets) && fresh(t.fbpool) && t.buckets.Length == bnum
    ensures t.Valid() && t.Contents() == FirstOfEach(Salvaged(store, start, fsiz, size, tail))
    ensures ok <==> Distinct(Salvaged(store, start, fsiz, size, tail)) && !(fsiz < size && tail == NoBody(false))
  {
    hide Database.Sound, Database.Findable, Database.Contents, Salvaging, Salvaged, FirstOfEach, Distinct, Tiled;
    t := new Database(first, second, bnum);
    ok := true;
    SalvagingStarts(store, start, fsiz, size, tail);
    NothingFirst();
    var off := start;
    ghost var done: seq<Item> := [];
    while off < size
      invariant Salvaging(store, start, fsiz, size, tail, off, done)
      invariant t.Valid() && fresh(t) && fresh(t.fbpool) && fresh(t.buckets) && t.buckets.Length == bnum
      invariant t.Contents() == FirstOfEach(done) && (ok <==> Distinct(done))
      decreases size - off
    {
      SalvagingOn(store, start, fsiz, size, tail, off, done);
      var found := FoundAt(store, fsiz, tail, off);
      if !found.Entire? {
        ok := ok && found != NoBody(false);
        return;
      }
      ok, done := PutFirst(t, found.head, ok, done);
      off := off + found.head.Size();
    }
    SalvagingEnds(store, start, fsiz, size, tail, off, done);
  }

  /** A record of the file, unless it is deleted. */
  method PutFirst(t: Database, head: Record, ok: bool, ghost done: seq<Item>) returns (ok': bool, ghost done': seq<Item>)
    requires t.Valid() && t.Contents() == FirstOfEach(done) && (ok <==> Distinct(done))
    modifies t, t.fbpool, t.buckets
    ensures t.Valid() && t.fbpool == old(t.fbpool) && t.buckets == old(t.buckets)
    ensures done' == if head.deleted then done else done + [(head.key, head.value)]
    ensures t.Contents() == FirstOfEach(done') && (ok' <==> Distinct(done'))
  {
    hide Database.Sound, Database.Findable, Database.Contents, FirstOfEach, Distinct;
    ok', done' := ok, done;
    if !head.deleted {
      FirstOfMore(done, (head.key, head.value));
      var put := t.Put(head.key, head.value, Keep);
      ok', done' := ok && put, done + [(head.key, head.value)];
    }
  }

  lemma NoTail(store: Store, start: nat, fsiz: nat)
    ensures Salvaged(store, start, fsiz, fsiz, NoHead) == Records(store, fsiz, start)
  {
    hide Records;
  }

  lemma NothingFirst()
    ensures FirstOfEach([]) == map[] && Distinct([])
  {
  }

  /** The records of a well-formed file have distinct keys and stand for its map,
      so that repairing it succeeds and keeps the map. */
  lemma RecordsAreContents(store: Store, at: Places, second: Ranking, start: nat, fsiz: nat)
    requires WellFormed(store, at, second, start, fsiz)
    ensures Distinct(Records(store, fsiz, start))
    ensures FirstOfEach(Records(store, fsiz, start)) == Live(InUse(store), at)
  {
    hide Halfway, FirstOfEach, Distinct, Records, Tiled, Placed, InUse, Live, Before;
    BeforeEnds(store, at, second, start, fsiz);
    HalfwayStarts(store, start, fsiz);
    NothingFirst();
    var off := start;
    var done: seq<Item> := [];
    while off < fsiz
      invariant Halfway(store, start, fsiz, off, done) && Distinct(done) && FirstOfEach(done) == Before(store, at, off)
      invariant IsEdge(store, fsiz, off)
      decreases fsiz - off
    {
      HalfwayOn(store, start, fsiz, off, done);
      BeforeStep(store, at, second, start, fsiz, off);
      var head := store[off];
      if !head.deleted {
        FirstOfMore(done, (head.key, head.value));
        done := done + [(head.key, head.value)];
      }
      off := off + head.Size();
    }
    HalfwayEnds(store, start, fsiz, off, done);
  }

  /** dprepair on the file of a valid database. */
  method RepairSound(d: Database, bnum: nat) returns (t: Database, ok: bool)
    requires d.Valid() && bnum > 0
    ensures ok && fresh(t) && fresh(t.buckets) && fresh(t.fbpool)
    ensures t.Valid() && t.Contents() == d.Contents() && t.rnum == d.rnum
  {
    hide SpaceSound, Indexed, InUse, Live, WellFormed, FirstOfEach, Records, Distinct;
    ValidIsWellFormed(d);
    TilesKnown(d.store, d.at, d.second, d.Start(), d.fsiz);
    RecordsAreContents(d.store, d.at, d.second, d.Start(), d.fsiz);
    NoTail(d.store, d.Start(), d.fsiz);
    t, ok := Repair(d.store, d.Start(), d.fsiz, d.fsiz, NoHead, d.first, d.second, bnum);
  }

  lemma TilesKnown(store: Store, at: Places, second: Ranking, start: nat, fsiz: nat)
    requires WellFormed(store, at, second, start, fsiz)
    ensures Tiled(store, start, fsiz)
  {
  }
}
