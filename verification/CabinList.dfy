/** The doubly linked list that threads the records of a Cabin map in the order
    of their insertion, and what the map looks like from outside. */
module CabinList {
  import opened ByteOrder
  import opened DepotSpace
  import opened HashIndex

  /** An address; 0 is NULL. */
  type Ptr = nat
  /** CBMAPDATUM, with the key and the value that follow it in memory. */
  datatype Datum = Datum(key: Key, value: Bytes, hash: int, left: Ptr, right: Ptr, prev: Ptr, next: Ptr)

  type Memory = map<Ptr, Datum>

  /** What the search trees see of the records. */
  ghost function Indexable(mem: Memory): (live: Store)
    ensures live.Keys == mem.Keys
  {
    map p | p in mem :: Record(false, false, mem[p].hash, mem[p].key, mem[p].value, 0, mem[p].left, mem[p].right)
  }

  // ---------- the list ----------

  ghost function At(ps: seq<Ptr>, i: int): Ptr {
    if 0 <= i < |ps| then ps[i] else 0
  }

  /** Record `i` is in memory and linked to its neighbours. */
  ghost predicate LinkedAt(mem: Memory, ps: seq<Ptr>, i: int) {
    && 0 <= i < |ps| && ps[i] in mem
    && mem[ps[i]].next == At(ps, i + 1) && mem[ps[i]].prev == At(ps, i - 1)
  }

  ghost predicate Distinct(ps: seq<Ptr>) {
    forall i, j | 0 <= i < j < |ps| :: ps[i] != ps[j]
  }

  /** The records in memory are those of `ps`, linked in that order. */
  ghost predicate Chain(mem: Memory, ps: seq<Ptr>) {
    && 0 !in mem && Distinct(ps)
    && (forall p <- mem :: p in ps)
    && (forall i | 0 <= i < |ps| :: LinkedAt(mem, ps, i))
  }

  function SetNext(mem: Memory, p: Ptr, x: Ptr): (mem': Memory)
    ensures mem'.Keys == mem.Keys
  {
    if p in mem then mem[p := mem[p].(next := x)] else mem
  }

  function SetPrev(mem: Memory, p: Ptr, x: Ptr): (mem': Memory)
    ensures mem'.Keys == mem.Keys
  {
    if p in mem then mem[p := mem[p].(prev := x)] else mem
  }

  /** The neighbours of `p` now point at `before` and `behind` it. */
  function Bypassed(mem: Memory, p: Ptr, behind: Ptr, before: Ptr): (mem': Memory)
    requires p in mem
    ensures mem'.Keys == mem.Keys
  {
    SetPrev(SetNext(mem, mem[p].prev, behind), mem[p].next, before)
  }

  /** Linking does not concern the search trees. */
  lemma LinkingIsUnseen(mem: Memory, p: Ptr, x: Ptr)
    ensures Indexable(SetNext(mem, p, x)) == Indexable(mem)
    ensures Indexable(SetPrev(mem, p, x)) == Indexable(mem)
  {
  }

  lemma ChainFrame(mem: Memory, mem': Memory, ps: seq<Ptr>)
    requires Chain(mem, ps) && mem'.Keys == mem.Keys
    requires forall p <- mem :: mem'[p].next == mem[p].next && mem'[p].prev == mem[p].prev
    ensures Chain(mem', ps)
  {
    forall i | 0 <= i < |ps|
      ensures LinkedAt(mem', ps, i)
    {
      assert LinkedAt(mem, ps, i);
    }
  }

  /** What a record's links say about its neighbours in the list. */
  lemma Neighbours(mem: Memory, ps: seq<Ptr>, i: nat)
    requires Chain(mem, ps) && i < |ps|
    ensures LinkedAt(mem, ps, i) && ps[i] != 0
    ensures forall j | 0 <= j < |ps| :: ps[j] == mem[ps[i]].next <==> j == i + 1
    ensures forall j | 0 <= j < |ps| :: ps[j] == mem[ps[i]].prev <==> j == i - 1
    ensures forall j | 0 <= j < |ps| :: ps[j] == ps[i] <==> j == i
    ensures mem[ps[i]].next != 0 <==> i + 1 < |ps|
    ensures mem[ps[i]].prev != 0 <==> i > 0
    ensures mem[ps[i]].next == 0 || mem[ps[i]].next in mem
    ensures mem[ps[i]].prev == 0 || mem[ps[i]].prev in mem
    ensures mem[ps[i]].next != ps[i] && mem[ps[i]].prev != ps[i]
  {
    assert LinkedAt(mem, ps, i);
    assert i + 1 < |ps| ==> LinkedAt(mem, ps, i + 1);
    assert i > 0 ==> LinkedAt(mem, ps, i - 1);
    forall j | 0 <= j < |ps|
      ensures ps[j] != 0
    {
      assert LinkedAt(mem, ps, j);
    }
  }

  /** The links of a record once the neighbours of record `i` were redirected. */
  lemma BypassedLinks(mem: Memory, ps: seq<Ptr>, i: nat, behind: Ptr, before: Ptr, j: nat)
    requires Chain(mem, ps) && i < |ps| && j < |ps|
    ensures ps[i] in mem && ps[j] in mem
    ensures var d := Bypassed(mem, ps[i], behind, before)[ps[j]];
            && d.next == (if j + 1 == i then behind else mem[ps[j]].next)
            && d.prev == (if j == i + 1 then before else mem[ps[j]].prev)
            && d == mem[ps[j]].(next := d.next, prev := d.prev)
  {
    Neighbours(mem, ps, i);
    Neighbours(mem, ps, j);
    hide Chain;
    if i > 0 {
      assert mem[ps[i]].prev == ps[i - 1];
    }
  }

  /** Unlinking a record. */
  lemma ChainUnlink(mem: Memory, ps: seq<Ptr>, i: nat)
    requires Chain(mem, ps) && i < |ps|
    ensures ps[i] in mem
    ensures Chain(Bypassed(mem, ps[i], mem[ps[i]].next, mem[ps[i]].prev) - {ps[i]}, ps[..i] + ps[i + 1..])
  {
    var p := ps[i];
    Neighbours(mem, ps, i);
    var mem1 := Bypassed(mem, p, mem[p].next, mem[p].prev);
    var qs := ps[..i] + ps[i + 1..];
    forall q | q in mem1 - {p}
      ensures q in qs
    {
      var j :| 0 <= j < |ps| && ps[j] == q;
      assert q == qs[if j < i then j else j - 1];
    }
    hide Bypassed;
    forall j | 0 <= j < |qs|
      ensures LinkedAt(mem1 - {p}, qs, j)
    {
      UnlinkedAt(mem, ps, i, j);
    }
    hide LinkedAt;
  }

  lemma UnlinkedAt(mem: Memory, ps: seq<Ptr>, i: nat, j: nat)
    requires Chain(mem, ps) && i < |ps| && j < |ps| - 1
    ensures ps[i] in mem
    ensures LinkedAt(Bypassed(mem, ps[i], mem[ps[i]].next, mem[ps[i]].prev) - {ps[i]}, ps[..i] + ps[i + 1..], j)
  {
    var m := if j < i then j else j + 1;
    Neighbours(mem, ps, i);
    Neighbours(mem, ps, m);
    BypassedLinks(mem, ps, i, mem[ps[i]].next, mem[ps[i]].prev, m);
    hide Chain, Distinct, Bypassed;
  }

  /** A record behind the last one. */
  lemma ChainPushBack(mem: Memory, ps: seq<Ptr>, p: Ptr, d: Datum)
    requires Chain(mem, ps) && p != 0 && p !in mem && d.prev == At(ps, |ps| - 1) && d.next == 0
    ensures Chain(SetNext(mem, At(ps, |ps| - 1), p)[p := d], ps + [p])
  {
    var mem', qs := SetNext(mem, At(ps, |ps| - 1), p)[p := d], ps + [p];
    forall j | 0 <= j < |qs|
      ensures LinkedAt(mem', qs, j)
    {
      if j < |ps| {
        Neighbours(mem, ps, j);
        hide Chain, Distinct;
      }
    }
    forall j | 0 <= j < |ps|
      ensures ps[j] != p
    {
      assert LinkedAt(mem, ps, j);
    }
  }

  /** A record in front of the first one. */
  lemma ChainPushFront(mem: Memory, ps: seq<Ptr>, p: Ptr, d: Datum)
    requires Chain(mem, ps) && p != 0 && p !in mem && d.prev == 0 && d.next == At(ps, 0)
    ensures Chain(SetPrev(mem, At(ps, 0), p)[p := d], [p] + ps)
  {
    var mem', qs := SetPrev(mem, At(ps, 0), p)[p := d], [p] + ps;
    forall q | q in mem'
      ensures q in qs
    {
      if q != p {
        var j :| 0 <= j < |ps| && ps[j] == q;
        assert qs[j + 1] == q;
      }
    }
    forall j | 0 <= j < |ps|
      ensures ps[j] != p
    {
      assert LinkedAt(mem, ps, j);
    }
    forall j | 0 <= j < |qs|
      ensures LinkedAt(mem', qs, j)
    {
      if j > 0 {
        Neighbours(mem, ps, j - 1);
        hide Chain, Distinct;
      }
    }
  }

  /** A record that was moved to another address. */
  lemma ChainMoved(mem: Memory, ps: seq<Ptr>, i: nat, p: Ptr, d: Datum)
    requires Chain(mem, ps) && i < |ps| && p != 0 && p !in mem && ps[i] in mem
    requires d.next == mem[ps[i]].next && d.prev == mem[ps[i]].prev
    ensures Chain((Bypassed(mem, ps[i], p, p) - {ps[i]})[p := d], ps[i := p])
  {
    Neighbours(mem, ps, i);
    var mem1, qs := Bypassed(mem, ps[i], p, p), ps[i := p];
    var mem' := (mem1 - {ps[i]})[p := d];
    hide Bypassed;
    forall q | q in mem'
      ensures q in qs
    {
      if q != p {
        var j :| 0 <= j < |ps| && ps[j] == q;
        assert qs[j] == q;
      } else {
        assert qs[i] == p;
      }
    }
    forall j | 0 <= j < |ps|
      ensures ps[j] != p
    {
      assert LinkedAt(mem, ps, j);
    }
    forall j | 0 <= j < |qs|
      ensures LinkedAt(mem', qs, j)
    {
      Neighbours(mem, ps, j);
      BypassedLinks(mem, ps, i, p, p, j);
      hide Chain, Distinct;
    }
  }

  // ---------- the entries ----------

  type Entry = (Key, Bytes)

  /** Keys and values in the order of the list. */
  ghost function Entries(mem: Memory, ps: seq<Ptr>): (es: seq<Entry>)
    ensures |es| == |ps|
    ensures forall i | 0 <= i < |ps| && ps[i] in mem :: es[i] == (mem[ps[i]].key, mem[ps[i]].value)
  {
    seq(|ps|, i requires 0 <= i < |ps| => if ps[i] in mem then (mem[ps[i]].key, mem[ps[i]].value) else ([], []))
  }

  ghost predicate HasKey(es: seq<Entry>, k: Key) {
    exists i :: 0 <= i < |es| && es[i].0 == k
  }

  /** A value stored under a key, which keeps its place or comes last. */
  ghost function Stored(es: seq<Entry>, k: Key, v: Bytes): seq<Entry> {
    if HasKey(es, k) then seq(|es|, i requires 0 <= i < |es| => if es[i].0 == k then (k, v) else es[i])
    else es + [(k, v)]
  }

  ghost function Dropped(es: seq<Entry>, k: Key): seq<Entry> {
    if es == [] then [] else (if es[0].0 == k then [] else [es[0]]) + Dropped(es[1..], k)
  }

  /** The value of a key, or none. */
  ghost function ValueOf(es: seq<Entry>, k: Key): Bytes {
    if es == [] then [] else if es[0].0 == k then es[0].1 else ValueOf(es[1..], k)
  }

  /** Entry `i` is the only one of its key. */
  ghost predicate Only(es: seq<Entry>, i: int) {
    0 <= i < |es| && forall j | 0 <= j < |es| && j != i :: es[j].0 != es[i].0
  }

  lemma StoredAt(es: seq<Entry>, i: nat, v: Bytes)
    requires Only(es, i)
    ensures HasKey(es, es[i].0) && Stored(es, es[i].0, v) == es[i := (es[i].0, v)]
  {
  }

  lemma {:induction false} DroppedAt(es: seq<Entry>, i: nat)
    requires Only(es, i)
    ensures Dropped(es, es[i].0) == es[..i] + es[i + 1..]
  {
    var k := es[i].0;
    if i == 0 {
      DroppedNothing(es[1..], k);
      assert [] + es[1..] == es[1..] && es[..0] == [];
    } else {
      assert es[1..][i - 1] == es[i];
      DroppedAt(es[1..], i - 1);
      assert es[1..][..i - 1] == es[1..i] && es[1..][i..] == es[i + 1..];
      assert [es[0]] + es[1..i] == es[..i];
    }
  }

  lemma {:induction false} DroppedNothing(es: seq<Entry>, k: Key)
    requires !HasKey(es, k)
    ensures Dropped(es, k) == es
  {
    if es != [] {
      assert es[0].0 != k;
      forall i | 0 <= i < |es[1..]|
        ensures es[1..][i].0 != k
      {
        assert es[1..][i] == es[i + 1];
      }
      DroppedNothing(es[1..], k);
    }
  }

  lemma {:induction false} ValueAt(es: seq<Entry>, i: nat)
    requires Only(es, i)
    ensures ValueOf(es, es[i].0) == es[i].1
  {
    if i > 0 {
      assert es[1..][i - 1] == es[i];
      ValueAt(es[1..], i - 1);
    }
  }

  ghost predicate KeysDiffer(es: seq<Entry>) {
    forall i, j | 0 <= i < j < |es| :: es[i].0 != es[j].0
  }

  /** What storing, dropping and looking up come to when no key occurs twice. */
  lemma StoredDroppedValue(es: seq<Entry>, k: Key, v: Bytes)
    requires KeysDiffer(es)
    ensures !HasKey(es, k) ==> Stored(es, k, v) == es + [(k, v)] && Dropped(es, k) == es
    ensures forall i | 0 <= i < |es| && es[i].0 == k ::
              && HasKey(es, k) && Stored(es, k, v) == es[i := (k, v)]
              && Dropped(es, k) == es[..i] + es[i + 1..] && ValueOf(es, k) == es[i].1
  {
    hide Stored, Dropped, ValueOf;
    if !HasKey(es, k) {
      DroppedNothing(es, k);
      StoredNew(es, k, v);
    }
    forall i | 0 <= i < |es| && es[i].0 == k
      ensures HasKey(es, k) && Stored(es, k, v) == es[i := (k, v)]
      ensures Dropped(es, k) == es[..i] + es[i + 1..] && ValueOf(es, k) == es[i].1
    {
      StoredAt(es, i, v);
      DroppedAt(es, i);
      ValueAt(es, i);
    }
  }

  lemma StoredNew(es: seq<Entry>, k: Key, v: Bytes)
    requires !HasKey(es, k)
    ensures Stored(es, k, v) == es + [(k, v)]
  {
  }

  /** Where a key that has a record stands in the list. */
  lemma Position(mem: Memory, ps: seq<Ptr>, at: Places, ranking: Ranking, k: Key) returns (i: nat)
    requires Chain(mem, ps) && Placed(Indexable(mem), at, ranking) && k in at
    ensures i < |ps| && ps[i] == at[k] && at[k] in mem && mem[at[k]].key == k
    ensures Only(Entries(mem, ps), i) && Entries(mem, ps)[i] == (k, mem[at[k]].value)
  {
    assert Indexable(mem)[at[k]].key == k;
    i :| 0 <= i < |ps| && ps[i] == at[k];
    forall j | 0 <= j < |ps| && j != i
      ensures ps[j] in mem && mem[ps[j]].key != k
    {
      assert LinkedAt(mem, ps, j);
      assert Indexable(mem)[ps[j]].key == mem[ps[j]].key;
    }
  }

  lemma NoPosition(mem: Memory, ps: seq<Ptr>, at: Places, ranking: Ranking, k: Key)
    requires Chain(mem, ps) && Placed(Indexable(mem), at, ranking) && k !in at
    ensures !HasKey(Entries(mem, ps), k)
  {
    forall j | 0 <= j < |ps|
      ensures Entries(mem, ps)[j].0 != k
    {
      assert LinkedAt(mem, ps, j);
      assert Indexable(mem)[ps[j]].key == mem[ps[j]].key;
    }
  }

}
