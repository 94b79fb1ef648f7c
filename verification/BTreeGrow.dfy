/** Insertion seen from the whole subtree: what adding a key to a leaf, to an
    internal node, or splitting either does to the tree the nodes spell out. */
module BTreeGrow {
  import opened ByteOrder
  import opened BTreeShape
  import opened BTreeNode

  /** Only nodes of `used` changed, `used'` takes no node that was another's, and
      exactly the nodes of `used'` are there instead of those of `used`. */
  ghost predicate Framed(disk: Disk, disk': Disk, used: set<int>, used': set<int>) {
    && (forall o <- disk :: o !in used ==> o in disk' && disk'[o] == disk[o])
    && (forall o <- used' :: o in used || o !in disk)
    && disk'.Keys == disk.Keys - used + used'
  }

  /** The subtree `t` became `t'`, in place, and holds `es`. */
  ghost predicate Became(disk: Disk, disk': Disk, t: Tree, t': Tree, next: int, lo: real, hi: real,
                         d: nat, order: nat, least: int, es: seq<Entry>) {
    && t'.off == t.off && First(t') == First(t)
    && Ok(t', lo, hi, d, order, least)
    && Rep(disk', t', next)
    && Entries(t') == es
    && Framed(disk, disk', Offsets(t), Offsets(t'))
  }

  /** The subtree `t` became `t'` and a right neighbour `r`, with `k` between
      them; both are filled and together hold `es`. */
  ghost predicate Halved(disk: Disk, disk': Disk, t: Tree, t': Tree, r: Tree, k: Key, next: int,
                         lo: real, hi: real, d: nat, order: nat, es: seq<Entry>) {
    && t'.off == t.off && First(t') == First(t)
    && lo < Fraction(k) < hi
    && Ok(t', lo, Fraction(k), d, order, MinFill(d, order))
    && Ok(r, Fraction(k), hi, d, order, MinFill(d, order))
    && Rep(disk', t', First(r)) && Rep(disk', r, next)
    && Offsets(t') !! Offsets(r)
    && Entries(t') + Entries(r) == es
    && Framed(disk, disk', Offsets(t), Offsets(t') + Offsets(r))
  }

  /** What inserting `k` at `p` into the subtree `t` comes to: a new key goes in,
      one that is there is kept or replaced; when the subtree was halved, `r` at
      `newOff` is its upper half and `up` the key between the halves. */
  ghost predicate Inserted(disk: Disk, disk': Disk, t: Tree, next: int, lo: real, hi: real, d: nat, order: nat, least: int,
                           k: Key, p: int, replaceDup: bool,
                           success: bool, split: bool, up: Key, newOff: int, t': Tree, r: Tree) {
    && (success <==> !Has(Entries(t), k))
    && (split ==> success)
    && if split then
         r.off == newOff && Halved(disk, disk', t, t', r, up, next, lo, hi, d, order, After(Entries(t), k, p, replaceDup))
       else
         Became(disk, disk', t, t', next, lo, hi, d, order, least, After(Entries(t), k, p, replaceDup))
  }

  /** The entries after an insertion. */
  ghost function After(es: seq<Entry>, k: Key, p: int, replaceDup: bool): seq<Entry> {
    if !Has(es, k) then Put(es, k, p) else if replaceDup then Replace(es, k, p) else es
  }

  // ---------- leaves ----------

  lemma FindAbove(keys: seq<Key>, k: Key)
    requires Rising(keys)
    ensures var i := Find(keys, k);
            if i < |keys| && keys[i] == k then true
            else (forall j | i <= j < |keys| :: Fraction(k) < Fraction(keys[j]))
  {
    hide Fraction, NulFree;
    var i := Find(keys, k);
    if i < |keys| && keys[i] != k {
      assert StrCmp(keys[i], k) != 0;
      forall j | i <= j < |keys|
        ensures Fraction(k) < Fraction(keys[j])
      {
        assert i < j ==> Fraction(keys[i]) < Fraction(keys[j]);
      }
    }
  }

  /** The key is among the entries of a leaf just when the search stops at it. */
  lemma FindInLeaf(keys: seq<Key>, vals: seq<int>, k: Key)
    requires |keys| == |vals| && Rising(keys)
    ensures Has(Pairs(keys, vals), k) <==> Find(keys, k) < |keys| && keys[Find(keys, k)] == k
  {
    hide Fraction, NulFree;
    var i := Find(keys, k);
    FindAbove(keys, k);
    if i < |keys| && keys[i] == k {
      assert Pairs(keys, vals)[i].0 == k;
    }
  }

  lemma PutInLeaf(keys: seq<Key>, vals: seq<int>, k: Key, p: int, i: nat)
    requires |keys| == |vals| && i <= |keys|
    requires forall j | 0 <= j < i :: Fraction(keys[j]) < Fraction(k)
    requires forall j | i <= j < |keys| :: Fraction(k) < Fraction(keys[j])
    ensures Put(Pairs(keys, vals), k, p) == Pairs(keys[..i] + [k] + keys[i..], vals[..i] + [p] + vals[i..])
  {
    hide Fraction, NulFree;
    var a, b := Pairs(keys[..i], vals[..i]), Pairs(keys[i..], vals[i..]);
    assert Pairs(keys, vals) == a + [] + b;
    assert Below(a, k) && Above(b, k);
    PutAround(a, [], b, k, p);
    assert Put([], k, p) == [(k, p)];
    assert Pairs(keys[..i] + [k] + keys[i..], vals[..i] + [p] + vals[i..]) == a + [(k, p)] + b;
  }

  lemma LeafOkWith(keys: seq<Key>, vals: seq<int>, lo: real, hi: real, k: Key, p: int, i: nat)
    requires LeafOk(keys, vals, lo, hi) && lo < Fraction(k) <= hi && i <= |keys|
    requires forall j | 0 <= j < i :: Fraction(keys[j]) < Fraction(k)
    requires forall j | i <= j < |keys| :: Fraction(k) < Fraction(keys[j])
    ensures LeafOk(keys[..i] + [k] + keys[i..], vals[..i] + [p] + vals[i..], lo, hi)
  {
    hide Fraction, NulFree;
    KeysWith(keys, lo, hi, k, i, keys[..i] + [k] + keys[i..]);
  }

  lemma KeysWith(keys: seq<Key>, lo: real, hi: real, k: Key, i: nat, keys': seq<Key>)
    requires Rising(keys) && i <= |keys| && lo < Fraction(k) <= hi
    requires forall j | 0 <= j < |keys| :: lo < Fraction(keys[j]) <= hi
    requires forall j | 0 <= j < i :: Fraction(keys[j]) < Fraction(k)
    requires forall j | i <= j < |keys| :: Fraction(k) < Fraction(keys[j])
    requires keys' == keys[..i] + [k] + keys[i..]
    ensures Rising(keys')
    ensures forall j | 0 <= j < |keys'| :: lo < Fraction(keys'[j]) <= hi
  {
    hide Fraction, NulFree;
    var a, b := keys[..i], keys[i..];
    assert Rising(a) && Rising(b);
    assert forall j | 0 <= j < |a| :: a[j] == keys[j];
    assert forall j | 0 <= j < |b| :: b[j] == keys[i + j];
    hide Rising;
    KeysAround(a, k, b, lo, hi);
  }

  lemma KeysAround(a: seq<Key>, k: Key, b: seq<Key>, lo: real, hi: real)
    requires Rising(a) && Rising(b) && lo < Fraction(k) <= hi
    requires forall j | 0 <= j < |a| :: lo < Fraction(a[j]) < Fraction(k)
    requires forall j | 0 <= j < |b| :: Fraction(k) < Fraction(b[j]) <= hi
    ensures Rising(a + [k] + b)
    ensures forall j | 0 <= j < |a + [k] + b| :: lo < Fraction((a + [k] + b)[j]) <= hi
  {
    hide Fraction, NulFree;
    var all := a + [k] + b;
    forall i, j | 0 <= i < j < |all|
      ensures Fraction(all[i]) < Fraction(all[j])
    {
      if j < |a| {
        assert Fraction(a[i]) < Fraction(a[j]);
      } else if i > |a| {
        assert Fraction(b[i - |a| - 1]) < Fraction(b[j - |a| - 1]);
      }
    }
  }

  lemma LeafWith(keys: seq<Key>, vals: seq<int>, lo: real, hi: real, k: Key, p: int, next: int)
    requires LeafOk(keys, vals, lo, hi) && lo < Fraction(k) <= hi
    requires Find(keys, k) < |keys| ==> keys[Find(keys, k)] != k
    ensures var i := Find(keys, k);
            var (keys', vals') := (keys[..i] + [k] + keys[i..], vals[..i] + [p] + vals[i..]);
            && LeafOk(keys', vals', lo, hi)
            && Pairs(keys', vals') == Put(Pairs(keys, vals), k, p)
            && With(NodeV(true, keys, vals + [next]), i, k, p) == NodeV(true, keys', vals' + [next])
  {
    hide Fraction, NulFree;
    var i := Find(keys, k);
    FindAbove(keys, k);
    LeafOkWith(keys, vals, lo, hi, k, p, i);
    PutInLeaf(keys, vals, k, p, i);
    hide LeafOk, Put, Pairs, Rising;
    assert vals[..i] + [p] + vals[i..] + [next] == (vals + [next])[..i] + [p] + (vals + [next])[i..];
  }

  /** __addKey on a leaf. */
  lemma LeafGrows(disk: Disk, t: Tree, next: int, lo: real, hi: real, order: nat, least: int, k: Key, p: int) returns (t': Tree)
    requires t.Leaf? && Rep(disk, t, next) && Ok(t, lo, hi, 0, order, least)
    requires |t.keys| < order - 1 && lo < Fraction(k) <= hi
    requires Find(t.keys, k) < |t.keys| ==> t.keys[Find(t.keys, k)] != k
    ensures Became(disk, disk[t.off := With(disk[t.off], Find(t.keys, k), k, p)], t, t', next, lo, hi, 0, order, least,
                   Put(Entries(t), k, p))
  {
    hide Fraction, NulFree;
    LeafWith(t.keys, t.vals, lo, hi, k, p, next);
    var i := Find(t.keys, k);
    t' := Leaf(t.off, t.keys[..i] + [k] + t.keys[i..], t.vals[..i] + [p] + t.vals[i..]);
  }

  /** A key that is there already gets its position replaced. */
  lemma LeafReplaces(disk: Disk, t: Tree, next: int, lo: real, hi: real, order: nat, least: int, k: Key, p: int) returns (t': Tree)
    requires t.Leaf? && Rep(disk, t, next) && Ok(t, lo, hi, 0, order, least)
    requires Find(t.keys, k) < |t.keys| && t.keys[Find(t.keys, k)] == k
    ensures var n := disk[t.off];
            Became(disk, disk[t.off := n.(children := n.children[Find(t.keys, k) := p])], t, t', next, lo, hi, 0, order, least,
                   Replace(Entries(t), k, p))
  {
    hide Fraction, NulFree;
    var i := Find(t.keys, k);
    t' := Leaf(t.off, t.keys, t.vals[i := p]);
    assert (t.vals + [next])[i := p] == t.vals[i := p] + [next];
    forall j | 0 <= j < |t.keys| && j != i
      ensures t.keys[j] != k
    {
      assert Fraction(t.keys[j]) != Fraction(t.keys[i]);
    }
    assert Entries(t') == Replace(Entries(t), k, p);
  }

  /** __splitNode on a leaf. */
  lemma LeafHalves(disk: Disk, t: Tree, next: int, lo: real, hi: real, order: nat, least: int, k: Key, p: int, roff: int)
    returns (t': Tree, r: Tree, up: Key)
    requires t.Leaf? && Rep(disk, t, next) && Ok(t, lo, hi, 0, order, least)
    requires |t.keys| == order - 1 && order >= 3 && lo < Fraction(k) <= hi && roff !in disk
    requires Find(t.keys, k) < |t.keys| ==> t.keys[Find(t.keys, k)] != k
    ensures r.off == roff
    ensures var full := With(disk[t.off], Find(t.keys, k), k, p);
            && |full.keys| == order && |full.children| == order + 1 && full.leaf && up == full.keys[Div(true, order)]
            && Halved(disk, disk[t.off := LeftHalf(full, order, roff)][roff := RightHalf(full, order)],
                      t, t', r, up, next, lo, hi, 0, order, Put(Entries(t), k, p))
  {
    hide Fraction, NulFree, Find, Rising, Put, Pairs, With, LeftHalf, RightHalf, Div, MinFill, LeafOk;
    LeafWith(t.keys, t.vals, lo, hi, k, p, next);
    var i := Find(t.keys, k);
    var keys, vals := t.keys[..i] + [k] + t.keys[i..], t.vals[..i] + [p] + t.vals[i..];
    t', r, up := CutLeaf(disk, t, keys, vals, next, lo, hi, order, roff);
  }

  /** An overfull leaf becomes two. */
  lemma CutLeaf(disk: Disk, t: Tree, keys: seq<Key>, vals: seq<int>, next: int, lo: real, hi: real, order: nat, roff: int)
    returns (t': Tree, r: Tree, up: Key)
    requires t.Leaf? && t.off in disk && roff !in disk && order >= 3 && |keys| == |vals| == order && LeafOk(keys, vals, lo, hi)
    ensures r.off == roff && 0 <= Div(true, order) < order && up == keys[Div(true, order)]
    ensures var full := NodeV(true, keys, vals + [next]);
            Halved(disk, disk[t.off := LeftHalf(full, order, roff)][roff := RightHalf(full, order)],
                   t, t', r, up, next, lo, hi, 0, order, Pairs(keys, vals))
  {
    hide Fraction, NulFree, Rising, Pairs, LeafOk, MinFill;
    var n := Div(true, order) + 1;
    HalvesOfLeaf(keys, vals, next, order, roff);
    LeafCut(keys, vals, lo, hi, n);
    hide LeftHalf, RightHalf, Div;
    t', r, up := Leaf(t.off, keys[..n], vals[..n]), Leaf(roff, keys[n..], vals[n..]), keys[n - 1];
  }

  lemma HalvesOfLeaf(keys: seq<Key>, vals: seq<int>, next: int, order: nat, roff: int)
    requires order >= 3 && |keys| == |vals| == order
    ensures var n := Div(true, order) + 1;
            && MinFill(0, order) <= n <= order - 1 && MinFill(0, order) <= order - n <= order - 1
            && LeftHalf(NodeV(true, keys, vals + [next]), order, roff) == NodeV(true, keys[..n], vals[..n] + [roff])
            && RightHalf(NodeV(true, keys, vals + [next]), order) == NodeV(true, keys[n..], vals[n..] + [next])
  {
    hide Fraction, NulFree;
    var n := Div(true, order) + 1;
    assert (vals + [next])[..n] == vals[..n] && (vals + [next])[n..] == vals[n..] + [next];
  }

  // ---------- internal nodes ----------

  /** The kid that a search for `k` goes into. */
  lemma FindKid(t: Tree, lo: real, hi: real, d: nat, order: nat, least: int, k: Key)
    requires t.Inner? && Ok(t, lo, hi, d, order, least) && lo < Fraction(k) <= hi
    ensures var i := Find(t.keys, k);
            i < |t.kids| && LoAt(t.keys, i, lo) < Fraction(k) <= HiAt(t.keys, i, hi)
  {
    hide Fraction, NulFree;
  }

  /** A separator that lies strictly inside the bounds of kid `i` belongs at `i`
      and equals no separator that is there. */
  lemma FindSeparator(keys: seq<Key>, lo: real, hi: real, i: nat, k: Key)
    requires Rising(keys) && i <= |keys|
    requires LoAt(keys, i, lo) < Fraction(k) < HiAt(keys, i, hi)
    ensures Find(keys, k) == i && (i < |keys| ==> keys[i] != k)
  {
    hide Fraction, NulFree;
    forall j | 0 <= j < i
      ensures Fraction(keys[j]) < Fraction(k)
    {
      assert j < i - 1 ==> Fraction(keys[j]) < Fraction(keys[i - 1]);
    }
    FindIs(keys, k, i);
  }

  /** Entries left of kid `i` are below `k`, entries right of it above. */
  lemma AroundKid(t: Tree, lo: real, hi: real, d: nat, order: nat, least: int, i: nat, k: Key)
    requires t.Inner? && Ok(t, lo, hi, d, order, least) && lo <= hi && i < |t.kids|
    requires LoAt(t.keys, i, lo) < Fraction(k) <= HiAt(t.keys, i, hi)
    ensures Below(Flat(t.kids[..i]), k) && Above(Flat(t.kids[i + 1..]), k)
    ensures Entries(t) == Flat(t.kids[..i]) + Entries(t.kids[i]) + Flat(t.kids[i + 1..])
  {
    hide Fraction, NulFree;
    FlatRises(t, lo, hi, d, order, least, i);
    FlatRisesFrom(t, lo, hi, d, order, least, i + 1);
    FlatAround(t.kids, i);
    hide Ok, Flat;
    if i == 0 {
      assert t.kids[..0] == [];
      NoEntries(t.kids[..0], lo);
      NothingBelow(Flat(t.kids[..0]), lo, k);
    }
  }

  lemma NothingBelow(es: seq<Entry>, lo: real, k: Key)
    requires EntriesIn(es, lo, lo)
    ensures Below(es, k)
  {
    hide Fraction, NulFree;
  }

  /** Whatever happens to the entry of `k` happens within kid `i`. */
  lemma WithinKid(t: Tree, lo: real, hi: real, d: nat, order: nat, least: int, i: nat, k: Key, p: int)
    requires t.Inner? && Ok(t, lo, hi, d, order, least) && lo <= hi && i < |t.kids|
    requires LoAt(t.keys, i, lo) < Fraction(k) <= HiAt(t.keys, i, hi)
    ensures var (a, m, b) := (Flat(t.kids[..i]), Entries(t.kids[i]), Flat(t.kids[i + 1..]));
            && Entries(t) == a + m + b
            && (Has(Entries(t), k) <==> Has(m, k))
            && (forall dup :: After(Entries(t), k, p, dup) == a + After(m, k, p, dup) + b)
            && Del(Entries(t), k) == a + Del(m, k) + b
  {
    hide Fraction, NulFree, Put, Replace, Del, Has, Flat, Entries;
    AroundKid(t, lo, hi, d, order, least, i, k);
    var a, m, b := Flat(t.kids[..i]), Entries(t.kids[i]), Flat(t.kids[i + 1..]);
    HasAround(a, m, b, k);
    PutAround(a, m, b, k, p);
    ReplaceAround(a, m, b, k, p);
    DelAround(a, m, b, k);
  }

  /** Nothing changed. */
  lemma Unchanged(disk: Disk, t: Tree, next: int, lo: real, hi: real, d: nat, order: nat, least: int)
    requires Rep(disk, t, next) && Ok(t, lo, hi, d, order, least)
    ensures Became(disk, disk, t, t, next, lo, hi, d, order, least, Entries(t))
  {
    OffsetsOnDisk(disk, t, next);
    hide Rep, Ok, Offsets, Entries, First;
  }

  /** What kid `i` of an internal node may use of the disk. */
  lemma KidRep(disk: Disk, t: Tree, next: int, i: nat)
    requires t.Inner? && Rep(disk, t, next) && i < |t.kids|
    ensures Rep(disk, t.kids[i], NextOf(t.kids, i, next))
    ensures Offsets(t.kids[i]) <= Offsets(t) && t.off !in Offsets(t.kids[i])
    ensures t.off in disk && disk[t.off] == NodeV(false, t.keys, Roots(t.kids))
    ensures KidsRep(disk, t.kids, next) && |t.kids| == |t.keys| + 1
  {
  }

  lemma OffsetsOfInner(t: Tree)
    requires t.Inner?
    ensures Offsets(t) == {t.off} + AllOffsets(t.kids)
  {
  }

  lemma InnerIsRep(disk: Disk, t: Tree, next: int)
    requires t.Inner? && t.off in disk && |t.kids| == |t.keys| + 1
    requires disk[t.off] == NodeV(false, t.keys, Roots(t.kids))
    requires KidsRep(disk, t.kids, next) && t.off !in AllOffsets(t.kids)
    ensures Rep(disk, t, next)
  {
    forall i | 0 <= i < |t.kids|
      ensures t.off !in Offsets(t.kids[i])
    {
      assert Offsets(t.kids[i]) <= AllOffsets(t.kids);
    }
  }

  /** Kids `mkids`, using only offsets of the kids in [i, j) and fresh ones, take
      the place of those kids. */
  lemma KidsReplaced(disk: Disk, disk': Disk, t: Tree, next: int, i: nat, j: nat, mkids: seq<Tree>)
    requires t.Inner? && Rep(disk, t, next) && i < j <= |t.kids| && mkids != []
    requires KidsRep(disk', mkids, NextOf(t.kids, j - 1, next)) && First(mkids[0]) == First(t.kids[i])
    requires Framed(disk, disk', AllOffsets(t.kids[i..j]), AllOffsets(mkids))
    ensures var kids' := SpliceKids(t.kids, i, j, mkids);
            && KidsRep(disk', kids', next) && t.off !in AllOffsets(kids')
            && Framed(disk, disk', Offsets(t), {t.off} + AllOffsets(kids'))
            && t.off in disk' && disk'[t.off] == disk[t.off]
  {
    hide Fraction, NulFree, Rep, KidsRep, Framed, AllOffsets, Offsets;
    KidRep(disk, t, next, i);
    TopIsApart(disk, t, next);
    forall n | 0 <= n < |t.kids| && !(i <= n < j)
      ensures Offsets(t.kids[n]) !! AllOffsets(mkids)
      ensures forall o <- Offsets(t.kids[n]) :: o in disk && o in disk' && disk'[o] == disk[o]
    {
      OtherKid(disk, t, next, i, j, n);
      OthersKept(disk, disk', Offsets(t.kids[n]), AllOffsets(t.kids[i..j]), AllOffsets(mkids));
    }
    SpliceRep(disk, disk', t.kids, next, i, j, mkids);
    SpliceOffsets(t.kids, i, j, mkids);
    OffsetsOfRange(t, i, j);
    RangeApart(disk, t, next, i, j);
    OthersKept(disk, disk', {t.off}, AllOffsets(t.kids[i..j]), AllOffsets(mkids));
    FramedBoth(disk, disk', AllOffsets(t.kids[i..j]), AllOffsets(mkids),
               {t.off} + AllOffsets(t.kids[..i]) + AllOffsets(t.kids[j..]));
    assert Offsets(t) == AllOffsets(t.kids[i..j]) + ({t.off} + AllOffsets(t.kids[..i]) + AllOffsets(t.kids[j..]));
    assert {t.off} + AllOffsets(SpliceKids(t.kids, i, j, mkids))
        == AllOffsets(mkids) + ({t.off} + AllOffsets(t.kids[..i]) + AllOffsets(t.kids[j..]));
  }

  lemma OthersKept(disk: Disk, disk': Disk, others: set<int>, used: set<int>, used': set<int>)
    requires Framed(disk, disk', used, used') && others <= disk.Keys && others !! used
    ensures others !! used' && forall o <- others :: o in disk' && disk'[o] == disk[o]
  {
    forall o | o in others
      ensures o !in used'
    {
    }
  }

  /** Nodes that did not take part may be counted in. */
  lemma FramedBoth(disk: Disk, disk': Disk, used: set<int>, used': set<int>, other: set<int>)
    requires Framed(disk, disk', used, used') && other <= disk.Keys && other !! used
    ensures Framed(disk, disk', used + other, used' + other)
    ensures Framed(disk, disk', other + used, other + used')
  {
    OthersKept(disk, disk', other, used, used');
    assert disk.Keys - used + used' == disk.Keys - (used + other) + (used' + other);
    assert disk.Keys - used + used' == disk.Keys - (other + used) + (other + used');
  }

  lemma OffsetsOfRange(t: Tree, i: nat, j: nat)
    requires t.Inner? && i < j <= |t.kids|
    ensures Offsets(t) == {t.off} + AllOffsets(t.kids[..i]) + AllOffsets(t.kids[i..j]) + AllOffsets(t.kids[j..])
  {
    OffsetsOfInner(t);
    hide Offsets;
    OffsetsCut(t.kids, j);
    OffsetsCut(t.kids[..j], i);
    assert t.kids[..j][..i] == t.kids[..i] && t.kids[..j][i..] == t.kids[i..j];
  }

  /** The rest of the tree shares no node with the kids in [i, j). */
  lemma RangeApart(disk: Disk, t: Tree, next: int, i: nat, j: nat)
    requires t.Inner? && Rep(disk, t, next) && i < j <= |t.kids|
    ensures {t.off} + AllOffsets(t.kids[..i]) + AllOffsets(t.kids[j..]) <= disk.Keys
    ensures ({t.off} + AllOffsets(t.kids[..i]) + AllOffsets(t.kids[j..])) !! AllOffsets(t.kids[i..j])
  {
    OffsetsOfRange(t, i, j);
    OffsetsOnDisk(disk, t, next);
    TopIsApart(disk, t, next);
    OffsetsOfInner(t);
    hide Offsets, Rep, KidsRep;
    forall n, m | 0 <= n < i && 0 <= m < j - i
      ensures Offsets(t.kids[..i][n]) !! Offsets(t.kids[i..j][m])
    {
      KidsApart(disk, t, next, n, i + m);
    }
    OffsetsApart(t.kids[..i], t.kids[i..j]);
    forall n, m | 0 <= n < |t.kids| - j && 0 <= m < j - i
      ensures Offsets(t.kids[j..][n]) !! Offsets(t.kids[i..j][m])
    {
      KidsApart(disk, t, next, i + m, j + n);
    }
    OffsetsApart(t.kids[j..], t.kids[i..j]);
    hide AllOffsets;
  }

  lemma KidsApart(disk: Disk, t: Tree, next: int, n: nat, m: nat)
    requires t.Inner? && Rep(disk, t, next) && n < m < |t.kids|
    ensures Offsets(t.kids[n]) !! Offsets(t.kids[m])
  {
  }

  lemma TopIsApart(disk: Disk, t: Tree, next: int)
    requires t.Inner? && Rep(disk, t, next)
    ensures t.off !in AllOffsets(t.kids) && t.off in disk
  {
  }

  lemma OtherKid(disk: Disk, t: Tree, next: int, i: nat, j: nat, n: nat)
    requires t.Inner? && Rep(disk, t, next) && i < j <= |t.kids| && n < |t.kids| && !(i <= n < j)
    ensures Offsets(t.kids[n]) <= disk.Keys && Offsets(t.kids[n]) !! AllOffsets(t.kids[i..j])
  {
    KidRep(disk, t, next, n);
    OffsetsOnDisk(disk, t.kids[n], NextOf(t.kids, n, next));
    hide Rep;
    forall m | 0 <= m < j - i
      ensures Offsets(t.kids[n]) !! Offsets(t.kids[i..j][m])
    {
      assert Offsets(t.kids[n]) !! Offsets(t.kids[i + m]);
    }
  }

  lemma KidReplaced(disk: Disk, disk': Disk, t: Tree, next: int, i: nat, mkids: seq<Tree>)
    requires t.Inner? && Rep(disk, t, next) && i < |t.kids| && mkids != []
    requires KidsRep(disk', mkids, NextOf(t.kids, i, next)) && First(mkids[0]) == First(t.kids[i])
    requires Framed(disk, disk', Offsets(t.kids[i]), AllOffsets(mkids))
    ensures var kids' := SpliceKids(t.kids, i, i + 1, mkids);
            && KidsRep(disk', kids', next) && t.off !in AllOffsets(kids')
            && Framed(disk, disk', Offsets(t), {t.off} + AllOffsets(kids'))
            && t.off in disk' && disk'[t.off] == disk[t.off]
  {
    hide Rep, KidsRep;
    assert t.kids[i..i + 1] == [t.kids[i]];
    OffsetsOfOne(t.kids[i]);
    hide AllOffsets;
    KidsReplaced(disk, disk', t, next, i, i + 1, mkids);
  }

  lemma OffsetsOfOne(t: Tree)
    ensures AllOffsets([t]) == Offsets(t)
  {
    forall o | o in Offsets(t)
      ensures o in AllOffsets([t])
    {
      assert o in Offsets([t][0]);
    }
  }

  lemma SpliceOffsets(kids: seq<Tree>, i: nat, j: nat, mkids: seq<Tree>)
    requires i < j <= |kids|
    ensures AllOffsets(SpliceKids(kids, i, j, mkids)) == AllOffsets(kids[..i]) + AllOffsets(mkids) + AllOffsets(kids[j..])
    ensures AllOffsets(kids[..i]) + AllOffsets(kids[j..]) <= AllOffsets(kids)
  {
    hide Offsets;
    var all := SpliceKids(kids, i, j, mkids);
    OffsetsCut(all, i + |mkids|);
    OffsetsCut(all[..i + |mkids|], i);
    assert all[..i + |mkids|][..i] == kids[..i] && all[..i + |mkids|][i..] == mkids && all[i + |mkids|..] == kids[j..];
    OffsetsCut(kids, i);
    OffsetsCut(kids, j);
  }

  /** A kid changed in place: so did the tree. */
  lemma KidBecame(disk: Disk, disk': Disk, t: Tree, next: int, lo: real, hi: real, d: nat, order: nat, least: int,
                  i: nat, c: Tree, es: seq<Entry>) returns (t': Tree)
    requires t.Inner? && Rep(disk, t, next) && Ok(t, lo, hi, d, order, least) && i < |t.kids|
    requires Became(disk, disk', t.kids[i], c, NextOf(t.kids, i, next), LoAt(t.keys, i, lo), HiAt(t.keys, i, hi),
                    d - 1, order, MinFill(d - 1, order), es)
    ensures Became(disk, disk', t, t', next, lo, hi, d, order, least, Flat(t.kids[..i]) + es + Flat(t.kids[i + 1..]))
  {
    hide Fraction, NulFree, Rising, MinFill, Rep, KidsRep, Flat, Find, Ok, KidsOk, AllOffsets, Offsets, Framed;
    var kids' := SpliceKids(t.kids, i, i + 1, [c]);
    InnerOk(t, lo, hi, d, order, least);
    OneKid(disk', c, NextOf(t.kids, i, next), LoAt(t.keys, i, lo), HiAt(t.keys, i, hi), d - 1, order);
    SpliceOk(t.keys, t.kids, lo, hi, d - 1, order, i, i + 1, [], [c]);
    SpliceFlat(t.kids, i, i + 1, [c]);
    KidReplaced(disk, disk', t, next, i, [c]);
    KidRep(disk, t, next, i);
    SameRoots(t.keys, t.kids, i, c);
    hide SpliceKeys, SpliceKids;
    t' := InnerBecame(disk, disk', t, next, lo, hi, d, order, least, t.keys, kids');
  }

  lemma SameRoots(keys: seq<Key>, kids: seq<Tree>, i: nat, c: Tree)
    requires i < |kids| == |keys| + 1 && c.off == kids[i].off && First(c) == First(kids[i])
    ensures SpliceKeys(keys, i, i + 1, []) == keys
    ensures Roots(SpliceKids(kids, i, i + 1, [c])) == Roots(kids)
    ensures First(SpliceKids(kids, i, i + 1, [c])[0]) == First(kids[0])
  {
    assert Roots(SpliceKids(kids, i, i + 1, [c])) == Roots(kids);
  }

  lemma InnerOk(t: Tree, lo: real, hi: real, d: nat, order: nat, least: int)
    requires t.Inner? && Ok(t, lo, hi, d, order, least)
    ensures d > 0 && KidsOk(t.keys, t.kids, lo, hi, d - 1, order) && |t.kids| == |t.keys| + 1
    ensures least <= |t.keys| <= order - 1
  {
  }

  /** An internal node with these keys and kids in the place of `t`. */
  lemma InnerBecame(disk: Disk, disk': Disk, t: Tree, next: int, lo: real, hi: real, d: nat, order: nat, least: int,
                    keys': seq<Key>, kids': seq<Tree>) returns (t': Tree)
    requires t.Inner? && d > 0 && least <= |keys'| <= order - 1
    requires KidsOk(keys', kids', lo, hi, d - 1, order) && KidsRep(disk', kids', next)
    requires kids' != [] && First(kids'[0]) == First(t)
    requires t.off !in AllOffsets(kids') && Framed(disk, disk', Offsets(t), {t.off} + AllOffsets(kids'))
    requires t.off in disk' && disk'[t.off] == NodeV(false, keys', Roots(kids'))
    ensures t' == Inner(t.off, keys', kids')
    ensures Became(disk, disk', t, t', next, lo, hi, d, order, least, Flat(kids'))
  {
    hide Fraction, NulFree, Rising, MinFill, KidsRep, Flat, Find;
    t' := Inner(t.off, keys', kids');
    InnerIsRep(disk', t', next);
    OffsetsOfInner(t);
    OffsetsOfInner(t');
  }

  lemma OneKid(disk: Disk, c: Tree, next: int, lo: real, hi: real, d: nat, order: nat)
    requires Ok(c, lo, hi, d, order, MinFill(d, order)) && Rep(disk, c, next)
    ensures KidsOk([], [c], lo, hi, d, order) && KidsRep(disk, [c], next)
    ensures AllOffsets([c]) == Offsets(c) && Flat([c]) == Entries(c)
  {
    FlatOne(c);
    forall o | o in Offsets(c)
      ensures o in AllOffsets([c])
    {
      assert o in Offsets([c][0]);
    }
  }

  lemma TwoKids(disk: Disk, c: Tree, k: Key, r: Tree, next: int, lo: real, hi: real, d: nat, order: nat)
    requires Ok(c, lo, Fraction(k), d, order, MinFill(d, order)) && Ok(r, Fraction(k), hi, d, order, MinFill(d, order))
    requires lo < Fraction(k) < hi
    requires Rep(disk, c, First(r)) && Rep(disk, r, next) && Offsets(c) !! Offsets(r)
    ensures KidsOk([k], [c, r], lo, hi, d, order) && KidsRep(disk, [c, r], next)
    ensures AllOffsets([c, r]) == Offsets(c) + Offsets(r) && Flat([c, r]) == Entries(c) + Entries(r)
  {
    hide Fraction, NulFree, MinFill, Rising, Ok, Rep;
    OneKid(disk, c, First(r), lo, Fraction(k), d, order);
    OneKid(disk, r, next, Fraction(k), hi, d, order);
    hide KidsOk, KidsRep, Flat;
    KidsJoin([], [c], k, [], [r], lo, hi, d, order);
    KidsRepJoin(disk, [c], [r], next);
    assert [] + [k] + [] == [k];
    assert [c] + [r] == [c, r];
  }

  /** A kid was halved: the kids of the tree now, one more than its node knows. */
  lemma KidHalved(disk: Disk, disk': Disk, t: Tree, next: int, lo: real, hi: real, d: nat, order: nat, least: int,
                  i: nat, c: Tree, r: Tree, k: Key, es: seq<Entry>)
    requires t.Inner? && Rep(disk, t, next) && Ok(t, lo, hi, d, order, least) && i < |t.kids|
    requires Halved(disk, disk', t.kids[i], c, r, k, NextOf(t.kids, i, next), LoAt(t.keys, i, lo), HiAt(t.keys, i, hi),
                    d - 1, order, es)
    ensures Find(t.keys, k) == i && (i < |t.keys| ==> t.keys[i] != k)
    ensures var keys', kids' := SpliceKeys(t.keys, i, i + 1, [k]), SpliceKids(t.kids, i, i + 1, [c, r]);
            && KidsOk(keys', kids', lo, hi, d - 1, order)
            && KidsRep(disk', kids', next) && t.off !in AllOffsets(kids')
            && Framed(disk, disk', Offsets(t), {t.off} + AllOffsets(kids'))
            && Flat(kids') == Flat(t.kids[..i]) + es + Flat(t.kids[i + 1..])
            && First(kids'[0]) == First(t)
            && t.off in disk' && disk'[t.off] == NodeV(false, t.keys, Roots(t.kids))
            && With(disk'[t.off], i, k, r.off) == NodeV(false, keys', Roots(kids'))
  {
    hide Fraction, NulFree, Rising, MinFill, Rep, KidsRep, Flat, Ok;
    KidSeparator(t, lo, hi, d, order, least, i, k);
    var kids' := SpliceKids(t.kids, i, i + 1, [c, r]);
    TwoKids(disk', c, k, r, NextOf(t.kids, i, next), LoAt(t.keys, i, lo), HiAt(t.keys, i, hi), d - 1, order);
    SpliceOk(t.keys, t.kids, lo, hi, d - 1, order, i, i + 1, [k], [c, r]);
    SpliceFlat(t.kids, i, i + 1, [c, r]);
    KidReplaced(disk, disk', t, next, i, [c, r]);
    KidRep(disk, t, next, i);
    RootsWith(t.kids, i, c, r);
    hide Find, KidsOk, Offsets;
  }

  lemma KidSeparator(t: Tree, lo: real, hi: real, d: nat, order: nat, least: int, i: nat, k: Key)
    requires t.Inner? && Ok(t, lo, hi, d, order, least) && i < |t.kids|
    requires LoAt(t.keys, i, lo) < Fraction(k) < HiAt(t.keys, i, hi)
    ensures d > 0 && KidsOk(t.keys, t.kids, lo, hi, d - 1, order)
    ensures Find(t.keys, k) == i && (i < |t.keys| ==> t.keys[i] != k)
  {
    FindSeparator(t.keys, lo, hi, i, k);
  }

  lemma RootsWith(kids: seq<Tree>, i: nat, c: Tree, r: Tree)
    requires i < |kids| && c.off == kids[i].off
    ensures Roots(SpliceKids(kids, i, i + 1, [c, r])) == Roots(kids)[..i + 1] + [r.off] + Roots(kids)[i + 1..]
  {
  }

  /** Keys and kids for an internal node that gained kid `i`'s other half. */
  ghost predicate Overfull(disk: Disk, disk': Disk, t: Tree, next: int, lo: real, hi: real, d: nat, order: nat,
                           keys': seq<Key>, kids': seq<Tree>) {
    && t.Inner? && d > 0
    && KidsOk(keys', kids', lo, hi, d - 1, order)
    && KidsRep(disk', kids', next) && t.off !in AllOffsets(kids')
    && Framed(disk, disk', Offsets(t), {t.off} + AllOffsets(kids'))
    && kids' != [] && First(kids'[0]) == First(t)
  }

  /** __addKey on an internal node, after its kid was halved. */
  lemma InnerGrows(disk: Disk, disk': Disk, t: Tree, next: int, lo: real, hi: real, d: nat, order: nat, least: int,
                   keys': seq<Key>, kids': seq<Tree>) returns (t': Tree)
    requires Overfull(disk, disk', t, next, lo, hi, d, order, keys', kids')
    requires least <= |keys'| <= order - 1
    ensures Became(disk, disk'[t.off := NodeV(false, keys', Roots(kids'))], t, t', next, lo, hi, d, order, least, Flat(kids'))
  {
    hide Fraction, NulFree, KidsOk, Flat, Find, KidsRep;
    var disk2 := disk'[t.off := NodeV(false, keys', Roots(kids'))];
    KidsOnDisk(disk', kids', next);
    KidsRepFrame(disk', disk2, kids', next);
    OffsetsOfInner(t);
    t' := InnerBecame(disk, disk2, t, next, lo, hi, d, order, least, keys', kids');
  }

  lemma KidsOnDisk(disk: Disk, kids: seq<Tree>, next: int)
    requires KidsRep(disk, kids, next)
    ensures AllOffsets(kids) <= disk.Keys
  {
    forall i | 0 <= i < |kids|
      ensures Offsets(kids[i]) <= disk.Keys
    {
      assert Rep(disk, kids[i], NextOf(kids, i, next));
      OffsetsOnDisk(disk, kids[i], NextOf(kids, i, next));
    }
  }

  /** __splitNode on an internal node, after its kid was halved. */
  lemma InnerHalves(disk: Disk, disk': Disk, t: Tree, next: int, lo: real, hi: real, d: nat, order: nat,
                    keys': seq<Key>, kids': seq<Tree>, roff: int) returns (t': Tree, r: Tree)
    requires Overfull(disk, disk', t, next, lo, hi, d, order, keys', kids')
    requires order >= 3 && |keys'| == order && |kids'| == order + 1
    requires roff !in disk' && roff !in disk && t.off in disk && t.off in disk'
    ensures r.off == roff
    ensures var full := NodeV(false, keys', Roots(kids'));
            Halved(disk, disk'[t.off := LeftHalf(full, order, roff)][roff := RightHalf(full, order)],
                   t, t', r, keys'[Div(false, order)], next, lo, hi, d, order, Flat(kids'))
  {
    hide Fraction, NulFree, KidsOk, Flat, Find, KidsRep, Rising;
    var div := Div(false, order);
    var full := NodeV(false, keys', Roots(kids'));
    var disk2 := disk'[t.off := LeftHalf(full, order, roff)][roff := RightHalf(full, order)];
    var k := keys'[div];
    var a, b := kids'[..div + 1], kids'[div + 1..];
    t', r := Inner(t.off, keys'[..div], a), Inner(roff, keys'[div + 1..], b);
    KidsOnDisk(disk', kids', next);
    KidsCut(keys', kids', lo, hi, d - 1, order, div);
    KidsRepCut(disk', kids', next, div + 1);
    KidsRepFrame(disk', disk2, a, First(kids'[div + 1]));
    KidsRepFrame(disk', disk2, b, next);
    assert Roots(a) == Roots(kids')[..div + 1] && Roots(b) == Roots(kids')[div + 1..];
    OffsetsOfInner(t);
    OffsetsOfInner(t');
    OffsetsOfInner(r);
    InnerIsRep(disk2, t', First(r));
    InnerIsRep(disk2, r, next);
    hide AllOffsets, Offsets, Rep;
    KidsAreOk(t', lo, Fraction(k), d, order);
    KidsAreOk(r, Fraction(k), hi, d, order);
  }

  lemma KidsAreOk(t: Tree, lo: real, hi: real, d: nat, order: nat)
    requires t.Inner? && d > 0 && order >= 3 && KidsOk(t.keys, t.kids, lo, hi, d - 1, order)
    requires |t.keys| == order / 2 || |t.keys| == order - order / 2 - 1
    ensures Ok(t, lo, hi, d, order, MinFill(d, order))
  {
  }

  // ---------- the whole tree ----------

  /** The bounds of the whole tree: all ranks lie between them. */
  const LOW: real := -1.0
  const HIGH: real := 2.0

  ghost predicate Whole(disk: Disk, t: Tree, d: nat, order: nat, root: int, leftLeaf: int, size: nat) {
    && t.off == root && First(t) == leftLeaf && disk.Keys == Offsets(t)
    && Ok(t, LOW, HIGH, d, order, 1) && Rep(disk, t, 0)
    && size == |Entries(t)|
  }

  /** The first leaf. */
  lemma Sprouts(disk: Disk, off: int, k: Key, p: int, order: nat) returns (t: Tree)
    requires order >= 3 && disk == map[]
    ensures Whole(disk[off := NodeV(true, [k], [p, 0])], t, 0, order, off, off, 1) && Entries(t) == [(k, p)]
  {
    t := Leaf(off, [k], [p]);
    assert [p] + [0] == [p, 0];
  }

  /** A new root above the halves of the old one. */
  lemma Rises(disk: Disk, disk': Disk, t: Tree, t': Tree, r: Tree, up: Key, d: nat, order: nat, es: seq<Entry>, off: int)
    returns (t'': Tree)
    requires Halved(disk, disk', t, t', r, up, 0, LOW, HIGH, d, order, es) && order >= 3 && off !in disk'
    requires disk.Keys == Offsets(t)
    ensures Whole(disk'[off := NodeV(false, [up], [t.off, r.off])], t'', d + 1, order, off, First(t), |es|) && Entries(t'') == es
  {
    hide Fraction, NulFree, Rep, Ok, Rising, KidsOk, KidsRep;
    var disk2 := disk'[off := NodeV(false, [up], [t.off, r.off])];
    t'' := Inner(off, [up], [t', r]);
    OffsetsOnDisk(disk', t', First(r));
    OffsetsOnDisk(disk', r, 0);
    RepFrame(disk', disk2, t', First(r));
    RepFrame(disk', disk2, r, 0);
    TwoKids(disk2, t', up, r, 0, LOW, HIGH, d, order);
    assert Roots([t', r]) == [t.off, r.off];
    InnerIsRep(disk2, t'', 0);
    RootIsOk(t'', d, order);
    OffsetsOfInner(t'');
    hide AllOffsets, Offsets, First;
  }

  lemma RootIsOk(t: Tree, d: nat, order: nat)
    requires t.Inner? && KidsOk(t.keys, t.kids, LOW, HIGH, d, order) && 1 <= |t.keys| <= order - 1
    ensures Ok(t, LOW, HIGH, d + 1, order, 1)
  {
  }
}
