/** The shape of a disk B+Tree: what its nodes stand for, the invariants that
    make it a B+Tree, and how they survive splitting, borrowing and merging. */
module BTreeShape {
  import opened ByteOrder

  type Key = cstring
  type Entry = (Key, int)
  type Disk = map<int, NodeV>

  /** The contents of a node. A leaf has a position per key and the link to the
      next leaf behind them; an internal node has one child more than keys. */
  datatype NodeV = NodeV(leaf: bool, keys: seq<Key>, children: seq<int>)

  /** The tree that the nodes on disk spell out. */
  datatype Tree = Leaf(off: int, keys: seq<Key>, vals: seq<int>)
                | Inner(off: int, keys: seq<Key>, kids: seq<Tree>)

  // ---------- keys ----------

  ghost predicate Rising(keys: seq<Key>) {
    forall i, j | 0 <= i < j < |keys| :: Fraction(keys[i]) < Fraction(keys[j])
  }

  ghost function LoAt(keys: seq<Key>, i: int, lo: real): real {
    if 0 < i <= |keys| then Fraction(keys[i - 1]) else lo
  }

  ghost function HiAt(keys: seq<Key>, i: int, hi: real): real {
    if 0 <= i < |keys| then Fraction(keys[i]) else hi
  }

  // ---------- the B+Tree invariant ----------

  /** The least number of keys of a node other than the root (btree_header.c). */
  function MinFill(d: nat, order: nat): int {
    if d == 0 then order / 2 else (order + 1) / 2 - 1
  }

  /** Nodes are at least half full, leaves by keys and internal nodes by children,
      and no fuller than lets two minimal siblings merge. */
  lemma HalfFull(d: nat, order: nat)
    requires order >= 3
    ensures if d == 0 then order - 1 <= 2 * MinFill(d, order) <= order
            else order <= 2 * (MinFill(d, order) + 1) <= order + 1
  {
  }

  /** The subtree has depth `d`, its keys lie in (lo, hi], its separators
      strictly between them, its top node has at least `least` keys, the nodes
      below are filled, and no node has more than order - 1 keys. */
  ghost predicate Ok(t: Tree, lo: real, hi: real, d: nat, order: nat, least: int)
    decreases t
  {
    && least <= |t.keys| <= order - 1
    && match t
       case Leaf(_, keys, vals) => d == 0 && LeafOk(keys, vals, lo, hi)
       case Inner(_, keys, kids) => d > 0 && KidsOk(keys, kids, lo, hi, d - 1, order)
  }

  ghost predicate LeafOk(keys: seq<Key>, vals: seq<int>, lo: real, hi: real) {
    && |vals| == |keys|
    && Rising(keys)
    && (forall i | 0 <= i < |keys| :: lo < Fraction(keys[i]) <= hi)
  }

  /** The separators and the subtrees of depth `d` between them. */
  ghost predicate KidsOk(keys: seq<Key>, kids: seq<Tree>, lo: real, hi: real, d: nat, order: nat)
    decreases kids
  {
    && |kids| == |keys| + 1
    && Rising(keys)
    && (forall i | 0 <= i < |keys| :: lo < Fraction(keys[i]) < hi)
    && (forall i | 0 <= i < |kids| ::
          Ok(kids[i], LoAt(keys, i, lo), HiAt(keys, i, hi), d, order, MinFill(d, order)))
  }

  // ---------- the nodes on disk ----------

  ghost function Offsets(t: Tree): set<int>
    decreases t
  {
    match t
    case Leaf(off, _, _) => {off}
    case Inner(off, _, kids) => {off} + set i, o | 0 <= i < |kids| && o in Offsets(kids[i]) :: o
  }

  /** The leftmost leaf. */
  ghost function First(t: Tree): int
    decreases t
  {
    match t
    case Leaf(off, _, _) => off
    case Inner(off, _, kids) => if kids == [] then off else First(kids[0])
  }

  /** The leaf that follows subtree `i`. */
  ghost function NextOf(kids: seq<Tree>, i: int, next: int): int {
    if 0 <= i < |kids| - 1 then First(kids[i + 1]) else next
  }

  ghost function Roots(kids: seq<Tree>): (offs: seq<int>)
    ensures |offs| == |kids|
    ensures forall i | 0 <= i < |kids| :: offs[i] == kids[i].off
  {
    seq(|kids|, i requires 0 <= i < |kids| => kids[i].off)
  }

  /** The nodes on disk spell out the tree, each node once, and its leaves are
      linked in order with `next` behind the last one. */
  ghost predicate Rep(disk: Disk, t: Tree, next: int)
    decreases t
  {
    && t.off in disk
    && match t
       case Leaf(off, keys, vals) =>
         |vals| == |keys| && disk[off] == NodeV(true, keys, vals + [next])
       case Inner(off, keys, kids) =>
         && |kids| == |keys| + 1 && disk[off] == NodeV(false, keys, Roots(kids))
         && (forall i | 0 <= i < |kids| :: off !in Offsets(kids[i]))
         && KidsRep(disk, kids, next)
  }

  ghost predicate KidsRep(disk: Disk, kids: seq<Tree>, next: int)
    decreases kids
  {
    && (forall i, j | 0 <= i < j < |kids| :: Offsets(kids[i]) !! Offsets(kids[j]))
    && (forall i | 0 <= i < |kids| :: Rep(disk, kids[i], NextOf(kids, i, next)))
  }

  ghost function AllOffsets(kids: seq<Tree>): set<int> {
    set i, o | 0 <= i < |kids| && o in Offsets(kids[i]) :: o
  }

  lemma {:induction false} RepFrame(disk: Disk, disk': Disk, t: Tree, next: int)
    requires Rep(disk, t, next)
    requires forall o <- Offsets(t) :: o in disk && o in disk' && disk'[o] == disk[o]
    ensures Rep(disk', t, next)
    decreases t, 0
  {
    assert t.off in Offsets(t);
    if t.Inner? {
      forall i | 0 <= i < |t.kids|
        ensures Rep(disk', t.kids[i], NextOf(t.kids, i, next))
      {
        assert Rep(disk, t.kids[i], NextOf(t.kids, i, next));
        RepFrame(disk, disk', t.kids[i], NextOf(t.kids, i, next));
      }
    }
  }

  lemma {:induction false} OffsetsOnDisk(disk: Disk, t: Tree, next: int)
    requires Rep(disk, t, next)
    ensures Offsets(t) <= disk.Keys
    decreases t
  {
    if t.Inner? {
      forall i | 0 <= i < |t.kids|
        ensures Offsets(t.kids[i]) <= disk.Keys
      {
        assert Rep(disk, t.kids[i], NextOf(t.kids, i, next));
        OffsetsOnDisk(disk, t.kids[i], NextOf(t.kids, i, next));
      }
    }
  }

  /** The keys of every node rise. */
  lemma {:induction false} NodeKeysRise(disk: Disk, t: Tree, next: int, lo: real, hi: real, d: nat, order: nat, least: int,
                                        off: int)
    requires Rep(disk, t, next) && Ok(t, lo, hi, d, order, least) && off in Offsets(t)
    ensures off in disk && Rising(disk[off].keys)
    decreases t
  {
    hide Fraction, Rising;
    if off != t.off {
      var i :| 0 <= i < |t.kids| && off in Offsets(t.kids[i]);
      assert Rep(disk, t.kids[i], NextOf(t.kids, i, next));
      NodeKeysRise(disk, t.kids[i], NextOf(t.kids, i, next), LoAt(t.keys, i, lo), HiAt(t.keys, i, hi),
                   d - 1, order, MinFill(d - 1, order), off);
    }
  }

  // ---------- entries ----------

  ghost function Entries(t: Tree): seq<Entry>
    decreases t
  {
    match t
    case Leaf(_, keys, vals) =>
      if |keys| == |vals| then Pairs(keys, vals) else []
    case Inner(_, _, kids) => Flat(kids)
  }

  ghost function Pairs(keys: seq<Key>, vals: seq<int>): seq<Entry>
    requires |keys| == |vals|
  {
    seq(|keys|, i requires 0 <= i < |keys| => (keys[i], vals[i]))
  }

  ghost function Flat(kids: seq<Tree>): seq<Entry>
    decreases kids
  {
    if kids == [] then [] else Entries(kids[0]) + Flat(kids[1..])
  }

  lemma {:induction false} FlatAppend(a: seq<Tree>, b: seq<Tree>)
    ensures Flat(a + b) == Flat(a) + Flat(b)
    decreases |a|
  {
    if a == [] {
      assert a + b == b;
    } else {
      assert (a + b)[1..] == a[1..] + b;
      FlatAppend(a[1..], b);
    }
  }

  lemma FlatOne(t: Tree)
    ensures Flat([t]) == Entries(t)
  {
    assert [t][1..] == [];
  }

  /** The entries around subtree `i`. */
  lemma FlatAround(kids: seq<Tree>, i: nat)
    requires i < |kids|
    ensures Flat(kids) == Flat(kids[..i]) + Entries(kids[i]) + Flat(kids[i + 1..])
  {
    assert kids == kids[..i] + kids[i..];
    FlatAppend(kids[..i], kids[i..]);
    assert kids[i..][1..] == kids[i + 1..];
  }

  ghost predicate EntriesIn(es: seq<Entry>, lo: real, hi: real) {
    && (forall i | 0 <= i < |es| :: lo < Fraction(es[i].0) <= hi)
    && (forall i, j | 0 <= i < j < |es| :: Fraction(es[i].0) < Fraction(es[j].0))
  }

  lemma EntriesInJoin(a: seq<Entry>, b: seq<Entry>, lo: real, mid: real, hi: real)
    requires EntriesIn(a, lo, mid) && lo <= mid <= hi && EntriesIn(b, mid, hi)
    ensures EntriesIn(a + b, lo, hi)
  {
  }

  /** What the invariant says about subtree `i`. */
  lemma KidOk(t: Tree, lo: real, hi: real, d: nat, order: nat, least: int, i: nat)
    requires t.Inner? && Ok(t, lo, hi, d, order, least) && lo <= hi && i < |t.kids|
    ensures d > 0 && |t.kids| == |t.keys| + 1
    ensures Ok(t.kids[i], LoAt(t.keys, i, lo), HiAt(t.keys, i, hi), d - 1, order, MinFill(d - 1, order))
    ensures lo <= LoAt(t.keys, i, lo) <= HiAt(t.keys, i, hi) <= hi
    ensures i > 0 ==> LoAt(t.keys, i, lo) == HiAt(t.keys, i - 1, hi)
  {
  }

  /** The entries of a tree are strictly ascending and within its bounds. */
  lemma {:induction false} EntriesRise(t: Tree, lo: real, hi: real, d: nat, order: nat, least: int)
    requires Ok(t, lo, hi, d, order, least) && lo <= hi
    ensures EntriesIn(Entries(t), lo, hi)
    decreases t, 1
  {
    if t.Inner? {
      FlatRises(t, lo, hi, d, order, least, |t.kids|);
      assert t.kids[..|t.kids|] == t.kids;
    }
  }

  lemma {:induction false} FlatRises(t: Tree, lo: real, hi: real, d: nat, order: nat, least: int, n: nat)
    requires t.Inner? && Ok(t, lo, hi, d, order, least) && lo <= hi && n <= |t.kids|
    ensures EntriesIn(Flat(t.kids[..n]), lo, if n == 0 then lo else HiAt(t.keys, n - 1, hi))
    decreases t, 0, n
  {
    hide Ok, LoAt, HiAt, EntriesIn, Flat, Entries;
    if n == 0 {
      NoEntries(t.kids[..0], lo);
    } else {
      FlatRises(t, lo, hi, d, order, least, n - 1);
      KidOk(t, lo, hi, d, order, least, n - 1);
      var kid := t.kids[n - 1];
      var kidLo, kidHi := LoAt(t.keys, n - 1, lo), HiAt(t.keys, n - 1, hi);
      EntriesRise(kid, kidLo, kidHi, d - 1, order, MinFill(d - 1, order));
      assert t.kids[..n] == t.kids[..n - 1] + [kid];
      FlatAppend(t.kids[..n - 1], [kid]);
      FlatOne(kid);
      EntriesInJoin(Flat(t.kids[..n - 1]), Entries(kid), lo, if n == 1 then lo else kidLo, kidHi);
    }
  }

  lemma NoEntries(kids: seq<Tree>, lo: real)
    requires kids == []
    ensures EntriesIn(Flat(kids), lo, lo)
  {
  }

  /** The entries from subtree `n` on. */
  lemma {:induction false} FlatRisesFrom(t: Tree, lo: real, hi: real, d: nat, order: nat, least: int, n: nat)
    requires t.Inner? && Ok(t, lo, hi, d, order, least) && lo <= hi && n <= |t.kids|
    ensures EntriesIn(Flat(t.kids[n..]), if n == 0 then lo else HiAt(t.keys, n - 1, hi), hi)
    decreases |t.kids| - n
  {
    hide Ok, LoAt, HiAt, EntriesIn, Flat, Entries;
    if n == |t.kids| {
      NoEntriesAbove(t, lo, hi, d, order, least);
    } else {
      FlatRisesFrom(t, lo, hi, d, order, least, n + 1);
      KidOk(t, lo, hi, d, order, least, n);
      var kid := t.kids[n];
      var kidLo, kidHi := LoAt(t.keys, n, lo), HiAt(t.keys, n, hi);
      EntriesRise(kid, kidLo, kidHi, d - 1, order, MinFill(d - 1, order));
      assert t.kids[n..] == [kid] + t.kids[n + 1..];
      FlatAppend([kid], t.kids[n + 1..]);
      FlatOne(kid);
      EntriesInJoin(Entries(kid), Flat(t.kids[n + 1..]), kidLo, kidHi, hi);
      EntriesInWider(Flat(t.kids[n..]), kidLo, hi, if n == 0 then lo else HiAt(t.keys, n - 1, hi), hi);
    }
  }

  lemma EntriesInWider(es: seq<Entry>, lo: real, hi: real, lo': real, hi': real)
    requires EntriesIn(es, lo, hi) && lo' <= lo && hi <= hi'
    ensures EntriesIn(es, lo', hi')
  {
  }

  lemma NoEntriesAbove(t: Tree, lo: real, hi: real, d: nat, order: nat, least: int)
    requires t.Inner? && Ok(t, lo, hi, d, order, least)
    ensures |t.kids| > 0
    ensures EntriesIn(Flat(t.kids[|t.kids|..]), HiAt(t.keys, |t.kids| - 1, hi), hi)
  {
  }

  // ---------- inserting and removing entries ----------

  ghost predicate Has(es: seq<Entry>, k: Key) {
    exists i :: 0 <= i < |es| && es[i].0 == k
  }

  /** A new entry, in its place. */
  ghost function Put(es: seq<Entry>, k: Key, p: int): seq<Entry> {
    if es == [] || Fraction(k) < Fraction(es[0].0) then [(k, p)] + es
    else [es[0]] + Put(es[1..], k, p)
  }

  ghost function Replace(es: seq<Entry>, k: Key, p: int): seq<Entry> {
    seq(|es|, i requires 0 <= i < |es| => if es[i].0 == k then (k, p) else es[i])
  }

  ghost function Del(es: seq<Entry>, k: Key): seq<Entry> {
    if es == [] then [] else (if es[0].0 == k then [] else [es[0]]) + Del(es[1..], k)
  }

  ghost predicate Below(es: seq<Entry>, k: Key) {
    forall i | 0 <= i < |es| :: Fraction(es[i].0) < Fraction(k)
  }

  ghost predicate Above(es: seq<Entry>, k: Key) {
    forall i | 0 <= i < |es| :: Fraction(k) < Fraction(es[i].0)
  }

  lemma {:induction false} PutAfter(a: seq<Entry>, m: seq<Entry>, k: Key, p: int)
    requires Below(a, k)
    ensures Put(a + m, k, p) == a + Put(m, k, p)
    decreases |a|
  {
    if a == [] {
      assert a + m == m;
    } else {
      PutAfter(a[1..], m, k, p);
      assert (a + m)[1..] == a[1..] + m;
    }
  }

  lemma {:induction false} PutBefore(m: seq<Entry>, b: seq<Entry>, k: Key, p: int)
    requires Above(b, k)
    ensures Put(m + b, k, p) == Put(m, k, p) + b
    decreases |m|
  {
    if m == [] {
      assert m + b == b;
    } else {
      PutBefore(m[1..], b, k, p);
      assert (m + b)[1..] == m[1..] + b;
      assert [(k, p)] + (m + b) == [(k, p)] + m + b;
    }
  }

  lemma PutAround(a: seq<Entry>, m: seq<Entry>, b: seq<Entry>, k: Key, p: int)
    requires Below(a, k) && Above(b, k)
    ensures Put(a + m + b, k, p) == a + Put(m, k, p) + b
  {
    hide Put;
    PutBefore(a + m, b, k, p);
    PutAfter(a, m, k, p);
  }

  lemma ReplaceAround(a: seq<Entry>, m: seq<Entry>, b: seq<Entry>, k: Key, p: int)
    requires Below(a, k) && Above(b, k)
    ensures Replace(a + m + b, k, p) == a + Replace(m, k, p) + b
  {
  }

  lemma {:induction false} DelAppend(a: seq<Entry>, b: seq<Entry>, k: Key)
    ensures Del(a + b, k) == Del(a, k) + Del(b, k)
    decreases |a|
  {
    if a == [] {
      assert a + b == b;
    } else {
      DelAppend(a[1..], b, k);
      assert (a + b)[1..] == a[1..] + b;
    }
  }

  lemma DelAround(a: seq<Entry>, m: seq<Entry>, b: seq<Entry>, k: Key)
    requires Below(a, k) && Above(b, k)
    ensures Del(a + m + b, k) == a + Del(m, k) + b
  {
    hide Del;
    DelAppend(a + m, b, k);
    DelAppend(a, m, k);
    DelNothing(a, k);
    DelNothing(b, k);
  }

  lemma {:induction false} DelNothing(es: seq<Entry>, k: Key)
    requires !Has(es, k) || Above(es, k)
    ensures Del(es, k) == es
  {
    if es != [] {
      DelNothing(es[1..], k);
    }
  }

  lemma HasAround(a: seq<Entry>, m: seq<Entry>, b: seq<Entry>, k: Key)
    requires Below(a, k) && Above(b, k)
    ensures Has(a + m + b, k) <==> Has(m, k)
  {
    if i :| 0 <= i < |m| && m[i].0 == k {
      assert (a + m + b)[|a| + i].0 == k;
    }
  }

  // ---------- the entries as a map ----------

  ghost function Dict(es: seq<Entry>): map<Key, int> {
    if es == [] then map[] else Dict(es[1..])[es[0].0 := es[0].1]
  }

  lemma {:induction false} DictHas(es: seq<Entry>, k: Key)
    ensures k in Dict(es) <==> Has(es, k)
  {
    if es != [] {
      DictHas(es[1..], k);
      if es[0].0 != k && Has(es, k) {
        var i :| 0 <= i < |es| && es[i].0 == k;
        assert es[1..][i - 1].0 == k;
      }
    }
  }

  lemma {:induction false} DictAt(es: seq<Entry>, i: nat)
    requires i < |es| && EntriesIn(es, -1.0, 2.0)
    ensures es[i].0 in Dict(es) && Dict(es)[es[i].0] == es[i].1
  {
    if i > 0 {
      DictAt(es[1..], i - 1);
      assert Fraction(es[0].0) < Fraction(es[i].0);
    }
  }

  lemma {:induction false} DictPut(es: seq<Entry>, k: Key, p: int)
    requires !Has(es, k)
    ensures Dict(Put(es, k, p)) == Dict(es)[k := p] && |Put(es, k, p)| == |es| + 1
  {
    hide Fraction, NulFree;
    if es != [] && Fraction(k) >= Fraction(es[0].0) {
      assert !Has(es[1..], k);
      DictPut(es[1..], k, p);
      assert Put(es, k, p)[1..] == Put(es[1..], k, p);
      assert es[0].0 != k;
    } else {
      assert Put(es, k, p)[1..] == es;
    }
  }

  lemma {:induction false} DictReplace(es: seq<Entry>, k: Key, p: int)
    ensures Dict(Replace(es, k, p)) == if Has(es, k) then Dict(es)[k := p] else Dict(es)
    ensures |Replace(es, k, p)| == |es|
  {
    if es != [] {
      DictReplace(es[1..], k, p);
      assert Replace(es, k, p)[1..] == Replace(es[1..], k, p);
      DictHas(es, k);
      DictHas(es[1..], k);
    }
  }

  lemma {:induction false} DictDel(es: seq<Entry>, k: Key)
    requires forall i, j | 0 <= i < j < |es| :: Fraction(es[i].0) < Fraction(es[j].0)
    ensures Dict(Del(es, k)) == Dict(es) - {k}
    ensures |Del(es, k)| == if Has(es, k) then |es| - 1 else |es|
  {
    hide Fraction, NulFree;
    if es != [] {
      DictDel(es[1..], k);
      DictHas(es[1..], k);
      DictHas(es, k);
      if es[0].0 == k {
        forall i | 1 <= i < |es|
          ensures es[i].0 != k
        {
          assert Fraction(es[0].0) < Fraction(es[i].0);
        }
        assert !Has(es[1..], k);
        DelNothing(es[1..], k);
        assert Del(es, k) == es[1..];
      } else {
        assert Del(es, k)[1..] == Del(es[1..], k);
      }
    }
  }

  /** Strictly ascending keys: every entry counts once. */
  lemma {:induction false} DictSize(es: seq<Entry>)
    requires EntriesIn(es, -1.0, 2.0)
    ensures |Dict(es)| == |es|
  {
    hide Fraction, NulFree;
    if es != [] {
      DictSize(es[1..]);
      DictHas(es[1..], es[0].0);
      assert forall i | 1 <= i < |es| :: es[i].0 != es[0].0;
    }
  }

  // ---------- splicing subtrees ----------

  /** Separators and subtrees with those in [i, j) replaced. */
  ghost function SpliceKeys(keys: seq<Key>, i: nat, j: nat, mkeys: seq<Key>): seq<Key>
    requires i < j <= |keys| + 1
  {
    keys[..i] + mkeys + keys[j - 1..]
  }

  ghost function SpliceKids(kids: seq<Tree>, i: nat, j: nat, mkids: seq<Tree>): seq<Tree>
    requires i < j <= |kids|
  {
    kids[..i] + mkids + kids[j..]
  }

  lemma SpliceOk(keys: seq<Key>, kids: seq<Tree>, lo: real, hi: real, d: nat, order: nat,
                 i: nat, j: nat, mkeys: seq<Key>, mkids: seq<Tree>)
    requires KidsOk(keys, kids, lo, hi, d, order) && i < j <= |kids|
    requires KidsOk(mkeys, mkids, LoAt(keys, i, lo), HiAt(keys, j - 1, hi), d, order)
    ensures KidsOk(SpliceKeys(keys, i, j, mkeys), SpliceKids(kids, i, j, mkids), lo, hi, d, order)
  {
    hide Fraction, NulFree, LoAt, HiAt, Rising, Ok, MinFill;
    var keys', kids' := SpliceKeys(keys, i, j, mkeys), SpliceKids(kids, i, j, mkids);
    SpliceRising(keys, lo, hi, i, j, mkeys);
    forall n | 0 <= n < |kids'|
      ensures Ok(kids'[n], LoAt(keys', n, lo), HiAt(keys', n, hi), d, order, MinFill(d, order))
    {
      var m := Source(i, j, |mkids|, n);
      SpliceBounds(keys, lo, hi, i, j, mkeys, n);
      if i <= n < i + |mkids| {
        assert kids'[n] == mkids[m];
      } else {
        assert kids'[n] == kids[m];
      }
    }
  }

  /** Where subtree `n` of a splice comes from. */
  ghost function Source(i: nat, j: nat, size: nat, n: nat): (m: int) {
    if n < i then n else if n < i + size then n - i else n - size - i + j
  }

  lemma SpliceBounds(keys: seq<Key>, lo: real, hi: real, i: nat, j: nat, mkeys: seq<Key>, n: nat)
    requires i < j <= |keys| + 1 && n <= |SpliceKeys(keys, i, j, mkeys)|
    ensures var (keys', m) := (SpliceKeys(keys, i, j, mkeys), Source(i, j, |mkeys| + 1, n));
            if i <= n < i + |mkeys| + 1 then
              && LoAt(keys', n, lo) == LoAt(mkeys, m, LoAt(keys, i, lo))
              && HiAt(keys', n, hi) == HiAt(mkeys, m, HiAt(keys, j - 1, hi))
            else
              LoAt(keys', n, lo) == LoAt(keys, m, lo) && HiAt(keys', n, hi) == HiAt(keys, m, hi)
  {
    hide Fraction, NulFree;
  }

  lemma SpliceRising(keys: seq<Key>, lo: real, hi: real, i: nat, j: nat, mkeys: seq<Key>)
    requires Rising(keys) && forall n | 0 <= n < |keys| :: lo < Fraction(keys[n]) < hi
    requires i < j <= |keys| + 1
    requires Rising(mkeys) && forall n | 0 <= n < |mkeys| ::
               LoAt(keys, i, lo) < Fraction(mkeys[n]) < HiAt(keys, j - 1, hi)
    ensures Rising(SpliceKeys(keys, i, j, mkeys))
    ensures forall n | 0 <= n < |SpliceKeys(keys, i, j, mkeys)| :: lo < Fraction(SpliceKeys(keys, i, j, mkeys)[n]) < hi
  {
    hide Fraction, NulFree;
  }

  lemma SpliceFlat(kids: seq<Tree>, i: nat, j: nat, mkids: seq<Tree>)
    requires i < j <= |kids|
    ensures Flat(SpliceKids(kids, i, j, mkids)) == Flat(kids[..i]) + Flat(mkids) + Flat(kids[j..])
  {
    FlatAppend(kids[..i] + mkids, kids[j..]);
    FlatAppend(kids[..i], mkids);
  }

  lemma SpliceRep(disk: Disk, disk': Disk, kids: seq<Tree>, next: int, i: nat, j: nat, mkids: seq<Tree>)
    requires KidsRep(disk, kids, next) && i < j <= |kids| && mkids != []
    requires KidsRep(disk', mkids, NextOf(kids, j - 1, next))
    requires First(mkids[0]) == First(kids[i])
    requires forall n | 0 <= n < |kids| && !(i <= n < j) ::
               Offsets(kids[n]) !! AllOffsets(mkids)
               && forall o <- Offsets(kids[n]) :: o in disk && o in disk' && disk'[o] == disk[o]
    ensures KidsRep(disk', SpliceKids(kids, i, j, mkids), next)
  {
    hide Fraction, NulFree, Rep, First, Offsets, NextOf, AllOffsets;
    var kids' := SpliceKids(kids, i, j, mkids);
    forall n | 0 <= n < |kids'|
      ensures Rep(disk', kids'[n], NextOf(kids', n, next))
    {
      var m := Source(i, j, |mkids|, n);
      SpliceNext(kids, next, i, j, mkids, n);
      if i <= n < i + |mkids| {
        assert kids'[n] == mkids[m];
      } else {
        assert kids'[n] == kids[m];
        RepFrame(disk, disk', kids[m], NextOf(kids, m, next));
      }
    }
    forall n, m | 0 <= n < m < |kids'|
      ensures Offsets(kids'[n]) !! Offsets(kids'[m])
    {
      SpliceApart(kids, i, j, mkids, n, m);
    }
  }

  lemma SpliceNext(kids: seq<Tree>, next: int, i: nat, j: nat, mkids: seq<Tree>, n: nat)
    requires i < j <= |kids| && mkids != [] && First(mkids[0]) == First(kids[i]) && n < |SpliceKids(kids, i, j, mkids)|
    ensures var (kids', m) := (SpliceKids(kids, i, j, mkids), Source(i, j, |mkids|, n));
            NextOf(kids', n, next) == if i <= n < i + |mkids| then NextOf(mkids, m, NextOf(kids, j - 1, next))
                                      else NextOf(kids, m, next)
  {
    hide First;
  }

  lemma SpliceApart(kids: seq<Tree>, i: nat, j: nat, mkids: seq<Tree>, n: nat, m: nat)
    requires i < j <= |kids| && n < m < |SpliceKids(kids, i, j, mkids)|
    requires forall n, m | 0 <= n < m < |kids| :: Offsets(kids[n]) !! Offsets(kids[m])
    requires forall n, m | 0 <= n < m < |mkids| :: Offsets(mkids[n]) !! Offsets(mkids[m])
    requires forall n | 0 <= n < |kids| && !(i <= n < j) :: Offsets(kids[n]) !! AllOffsets(mkids)
    ensures Offsets(SpliceKids(kids, i, j, mkids)[n]) !! Offsets(SpliceKids(kids, i, j, mkids)[m])
  {
    if i <= n < i + |mkids| <= m {
      var p := m - |mkids| - i + j;
      assert Offsets(mkids[n - i]) <= AllOffsets(mkids);
      assert Offsets(kids[p]) !! AllOffsets(mkids);
    } else if n < i <= m < i + |mkids| {
      assert Offsets(mkids[m - i]) <= AllOffsets(mkids);
      assert Offsets(kids[n]) !! AllOffsets(mkids);
    }
  }

  // ---------- cutting and joining ----------

  lemma LeafCut(keys: seq<Key>, vals: seq<int>, lo: real, hi: real, n: nat)
    requires LeafOk(keys, vals, lo, hi) && 0 < n < |keys|
    ensures LeafOk(keys[..n], vals[..n], lo, Fraction(keys[n - 1]))
    ensures LeafOk(keys[n..], vals[n..], Fraction(keys[n - 1]), hi)
    ensures lo < Fraction(keys[n - 1]) < hi
    ensures Pairs(keys, vals) == Pairs(keys[..n], vals[..n]) + Pairs(keys[n..], vals[n..])
  {
    assert Fraction(keys[n - 1]) < Fraction(keys[n]);
  }

  lemma LeafJoin(ka: seq<Key>, va: seq<int>, kb: seq<Key>, vb: seq<int>, lo: real, mid: real, hi: real)
    requires LeafOk(ka, va, lo, mid) && LeafOk(kb, vb, mid, hi) && lo <= mid <= hi
    ensures LeafOk(ka + kb, va + vb, lo, hi)
    ensures Pairs(ka + kb, va + vb) == Pairs(ka, va) + Pairs(kb, vb)
  {
  }

  lemma KidsCut(keys: seq<Key>, kids: seq<Tree>, lo: real, hi: real, d: nat, order: nat, n: nat)
    requires KidsOk(keys, kids, lo, hi, d, order) && n < |keys|
    ensures KidsOk(keys[..n], kids[..n + 1], lo, Fraction(keys[n]), d, order)
    ensures KidsOk(keys[n + 1..], kids[n + 1..], Fraction(keys[n]), hi, d, order)
    ensures lo < Fraction(keys[n]) < hi
    ensures Flat(kids) == Flat(kids[..n + 1]) + Flat(kids[n + 1..])
  {
    KidsCutLeft(keys, kids, lo, hi, d, order, n, keys[..n], kids[..n + 1]);
    KidsCutRight(keys, kids, lo, hi, d, order, n, keys[n + 1..], kids[n + 1..]);
    assert kids == kids[..n + 1] + kids[n + 1..];
    FlatAppend(kids[..n + 1], kids[n + 1..]);
  }

  lemma KidsCutLeft(keys: seq<Key>, kids: seq<Tree>, lo: real, hi: real, d: nat, order: nat, n: nat,
                    ka: seq<Key>, a: seq<Tree>)
    requires KidsOk(keys, kids, lo, hi, d, order) && n < |keys|
    requires ka == keys[..n] && a == kids[..n + 1]
    ensures KidsOk(ka, a, lo, Fraction(keys[n]), d, order)
  {
    forall i | 0 <= i < |a|
      ensures Ok(a[i], LoAt(ka, i, lo), HiAt(ka, i, Fraction(keys[n])), d, order, MinFill(d, order))
    {
      assert Ok(kids[i], LoAt(keys, i, lo), HiAt(keys, i, hi), d, order, MinFill(d, order));
    }
  }

  lemma KidsCutRight(keys: seq<Key>, kids: seq<Tree>, lo: real, hi: real, d: nat, order: nat, n: nat,
                     kb: seq<Key>, b: seq<Tree>)
    requires KidsOk(keys, kids, lo, hi, d, order) && n < |keys|
    requires kb == keys[n + 1..] && b == kids[n + 1..]
    ensures KidsOk(kb, b, Fraction(keys[n]), hi, d, order)
  {
    forall i | 0 <= i < |b|
      ensures Ok(b[i], LoAt(kb, i, Fraction(keys[n])), HiAt(kb, i, hi), d, order, MinFill(d, order))
    {
      var j := i + n + 1;
      assert Ok(kids[j], LoAt(keys, j, lo), HiAt(keys, j, hi), d, order, MinFill(d, order));
    }
  }

  lemma KidsJoin(ka: seq<Key>, a: seq<Tree>, s: Key, kb: seq<Key>, b: seq<Tree>,
                 lo: real, hi: real, d: nat, order: nat)
    requires KidsOk(ka, a, lo, Fraction(s), d, order) && KidsOk(kb, b, Fraction(s), hi, d, order)
    requires lo < Fraction(s) < hi
    ensures KidsOk(ka + [s] + kb, a + b, lo, hi, d, order)
    ensures Flat(a + b) == Flat(a) + Flat(b)
  {
    var keys, kids := ka + [s] + kb, a + b;
    KeysJoin(ka, s, kb, lo, hi);
    hide Rising;
    forall i | 0 <= i < |kids|
      ensures Ok(kids[i], LoAt(keys, i, lo), HiAt(keys, i, hi), d, order, MinFill(d, order))
    {
      if i < |a| {
        assert Ok(a[i], LoAt(ka, i, lo), HiAt(ka, i, Fraction(s)), d, order, MinFill(d, order));
      } else {
        var j := i - |a|;
        assert Ok(b[j], LoAt(kb, j, Fraction(s)), HiAt(kb, j, hi), d, order, MinFill(d, order));
      }
    }
    FlatAppend(a, b);
  }

  lemma KeysJoin(ka: seq<Key>, s: Key, kb: seq<Key>, lo: real, hi: real)
    requires Rising(ka) && Rising(kb) && lo < Fraction(s) < hi
    requires forall i | 0 <= i < |ka| :: lo < Fraction(ka[i]) < Fraction(s)
    requires forall i | 0 <= i < |kb| :: Fraction(s) < Fraction(kb[i]) < hi
    ensures Rising(ka + [s] + kb)
    ensures forall i | 0 <= i < |ka + [s] + kb| :: lo < Fraction((ka + [s] + kb)[i]) < hi
  {
    hide Fraction, NulFree;
  }

  lemma KidsRepCut(disk: Disk, kids: seq<Tree>, next: int, n: nat)
    requires KidsRep(disk, kids, next) && 0 < n < |kids|
    ensures KidsRep(disk, kids[..n], First(kids[n])) && KidsRep(disk, kids[n..], next)
    ensures AllOffsets(kids[..n]) !! AllOffsets(kids[n..])
    ensures AllOffsets(kids) == AllOffsets(kids[..n]) + AllOffsets(kids[n..])
  {
    hide Fraction, NulFree;
    forall i | 0 <= i < n
      ensures Rep(disk, kids[..n][i], NextOf(kids[..n], i, First(kids[n])))
    {
      assert Rep(disk, kids[i], NextOf(kids, i, next));
    }
    forall i | 0 <= i < |kids| - n
      ensures Rep(disk, kids[n..][i], NextOf(kids[n..], i, next))
    {
      assert Rep(disk, kids[i + n], NextOf(kids, i + n, next));
    }
    OffsetsCut(kids, n);
    forall i, j | 0 <= i < n && 0 <= j < |kids| - n
      ensures Offsets(kids[..n][i]) !! Offsets(kids[n..][j])
    {
      assert Offsets(kids[i]) !! Offsets(kids[n + j]);
    }
    OffsetsApart(kids[..n], kids[n..]);
  }

  lemma OffsetsApart(a: seq<Tree>, b: seq<Tree>)
    requires forall i, j | 0 <= i < |a| && 0 <= j < |b| :: Offsets(a[i]) !! Offsets(b[j])
    ensures AllOffsets(a) !! AllOffsets(b)
  {
  }

  lemma OffsetsCut(kids: seq<Tree>, n: nat)
    requires n <= |kids|
    ensures AllOffsets(kids) == AllOffsets(kids[..n]) + AllOffsets(kids[n..])
  {
    forall o | o in AllOffsets(kids)
      ensures o in AllOffsets(kids[..n]) + AllOffsets(kids[n..])
    {
      var i :| 0 <= i < |kids| && o in Offsets(kids[i]);
      if i < n {
        assert kids[..n][i] == kids[i];
      } else {
        assert kids[n..][i - n] == kids[i];
      }
    }
    forall o | o in AllOffsets(kids[..n]) + AllOffsets(kids[n..])
      ensures o in AllOffsets(kids)
    {
      if o in AllOffsets(kids[..n]) {
        var i :| 0 <= i < n && o in Offsets(kids[..n][i]);
        assert kids[..n][i] == kids[i];
      } else {
        var i :| 0 <= i < |kids| - n && o in Offsets(kids[n..][i]);
        assert kids[n..][i] == kids[i + n];
      }
    }
  }

  lemma KidsRepJoin(disk: Disk, a: seq<Tree>, b: seq<Tree>, next: int)
    requires b != [] && KidsRep(disk, a, First(b[0])) && KidsRep(disk, b, next)
    requires AllOffsets(a) !! AllOffsets(b)
    ensures KidsRep(disk, a + b, next)
    ensures AllOffsets(a + b) == AllOffsets(a) + AllOffsets(b)
  {
    hide Fraction, NulFree, Rep, First, Offsets, NextOf, AllOffsets;
    var kids := a + b;
    assert kids[..|a|] == a && kids[|a|..] == b;
    OffsetsCut(kids, |a|);
    forall i | 0 <= i < |kids|
      ensures Rep(disk, kids[i], NextOf(kids, i, next))
    {
      NextInJoin(a, b, next, i);
    }
    forall i, j | 0 <= i < j < |kids|
      ensures Offsets(kids[i]) !! Offsets(kids[j])
    {
      if i < |a| <= j {
        InAll(a, i);
        InAll(b, j - |a|);
      }
    }
  }

  lemma InAll(kids: seq<Tree>, i: nat)
    requires i < |kids|
    ensures Offsets(kids[i]) <= AllOffsets(kids)
  {
  }

  lemma NextInJoin(a: seq<Tree>, b: seq<Tree>, next: int, i: nat)
    requires b != [] && i < |a| + |b|
    ensures NextOf(a + b, i, next) == if i < |a| then NextOf(a, i, First(b[0])) else NextOf(b, i - |a|, next)
  {
    hide First;
  }

  lemma KidsRepFrame(disk: Disk, disk': Disk, kids: seq<Tree>, next: int)
    requires KidsRep(disk, kids, next)
    requires forall o <- AllOffsets(kids) :: o in disk && o in disk' && disk'[o] == disk[o]
    ensures KidsRep(disk', kids, next)
  {
    forall i | 0 <= i < |kids|
      ensures Rep(disk', kids[i], NextOf(kids, i, next))
    {
      assert Rep(disk, kids[i], NextOf(kids, i, next));
      assert Offsets(kids[i]) <= AllOffsets(kids);
      RepFrame(disk, disk', kids[i], NextOf(kids, i, next));
    }
  }
}
