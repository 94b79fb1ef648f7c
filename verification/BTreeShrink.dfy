/** Deletion seen from the whole subtree: what removing a key from a leaf does,
    and what borrowing from or merging with a sibling does to the parent. */
module BTreeShrink {
  import opened ByteOrder
  import opened BTreeShape
  import opened BTreeNode
  import opened BTreeGrow

  // ---------- leaves ----------

  lemma LeafOkWithout(keys: seq<Key>, vals: seq<int>, lo: real, hi: real, i: nat)
    requires LeafOk(keys, vals, lo, hi) && i < |keys|
    ensures LeafOk(keys[..i] + keys[i + 1..], vals[..i] + vals[i + 1..], lo, hi)
    ensures Pairs(keys[..i] + keys[i + 1..], vals[..i] + vals[i + 1..]) == Del(Pairs(keys, vals), keys[i])
  {
    hide Fraction, NulFree;
    var a, b := Pairs(keys[..i], vals[..i]), Pairs(keys[i + 1..], vals[i + 1..]);
    var m := [(keys[i], vals[i])];
    assert Pairs(keys, vals) == a + m + b;
    assert Below(a, keys[i]) && Above(b, keys[i]);
    DelAround(a, m, b, keys[i]);
    assert m[1..] == [] && Del(m, keys[i]) == [];
    assert a + [] + b == a + b;
  }

  /** __removeKey */
  lemma LeafShrinks(disk: Disk, t: Tree, next: int, lo: real, hi: real, order: nat, least: int, k: Key) returns (t': Tree)
    requires t.Leaf? && Rep(disk, t, next) && Ok(t, lo, hi, 0, order, least)
    requires Find(t.keys, k) < |t.keys| && t.keys[Find(t.keys, k)] == k
    ensures Became(disk, disk[t.off := Without(disk[t.off], Find(t.keys, k))], t, t', next, lo, hi, 0, order, least - 1,
                   Del(Entries(t), k))
    ensures |t'.keys| == |t.keys| - 1
  {
    hide Fraction, NulFree, Find;
    var i := Find(t.keys, k);
    LeafOkWithout(t.keys, t.vals, lo, hi, i);
    t' := Leaf(t.off, t.keys[..i] + t.keys[i + 1..], t.vals[..i] + t.vals[i + 1..]);
    hide LeafOk, Pairs, Del, Rising;
    assert (t.vals + [next])[..i] + (t.vals + [next])[i + 1..] == t'.vals + [next];
  }

  // ---------- two siblings ----------

  /** Two neighbouring subtrees with `k` between them. */
  ghost predicate Siblings(disk: Disk, l: Tree, k: Key, r: Tree, next: int, lo: real, hi: real, d: nat, order: nat,
                           leastL: int, leastR: int) {
    && lo < Fraction(k) < hi
    && Ok(l, lo, Fraction(k), d, order, leastL) && Ok(r, Fraction(k), hi, d, order, leastR)
    && Rep(disk, l, First(r)) && Rep(disk, r, next)
    && Offsets(l) !! Offsets(r)
  }

  /** Contents cut in two, `n` keys staying left; between internal nodes one key
      goes up, and a left leaf links to `right`. */
  ghost function LeftPart(m: NodeV, n: nat, right: int): NodeV
    requires n < |m.keys| && |m.children| == |m.keys| + 1
  {
    if m.leaf then NodeV(true, m.keys[..n], m.children[..n] + [right])
    else NodeV(false, m.keys[..n], m.children[..n + 1])
  }

  ghost function RightPart(m: NodeV, n: nat): NodeV
    requires n < |m.keys| && |m.children| == |m.keys| + 1
  {
    var i := if m.leaf then n else n + 1;
    NodeV(m.leaf, m.keys[i..], m.children[i..])
  }

  /** The separator after such a cut. */
  ghost function Between(m: NodeV, n: nat): Key
    requires n < |m.keys| && (m.leaf ==> n > 0)
  {
    if m.leaf then m.keys[n - 1] else m.keys[n]
  }

  lemma {:induction false} BorrowedRightIs(c: NodeV, sep: Key, s: NodeV, right: int)
    requires |c.children| == |c.keys| + 1 && |s.children| == |s.keys| + 1 && c.leaf == s.leaf
    requires s.keys != [] && (s.leaf ==> |s.keys| > 1 && c.children[|c.keys|] == right)
    ensures var m, n := Merged(c, sep, s), |c.keys| + 1;
            && n < |m.keys| && |m.children| == |m.keys| + 1
            && BorrowedRight(c, sep, s) == LeftPart(m, n, right)
            && Without(s, 0) == RightPart(m, n)
            && Between(m, n) == s.keys[0]
  {
    var m, n := Merged(c, sep, s), |c.keys| + 1;
    if c.leaf {
      assert m.keys[n..] == s.keys[1..] && m.keys[..n] == c.keys + [s.keys[0]];
    } else {
      assert m.keys[n + 1..] == s.keys[1..] && m.keys[..n] == c.keys + [sep];
    }
  }

  lemma {:induction false} BorrowedLeftIs(c: NodeV, sep: Key, s: NodeV, right: int)
    requires |c.children| == |c.keys| + 1 && |s.children| == |s.keys| + 1 && c.leaf == s.leaf
    requires |s.keys| > (if s.leaf then 1 else 0) && (s.leaf ==> s.children[|s.keys|] == right)
    ensures var m, n := Merged(s, sep, c), |s.keys| - 1;
            && n < |m.keys| && |m.children| == |m.keys| + 1
            && BorrowedLeft(c, sep, s) == RightPart(m, n)
            && Shortened(s) == LeftPart(m, n, right)
            && Between(m, n) == s.keys[|s.keys| - (if s.leaf then 2 else 1)]
  {
    var m, n := Merged(s, sep, c), |s.keys| - 1;
    if c.leaf {
      assert m.keys[n..] == [s.keys[n]] + c.keys && m.keys[..n] == s.keys[..n];
      assert m.children[n..] == [s.children[n]] + c.children;
    } else {
      assert m.keys[n + 1..] == [sep] + c.keys && m.keys[..n] == s.keys[..n];
      assert m.children[n + 1..] == [s.children[n + 1]] + c.children;
    }
  }

  /** Two sibling leaves as one, of any size. */
  lemma JoinedLeaf(disk: Disk, l: Tree, k: Key, r: Tree, next: int, lo: real, hi: real, order: nat, leastL: int, leastR: int)
    requires Siblings(disk, l, k, r, next, lo, hi, 0, order, leastL, leastR)
    ensures l.Leaf? && r.Leaf? && |l.keys| == |l.vals| && |r.keys| == |r.vals| && l.off != r.off && l.off in disk && r.off in disk
    ensures LeafOk(l.keys + r.keys, l.vals + r.vals, lo, hi)
    ensures Pairs(l.keys + r.keys, l.vals + r.vals) == Entries(l) + Entries(r)
    ensures Merged(disk[l.off], k, disk[r.off]) == NodeV(true, l.keys + r.keys, l.vals + r.vals + [next])
  {
    hide Fraction, NulFree, Rising, MinFill, LeafOk, Pairs;
    assert l.off in Offsets(l) && r.off in Offsets(r);
    LeafIs(l, lo, Fraction(k), order, leastL);
    LeafIs(r, Fraction(k), hi, order, leastR);
    LeafJoin(l.keys, l.vals, r.keys, r.vals, lo, Fraction(k), hi);
    assert (l.vals + [First(r)])[..|l.keys|] == l.vals;
    assert l.vals + (r.vals + [next]) == l.vals + r.vals + [next];
  }

  lemma LeafIs(t: Tree, lo: real, hi: real, order: nat, least: int)
    requires Ok(t, lo, hi, 0, order, least)
    ensures t.Leaf? && LeafOk(t.keys, t.vals, lo, hi) && |t.vals| == |t.keys| && least <= |t.keys| <= order - 1
  {
  }

  /** Two internal siblings as one, of any size. */
  lemma JoinedInner(disk: Disk, l: Tree, k: Key, r: Tree, next: int, lo: real, hi: real, d: nat, order: nat,
                    leastL: int, leastR: int)
    requires Siblings(disk, l, k, r, next, lo, hi, d, order, leastL, leastR) && d > 0
    ensures l.Inner? && r.Inner? && |l.kids| == |l.keys| + 1 && |r.kids| == |r.keys| + 1
    ensures l.off != r.off && l.off in disk && r.off in disk
    ensures KidsOk(l.keys + [k] + r.keys, l.kids + r.kids, lo, hi, d - 1, order)
    ensures Flat(l.kids + r.kids) == Entries(l) + Entries(r)
    ensures KidsRep(disk, l.kids + r.kids, next) && First((l.kids + r.kids)[0]) == First(l)
    ensures l.off !in AllOffsets(l.kids + r.kids) && r.off !in AllOffsets(l.kids + r.kids)
    ensures Offsets(l) + Offsets(r) == {l.off, r.off} + AllOffsets(l.kids + r.kids)
    ensures Merged(disk[l.off], k, disk[r.off]) == NodeV(false, l.keys + [k] + r.keys, Roots(l.kids + r.kids))
  {
    hide Fraction, NulFree, Rising, MinFill, KidsOk, KidsRep, Flat;
    assert l.off in Offsets(l) && r.off in Offsets(r);
    InnerIs(l, lo, Fraction(k), d, order, leastL);
    InnerIs(r, Fraction(k), hi, d, order, leastR);
    hide Ok;
    KidsJoin(l.keys, l.kids, k, r.keys, r.kids, lo, hi, d - 1, order);
    JoinedKids(disk, l, r, next);
    hide AllOffsets, Offsets;
    assert Roots(l.kids + r.kids) == Roots(l.kids) + Roots(r.kids);
  }

  lemma InnerIs(t: Tree, lo: real, hi: real, d: nat, order: nat, least: int)
    requires Ok(t, lo, hi, d, order, least) && d > 0
    ensures t.Inner? && KidsOk(t.keys, t.kids, lo, hi, d - 1, order) && |t.kids| == |t.keys| + 1
    ensures least <= |t.keys| <= order - 1
  {
  }

  lemma JoinedKids(disk: Disk, l: Tree, r: Tree, next: int)
    requires l.Inner? && r.Inner? && Rep(disk, l, First(r)) && Rep(disk, r, next) && Offsets(l) !! Offsets(r)
    ensures KidsRep(disk, l.kids + r.kids, next)
    ensures l.off !in AllOffsets(l.kids + r.kids) && r.off !in AllOffsets(l.kids + r.kids)
    ensures Offsets(l) + Offsets(r) == {l.off, r.off} + AllOffsets(l.kids + r.kids)
  {
    hide KidsRep;
    OffsetsOfInner(l);
    OffsetsOfInner(r);
    KidsRepJoin(disk, l.kids, r.kids, next);
    forall i | 0 <= i < |l.kids|
      ensures l.off !in Offsets(l.kids[i])
    {
    }
  }

  // ---------- merging ----------

  /** __mergeNode: the right sibling goes into the left one, whose offset stays. */
  lemma Fuses(disk: Disk, l: Tree, k: Key, r: Tree, next: int, lo: real, hi: real, d: nat, order: nat,
              leastL: int, leastR: int) returns (m: Tree)
    requires Siblings(disk, l, k, r, next, lo, hi, d, order, leastL, leastR)
    requires MinFill(d, order) <= |l.keys| + |r.keys| + (if d == 0 then 0 else 1) <= order - 1
    ensures l.off in disk && r.off in disk && l.off != r.off && |disk[l.off].children| == |disk[l.off].keys| + 1
    ensures var disk' := disk[l.off := Merged(disk[l.off], k, disk[r.off])] - {r.off};
            && m.off == l.off && First(m) == First(l)
            && Ok(m, lo, hi, d, order, MinFill(d, order)) && Rep(disk', m, next)
            && Entries(m) == Entries(l) + Entries(r)
            && Framed(disk, disk', Offsets(l) + Offsets(r), Offsets(m))
  {
    hide Fraction, NulFree, Rising, MinFill;
    if d == 0 {
      hide LeafOk, Pairs;
      JoinedLeaf(disk, l, k, r, next, lo, hi, order, leastL, leastR);
      m := Leaf(l.off, l.keys + r.keys, l.vals + r.vals);
    } else {
      m := FusesInner(disk, l, k, r, next, lo, hi, d, order, leastL, leastR);
    }
  }

  lemma FusesInner(disk: Disk, l: Tree, k: Key, r: Tree, next: int, lo: real, hi: real, d: nat, order: nat,
                   leastL: int, leastR: int) returns (m: Tree)
    requires Siblings(disk, l, k, r, next, lo, hi, d, order, leastL, leastR) && d > 0
    requires MinFill(d, order) <= |l.keys| + |r.keys| + 1 <= order - 1
    ensures l.off in disk && r.off in disk && l.off != r.off && |disk[l.off].children| == |disk[l.off].keys| + 1
    ensures var disk' := disk[l.off := Merged(disk[l.off], k, disk[r.off])] - {r.off};
            && m.off == l.off && First(m) == First(l)
            && Ok(m, lo, hi, d, order, MinFill(d, order)) && Rep(disk', m, next)
            && Entries(m) == Entries(l) + Entries(r)
            && Framed(disk, disk', Offsets(l) + Offsets(r), Offsets(m))
  {
    hide Fraction, NulFree, Rising, MinFill, KidsOk, Flat, Merged;
    JoinedInner(disk, l, k, r, next, lo, hi, d, order, leastL, leastR);
    var keys, kids := l.keys + [k] + r.keys, l.kids + r.kids;
    m := Inner(l.off, keys, kids);
    var disk' := disk[l.off := Merged(disk[l.off], k, disk[r.off])] - {r.off};
    hide Siblings, Rep;
    KidsOnDisk(disk, kids, next);
    KidsRepFrame(disk, disk', kids, next);
    hide KidsRep;
    InnerIsRep(disk', m, next);
    OffsetsOfInner(m);
  }

  // ---------- borrowing ----------

  /** The siblings `l` and `r` became `l'` and `r'`, with `k'` between them; all
      four are filled and together they hold the same entries. */
  ghost predicate Recut(disk: Disk, disk': Disk, l: Tree, r: Tree, l': Tree, k': Key, r': Tree, next: int, lo: real, hi: real,
                        d: nat, order: nat) {
    && l'.off == l.off && r'.off == r.off && First(l') == First(l)
    && Siblings(disk', l', k', r', next, lo, hi, d, order, MinFill(d, order), MinFill(d, order))
    && Entries(l') + Entries(r') == Entries(l) + Entries(r)
    && Framed(disk, disk', Offsets(l) + Offsets(r), Offsets(l') + Offsets(r'))
  }

  /** Both siblings after keys moved from one to the other: `m` is what they
      hold, cut again so that `n` keys stay left. */
  lemma Recuts(disk: Disk, l: Tree, k: Key, r: Tree, next: int, lo: real, hi: real, d: nat, order: nat,
               leastL: int, leastR: int, n: nat, m: NodeV, disk': Disk) returns (l': Tree, r': Tree)
    requires Siblings(disk, l, k, r, next, lo, hi, d, order, leastL, leastR) && order >= 3
    requires MinFill(d, order) <= n <= order - 1
    requires MinFill(d, order) <= |l.keys| + |r.keys| - n <= order - 1
    requires l.off in disk && r.off in disk && |disk[l.off].children| == |disk[l.off].keys| + 1
    requires m == Merged(disk[l.off], k, disk[r.off])
    requires n < |m.keys| && |m.children| == |m.keys| + 1 && (m.leaf ==> n > 0)
    requires disk' == disk[l.off := LeftPart(m, n, r.off)][r.off := RightPart(m, n)]
    ensures Recut(disk, disk', l, r, l', Between(m, n), r', next, lo, hi, d, order)
  {
    hide *;
    if d == 0 {
      l', r' := RecutsLeaf(disk, l, k, r, next, lo, hi, order, leastL, leastR, n, m, disk');
    } else {
      l', r' := RecutsInner(disk, l, k, r, next, lo, hi, d, order, leastL, leastR, n, m, disk');
    }
  }

  lemma RecutsLeaf(disk: Disk, l: Tree, k: Key, r: Tree, next: int, lo: real, hi: real, order: nat,
                   leastL: int, leastR: int, n: nat, m: NodeV, disk': Disk) returns (l': Tree, r': Tree)
    requires Siblings(disk, l, k, r, next, lo, hi, 0, order, leastL, leastR) && order >= 3
    requires MinFill(0, order) <= n <= order - 1
    requires MinFill(0, order) <= |l.keys| + |r.keys| - n <= order - 1
    requires l.off in disk && r.off in disk && |disk[l.off].children| == |disk[l.off].keys| + 1
    requires m == Merged(disk[l.off], k, disk[r.off])
    requires n < |m.keys| && |m.children| == |m.keys| + 1 && (m.leaf ==> n > 0)
    requires disk' == disk[l.off := LeftPart(m, n, r.off)][r.off := RightPart(m, n)]
    ensures Recut(disk, disk', l, r, l', Between(m, n), r', next, lo, hi, 0, order)
  {
    hide Fraction, NulFree, Rising, LeafOk, Pairs, Merged;
    JoinedLeaf(disk, l, k, r, next, lo, hi, order, leastL, leastR);
    var keys, vals := l.keys + r.keys, l.vals + r.vals;
    LeafCut(keys, vals, lo, hi, n);
    l', r' := Leaf(l.off, keys[..n], vals[..n]), Leaf(r.off, keys[n..], vals[n..]);
    assert (vals + [next])[..n] == vals[..n] && (vals + [next])[n..] == vals[n..] + [next];
  }

  lemma FramedCut(disk: Disk, disk': Disk, l: int, r: int, a: set<int>, b: set<int>)
    requires l in disk && r in disk && a + b <= disk.Keys && disk'.Keys == disk.Keys
    requires forall o <- disk | o != l && o != r :: disk'[o] == disk[o]
    ensures Framed(disk, disk', {l, r} + (a + b), ({l} + a) + ({r} + b))
  {
  }

  lemma RecutsInner(disk: Disk, l: Tree, k: Key, r: Tree, next: int, lo: real, hi: real, d: nat, order: nat,
                    leastL: int, leastR: int, n: nat, m: NodeV, disk': Disk) returns (l': Tree, r': Tree)
    requires Siblings(disk, l, k, r, next, lo, hi, d, order, leastL, leastR) && order >= 3 && d > 0
    requires MinFill(d, order) <= n <= order - 1
    requires MinFill(d, order) <= |l.keys| + |r.keys| - n <= order - 1
    requires l.off in disk && r.off in disk && |disk[l.off].children| == |disk[l.off].keys| + 1
    requires m == Merged(disk[l.off], k, disk[r.off])
    requires n < |m.keys| && |m.children| == |m.keys| + 1 && (m.leaf ==> n > 0)
    requires disk' == disk[l.off := LeftPart(m, n, r.off)][r.off := RightPart(m, n)]
    ensures Recut(disk, disk', l, r, l', Between(m, n), r', next, lo, hi, d, order)
  {
    hide Fraction, NulFree, Rising, KidsOk, Flat, Merged, KidsRep, Framed, Siblings, Ok, Rep, Offsets;
    JoinedInner(disk, l, k, r, next, lo, hi, d, order, leastL, leastR);
    var keys, kids := l.keys + [k] + r.keys, l.kids + r.kids;
    var a, b := kids[..n + 1], kids[n + 1..];
    l', r' := Inner(l.off, keys[..n], a), Inner(r.off, keys[n + 1..], b);
    KidsOnDisk(disk, kids, next);
    KidsCut(keys, kids, lo, hi, d - 1, order, n);
    KidsRepCut(disk, kids, next, n + 1);
    KidsRepFrame(disk, disk', a, First(kids[n + 1]));
    KidsRepFrame(disk, disk', b, next);
    assert Roots(a) == Roots(kids)[..n + 1] && Roots(b) == Roots(kids)[n + 1..];
    OffsetsOfInner(l');
    OffsetsOfInner(r');
    InnerIsRep(disk', l', First(r'));
    InnerIsRep(disk', r', next);
    hide AllOffsets;
    FramedCut(disk, disk', l.off, r.off, AllOffsets(a), AllOffsets(b));
    CutIsOk(l', lo, Fraction(keys[n]), d, order);
    CutIsOk(r', Fraction(keys[n]), hi, d, order);
    AreSiblings(disk', l', keys[n], r', next, lo, hi, d, order);
  }

  lemma CutIsOk(t: Tree, lo: real, hi: real, d: nat, order: nat)
    requires t.Inner? && d > 0 && KidsOk(t.keys, t.kids, lo, hi, d - 1, order)
    requires MinFill(d, order) <= |t.keys| <= order - 1
    ensures Ok(t, lo, hi, d, order, MinFill(d, order))
  {
  }

  lemma AreSiblings(disk: Disk, l: Tree, k: Key, r: Tree, next: int, lo: real, hi: real, d: nat, order: nat)
    requires lo < Fraction(k) < hi
    requires Ok(l, lo, Fraction(k), d, order, MinFill(d, order)) && Ok(r, Fraction(k), hi, d, order, MinFill(d, order))
    requires Rep(disk, l, First(r)) && Rep(disk, r, next) && Offsets(l) !! Offsets(r)
    ensures Siblings(disk, l, k, r, next, lo, hi, d, order, MinFill(d, order), MinFill(d, order))
  {
  }

  // ---------- the parent ----------

  lemma FramedTwice(disk: Disk, disk': Disk, disk'': Disk, used: set<int>, used': set<int>, used'': set<int>)
    requires Framed(disk, disk', used, used') && Framed(disk', disk'', used', used'')
    ensures Framed(disk, disk'', used, used'')
  {
  }

  /** Kid `i` became `c` and may lack a key; next to it is its right sibling. */
  lemma BesideRight(disk: Disk, disk': Disk, t: Tree, next: int, lo: real, hi: real, d: nat, order: nat, least: int,
                    i: nat, c: Tree, es: seq<Entry>)
    requires t.Inner? && Rep(disk, t, next) && Ok(t, lo, hi, d, order, least) && i + 1 < |t.kids| && |t.kids| == |t.keys| + 1
    requires d > 0
    requires Became(disk, disk', t.kids[i], c, NextOf(t.kids, i, next), LoAt(t.keys, i, lo), HiAt(t.keys, i, hi),
                    d - 1, order, MinFill(d - 1, order) - 1, es)
    ensures Siblings(disk', c, t.keys[i], t.kids[i + 1], NextOf(t.kids, i + 1, next), LoAt(t.keys, i, lo), HiAt(t.keys, i + 1, hi),
                     d - 1, order, MinFill(d - 1, order) - 1, MinFill(d - 1, order))
    ensures Framed(disk, disk', AllOffsets(t.kids[i..i + 2]), Offsets(c) + Offsets(t.kids[i + 1]))
    ensures Flat(t.kids[..i]) + es + Flat(t.kids[i + 1..])
              == Flat(t.kids[..i]) + (Entries(c) + Entries(t.kids[i + 1])) + Flat(t.kids[i + 2..])
  {
    hide Fraction, NulFree, MinFill, Entries, Ok, Rep, AllOffsets, Offsets, Framed, Rising;
    BetweenKids(t, lo, hi, d, order, least, i);
    OtherKidKept(disk, disk', t, next, i, c, i + 1);
    PairOffsets(t.kids, i);
    FramedBoth(disk, disk', Offsets(t.kids[i]), Offsets(c), Offsets(t.kids[i + 1]));
    FlatFrom(t.kids, i + 1);
    hide Flat;
  }

  lemma FlatFrom(kids: seq<Tree>, i: nat)
    requires i < |kids|
    ensures Flat(kids[i..]) == Entries(kids[i]) + Flat(kids[i + 1..])
  {
    assert kids[i..][1..] == kids[i + 1..];
  }

  lemma FlatUpTo(kids: seq<Tree>, i: nat)
    requires i < |kids|
    ensures Flat(kids[..i + 1]) == Flat(kids[..i]) + Entries(kids[i])
  {
    assert kids[..i + 1] == kids[..i] + [kids[i]];
    FlatAppend(kids[..i], [kids[i]]);
    FlatOne(kids[i]);
  }

  lemma OtherKidKept(disk: Disk, disk': Disk, t: Tree, next: int, i: nat, c: Tree, j: nat)
    requires t.Inner? && Rep(disk, t, next) && i < |t.kids| && j < |t.kids| && i != j
    requires Framed(disk, disk', Offsets(t.kids[i]), Offsets(c))
    ensures Rep(disk', t.kids[j], NextOf(t.kids, j, next)) && Offsets(c) !! Offsets(t.kids[j])
    ensures Offsets(t.kids[j]) <= disk.Keys && Offsets(t.kids[j]) !! Offsets(t.kids[i])
  {
    KidRep(disk, t, next, j);
    assert Offsets(t.kids[i]) !! Offsets(t.kids[j]);
    hide Rep, Offsets, Framed, KidsRep;
    OffsetsOnDisk(disk, t.kids[j], NextOf(t.kids, j, next));
    OthersKept(disk, disk', Offsets(t.kids[j]), Offsets(t.kids[i]), Offsets(c));
    RepFrame(disk, disk', t.kids[j], NextOf(t.kids, j, next));
  }

  /** Kid `i` became `c` and may lack a key; next to it is its left sibling. */
  lemma BesideLeft(disk: Disk, disk': Disk, t: Tree, next: int, lo: real, hi: real, d: nat, order: nat, least: int,
                   i: nat, c: Tree, es: seq<Entry>)
    requires t.Inner? && Rep(disk, t, next) && Ok(t, lo, hi, d, order, least) && 0 < i < |t.kids| && |t.kids| == |t.keys| + 1
    requires d > 0
    requires Became(disk, disk', t.kids[i], c, NextOf(t.kids, i, next), LoAt(t.keys, i, lo), HiAt(t.keys, i, hi),
                    d - 1, order, MinFill(d - 1, order) - 1, es)
    ensures Siblings(disk', t.kids[i - 1], t.keys[i - 1], c, NextOf(t.kids, i, next), LoAt(t.keys, i - 1, lo), HiAt(t.keys, i, hi),
                     d - 1, order, MinFill(d - 1, order), MinFill(d - 1, order) - 1)
    ensures Framed(disk, disk', AllOffsets(t.kids[i - 1..i + 1]), Offsets(t.kids[i - 1]) + Offsets(c))
    ensures Flat(t.kids[..i]) + es + Flat(t.kids[i + 1..])
              == Flat(t.kids[..i - 1]) + (Entries(t.kids[i - 1]) + Entries(c)) + Flat(t.kids[i + 1..])
  {
    hide Fraction, NulFree, MinFill, Entries, Ok, Rep, AllOffsets, Offsets, Framed, Rising;
    BetweenKids(t, lo, hi, d, order, least, i - 1);
    OtherKidKept(disk, disk', t, next, i, c, i - 1);
    PairOffsets(t.kids, i - 1);
    FramedBoth(disk, disk', Offsets(t.kids[i]), Offsets(c), Offsets(t.kids[i - 1]));
    FlatUpTo(t.kids, i - 1);
    hide Flat;
  }

  lemma BetweenKids(t: Tree, lo: real, hi: real, d: nat, order: nat, least: int, i: nat)
    requires t.Inner? && Ok(t, lo, hi, d, order, least) && i + 1 < |t.kids|
    ensures d > 0 && |t.kids| == |t.keys| + 1
    ensures LoAt(t.keys, i, lo) < Fraction(t.keys[i]) < HiAt(t.keys, i + 1, hi)
    ensures HiAt(t.keys, i, hi) == Fraction(t.keys[i]) == LoAt(t.keys, i + 1, lo)
    ensures Ok(t.kids[i], LoAt(t.keys, i, lo), Fraction(t.keys[i]), d - 1, order, MinFill(d - 1, order))
    ensures Ok(t.kids[i + 1], Fraction(t.keys[i]), HiAt(t.keys, i + 1, hi), d - 1, order, MinFill(d - 1, order))
  {
    hide Fraction, NulFree;
    assert Ok(t.kids[i], LoAt(t.keys, i, lo), HiAt(t.keys, i, hi), d - 1, order, MinFill(d - 1, order));
  }

  lemma PairOffsets(kids: seq<Tree>, i: nat)
    requires i + 1 < |kids|
    ensures AllOffsets(kids[i..i + 2]) == Offsets(kids[i]) + Offsets(kids[i + 1])
  {
    var pair := kids[i..i + 2];
    OffsetsCut(pair, 1);
    assert pair[..1] == [kids[i]] && pair[1..] == [kids[i + 1]];
    OffsetsOfOne(kids[i]);
    OffsetsOfOne(kids[i + 1]);
  }

  /** Two kids were merged into `m`, and the parent loses a separator: the later
      pointer is redirected to the merged node, the earlier one removed. */
  lemma PairMerged(disk: Disk, disk': Disk, t: Tree, next: int, lo: real, hi: real, d: nat, order: nat, least: int,
                   i: nat, m: Tree) returns (t': Tree)
    requires t.Inner? && Rep(disk, t, next) && Ok(t, lo, hi, d, order, least) && i + 1 < |t.kids| == |t.keys| + 1 && d > 0
    requires Ok(m, LoAt(t.keys, i, lo), HiAt(t.keys, i + 1, hi), d - 1, order, MinFill(d - 1, order))
    requires Rep(disk', m, NextOf(t.kids, i + 1, next)) && First(m) == First(t.kids[i]) && m.off == t.kids[i].off
    requires Framed(disk, disk', AllOffsets(t.kids[i..i + 2]), Offsets(m))
    ensures t.off in disk && t.off in disk' && disk'[t.off] == disk[t.off] == NodeV(false, t.keys, Roots(t.kids))
    ensures var p := disk[t.off];
            Became(disk, disk'[t.off := Without(p.(children := p.children[i + 1 := m.off]), i)],
                   t, t', next, lo, hi, d, order, least - 1, Flat(t.kids[..i]) + Entries(m) + Flat(t.kids[i + 2..]))
    ensures |t'.keys| == |t.keys| - 1
  {
    hide Fraction, NulFree, MinFill, Rising, Rep, KidsRep, Flat, Find, Ok, KidsOk, AllOffsets, Offsets;
    InnerOk(t, lo, hi, d, order, least);
    KidRep(disk, t, next, i);
    OneKid(disk', m, NextOf(t.kids, i + 1, next), LoAt(t.keys, i, lo), HiAt(t.keys, i + 1, hi), d - 1, order);
    SpliceOk(t.keys, t.kids, lo, hi, d - 1, order, i, i + 2, [], [m]);
    SpliceFlat(t.kids, i, i + 2, [m]);
    KidsReplaced(disk, disk', t, next, i, i + 2, [m]);
    var keys', kids' := SpliceKeys(t.keys, i, i + 2, []), SpliceKids(t.kids, i, i + 2, [m]);
    RootsMerged(t.keys, t.kids, i, m);
    t' := InnerGrows(disk, disk', t, next, lo, hi, d, order, least - 1, keys', kids');
    hide Framed, First;
    BecameKeys(disk, disk'[t.off := NodeV(false, keys', Roots(kids'))], t, t', next, lo, hi, d, order, least - 1, Flat(kids'));
  }

  lemma BecameKeys(disk: Disk, disk': Disk, t: Tree, t': Tree, next: int, lo: real, hi: real, d: nat, order: nat, least: int,
                   es: seq<Entry>)
    requires Became(disk, disk', t, t', next, lo, hi, d, order, least, es)
    ensures t.off in disk' && disk'[t.off].keys == t'.keys && t'.off == t.off
    ensures least <= |t'.keys| <= order - 1 && t'.Leaf? == (d == 0) && disk'[t.off].leaf == t'.Leaf?
    ensures |disk'[t.off].children| == |t'.keys| + 1
  {
  }

  lemma RootsMerged(keys: seq<Key>, kids: seq<Tree>, i: nat, m: Tree)
    requires |kids| == |keys| + 1 && i + 1 < |kids| && m.off == kids[i].off
    ensures Without(NodeV(false, keys, Roots(kids)[i + 1 := m.off]), i)
              == NodeV(false, SpliceKeys(keys, i, i + 2, []), Roots(SpliceKids(kids, i, i + 2, [m])))
  {
    var a := Roots(kids)[i + 1 := m.off];
    assert a[..i] + a[i + 1..] == Roots(SpliceKids(kids, i, i + 2, [m]));
  }

  lemma RootsRecut(keys: seq<Key>, kids: seq<Tree>, i: nat, l: Tree, k: Key, r: Tree)
    requires |kids| == |keys| + 1 && i + 1 < |kids| && l.off == kids[i].off && r.off == kids[i + 1].off && First(l) == First(kids[i])
    ensures SpliceKeys(keys, i, i + 2, [k]) == keys[i := k]
    ensures Roots(SpliceKids(kids, i, i + 2, [l, r])) == Roots(kids)
    ensures First(SpliceKids(kids, i, i + 2, [l, r])[0]) == First(kids[0])
  {
    assert Roots(SpliceKids(kids, i, i + 2, [l, r])) == Roots(kids);
  }

  /** Keys moved between two kids, and `k` is the separator now. */
  lemma PairRecut(disk: Disk, disk': Disk, t: Tree, next: int, lo: real, hi: real, d: nat, order: nat, least: int,
                  i: nat, l: Tree, k: Key, r: Tree) returns (t': Tree)
    requires t.Inner? && Rep(disk, t, next) && Ok(t, lo, hi, d, order, least) && i + 1 < |t.kids| == |t.keys| + 1 && d > 0
    requires Siblings(disk', l, k, r, NextOf(t.kids, i + 1, next), LoAt(t.keys, i, lo), HiAt(t.keys, i + 1, hi),
                      d - 1, order, MinFill(d - 1, order), MinFill(d - 1, order))
    requires First(l) == First(t.kids[i]) && l.off == t.kids[i].off && r.off == t.kids[i + 1].off
    requires Framed(disk, disk', AllOffsets(t.kids[i..i + 2]), Offsets(l) + Offsets(r))
    ensures t.off in disk && t.off in disk' && disk'[t.off] == disk[t.off] == NodeV(false, t.keys, Roots(t.kids))
    ensures Became(disk, disk'[t.off := disk[t.off].(keys := t.keys[i := k])], t, t', next, lo, hi, d, order, least,
                   Flat(t.kids[..i]) + (Entries(l) + Entries(r)) + Flat(t.kids[i + 2..]))
    ensures |t'.keys| == |t.keys|
  {
    hide Fraction, NulFree, MinFill, Rising, Rep, KidsRep, Flat, Find, Ok, KidsOk, AllOffsets, Offsets;
    InnerOk(t, lo, hi, d, order, least);
    KidRep(disk, t, next, i);
    TwoKids(disk', l, k, r, NextOf(t.kids, i + 1, next), LoAt(t.keys, i, lo), HiAt(t.keys, i + 1, hi), d - 1, order);
    SpliceOk(t.keys, t.kids, lo, hi, d - 1, order, i, i + 2, [k], [l, r]);
    SpliceFlat(t.kids, i, i + 2, [l, r]);
    KidsReplaced(disk, disk', t, next, i, i + 2, [l, r]);
    var keys', kids' := SpliceKeys(t.keys, i, i + 2, [k]), SpliceKids(t.kids, i, i + 2, [l, r]);
    RootsRecut(t.keys, t.kids, i, l, k, r);
    hide SpliceKeys, SpliceKids;
    t' := InnerGrows(disk, disk', t, next, lo, hi, d, order, least, keys', kids');
    hide Framed, First;
    BecameKeys(disk, disk'[t.off := NodeV(false, keys', Roots(kids'))], t, t', next, lo, hi, d, order, least, Flat(kids'));
  }

  // ---------- restoring the fill of a kid ----------

  /** Below `t`, kid `i` became `c`, which lacks one key. */
  ghost predicate Lacking(disk: Disk, disk': Disk, t: Tree, next: int, lo: real, hi: real, d: nat, order: nat, least: int,
                          i: nat, c: Tree, es: seq<Entry>) {
    && t.Inner? && Rep(disk, t, next) && Ok(t, lo, hi, d, order, least) && d > 0 && |t.kids| == |t.keys| + 1 && i < |t.kids|
    && Became(disk, disk', t.kids[i], c, NextOf(t.kids, i, next), LoAt(t.keys, i, lo), HiAt(t.keys, i, hi),
              d - 1, order, MinFill(d - 1, order) - 1, es)
    && |c.keys| == MinFill(d - 1, order) - 1
  }

  /** The nodes that take part: the parent, the kid, and its neighbour `j`. */
  lemma Neighbours(disk: Disk, disk': Disk, t: Tree, next: int, lo: real, hi: real, d: nat, order: nat, least: int,
                   i: nat, c: Tree, es: seq<Entry>, j: nat)
    requires Lacking(disk, disk', t, next, lo, hi, d, order, least, i, c, es)
    requires j < |t.kids| && (j == i + 1 || i == j + 1)
    ensures t.off in disk' && disk'[t.off] == NodeV(false, t.keys, Roots(t.kids))
    ensures var s := t.kids[j];
            && s.off in disk' && c.off in disk' && s.off != c.off && s.off != t.off && c.off != t.off && c.off == t.kids[i].off
            && disk'[c.off].keys == c.keys && |disk'[c.off].children| == |c.keys| + 1 && disk'[c.off].leaf == (d == 1)
            && disk'[s.off].keys == s.keys && |disk'[s.off].children| == |s.keys| + 1 && disk'[s.off].leaf == (d == 1)
            && MinFill(d - 1, order) <= |s.keys| <= order - 1 && |c.keys| == MinFill(d - 1, order) - 1
  {
    hide Fraction, NulFree, Framed, Rising, Ok;
    var s := t.kids[j];
    OffIsInside(t.kids[i]);
    OffIsInside(s);
    OffIsInside(c);
    KidRep(disk, t, next, i);
    KidRep(disk, t, next, j);
    KidFill(t, lo, hi, d, order, least, j);
    OtherKidKept(disk, disk', t, next, i, c, j);
    ParentKept(disk, disk', t, next, i, c);
    BecameKeys(disk, disk', t.kids[i], c, NextOf(t.kids, i, next), LoAt(t.keys, i, lo), HiAt(t.keys, i, hi),
               d - 1, order, MinFill(d - 1, order) - 1, es);
    hide Offsets, KidsRep, KidsOk, LeafOk;
  }

  lemma KidFill(t: Tree, lo: real, hi: real, d: nat, order: nat, least: int, j: nat)
    requires t.Inner? && Ok(t, lo, hi, d, order, least) && j < |t.kids|
    ensures d > 0 && MinFill(d - 1, order) <= |t.kids[j].keys| <= order - 1 && t.kids[j].Leaf? == (d == 1)
  {
    assert Ok(t.kids[j], LoAt(t.keys, j, lo), HiAt(t.keys, j, hi), d - 1, order, MinFill(d - 1, order));
  }

  lemma OffIsInside(t: Tree)
    ensures t.off in Offsets(t)
  {
  }

  lemma ParentKept(disk: Disk, disk': Disk, t: Tree, next: int, i: nat, c: Tree)
    requires t.Inner? && Rep(disk, t, next) && i < |t.kids| && Framed(disk, disk', Offsets(t.kids[i]), Offsets(c))
    ensures t.off in disk && t.off in disk' && disk'[t.off] == disk[t.off]
  {
    hide Offsets;
    KidRep(disk, t, next, i);
  }

  lemma LeafLink(disk: Disk, l: Tree, k: Key, r: Tree, next: int, lo: real, hi: real, d: nat, order: nat, leastL: int, leastR: int)
    requires Siblings(disk, l, k, r, next, lo, hi, d, order, leastL, leastR)
    ensures l.off in disk && disk[l.off].keys == l.keys && |disk[l.off].children| == |l.keys| + 1
    ensures r.off in disk && disk[r.off].keys == r.keys && |disk[r.off].children| == |r.keys| + 1
    ensures disk[l.off].leaf == disk[r.off].leaf == (d == 0)
    ensures d == 0 ==> disk[l.off].children[|l.keys|] == r.off
  {
  }

  /** __borrowRight */
  lemma BorrowsRight(disk: Disk, disk': Disk, t: Tree, next: int, lo: real, hi: real, d: nat, order: nat, least: int,
                     i: nat, c: Tree, es: seq<Entry>) returns (t': Tree)
    requires Lacking(disk, disk', t, next, lo, hi, d, order, least, i, c, es) && order >= 3
    requires i + 1 < |t.kids| && |t.kids[i + 1].keys| > MinFill(d - 1, order)
    ensures var s := t.kids[i + 1].off;
            && c.off in disk' && s in disk' && t.off in disk' && |disk'[c.off].children| == |disk'[c.off].keys| + 1
            && disk'[s].keys != [] && |disk'[s].children| == |disk'[s].keys| + 1 && |disk'[t.off].keys| == |t.keys|
            && var (cv, sv, p) := (disk'[c.off], disk'[s], disk'[t.off]);
            Became(disk, disk'[c.off := BorrowedRight(cv, p.keys[i], sv)][s := Without(sv, 0)]
                              [t.off := p.(keys := p.keys[i := sv.keys[0]])],
                   t, t', next, lo, hi, d, order, least, Flat(t.kids[..i]) + es + Flat(t.kids[i + 1..]))
    ensures |t'.keys| == |t.keys|
  {
    hide Fraction, NulFree, Rep, Ok, Flat, Rising, Entries, Framed, Offsets, AllOffsets, Merged, LeftPart, RightPart, Between,
         BorrowedRight, Without, Siblings;
    var r := t.kids[i + 1];
    var n := |c.keys| + 1;
    BesideRight(disk, disk', t, next, lo, hi, d, order, least, i, c, es);
    Neighbours(disk, disk', t, next, lo, hi, d, order, least, i, c, es, i + 1);
    LeafLink(disk', c, t.keys[i], r, NextOf(t.kids, i + 1, next), LoAt(t.keys, i, lo), HiAt(t.keys, i + 1, hi), d - 1, order,
             MinFill(d - 1, order) - 1, MinFill(d - 1, order));
    BorrowedRightIs(disk'[c.off], t.keys[i], disk'[r.off], r.off);
    var m := Merged(disk'[c.off], t.keys[i], disk'[r.off]);
    var disk2 := disk'[c.off := LeftPart(m, n, r.off)][r.off := RightPart(m, n)];
    var l', r' := Recuts(disk', c, t.keys[i], r, NextOf(t.kids, i + 1, next), LoAt(t.keys, i, lo), HiAt(t.keys, i + 1, hi),
                         d - 1, order, MinFill(d - 1, order) - 1, MinFill(d - 1, order), n, m, disk2);
    FramedTwice(disk, disk', disk2, AllOffsets(t.kids[i..i + 2]), Offsets(c) + Offsets(r), Offsets(l') + Offsets(r'));
    t' := PairRecut(disk, disk2, t, next, lo, hi, d, order, least, i, l', Between(m, n), r');
  }

  /** __borrowLeft */
  lemma BorrowsLeft(disk: Disk, disk': Disk, t: Tree, next: int, lo: real, hi: real, d: nat, order: nat, least: int,
                    i: nat, c: Tree, es: seq<Entry>) returns (t': Tree)
    requires Lacking(disk, disk', t, next, lo, hi, d, order, least, i, c, es) && order >= 3
    requires 0 < i && |t.kids[i - 1].keys| > MinFill(d - 1, order)
    ensures var s := t.kids[i - 1].off;
            && c.off in disk' && s in disk' && t.off in disk' && |disk'[c.off].children| == |disk'[c.off].keys| + 1
            && |disk'[s].keys| > 1 && |disk'[s].children| == |disk'[s].keys| + 1 && |disk'[t.off].keys| == |t.keys|
            && var (cv, sv, p) := (disk'[c.off], disk'[s], disk'[t.off]);
            Became(disk, disk'[s := Shortened(sv)][c.off := BorrowedLeft(cv, p.keys[i - 1], sv)]
                              [t.off := p.(keys := p.keys[i - 1 := sv.keys[|sv.keys| - (if sv.leaf then 2 else 1)]])],
                   t, t', next, lo, hi, d, order, least, Flat(t.kids[..i]) + es + Flat(t.kids[i + 1..]))
    ensures |t'.keys| == |t.keys|
  {
    hide Fraction, NulFree, Rep, Ok, Flat, Rising, Entries, Framed, Offsets, AllOffsets, Merged, LeftPart, RightPart, Between,
         BorrowedLeft, Shortened, Siblings;
    var l := t.kids[i - 1];
    var n := |l.keys| - 1;
    BesideLeft(disk, disk', t, next, lo, hi, d, order, least, i, c, es);
    Neighbours(disk, disk', t, next, lo, hi, d, order, least, i, c, es, i - 1);
    LeafLink(disk', l, t.keys[i - 1], c, NextOf(t.kids, i, next), LoAt(t.keys, i - 1, lo), HiAt(t.keys, i, hi), d - 1, order,
             MinFill(d - 1, order), MinFill(d - 1, order) - 1);
    BorrowedLeftIs(disk'[c.off], t.keys[i - 1], disk'[l.off], c.off);
    var m := Merged(disk'[l.off], t.keys[i - 1], disk'[c.off]);
    var disk2 := disk'[l.off := LeftPart(m, n, c.off)][c.off := RightPart(m, n)];
    var l', r' := Recuts(disk', l, t.keys[i - 1], c, NextOf(t.kids, i, next), LoAt(t.keys, i - 1, lo), HiAt(t.keys, i, hi),
                         d - 1, order, MinFill(d - 1, order), MinFill(d - 1, order) - 1, n, m, disk2);
    FramedTwice(disk, disk', disk2, AllOffsets(t.kids[i - 1..i + 1]), Offsets(l) + Offsets(c), Offsets(l') + Offsets(r'));
    t' := PairRecut(disk, disk2, t, next, lo, hi, d, order, least, i - 1, l', Between(m, n), r');
  }

  /** __mergeNode with the right sibling. */
  lemma MergesRight(disk: Disk, disk': Disk, t: Tree, next: int, lo: real, hi: real, d: nat, order: nat, least: int,
                    i: nat, c: Tree, es: seq<Entry>) returns (t': Tree)
    requires Lacking(disk, disk', t, next, lo, hi, d, order, least, i, c, es) && order >= 3
    requires i + 1 < |t.kids| && |t.kids[i + 1].keys| == MinFill(d - 1, order)
    ensures var s := t.kids[i + 1].off;
            && c.off in disk' && s in disk' && t.off in disk' && |disk'[c.off].children| == |disk'[c.off].keys| + 1
            && |disk'[t.off].keys| == |t.keys| && |disk'[t.off].children| == |t.keys| + 1
            && var (cv, sv, p) := (disk'[c.off], disk'[s], disk'[t.off]);
            Became(disk, (disk'[c.off := Merged(cv, p.keys[i], sv)] - {s})
                              [t.off := Without(p.(children := p.children[i + 1 := c.off]), i)],
                   t, t', next, lo, hi, d, order, least - 1, Flat(t.kids[..i]) + es + Flat(t.kids[i + 1..]))
    ensures |t'.keys| == |t.keys| - 1
  {
    hide Fraction, NulFree, Rep, Ok, Flat, Rising, Entries, Framed, Offsets, AllOffsets, Merged, Without, Siblings;
    var r := t.kids[i + 1];
    BesideRight(disk, disk', t, next, lo, hi, d, order, least, i, c, es);
    Neighbours(disk, disk', t, next, lo, hi, d, order, least, i, c, es, i + 1);
    var m := Fuses(disk', c, t.keys[i], r, NextOf(t.kids, i + 1, next), LoAt(t.keys, i, lo), HiAt(t.keys, i + 1, hi),
                   d - 1, order, MinFill(d - 1, order) - 1, MinFill(d - 1, order));
    var disk2 := disk'[c.off := Merged(disk'[c.off], t.keys[i], disk'[r.off])] - {r.off};
    FramedTwice(disk, disk', disk2, AllOffsets(t.kids[i..i + 2]), Offsets(c) + Offsets(r), Offsets(m));
    t' := PairMerged(disk, disk2, t, next, lo, hi, d, order, least, i, m);
  }

  /** __mergeNode with the left sibling. */
  lemma MergesLeft(disk: Disk, disk': Disk, t: Tree, next: int, lo: real, hi: real, d: nat, order: nat, least: int,
                   i: nat, c: Tree, es: seq<Entry>) returns (t': Tree)
    requires Lacking(disk, disk', t, next, lo, hi, d, order, least, i, c, es) && order >= 3
    requires 0 < i && |t.kids[i - 1].keys| == MinFill(d - 1, order)
    ensures var s := t.kids[i - 1].off;
            && c.off in disk' && s in disk' && t.off in disk' && |disk'[s].children| == |disk'[s].keys| + 1
            && |disk'[t.off].keys| == |t.keys| && |disk'[t.off].children| == |t.keys| + 1
            && var (cv, sv, p) := (disk'[c.off], disk'[s], disk'[t.off]);
            Became(disk, (disk'[s := Merged(sv, p.keys[i - 1], cv)] - {c.off})
                              [t.off := Without(p.(children := p.children[i := s]), i - 1)],
                   t, t', next, lo, hi, d, order, least - 1, Flat(t.kids[..i]) + es + Flat(t.kids[i + 1..]))
    ensures |t'.keys| == |t.keys| - 1
  {
    hide Fraction, NulFree, Rep, Ok, Flat, Rising, Entries, Framed, Offsets, AllOffsets, Merged, Without, Siblings;
    var l := t.kids[i - 1];
    BesideLeft(disk, disk', t, next, lo, hi, d, order, least, i, c, es);
    Neighbours(disk, disk', t, next, lo, hi, d, order, least, i, c, es, i - 1);
    var m := Fuses(disk', l, t.keys[i - 1], c, NextOf(t.kids, i, next), LoAt(t.keys, i - 1, lo), HiAt(t.keys, i, hi),
                   d - 1, order, MinFill(d - 1, order), MinFill(d - 1, order) - 1);
    var disk2 := disk'[l.off := Merged(disk'[l.off], t.keys[i - 1], disk'[c.off])] - {c.off};
    FramedTwice(disk, disk', disk2, AllOffsets(t.kids[i - 1..i + 1]), Offsets(l) + Offsets(c), Offsets(m));
    t' := PairMerged(disk, disk2, t, next, lo, hi, d, order, least, i - 1, m);
  }

  /** The least number of keys may be any that the subtree has. */
  lemma BecameFilled(disk: Disk, disk': Disk, t: Tree, t': Tree, next: int, lo: real, hi: real, d: nat, order: nat,
                   least: int, less: int, es: seq<Entry>)
    requires Became(disk, disk', t, t', next, lo, hi, d, order, least, es) && less <= |t'.keys|
    ensures Became(disk, disk', t, t', next, lo, hi, d, order, less, es)
  {
  }

  // ---------- the whole deletion ----------

  /** What deleting `k` from the subtree `t` comes to: exactly the entry of `k`
      goes, the top node may lose one key, and if an internal one did, `merged`
      says so; without an entry of `k` nothing changes. */
  ghost predicate Deleted(disk: Disk, disk': Disk, t: Tree, next: int, lo: real, hi: real, d: nat, order: nat, least: int,
                          k: Key, success: bool, p: int, merged: bool, t': Tree) {
    && (success <==> Has(Entries(t), k))
    && (!success ==> disk' == disk)
    && (success ==>
          && (k, p) in Entries(t)
          && Became(disk, disk', t, t', next, lo, hi, d, order, least - 1, Del(Entries(t), k))
          && (d > 0 && |t'.keys| < |t.keys| ==> merged))
  }

  lemma BecameFramed(disk: Disk, disk': Disk, t: Tree, t': Tree, next: int, lo: real, hi: real, d: nat, order: nat,
                     least: int, es: seq<Entry>)
    requires Became(disk, disk', t, t', next, lo, hi, d, order, least, es)
    ensures Framed(disk, disk', Offsets(t), Offsets(t'))
  {
  }

  /** A kid from which a key went and that is still filled. */
  lemma KidKept(disk: Disk, disk': Disk, t: Tree, next: int, lo: real, hi: real, d: nat, order: nat, least: int,
                i: nat, c: Tree, es: seq<Entry>) returns (t': Tree)
    requires t.Inner? && Rep(disk, t, next) && Ok(t, lo, hi, d, order, least) && i < |t.kids| && d > 0
    requires Became(disk, disk', t.kids[i], c, NextOf(t.kids, i, next), LoAt(t.keys, i, lo), HiAt(t.keys, i, hi),
                    d - 1, order, MinFill(d - 1, order) - 1, es)
    requires |c.keys| >= MinFill(d - 1, order)
    ensures Became(disk, disk', t, t', next, lo, hi, d, order, least - 1, Flat(t.kids[..i]) + es + Flat(t.kids[i + 1..]))
    ensures |t'.keys| == |t.keys|
  {
    hide Fraction, NulFree, MinFill, Flat, Rep, Ok, Became, Framed, Offsets, KidsRep;
    var next', lo', hi' := NextOf(t.kids, i, next), LoAt(t.keys, i, lo), HiAt(t.keys, i, hi);
    var all := Flat(t.kids[..i]) + es + Flat(t.kids[i + 1..]);
    BecameFramed(disk, disk', t.kids[i], c, next', lo', hi', d - 1, order, MinFill(d - 1, order) - 1, es);
    ParentKept(disk, disk', t, next, i, c);
    KidRep(disk, t, next, i);
    BecameFilled(disk, disk', t.kids[i], c, next', lo', hi', d - 1, order, MinFill(d - 1, order) - 1, MinFill(d - 1, order), es);
    t' := KidBecame(disk, disk', t, next, lo, hi, d, order, least, i, c, es);
    BecameKeys(disk, disk', t, t', next, lo, hi, d, order, least, all);
    BecameFilled(disk, disk', t, t', next, lo, hi, d, order, least, least - 1, all);
  }

  /** An internal root without keys gives way to its only kid. */
  lemma Collapses(disk: Disk, disk': Disk, t: Tree, t': Tree, d: nat, order: nat, es: seq<Entry>) returns (kid: Tree)
    requires Became(disk, disk', t, t', 0, LOW, HIGH, d, order, 0, es) && order >= 3 && d > 0 && t'.keys == []
    requires disk.Keys == Offsets(t)
    ensures t'.off in disk' && disk'[t'.off].children == [kid.off] && kid.off in disk'
    ensures Whole(disk' - {t'.off}, kid, d - 1, order, kid.off, First(t), |es|) && Entries(kid) == es
  {
    hide Fraction, NulFree, Rising, Ok, KidsOk, Rep, KidsRep;
    InnerIs(t', LOW, HIGH, d, order, 0);
    kid := t'.kids[0];
    KidRep(disk', t', 0, 0);
    OnlyKidOk(t', d, order);
    assert t'.kids == [kid];
    FlatOne(kid);
    OffsetsOnDisk(disk', kid, 0);
    RepFrame(disk', disk' - {t'.off}, kid, 0);
    OffsetsOfInner(t');
    OffsetsOfOne(kid);
    hide Offsets, AllOffsets;
    assert Roots(t'.kids) == [kid.off];
  }

  lemma OnlyKidOk(t: Tree, d: nat, order: nat)
    requires t.Inner? && Ok(t, LOW, HIGH, d, order, 0) && d > 0 && t.keys == [] && order >= 3
    ensures |t.kids| == 1 && Ok(t.kids[0], LOW, HIGH, d - 1, order, 1)
  {
    assert Ok(t.kids[0], LoAt(t.keys, 0, LOW), HiAt(t.keys, 0, HIGH), d - 1, order, MinFill(d - 1, order));
    OkFilled(t.kids[0], LOW, HIGH, d - 1, order, MinFill(d - 1, order), 1);
  }

  lemma OkFilled(t: Tree, lo: real, hi: real, d: nat, order: nat, least: int, less: int)
    requires Ok(t, lo, hi, d, order, least) && less <= |t.keys|
    ensures Ok(t, lo, hi, d, order, less)
  {
  }

  /** The root kept a key. */
  lemma StaysWhole(disk: Disk, disk': Disk, t: Tree, t': Tree, d: nat, order: nat, es: seq<Entry>)
    requires Became(disk, disk', t, t', 0, LOW, HIGH, d, order, 0, es) && t'.keys != [] && disk.Keys == Offsets(t)
    ensures Whole(disk', t', d, order, t.off, First(t), |es|) && Entries(t') == es
  {
    hide Rep, Entries, LeafOk, KidsOk, Offsets;
  }

  /** A root leaf without keys was the whole tree. */
  lemma Vanishes(disk: Disk, disk': Disk, t: Tree, t': Tree, order: nat, es: seq<Entry>)
    requires Became(disk, disk', t, t', 0, LOW, HIGH, 0, order, 0, es) && t'.keys == [] && disk.Keys == Offsets(t)
    ensures es == [] && disk'.Keys == {t.off}
  {
  }
}
