/** Taking a key out of a search tree of the hash index: the right subtree of
    the removed node is grafted at the rightmost end of its left subtree. */
module HashRemoval {
  import opened DepotSpace
  import opened HashIndex

  /** The rightmost key. */
  ghost function Rightmost(t: Tree): Key
    requires t.Node?
  {
    if t.right.Nil? then t.key else Rightmost(t.right)
  }

  ghost function Grafted(l: Tree, r: Tree): Tree
    requires l.Node?
  {
    if l.right.Nil? then l.(right := r) else l.(right := Grafted(l.right, r))
  }

  /** The two subtrees of a removed node as one. */
  ghost function Joined(l: Tree, r: Tree): Tree {
    if l.Nil? then r else if r.Nil? then l else Grafted(l, r)
  }

  ghost function Cut(h: Ranking, t: Tree, k: Key): Tree {
    if t.Nil? then Nil
    else if t.key == k then Joined(t.left, t.right)
    else if Compare(h, k, t.key) > 0 then t.(left := Cut(h, t.left, k))
    else t.(right := Cut(h, t.right, k))
  }

  /** The subtree whose top is `k`. */
  ghost function Sub(h: Ranking, t: Tree, k: Key): (s: Tree)
    ensures s.Node? ==> s.key == k
  {
    if t.Nil? || t.key == k then t
    else if Compare(h, k, t.key) > 0 then Sub(h, t.left, k)
    else Sub(h, t.right, k)
  }

  // ---------- order ----------

  lemma SmallerThrough(h: Ranking, a: Key, b: Key, c: Key)
    requires Smaller(h, a, b) && Smaller(h, b, c)
    ensures Smaller(h, a, c)
  {
  }

  lemma {:induction false} RightmostIsInside(t: Tree)
    requires t.Node?
    ensures Rightmost(t) in Keys(t)
  {
    if t.right.Node? {
      RightmostIsInside(t.right);
    }
  }

  lemma {:induction false} GraftKeepsOrder(h: Ranking, l: Tree, r: Tree)
    requires l.Node? && Ordered(h, l) && Ordered(h, r)
    requires forall a, b | a in Keys(r) && b in Keys(l) :: Smaller(h, a, b)
    ensures Ordered(h, Grafted(l, r)) && Keys(Grafted(l, r)) == Keys(l) + Keys(r)
  {
    hide Smaller;
    if l.right.Node? {
      GraftKeepsOrder(h, l.right, r);
    }
  }

  /** Every other key stays, and the tree stays ordered. */
  lemma {:induction false} CutKeepsOrder(h: Ranking, t: Tree, k: Key)
    requires Ordered(h, t)
    ensures Ordered(h, Cut(h, t, k)) && Keys(Cut(h, t, k)) == Keys(t) - {k}
  {
    if t.Node? {
      if t.key == k {
        TopIsApart(h, t);
        if t.left.Node? && t.right.Node? {
          forall a, b | a in Keys(t.right) && b in Keys(t.left)
            ensures Smaller(h, a, b)
          {
            SmallerThrough(h, a, k, b);
          }
          hide Smaller;
          GraftKeepsOrder(h, t.left, t.right);
        }
      } else if Compare(h, k, t.key) > 0 {
        SearchStep(h, t, k);
        TopIsApart(h, t);
        CutKeepsOrder(h, t.left, k);
      } else {
        SearchStep(h, t, k);
        TopIsApart(h, t);
        CutKeepsOrder(h, t.right, k);
      }
    }
  }

  /** The parts of an ordered tree share no key. */
  lemma TopIsApart(h: Ranking, t: Tree)
    requires t.Node? && Ordered(h, t)
    ensures t.key !in Keys(t.left) && t.key !in Keys(t.right) && Keys(t.left) !! Keys(t.right)
  {
  }

  lemma {:induction false} SubIsInside(h: Ranking, t: Tree, k: Key)
    requires Ordered(h, t) && k in Keys(t)
    ensures Sub(h, t, k).Node? && Keys(Sub(h, t, k)) <= Keys(t) && Ordered(h, Sub(h, t, k))
  {
    if t.key != k {
      SearchStep(h, t, k);
      if Compare(h, k, t.key) > 0 {
        SubIsInside(h, t.left, k);
      } else {
        SubIsInside(h, t.right, k);
      }
    }
  }

  // ---------- pointers ----------

  /** What removing a node writes at another one: the link to the removed node
      now holds `target`, and the right word of `tail`, if there is a graft, the
      grafted subtree. */
  datatype Surgery = Surgery(link: Link, target: nat, graft: bool, tail: Key, grafted: nat)

  /** The writes that take `k` out of `t`. */
  ghost function SurgeryFor(h: Ranking, at: Places, t: Tree, k: Key, from: Link): Surgery {
    var s := Sub(h, t, k);
    if s.Nil? then Surgery(from, 0, false, k, 0) else
    var both := s.left.Node? && s.right.Node?;
    Surgery(LinkTo(h, t, k, from), Root(at, Joined(s.left, s.right)), both,
            if both then Rightmost(s.left) else k, Root(at, s.right))
  }

  ghost predicate Operated(store: Store, store': Store, at: Places, x: Key, s: Surgery) {
    && x in at && at[x] in store && at[x] in store'
    && store'[at[x]].key == store[at[x]].key
    && store'[at[x]].left == (if s.link == LeftOf(x) then s.target else store[at[x]].left)
    && store'[at[x]].right == (if s.link == RightOf(x) then s.target
                               else if s.graft && s.tail == x then s.grafted else store[at[x]].right)
  }

  /** A tree that neither write concerns. */
  lemma Spared(store: Store, at: Places, store': Store, at': Places, t: Tree, k: Key, s: Surgery)
    requires Linked(store, at, t) && at' == at - {k} && k !in Keys(t)
    requires s.link == FromBucket || s.link.parent !in Keys(t)
    requires s.graft ==> s.tail !in Keys(t)
    requires forall x <- Keys(t) :: Operated(store, store', at, x, s)
    ensures Linked(store', at', t) && Root(at', t) == Root(at, t)
  {
    LinkedFrame(store, at, store', at', t);
  }

  lemma {:induction false} GraftLinked(store: Store, at: Places, store': Store, at': Places, l: Tree, r: Tree, k: Key, s: Surgery)
    requires l.Node? && Linked(store, at, l) && Linked(store, at, r) && at' == at - {k}
    requires k !in Keys(l) && k !in Keys(r) && Keys(l) !! Keys(r)
    requires s.graft && s.tail == Rightmost(l) && s.grafted == Root(at, r)
    requires s.link == FromBucket || (s.link.parent !in Keys(l) && s.link.parent !in Keys(r))
    requires forall x <- Keys(l) + Keys(r) :: Operated(store, store', at, x, s)
    requires OneEach(l)
    ensures Linked(store', at', Grafted(l, r)) && Root(at', Grafted(l, r)) == Root(at, l)
    decreases l
  {
    RightmostIsInside(l);
    assert Operated(store, store', at, l.key, s);
    Spared(store, at, store', at', r, k, s);
    if l.right.Nil? {
      if l.left.Node? {
        Spared(store, at, store', at', l.left, k, s);
      }
    } else {
      RightmostIsInside(l.right);
      Spared(store, at, store', at', l.left, k, s);
      GraftLinked(store, at, store', at', l.right, r, k, s);
    }
  }

  /** No key occurs twice. */
  ghost predicate OneEach(t: Tree) {
    t.Node? ==>
      && t.key !in Keys(t.left) && t.key !in Keys(t.right) && Keys(t.left) !! Keys(t.right)
      && OneEach(t.left) && OneEach(t.right)
  }

  lemma {:induction false} OrderedOneEach(h: Ranking, t: Tree)
    requires Ordered(h, t)
    ensures OneEach(t)
  {
    if t.Node? {
      TopIsApart(h, t);
      OrderedOneEach(h, t.left);
      OrderedOneEach(h, t.right);
    }
  }

  /** Both writes happen inside the subtree a search for `k` enters. */
  lemma {:induction false} SurgeryIsInside(h: Ranking, at: Places, t: Tree, k: Key, from: Link)
    requires Ordered(h, t) && k in Keys(t)
    ensures var s := SurgeryFor(h, at, t, k, from);
            && (if t.key == k then s.link == from else !s.link.FromBucket? && s.link.parent in Keys(t) && s.link.parent != k)
            && (s.graft ==> s.tail in Keys(t) && s.tail != k && Sub(h, t, k).Node? && s.tail in Keys(Sub(h, t, k).left))
  {
    SubIsInside(h, t, k);
    LinkIsInside(h, t, k, from);
    var sub := Sub(h, t, k);
    TopIsApart(h, sub);
    if sub.left.Node? {
      RightmostIsInside(sub.left);
    }
  }

  /** The two writes are at different nodes. */
  lemma {:induction false} WritesApart(h: Ranking, at: Places, t: Tree, k: Key, from: Link)
    requires Ordered(h, t) && k in Keys(t)
    requires from == FromBucket || from.parent !in Keys(t)
    ensures var s := SurgeryFor(h, at, t, k, from);
            s.graft && !s.link.FromBucket? ==> s.tail != s.link.parent
  {
    TopIsApart(h, t);
    if t.key == k {
      SurgeryIsInside(h, at, t, k, from);
    } else {
      SearchStep(h, t, k);
      if Compare(h, k, t.key) > 0 {
        WritesApart(h, at, t.left, k, LeftOf(t.key));
      } else {
        WritesApart(h, at, t.right, k, RightOf(t.key));
      }
    }
  }

  /** After the writes the tree spells out `Cut`, without the removed node. */
  lemma {:induction false} CutLinked(h: Ranking, store: Store, at: Places, t: Tree, store': Store, at': Places, k: Key, from: Link)
    requires Linked(store, at, t) && Ordered(h, t) && k in Keys(t) && at' == at - {k}
    requires from == FromBucket || from.parent !in Keys(t)
    requires forall x <- Keys(t) | x != k :: Operated(store, store', at, x, SurgeryFor(h, at, t, k, from))
    ensures Linked(store', at', Cut(h, t, k))
    ensures Root(at', Cut(h, t, k)) == if t.key == k then SurgeryFor(h, at, t, k, from).target else Root(at, t)
    decreases t
  {
    var s := SurgeryFor(h, at, t, k, from);
    TopIsApart(h, t);
    OrderedOneEach(h, t);
    SurgeryIsInside(h, at, t, k, from);
    if t.key == k {
      CutTop(h, store, at, t, store', at', from);
    } else if Compare(h, k, t.key) > 0 {
      SearchStep(h, t, k);
      SurgeryIsInside(h, at, t.left, k, LeftOf(t.key));
      assert s == SurgeryFor(h, at, t.left, k, LeftOf(t.key));
      CutLinked(h, store, at, t.left, store', at', k, LeftOf(t.key));
      Spared(store, at, store', at', t.right, k, s);
      assert Operated(store, store', at, t.key, s);
    } else {
      SearchStep(h, t, k);
      SurgeryIsInside(h, at, t.right, k, RightOf(t.key));
      assert s == SurgeryFor(h, at, t.right, k, RightOf(t.key));
      CutLinked(h, store, at, t.right, store', at', k, RightOf(t.key));
      Spared(store, at, store', at', t.left, k, s);
      assert Operated(store, store', at, t.key, s);
    }
  }

  lemma CutTop(h: Ranking, store: Store, at: Places, t: Tree, store': Store, at': Places, from: Link)
    requires t.Node? && Linked(store, at, t) && Ordered(h, t) && at' == at - {t.key}
    requires from == FromBucket || from.parent !in Keys(t)
    requires forall x <- Keys(t) | x != t.key :: Operated(store, store', at, x, SurgeryFor(h, at, t, t.key, from))
    ensures Linked(store', at', Joined(t.left, t.right))
    ensures Root(at', Joined(t.left, t.right)) == Root(at, Joined(t.left, t.right))
  {
    var s := SurgeryFor(h, at, t, t.key, from);
    assert s.link == from;
    TopIsApart(h, t);
    OrderedOneEach(h, t);
    if t.left.Nil? {
      Spared(store, at, store', at', t.right, t.key, s);
    } else if t.right.Nil? {
      Spared(store, at, store', at', t.left, t.key, s);
    } else {
      GraftLinked(store, at, store', at', t.left, t.right, t.key, s);
    }
  }

  // ---------- the whole index ----------

  /** The records after the writes, the removed one gone. */
  ghost function Removed(live: Store, at: Places, k: Key, s: Surgery): Store
    requires k in at
    requires !s.link.FromBucket? ==> s.link.parent in at && at[s.link.parent] in live
    requires s.graft ==> s.tail in at && at[s.tail] in live
  {
    var linked := if s.link.FromBucket? then live
                  else live[at[s.link.parent] := Linking(live[at[s.link.parent]], s.link.LeftOf?, s.target)];
    (if s.graft then linked[at[s.tail] := linked[at[s.tail]].(right := s.grafted)] else linked) - {at[k]}
  }

  /** Removing a key keeps the index: every other key is found as before. */
  lemma RemovalKeepsIndex(live: Store, at: Places, trees: seq<Tree>, buckets: seq<nat>, first: Hash, second: Ranking,
                          k: Key, b: nat, s: Surgery)
    requires Indexed(live, at, trees, buckets, first, second) && k in at
    requires b == BucketOf(first, k, |trees|) && s == SurgeryFor(second, at, trees[b], k, FromBucket)
    ensures !s.link.FromBucket? ==> s.link.parent in at && s.link.parent != k && at[s.link.parent] in live
    ensures s.graft ==> s.tail in at && s.tail != k && at[s.tail] in live
    ensures s.graft && !s.link.FromBucket? ==> s.tail != s.link.parent
    ensures Indexed(Removed(live, at, k, s), at - {k}, trees[b := Cut(second, trees[b], k)],
                    if s.link.FromBucket? then buckets[b := s.target] else buckets, first, second)
  {
    hide BucketOf, BucketOk, Removed, SurgeryFor, Placed;
    var at', trees' := at - {k}, trees[b := Cut(second, trees[b], k)];
    var buckets' := if s.link.FromBucket? then buckets[b := s.target] else buckets;
    assert BucketOk(live, at, trees[b], buckets[b], second);
    TreeIsOrdered(live, at, trees[b], buckets[b], second);
    SurgeryIsInside(second, at, trees[b], k, FromBucket);
    WritesApart(second, at, trees[b], k, FromBucket);
    LinksArePlaced(live, at, second, s);
    var live' := Removed(live, at, k, s);
    RemovedRecords(live, at, second, k, s);
    RemovalKeepsFiled(at, trees, first, second, k);
    forall c | 0 <= c < |trees|
      ensures BucketOk(live', at', trees'[c], buckets'[c], second)
    {
      assert BucketOk(live, at, trees[c], buckets[c], second);
      BucketAfterRemoval(live, at, trees[c], buckets[c], live', second, k, s, trees[b], c == b);
    }
  }

  lemma LinksArePlaced(live: Store, at: Places, second: Ranking, s: Surgery)
    requires Placed(live, at, second)
    requires !s.link.FromBucket? ==> s.link.parent in at
    requires s.graft ==> s.tail in at
    ensures !s.link.FromBucket? ==> at[s.link.parent] in live
    ensures s.graft ==> at[s.tail] in live
  {
  }

  lemma RemovedRecords(live: Store, at: Places, second: Ranking, k: Key, s: Surgery)
    requires Placed(live, at, second) && k in at
    requires !s.link.FromBucket? ==> s.link.parent in at && s.link.parent != k && at[s.link.parent] in live
    requires s.graft ==> s.tail in at && s.tail != k && at[s.tail] in live
    requires s.graft && !s.link.FromBucket? ==> s.tail != s.link.parent
    ensures Placed(Removed(live, at, k, s), at - {k}, second)
    ensures forall x <- at | x != k :: Operated(live, Removed(live, at, k, s), at, x, s)
  {
    forall x <- at | x != k
      ensures Operated(live, Removed(live, at, k, s), at, x, s)
    {
      RemovedRecord(live, at, second, k, s, x);
    }
  }

  lemma RemovedRecord(live: Store, at: Places, second: Ranking, k: Key, s: Surgery, x: Key)
    requires Placed(live, at, second) && k in at && x in at && x != k
    requires !s.link.FromBucket? ==> s.link.parent in at && s.link.parent != k && at[s.link.parent] in live
    requires s.graft ==> s.tail in at && s.tail != k && at[s.tail] in live
    requires s.graft && !s.link.FromBucket? ==> s.tail != s.link.parent
    ensures Operated(live, Removed(live, at, k, s), at, x, s)
  {
    assert live[at[x]].key == x && live[at[k]].key == k;
    if !s.link.FromBucket? {
      assert live[at[s.link.parent]].key == s.link.parent;
    }
    if s.graft {
      assert live[at[s.tail]].key == s.tail;
    }
  }

  lemma RemovalKeepsFiled(at: Places, trees: seq<Tree>, first: Hash, second: Ranking, k: Key)
    requires Filed(at, trees, first) && Ordered(second, trees[BucketOf(first, k, |trees|)])
    ensures var b := BucketOf(first, k, |trees|);
            Filed(at - {k}, trees[b := Cut(second, trees[b], k)], first)
  {
    hide BucketOf, Cut, Keys, Ordered;
    CutKeepsOrder(second, trees[BucketOf(first, k, |trees|)], k);
  }

  lemma BucketAfterRemoval(live: Store, at: Places, t: Tree, bucket: nat, live': Store, second: Ranking,
                           k: Key, s: Surgery, cut: Tree, here: bool)
    requires BucketOk(live, at, t, bucket, second)
    requires forall x <- Keys(t) | x != k :: Operated(live, live', at, x, s)
    requires if here then t == cut && k in Keys(t) && s == SurgeryFor(second, at, t, k, FromBucket)
             else k !in Keys(t) && (s.link == FromBucket || s.link.parent !in Keys(t)) && (s.graft ==> s.tail !in Keys(t))
    ensures BucketOk(live', at - {k}, if here then Cut(second, t, k) else t,
                     if here && s.link.FromBucket? then s.target else bucket, second)
  {
    hide Operated;
    if here {
      SurgeryIsInside(second, at, t, k, FromBucket);
      hide SurgeryFor;
      CutLinked(second, live, at, t, live', at - {k}, k, FromBucket);
      CutKeepsOrder(second, t, k);
    } else {
      Spared(live, at, live', at - {k}, t, k, s);
    }
  }
}
