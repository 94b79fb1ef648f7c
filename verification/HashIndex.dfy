/** The search trees in the buckets of a Depot file and of a Cabin map.

    A bucket points at the root record of a binary search tree ordered by second
    hash, key size and key bytes. Larger hashes are to the left; among keys of
    one hash Depot has the larger ones there, Cabin the smaller ones. The shape
    of a tree is kept over keys; where the record of a key lies is a separate
    map, so moving a record does not change the shape. */
module HashIndex {
  import opened ByteOrder
  import opened DepotSpace

  type Key = seq<byte>
  type Hash = Key -> nat
  type Places = map<Key, nat>

  datatype Tree = Nil | Node(left: Tree, key: Key, right: Tree)

  /** The pointer that leads to a node: the bucket, or a child word of a record. */
  datatype Link = FromBucket | LeftOf(parent: Key) | RightOf(parent: Key)

  /** The second hash, and whether larger keys of one hash count as larger. */
  datatype Ranking = Ranking(hash: Hash, keysUp: bool)

  type KeysUp = r: Ranking | r.keysUp witness Ranking((k: Key) => 0, true)

  ghost predicate Smaller(h: Ranking, a: Key, b: Key) {
    || h.hash(a) < h.hash(b)
    || (h.hash(a) == h.hash(b) && if h.keysUp then Weight(a) < Weight(b) else Weight(b) < Weight(a))
  }

  /** The comparison a search makes at a node: positive turns left. */
  function Compare(h: Ranking, a: Key, b: Key): (c: int)
    ensures c > 0 <==> Smaller(h, b, a)
    ensures c < 0 <==> Smaller(h, a, b)
    ensures c == 0 <==> a == b
  {
    if h.hash(a) > h.hash(b) then 1
    else if h.hash(a) < h.hash(b) then -1
    else if h.keysUp then KeyCmp(a, b)
    else KeyCmp(b, a)
  }

  ghost function Keys(t: Tree): set<Key> {
    if t.Nil? then {} else Keys(t.left) + {t.key} + Keys(t.right)
  }

  ghost predicate Ordered(h: Ranking, t: Tree) {
    t.Node? ==>
      && Ordered(h, t.left) && Ordered(h, t.right)
      && (forall k <- Keys(t.left) :: Smaller(h, t.key, k))
      && (forall k <- Keys(t.right) :: Smaller(h, k, t.key))
  }

  ghost function Root(at: Places, t: Tree): nat {
    if t.Node? && t.key in at then at[t.key] else 0
  }

  /** The record of `k` is where `at` says, and its child words are `l` and `r`. */
  ghost predicate NodeAt(store: Store, at: Places, k: Key, l: nat, r: nat) {
    && k in at && at[k] in store && at[k] > 0
    && store[at[k]].key == k
    && store[at[k]].left == l
    && store[at[k]].right == r
  }

  /** The child words of the records spell out the tree. */
  ghost predicate Linked(store: Store, at: Places, t: Tree) {
    t.Node? ==>
      && NodeAt(store, at, t.key, Root(at, t.left), Root(at, t.right))
      && Linked(store, at, t.left)
      && Linked(store, at, t.right)
  }

  // ---------- searching ----------

  /** The link a search for `k` last follows, entering `t` by `from`. */
  ghost function LinkTo(h: Ranking, t: Tree, k: Key, from: Link): Link {
    if t.Nil? || t.key == k then from
    else if Compare(h, k, t.key) > 0 then LinkTo(h, t.left, k, LeftOf(t.key))
    else LinkTo(h, t.right, k, RightOf(t.key))
  }

  /** A search that turns left or right loses no chance to find its key. */
  lemma SearchStep(h: Ranking, t: Tree, k: Key)
    requires t.Node? && t.key != k && Ordered(h, t)
    ensures k in Keys(t) <==> k in Keys(if Compare(h, k, t.key) > 0 then t.left else t.right)
  {
  }

  lemma LinkIsInside(h: Ranking, t: Tree, k: Key, from: Link)
    ensures var l := LinkTo(h, t, k, from);
            if t.Nil? || t.key == k then l == from
            else !l.FromBucket? && l.parent in Keys(t) && l.parent != k
  {
  }

  // ---------- inserting and moving ----------

  /** The tree with `k` as a new leaf, or as it is when `k` has a node already. */
  ghost function With(h: Ranking, t: Tree, k: Key): Tree {
    if t.Nil? then Node(Nil, k, Nil)
    else if t.key == k then t
    else if Compare(h, k, t.key) > 0 then t.(left := With(h, t.left, k))
    else t.(right := With(h, t.right, k))
  }

  lemma {:induction false} WithKeepsOrder(h: Ranking, t: Tree, k: Key)
    requires Ordered(h, t)
    ensures Ordered(h, With(h, t, k))
    ensures Keys(With(h, t, k)) == Keys(t) + {k}
  {
    if t.Node? && t.key != k {
      if Compare(h, k, t.key) > 0 {
        WithKeepsOrder(h, t.left, k);
      } else {
        WithKeepsOrder(h, t.right, k);
      }
    }
  }

  /** Only the records of its own keys matter to a tree. */
  lemma {:induction false} LinkedFrame(store: Store, at: Places, store': Store, at': Places, t: Tree)
    requires Linked(store, at, t)
    requires forall k <- Keys(t) :: k in at && k in at' && at'[k] == at[k]
    requires forall k <- Keys(t) :: at[k] in store && at[k] in store' && store'[at[k]].key == store[at[k]].key
                                    && store'[at[k]].left == store[at[k]].left
                                    && store'[at[k]].right == store[at[k]].right
    ensures Linked(store', at', t)
  {
    if t.Node? {
      LinkedFrame(store, at, store', at', t.left);
      LinkedFrame(store, at, store', at', t.right);
      assert t.left.Node? ==> t.left.key in Keys(t);
      assert t.right.Node? ==> t.right.key in Keys(t);
    }
  }

  /** What relinking does to the child words: the one `link` names now holds
      `target`, the others hold what they held. */
  ghost predicate Relinked(store: Store, store': Store, at: Places, k: Key, link: Link, target: nat) {
    && k in at && at[k] in store && at[k] in store'
    && store'[at[k]].key == store[at[k]].key
    && store'[at[k]].left == (if link == LeftOf(k) then target else store[at[k]].left)
    && store'[at[k]].right == (if link == RightOf(k) then target else store[at[k]].right)
  }

  ghost function ChildWords(store: Store, at: Places, k: Key): (nat, nat) {
    if k in at && at[k] in store then (store[at[k]].left, store[at[k]].right) else (0, 0)
  }

  /** Giving `k` a record at a new place, with the children its old record had
      or none, and pointing the link of the search at it, keeps the tree. */
  lemma {:induction false} RelinkKeepsTree(h: Ranking, store: Store, at: Places, t: Tree, store': Store, at': Places,
                        k: Key, from: Link, target: nat)
    requires Linked(store, at, t) && Ordered(h, t)
    requires at' == at[k := target]
    requires from == FromBucket || from.parent !in Keys(t)
    requires forall x <- Keys(t) :: x != k ==> Relinked(store, store', at, x, LinkTo(h, t, k, from), target)
    requires var (l, r) := if k in Keys(t) then ChildWords(store, at, k) else (0, 0);
             NodeAt(store', at', k, l, r)
    ensures Linked(store', at', With(h, t, k))
    ensures !(t.Nil? || t.key == k) ==> Root(at', With(h, t, k)) == Root(at, t)
    ensures (t.Nil? || t.key == k) ==> Root(at', With(h, t, k)) == target
  {
    if t.Node? {
      if t.key == k {
        LinkedFrameMoved(store, at, store', at', t.left, k, from);
        LinkedFrameMoved(store, at, store', at', t.right, k, from);
      } else if Compare(h, k, t.key) > 0 {
        SearchStep(h, t, k);
        LinkIsInside(h, t.left, k, LeftOf(t.key));
        RelinkKeepsTree(h, store, at, t.left, store', at', k, LeftOf(t.key), target);
        LinkedFrameMoved(store, at, store', at', t.right, k, LinkTo(h, t, k, from));
        assert Relinked(store, store', at, t.key, LinkTo(h, t, k, from), target);
        assert NodeAt(store', at', t.key, Root(at', With(h, t.left, k)), Root(at', t.right));
      } else {
        SearchStep(h, t, k);
        LinkIsInside(h, t.right, k, RightOf(t.key));
        RelinkKeepsTree(h, store, at, t.right, store', at', k, RightOf(t.key), target);
        LinkedFrameMoved(store, at, store', at', t.left, k, LinkTo(h, t, k, from));
        assert Relinked(store, store', at, t.key, LinkTo(h, t, k, from), target);
        assert NodeAt(store', at', t.key, Root(at', t.left), Root(at', With(h, t.right, k)));
      }
    }
  }

  lemma LinkedFrameMoved(store: Store, at: Places, store': Store, at': Places, t: Tree, k: Key, link: Link)
    requires Linked(store, at, t) && k !in Keys(t)
    requires k in at' && at' == at[k := at'[k]]
    requires link == FromBucket || link.parent !in Keys(t)
    requires forall x <- Keys(t) :: Relinked(store, store', at, x, link, at'[k])
    ensures Linked(store', at', t)
  {
    LinkedFrame(store, at, store', at', t);
  }

  // ---------- the whole index ----------

  /** `at` and the records in use are each other's inverse. */
  ghost predicate Placed(live: Store, at: Places, second: Ranking) {
    && (forall k <- at :: at[k] > 0 && at[k] in live && live[at[k]].key == k && live[at[k]].hash == second.hash(k))
    && (forall o <- live :: live[o].key in at && at[live[o].key] == o)
  }

  function BucketOf(first: Hash, k: Key, n: nat): (b: nat)
    requires n > 0
    ensures b < n
  {
    first(k) % n
  }

  ghost predicate BucketOk(live: Store, at: Places, t: Tree, bucket: nat, second: Ranking) {
    bucket == Root(at, t) && Linked(live, at, t) && Ordered(second, t)
  }

  /** Tree `b` has just the placed keys whose bucket is `b`. */
  ghost predicate Filed(at: Places, trees: seq<Tree>, first: Hash) {
    && |trees| > 0
    && (forall b, k | 0 <= b < |trees| && k in Keys(trees[b]) :: k in at && BucketOf(first, k, |trees|) == b)
    && (forall k <- at :: k in Keys(trees[BucketOf(first, k, |trees|)]))
  }

  /** The buckets and the records in use form one search tree per bucket, and
      every record in use has exactly one place in them. */
  ghost predicate Indexed(live: Store, at: Places, trees: seq<Tree>, buckets: seq<nat>, first: Hash, second: Ranking) {
    && |trees| == |buckets|
    && Placed(live, at, second)
    && Filed(at, trees, first)
    && (forall b | 0 <= b < |trees| :: BucketOk(live, at, trees[b], buckets[b], second))
  }

  /** The map the file stands for: keys of records in use that are not tombstones. */
  ghost function Live(live: Store, at: Places): map<Key, seq<byte>> {
    map k | k in at && at[k] in live && !live[at[k]].deleted :: live[at[k]].value
  }

  /** The record that holds a link now points at `target`. */
  function Linking(rec: Record, left: bool, target: nat): Record {
    if left then rec.(left := target) else rec.(right := target)
  }

  /** The records in use after a search for `k` that ended at `link` has been
      given the record `rec` at `off`. */
  ghost function Relink(live: Store, at: Places, link: Link, off: nat): Store
    requires !link.FromBucket? ==> link.parent in at && at[link.parent] in live
  {
    if link.FromBucket? then live
    else live[at[link.parent] := Linking(live[at[link.parent]], link.LeftOf?, off)]
  }

  /** Changing only the value of a record in use, or its being a tombstone,
      leaves the index as it is. */
  lemma RewriteKeepsIndex(live: Store, at: Places, trees: seq<Tree>, buckets: seq<nat>, first: Hash, second: Ranking,
                          off: nat, rec: Record)
    requires Indexed(live, at, trees, buckets, first, second)
    requires off in live && rec.key == live[off].key && rec.hash == live[off].hash
    requires rec.left == live[off].left && rec.right == live[off].right
    ensures Indexed(live[off := rec], at, trees, buckets, first, second)
  {
    hide BucketOf, BucketOk, Placed;
    PlacedAfterRewrite(live, at, second, off, rec);
    forall b | 0 <= b < |trees|
      ensures BucketOk(live[off := rec], at, trees[b], buckets[b], second)
    {
      assert BucketOk(live, at, trees[b], buckets[b], second);
      BucketAfterRewrite(live, at, trees[b], buckets[b], second, off, rec);
    }
  }

  lemma BucketAfterRewrite(live: Store, at: Places, t: Tree, bucket: nat, second: Ranking, off: nat, rec: Record)
    requires BucketOk(live, at, t, bucket, second) && Placed(live, at, second)
    requires forall k <- Keys(t) :: k in at
    requires off in live && rec.key == live[off].key
    requires rec.left == live[off].left && rec.right == live[off].right
    ensures BucketOk(live[off := rec], at, t, bucket, second)
  {
    LinkedFrame(live, at, live[off := rec], at, t);
  }

  lemma PlacedAfterRewrite(live: Store, at: Places, second: Ranking, off: nat, rec: Record)
    requires Placed(live, at, second)
    requires off in live && rec.key == live[off].key && rec.hash == live[off].hash
    ensures Placed(live[off := rec], at, second)
  {
  }

  lemma LiveAfterRewrite(live: Store, at: Places, second: Ranking, off: nat, rec: Record)
    requires Placed(live, at, second)
    requires off in live && rec.key == live[off].key
    ensures Live(live[off := rec], at) ==
            if rec.deleted then Live(live, at) - {rec.key} else Live(live, at)[rec.key := rec.value]
  {
  }

  /** What giving `k` the record `rec` at a fresh offset involves. */
  ghost predicate Relinking(live: Store, at: Places, second: Ranking, k: Key, off: nat, rec: Record) {
    && off > 0 && off !in live
    && rec.key == k && rec.hash == second.hash(k)
    && (rec.left, rec.right) == (if k in at then ChildWords(live, at, k) else (0, 0))
  }

  /** The records in use once `k` has moved to, or first appeared at, `off`. */
  ghost function Moved(live: Store, at: Places, k: Key, off: nat, rec: Record): Store {
    (if k in at then live - {at[k]} else live)[off := rec]
  }

  lemma MovedRecords(live: Store, at: Places, second: Ranking, k: Key, off: nat, rec: Record)
    requires Placed(live, at, second) && Relinking(live, at, second, k, off, rec)
    ensures var moved := Moved(live, at, k, off, rec);
            && Placed(moved, at[k := off], second)
            && (forall x <- at | x != k :: at[x] != off && at[x] in moved && moved[at[x]] == live[at[x]])
            && moved[off] == rec
  {
  }

  lemma LinkWritten(moved: Store, at': Places, second: Ranking, p: Key, left: bool, off: nat)
    requires Placed(moved, at', second) && p in at'
    ensures Placed(moved[at'[p] := Linking(moved[at'[p]], left, off)], at', second)
    ensures Live(moved[at'[p] := Linking(moved[at'[p]], left, off)], at') == Live(moved, at')
  {
  }

  lemma RelinkedRecords(live: Store, at: Places, second: Ranking, k: Key, off: nat, rec: Record, link: Link)
    requires Placed(live, at, second) && Relinking(live, at, second, k, off, rec)
    requires !link.FromBucket? ==> link.parent in at && link.parent != k
    ensures !link.FromBucket? ==> at[link.parent] in Moved(live, at, k, off, rec)
    ensures var live' := Relink(Moved(live, at, k, off, rec), at, link, off);
            && Placed(live', at[k := off], second)
            && NodeAt(live', at[k := off], k, rec.left, rec.right)
  {
    MovedRecords(live, at, second, k, off, rec);
    if !link.FromBucket? {
      hide Placed;
      LinkWritten(Moved(live, at, k, off, rec), at[k := off], second, link.parent, link.LeftOf?, off);
    }
  }

  lemma OthersRelinked(live: Store, at: Places, second: Ranking, k: Key, off: nat, rec: Record, link: Link, x: Key)
    requires Placed(live, at, second) && Relinking(live, at, second, k, off, rec)
    requires !link.FromBucket? ==> link.parent in at && link.parent != k && at[link.parent] in Moved(live, at, k, off, rec)
    requires x in at && x != k
    ensures Relinked(live, Relink(Moved(live, at, k, off, rec), at, link, off), at, x, link, off)
  {
    MovedRecords(live, at, second, k, off, rec);
    assert at[x] == if !link.FromBucket? && link.parent == x then at[link.parent] else at[x];
    assert live[at[x]].key == x;
    if !link.FromBucket? {
      assert live[at[link.parent]].key == link.parent;
    }
  }

  lemma LiveAfterMove(live: Store, at: Places, second: Ranking, k: Key, off: nat, rec: Record)
    requires Placed(live, at, second) && Relinking(live, at, second, k, off, rec)
    ensures Live(Moved(live, at, k, off, rec), at[k := off]) ==
            if rec.deleted then Live(live, at) - {k} else Live(live, at)[k := rec.value]
  {
    MovedRecords(live, at, second, k, off, rec);
  }

  lemma LiveAfterRelink(live: Store, at: Places, second: Ranking, k: Key, off: nat, rec: Record, link: Link)
    requires Placed(live, at, second) && Relinking(live, at, second, k, off, rec)
    requires !link.FromBucket? ==> link.parent in at && link.parent != k && at[link.parent] in Moved(live, at, k, off, rec)
    ensures Live(Relink(Moved(live, at, k, off, rec), at, link, off), at[k := off]) ==
            if rec.deleted then Live(live, at) - {k} else Live(live, at)[k := rec.value]
  {
    LiveAfterMove(live, at, second, k, off, rec);
    MovedRecords(live, at, second, k, off, rec);
    if !link.FromBucket? {
      hide Placed, Live, Moved;
      LinkWritten(Moved(live, at, k, off, rec), at[k := off], second, link.parent, link.LeftOf?, off);
    }
  }

  lemma RelinkKeepsFiled(at: Places, trees: seq<Tree>, first: Hash, second: Ranking, k: Key, off: nat)
    requires Filed(at, trees, first)
    requires Ordered(second, trees[BucketOf(first, k, |trees|)])
    ensures var b := BucketOf(first, k, |trees|);
            Filed(at[k := off], trees[b := With(second, trees[b], k)], first)
  {
    hide BucketOf, With, Keys, Ordered;
    WithKeepsOrder(second, trees[BucketOf(first, k, |trees|)], k);
  }

  lemma BucketAfterRelink(live: Store, at: Places, t: Tree, bucket: nat, live': Store, at': Places, second: Ranking,
                          k: Key, off: nat, link: Link)
    requires BucketOk(live, at, t, bucket, second)
    requires at' == at[k := off] && link == LinkTo(second, t, k, FromBucket)
    requires forall x <- Keys(t) | x != k :: Relinked(live, live', at, x, link, off)
    requires var (l, r) := if k in Keys(t) then ChildWords(live, at, k) else (0, 0);
             NodeAt(live', at', k, l, r)
    ensures BucketOk(live', at', With(second, t, k), if link.FromBucket? then off else bucket, second)
  {
    hide Relinked, NodeAt, ChildWords;
    LinkIsInside(second, t, k, FromBucket);
    WithKeepsOrder(second, t, k);
    RelinkKeepsTree(second, live, at, t, live', at', k, FromBucket, off);
  }

  lemma OtherBucketAfterRelink(live: Store, at: Places, t: Tree, bucket: nat, live': Store, at': Places, second: Ranking,
                               k: Key, off: nat, link: Link)
    requires BucketOk(live, at, t, bucket, second)
    requires at' == at[k := off] && k !in Keys(t)
    requires link == FromBucket || link.parent !in Keys(t)
    requires forall x <- Keys(t) :: Relinked(live, live', at, x, link, off)
    ensures BucketOk(live', at', t, bucket, second)
  {
    LinkedFrameMoved(live, at, live', at', t, k, link);
  }

  /** Giving `k` a record at a fresh offset and pointing the link its search
      ended at there: the index now finds `k` at the new record and every other
      key where it was. */
  lemma RelinkKeepsIndex(live: Store, at: Places, trees: seq<Tree>, buckets: seq<nat>, first: Hash, second: Ranking,
                         k: Key, off: nat, rec: Record, b: nat, link: Link)
    requires Indexed(live, at, trees, buckets, first, second)
    requires Relinking(live, at, second, k, off, rec)
    requires b == BucketOf(first, k, |trees|) && link == LinkTo(second, trees[b], k, FromBucket)
    ensures !link.FromBucket? ==> link.parent in at && link.parent != k
                                  && at[link.parent] in Moved(live, at, k, off, rec)
    ensures Indexed(Relink(Moved(live, at, k, off, rec), at, link, off), at[k := off],
                    trees[b := With(second, trees[b], k)],
                    if link.FromBucket? then buckets[b := off] else buckets, first, second)
  {
    hide BucketOf, Placed, BucketOk, Relinked, NodeAt, Moved, ChildWords, Relink;
    var at' := at[k := off];
    var trees' := trees[b := With(second, trees[b], k)];
    var buckets' := if link.FromBucket? then buckets[b := off] else buckets;
    assert BucketOk(live, at, trees[b], buckets[b], second);
    TreeIsOrdered(live, at, trees[b], buckets[b], second);
    LinkIsInside(second, trees[b], k, FromBucket);
    RelinkedRecords(live, at, second, k, off, rec, link);
    RelinkKeepsFiled(at, trees, first, second, k, off);
    var live' := Relink(Moved(live, at, k, off, rec), at, link, off);
    forall x <- at | x != k
      ensures Relinked(live, live', at, x, link, off)
    {
      OthersRelinked(live, at, second, k, off, rec, link, x);
    }
    forall c | 0 <= c < |trees|
      ensures BucketOk(live', at', trees'[c], buckets'[c], second)
    {
      assert BucketOk(live, at, trees[c], buckets[c], second);
      if c != b {
        OtherBucketAfterRelink(live, at, trees[c], buckets[c], live', at', second, k, off, link);
      } else {
        BucketAfterRelink(live, at, trees[b], buckets[b], live', at', second, k, off, link);
      }
    }
  }

  lemma TreeIsOrdered(live: Store, at: Places, t: Tree, bucket: nat, second: Ranking)
    requires BucketOk(live, at, t, bucket, second)
    ensures Ordered(second, t)
  {
  }

  // ---------- what the pointers on disk lead to ----------

  /** Offsets that follow each other by child words. */
  ghost predicate Follows(live: Store, path: seq<nat>) {
    && path != []
    && (|path| > 1 ==>
          && path[0] in live && path[1] != 0 && (path[1] == live[path[0]].left || path[1] == live[path[0]].right)
          && Follows(live, path[1..]))
  }

  lemma {:induction false} PathInside(live: Store, at: Places, t: Tree, path: seq<nat>)
    requires Linked(live, at, t) && t.Node? && Follows(live, path) && path[0] == Root(at, t)
    ensures var p := path[|path| - 1]; p in live && live[p].key in Keys(t)
    decreases |path|
  {
    assert NodeAt(live, at, t.key, Root(at, t.left), Root(at, t.right));
    if |path| > 1 {
      PathInside(live, at, if path[1] == Root(at, t.left) then t.left else t.right, path[1..]);
    }
  }

  lemma {:induction false} PathOrder(live: Store, at: Places, second: Ranking, t: Tree, path: seq<nat>)
    requires Linked(live, at, t) && Ordered(second, t) && Follows(live, path) && |path| > 1
    requires live[path[0]].key in Keys(t) && live[path[0]].key in at && at[live[path[0]].key] == path[0]
    ensures var (o, p) := (live[path[0]], path[|path| - 1]);
            && p in live
            && (path[1] == o.left ==> Smaller(second, o.key, live[p].key))
            && (path[1] == o.right ==> Smaller(second, live[p].key, o.key))
    decreases t
  {
    var k := live[path[0]].key;
    assert NodeAt(live, at, t.key, Root(at, t.left), Root(at, t.right));
    if t.key != k {
      PathOrder(live, at, second, if k in Keys(t.left) then t.left else t.right, path);
    } else {
      if path[1] == Root(at, t.left) {
        PathInside(live, at, t.left, path[1..]);
      }
      if path[1] == Root(at, t.right) {
        PathInside(live, at, t.right, path[1..]);
      }
    }
  }

  /** The order of the trees: by the second hash, then by the bytes of the keys, the
      shorter key first, or last in a ranking that counts them down. */
  lemma SmallerByBytes(h: Ranking, a: Key, b: Key)
    ensures Smaller(h, a, b) <==>
            || h.hash(a) < h.hash(b)
            || (h.hash(a) == h.hash(b) && if h.keysUp then Shortlex(a, b) else Shortlex(b, a))
  {
    if h.hash(a) == h.hash(b) {
      KeyCmpByBytes(a, b);
      KeyCmpByBytes(b, a);
    }
  }

  /** However many child words are followed from a record, the last one leads to
      a record in use, to a larger one if the first word was the left one and to
      a smaller one if it was the right one, and never back. */
  lemma LinksFollowOrder(live: Store, at: Places, trees: seq<Tree>, buckets: seq<nat>, first: Hash, second: Ranking,
                         path: seq<nat>)
    requires Indexed(live, at, trees, buckets, first, second)
    requires Follows(live, path) && |path| > 1
    ensures var (o, p) := (live[path[0]], path[|path| - 1]);
            && p in live && p != path[0]
            && (path[1] == o.left ==> Smaller(second, o.key, live[p].key))
            && (path[1] == o.right ==> Smaller(second, live[p].key, o.key))
  {
    hide BucketOf, Linked, Ordered, Smaller;
    var k := live[path[0]].key;
    var b := BucketOf(first, k, |trees|);
    assert BucketOk(live, at, trees[b], buckets[b], second);
    PathOrder(live, at, second, trees[b], path);
    NotSmaller(second, k);
  }

  lemma NotSmaller(h: Ranking, k: Key)
    ensures !Smaller(h, k, k)
  {
  }

  /** A bucket leads to a record in use, or to nothing. */
  lemma BucketLeadsToRecord(live: Store, at: Places, trees: seq<Tree>, buckets: seq<nat>, first: Hash, second: Ranking,
                            b: nat, path: seq<nat>)
    requires Indexed(live, at, trees, buckets, first, second) && b < |buckets| && buckets[b] != 0
    requires Follows(live, path) && path[0] == buckets[b]
    ensures |buckets| > 0
    ensures var p := path[|path| - 1]; p in live && first(live[p].key) % |buckets| == b
  {
    hide Linked, Ordered;
    assert BucketOk(live, at, trees[b], buckets[b], second);
    PathInside(live, at, trees[b], path);
  }
}
