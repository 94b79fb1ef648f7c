/** A node of the disk B+Tree in memory, and the loops that shift its arrays. */
module BTreeNode {
  import opened ByteOrder
  import opened BTreeShape

  const NO_KEY: Key := [] // the NULL of an unused slot
  const SHORT := 0x10000 // unsigned short
  const MOST := 127 // of a signed char

  // ---------- key sizes ----------

  /** A byte read as a signed char and stored in an unsigned short. */
  function Widened(b: byte): (z: nat)
    ensures z < SHORT
  {
    if b <= MOST then b else SHORT + b - 256
  }

  /** A size that went through a char variable. */
  function Narrowed(z: nat): (n: nat)
    ensures n < SHORT
  {
    Widened(z % 256)
  }

  /** What the size of a new key is set to: strlen plus one. */
  function SizeOf(k: Key): (z: nat)
    ensures z < SHORT
  {
    (|k| + 1) % SHORT
  }

  ghost function AllNarrowed(zs: seq<nat>): (ns: seq<nat>)
    ensures |ns| == |zs| && forall i | 0 <= i < |zs| :: ns[i] == Narrowed(zs[i])
  {
    seq(|zs|, i requires 0 <= i < |zs| => Narrowed(zs[i]))
  }

  /** The sizes after a key went in at `i`: those behind it were moved. */
  ghost function WithSize(zs: seq<nat>, i: nat, z: nat): (ns: seq<nat>)
    requires i <= |zs|
    ensures |ns| == |zs| + 1
  {
    zs[..i] + [z] + AllNarrowed(zs[i..])
  }

  /** The same in a full node, where the last size is moved out of the array. */
  ghost function FullWithSize(zs: seq<nat>, i: nat, z: nat): (ns: seq<nat>)
    requires i <= |zs|
    ensures |ns| == |zs| + 1
  {
    if i < |zs| then WithSize(zs, i, z) else zs + [Narrowed(z)]
  }

  /** Every size is that of its key. */
  ghost predicate RightSizes(keys: seq<Key>, zs: seq<nat>) {
    |zs| == |keys| && forall i | 0 <= i < |keys| :: zs[i] == |keys[i]| + 1
  }

  /** The sizes of keys of at most 126 bytes are right, whatever the others are. */
  ghost predicate ShortRight(keys: seq<Key>, zs: seq<nat>) {
    && |zs| == |keys|
    && (forall i | 0 <= i < |zs| :: zs[i] < SHORT)
    && (forall i | 0 <= i < |keys| :: |keys[i]| < MOST ==> zs[i] == |keys[i]| + 1)
  }

  /** A char keeps a size up to multiples of 256, between -128 and 127; and so it
      keeps those sizes that lie there. */
  lemma Survives(z: nat)
    requires z < SHORT
    ensures Narrowed(z) % 256 == z % 256 && (Narrowed(z) <= 127 || 0x10000 - 128 <= Narrowed(z) < 0x10000)
    ensures Narrowed(z) == z <==> z <= 127 || z >= 0x10000 - 128
  {
  }

  /** What becomes of each size when one is inserted at `i`. */
  lemma SizesMove(zs: seq<nat>, i: nat, key: Key, j: nat)
    requires i <= |zs| && j <= |zs| && forall m | 0 <= m < |zs| :: zs[m] < SHORT
    ensures var z := WithSize(zs, i, SizeOf(key))[j];
            && (j < i ==> z == zs[j]) && (j == i ==> z == (|key| + 1) % 0x10000)
            && (j > i ==> z % 256 == zs[j - 1] % 256 && (z <= 127 || 0x10000 - 128 <= z < 0x10000))
  {
    if j > i {
      Survives(zs[j - 1]);
      assert WithSize(zs, i, SizeOf(key))[j] == Narrowed(zs[j - 1]);
    }
    hide Narrowed;
  }

  /** After an insertion into a node with right sizes, the sizes are right if and
      only if the new one fits its field and all that were moved survive. */
  lemma AddedSizes(keys: seq<Key>, zs: seq<nat>, i: nat, key: Key)
    requires RightSizes(keys, zs) && i <= |keys|
    ensures RightSizes(keys[..i] + [key] + keys[i..], WithSize(zs, i, SizeOf(key)))
            <==> |key| + 1 < SHORT && forall j | i <= j < |keys| :: Narrowed(zs[j]) == zs[j]
  {
    hide Narrowed;
    var keys', zs' := keys[..i] + [key] + keys[i..], WithSize(zs, i, SizeOf(key));
    assert keys'[i] == key && zs'[i] == SizeOf(key);
    assert forall j | i <= j < |keys| :: keys'[j + 1] == keys[j] && zs'[j + 1] == Narrowed(zs[j]);
  }

  /** The same before a full node is cut. */
  lemma CutSizes(keys: seq<Key>, zs: seq<nat>, i: nat, key: Key)
    requires RightSizes(keys, zs) && i <= |keys|
    ensures RightSizes(keys[..i] + [key] + keys[i..], FullWithSize(zs, i, SizeOf(key)))
            <==> |key| + 1 < SHORT && (i == |keys| ==> Narrowed(SizeOf(key)) == SizeOf(key))
                 && forall j | i <= j < |keys| :: Narrowed(zs[j]) == zs[j]
  {
    if i < |keys| {
      AddedSizes(keys, zs, i, key);
    } else {
      hide Widened;
      var keys', zs' := keys[..i] + [key] + keys[i..], FullWithSize(zs, i, SizeOf(key));
      assert keys'[i] == key && zs'[i] == Narrowed(SizeOf(key));
      assert zs'[i] == |key| + 1 ==> |key| + 1 < SHORT;
    }
  }

  /** A leaf with a key of 255 bytes, into which a smaller key is inserted, has
      size 0 for the longer one. */
  lemma SizeIsLost(long: Key, key: Key)
    requires |long| == 255
    ensures RightSizes([long], [256]) && WithSize([256], 0, SizeOf(key)) == [SizeOf(key), 0]
  {
    assert Narrowed(256) == 0;
  }

  lemma ShortWith(keys: seq<Key>, zs: seq<nat>, i: nat, key: Key)
    requires ShortRight(keys, zs) && i <= |keys|
    ensures ShortRight(keys[..i] + [key] + keys[i..], WithSize(zs, i, SizeOf(key)))
    ensures ShortRight(keys[..i] + [key] + keys[i..], FullWithSize(zs, i, SizeOf(key)))
  {
    forall j | 0 <= j < |zs|
      ensures Narrowed(zs[j]) < SHORT && (|keys[j]| < MOST ==> Narrowed(zs[j]) == zs[j])
    {
    }
    var z := SizeOf(key);
    assert |key| < MOST ==> z == |key| + 1 && Narrowed(z) == z;
    hide Narrowed, SizeOf;
  }

  lemma ShortAt(keys: seq<Key>, zs: seq<nat>, i: nat)
    requires ShortRight(keys, zs) && i < |keys|
    ensures ShortRight([keys[i]], [zs[i]])
  {
  }

  // ---------- what the operations make of a node ----------

  /** The first key that is not less than `k`. */
  ghost function Find(keys: seq<Key>, k: Key): (i: nat)
    ensures i <= |keys|
    ensures forall j | 0 <= j < i :: Fraction(keys[j]) < Fraction(k)
    ensures i < |keys| ==> Fraction(k) <= Fraction(keys[i])
  {
    if keys == [] || Fraction(k) <= Fraction(keys[0]) then 0 else 1 + Find(keys[1..], k)
  }

  lemma FindIs(keys: seq<Key>, k: Key, i: nat)
    requires i <= |keys|
    requires forall j | 0 <= j < i :: Fraction(keys[j]) < Fraction(k)
    requires i < |keys| ==> Fraction(k) <= Fraction(keys[i])
    ensures Find(keys, k) == i
  {
  }

  /** A node with one more key at `i`, and the child that comes with it: the
      position of the key in a leaf, the right-hand subtree elsewhere. */
  ghost function With(n: NodeV, i: nat, k: Key, p: int): NodeV
    requires i <= |n.keys| && |n.children| == |n.keys| + 1
  {
    var j := if n.leaf then i else i + 1;
    NodeV(n.leaf, n.keys[..i] + [k] + n.keys[i..], n.children[..j] + [p] + n.children[j..])
  }

  /** A node without key `i` and child `i`. */
  ghost function Without(n: NodeV, i: nat): NodeV
    requires i < |n.keys| && |n.children| == |n.keys| + 1
  {
    NodeV(n.leaf, n.keys[..i] + n.keys[i + 1..], n.children[..i] + n.children[i + 1..])
  }

  /** Where an overfull node is cut: the index of the key that goes up. */
  function Div(leaf: bool, order: nat): int {
    if leaf then (order + 1) / 2 - 1 else order / 2
  }

  /** The halves of an overfull node. */
  ghost function LeftHalf(n: NodeV, order: nat, right: int): NodeV
    requires order >= 3 && |n.keys| == order && |n.children| == order + 1
  {
    var div := Div(n.leaf, order);
    if n.leaf then NodeV(true, n.keys[..div + 1], n.children[..div + 1] + [right])
    else NodeV(false, n.keys[..div], n.children[..div + 1])
  }

  ghost function RightHalf(n: NodeV, order: nat): NodeV
    requires order >= 3 && |n.keys| == order && |n.children| == order + 1
  {
    var div := Div(n.leaf, order);
    NodeV(n.leaf, n.keys[div + 1..], n.children[div + 1..])
  }

  /** Nothing but the key that goes up is missing from the halves; a leaf keeps that
      one as its last key, and gets the new right half as its link. The left half
      is as large as the right one, or has one key more. */
  lemma HalvesMakeWhole(n: NodeV, order: nat, right: int)
    requires order >= 3 && |n.keys| == order && |n.children| == order + 1
    ensures var (l, r, up) := (LeftHalf(n, order, right), RightHalf(n, order), n.keys[Div(n.leaf, order)]);
            && l.leaf == r.leaf == n.leaf && |l.children| == |l.keys| + 1
            && 0 <= |l.keys| - |r.keys| <= 1
            && if n.leaf then
                 && l.keys + r.keys == n.keys && up == l.keys[|l.keys| - 1]
                 && l.children[..|l.keys|] + r.children == n.children && l.children[|l.keys|] == right
               else
                 l.keys + [up] + r.keys == n.keys && l.children + r.children == n.children
  {
  }

  /** A node with the first key of its right sibling; `sep` is the separator. */
  ghost function BorrowedRight(c: NodeV, sep: Key, s: NodeV): NodeV
    requires |c.children| == |c.keys| + 1 && s.keys != [] && s.children != []
  {
    var n := |c.keys|;
    if s.leaf then NodeV(c.leaf, c.keys + [s.keys[0]], c.children[..n] + [s.children[0], c.children[n]])
    else NodeV(c.leaf, c.keys + [sep], c.children + [s.children[0]])
  }

  /** A node with the last key of its left sibling. */
  ghost function BorrowedLeft(c: NodeV, sep: Key, s: NodeV): NodeV
    requires s.keys != [] && |s.children| == |s.keys| + 1
  {
    var n := |s.keys|;
    if s.leaf then NodeV(c.leaf, [s.keys[n - 1]] + c.keys, [s.children[n - 1]] + c.children)
    else NodeV(c.leaf, [sep] + c.keys, [s.children[n]] + c.children)
  }

  /** A node that gave its last key away. */
  ghost function Shortened(s: NodeV): NodeV
    requires s.keys != [] && |s.children| == |s.keys| + 1
  {
    var n := |s.keys|;
    NodeV(s.leaf, s.keys[..n - 1], if s.leaf then s.children[..n - 1] + [s.children[n]] else s.children[..n])
  }

  ghost function Merged(l: NodeV, sep: Key, r: NodeV): NodeV
    requires |l.children| == |l.keys| + 1
  {
    if l.leaf then NodeV(true, l.keys + r.keys, l.children[..|l.keys|] + r.children)
    else NodeV(false, l.keys + [sep] + r.keys, l.children + r.children)
  }

  // ---------- sizes of short keys, operation by operation ----------

  lemma ShortWithout(n: NodeV, zs: seq<nat>, i: nat)
    requires ShortRight(n.keys, zs) && i < |n.keys| && |n.children| == |n.keys| + 1
    ensures ShortRight(Without(n, i).keys, zs[..i] + zs[i + 1..])
  {
  }

  lemma ShortHalves(n: NodeV, zs: seq<nat>, i: nat, key: Key, filePos: int, order: nat, tempOff: int)
    requires ShortRight(n.keys, zs) && i <= |n.keys| == order - 1 && |n.children| == order && order >= 3
    ensures var (full, sizes) := (With(n, i, key, filePos), FullWithSize(zs, i, SizeOf(key)));
            && |full.keys| == |sizes| == order && |full.children| == order + 1 && full.leaf == n.leaf
            && ShortRight(LeftHalf(full, order, tempOff).keys, sizes[..|LeftHalf(full, order, tempOff).keys|])
            && |LeftHalf(full, order, tempOff).keys| == (if n.leaf then Div(n.leaf, order) + 1 else Div(n.leaf, order))
            && ShortRight(RightHalf(full, order).keys, sizes[Div(n.leaf, order) + 1..])
            && |RightHalf(full, order).keys| == order - 1 - Div(n.leaf, order)
  {
    ShortWith(n.keys, zs, i, key);
    hide FullWithSize, SizeOf;
  }

  lemma ShortBorrowedRight(c: NodeV, zc: seq<nat>, p: NodeV, zp: seq<nat>, s: NodeV, zs: seq<nat>, div: nat)
    requires ShortRight(c.keys, zc) && ShortRight(p.keys, zp) && ShortRight(s.keys, zs)
    requires |c.children| == |c.keys| + 1 && s.keys != [] && s.children != [] && div < |p.keys| && |zs| == |s.keys| && |zp| == |p.keys|
    ensures ShortRight(BorrowedRight(c, p.keys[div], s).keys, zc + [if s.leaf then zs[0] else zp[div]])
    ensures ShortRight(p.keys[div := s.keys[0]], zp[div := zs[0]])
  {
  }

  lemma ShortBorrowedLeft(c: NodeV, zc: seq<nat>, p: NodeV, zp: seq<nat>, s: NodeV, zs: seq<nat>, div: nat)
    requires ShortRight(c.keys, zc) && ShortRight(p.keys, zp) && ShortRight(s.keys, zs) && 0 < div <= |p.keys|
    requires |s.keys| > (if s.leaf then 1 else 0) && |s.children| == |s.keys| + 1 && |zs| == |s.keys| && |zp| == |p.keys|
    ensures ShortRight(BorrowedLeft(c, p.keys[div - 1], s).keys, [if s.leaf then zs[|zs| - 1] else zp[div - 1]] + zc)
    ensures var m := |zs| - (if s.leaf then 2 else 1);
            ShortRight(p.keys[div - 1 := s.keys[m]], zp[div - 1 := zs[m]])
  {
  }

  lemma ShortShortened(n: NodeV, zs: seq<nat>)
    requires ShortRight(n.keys, zs) && n.keys != [] && |n.children| == |n.keys| + 1 && |zs| == |n.keys|
    ensures ShortRight(Shortened(n).keys, zs[..|zs| - 1])
  {
  }

  lemma ShortMerged(l: NodeV, zl: seq<nat>, sep: Key, z: nat, r: NodeV, zr: seq<nat>)
    requires ShortRight(l.keys, zl) && ShortRight([sep], [z]) && ShortRight(r.keys, zr) && |l.children| == |l.keys| + 1
    ensures ShortRight(Merged(l, sep, r).keys, zl + (if l.leaf then [] else [z]) + zr)
  {
    assert [z][0] == z && [sep][0] == sep;
  }

  lemma MergedIs(l: NodeV, sep: Key, r: NodeV)
    requires |l.children| == |l.keys| + 1
    ensures Merged(l, sep, r) == NodeV(l.leaf, l.keys + (if l.leaf then [] else [sep]) + r.keys,
                                       (if l.leaf then l.children[..|l.keys|] else l.children) + r.children)
  {
    assert l.keys + [] == l.keys;
  }

  /** Put `x` at `i`, shift what was at [i, n - 1) up by one, and hand back what
      falls out at n. */
  method ShiftIn<T>(a: array<T>, i: nat, n: nat, x: T) returns (out: T)
    requires i < n <= a.Length
    modifies a
    ensures a[..n] == old(a[..i]) + [x] + old(a[i..n - 1])
    ensures a[n..] == old(a[n..])
    ensures out == old(a[n - 1])
    ensures a[..n] + [out] == old(a[..i]) + [x] + old(a[i..n])
  {
    out := a[i];
    a[i] := x;
    var j := i + 1;
    while j < n
      invariant i < j <= n
      invariant forall m | 0 <= m < i :: a[m] == old(a[m])
      invariant a[i] == x
      invariant forall m | i < m < j :: a[m] == old(a[m - 1])
      invariant forall m | j <= m < a.Length :: a[m] == old(a[m])
      invariant out == old(a[j - 1])
    {
      var t := a[j];
      a[j] := out;
      out := t;
      j := j + 1;
    }
    Shifted(old(a[..]), a[..], i, n, x);
    assert a[..n] == a[..][..n];
  }

  lemma Shifted<T>(was: seq<T>, now: seq<T>, i: nat, n: nat, x: T)
    requires i < n <= |was| == |now| && now[i] == x
    requires forall m | 0 <= m < i :: now[m] == was[m]
    requires forall m | i < m < n :: now[m] == was[m - 1]
    ensures now[..n] == was[..i] + [x] + was[i..n - 1]
    ensures now[..n] + [was[n - 1]] == was[..i] + [x] + was[i..n]
  {
    assert now[..i] == was[..i] && now[i + 1..n] == was[i..n - 1];
    assert now[..n] == now[..i] + [x] + now[i + 1..n];
    assert was[i..n] == was[i..n - 1] + [was[n - 1]];
  }

  /** The same where a[n] is free. */
  method InsertAt<T>(a: array<T>, n: nat, i: nat, x: T)
    requires i <= n < a.Length
    modifies a
    ensures a[..n + 1] == old(a[..n])[..i] + [x] + old(a[..n])[i..]
  {
    ghost var was := a[..n];
    assert a[..i] == was[..i] && a[i..n] == was[i..];
    var _ := ShiftIn(a, i, n + 1, x);
  }

  /** Shift a[i + 1 .. n] down by one; a[n - 1] becomes `last`. */
  method CloseGap<T>(a: array<T>, i: nat, n: nat, last: T)
    requires i < n <= a.Length
    modifies a
    ensures a[..n - 1] == old(a[..i]) + old(a[i + 1..n])
    ensures a[n - 1] == last && a[n..] == old(a[n..])
  {
    var j := i;
    while j < n - 1
      invariant i <= j <= n - 1
      invariant forall m | 0 <= m < i || j <= m < a.Length :: a[m] == old(a[m])
      invariant forall m | i <= m < j :: a[m] == old(a[m + 1])
    {
      a[j] := a[j + 1];
      j := j + 1;
    }
    a[n - 1] := last;
  }

  /** Shift a[0 .. n] up by one and put `x` in front. */
  method OpenFront<T>(a: array<T>, n: nat, x: T)
    requires n < a.Length
    modifies a
    ensures a[..n + 1] == [x] + old(a[..n])
    ensures a[n + 1..] == old(a[n + 1..])
  {
    var i := n;
    while i > 0
      invariant 0 <= i <= n
      invariant forall m | 0 <= m <= i || n < m < a.Length :: a[m] == old(a[m])
      invariant forall m | i < m <= n :: a[m] == old(a[m - 1])
    {
      a[i] := a[i - 1];
      i := i - 1;
    }
    a[0] := x;
  }

  /** Move a[i ..] to the front of `b`, leaving `blank` behind. */
  method MoveTail<T>(a: array<T>, i: nat, b: array<T>, blank: T)
    requires i <= a.Length <= b.Length + i && a != b
    modifies a, b
    ensures a[..i] == old(a[..i]) && b[..a.Length - i] == old(a[i..])
    ensures b[a.Length - i..] == old(b[a.Length - i..])
  {
    var j := 0;
    while i + j < a.Length
      invariant 0 <= j <= a.Length - i
      invariant forall m | 0 <= m < i || i + j <= m < a.Length :: a[m] == old(a[m])
      invariant forall m | 0 <= m < j :: b[m] == old(a[i + m])
      invariant forall m | j <= m < b.Length :: b[m] == old(b[m])
    {
      b[j] := a[i + j];
      a[i + j] := blank;
      j := j + 1;
    }
  }

  /** Copy the first `n` elements of `b` into `a` from `i` on. */
  method CopyIn<T>(a: array<T>, i: nat, b: array<T>, n: nat)
    requires i + n <= a.Length && n <= b.Length && a != b
    modifies a
    ensures a[..i + n] == old(a[..i]) + b[..n]
  {
    var j := 0;
    while j < n
      invariant 0 <= j <= n
      invariant a[..i + j] == old(a[..i]) + b[..j]
    {
      a[i + j] := b[j];
      j := j + 1;
    }
  }

  /** Put `z` at `i` and shift what was at [i, n - 1) up by one, each through the
      char variable it waits in, and hand back what falls out at n. */
  method ShiftSizes(sizes: seq<nat>, i: nat, n: nat, z: nat) returns (keySizes: seq<nat>, tempSize1: byte)
    requires i < n <= |sizes|
    ensures |keySizes| == |sizes| && keySizes[n..] == sizes[n..]
    ensures keySizes[..n] + [Widened(tempSize1)] == WithSize(sizes[..n], i, z)
  {
    hide Widened, WithSize;
    keySizes, tempSize1 := sizes[i := z], sizes[i] % 256;
    var j := i + 1;
    while j < n
      invariant i < j <= n && |keySizes| == |sizes|
      invariant keySizes[..i] == sizes[..i] && keySizes[i] == z
      invariant forall m | i < m < j :: keySizes[m] == Narrowed(sizes[m - 1])
      invariant keySizes[j..] == sizes[j..] && Widened(tempSize1) == Narrowed(sizes[j - 1])
    {
      var tempSize2 := keySizes[j] % 256;
      keySizes := keySizes[j := Widened(tempSize1)];
      tempSize1 := tempSize2;
      j := j + 1;
    }
    SizesShifted(sizes, keySizes, i, n, z, Widened(tempSize1));
  }

  lemma SizesShifted(sizes: seq<nat>, keySizes: seq<nat>, i: nat, n: nat, z: nat, last: nat)
    requires i < n <= |sizes| == |keySizes|
    requires keySizes[..i] == sizes[..i] && keySizes[i] == z && last == Narrowed(sizes[n - 1])
    requires forall m | i < m < n :: keySizes[m] == Narrowed(sizes[m - 1])
    ensures keySizes[..n] + [last] == WithSize(sizes[..n], i, z)
  {
    hide Narrowed;
    var shifted, all := keySizes[..n] + [last], WithSize(sizes[..n], i, z);
    assert sizes[..n][..i] == sizes[..i] == shifted[..i] == all[..i];
    assert sizes[..n][i..] == sizes[i..n] && shifted[i] == z == all[i];
    forall m | i < m <= n
      ensures shifted[m] == all[m]
    {
      assert shifted[m] == Narrowed(sizes[m - 1]) && sizes[i..n][m - 1 - i] == sizes[m - 1];
    }
  }

  /** Two nodes that share no memory. */
  ghost predicate Apart(a: Node, b: Node) {
    a != b && a.keys != b.keys && a.children != b.children
  }

  class Node {
    const order: nat
    var leaf: bool
    var keyCount: nat
    const keys: array<Key>
    const children: array<int>
    var keySizes: seq<nat>

    ghost predicate Shaped()
      reads this`keyCount, this`keySizes
    {
      && order >= 3 && keys.Length == order - 1 && children.Length == order && keyCount <= order - 1
      && |keySizes| == order - 1
    }

    /** The sizes of short keys are always right. */
    ghost predicate Valid()
      reads this`keyCount, this`keySizes, keys
    {
      Shaped() && ShortRight(keys[..keyCount], keySizes[..keyCount])
    }

    ghost function Value(): NodeV
      requires Shaped()
      reads this, keys, children
    {
      NodeV(leaf, keys[..keyCount], children[..keyCount + 1])
    }

    ghost function Sizes(): (zs: seq<nat>)
      requires Shaped()
      reads this
      ensures |zs| == keyCount
    {
      keySizes[..keyCount]
    }

    /** btreeCreateNodeBlock */
    constructor (order: nat, leaf: bool)
      requires order >= 3
      ensures Valid() && fresh(keys) && fresh(children)
      ensures this.order == order && this.leaf == leaf && keyCount == 0 && forall i | 0 <= i < order :: children[i] == 0
      ensures keySizes == seq(order - 1, _ => 0)
    {
      this.order, this.leaf, keyCount := order, leaf, 0;
      keys := new Key[order - 1](_ => NO_KEY);
      children := new int[order](_ => 0);
      keySizes := seq(order - 1, _ => 0);
    }

    /** The loop every operation starts with: up to the first key not less. */
    method FindKey(key: Key) returns (i: nat)
      requires Valid()
      ensures i == Find(keys[..keyCount], key) && i <= keyCount
    {
      i := 0;
      while i < keyCount && StrCmp(key, keys[i]) > 0
        invariant 0 <= i <= keyCount
        invariant forall j | 0 <= j < i :: Fraction(keys[j]) < Fraction(key)
      {
        i := i + 1;
      }
      FindIs(keys[..keyCount], key, i);
    }

    /** A new root, with its only key: a leaf, or two subtrees. */
    method Start(key: Key, first: int, second: int)
      requires Valid() && keyCount == 0 && (leaf ==> children[1] == second)
      modifies this`keyCount, this`keySizes, keys, children
      ensures Valid() && Value() == NodeV(leaf, [key], [first, second]) && Sizes() == [SizeOf(key)]
    {
      keys[0] := key;
      keySizes := keySizes[0 := SizeOf(key)];
      keyCount := 1;
      children[0] := first;
      if !leaf {
        children[1] := second;
      }
    }

    /** __addKey */
    method AddKey(key: Key, filePos: int, replaceDup: bool) returns (success: bool)
      requires Valid() && keyCount < order - 1
      modifies this, keys, children
      ensures Valid()
      ensures var was := old(Value());
              var i := Find(was.keys, key);
              if i < |was.keys| && was.keys[i] == key then
                !success && Value() == if replaceDup && leaf then was.(children := was.children[i := filePos]) else was
              else
                success && Value() == With(was, i, key, filePos)
      ensures Sizes() == if success then WithSize(old(Sizes()), Find(old(Value().keys), key), SizeOf(key)) else old(Sizes())
    {
      var i := FindKey(key);
      if i < keyCount && StrCmp(key, keys[i]) == 0 {
        if replaceDup && leaf {
          children[i] := filePos;
        }
        return false;
      }
      Add(i, key, filePos);
      success := true;
    }

    method Add(i: nat, key: Key, filePos: int)
      requires Valid() && keyCount < order - 1 && i <= keyCount
      modifies this, keys, children
      ensures Valid() && Value() == With(old(Value()), i, key, filePos)
      ensures Sizes() == WithSize(old(Sizes()), i, SizeOf(key))
    {
      hide Fraction, NulFree, ShortRight, WithSize, SizeOf;
      ghost var was, sizes := Value(), Sizes();
      ShortWith(was.keys, sizes, i, key);
      AddSize(i, key);
      InsertAt(keys, keyCount, i, key);
      InsertAt(children, keyCount + 1, if leaf then i else i + 1, filePos);
      keyCount := keyCount + 1;
    }

    method AddSize(i: nat, key: Key)
      requires Shaped() && keyCount < order - 1 && i <= keyCount
      modifies this`keySizes
      ensures |keySizes| == order - 1 && keySizes[..keyCount + 1] == WithSize(old(Sizes()), i, SizeOf(key))
    {
      hide SizeOf;
      var tempSize1;
      ghost var sizes := keySizes;
      keySizes, tempSize1 := ShiftSizes(keySizes, i, keyCount + 1, SizeOf(key));
      ghost var all := WithSize(sizes[..keyCount + 1], i, SizeOf(key));
      assert all[..keyCount + 1] == WithSize(sizes[..keyCount], i, SizeOf(key));
      assert all[..keyCount + 1] == keySizes[..keyCount + 1];
    }

    method Redirect(i: nat, off: int)
      requires Valid() && i <= keyCount
      modifies children
      ensures Valid() && Value() == old(Value()).(children := old(Value()).children[i := off]) && Sizes() == old(Sizes())
    {
      children[i] := off;
    }

    /** __removeKey2, and the shifting of __removeKey: key and child `index` go. */
    method RemoveAt(index: nat)
      requires Valid() && index < keyCount
      modifies this, keys, children
      ensures Valid() && Value() == Without(old(Value()), index)
      ensures Sizes() == old(Sizes()[..index]) + old(Sizes()[index + 1..])
    {
      hide Fraction, NulFree, ShortRight, Without;
      ghost var was, sizes := Value(), Sizes();
      ShortWithout(was, sizes, index);
      RemoveKeyAt(index);
      keySizes := keySizes[..index] + keySizes[index + 1..keyCount + 1] + [0] + keySizes[keyCount + 1..];
      assert Sizes() == sizes[..index] + sizes[index + 1..];
    }

    method RemoveKeyAt(index: nat)
      requires Shaped() && index < keyCount
      modifies this`keyCount, keys, children
      ensures Shaped() && keyCount == old(keyCount) - 1 && Value() == Without(old(Value()), index)
    {
      hide Fraction, NulFree;
      ghost var was := Value();
      CloseGap(keys, index, keyCount, NO_KEY);
      CloseGap(children, index, keyCount + 1, 0);
      keyCount := keyCount - 1;
      assert keys[..keyCount] == was.keys[..index] + was.keys[index + 1..];
      assert children[..keyCount + 1] == was.children[..index] + was.children[index + 1..];
    }

    /** __removeKey */
    method RemoveKey(key: Key) returns (success: bool, filePos: int)
      requires Valid()
      modifies this, keys, children
      ensures Valid()
      ensures var was := old(Value());
              var i := Find(was.keys, key);
              if old(leaf) && i < |was.keys| && was.keys[i] == key then
                && success && filePos == was.children[i] && Value() == Without(was, i)
                && Sizes() == old(Sizes())[..i] + old(Sizes())[i + 1..]
              else
                !success && Value() == was && Sizes() == old(Sizes())
    {
      var i := FindKey(key);
      if leaf && i < keyCount && StrCmp(keys[i], key) == 0 {
        filePos := children[i];
        RemoveAt(i);
        return true, filePos;
      }
      return false, 0;
    }

    /** The part of __splitNode that works on a full node: the new key goes in,
        the upper half goes to `temp`, the key between the halves is returned. */
    method Split(i: nat, key: Key, filePos: int, temp: Node, tempOff: int) returns (up: Key)
      requires Valid() && keyCount == order - 1 && i <= keyCount
      requires Apart(this, temp) && temp.Valid() && temp.order == order && temp.keyCount == 0 && temp.leaf == leaf
      modifies this, keys, children, temp, temp.keys, temp.children
      ensures Valid() && temp.Valid()
      ensures var full := With(old(Value()), i, key, filePos);
              && Value() == LeftHalf(full, order, tempOff) && temp.Value() == RightHalf(full, order)
              && up == full.keys[Div(full.leaf, order)]
      ensures var sizes := FullWithSize(old(Sizes()), i, SizeOf(key));
              Sizes() == sizes[..keyCount] && temp.Sizes() == sizes[Div(leaf, order) + 1..]
    {
      hide Fraction, NulFree, ShortRight, FullWithSize, With, LeftHalf, RightHalf;
      ghost var was, sizes := Value(), FullWithSize(Sizes(), i, SizeOf(key));
      ShortHalves(was, Sizes(), i, key, filePos, order, tempOff);
      var tempSize1 := PushSize(i, key);
      up := SplitKeys(i, key, filePos, temp, tempOff);
      MoveSizes(sizes, tempSize1, temp);
    }

    method SplitKeys(i: nat, key: Key, filePos: int, temp: Node, tempOff: int) returns (up: Key)
      requires Shaped() && keyCount == order - 1 && i <= keyCount
      requires Apart(this, temp) && temp.Shaped() && temp.order == order && temp.keyCount == 0 && temp.leaf == leaf
      modifies this`keyCount, keys, children, temp`keyCount, temp.keys, temp.children
      ensures Shaped() && temp.Shaped()
      ensures var full := With(old(Value()), i, key, filePos);
              && Value() == LeftHalf(full, order, tempOff) && temp.Value() == RightHalf(full, order)
              && up == full.keys[Div(full.leaf, order)]
    {
      hide Fraction, NulFree;
      ghost var full := With(Value(), i, key, filePos);
      var temp1: Key := PushKey(i, key);
      var offset1 := PushChild(if leaf then i else i + 1, filePos);
      assert full.keys == keys[..] + [temp1];
      assert full.children == children[..] + [offset1];
      up := MoveUpper(full, temp1, offset1, temp, tempOff);
    }

    /** A new size in a full node; the last one falls out, as a char. */
    method PushSize(i: nat, key: Key) returns (tempSize1: byte)
      requires Shaped() && keyCount == order - 1 && i <= keyCount
      modifies this`keySizes
      ensures |keySizes| == order - 1 && keySizes + [Widened(tempSize1)] == FullWithSize(old(Sizes()), i, SizeOf(key))
    {
      hide SizeOf;
      ghost var sizes := keySizes;
      assert sizes[..keyCount] == sizes;
      if i < order - 1 {
        keySizes, tempSize1 := ShiftSizes(keySizes, i, order - 1, SizeOf(key));
        assert keySizes[..order - 1] == keySizes;
      } else {
        tempSize1 := SizeOf(key) % 256;
      }
    }

    /** The sizes follow their keys. */
    method MoveSizes(ghost all: seq<nat>, tempSize1: byte, temp: Node)
      requires Shaped() && temp.Shaped() && temp.order == order && this != temp
      requires all == keySizes + [Widened(tempSize1)]
      requires keyCount == (if leaf then Div(leaf, order) + 1 else Div(leaf, order)) && temp.keyCount == order - 1 - Div(leaf, order)
      modifies this`keySizes, temp`keySizes
      ensures Shaped() && temp.Shaped()
      ensures Sizes() == all[..keyCount] && temp.Sizes() == all[Div(leaf, order) + 1..]
    {
      hide Widened;
      var i := Div(leaf, order) + 1;
      temp.keySizes := keySizes[i..] + [Widened(tempSize1)] + temp.keySizes[order - i..];
      keySizes := keySizes[..keyCount] + seq(order - 1 - keyCount, _ => 0);
    }

    /** A new key in a full node; the last one falls out. */
    method PushKey(i: nat, key: Key) returns (temp1: Key)
      requires Shaped() && keyCount == order - 1 && i <= keyCount
      modifies keys
      ensures keys[..] + [temp1] == old(keys[..i]) + [key] + old(keys[i..])
    {
      hide Fraction, NulFree;
      if i < order - 1 {
        temp1 := ShiftIn(keys, i, order - 1, key);
        assert keys[..] == keys[..order - 1];
      } else {
        temp1 := key;
      }
    }

    /** A new child in a full node; the last one falls out. */
    method PushChild(j: nat, filePos: int) returns (offset1: int)
      requires Shaped() && keyCount == order - 1 && j <= order
      modifies children
      ensures children[..] + [offset1] == old(children[..j]) + [filePos] + old(children[j..])
    {
      if j < order {
        offset1 := ShiftIn(children, j, order, filePos);
        assert children[..] == children[..order];
      } else {
        offset1 := filePos;
      }
    }

    /** The rest of __splitNode: the overfull contents are the arrays and the
        two values that fell out of them. */
    method MoveUpper(ghost full: NodeV, temp1: Key, offset1: int, temp: Node, tempOff: int) returns (up: Key)
      requires Shaped() && Apart(this, temp) && temp.Shaped() && temp.order == order && temp.keyCount == 0
      requires temp.leaf == leaf == full.leaf
      requires full.keys == keys[..] + [temp1] && full.children == children[..] + [offset1]
      modifies this`keyCount, keys, children, temp`keyCount, temp.keys, temp.children
      ensures Shaped() && temp.Shaped()
      ensures Value() == LeftHalf(full, order, tempOff) && temp.Value() == RightHalf(full, order)
      ensures up == full.keys[Div(full.leaf, order)]
    {
      hide Fraction, NulFree;
      var div := Div(leaf, order);
      up := keys[div];
      MoveKeys(full.keys, temp1, temp, div);
      MoveChildren(full.children, offset1, temp, div);
      temp.keyCount := order - 1 - div;
      KeepLower(div, tempOff);
    }

    /** What is left of the node: a leaf is linked to the upper half, an internal
        node gives its last key away. */
    method KeepLower(div: nat, tempOff: int)
      requires Shaped() && div + 1 < order
      modifies this`keyCount, keys, children
      ensures Shaped() && keyCount == (if leaf then div + 1 else div) && keys[..keyCount] == old(keys[..div + 1])[..keyCount]
      ensures children[..keyCount + 1] == old(children[..div + 1]) + (if leaf then [tempOff] else [])
    {
      hide Fraction, NulFree;
      if leaf {
        keyCount := div + 1;
        children[keyCount] := tempOff;
      } else {
        keyCount := div;
        keys[keyCount] := NO_KEY;
      }
    }

    method MoveKeys(ghost all: seq<Key>, temp1: Key, temp: Node, div: nat)
      requires Shaped() && temp.Shaped() && temp.order == order && keys != temp.keys
      requires all == keys[..] + [temp1] && div < order - 1
      modifies keys, temp.keys
      ensures keys[..div + 1] == all[..div + 1]
      ensures temp.keys[..order - 1 - div] == all[div + 1..]
    {
      hide Fraction, NulFree;
      MoveTail(keys, div + 1, temp.keys, NO_KEY);
      temp.keys[order - 2 - div] := temp1;
      assert keys[..div + 1] == all[..div + 1];
      assert temp.keys[..order - 1 - div] == all[div + 1..];
    }

    method MoveChildren(ghost all: seq<int>, offset1: int, temp: Node, div: nat)
      requires Shaped() && temp.Shaped() && temp.order == order && children != temp.children
      requires all == children[..] + [offset1] && div < order - 1
      modifies children, temp.children
      ensures children[..div + 1] == all[..div + 1]
      ensures temp.children[..order - div] == all[div + 1..]
    {
      MoveTail(children, div + 1, temp.children, 0);
      temp.children[order - 1 - div] := offset1;
      assert children[..div + 1] == all[..div + 1];
      assert temp.children[..order - div] == all[div + 1..];
    }

    /** __borrowRight: the first key of the right sibling comes over. */
    method BorrowRight(prev: Node, node: Node, div: nat)
      requires Valid() && prev.Valid() && node.Valid() && keyCount < order - 1
      requires Apart(this, prev) && Apart(this, node) && Apart(prev, node)
      requires leaf == node.leaf && node.keyCount > 0 && div < prev.keyCount
      modifies this, keys, children, prev.keys, prev`keySizes, node, node.keys, node.children
      ensures Valid() && prev.Valid() && node.Valid()
      ensures var (c, p, s) := (old(Value()), old(prev.Value()), old(node.Value()));
              && Value() == BorrowedRight(c, p.keys[div], s)
              && prev.Value() == p.(keys := p.keys[div := s.keys[0]])
              && node.Value() == Without(s, 0)
      ensures var (c, p, s) := (old(Sizes()), old(prev.Sizes()), old(node.Sizes()));
              && Sizes() == c + [if node.leaf then s[0] else p[div]]
              && prev.Sizes() == p[div := s[0]] && node.Sizes() == s[1..]
    {
      hide Fraction, NulFree, ShortRight, BorrowedRight;
      ghost var c, p, s := Value(), prev.Value(), node.Value();
      ShortBorrowedRight(c, Sizes(), p, prev.Sizes(), s, node.Sizes(), div);
      SizeFromRight(prev, node, div);
      KeyFromRight(prev, node, div);
      node.RemoveAt(0);
    }

    method KeyFromRight(prev: Node, node: Node, div: nat)
      requires Shaped() && prev.Shaped() && node.Shaped() && keyCount < order - 1
      requires Apart(this, prev) && Apart(this, node) && Apart(prev, node)
      requires leaf == node.leaf && node.keyCount > 0 && div < prev.keyCount
      modifies this`keyCount, keys, children, prev.keys
      ensures Shaped() && prev.Shaped() && keyCount == old(keyCount) + 1
      ensures var (c, p, s) := (old(Value()), old(prev.Value()), old(node.Value()));
              Value() == BorrowedRight(c, p.keys[div], s) && prev.Value() == p.(keys := p.keys[div := s.keys[0]])
    {
      hide Fraction, NulFree;
      ghost var c, p, s := Value(), prev.Value(), node.Value();
      if node.leaf {
        children[keyCount + 1] := children[keyCount];
        keys[keyCount] := node.keys[0];
        children[keyCount] := node.children[0];
        prev.keys[div] := keys[keyCount];
      } else {
        keys[keyCount] := prev.keys[div];
        prev.keys[div] := node.keys[0];
        children[keyCount + 1] := node.children[0];
      }
      keyCount := keyCount + 1;
      assert Value() == BorrowedRight(c, p.keys[div], s);
    }

    method SizeFromRight(prev: Node, node: Node, div: nat)
      requires Shaped() && prev.Shaped() && node.Shaped() && this != prev && this != node && prev != node
      requires keyCount < order - 1 && node.keyCount > 0 && div < prev.keyCount
      modifies this`keySizes, prev`keySizes
      ensures Shaped() && prev.Shaped()
      ensures keySizes[..keyCount + 1] == old(Sizes()) + [if node.leaf then node.keySizes[0] else old(prev.keySizes[div])]
      ensures prev.Sizes() == old(prev.Sizes())[div := node.keySizes[0]]
    {
      keySizes := keySizes[keyCount := if node.leaf then node.keySizes[0] else prev.keySizes[div]];
      prev.keySizes := prev.keySizes[div := node.keySizes[0]];
    }

    /** __borrowLeft: the last key of the left sibling comes over. */
    method BorrowLeft(prev: Node, node: Node, div: nat)
      requires Valid() && prev.Valid() && node.Valid() && keyCount < order - 1
      requires Apart(this, prev) && Apart(this, node) && Apart(prev, node)
      requires leaf == node.leaf && node.keyCount > (if node.leaf then 1 else 0) && 0 < div <= prev.keyCount
      modifies this, keys, children, prev.keys, prev`keySizes, node, node.keys, node.children
      ensures Valid() && prev.Valid() && node.Valid()
      ensures var (c, p, s) := (old(Value()), old(prev.Value()), old(node.Value()));
              && Value() == BorrowedLeft(c, p.keys[div - 1], s)
              && prev.Value() == p.(keys := p.keys[div - 1 := s.keys[|s.keys| - (if s.leaf then 2 else 1)]])
              && node.Value() == Shortened(s)
      ensures var (c, p, s) := (old(Sizes()), old(prev.Sizes()), old(node.Sizes()));
              && Sizes() == [if node.leaf then s[|s| - 1] else p[div - 1]] + c
              && prev.Sizes() == p[div - 1 := s[|s| - (if node.leaf then 2 else 1)]] && node.Sizes() == s[..|s| - 1]
    {
      hide Fraction, NulFree, ShortRight, BorrowedLeft, Shortened;
      ghost var c, p, s := Value(), prev.Value(), node.Value();
      ShortBorrowedLeft(c, Sizes(), p, prev.Sizes(), s, node.Sizes(), div);
      hide Value;
      SizeFromLeft(prev, node, div);
      KeyFromLeft(prev, node, div);
      node.Shorten();
    }

    method KeyFromLeft(prev: Node, node: Node, div: nat)
      requires Shaped() && prev.Shaped() && node.Shaped() && keyCount < order - 1
      requires Apart(this, prev) && Apart(this, node) && Apart(prev, node)
      requires leaf == node.leaf && node.keyCount > (if node.leaf then 1 else 0) && 0 < div <= prev.keyCount
      modifies this`keyCount, keys, children, prev.keys
      ensures Shaped() && prev.Shaped() && keyCount == old(keyCount) + 1
      ensures var (c, p, s) := (old(Value()), old(prev.Value()), old(node.Value()));
              && Value() == BorrowedLeft(c, p.keys[div - 1], s)
              && prev.Value() == p.(keys := p.keys[div - 1 := s.keys[|s.keys| - (if s.leaf then 2 else 1)]])
    {
      hide Fraction, NulFree;
      ghost var c, p, s := Value(), prev.Value(), node.Value();
      var n := node.keyCount;
      OpenFront(keys, keyCount, if node.leaf then node.keys[n - 1] else prev.keys[div - 1]);
      OpenFront(children, keyCount + 1, if node.leaf then node.children[n - 1] else node.children[n]);
      keyCount := keyCount + 1;
      assert Value() == BorrowedLeft(c, p.keys[div - 1], s);
      prev.keys[div - 1] := node.keys[if node.leaf then n - 2 else n - 1];
    }

    method SizeFromLeft(prev: Node, node: Node, div: nat)
      requires Shaped() && prev.Shaped() && node.Shaped() && this != prev && this != node && prev != node
      requires keyCount < order - 1 && node.keyCount > (if node.leaf then 1 else 0) && 0 < div <= prev.keyCount
      modifies this`keySizes, prev`keySizes
      ensures Shaped() && prev.Shaped()
      ensures var n := node.keyCount;
              && keySizes[..keyCount + 1] == [if node.leaf then node.keySizes[n - 1] else old(prev.keySizes[div - 1])] + old(Sizes())
              && prev.Sizes() == old(prev.Sizes())[div - 1 := node.keySizes[if node.leaf then n - 2 else n - 1]]
    {
      var n := node.keyCount;
      keySizes := [if node.leaf then node.keySizes[n - 1] else prev.keySizes[div - 1]] + keySizes[..keyCount] + keySizes[keyCount + 1..];
      prev.keySizes := prev.keySizes[div - 1 := node.keySizes[if node.leaf then n - 2 else n - 1]];
    }

    /** The last key of a node goes, with its child. */
    method Shorten()
      requires Valid() && keyCount > 0
      modifies this`keyCount, this`keySizes, keys, children
      ensures Valid() && Value() == Shortened(old(Value())) && Sizes() == old(Sizes()[..keyCount - 1])
    {
      hide ShortRight;
      ghost var was, sizes := Value(), Sizes();
      ShortShortened(was, sizes);
      if leaf {
        children[keyCount - 1] := children[keyCount];
      }
      children[keyCount] := 0;
      keys[keyCount - 1] := NO_KEY;
      keySizes := keySizes[keyCount - 1 := 0];
      keyCount := keyCount - 1;
      assert Value() == Shortened(was) && Sizes() == sizes[..|sizes| - 1];
    }

    /** The appending loop of __mergeNode: the right node, with the separator in
        front of it when the nodes are internal, goes behind this one. */
    method Append(sep: Key, sepSize: nat, right: Node)
      requires Valid() && right.Valid() && Apart(this, right) && ShortRight([sep], [sepSize])
      requires leaf == right.leaf
      requires keyCount + right.keyCount + (if leaf then 0 else 1) <= order - 1
      modifies this`keyCount, this`keySizes, keys, children
      ensures Valid() && Value() == Merged(old(Value()), sep, right.Value())
      ensures Sizes() == old(Sizes()) + (if leaf then [] else [sepSize]) + right.Sizes()
    {
      hide Fraction, NulFree, ShortRight, Merged;
      ShortMerged(Value(), Sizes(), sep, sepSize, right.Value(), right.Sizes());
      AppendSizes(sepSize, right);
      AppendKeys(sep, right);
    }

    method AppendKeys(sep: Key, right: Node)
      requires Shaped() && right.Shaped() && Apart(this, right)
      requires leaf == right.leaf
      requires keyCount + right.keyCount + (if leaf then 0 else 1) <= order - 1
      modifies this`keyCount, keys, children
      ensures Shaped() && keyCount == old(keyCount) + (if leaf then 0 else 1) + right.keyCount
      ensures Value() == Merged(old(Value()), sep, right.Value())
    {
      hide Fraction, NulFree, Merged;
      ghost var l, r := Value(), right.Value();
      var i := keyCount;
      if !leaf {
        keys[i] := sep;
        i := i + 1;
      }
      assert keys[..i] == l.keys + (if leaf then [] else [sep]);
      assert children[..i] == if leaf then l.children[..|l.keys|] else l.children;
      CopyNode(i, right);
      MergedIs(l, sep, r);
    }

    method CopyNode(i: nat, right: Node)
      requires Shaped() && right.Shaped() && Apart(this, right) && i + right.keyCount <= order - 1
      modifies this`keyCount, keys, children
      ensures Shaped() && keyCount == i + right.keyCount
      ensures keys[..keyCount] == old(keys[..i]) + right.Value().keys
      ensures children[..keyCount + 1] == old(children[..i]) + right.Value().children
    {
      hide Fraction, NulFree;
      CopyIn(keys, i, right.keys, right.keyCount);
      CopyIn(children, i, right.children, right.keyCount + 1);
      keyCount := i + right.keyCount;
    }

    method AppendSizes(sepSize: nat, right: Node)
      requires Shaped() && right.Shaped() && this != right
      requires keyCount + right.keyCount + (if leaf then 0 else 1) <= order - 1
      modifies this`keySizes
      ensures Shaped()
      ensures var sizes := old(Sizes()) + (if leaf then [] else [sepSize]) + right.Sizes();
              keySizes[..|sizes|] == sizes
    {
      var sizes := keySizes[..keyCount] + (if leaf then [] else [sepSize]) + right.keySizes[..right.keyCount];
      keySizes := sizes + keySizes[|sizes|..];
    }
  }
}
