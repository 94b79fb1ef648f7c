/** Cabin's array sorts, for any comparison that is a total preorder. */
module CabinSort {

  ghost predicate Preorder<T(!new)>(cmp: (T, T) -> int) {
    && (forall a, b :: cmp(a, b) > 0 <==> cmp(b, a) < 0)
    && (forall a, b, c :: cmp(a, b) <= 0 && cmp(b, c) <= 0 ==> cmp(a, c) <= 0)
  }

  lemma Through<T(!new)>(cmp: (T, T) -> int, a: T, b: T, c: T)
    requires Preorder(cmp) && cmp(a, b) <= 0 && cmp(b, c) <= 0
    ensures cmp(a, c) <= 0
  {
  }

  lemma Turned<T(!new)>(cmp: (T, T) -> int, a: T, b: T)
    requires Preorder(cmp)
    ensures cmp(a, b) > 0 <==> cmp(b, a) < 0
    ensures cmp(a, b) < 0 <==> cmp(b, a) > 0
    ensures cmp(a, a) == 0
  {
    assert cmp(a, a) > 0 <==> cmp(a, a) < 0;
  }

  ghost predicate Sorted<T(!new)>(cmp: (T, T) -> int, s: seq<T>) {
    forall i, j | 0 <= i < j < |s| :: cmp(s[i], s[j]) <= 0
  }

  lemma SortedMeans<T(!new)>(cmp: (T, T) -> int, s: seq<T>)
    requires Sorted(cmp, s)
    ensures forall i, j | 0 <= i < j < |s| :: cmp(s[i], s[j]) <= 0
  {
  }

  ghost predicate AllLe<T(!new)>(cmp: (T, T) -> int, s: seq<T>, p: T) {
    forall i | 0 <= i < |s| :: cmp(s[i], p) <= 0
  }

  ghost predicate AllGe<T(!new)>(cmp: (T, T) -> int, s: seq<T>, p: T) {
    forall i | 0 <= i < |s| :: cmp(p, s[i]) <= 0
  }

  /** A rearrangement of the same elements. */
  ghost predicate Permuted<T>(s: seq<T>, t: seq<T>) {
    |s| == |t| && multiset(s) == multiset(t)
  }

  // ---------- insertion sort ----------

  lemma InsertSorted<T(!new)>(cmp: (T, T) -> int, s: seq<T>, j: nat, x: T)
    requires Preorder(cmp) && Sorted(cmp, s) && j <= |s|
    requires j > 0 ==> cmp(s[j - 1], x) <= 0
    requires forall k | j <= k < |s| :: cmp(x, s[k]) <= 0
    ensures Sorted(cmp, s[..j] + [x] + s[j..])
  {
    hide Preorder;
    var t := s[..j] + [x] + s[j..];
    forall i, k | 0 <= i < k < |t|
      ensures cmp(t[i], t[k]) <= 0
    {
      if k == j && i < j - 1 {
        Through(cmp, s[i], s[j - 1], x);
      }
    }
  }

  lemma InsertPermuted<T>(s: seq<T>, j: nat, x: T)
    requires j <= |s|
    ensures Permuted(s + [x], s[..j] + [x] + s[j..])
  {
    assert s == s[..j] + s[j..];
  }

  lemma Trivial<T(!new)>(cmp: (T, T) -> int, s: seq<T>)
    requires |s| <= 1
    ensures Sorted(cmp, s) && Permuted(s, s)
  {
  }

  lemma PermutedMore<T>(was: seq<T>, s: seq<T>, x: T, t: seq<T>)
    requires Permuted(was, s) && Permuted(s + [x], t)
    ensures Permuted(was + [x], t)
  {
  }

  /** Element `i` taken out and put in at `j`. */
  ghost function Moved<T>(w: seq<T>, j: nat, i: nat): (m: seq<T>)
    requires j <= i < |w|
  {
    w[..j] + [w[i]] + w[j..i] + w[i + 1..]
  }

  lemma MovedSlices<T>(w: seq<T>, lo: nat, j: nat, i: nat)
    requires lo <= j <= i < |w|
    ensures var m := Moved(w, j, i);
            && |m| == |w| && m[..lo] == w[..lo] && m[i + 1..] == w[i + 1..]
            && m[lo..i + 1] == w[lo..i][..j - lo] + [w[i]] + w[lo..i][j - lo..]
  {
    var m := Moved(w, j, i);
    assert m[..lo] == w[..lo];
    assert m[i + 1..] == w[i + 1..];
  }

  /** What moving an element does to the sorted range in front of it. */
  lemma MovedRange<T(!new)>(cmp: (T, T) -> int, w: seq<T>, lo: nat, j: nat, i: nat, was: seq<T>)
    requires Preorder(cmp) && lo <= j <= i < |w| == |was|
    requires Sorted(cmp, w[lo..i]) && Permuted(was[lo..i], w[lo..i]) && w[i..] == was[i..]
    requires j > lo ==> cmp(w[j - 1], w[i]) <= 0
    requires forall k | j <= k < i :: cmp(w[i], w[k]) <= 0
    ensures var m := Moved(w, j, i);
            && |m| == |w| && m[..lo] == w[..lo] && m[i + 1..] == w[i + 1..]
            && Sorted(cmp, m[lo..i + 1]) && Permuted(was[lo..i + 1], m[lo..i + 1])
  {
    hide Preorder, Sorted, Permuted, Moved;
    var s, x, m := w[lo..i], w[i], Moved(w, j, i);
    MovedSlices(w, lo, j, i);
    assert was[lo..i + 1] == was[lo..i] + [x] by {
      assert was[i] == was[i..][0] == w[i..][0] == x;
    }
    MovedIn(cmp, s, j - lo, x, was[lo..i]);
  }

  lemma MovedIn<T(!new)>(cmp: (T, T) -> int, s: seq<T>, j: nat, x: T, was: seq<T>)
    requires Preorder(cmp) && Sorted(cmp, s) && j <= |s| && Permuted(was, s)
    requires j > 0 ==> cmp(s[j - 1], x) <= 0
    requires forall k | j <= k < |s| :: cmp(x, s[k]) <= 0
    ensures Sorted(cmp, s[..j] + [x] + s[j..]) && Permuted(was + [x], s[..j] + [x] + s[j..])
  {
    hide Preorder, Sorted, Permuted;
    InsertSorted(cmp, s, j, x);
    InsertPermuted(s, j, x);
    PermutedMore(was, s, x, s[..j] + [x] + s[j..]);
  }

  /** cbisort on `n` elements from `lo` on. */
  method InsertionSort<T(!new)>(a: array<T>, lo: nat, n: nat, cmp: (T, T) -> int)
    requires lo + n <= a.Length && Preorder(cmp)
    modifies a
    ensures a[..lo] == old(a[..lo]) && a[lo + n..] == old(a[lo + n..])
    ensures Sorted(cmp, a[lo..lo + n]) && Permuted(old(a[lo..lo + n]), a[lo..lo + n])
  {
    hide Preorder, Sorted, Permuted, Moved;
    ghost var was := a[..];
    if n == 0 {
      Trivial(cmp, a[lo..lo]);
      return;
    }
    Trivial(cmp, a[lo..lo + 1]);
    var i := lo + 1;
    while i < lo + n
      invariant lo < i <= lo + n
      invariant a[..lo] == was[..lo] && a[i..] == was[i..]
      invariant Sorted(cmp, a[lo..i]) && Permuted(was[lo..i], a[lo..i])
    {
      ghost var w := a[..];
      Turned(cmp, a[i - 1], a[i]);
      if cmp(a[i - 1], a[i]) > 0 {
        var j := Insert(a, lo, i, cmp);
        MovedRange(cmp, w, lo, j, i, was);
        assert a[..lo] == a[..][..lo] && a[i + 1..] == a[..][i + 1..] && a[lo..i + 1] == a[..][lo..i + 1];
      } else {
        MovedNot(w, i);
        MovedRange(cmp, w, lo, i, i, was);
      }
      assert was[i..][1..] == was[i + 1..] && w[i..][1..] == w[i + 1..];
      i := i + 1;
    }
  }

  lemma MovedNot<T>(w: seq<T>, i: nat)
    requires i < |w|
    ensures Moved(w, i, i) == w
  {
  }

  /** The inner loop: element `i` moves down to its place. */
  method Insert<T(!new)>(a: array<T>, lo: nat, i: nat, cmp: (T, T) -> int) returns (j: nat)
    requires lo <= i < a.Length && Preorder(cmp)
    modifies a
    ensures lo <= j <= i && a[..] == Moved(old(a[..]), j, i)
    ensures j > lo ==> cmp(old(a[j - 1]), old(a[i])) <= 0
    ensures forall k | j <= k < i :: cmp(old(a[i]), old(a[k])) <= 0
  {
    hide Preorder;
    var swap := a[i];
    j := i;
    while j > lo && cmp(a[j - 1], swap) >= 0
      invariant lo <= j <= i
      invariant forall k | 0 <= k < j || i < k < a.Length :: a[k] == old(a[k])
      invariant forall k | j < k <= i :: a[k] == old(a[k - 1])
      invariant forall k | j <= k < i :: cmp(swap, old(a[k])) <= 0
    {
      Turned(cmp, a[j - 1], swap);
      a[j] := a[j - 1];
      j := j - 1;
    }
    a[j] := swap;
  }

  // ---------- quicksort ----------

  /** A range of `n` elements after partitioning around `p`: nothing above `p`
      before `top`, nothing below it behind `bottom`; both parts are shorter
      than the whole, though they may share the element between them. */
  ghost predicate Parted<T(!new)>(cmp: (T, T) -> int, s: seq<T>, p: T, top: nat, bottom: nat) {
    && bottom < top <= bottom + 2 && top < |s| && 0 <= bottom < |s|
    && AllLe(cmp, s[..top], p) && AllGe(cmp, s[bottom + 1..], p)
  }

  lemma AllLePermuted<T(!new)>(cmp: (T, T) -> int, s: seq<T>, t: seq<T>, p: T)
    requires Permuted(s, t) && AllLe(cmp, s, p)
    ensures AllLe(cmp, t, p)
  {
    forall i | 0 <= i < |t|
      ensures cmp(t[i], p) <= 0
    {
      assert t[i] in multiset(t);
      assert t[i] in s;
    }
  }

  lemma AllGePermuted<T(!new)>(cmp: (T, T) -> int, s: seq<T>, t: seq<T>, p: T)
    requires Permuted(s, t) && AllGe(cmp, s, p)
    ensures AllGe(cmp, t, p)
  {
    forall i | 0 <= i < |t|
      ensures cmp(p, t[i]) <= 0
    {
      assert t[i] in multiset(t);
      assert t[i] in s;
    }
  }

  /** Rearranging a part rearranges the whole. */
  lemma PartPermuted<T>(s: seq<T>, t: seq<T>, i: nat, j: nat)
    requires |s| == |t| && i <= j <= |s|
    requires s[..i] == t[..i] && s[j..] == t[j..] && Permuted(s[i..j], t[i..j])
    ensures Permuted(s, t)
  {
    assert s == s[..i] + s[i..j] + s[j..];
    assert t == t[..i] + t[i..j] + t[j..];
  }

  /** Partitioned, then both parts sorted, one after the other: sorted, even when
      the parts overlap in one element. */
  lemma PartsSorted<T(!new)>(cmp: (T, T) -> int, s: seq<T>, s1: seq<T>, s2: seq<T>, p: T, top: nat, bottom: nat)
    requires Preorder(cmp) && |s| == |s1| == |s2| && Parted(cmp, s, p, top, bottom)
    requires Sorted(cmp, s1[..top]) && Permuted(s[..top], s1[..top]) && s1[top..] == s[top..]
    requires Sorted(cmp, s2[bottom + 1..]) && Permuted(s1[bottom + 1..], s2[bottom + 1..]) && s2[..bottom + 1] == s1[..bottom + 1]
    ensures Sorted(cmp, s2) && Permuted(s, s2)
  {
    hide Preorder;
    AllLePermuted(cmp, s[..top], s1[..top], p);
    MiddleGe(cmp, s, s1, p, top, bottom);
    AllGePermuted(cmp, s1[bottom + 1..], s2[bottom + 1..], p);
    assert s[0..top] == s[..top] && s1[0..top] == s1[..top];
    PartPermuted(s, s1, 0, top);
    assert s1[bottom + 1..|s|] == s1[bottom + 1..] && s2[bottom + 1..|s|] == s2[bottom + 1..];
    PartPermuted(s1, s2, bottom + 1, |s|);
    assert AllLe(cmp, s2[..bottom + 1], p) by {
      assert s2[..bottom + 1] == s1[..top][..bottom + 1];
    }
    assert Sorted(cmp, s2[..bottom + 1]) by {
      assert s2[..bottom + 1] == s1[..top][..bottom + 1];
    }
    hide Parted, Permuted;
    SortedJoin(cmp, s2[..bottom + 1], s2[bottom + 1..], p);
    assert s2 == s2[..bottom + 1] + s2[bottom + 1..];
  }

  lemma SortedJoin<T(!new)>(cmp: (T, T) -> int, a: seq<T>, b: seq<T>, p: T)
    requires Preorder(cmp) && Sorted(cmp, a) && Sorted(cmp, b) && AllLe(cmp, a, p) && AllGe(cmp, b, p)
    ensures Sorted(cmp, a + b)
  {
    hide Preorder;
    var s := a + b;
    forall i, j | 0 <= i < j < |s|
      ensures cmp(s[i], s[j]) <= 0
    {
      if i < |a| <= j {
        Through(cmp, a[i], p, b[j - |a|]);
      }
    }
  }

  /** What the left sort did to a shared element: it is the largest of the left
      part and still not below `p`. */
  lemma MiddleGe<T(!new)>(cmp: (T, T) -> int, s: seq<T>, s1: seq<T>, p: T, top: nat, bottom: nat)
    requires Preorder(cmp) && |s| == |s1| && Parted(cmp, s, p, top, bottom)
    requires Sorted(cmp, s1[..top]) && Permuted(s[..top], s1[..top]) && s1[top..] == s[top..]
    ensures AllGe(cmp, s1[bottom + 1..], p)
  {
    hide Preorder;
    forall i | bottom < i < |s|
      ensures cmp(p, s1[i]) <= 0
    {
      if i < top {
        var x := s[..top][i];
        assert x == s[bottom + 1..][i - bottom - 1];
        assert x in multiset(s[..top]);
        assert x in s1[..top];
        var k :| 0 <= k < top && s1[..top][k] == x;
        assert k < i ==> cmp(s1[..top][k], s1[..top][i]) <= 0;
        assert x == s1[k] && i == top - 1 && k <= i;
        if k < i {
          Through(cmp, p, x, s1[i]);
        }
      } else {
        assert s1[i] == s1[top..][i - top] == s[i] == s[bottom + 1..][i - bottom - 1];
      }
    }
  }

  /** The range of `n` elements from `lo` on, and what is around it. */
  ghost function Range<T>(a: array<T>, lo: nat, n: nat): (s: seq<T>)
    requires lo + n <= a.Length
    reads a
    ensures |s| == n && forall k | 0 <= k < n :: s[k] == a[lo + k]
  {
    a[lo..lo + n]
  }

  ghost function Around<T>(a: array<T>, lo: nat, n: nat): (seq<T>, seq<T>)
    requires lo + n <= a.Length
    reads a
  {
    (a[..lo], a[lo + n..])
  }

  /** Exchange two elements of a range, if they are two. */
  method Swap<T>(a: array<T>, lo: nat, n: nat, i: nat, j: nat)
    requires lo + n <= a.Length && i < n && j < n
    modifies a
    ensures Around(a, lo, n) == old(Around(a, lo, n))
    ensures var s := old(Range(a, lo, n)); Range(a, lo, n) == s[i := s[j]][j := s[i]]
  {
    if i != j {
      a[lo + i], a[lo + j] := a[lo + j], a[lo + i];
    }
  }

  /** Between the steps of the loop: nothing above `p` before `top`, nothing
      below it behind `bottom`; an index that has not moved yet shows that no two
      elements were exchanged, and that the other one passed smaller (larger)
      elements only. */
  ghost predicate Scanned<T(!new)>(cmp: (T, T) -> int, s: seq<T>, was: seq<T>, p: T, top: int, bottom: int) {
    && |s| == |was| && Permuted(was, s)
    && 0 <= bottom < |s| && 0 <= top < |s| && top <= bottom + 2
    && (forall k | 0 <= k < top :: cmp(s[k], p) <= 0)
    && (forall k | bottom < k < |s| :: cmp(p, s[k]) <= 0)
    && (top == 0 ==> s == was && forall k | bottom < k < |s| :: cmp(s[k], p) > 0)
    && (bottom == |s| - 1 ==> s == was && forall k | 0 <= k < top :: cmp(s[k], p) < 0)
  }

  /** Neither index runs through: the pivot is still there. */
  lemma StepTop<T(!new)>(cmp: (T, T) -> int, s: seq<T>, was: seq<T>, p: T, top: nat, bottom: int)
    requires Preorder(cmp) && Scanned(cmp, s, was, p, top, bottom) && |s| >= 10 && was[|s| / 2] == p
    requires top <= bottom && cmp(s[top], p) < 0
    ensures top + 1 < |s| && Scanned(cmp, s, was, p, top + 1, bottom)
  {
    Turned(cmp, p, p);
    hide Preorder, Permuted;
    assert s == was ==> s[|s| / 2] == p;
  }

  lemma StepBottom<T(!new)>(cmp: (T, T) -> int, s: seq<T>, was: seq<T>, p: T, top: int, bottom: nat)
    requires Preorder(cmp) && Scanned(cmp, s, was, p, top, bottom) && |s| >= 10 && was[|s| / 2] == p
    requires top <= bottom && cmp(s[bottom], p) > 0
    ensures bottom > 0 && Scanned(cmp, s, was, p, top, bottom - 1)
  {
    hide Preorder, Permuted;
    Turned(cmp, p, p);
    Turned(cmp, s[bottom], p);
    assert s == was ==> s[|s| / 2] == p;
  }

  lemma SwapPermuted<T>(s: seq<T>, i: nat, j: nat)
    requires i < |s| && j < |s|
    ensures Permuted(s, s[i := s[j]][j := s[i]])
  {
  }

  lemma StepSwap<T(!new)>(cmp: (T, T) -> int, s: seq<T>, was: seq<T>, p: T, top: nat, bottom: nat)
    requires Preorder(cmp) && Scanned(cmp, s, was, p, top, bottom) && |s| >= 10 && was[|s| / 2] == p
    requires top <= bottom && cmp(s[top], p) >= 0 && cmp(s[bottom], p) <= 0
    ensures top + 1 < |s| && bottom > 0
    ensures Scanned(cmp, s[top := s[bottom]][bottom := s[top]], was, p, top + 1, bottom - 1)
  {
    hide Preorder, Permuted;
    Turned(cmp, p, p);
    Turned(cmp, s[top], p);
    Turned(cmp, s[bottom], p);
    var s' := s[top := s[bottom]][bottom := s[top]];
    SwapPermuted(s, top, bottom);
    PermutedTwice(was, s, s');
    assert s == was ==> s[|s| / 2] == p;
    assert top < |s| - 1 && bottom > 0;
    forall k | 0 <= k < top + 1
      ensures cmp(s'[k], p) <= 0
    {
      assert s'[k] == if k == top then s[bottom] else s[k];
    }
    forall k | bottom - 1 < k < |s|
      ensures cmp(p, s'[k]) <= 0
    {
      assert s'[k] == if k == bottom then s[top] else s[k];
    }
  }

  lemma ScanStarts<T(!new)>(cmp: (T, T) -> int, s: seq<T>, p: T)
    requires |s| > 0
    ensures Scanned(cmp, s, s, p, 0, |s| - 1)
  {
  }

  lemma ScanEnds<T(!new)>(cmp: (T, T) -> int, s: seq<T>, was: seq<T>, p: T, top: int, bottom: int)
    requires Scanned(cmp, s, was, p, top, bottom) && top > bottom
    ensures 0 <= bottom < top <= bottom + 2 && top < |s| && Parted(cmp, s, p, top, bottom) && Permuted(was, s)
  {
    hide Permuted;
    var t := s[bottom + 1..];
    forall k | 0 <= k < |t|
      ensures cmp(p, t[k]) <= 0
    {
      assert t[k] == s[bottom + 1 + k];
    }
  }

  /** The loop of cbqsortsub, around the element in the middle. */
  method Partition<T(!new)>(a: array<T>, lo: nat, n: nat, cmp: (T, T) -> int) returns (p: T, top: int, bottom: int)
    requires lo + n <= a.Length && Preorder(cmp) && n >= 10
    modifies a
    ensures Around(a, lo, n) == old(Around(a, lo, n))
    ensures Permuted(old(Range(a, lo, n)), Range(a, lo, n))
    ensures 0 <= bottom < top <= bottom + 2 && top < n && Parted(cmp, Range(a, lo, n), p, top, bottom)
  {
    ghost var was := Range(a, lo, n);
    top, bottom := 0, n - 1;
    p := a[lo + n / 2];
    ScanStarts(cmp, was, p);
    hide Preorder, Permuted, Scanned, Parted, Range, Around;
    while top - 1 < bottom
      invariant 0 <= top < n && 0 <= bottom < n
      invariant Around(a, lo, n) == old(Around(a, lo, n))
      invariant Scanned(cmp, Range(a, lo, n), was, p, top, bottom)
      decreases bottom - top
    {
      top, bottom := Step(a, lo, n, cmp, p, top, bottom, was);
    }
    ScanEnds(cmp, Range(a, lo, n), was, p, top, bottom);
  }

  /** The body of that loop. */
  method Step<T(!new)>(a: array<T>, lo: nat, n: nat, cmp: (T, T) -> int, p: T, top: nat, bottom: nat, ghost was: seq<T>)
    returns (top': int, bottom': int)
    requires lo + n <= a.Length && Preorder(cmp) && n >= 10 && n == |was| && was[n / 2] == p
    requires top <= bottom < n && Scanned(cmp, Range(a, lo, n), was, p, top, bottom)
    modifies a
    ensures Around(a, lo, n) == old(Around(a, lo, n))
    ensures 0 <= top' < n && 0 <= bottom' < n && bottom' - top' < bottom - top
    ensures Scanned(cmp, Range(a, lo, n), was, p, top', bottom')
  {
    hide Preorder, Permuted, Scanned, Range, Around;
    ghost var s := Range(a, lo, n);
    assert s[top] == a[lo + top] && s[bottom] == a[lo + bottom];
    top', bottom' := top, bottom;
    if cmp(a[lo + top], p) < 0 {
      StepTop(cmp, s, was, p, top, bottom);
      top' := top + 1;
    } else if cmp(a[lo + bottom], p) > 0 {
      StepBottom(cmp, s, was, p, top, bottom);
      bottom' := bottom - 1;
    } else {
      StepSwap(cmp, s, was, p, top, bottom);
      Swap(a, lo, n, top, bottom);
      top', bottom' := top + 1, bottom - 1;
    }
  }

  lemma Same<T>(s: seq<T>)
    ensures Permuted(s, s)
  {
  }

  lemma PermutedTwice<T>(a: seq<T>, b: seq<T>, c: seq<T>)
    requires Permuted(a, b) && Permuted(b, c)
    ensures Permuted(a, c)
  {
  }

  /** Only the first `k` elements of a range changed. */
  lemma LeftPart<T>(w: seq<T>, w1: seq<T>, lo: nat, n: nat, k: nat)
    requires k <= n && lo + n <= |w| == |w1| && w1[..lo] == w[..lo] && w1[lo + k..] == w[lo + k..]
    ensures w[lo..lo + n][..k] == w[lo..lo + k] && w1[lo..lo + n][..k] == w1[lo..lo + k]
    ensures w1[lo..lo + n][k..] == w[lo..lo + n][k..] && w1[lo + n..] == w[lo + n..]
  {
    assert w1[lo..lo + n][k..] == w1[lo + k..][..n - k];
    assert w[lo..lo + n][k..] == w[lo + k..][..n - k];
    assert w1[lo + n..] == w1[lo + k..][n - k..];
    assert w[lo + n..] == w[lo + k..][n - k..];
  }

  /** Only the elements from `k` on changed. */
  lemma RightPart<T>(w: seq<T>, w1: seq<T>, lo: nat, n: nat, k: nat)
    requires k <= n && lo + n <= |w| == |w1| && w1[..lo + k] == w[..lo + k] && w1[lo + n..] == w[lo + n..]
    ensures w[lo..lo + n][k..] == w[lo + k..lo + n] && w1[lo..lo + n][k..] == w1[lo + k..lo + n]
    ensures w1[lo..lo + n][..k] == w[lo..lo + n][..k] && w1[..lo] == w[..lo]
  {
    assert w1[lo..lo + n][..k] == w1[..lo + k][lo..];
    assert w[lo..lo + n][..k] == w[..lo + k][lo..];
    assert w1[..lo] == w1[..lo + k][..lo];
    assert w[..lo] == w[..lo + k][..lo];
  }

  /** cbqsortsub on `n` elements from `lo` on. */
  method QuickSort<T(!new)>(a: array<T>, lo: nat, n: nat, cmp: (T, T) -> int)
    requires lo + n <= a.Length && Preorder(cmp)
    modifies a
    ensures a[..lo] == old(a[..lo]) && a[lo + n..] == old(a[lo + n..])
    ensures Sorted(cmp, a[lo..lo + n]) && Permuted(old(a[lo..lo + n]), a[lo..lo + n])
    decreases n
  {
    hide Preorder, Permuted, Sorted, Parted;
    if n < 10 {
      if n > 1 {
        InsertionSort(a, lo, n, cmp);
      } else {
        Trivial(cmp, a[lo..lo + n]);
      }
      return;
    }
    ghost var was := a[lo..lo + n];
    var p, top, bottom := Partition(a, lo, n, cmp);
    ghost var w := a[..];
    QuickSort(a, lo, top, cmp);
    ghost var w1 := a[..];
    QuickSort(a, lo + bottom + 1, n - bottom - 1, cmp);
    ghost var w2 := a[..];
    ghost var s, s1, s2 := w[lo..lo + n], w1[lo..lo + n], w2[lo..lo + n];
    LeftPart(w, w1, lo, n, top);
    RightPart(w1, w2, lo, n, bottom + 1);
    assert s2 == a[lo..lo + n];
    PartsSorted(cmp, s, s1, s2, p, top, bottom);
    PermutedTwice(was, s, s2);
  }
}
