/** Cabin's heap sort, whose root has a single child, and its bounded heap,
    which keeps the smallest records. */
module CabinHeap {
  import opened CabinSort

  // ---------- heap sort ----------

  /** Slot `i` > 0 has slot `i` / 2 above it: slot 0 has the one child 1, any
      other slot `m` has 2 `m` and 2 `m` + 1. Below `start` nothing is said, and
      slot `m` may be smaller than its children, which then are not above the
      slot over it. */
  ghost predicate HeapBut<T(!new)>(cmp: (T, T) -> int, s: seq<T>, start: nat, top: int, m: int) {
    && top < |s|
    && (forall i | 1 <= i <= top && i / 2 >= start && i / 2 != m :: cmp(s[i], s[i / 2]) <= 0)
    && (m > start ==> forall i | 1 <= i <= top && i / 2 == m :: cmp(s[i], s[m / 2]) <= 0)
  }

  ghost predicate IsHeap<T(!new)>(cmp: (T, T) -> int, s: seq<T>, start: nat, top: int) {
    && top < |s|
    && (forall i | 1 <= i <= top && i / 2 >= start :: cmp(s[i], s[i / 2]) <= 0)
  }

  function Exchanged<T>(s: seq<T>, i: nat, j: nat): (t: seq<T>)
    requires i < |s| && j < |s|
    ensures |t| == |s| && t[i] == s[j] && t[j] == s[i]
    ensures forall k | 0 <= k < |s| && k != i && k != j :: t[k] == s[k]
  {
    s[i := s[j]][j := s[i]]
  }

  /** The larger child goes up. */
  lemma SiftStep<T(!new)>(cmp: (T, T) -> int, s: seq<T>, start: nat, top: int, m: nat, i: nat)
    requires Preorder(cmp) && HeapBut(cmp, s, start, top, m) && start <= m < i <= top && i / 2 == m
    requires forall c | 1 <= c <= top && c / 2 == m :: cmp(s[c], s[i]) <= 0
    requires cmp(s[m], s[i]) <= 0
    ensures HeapBut(cmp, Exchanged(s, m, i), start, top, i)
  {
    hide Preorder, Exchanged;
    var t := Exchanged(s, m, i);
    forall k | 1 <= k <= top && k / 2 >= start && k / 2 != i
      ensures cmp(t[k], t[k / 2]) <= 0
    {
      if k == m {
        assert cmp(s[i], s[m / 2]) <= 0;
      }
    }
    forall k | 1 <= k <= top && k / 2 == i
      ensures cmp(t[k], t[i / 2]) <= 0
    {
      assert cmp(s[k], s[k / 2]) <= 0;
    }
  }

  lemma SiftStop<T(!new)>(cmp: (T, T) -> int, s: seq<T>, start: nat, top: int, m: nat)
    requires HeapBut(cmp, s, start, top, m) && start <= m
    requires forall c | 1 <= c <= top && c / 2 == m :: cmp(s[c], s[m]) <= 0
    ensures IsHeap(cmp, s, start, top)
  {
  }

  /** The inner loop of cbhsort: slot `mybot` sinks to its place. */
  method SiftDown<T(!new)>(a: array<T>, start: nat, top: int, cmp: (T, T) -> int)
    requires Preorder(cmp) && top < a.Length && HeapBut(cmp, a[..], start, top, start)
    modifies a
    ensures IsHeap(cmp, a[..], start, top)
    ensures Permuted(old(a[..]), a[..]) && forall k | 0 <= k < a.Length && k > top :: a[k] == old(a[k])
  {
    hide Preorder, Permuted, HeapBut, IsHeap, Exchanged;
    Same(a[..]);
    var mybot := start;
    var i := 2 * mybot;
    while i <= top
      invariant start <= mybot && i == 2 * mybot && (mybot > start ==> mybot <= top)
      invariant HeapBut(cmp, a[..], start, top, mybot)
      invariant Permuted(old(a[..]), a[..]) && forall k | 0 <= k < a.Length && k > top :: a[k] == old(a[k])
      decreases top - mybot
    {
      ghost var s := a[..];
      i := LargerChild(a, mybot, top, cmp);
      Turned(cmp, a[mybot], a[i]);
      if cmp(a[mybot], a[i]) >= 0 {
        Beyond(cmp, s, top, mybot, i);
        break;
      }
      SiftStep(cmp, s, start, top, mybot, i);
      Exchange(a, mybot, i);
      PermutedTwice(old(a[..]), s, a[..]);
      mybot := i;
      i := 2 * mybot;
    }
    SiftStop(cmp, a[..], start, top, mybot);
  }

  /** The larger child of slot `m`; slot 0 counts as a child of itself. */
  method LargerChild<T(!new)>(a: array<T>, m: nat, top: int, cmp: (T, T) -> int) returns (i: nat)
    requires Preorder(cmp) && 2 * m <= top < a.Length
    ensures i <= top && i / 2 == m && (i == 0 ==> m == 0)
    ensures forall c | 1 <= c <= top && c / 2 == m :: cmp(a[c], a[i]) <= 0
  {
    hide Preorder;
    i := 2 * m;
    Turned(cmp, a[i], a[i]);
    if i < top {
      Turned(cmp, a[i + 1], a[i]);
      Turned(cmp, a[i + 1], a[i + 1]);
      if cmp(a[i + 1], a[i]) > 0 {
        i := i + 1;
      }
    }
  }

  method Exchange<T>(a: array<T>, i: nat, j: nat)
    requires i < a.Length && j < a.Length
    modifies a
    ensures a[..] == Exchanged(old(a[..]), i, j) && Permuted(old(a[..]), a[..])
  {
    a[i], a[j] := a[j], a[i];
    assert a[..] == Exchanged(old(a[..]), i, j);
    ExchangedPermuted(old(a[..]), i, j);
  }

  lemma ExchangedPermuted<T>(s: seq<T>, i: nat, j: nat)
    requires i < |s| && j < |s|
    ensures Permuted(s, Exchanged(s, i, j))
  {
  }

  /** A slot not below its larger child is not below any. */
  lemma Beyond<T(!new)>(cmp: (T, T) -> int, s: seq<T>, top: int, m: nat, i: nat)
    requires Preorder(cmp) && top < |s| && m < |s| && i < |s| && cmp(s[m], s[i]) >= 0
    requires forall c | 1 <= c <= top && c / 2 == m :: cmp(s[c], s[i]) <= 0
    ensures forall c | 1 <= c <= top && c / 2 == m :: cmp(s[c], s[m]) <= 0
  {
    Turned(cmp, s[m], s[i]);
    forall c | 1 <= c <= top && c / 2 == m
      ensures cmp(s[c], s[m]) <= 0
    {
      Through(cmp, s[c], s[i], s[m]);
    }
  }

  /** The root of a heap is its largest element. */
  lemma {:induction false} RootIsLargest<T(!new)>(cmp: (T, T) -> int, s: seq<T>, top: int, i: nat)
    requires Preorder(cmp) && IsHeap(cmp, s, 0, top) && i <= top
    ensures cmp(s[i], s[0]) <= 0
  {
    if i == 0 {
      Turned(cmp, s[0], s[0]);
    } else {
      RootIsLargest(cmp, s, top, i / 2);
      Through(cmp, s[i], s[i / 2], s[0]);
    }
  }

  /** The elements behind `top` are sorted, and none before is larger. */
  ghost predicate TailSorted<T(!new)>(cmp: (T, T) -> int, s: seq<T>, top: int) {
    && -1 <= top < |s|
    && (forall i, j | 0 <= i < j < |s| && top < j :: cmp(s[i], s[j]) <= 0)
  }

  lemma TailGrows<T(!new)>(cmp: (T, T) -> int, s: seq<T>, top: nat)
    requires Preorder(cmp) && TailSorted(cmp, s, top) && IsHeap(cmp, s, 0, top)
    ensures TailSorted(cmp, Exchanged(s, 0, top), top - 1)
    ensures HeapBut(cmp, Exchanged(s, 0, top), 0, top - 1, 0)
  {
    var t := Exchanged(s, 0, top);
    forall i, j | 0 <= i < j < |s| && top - 1 < j
      ensures cmp(t[i], t[j]) <= 0
    {
      if j == top {
        RootIsLargest(cmp, s, top, if i == 0 then top else i);
      }
    }
  }

  /** Rearranging what is before keeps the tail. */
  lemma TailKept<T(!new)>(cmp: (T, T) -> int, s: seq<T>, t: seq<T>, top: int)
    requires TailSorted(cmp, s, top) && Permuted(s, t)
    requires forall k | 0 <= k < |s| && k > top :: t[k] == s[k]
    ensures TailSorted(cmp, t, top)
  {
    var n := top + 1;
    PrefixPermuted(s, t, n);
    forall i, j | 0 <= i < j < |t| && top < j
      ensures cmp(t[i], t[j]) <= 0
    {
      if i <= top {
        assert forall k | 0 <= k < n :: s[..n][k] == s[k];
        AllLePermuted(cmp, s[..n], t[..n], s[j]);
        assert t[..n][i] == t[i];
      }
    }
  }

  lemma PrefixPermuted<T>(s: seq<T>, t: seq<T>, n: nat)
    requires Permuted(s, t) && n <= |s| && forall k | n <= k < |s| :: t[k] == s[k]
    ensures Permuted(s[..n], t[..n])
  {
    assert s == s[..n] + s[n..] && t == t[..n] + t[n..] && s[n..] == t[n..];
    assert multiset(s[..n]) == multiset(s) - multiset(s[n..]);
    assert multiset(t[..n]) == multiset(t) - multiset(t[n..]);
  }

  /** cbhsort */
  method HeapSort<T(!new)>(a: array<T>, cmp: (T, T) -> int)
    requires Preorder(cmp)
    modifies a
    ensures Sorted(cmp, a[..]) && Permuted(old(a[..]), a[..])
  {
    hide Preorder, Permuted, HeapBut, IsHeap, TailSorted, Sorted;
    var top := a.Length - 1;
    var bottom := if top < 0 then 1 else top / 2 + 1; // -1 / 2 is 0
    Same(a[..]);
    NoHeap(cmp, a[..], bottom, top);
    while bottom > 0
      invariant 0 <= bottom && IsHeap(cmp, a[..], bottom, top) && Permuted(old(a[..]), a[..])
    {
      ghost var s := a[..];
      bottom := bottom - 1;
      OneLess(cmp, s, bottom, top);
      SiftDown(a, bottom, top, cmp);
      PermutedTwice(old(a[..]), s, a[..]);
    }
    NoTail(cmp, a[..]);
    while top > 0
      invariant -1 <= top < a.Length && bottom == 0
      invariant IsHeap(cmp, a[..], 0, top) && TailSorted(cmp, a[..], top) && Permuted(old(a[..]), a[..])
    {
      ghost var s := a[..];
      Exchange(a, 0, top);
      ghost var t := a[..];
      TailGrows(cmp, s, top);
      top := top - 1;
      SiftDown(a, bottom, top, cmp);
      PermutedTwice(old(a[..]), s, t);
      PermutedTwice(old(a[..]), t, a[..]);
      TailKept(cmp, t, a[..], top);
    }
    AllTail(cmp, a[..], top);
  }

  lemma NoHeap<T(!new)>(cmp: (T, T) -> int, s: seq<T>, start: nat, top: int)
    requires top < |s| && start > top / 2
    ensures IsHeap(cmp, s, start, top)
  {
  }

  lemma OneLess<T(!new)>(cmp: (T, T) -> int, s: seq<T>, start: nat, top: int)
    requires IsHeap(cmp, s, start + 1, top)
    ensures HeapBut(cmp, s, start, top, start)
  {
  }

  lemma NoTail<T(!new)>(cmp: (T, T) -> int, s: seq<T>)
    ensures TailSorted(cmp, s, |s| - 1)
  {
  }

  lemma AllTail<T(!new)>(cmp: (T, T) -> int, s: seq<T>, top: int)
    requires TailSorted(cmp, s, top) && top <= 0
    ensures Sorted(cmp, s)
  {
  }

  // ---------- the bounded heap ----------

  function Parent(i: nat): (p: int)
    requires i > 0
    ensures 0 <= p < i
  {
    (i - 1) / 2
  }

  /** No record is larger than its parent. */
  ghost predicate MaxHeap<T(!new)>(cmp: (T, T) -> int, s: seq<T>) {
    forall i | 1 <= i < |s| :: cmp(s[i], s[Parent(i)]) <= 0
  }

  /** The same, but the record at `m` may be too small for its place. */
  ghost predicate Sinking<T(!new)>(cmp: (T, T) -> int, s: seq<T>, m: int) {
    && (forall i | 1 <= i < |s| && Parent(i) != m :: cmp(s[i], s[Parent(i)]) <= 0)
    && (0 < m < |s| ==> forall i | 1 <= i < |s| && Parent(i) == m :: cmp(s[i], s[Parent(m)]) <= 0)
  }

  /** The same, but the record at `m` may be too large for its place. */
  ghost predicate Rising<T(!new)>(cmp: (T, T) -> int, s: seq<T>, m: int) {
    && (forall i | 1 <= i < |s| && i != m :: cmp(s[i], s[Parent(i)]) <= 0)
    && (0 < m < |s| ==> forall i | 1 <= i < |s| && Parent(i) == m :: cmp(s[i], s[Parent(m)]) <= 0)
  }

  lemma SinkStep<T(!new)>(cmp: (T, T) -> int, s: seq<T>, m: nat, c: nat)
    requires Preorder(cmp) && Sinking(cmp, s, m) && 0 < c < |s| && Parent(c) == m && cmp(s[m], s[c]) <= 0
    requires forall i | 1 <= i < |s| && Parent(i) == m :: cmp(s[i], s[c]) <= 0
    ensures Sinking(cmp, Exchanged(s, m, c), c)
  {
    hide Preorder, Exchanged;
    var t := Exchanged(s, m, c);
    forall i | 1 <= i < |t| && Parent(i) == c
      ensures cmp(t[i], t[Parent(c)]) <= 0
    {
      assert cmp(s[i], s[Parent(i)]) <= 0;
    }
  }

  lemma RiseStep<T(!new)>(cmp: (T, T) -> int, s: seq<T>, m: nat)
    requires Preorder(cmp) && Rising(cmp, s, m) && 0 < m < |s| && cmp(s[Parent(m)], s[m]) <= 0
    ensures Rising(cmp, Exchanged(s, m, Parent(m)), Parent(m))
  {
    hide Preorder, Exchanged;
    var p := Parent(m);
    var t := Exchanged(s, m, p);
    forall i | 1 <= i < |t| && i != p
      ensures cmp(t[i], t[Parent(i)]) <= 0
    {
      if Parent(i) == p && i != m {
        Through(cmp, s[i], s[p], s[m]);
      }
    }
    if p > 0 {
      forall i | 1 <= i < |t| && Parent(i) == p
        ensures cmp(t[i], t[Parent(p)]) <= 0
      {
        if i != m {
          Through(cmp, s[i], s[p], s[Parent(p)]);
        }
      }
    }
  }

  lemma {:induction false} TopIsLargest<T(!new)>(cmp: (T, T) -> int, s: seq<T>, i: nat)
    requires Preorder(cmp) && MaxHeap(cmp, s) && i < |s|
    ensures cmp(s[i], s[0]) <= 0
  {
    if i == 0 {
      Turned(cmp, s[0], s[0]);
    } else {
      TopIsLargest(cmp, s, Parent(i));
      Through(cmp, s[i], s[Parent(i)], s[0]);
    }
  }

  /** No record of `kept` is larger than one of `dropped`. */
  ghost predicate NoneSmaller<T(!new)>(cmp: (T, T) -> int, kept: multiset<T>, dropped: multiset<T>) {
    forall x, y | x in kept && y in dropped :: cmp(x, y) <= 0
  }

  /** A record above the largest one is the first to be left out. */
  lemma Rejected<T(!new)>(cmp: (T, T) -> int, s: seq<T>, x: T, dropped: multiset<T>)
    requires Preorder(cmp) && MaxHeap(cmp, s) && NoneSmaller(cmp, multiset(s), dropped)
    requires s == [] || cmp(x, s[0]) > 0
    ensures NoneSmaller(cmp, multiset(s), dropped + multiset{x})
  {
    forall y, z | y in multiset(s) && z in dropped + multiset{x}
      ensures cmp(y, z) <= 0
    {
      if z !in dropped {
        var i :| 0 <= i < |s| && s[i] == y;
        TopIsLargest(cmp, s, i);
        Turned(cmp, x, s[0]);
        Through(cmp, y, s[0], x);
      }
    }
  }

  /** A record in the place of the largest one. */
  lemma Replaced<T(!new)>(cmp: (T, T) -> int, s: seq<T>, x: T, dropped: multiset<T>)
    requires Preorder(cmp) && MaxHeap(cmp, s) && NoneSmaller(cmp, multiset(s), dropped)
    requires s != [] && cmp(x, s[0]) <= 0
    ensures Sinking(cmp, s[0 := x], 0)
    ensures multiset(s[0 := x]) + multiset{s[0]} == multiset(s) + multiset{x}
    ensures NoneSmaller(cmp, multiset(s[0 := x]), dropped + multiset{s[0]})
  {
    var t := s[0 := x];
    forall y, z | y in multiset(t) && z in dropped + multiset{s[0]}
      ensures cmp(y, z) <= 0
    {
      assert s[0] in multiset(s);
      var i :| 0 <= i < |t| && t[i] == y;
      if i > 0 {
        assert s[i] in multiset(s);
        TopIsLargest(cmp, s, i);
      } else if z in dropped {
        Through(cmp, x, s[0], z);
      }
    }
  }

  lemma Appended<T(!new)>(cmp: (T, T) -> int, s: seq<T>, x: T)
    requires MaxHeap(cmp, s)
    ensures Rising(cmp, s + [x], |s|)
  {
    var t := s + [x];
    forall i | 1 <= i < |t| && i != |s|
      ensures cmp(t[i], t[Parent(i)]) <= 0
    {
      assert cmp(s[i], s[Parent(i)]) <= 0;
    }
  }

  lemma SinkStops<T(!new)>(cmp: (T, T) -> int, s: seq<T>, m: nat)
    requires Sinking(cmp, s, m) && forall i | 1 <= i < |s| && Parent(i) == m :: cmp(s[i], s[m]) <= 0
    ensures MaxHeap(cmp, s)
  {
  }

  lemma RiseStops<T(!new)>(cmp: (T, T) -> int, s: seq<T>, m: nat)
    requires Rising(cmp, s, m) && (0 < m < |s| ==> cmp(s[m], s[Parent(m)]) <= 0)
    ensures MaxHeap(cmp, s)
  {
  }

  class Heap<T(!new)> {
    const base: array<T>
    const max: nat
    const cmp: (T, T) -> int
    var num: nat
    /** All records inserted so far, and those no longer here. */
    ghost var seen: multiset<T>
    ghost var dropped: multiset<T>

    ghost predicate Valid()
      reads this, base
    {
      && Preorder(cmp) && num <= max <= base.Length
      && MaxHeap(cmp, base[..num])
      && seen == multiset(base[..num]) + dropped
      && NoneSmaller(cmp, multiset(base[..num]), dropped)
      && (num < max ==> dropped == multiset{})
    }

    /** cbheapopen */
    constructor (max: nat, cmp: (T, T) -> int, blank: T)
      requires Preorder(cmp)
      ensures Valid() && fresh(base) && seen == multiset{} && this.max == max && this.cmp == cmp && num == 0
    {
      this.max, this.cmp, num := max, cmp, 0;
      base := new T[max](_ => blank);
      seen, dropped := multiset{}, multiset{};
    }

    /** cbheapinsert */
    method Insert(x: T) returns (kept: bool)
      requires Valid()
      modifies this`num, this`seen, this`dropped, base
      ensures Valid() && seen == old(seen) + multiset{x}
      ensures kept <==> max > 0 && (old(num) < max || cmp(x, old(base[0])) <= 0)
    {
      hide Preorder, MaxHeap, NoneSmaller;
      kept := false;
      if max < 1 {
        Reject(x);
      } else if num >= max {
        if cmp(x, base[0]) > 0 {
          Reject(x);
        } else {
          Replace(x);
          kept := true;
        }
      } else {
        Append(x);
        kept := true;
      }
    }

    ghost method Reject(x: T)
      requires Valid() && num == max && (max > 0 ==> cmp(x, base[0]) > 0)
      modifies this`seen, this`dropped
      ensures Valid() && seen == old(seen) + multiset{x}
    {
      hide Preorder, MaxHeap, NoneSmaller;
      Rejected(cmp, base[..num], x, dropped);
      seen, dropped := seen + multiset{x}, dropped + multiset{x};
    }

    /** A record takes the place of the largest one. */
    method Replace(x: T)
      requires Valid() && num == max > 0 && cmp(x, base[0]) <= 0
      modifies this`seen, this`dropped, base
      ensures Valid() && seen == old(seen) + multiset{x}
    {
      hide Preorder, MaxHeap, NoneSmaller, Sinking, Permuted;
      ghost var s := base[..num];
      Replaced(cmp, s, x, dropped);
      base[0] := x;
      assert base[..num] == s[0 := x];
      SinkRoot();
      SameElements(s[0 := x], base[..num]);
      seen, dropped := seen + multiset{x}, dropped + multiset{s[0]};
    }

    method AddLast(x: T)
      requires num < base.Length
      modifies this`num, base
      ensures num == old(num) + 1 && base[..num] == old(base[..num]) + [x]
    {
      base[num] := x;
      num := num + 1;
    }

    method Append(x: T)
      requires Valid() && num < max
      modifies this`num, this`seen, base
      ensures Valid() && seen == old(seen) + multiset{x}
    {
      hide Preorder, MaxHeap, NoneSmaller, Rising, Permuted;
      ghost var s := base[..num];
      assert seen == multiset(s);
      Appended(cmp, s, x);
      AddLast(x);
      RiseLast();
      seen := seen + multiset{x};
      assert seen == multiset(base[..num]) by {
        SameElements(s + [x], base[..num]);
      }
      NothingDropped(cmp, multiset(base[..num]), dropped);
    }

    /** The record at the root sinks to its place. */
    method SinkRoot()
      requires Preorder(cmp) && 0 < num <= base.Length && Sinking(cmp, base[..num], 0)
      modifies base
      ensures MaxHeap(cmp, base[..num]) && Permuted(old(base[..num]), base[..num])
    {
      hide Preorder, MaxHeap, Sinking, Permuted;
      Same(base[..num]);
      var pidx := 0;
      while pidx < num / 2
        invariant 0 <= pidx && Sinking(cmp, base[..num], pidx) && Permuted(old(base[..num]), base[..num])
        decreases num - pidx
      {
        ghost var s := base[..num];
        var cidx := pidx * 2 + 1;
        Turned(cmp, base[cidx], base[cidx]);
        if cidx < num - 1 {
          Turned(cmp, base[cidx], base[cidx + 1]);
          Turned(cmp, base[cidx + 1], base[cidx + 1]);
          if cmp(base[cidx], base[cidx + 1]) < 0 {
            cidx := cidx + 1;
          }
        }
        Turned(cmp, s[pidx], s[cidx]);
        assert forall i | 1 <= i < |s| && Parent(i) == pidx :: cmp(s[i], s[cidx]) <= 0;
        if cmp(base[pidx], base[cidx]) > 0 {
          NotBelow(cmp, s, pidx, cidx);
          break;
        }
        SinkStep(cmp, s, pidx, cidx);
        ExchangeIn(pidx, cidx);
        PermutedTwice(old(base[..num]), s, base[..num]);
        pidx := cidx;
      }
      SinkStops(cmp, base[..num], pidx);
    }

    method ExchangeIn(i: nat, j: nat)
      requires i < num <= base.Length && j < num
      modifies base
      ensures base[..num] == Exchanged(old(base[..num]), i, j)
      ensures Permuted(old(base[..num]), base[..num])
    {
      base[i], base[j] := base[j], base[i];
      assert base[..num] == Exchanged(old(base[..num]), i, j);
      ExchangedPermuted(old(base[..num]), i, j);
    }

    /** The last record rises to its place. */
    method RiseLast()
      requires Preorder(cmp) && 0 < num <= base.Length && Rising(cmp, base[..num], num - 1)
      modifies base
      ensures MaxHeap(cmp, base[..num]) && Permuted(old(base[..num]), base[..num])
    {
      hide Preorder, MaxHeap, Rising, Permuted;
      Same(base[..num]);
      var cidx := num - 1;
      while cidx > 0
        invariant 0 <= cidx < num && Rising(cmp, base[..num], cidx) && Permuted(old(base[..num]), base[..num])
      {
        ghost var s := base[..num];
        var pidx := (cidx - 1) / 2;
        if cmp(base[cidx], base[pidx]) <= 0 {
          break;
        }
        Turned(cmp, s[cidx], s[pidx]);
        RiseStep(cmp, s, cidx);
        ExchangeIn(cidx, pidx);
        PermutedTwice(old(base[..num]), s, base[..num]);
        cidx := pidx;
      }
      RiseStops(cmp, base[..num], cidx);
    }

    /** cbheaptomalloc */
    method ToSorted() returns (records: seq<T>)
      requires Valid()
      modifies base
      ensures Sorted(cmp, records) && multiset(records) + dropped == seen
      ensures forall i, j | 0 <= i < j < |records| :: cmp(records[i], records[j]) <= 0
      ensures |records| == num <= max && (num < max ==> dropped == multiset{})
      ensures NoneSmaller(cmp, multiset(records), dropped)
      ensures forall x, y | x in multiset(records) && y in dropped :: cmp(x, y) <= 0
    {
      hide Preorder, MaxHeap, NoneSmaller, Sorted;
      ghost var s := base[..num];
      QuickSort(base, 0, num, cmp);
      assert base[0..num] == base[..num];
      records := base[..num];
      SortedMeans(cmp, records);
      NoneSmallerMeans(cmp, multiset(records), dropped);
    }
  }

  lemma NoneSmallerMeans<T(!new)>(cmp: (T, T) -> int, kept: multiset<T>, dropped: multiset<T>)
    requires NoneSmaller(cmp, kept, dropped)
    ensures forall x, y | x in kept && y in dropped :: cmp(x, y) <= 0
  {
  }

  lemma SameElements<T>(s: seq<T>, t: seq<T>)
    requires Permuted(s, t)
    ensures multiset(s) == multiset(t)
  {
  }

  lemma NothingDropped<T(!new)>(cmp: (T, T) -> int, kept: multiset<T>, dropped: multiset<T>)
    requires dropped == multiset{}
    ensures NoneSmaller(cmp, kept, dropped)
  {
  }

  lemma NotBelow<T(!new)>(cmp: (T, T) -> int, s: seq<T>, m: nat, c: nat)
    requires Preorder(cmp) && m < |s| && c < |s| && cmp(s[m], s[c]) >= 0
    requires forall i | 1 <= i < |s| && Parent(i) == m :: cmp(s[i], s[c]) <= 0
    ensures forall i | 1 <= i < |s| && Parent(i) == m :: cmp(s[i], s[m]) <= 0
  {
    Turned(cmp, s[m], s[c]);
    forall i | 1 <= i < |s| && Parent(i) == m
      ensures cmp(s[i], s[m]) <= 0
    {
      Through(cmp, s[i], s[c], s[m]);
    }
  }

  /** A heap of size `max` keeps the `max` smallest of any records inserted, all
      of them if they are fewer. */
  method KeepSmallest<T(!new)>(xs: seq<T>, max: nat, cmp: (T, T) -> int, blank: T) returns (ys: seq<T>, ghost rest: multiset<T>)
    requires Preorder(cmp)
    ensures Sorted(cmp, ys) && multiset(ys) + rest == multiset(xs)
    ensures |ys| == if |xs| < max then |xs| else max
    ensures NoneSmaller(cmp, multiset(ys), rest)
    ensures forall i, j | 0 <= i < j < |ys| :: cmp(ys[i], ys[j]) <= 0
    ensures forall x, y | x in multiset(ys) && y in rest :: cmp(x, y) <= 0
  {
    hide Preorder, NoneSmaller, Sorted, Heap.Valid;
    var heap := new Heap(max, cmp, blank);
    var i := 0;
    while i < |xs|
      invariant 0 <= i <= |xs| && heap.Valid() && fresh(heap) && fresh(heap.base) && heap.cmp == cmp && heap.max == max
      invariant heap.seen == multiset(xs[..i])
    {
      var _ := heap.Insert(xs[i]);
      assert xs[..i + 1] == xs[..i] + [xs[i]];
      i := i + 1;
    }
    assert xs[..i] == xs;
    ys := heap.ToSorted();
    rest := heap.dropped;
    assert |multiset(xs)| == |multiset(ys)| + |rest|;
  }
}
