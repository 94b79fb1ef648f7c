/** Cabin's substring searches: Boyer-Moore with its shift by two, and KMP with
    a table of signed characters. */
module CabinSearch {
  import opened ByteOrder

  const NULL: int := -1
  const TABLE: int := 0x100

  predicate MatchAt(h: seq<byte>, n: seq<byte>, p: int) {
    0 <= p && p + |n| <= |h| && h[p..p + |n|] == n
  }

  /** strstr: the first occurrence at `from` or later. */
  function StrStr(h: seq<byte>, n: seq<byte>, from: nat): (p: int)
    ensures p == NULL ==> forall q :: from <= q ==> !MatchAt(h, n, q)
    ensures p != NULL ==> from <= p && MatchAt(h, n, p) && forall q :: from <= q < p ==> !MatchAt(h, n, q)
    decreases |h| - from
  {
    if from + |n| > |h| then NULL
    else if MatchAt(h, n, from) then from
    else StrStr(h, n, from + 1)
  }

  /** The first occurrence, or NULL. */
  ghost predicate IsFirst(h: seq<byte>, n: seq<byte>, p: int) {
    if p == NULL then forall q :: !MatchAt(h, n, q)
    else MatchAt(h, n, p) && forall q :: 0 <= q < p ==> !MatchAt(h, n, q)
  }

  // ---------- Boyer-Moore ----------

  /** The last index of `c` below `k`, or -1. */
  function Last(n: seq<byte>, c: byte, k: nat): (l: int)
    requires k <= |n|
    ensures -1 <= l < k
    ensures l >= 0 ==> n[l] == c
    ensures forall m | l < m < k :: n[m] != c
  {
    if k == 0 then -1 else if n[k - 1] == c then k - 1 else Last(n, c, k - 1)
  }

  /** A positive shift jumps over no match. */
  lemma ShiftIsSafe(h: seq<byte>, n: seq<byte>, p: nat, i: nat, q: nat)
    requires i < |n| && p + |n| <= |h| && p < q < p + i - Last(n, h[p + i], |n|)
    ensures !MatchAt(h, n, q)
  {
    if MatchAt(h, n, q) {
      ByteOfMatch(h, n, q, p + i - q);
    }
  }

  lemma ByteOfMatch(h: seq<byte>, n: seq<byte>, p: nat, i: nat)
    requires MatchAt(h, n, p) && i < |n|
    ensures h[p + i] == n[i]
  {
    assert h[p..p + |n|][i] == h[p + i];
  }

  /** Neither does the jump of two: a match one further would make the needle
      constant from `i` on, and then `h[p + i]`, which occurs there, would not
      have been a mismatch. */
  lemma JumpIsSafe(h: seq<byte>, n: seq<byte>, p: nat, i: nat)
    requires i < |n| && p + |n| <= |h| && h[p + i] != n[i] && h[p + i + 1..p + |n|] == n[i + 1..]
    requires Last(n, h[p + i], |n|) >= i
    ensures !MatchAt(h, n, p + 1)
  {
    if MatchAt(h, n, p + 1) {
      Constant(h, n, p, i, Last(n, h[p + i], |n|));
    }
  }

  lemma {:induction false} Constant(h: seq<byte>, n: seq<byte>, p: nat, i: nat, m: nat)
    requires i <= m < |n| && p + |n| <= |h| && h[p + i + 1..p + |n|] == n[i + 1..]
    requires MatchAt(h, n, p + 1)
    ensures n[m] == n[i]
    decreases m
  {
    if m > i {
      Constant(h, n, p, i, m - 1);
      assert n[m] == n[i + 1..][m - i - 1] == h[p + m];
      assert h[p + 1..p + 1 + |n|][m - 1] == n[m - 1];
    }
  }

  /** cbstrstrbm; needles of other lengths go to strstr. */
  method StrStrBm(haystack: cstring, needle: cstring) returns (p: int)
    ensures IsFirst(haystack, needle, p)
  {
    hide StrStr, Last;
    var size := |needle|;
    if size < 3 || size >= TABLE {
      return StrStr(haystack, needle, 0);
    }
    var tbl := ShiftTable(needle);
    var nlen := size - 1;
    var at := 0;
    while at < |haystack| - nlen
      invariant 0 <= at
      invariant forall q :: 0 <= q < at ==> !MatchAt(haystack, needle, q)
      invariant forall c: byte :: tbl[c] == (if Last(needle, c, size) == -1 then size else nlen - Last(needle, c, size))
      decreases |haystack| - at
    {
      var i := CompareBack(haystack, needle, at);
      if haystack[at + i] == needle[i] {
        return at;
      }
      var j := tbl[haystack[at + i]] - nlen + i;
      Skips(haystack, needle, at, i, j);
      at := at + if j > 0 then j else 2;
    }
    return NULL;
  }

  /** The loops that fill the table of shifts. */
  method ShiftTable(needle: cstring) returns (tbl: array<byte>)
    requires |needle| < TABLE
    ensures fresh(tbl) && tbl.Length == TABLE
    ensures forall c: byte :: tbl[c] == (if Last(needle, c, |needle|) == -1 then |needle| else |needle| - 1 - Last(needle, c, |needle|))
  {
    var size := |needle|;
    tbl := new byte[TABLE](_ => size);
    var r := 0;
    while r < size
      invariant 0 <= r <= size
      invariant forall c: byte :: tbl[c] == (if Last(needle, c, r) == -1 then size else size - 1 - Last(needle, c, r))
    {
      tbl[needle[r]] := size - 1 - r;
      r := r + 1;
    }
  }

  /** The loop that compares from the end: where it stops, or 0. */
  method CompareBack(haystack: cstring, needle: cstring, at: nat) returns (i: nat)
    requires needle != [] && at + |needle| <= |haystack|
    ensures i < |needle| && haystack[at + i + 1..at + |needle|] == needle[i + 1..]
    ensures haystack[at + i] == needle[i] ==> i == 0 && MatchAt(haystack, needle, at)
  {
    i := |needle| - 1;
    while i > 0 && haystack[at + i] == needle[i]
      invariant 0 <= i < |needle|
      invariant haystack[at + i + 1..at + |needle|] == needle[i + 1..]
    {
      i := i - 1;
    }
    if haystack[at + i] == needle[i] {
      assert haystack[at..at + |needle|] == [haystack[at]] + haystack[at + 1..at + |needle|];
      assert needle == [needle[0]] + needle[1..];
    }
  }

  /** After a mismatch no occurrence starts before the next position. */
  lemma Skips(h: seq<byte>, n: seq<byte>, at: nat, i: nat, j: int)
    requires i < |n| && at + |n| <= |h| && h[at + i] != n[i] && h[at + i + 1..at + |n|] == n[i + 1..]
    requires j == i - Last(n, h[at + i], |n|)
    ensures forall q | at <= q < at + (if j > 0 then j else 2) :: !MatchAt(h, n, q)
  {
    hide Last;
    forall q | at <= q < at + (if j > 0 then j else 2)
      ensures !MatchAt(h, n, q)
    {
      if q == at {
        assert h[at + i] == h[at..at + |n|][i];
      } else if j > 0 {
        ShiftIsSafe(h, n, at, i, q);
      } else {
        JumpIsSafe(h, n, at, i);
      }
    }
  }

  // ---------- Knuth-Morris-Pratt ----------

  type schar = i: int | -128 <= i < 128

  /** A small number stored in a signed char. */
  function Signed(j: int): (c: schar)
    requires -128 <= j < TABLE
    ensures 0 <= j < 128 ==> c == j
    ensures j >= 128 ==> c == j - TABLE
    ensures c <= j
  {
    if j < 128 then j else j - TABLE
  }

  /** A table whose entries lead backwards. */
  predicate Backwards(tbl: seq<schar>) {
    forall k | 0 <= k < |tbl| :: tbl[k] < k
  }

  /** The inner loop: fall back until the next byte fits. */
  function Fall(n: seq<byte>, tbl: seq<schar>, j: int, c: byte): (r: int)
    requires -128 <= j < |n| && j < |tbl| && Backwards(tbl)
    ensures -128 <= r <= j && (r >= 0 ==> n[r] == c)
    decreases j + 128
  {
    if j >= 0 && c != n[j] then Fall(n, tbl, tbl[j], c) else j
  }

  /** The table and the state after `i` steps of the first loop. */
  ghost function Built(n: seq<byte>, i: nat): (r: (seq<schar>, int))
    requires i <= |n| < TABLE
    ensures |r.0| == i + 1 && Backwards(r.0) && -128 <= r.1 < i
  {
    if i == 0 then ([-1], -1)
    else
      var (tbl, j) := Built(n, i - 1);
      var j' := Fall(n, tbl, j, n[i - 1]) + 1;
      (tbl + [Signed(j')], j')
  }

  /** The state of the second loop after `i` bytes, unless it has ended before. */
  ghost function State(h: seq<byte>, n: seq<byte>, i: nat): (j: int)
    requires i <= |h| && |n| < TABLE
    ensures -128 <= j <= |n| && j <= i
  {
    if i == 0 then 0
    else
      var j := State(h, n, i - 1);
      if j == |n| then j else Fall(n, Built(n, |n|).0, j, h[i - 1]) + 1
  }

  /** The number of bytes read when the second loop ends. */
  ghost function End(h: seq<byte>, n: seq<byte>, i: nat): (e: nat)
    requires i <= |h| && |n| < TABLE
    ensures i <= e <= |h| && (e < |h| ==> State(h, n, e) == |n|)
    ensures forall k | i <= k < e :: State(h, n, k) != |n|
    decreases |h| - i
  {
    if i == |h| || State(h, n, i) == |n| then i else End(h, n, i + 1)
  }

  /** What the search returns, whatever its table looks like. */
  ghost function Kmp(h: seq<byte>, n: seq<byte>): int
    requires |n| < TABLE
  {
    var e := End(h, n, 0);
    if State(h, n, e) == |n| then e - |n| else NULL
  }

  /** cbstrstrkmp; long needles go to strstr. */
  method StrStrKmp(haystack: cstring, needle: cstring) returns (p: int)
    ensures p == if |needle| >= TABLE then StrStr(haystack, needle, 0) else Kmp(haystack, needle)
  {
    var nlen := |needle|;
    if nlen >= TABLE {
      return StrStr(haystack, needle, 0);
    }
    var tbl := BuildTable(needle);
    var i, j := 0, 0;
    while i < |haystack| && j < nlen
      invariant 0 <= i <= |haystack| && j == State(haystack, needle, i)
      invariant End(haystack, needle, i) == End(haystack, needle, 0)
      invariant tbl[..nlen + 1] == Built(needle, nlen).0
    {
      j := FallBack(needle, tbl, nlen, j, haystack[i]);
      i := i + 1;
      j := j + 1;
    }
    return if j == nlen then i - nlen else NULL;
  }

  /** The first loop of cbstrstrkmp. */
  method BuildTable(needle: cstring) returns (tbl: array<schar>)
    requires |needle| < TABLE
    ensures fresh(tbl) && tbl.Length == TABLE && tbl[..|needle| + 1] == Built(needle, |needle|).0
  {
    tbl := new schar[TABLE](_ => 0);
    tbl[0] := -1;
    var i, j := 0, -1;
    assert tbl[..1] == [-1];
    while i < |needle|
      invariant 0 <= i <= |needle|
      invariant tbl[..i + 1] == Built(needle, i).0 && j == Built(needle, i).1
    {
      ghost var before := tbl[..i + 1];
      j := FallBack(needle, tbl, i, j, needle[i]);
      i := i + 1;
      j := j + 1;
      tbl[i] := Signed(j);
      assert tbl[..i + 1] == before + [Signed(j)];
    }
  }

  /** The inner loop of both loops. */
  method FallBack(needle: cstring, tbl: array<schar>, i: nat, j: int, c: byte) returns (r: int)
    requires i < tbl.Length && Backwards(tbl[..i + 1]) && -128 <= j < |needle| && j <= i
    ensures r == Fall(needle, tbl[..i + 1], j, c)
  {
    r := j;
    while r >= 0 && c != needle[r]
      invariant -128 <= r <= j
      invariant Fall(needle, tbl[..i + 1], r, c) == Fall(needle, tbl[..i + 1], j, c)
      decreases r + 128
    {
      assert tbl[..i + 1][r] == tbl[r];
      r := tbl[r];
    }
  }

  // ---------- when KMP is right ----------

  /** The `k` last bytes of `s` are the first `k` of the needle. */
  predicate Overlap(n: seq<byte>, s: seq<byte>, k: int) {
    0 <= k <= |n| && k <= |s| && n[..k] == s[|s| - k..]
  }

  /** The longest overlap of at most `k` bytes. */
  function Longest(n: seq<byte>, s: seq<byte>, k: nat): (b: nat)
    requires k <= |n| && k <= |s|
    ensures b <= k && Overlap(n, s, b)
    ensures forall m | b < m <= k :: !Overlap(n, s, m)
  {
    if k == 0 || Overlap(n, s, k) then k else Longest(n, s, k - 1)
  }

  function Overlapping(n: seq<byte>, s: seq<byte>): nat {
    Longest(n, s, if |n| < |s| then |n| else |s|)
  }

  /** The longest proper border of the first `m` bytes, or -1 if they are none. */
  function Border(n: seq<byte>, m: nat): (b: int)
    requires m <= |n|
    ensures -1 <= b < m
  {
    if m == 0 then -1 else Overlapping(n, n[1..m])
  }

  /** The borders of all proper prefixes fit into a signed char. */
  predicate BordersFit(n: seq<byte>) {
    forall m | 0 <= m < |n| :: Border(n, m) < 128
  }

  /** An overlap that grows by `c` was an overlap before, with `c` behind it. */
  lemma OverlapGrows(n: seq<byte>, s: seq<byte>, c: byte, k: nat)
    requires 0 < k
    ensures Overlap(n, s + [c], k) <==> k <= |n| && Overlap(n, s, k - 1) && n[k - 1] == c
  {
    if k <= |n| && k <= |s| + 1 {
      assert n[..k] == n[..k - 1] + [n[k - 1]];
      assert (s + [c])[|s| + 1 - k..] == s[|s| - (k - 1)..] + [c];
    }
  }

  /** A shorter overlap with a text is a border of a longer one, and the other
      way round. */
  lemma OverlapInOverlap(n: seq<byte>, s: seq<byte>, j: nat, k: nat)
    requires Overlap(n, s, j) && k < j
    ensures Overlap(n, s, k) <==> Overlap(n, n[1..j], k)
  {
    assert n[1..j][j - 1 - k..] == n[j - k..j];
    assert s[|s| - k..] == s[|s| - j..][j - k..];
  }

  /** The fallback finds the longest overlap that `c` continues. */
  lemma {:induction false} FallIsLongest(n: seq<byte>, s: seq<byte>, c: byte, tbl: seq<schar>, j: int)
    requires -1 <= j < |n| && j < |tbl| && Backwards(tbl)
    requires forall m | 0 <= m <= j :: tbl[m] == Border(n, m)
    requires j >= 0 ==> Overlap(n, s, j)
    requires forall k | Overlap(n, s, k) && k < |n| && n[k] == c :: k <= j
    ensures Fall(n, tbl, j, c) + 1 == Overlapping(n, s + [c])
    decreases j + 1
  {
    if j >= 0 && n[j] != c {
      var b := Border(n, j);
      if b >= 0 {
        OverlapInOverlap(n, s, j, b);
      }
      forall k | Overlap(n, s, k) && k < |n| && n[k] == c
        ensures k <= b
      {
        OverlapInOverlap(n, s, j, k);
      }
      FallIsLongest(n, s, c, tbl, b);
    } else {
      forall k | 0 < k && Overlap(n, s + [c], k)
        ensures k <= j + 1
      {
        OverlapGrows(n, s, c, k);
      }
      if j >= 0 {
        OverlapGrows(n, s, c, j + 1);
      }
      assert Overlap(n, s + [c], j + 1);
    }
  }

  /** The same, from the longest overlap with what was read. */
  lemma FallFromLongest(n: seq<byte>, s: seq<byte>, c: byte, tbl: seq<schar>, j: nat)
    requires j == Overlapping(n, s) < |n| && j < |tbl| && Backwards(tbl)
    requires forall m | 0 <= m <= j :: tbl[m] == Border(n, m)
    ensures Fall(n, tbl, j, c) + 1 == Overlapping(n, s + [c])
  {
    hide Border;
    FallIsLongest(n, s, c, tbl, j);
  }

  /** The table holds the longest proper border of every prefix, as far as the
      borders of the shorter prefixes fit. */
  lemma {:induction false} BuiltIsBorders(n: seq<byte>, i: nat)
    requires i <= |n| < TABLE && forall m | 0 <= m < i :: Border(n, m) < 128
    ensures Built(n, i).1 == Border(n, i)
    ensures Built(n, i).0[i] == if i == 0 then -1 else Signed(Border(n, i))
    ensures forall m | 0 <= m < i :: Built(n, i).0[m] == Border(n, m)
  {
    hide Overlapping;
    if i == 1 {
      BuiltIsBorders(n, 0);
      assert n[1..1] == [];
      NoOverlap(n);
    } else if i > 1 {
      BuiltIsBorders(n, i - 1);
      var (tbl, j) := Built(n, i - 1);
      var s := n[1..i - 1];
      assert n[1..i] == s + [n[i - 1]];
      assert j == Overlapping(n, s);
      assert forall m | 0 <= m <= j :: tbl[m] == Border(n, m);
      hide Border;
      FallFromLongest(n, s, n[i - 1], tbl, j);
    }
  }

  /** Whatever did not fit, positive entries of the table are borders. */
  ghost predicate Sound(n: seq<byte>, tbl: seq<schar>) {
    |tbl| <= |n| + 1 && forall m | 0 < m < |tbl| && tbl[m] > 0 :: Overlap(n, n[1..m], tbl[m])
  }

  lemma {:induction false} FallIsSound(n: seq<byte>, s: seq<byte>, c: byte, tbl: seq<schar>, j: int)
    requires -128 <= j < |n| && j < |tbl| && Backwards(tbl) && Sound(n, tbl)
    requires j > 0 ==> Overlap(n, s, j)
    ensures var r := Fall(n, tbl, j, c) + 1; r > 0 ==> Overlap(n, s + [c], r)
    decreases j + 128
  {
    if j >= 0 && n[j] != c {
      if tbl[j] > 0 {
        OverlapInOverlap(n, s, j, tbl[j]);
      }
      FallIsSound(n, s, c, tbl, tbl[j]);
    } else if j >= 0 {
      assert j == 0 ==> n[..0] == s[|s|..];
      OverlapGrows(n, s, c, j + 1);
    }
  }

  lemma {:induction false} BuiltIsSound(n: seq<byte>, i: nat)
    requires i <= |n| < TABLE
    ensures Sound(n, Built(n, i).0) && (Built(n, i).1 > 0 ==> Overlap(n, n[1..i], Built(n, i).1))
  {
    hide Overlap;
    if i == 1 {
      BuiltIsSound(n, 0);
    } else if i > 1 {
      BuiltIsSound(n, i - 1);
      var (tbl, j) := Built(n, i - 1);
      assert n[1..i] == n[1..i - 1] + [n[i - 1]];
      FallIsSound(n, n[1..i - 1], n[i - 1], tbl, j);
    }
  }

  lemma {:induction false} StateIsSound(h: seq<byte>, n: seq<byte>, i: nat)
    requires i <= |h| && |n| < TABLE && forall k | 0 <= k < i :: State(h, n, k) != |n|
    ensures State(h, n, i) > 0 ==> Overlap(n, h[..i], State(h, n, i))
  {
    hide Overlap, Built;
    if i > 0 {
      StateIsSound(h, n, i - 1);
      BuiltIsSound(n, |n|);
      assert h[..i] == h[..i - 1] + [h[i - 1]];
      FallIsSound(n, h[..i - 1], h[i - 1], Built(n, |n|).0, State(h, n, i - 1));
    }
  }

  /** What is found is an occurrence, for all needles. */
  lemma KmpIsSound(h: seq<byte>, n: seq<byte>)
    requires |n| < TABLE
    ensures Kmp(h, n) != NULL ==> MatchAt(h, n, Kmp(h, n))
  {
    hide Built;
    var e := End(h, n, 0);
    if State(h, n, e) == |n| {
      StateIsSound(h, n, e);
      assert n[..|n|] == n;
      assert h[..e][e - |n|..] == h[e - |n|..e];
    }
  }

  lemma NoOverlap(n: seq<byte>)
    ensures Overlapping(n, []) == 0
  {
  }

  /** Later entries do not change earlier ones. */
  lemma {:induction false} BuiltKeeps(n: seq<byte>, i: nat, e: nat)
    requires i <= e <= |n| < TABLE
    ensures Built(n, e).0[..i + 1] == Built(n, i).0
  {
    if i < e {
      BuiltKeeps(n, i, e - 1);
    }
  }

  /** The search falls back only from prefixes up to which all borders fit. */
  predicate FallsFit(h: seq<byte>, n: seq<byte>) {
    forall i | 0 <= i < |h| ::
      var o := Overlapping(n, h[..i]);
      o < |n| && n[o] != h[i] ==> forall m | 0 <= m <= o :: Border(n, m) < 128
  }

  lemma FitAnyText(h: seq<byte>, n: seq<byte>)
    requires BordersFit(n)
    ensures FallsFit(h, n)
  {
    hide Overlapping, Border;
  }

  /** A longest overlap that `c` continues. */
  lemma Continues(n: seq<byte>, s: seq<byte>, c: byte)
    requires Overlapping(n, s) < |n| && n[Overlapping(n, s)] == c
    ensures Overlapping(n, s + [c]) == Overlapping(n, s) + 1
  {
    var j := Overlapping(n, s);
    OverlapGrows(n, s, c, j + 1);
    forall k | 0 < k && Overlap(n, s + [c], k)
      ensures k <= j + 1
    {
      OverlapGrows(n, s, c, k);
    }
  }

  /** The entries of the whole table up to a prefix. */
  lemma EntriesAre(n: seq<byte>, o: nat)
    requires o < |n| < TABLE && forall m | 0 <= m <= o :: Border(n, m) < 128
    ensures forall m | 0 <= m <= o :: Built(n, |n|).0[m] == Border(n, m)
  {
    hide Built, Overlapping;
    BuiltIsBorders(n, o);
    BuiltKeeps(n, o, |n|);
    var all, some := Built(n, |n|).0, Built(n, o).0;
    assert forall m | 0 <= m <= o :: all[m] == all[..o + 1][m] == some[m];
  }

  /** The state of the search is the longest overlap with what was read. */
  lemma {:induction false} StateIsOverlap(h: seq<byte>, n: seq<byte>, i: nat)
    requires i <= |h| && |n| < TABLE && FallsFit(h, n)
    requires forall k | 0 <= k < i :: State(h, n, k) != |n|
    ensures State(h, n, i) == Overlapping(n, h[..i])
  {
    hide Overlapping, Border, Built;
    NoOverlap(n);
    if i > 0 {
      StateIsOverlap(h, n, i - 1);
      assert h[..i] == h[..i - 1] + [h[i - 1]];
      var o := Overlapping(n, h[..i - 1]);
      if n[o] == h[i - 1] {
        Continues(n, h[..i - 1], h[i - 1]);
      } else {
        EntriesAre(n, o);
        FallFromLongest(n, h[..i - 1], h[i - 1], Built(n, |n|).0, o);
      }
    }
  }

  lemma MatchIsOverlap(h: seq<byte>, n: seq<byte>, p: nat)
    requires MatchAt(h, n, p)
    ensures Overlap(n, h[..p + |n|], |n|) && Overlapping(n, h[..p + |n|]) == |n|
  {
    assert h[..p + |n|][p..] == h[p..p + |n|];
  }

  /** The search finds the first occurrence if the borders it uses fit; so it does
      in any text if all of them fit (FitAnyText). */
  lemma KmpFinds(h: seq<byte>, n: seq<byte>)
    requires |n| < TABLE && FallsFit(h, n)
    ensures IsFirst(h, n, Kmp(h, n))
  {
    hide FallsFit;
    var e := End(h, n, 0);
    StateIsOverlap(h, n, e);
    forall q | MatchAt(h, n, q)
      ensures State(h, n, e) == |n| && e - |n| <= q
    {
      if q + |n| < e {
        StateIsOverlap(h, n, q + |n|);
        MatchIsOverlap(h, n, q);
      } else if State(h, n, e) != |n| {
        MatchIsOverlap(h, n, q);
      }
    }
    if State(h, n, e) == |n| {
      assert h[..e][e - |n|..] == h[e - |n|..e];
    }
  }

  // ---------- when KMP is wrong ----------

  /** The first prefix whose border does not fit. */
  lemma {:induction false} FirstMisfit(n: seq<byte>, m: nat) returns (r: nat)
    requires m < |n| && Border(n, m) >= 128
    ensures r < |n| && Border(n, r) >= 128 && forall k | 0 <= k < r :: Border(n, k) < 128
    decreases m
  {
    if k: nat :| k < m && Border(n, k) >= 128 {
      r := FirstMisfit(n, k);
    } else {
      r := m;
    }
  }

  /** A text on which the wrapped entry for the first `m` bytes is used. */
  function Trap(n: seq<byte>, m: nat): (h: seq<byte>)
    requires m < |n|
    ensures |h| == m + 1 + |n| && MatchAt(h, n, m + 1) && (NulFree(n) ==> NulFree(h))
  {
    var x: byte := if n[m] == 1 then 2 else 1;
    var h := n[..m] + [x] + n;
    assert h[m + 1..] == n;
    h
  }

  lemma {:induction false} TrapIsRead(n: seq<byte>, m: nat, i: nat)
    requires i <= m < |n| < TABLE
    ensures State(Trap(n, m), n, i) == i
  {
    if i > 0 {
      TrapIsRead(n, m, i - 1);
    }
  }

  lemma {:induction false} TrapShuts(n: seq<byte>, m: nat, i: nat)
    requires m < |n| < TABLE && m < i <= m + 1 + |n|
    requires Border(n, m) >= 128 && forall k | 0 <= k < m :: Border(n, k) < 128
    ensures State(Trap(n, m), n, i) <= i - m - 3
  {
    hide Border;
    if i == m + 1 {
      TrapIsRead(n, m, m);
      BuiltIsBorders(n, m);
      BuiltKeeps(n, m, |n|);
      assert Built(n, |n|).0[..m + 1][m] == Built(n, |n|).0[m];
    } else {
      TrapShuts(n, m, i - 1);
    }
  }

  /** A border that does not fit makes the search miss an occurrence. */
  lemma KmpMisses(n: seq<byte>, m: nat)
    requires |n| < TABLE && m < |n| && Border(n, m) >= 128 && forall k | 0 <= k < m :: Border(n, k) < 128
    ensures MatchAt(Trap(n, m), n, m + 1) && Kmp(Trap(n, m), n) == NULL
  {
    var h := Trap(n, m);
    var e := End(h, n, 0);
    if e <= m {
      TrapIsRead(n, m, e);
    } else {
      TrapShuts(n, m, e);
    }
  }

  /** Exactly when all borders fit does KMP find the first occurrence in every
      text; in particular for needles of up to 128 bytes. */
  lemma KmpIsRightExactly(n: cstring)
    requires |n| < TABLE
    ensures (forall h: cstring :: IsFirst(h, n, Kmp(h, n))) <==> BordersFit(n)
    ensures |n| <= 128 ==> BordersFit(n)
  {
    if BordersFit(n) {
      forall h: cstring
        ensures IsFirst(h, n, Kmp(h, n))
      {
        FitAnyText(h, n);
        KmpFinds(h, n);
      }
    } else {
      var m: nat :| m < |n| && Border(n, m) >= 128;
      var r := FirstMisfit(n, m);
      KmpMisses(n, r);
      var h: cstring := Trap(n, r);
      assert !IsFirst(h, n, Kmp(h, n));
    }
  }

  /** A needle for which the table wraps around: 256 would go to strstr, 140
      equal bytes have a border of 138 in front of the last one. */
  lemma BordersCanMisfit()
    ensures exists n: cstring :: |n| < TABLE && !BordersFit(n)
  {
    var n: cstring := seq(140, _ => 1);
    assert n[..138] == n[1..139][0..];
    assert Overlap(n, n[1..139], 138);
    assert Border(n, 139) == 138;
  }
}
