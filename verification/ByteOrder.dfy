/** Byte strings and the C library comparisons the storage engines order keys by.

    Every comparison is tied to a real-valued rank, so that the ordered
    structures built on top of it can reason with plain arithmetic. */
module ByteOrder {

  type byte = i: int | 0 <= i < 256

  type Bytes = seq<byte>

  /** A C string without its terminator: no byte is NUL. */
  type cstring = s: seq<byte> | NulFree(s) witness []

  predicate NulFree(s: seq<byte>) {
    forall i :: 0 <= i < |s| ==> s[i] != 0
  }

  /** The string read as a base-256 fraction, most significant byte first. */
  ghost function Fraction(s: seq<byte>): (r: real)
    ensures 0.0 <= r < 1.0
  {
    if s == [] then 0.0 else (s[0] as real + Fraction(s[1..])) / 256.0
  }

  /** The rank of a key when shorter keys come first (dpkeycmp and cbkeycmp). */
  ghost function Weight(s: seq<byte>): real {
    |s| as real + Fraction(s)
  }

  /** memcmp on two regions of one size. */
  function MemCmp(a: seq<byte>, b: seq<byte>): (c: int)
    requires |a| == |b|
    ensures c < 0 <==> Fraction(a) < Fraction(b)
    ensures c == 0 <==> Fraction(a) == Fraction(b)
    ensures c == 0 <==> a == b
  {
    if a == [] then
      0
    else if a[0] != b[0] then
      a[0] - b[0]
    else
      assert a == [a[0]] + a[1..] && b == [b[0]] + b[1..];
      MemCmp(a[1..], b[1..])
  }

  /** The key comparison of Depot and Cabin: by size, then by content. */
  function KeyCmp(a: seq<byte>, b: seq<byte>): (c: int)
    ensures c < 0 <==> Weight(a) < Weight(b)
    ensures c == 0 <==> Weight(a) == Weight(b)
    ensures c == 0 <==> a == b
  {
    if |a| > |b| then 1
    else if |a| < |b| then -1
    else MemCmp(a, b)
  }

  /** strcmp: the end of a string compares as a NUL byte. */
  function StrCmp(a: cstring, b: cstring): (c: int)
    ensures c < 0 <==> Fraction(a) < Fraction(b)
    ensures c == 0 <==> Fraction(a) == Fraction(b)
    ensures c == 0 <==> a == b
    decreases |a|
  {
    if a == [] then
      if b == [] then 0 else -b[0]
    else if b == [] then
      a[0]
    else if a[0] != b[0] then
      a[0] - b[0]
    else
      assert a == [a[0]] + a[1..] && b == [b[0]] + b[1..];
      StrCmp(a[1..], b[1..])
  }

  // ---------- the orders, byte by byte ----------

  /** memcmp: the first byte that differs decides. */
  lemma {:induction false} MemCmpByBytes(a: seq<byte>, b: seq<byte>)
    requires |a| == |b|
    ensures MemCmp(a, b) < 0 <==> exists i | 0 <= i < |a| :: a[..i] == b[..i] && a[i] < b[i]
  {
    hide Fraction;
    if a != [] && a[0] == b[0] {
      MemCmpByBytes(a[1..], b[1..]);
      if MemCmp(a, b) < 0 {
        var i :| 0 <= i < |a[1..]| && a[1..][..i] == b[1..][..i] && a[1..][i] < b[1..][i];
        assert a[..i + 1] == [a[0]] + a[1..][..i] && b[..i + 1] == [b[0]] + b[1..][..i];
      } else {
        forall i | 0 < i < |a| && a[..i] == b[..i]
          ensures a[1..][..i - 1] == b[1..][..i - 1]
        {
          assert a[1..][..i - 1] == a[..i][1..] && b[1..][..i - 1] == b[..i][1..];
        }
      }
    } else if a != [] {
      assert a[..0] == b[..0];
      FirstDiffers(a, b);
    }
  }

  lemma FirstDiffers(a: seq<byte>, b: seq<byte>)
    requires a != [] && b != [] && a[0] != b[0]
    ensures forall i | 0 < i <= |a| && i <= |b| :: a[..i] != b[..i]
  {
    forall i | 0 < i <= |a| && i <= |b|
      ensures a[..i] != b[..i]
    {
      assert a[..i][0] != b[..i][0];
    }
  }

  /** The shorter one comes first, and of two that are equally long the one whose
      first byte that differs is less. */
  ghost predicate Shortlex(a: seq<byte>, b: seq<byte>) {
    |a| < |b| || (|a| == |b| && exists i | 0 <= i < |a| :: a[..i] == b[..i] && a[i] < b[i])
  }

  /** Keys of a hash are in this order. */
  lemma KeyCmpByBytes(a: seq<byte>, b: seq<byte>)
    ensures KeyCmp(a, b) < 0 <==>
            |a| < |b| || (|a| == |b| && exists i | 0 <= i < |a| :: a[..i] == b[..i] && a[i] < b[i])
    ensures KeyCmp(a, b) < 0 <==> Shortlex(a, b)
  {
    hide Fraction;
    if |a| == |b| {
      MemCmpByBytes(a, b);
    }
  }

  /** The first byte that differs decides, and a string that ends is less. */
  ghost predicate Precedes(a: seq<byte>, b: seq<byte>) {
    exists i | 0 <= i <= |a| && i < |b| :: a[..i] == b[..i] && (i == |a| || a[i] < b[i])
  }

  /** strcmp is less than 0 in this order. */
  lemma {:induction false} StrCmpByBytes(a: cstring, b: cstring)
    ensures StrCmp(a, b) < 0 <==>
            exists i | 0 <= i <= |a| && i < |b| :: a[..i] == b[..i] && (i == |a| || a[i] < b[i])
    ensures StrCmp(a, b) < 0 <==> Precedes(a, b)
    decreases |a|
  {
    hide Fraction;
    if a != [] && b != [] && a[0] == b[0] {
      StrCmpByBytes(a[1..], b[1..]);
      if StrCmp(a, b) < 0 {
        var i :| 0 <= i <= |a[1..]| && i < |b[1..]| && a[1..][..i] == b[1..][..i] && (i == |a[1..]| || a[1..][i] < b[1..][i]);
        assert a[..i + 1] == [a[0]] + a[1..][..i] && b[..i + 1] == [b[0]] + b[1..][..i];
      } else {
        forall i | 0 < i <= |a| && i < |b| && a[..i] == b[..i]
          ensures a[1..][..i - 1] == b[1..][..i - 1]
        {
          assert a[1..][..i - 1] == a[..i][1..] && b[1..][..i - 1] == b[..i][1..];
        }
      }
    } else {
      assert a[..0] == b[..0];
      if a != [] && b != [] {
        FirstDiffers(a, b);
      }
    }
  }
}
