/** B+Tree nodes as bytes: every key without the prefix that it shares with the
    key before it, behind a byte that says how long that prefix is. */
module NodeCodec {
  import opened ByteOrder
  import opened BTreeShape
  import opened BTreeNode
  import opened Options

  // ---------- strings ----------

  /** A key with the NUL behind it. */
  function Terminated(k: Key): (s: Bytes)
    ensures |s| == |k| + 1
  {
    k + [0]
  }

  /** What strcmp sees of a buffer. */
  function CString(s: Bytes): (k: Key)
    requires 0 in s
    ensures |k| < |s| && k == s[..|k|] && s[|k|] == 0
  {
    if s[0] == 0 then [] else [s[0]] + CString(s[1..])
  }

  /** strncpy: stops at a NUL, and fills up with NULs. */
  function StrNCpy(s: Bytes, n: nat): (t: Bytes)
    requires |s| >= n || 0 in s
    ensures |t| == n
  {
    if n == 0 then [] else if s[0] == 0 then seq(n, _ => 0) else [s[0]] + StrNCpy(s[1..], n - 1)
  }

  /** A string cut or filled up to `n` bytes. */
  ghost function Filled(k: Key, n: nat): (s: Bytes)
    ensures |s| == n
  {
    if n <= |k| then k[..n] else k + seq(n - |k|, _ => 0)
  }

  lemma {:induction false} StrNCpyIs(s: Bytes, n: nat)
    requires 0 in s
    ensures StrNCpy(s, n) == Filled(CString(s), n)
  {
    hide Filled;
    if n == 0 || s[0] == 0 {
      FilledZeros(n);
      FilledNothing(CString(s));
    } else {
      StrNCpyIs(s[1..], n - 1);
      FilledMore(CString(s), CString(s[1..]), n);
    }
  }

  lemma FilledZeros(n: nat)
    ensures Filled([], n) == seq(n, _ => 0)
  {
    assert [] + seq(n, _ => 0) == seq(n, _ => 0);
  }

  lemma FilledNothing(k: Key)
    ensures Filled(k, 0) == []
  {
  }

  lemma FilledMore(k: Key, rest: Key, n: nat)
    requires n > 0 && k != [] && k[1..] == rest
    ensures Filled(k, n) == [k[0]] + Filled(rest, n - 1)
  {
    assert k == [k[0]] + rest;
  }

  lemma {:induction false} StringIs(s: Bytes, k: Key)
    requires |k| < |s| && s[..|k|] == k && s[|k|] == 0
    ensures 0 in s && CString(s) == k
  {
    if k != [] {
      assert s[0] == s[..|k|][0] == k[0] && k[0] in k;
      assert s[1..][..|k| - 1] == s[..|k|][1..];
      StringIs(s[1..], k[1..]);
    }
  }

  // ---------- one key ----------

  /** How many bytes two buffers start with alike. */
  ghost function Common(a: Bytes, b: Bytes): (n: nat)
    ensures n <= |a| && n <= |b| && a[..n] == b[..n]
    ensures n < |a| && n < |b| ==> a[n] != b[n]
  {
    if a == [] || b == [] || a[0] != b[0] then 0 else 1 + Common(a[1..], b[1..])
  }

  /** Different keys differ before either of them ends. */
  lemma CommonStops(a: Key, b: Key)
    requires a != b
    ensures Common(Terminated(a), Terminated(b)) <= |a| && Common(Terminated(a), Terminated(b)) <= |b|
  {
    hide Common;
    var n := Common(Terminated(a), Terminated(b));
    if n > |a| {
      Reached(a, b, n);
    } else if n > |b| {
      Reached(b, a, n);
    }
  }

  lemma Agree(a: Bytes, b: Bytes, n: nat, i: nat)
    requires i < n <= |a| && n <= |b| && a[..n] == b[..n]
    ensures a[i] == b[i]
  {
    assert a[i] == a[..n][i] == b[..n][i] == b[i];
  }

  lemma Reached(a: Key, b: Key, n: nat)
    requires |a| < n <= |a| + 1 && n <= |b| + 1 && Terminated(a)[..n] == Terminated(b)[..n]
    ensures a == b
  {
    Agree(Terminated(a), Terminated(b), n, |a|);
    assert a == Terminated(a)[..n][..|a|] == Terminated(b)[..n][..|a|];
  }

  lemma SamePrefix(a: Key, b: Key, n: nat)
    requires n <= |a| && n <= |b| && Terminated(a)[..n] == Terminated(b)[..n]
    ensures a[..n] == b[..n] && (n == |a| == |b| ==> a == b)
  {
    assert a[..n] == Terminated(a)[..n] && b[..n] == Terminated(b)[..n];
  }

  ghost function Min(a: nat, b: nat): nat {
    if a < b then a else b
  }

  /** The length of the prefix that is left out, with the sizes that the node has
      for both keys. */
  ghost function Shared(a: Key, za: nat, b: Key, zb: nat): (n: nat)
    requires a != b
    ensures n <= 255 && n <= za && n <= zb && n <= |a| && n <= |b| && a[..n] == b[..n]
  {
    CommonStops(a, b);
    SamePrefix(a, b, Common(Terminated(a), Terminated(b)));
    Min(Common(Terminated(a), Terminated(b)), Min(255, Min(za, zb)))
  }

  lemma SharedIs(a: Key, za: nat, b: Key, zb: nat, n: nat)
    requires a != b && n <= 255 && n <= za && n <= zb && n <= |a| && n <= |b|
    requires Terminated(a)[..n] == Terminated(b)[..n]
    requires n == 255 || n == za || n == zb || Terminated(a)[n] != Terminated(b)[n]
    ensures Shared(a, za, b, zb) == n
  {
    hide Common, Terminated;
    var s, t := Terminated(a), Terminated(b);
    var m := Common(s, t);
    if m < n {
      Agree(s, t, n, m);
    } else if n < m && n < 255 && n < za && n < zb {
      Agree(s, t, m, n);
    }
  }

  /** What is stored for a key, or nothing if the size of its buffer wraps round. */
  ghost function Coded(a: Key, za: nat, b: Key, zb: nat): (s: Option<Bytes>)
    requires a != b
    ensures s.Some? ==> |s.value| < SHORT
  {
    if za == 0 || zb == 0 then Some([])
    else
      var n := Shared(a, za, b, zb);
      if zb - n + 1 >= SHORT then None else Some([n] + Filled(b[n..], zb - n))
  }

  /** gdbCompressString. There is no result when the buffer is too small for what
      is copied into it; a key without a size is not written at all. */
  method CompressString(base: Key, baseLen: nat, key: Key, keyLen: nat) returns (newKey: Option<Bytes>)
    requires base != key && keyLen < SHORT
    ensures newKey == Coded(base, baseLen, key, keyLen)
  {
    hide StrNCpy, Shared, Common, Filled, CString;
    if baseLen == 0 || keyLen == 0 {
      return Some([]);
    }
    var s, t := Terminated(base), Terminated(key);
    var minLen := if baseLen < keyLen then baseLen else keyLen;
    minLen := if minLen < 255 then minLen else 255;
    var preLen: nat := 0;
    while preLen < minLen && s[preLen] == t[preLen]
      invariant 0 <= preLen <= minLen && preLen <= |base| && preLen <= |key| && s[..preLen] == t[..preLen]
    {
      Different(base, key, preLen);
      preLen := preLen + 1;
    }
    SharedIs(base, baseLen, key, keyLen, preLen);
    var newLen := (keyLen - preLen + 1) % SHORT;
    if newLen < keyLen - preLen + 1 {
      return None;
    }
    StringIs(t[preLen..], key[preLen..]);
    StrNCpyIs(t[preLen..], keyLen - preLen);
    newKey := Some([preLen] + StrNCpy(t[preLen..], keyLen - preLen));
  }

  lemma Different(a: Key, b: Key, n: nat)
    requires a != b && n <= |a| && n <= |b| && Terminated(a)[..n] == Terminated(b)[..n]
    requires Terminated(a)[n] == Terminated(b)[n]
    ensures n < |a| && n < |b|
  {
    SamePrefix(a, b, n);
  }

  /** gdbUncompressString. The new buffer has `newLen` bytes; there is no result
      when it is too small for what is copied into it. */
  function UncompressString(base: Bytes, key: Bytes): (newKey: Option<Bytes>)
    requires 0 in base && key != []
  {
    var preLen := Widened(key[0]);
    var newLen := (preLen + |key| - 1) % SHORT;
    if preLen + |key| - 1 > newLen then None
    else Some(StrNCpy(base, preLen) + StrNCpy(key[1..], |key| - 1))
  }

  lemma {:induction false} PlainCopied(k: Key, n: nat)
    requires n <= |k|
    ensures StrNCpy(k[..n], n) == k[..n]
  {
    if n > 0 {
      PlainCopied(k[1..], n - 1);
      assert k[..n][1..] == k[1..][..n - 1];
      assert k[0] in k;
    }
  }

  lemma FilledAgain(k: Key, n: nat)
    ensures StrNCpy(Filled(k, n), n) == Filled(k, n)
  {
    if n <= |k| {
      PlainCopied(k, n);
    } else {
      hide CString;
      var s := Filled(k, n);
      StringIs(s, k);
      StrNCpyIs(s, n);
    }
  }

  /** What a reader makes of a coded key, with a buffer that holds the key before it. */
  lemma Uncoded(d: Bytes, a: Key, za: nat, b: Key, zb: nat)
    requires 0 in d && CString(d) == a && a != b && za > 0 && zb > 0 && Coded(a, za, b, zb).Some?
    ensures var (n, c) := (Shared(a, za, b, zb), Coded(a, za, b, zb).value);
            && c != []
            && var m := Widened(n);
            UncompressString(d, c) == if m + zb - n >= SHORT then None else Some(Filled(a, m) + Filled(b[n..], zb - n))
  {
    hide Shared, StrNCpy, CString, Filled;
    var n := Shared(a, za, b, zb);
    StrNCpyIs(d, Widened(n));
    FilledAgain(b[n..], zb - n);
    var rest := Filled(b[n..], zb - n);
    assert ([n] + rest)[1..] == rest;
  }

  /** A key comes back from its code if its size covers it, a signed char can tell
      how much it shares, and the size of its buffer does not wrap round. */
  ghost predicate Legible(a: Key, za: nat, b: Key, zb: nat)
    requires a != b
  {
    |b| < zb && Shared(a, za, b, zb) <= MOST && zb - Shared(a, za, b, zb) + 1 < SHORT
  }

  /** And from nothing else: without a size it is not stored; without a NUL in
      what is stored there is no string; and with a long prefix the copy runs over
      its buffer, or what comes back is some other key. */
  lemma LegibleExactly(d: Bytes, a: Key, za: nat, b: Key, zb: nat)
    requires 0 in d && CString(d) == a && a != b && |a| < za && zb < SHORT
    ensures var c := Coded(a, za, b, zb);
            Legible(a, za, b, zb) <==>
              && c.Some? && c.value != []
              && var r := UncompressString(d, c.value);
              r.Some? && 0 in r.value && CString(r.value) == b
    ensures Legible(a, za, b, zb) ==> |UncompressString(d, Coded(a, za, b, zb).value).value| == zb
  {
    hide Shared, StrNCpy, CString, Filled, UncompressString;
    if zb > 0 && Coded(a, za, b, zb).Some? {
      Uncoded(d, a, za, b, zb);
      var n := Shared(a, za, b, zb);
      if n <= MOST {
        ShortPrefix(a, b, n, zb);
      } else if Widened(n) + zb - n < SHORT {
        LongPrefix(a, b, n, zb);
      }
    }
  }

  lemma ShortPrefix(a: Key, b: Key, n: nat, zb: nat)
    requires n <= |a| && n <= |b| && a[..n] == b[..n] && n <= zb
    ensures var r := Filled(a, n) + Filled(b[n..], zb - n);
            |b| < zb <==> 0 in r && CString(r) == b
  {
    hide CString;
    var r := Filled(a, n) + Filled(b[n..], zb - n);
    if |b| < zb {
      assert r[..|b|] == b[..n] + b[n..] == b;
      StringIs(r, b);
    } else {
      assert r == b[..zb];
    }
  }

  lemma LongPrefix(a: Key, b: Key, n: nat, zb: nat)
    requires a != b && MOST < n <= |a| && n <= |b| && n <= 255 && n <= zb && Widened(n) + zb - n < SHORT
    ensures var r := Filled(a, Widened(n)) + Filled(b[n..], zb - n); !(0 in r && CString(r) == b)
  {
    hide CString;
    var m := Widened(n);
    var r := Filled(a, m) + Filled(b[n..], zb - n);
    assert zb < 256;
    if |a| < m {
      assert r[..|a|] == a;
      StringIs(r, a);
    } else if |b| < zb {
      assert r[|b|] == a[|b|] && a[|b|] in a;
    } else {
      assert r == a[..m] + b[n..zb];
    }
  }

  // ---------- the keys of a node ----------

  /** Slot `i` of a node as it goes to disk. */
  ghost function StoredKey(keys: seq<Key>, zs: seq<nat>, i: nat): (s: Option<Bytes>)
    requires Distinct(keys, zs)
    ensures s.Some? ==> |s.value| < SHORT
  {
    if i >= |keys| then Some([])
    else if i > 0 then Coded(keys[i - 1], zs[i - 1], keys[i], zs[i])
    else if zs[0] > |keys[0]| + 1 then None // memcpy reads behind the string
    else Some(Terminated(keys[0])[..zs[0]])
  }

  /** Neighbours are different, and there is a size for every key. */
  ghost predicate Distinct(keys: seq<Key>, zs: seq<nat>) {
    && |zs| == |keys| && (forall i | 0 <= i < |zs| :: zs[i] < SHORT)
    && (forall i | 0 < i < |keys| :: keys[i - 1] != keys[i])
  }

  /** No buffer is too small when the node is written, and nothing is read behind
      the end of a string. */
  ghost predicate Writable(keys: seq<Key>, zs: seq<nat>)
    requires Distinct(keys, zs)
  {
    forall i | 0 <= i < |keys| :: StoredKey(keys, zs, i).Some?
  }

  ghost function Stored(keys: seq<Key>, zs: seq<nat>, slots: nat): (s: seq<Bytes>)
    requires Distinct(keys, zs) && Writable(keys, zs)
    ensures |s| == slots && forall i | 0 <= i < slots :: Some(s[i]) == StoredKey(keys, zs, i)
  {
    seq(slots, i requires 0 <= i < slots => StoredKey(keys, zs, i).value)
  }

  /** Byte by byte: the first key as far as its size goes; for each other one how
      many bytes it shares with the key before it, as far as a byte can tell and
      both sizes go, and the rest of it, filled up with NULs. */
  lemma StoredBytes(keys: seq<Key>, zs: seq<nat>, i: nat)
    requires Distinct(keys, zs) && StoredKey(keys, zs, i).Some?
    ensures i >= |keys| ==> StoredKey(keys, zs, i).value == []
    ensures i == 0 < |keys| ==>
              var (s, k) := (StoredKey(keys, zs, 0).value, keys[0]);
              |s| == zs[0] <= |k| + 1 && forall j | 0 <= j < |s| :: s[j] == if j < |k| then k[j] else 0
    ensures 0 < i < |keys| && (zs[i - 1] == 0 || zs[i] == 0) ==> StoredKey(keys, zs, i).value == []
    ensures 0 < i < |keys| && zs[i - 1] > 0 && zs[i] > 0 ==>
              var (s, a, b) := (StoredKey(keys, zs, i).value, keys[i - 1], keys[i]);
              && s != []
              && var n := s[0];
              && |s| == zs[i] - n + 1 && n <= zs[i - 1] && n <= |a| && n <= |b| && a[..n] == b[..n]
              && (n == 255 || n == zs[i - 1] || n == zs[i] || n == |a| || n == |b| || a[n] != b[n])
              && forall j | 1 <= j < |s| :: s[j] == if n + j - 1 < |b| then b[n + j - 1] else 0
  {
    if 0 < i < |keys| && zs[i - 1] > 0 && zs[i] > 0 {
      CodedBytes(keys[i - 1], zs[i - 1], keys[i], zs[i]);
    }
  }

  lemma CodedBytes(a: Key, za: nat, b: Key, zb: nat)
    requires a != b && za > 0 && zb > 0 && Coded(a, za, b, zb).Some?
    ensures var s := Coded(a, za, b, zb).value;
            && s != []
            && var n := s[0];
            && |s| == zb - n + 1 && n <= za && n <= |a| && n <= |b| && a[..n] == b[..n]
            && (n == 255 || n == za || n == zb || n == |a| || n == |b| || a[n] != b[n])
            && forall j | 1 <= j < |s| :: s[j] == if n + j - 1 < |b| then b[n + j - 1] else 0
  {
    var n := Shared(a, za, b, zb);
    var rest := Filled(b[n..], zb - n);
    SharedIsLongest(a, za, b, zb);
    forall j | 0 <= j < |rest|
      ensures rest[j] == if n + j < |b| then b[n + j] else 0
    {
      assert n + j < |b| ==> b[n..][j] == b[n + j];
    }
    hide Shared, Filled;
    assert Coded(a, za, b, zb).value == [n] + rest;
  }

  lemma SharedIsLongest(a: Key, za: nat, b: Key, zb: nat)
    requires a != b
    ensures var n := Shared(a, za, b, zb); n == 255 || n == za || n == zb || n == |a| || n == |b| || a[n] != b[n]
  {
    CommonStops(a, b);
  }

  /** Every buffer holds a string. */
  ghost predicate AllEnd(ds: seq<Bytes>) {
    forall i | 0 <= i < |ds| :: 0 in ds[i]
  }

  /** One more key, from its stored form and the decoded key before it. There is
      no result if it has no stored form, or if what comes out is no string. */
  ghost function DecodedNext(ds: seq<Bytes>, stored: Bytes): (d: Option<seq<Bytes>>)
    requires AllEnd(ds)
    ensures d.Some? ==> AllEnd(d.value) && |d.value| == |ds| + 1 && d.value[..|ds|] == ds
  {
    if stored == [] then None
    else
      var r := if ds == [] then Some(stored) else UncompressString(ds[|ds| - 1], stored);
      if r == None || 0 !in r.value then None else Some(ds + [r.value])
  }

  /** The first `n` keys as a reader gets them. */
  ghost function Decoded(keys: seq<Key>, zs: seq<nat>, n: nat): (d: Option<seq<Bytes>>)
    requires Distinct(keys, zs) && n <= |keys|
    ensures d.Some? ==> |d.value| == n && AllEnd(d.value)
  {
    if n == 0 then Some([])
    else
      var (d, s) := (Decoded(keys, zs, n - 1), StoredKey(keys, zs, n - 1));
      if d == None || s == None then None else DecodedNext(d.value, s.value)
  }

  /** The keys come back from disk. */
  ghost predicate Restored(keys: seq<Key>, zs: seq<nat>, n: nat)
    requires Distinct(keys, zs) && n <= |keys|
  {
    var d := Decoded(keys, zs, n);
    d.Some? && forall i | 0 <= i < n :: CString(d.value[i]) == keys[i]
  }

  /** The size of the first key is right, and each other one is legible behind the
      key before it. */
  ghost predicate AllLegible(keys: seq<Key>, zs: seq<nat>, n: nat)
    requires Distinct(keys, zs) && n <= |keys|
  {
    && (n > 0 ==> zs[0] == |keys[0]| + 1)
    && forall i | 0 < i < n :: Legible(keys[i - 1], zs[i - 1], keys[i], zs[i])
  }

  /** The keys come back exactly if all of them are legible, and then with the
      sizes they were written with. */
  lemma {:induction false} RestoredExactly(keys: seq<Key>, zs: seq<nat>, n: nat)
    requires Distinct(keys, zs) && n <= |keys|
    ensures Restored(keys, zs, n) <==> AllLegible(keys, zs, n)
    ensures AllLegible(keys, zs, n) ==> forall i | 0 <= i < n :: |Decoded(keys, zs, n).value[i]| == zs[i]
  {
    hide CString, StrNCpy, UncompressString, Coded, Shared;
    if n == 1 {
      FirstKey(keys, zs);
    } else if n > 1 {
      RestoredExactly(keys, zs, n - 1);
      if AllLegible(keys, zs, n - 1) {
        NextKey(keys, zs, n);
      } else {
        StaysLost(keys, zs, n);
      }
    }
  }

  lemma FirstKey(keys: seq<Key>, zs: seq<nat>)
    requires Distinct(keys, zs) && keys != []
    ensures Restored(keys, zs, 1) <==> AllLegible(keys, zs, 1)
    ensures AllLegible(keys, zs, 1) ==> |Decoded(keys, zs, 1).value[0]| == zs[0]
  {
    hide CString;
    assert Decoded(keys, zs, 0) == Some([]);
    var s := Terminated(keys[0]);
    if zs[0] <= |keys[0]| {
      assert s[..zs[0]] == keys[0][..zs[0]];
    } else if zs[0] == |s| {
      assert s[..zs[0]] == s;
      StringIs(s, keys[0]);
    }
  }

  lemma NextKey(keys: seq<Key>, zs: seq<nat>, n: nat)
    requires Distinct(keys, zs) && 1 < n <= |keys| && AllLegible(keys, zs, n - 1) && Restored(keys, zs, n - 1)
    requires forall i | 0 <= i < n - 1 :: |Decoded(keys, zs, n - 1).value[i]| == zs[i]
    ensures Restored(keys, zs, n) <==> AllLegible(keys, zs, n)
    ensures AllLegible(keys, zs, n) ==> forall i | 0 <= i < n :: |Decoded(keys, zs, n).value[i]| == zs[i]
  {
    hide CString, StrNCpy, UncompressString, Coded, Shared, Legible;
    var ds := Decoded(keys, zs, n - 1).value;
    assert |keys[n - 2]| < zs[n - 2] by {
      assert CString(ds[n - 2]) == keys[n - 2];
    }
    LegibleExactly(ds[n - 2], keys[n - 2], zs[n - 2], keys[n - 1], zs[n - 1]);
  }

  lemma StaysLost(keys: seq<Key>, zs: seq<nat>, n: nat)
    requires Distinct(keys, zs) && 0 < n <= |keys| && !Restored(keys, zs, n - 1)
    ensures !Restored(keys, zs, n)
  {
    hide CString, UncompressString, StoredKey;
    var d := Decoded(keys, zs, n - 1);
    if d.Some? {
      var i :| 0 <= i < n - 1 && CString(d.value[i]) != keys[i];
      if Decoded(keys, zs, n).Some? {
        assert Decoded(keys, zs, n).value[i] == d.value[i];
      }
    }
  }

  /** With the sizes of the keys all that is left is how much neighbours share. */
  lemma LegibleWithRightSizes(keys: seq<Key>, zs: seq<nat>, n: nat)
    requires Distinct(keys, zs) && RightSizes(keys, zs) && n <= |keys|
    ensures AllLegible(keys, zs, n) <==>
            forall i | 0 < i < n ::
              var shared := Common(Terminated(keys[i - 1]), Terminated(keys[i]));
              shared <= MOST && |keys[i]| - shared + 2 < SHORT
  {
  }

  /** So no node with keys of at most 126 bytes loses anything. */
  lemma ShortKeysLegible(keys: seq<Key>, zs: seq<nat>)
    requires Distinct(keys, zs) && ShortRight(keys, zs) && forall i | 0 <= i < |keys| :: |keys[i]| < MOST
    ensures AllLegible(keys, zs, |keys|)
  {
    hide Shared;
  }

  /** A node with one key of 255 bytes, into which a smaller one is inserted, is
      not restored, whatever the two share. */
  lemma LostSizes(long: Key, key: Key)
    requires |long| == 255 && |key| < SHORT - 2 && key != long
    ensures var (keys, zs) := ([key, long], WithSize([256], 0, SizeOf(key)));
            && Distinct(keys, zs) && !Restored(keys, zs, 2)
  {
    hide Restored, Shared;
    var (keys, zs) := ([key, long], WithSize([256], 0, SizeOf(key)));
    SizeIsLost(long, key);
    assert keys[0] == key && keys[1] == long && zs[1] == 0;
    RestoredExactly(keys, zs, 2);
  }
}
