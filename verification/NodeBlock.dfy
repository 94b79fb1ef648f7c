/** Writing a B+Tree node into a buffer and reading it back (btree_node.c). */
module NodeBlock {
  import opened ByteOrder
  import opened BigEndian
  import BTreeShape
  import opened BTreeNode
  import opened NodeCodec
  import opened Options

  type Key = BTreeShape.Key

  // ---------- the layout ----------

  ghost function Numbers(ns: seq<nat>, k: nat): (bs: Bytes)
    ensures |bs| == k * |ns|
  {
    if ns == [] then [] else Put(ns[0], k) + Numbers(ns[1..], k)
  }

  ghost function Joined(ss: seq<Bytes>): Bytes {
    if ss == [] then [] else ss[0] + Joined(ss[1..])
  }

  ghost function Sizes(ss: seq<Bytes>): (ns: seq<nat>)
    ensures |ns| == |ss| && forall i | 0 <= i < |ss| :: ns[i] == |ss[i]|
  {
    seq(|ss|, i requires 0 <= i < |ss| => |ss[i]|)
  }

  /** A node on disk: the number of keys, all child slots, all sizes, the keys. */
  ghost function Encoded(order: nat, keys: seq<Key>, zs: seq<nat>, children: seq<nat>): Bytes
    requires order > 0 && Distinct(keys, zs) && Writable(keys, zs)
  {
    var s := Stored(keys, zs, order - 1);
    Put(|keys|, 1) + (Numbers(children, 4) + (Numbers(Sizes(s), 2) + Joined(s)))
  }

  /** The numbers of a node fit their fields. */
  ghost predicate Fits(order: nat, keys: seq<Key>, zs: seq<nat>, children: seq<int>) {
    && 3 <= order <= MOST + 1 && |keys| < order && |children| == order && Distinct(keys, zs)
    && forall i | 0 <= i < |children| :: 0 <= children[i] < 0x1_0000_0000
  }

  // ---------- where the parts of a node are ----------

  /** Byte 0 has the number of keys. */
  lemma CountIsFirst(order: nat, keys: seq<Key>, zs: seq<nat>, children: seq<nat>)
    requires order > 0 && Distinct(keys, zs) && Writable(keys, zs) && |keys| < 256 && |children| == order
    ensures var e := Encoded(order, keys, zs, children);
            |e| == 6 * order - 1 + |Joined(Stored(keys, zs, order - 1))| && e[0] == |keys|
  {
    hide Put, Numbers, Joined, Stored, Sizes, Distinct, Writable;
    OneByte(|keys|);
  }

  /** Then come four bytes for each child. */
  lemma ChildrenFollow(order: nat, keys: seq<Key>, zs: seq<nat>, children: seq<nat>, i: nat)
    requires order > 0 && Distinct(keys, zs) && Writable(keys, zs) && |children| == order && i < order
    ensures var e := Encoded(order, keys, zs, children);
            5 + 4 * i <= |e| && e[1 + 4 * i..5 + 4 * i] == Put(children[i], 4)
  {
    hide Put, Numbers, Joined, Stored, Sizes, Distinct, Writable;
    var s := Stored(keys, zs, order - 1);
    NumberAt(Put(|keys|, 1), children, 4, Numbers(Sizes(s), 2) + Joined(s), i, Encoded(order, keys, zs, children));
  }

  /** Then two bytes for the size of each coded key. */
  lemma SizesFollow(order: nat, keys: seq<Key>, zs: seq<nat>, children: seq<nat>, i: nat)
    requires order > 0 && Distinct(keys, zs) && Writable(keys, zs) && |children| == order && i < order - 1
    ensures var e, at := Encoded(order, keys, zs, children), 1 + 4 * order + 2 * i;
            at + 2 <= |e| && e[at..at + 2] == Put(|Stored(keys, zs, order - 1)[i]|, 2)
  {
    hide Put, Numbers, Joined, Stored, Sizes, Distinct, Writable;
    var s := Stored(keys, zs, order - 1);
    var a, b, c, d := Put(|keys|, 1), Numbers(children, 4), Numbers(Sizes(s), 2), Joined(s);
    Regrouped(a, b, c, d);
    NumberAt(a + b, Sizes(s), 2, d, i, a + (b + (c + d)));
  }

  /** And then the coded keys, each behind the ones before it. */
  lemma KeysAreLast(order: nat, keys: seq<Key>, zs: seq<nat>, children: seq<nat>, i: nat)
    requires order > 0 && Distinct(keys, zs) && Writable(keys, zs) && |children| == order && i < order - 1
    ensures var e, s := Encoded(order, keys, zs, children), Stored(keys, zs, order - 1);
            var at := 6 * order - 1 + |Joined(s[..i])|;
            at + |s[i]| <= |e| && e[at..at + |s[i]|] == s[i]
  {
    hide Put, Numbers, Joined, Stored, Sizes, Distinct, Writable;
    var s := Stored(keys, zs, order - 1);
    var a, b, c, d := Put(|keys|, 1), Numbers(children, 4), Numbers(Sizes(s), 2), Joined(s);
    Regrouped(a, b, c, d);
    KeyAt(a + b + c, s, i);
  }

  /** The buffer of a node by position: byte 0 has the number of keys, then come
      four bytes for each child, two for the size of each coded key `s[i]`, and
      the coded keys, each behind the ones before it. */
  ghost predicate LaidOut(b: Bytes, order: nat, keyCount: nat, children: seq<nat>, s: seq<Bytes>)
    requires order > 0 && |children| == order && |s| == order - 1
  {
    && |b| == 6 * order - 1 + |Joined(s)| && b[0] == keyCount
    && (forall i | 0 <= i < order :: b[1 + 4 * i..5 + 4 * i] == Put(children[i], 4))
    && (forall i | 0 <= i < order - 1 ::
          b[1 + 4 * order + 2 * i..3 + 4 * order + 2 * i] == Put(|s[i]|, 2) && KeyIsAt(b, 6 * order - 1 + |Joined(s[..i])|, s[i]))
  }

  ghost predicate KeyIsAt(b: Bytes, at: nat, key: Bytes) {
    at + |key| <= |b| && b[at..at + |key|] == key
  }

  lemma EncodedIsLaidOut(e: Bytes, order: nat, keys: seq<Key>, zs: seq<nat>, children: seq<nat>)
    requires order > 0 && Distinct(keys, zs) && Writable(keys, zs) && |keys| < 256 && |children| == order
    requires e == Encoded(order, keys, zs, children)
    ensures LaidOut(e, order, |keys|, children, Stored(keys, zs, order - 1))
  {
    hide Put, Numbers, Joined, Stored, Sizes, Distinct, Writable, Encoded;
    var s := Stored(keys, zs, order - 1);
    CountIsFirst(order, keys, zs, children);
    forall i | 0 <= i < order
      ensures e[1 + 4 * i..5 + 4 * i] == Put(children[i], 4)
    {
      ChildrenFollow(order, keys, zs, children, i);
    }
    forall i | 0 <= i < order - 1
      ensures e[1 + 4 * order + 2 * i..3 + 4 * order + 2 * i] == Put(|s[i]|, 2) && KeyIsAt(e, 6 * order - 1 + |Joined(s[..i])|, s[i])
    {
      SizesFollow(order, keys, zs, children, i);
      KeysAreLast(order, keys, zs, children, i);
    }
  }

  lemma Regrouped(a: Bytes, b: Bytes, c: Bytes, d: Bytes)
    ensures a + (b + (c + d)) == (a + b) + (c + d) == (a + b + c) + d
  {
  }

  lemma NumberAt(a: Bytes, ns: seq<nat>, k: nat, rest: Bytes, i: nat, e: Bytes)
    requires i < |ns| && e == a + (Numbers(ns, k) + rest)
    ensures |a| + k * i + k <= |e| && e[|a| + k * i..|a| + k * i + k] == Put(ns[i], k)
  {
    hide Put, Numbers;
    NumbersAt(ns, k, i);
    PartOf(a, Numbers(ns, k), rest, k * i, k);
  }

  lemma KeyAt(a: Bytes, ss: seq<Bytes>, i: nat)
    requires i < |ss|
    ensures var (e, at) := (a + Joined(ss), |a| + |Joined(ss[..i])|);
            at + |ss[i]| <= |e| && e[at..at + |ss[i]|] == ss[i]
  {
    hide Joined;
    JoinedAt(ss, i);
    PartOf(a, Joined(ss), [], |Joined(ss[..i])|, |ss[i]|);
    assert Joined(ss) + [] == Joined(ss);
  }

  lemma PartOf(a: Bytes, b: Bytes, c: Bytes, at: nat, size: nat)
    requires at + size <= |b|
    ensures (a + (b + c))[|a| + at..|a| + at + size] == b[at..at + size]
  {
    assert (a + (b + c))[|a|..] == b + c;
  }

  lemma {:induction false} NumbersAt(ns: seq<nat>, k: nat, i: nat)
    requires i < |ns|
    ensures 0 <= k * i && k * i + k <= k * |ns| && Numbers(ns, k)[k * i..k * i + k] == Put(ns[i], k)
  {
    hide Put;
    NextNumber(k, i, |ns|);
    var first, rest := Put(ns[0], k), Numbers(ns[1..], k);
    if i > 0 {
      NumbersAt(ns[1..], k, i - 1);
      assert k * i == k + k * (i - 1);
      PartOf(first, rest, [], k * (i - 1), k);
      assert first + (rest + []) == Numbers(ns, k);
    } else {
      assert k * i == 0;
    }
  }

  lemma {:induction false} JoinedAt(ss: seq<Bytes>, i: nat)
    requires i < |ss|
    ensures var at := |Joined(ss[..i])|; at + |ss[i]| <= |Joined(ss)| && Joined(ss)[at..at + |ss[i]|] == ss[i]
  {
    if i > 0 {
      JoinedAt(ss[1..], i - 1);
      assert ss[..i][1..] == ss[1..][..i - 1];
      var at := |Joined(ss[1..][..i - 1])|;
      PartOf(ss[0], Joined(ss[1..]), [], at, |ss[i]|);
      assert ss[0] + (Joined(ss[1..]) + []) == Joined(ss);
    }
  }

  // ---------- writing ----------

  /** gdbPut8 to gdbPut32, and memcpy: `bs` at the counter, which moves on. */
  method PutBytes(buffer: array<byte>, counter: nat, bs: Bytes) returns (after: nat)
    requires counter + |bs| <= buffer.Length
    modifies buffer
    ensures after == counter + |bs| && buffer[..after] == old(buffer[..counter]) + bs
  {
    forall i | 0 <= i < |bs| {
      buffer[counter + i] := bs[i];
    }
    after := counter + |bs|;
  }

  method PutNumbers(buffer: array<byte>, counter: nat, ns: seq<nat>, k: nat) returns (after: nat)
    requires counter + k * |ns| <= buffer.Length
    modifies buffer
    ensures after == counter + k * |ns| && buffer[..after] == old(buffer[..counter]) + Numbers(ns, k)
  {
    hide Put;
    after := counter;
    assert ns[0..] == ns;
    for i := 0 to |ns|
      invariant after == counter + k * i
      invariant buffer[..after] + Numbers(ns[i..], k) == old(buffer[..counter]) + Numbers(ns, k)
    {
      assert ns[i..][1..] == ns[i + 1..];
      NextNumber(k, i, |ns|);
      after := PutBytes(buffer, after, Put(ns[i], k));
    }
  }

  lemma NextNumber(k: nat, i: nat, n: nat)
    requires i < n
    ensures k * i + k == k * (i + 1) <= k * n
  {
  }

  method PutKeys(buffer: array<byte>, counter: nat, newKeys: array<Bytes>) returns (after: nat)
    requires counter + |Joined(newKeys[..])| <= buffer.Length
    modifies buffer
    ensures after == counter + |Joined(old(newKeys[..]))|
    ensures buffer[..after] == old(buffer[..counter]) + Joined(old(newKeys[..]))
  {
    after := counter;
    ghost var ss := newKeys[..];
    assert ss[0..] == ss;
    for i := 0 to newKeys.Length
      invariant newKeys[..] == ss
      invariant after + |Joined(ss[i..])| == counter + |Joined(ss)|
      invariant buffer[..after] + Joined(ss[i..]) == old(buffer[..counter]) + Joined(ss)
    {
      assert ss[i..][1..] == ss[i + 1..];
      if |newKeys[i]| > 0 {
        after := PutBytes(buffer, after, newKeys[i]);
      }
    }
  }

  /** __compressNode: from the last key to the second, each against the key
      before it. The slots behind the last key are empty. There is no result when
      a buffer is too small, or when more would be copied than there is. */
  method CompressNode(node: Node) returns (newKeys: Option<array<Bytes>>)
    requires node.Shaped() && Distinct(node.keys[..node.keyCount], node.Sizes())
    ensures newKeys.Some? <==> Writable(node.keys[..node.keyCount], node.Sizes())
    ensures newKeys.Some? ==> fresh(newKeys.value)
                              && newKeys.value[..] == Stored(node.keys[..node.keyCount], node.Sizes(), node.order - 1)
  {
    hide Coded;
    ghost var keys, zs := node.keys[..node.keyCount], node.Sizes();
    var stored := new Bytes[node.order - 1](_ => []);
    if node.keyCount > 0 {
      if node.keySizes[0] > |node.keys[0]| + 1 {
        assert StoredKey(keys, zs, 0) == None;
        return None;
      }
      stored[0] := Terminated(node.keys[0])[..node.keySizes[0]];
    }
    var i: int := node.keyCount - 1;
    while i > 0
      invariant -1 <= i <= node.keyCount - 1
      invariant forall j | 0 <= j < stored.Length && (j == 0 || j > i) :: Some(stored[j]) == StoredKey(keys, zs, j)
    {
      var newKey := CompressString(node.keys[i - 1], node.keySizes[i - 1], node.keys[i], node.keySizes[i]);
      if newKey == None {
        assert StoredKey(keys, zs, i) == None;
        return None;
      }
      stored[i] := newKey.value;
      i := i - 1;
    }
    newKeys := Some(stored);
  }

  /** __getNodeSize */
  method NodeSize(order: nat, newKeys: array<Bytes>) returns (l: nat)
    requires newKeys.Length == order - 1
    ensures l == 1 + 4 * order + 2 * (order - 1) + |Joined(newKeys[..])|
  {
    l := 1 + 4 * order + 2 * (order - 1);
    ghost var ss := newKeys[..];
    assert ss[0..] == ss;
    for i := 0 to order - 1
      invariant l + |Joined(ss[i..])| == 1 + 4 * order + 2 * (order - 1) + |Joined(ss)|
    {
      assert ss[i..][1..] == ss[i + 1..];
      l := l + |newKeys[i]|;
    }
  }

  /** btreeWriteNodeBlock */
  method WriteNodeBlock(node: Node) returns (buffer: Option<array<byte>>)
    requires node.Shaped() && Fits(node.order, node.keys[..node.keyCount], node.Sizes(), node.children[..])
    ensures buffer.Some? <==> Writable(node.keys[..node.keyCount], node.Sizes())
    ensures buffer.Some? ==>
              && fresh(buffer.value)
              && buffer.value[..] == Encoded(node.order, node.keys[..node.keyCount], node.Sizes(), node.children[..])
    ensures buffer.Some? ==>
              LaidOut(buffer.value[..], node.order, node.keyCount, node.children[..],
                      Stored(node.keys[..node.keyCount], node.Sizes(), node.order - 1))
  {
    hide Encoded, Put, Joined, Stored, Distinct, Writable, LaidOut;
    buffer := WriteStored(node);
    if buffer.Some? {
      EncodedIsLaidOut(buffer.value[..], node.order, node.keys[..node.keyCount], node.Sizes(), node.children[..]);
    }
  }

  method WriteStored(node: Node) returns (buffer: Option<array<byte>>)
    requires node.Shaped() && Fits(node.order, node.keys[..node.keyCount], node.Sizes(), node.children[..])
    ensures buffer.Some? <==> Writable(node.keys[..node.keyCount], node.Sizes())
    ensures buffer.Some? ==>
              && fresh(buffer.value)
              && buffer.value[..] == Encoded(node.order, node.keys[..node.keyCount], node.Sizes(), node.children[..])
  {
    hide Encoded, Put, Numbers, Joined, Stored, Sizes, Distinct, Writable;
    var newKeys := CompressNode(node);
    if newKeys == None {
      return None;
    }
    var bytes := WriteParts(node, newKeys.value);
    EncodedIs(node.order, node.keys[..node.keyCount], node.Sizes(), node.children[..]);
    buffer := Some(bytes);
  }

  lemma EncodedIs(order: nat, keys: seq<Key>, zs: seq<nat>, children: seq<nat>)
    requires order > 0 && Distinct(keys, zs) && Writable(keys, zs)
    ensures var s := Stored(keys, zs, order - 1);
            Encoded(order, keys, zs, children)
            == Put(|keys|, 1) + (Numbers(children, 4) + (Numbers(Sizes(s), 2) + Joined(s)))
  {
    hide Put, Numbers, Joined, Stored, Sizes, Distinct, Writable;
  }

  method WriteParts(node: Node, newKeys: array<Bytes>) returns (buffer: array<byte>)
    requires node.Shaped() && node.keyCount < 256 && newKeys.Length == node.order - 1
    requires forall i | 0 <= i < node.order :: node.children[i] >= 0
    ensures fresh(buffer)
    ensures buffer[..] == Put(node.keyCount, 1)
                          + (Numbers(node.children[..], 4) + (Numbers(Sizes(newKeys[..]), 2) + Joined(newKeys[..])))
  {
    hide Put, Numbers, Joined, Sizes;
    var size := NodeSize(node.order, newKeys);
    buffer := new byte[size];
    var keySizes := seq(newKeys.Length, i requires 0 <= i < newKeys.Length reads newKeys => |newKeys[i]|);
    AreSizes(newKeys[..], keySizes);
    ghost var stored := newKeys[..];
    var counter := PutBytes(buffer, 0, Put(node.keyCount, 1));
    counter := PutNumbers(buffer, counter, node.children[..], 4);
    counter := PutNumbers(buffer, counter, keySizes, 2);
    assert newKeys[..] == stored;
    counter := PutKeys(buffer, counter, newKeys);
    assert buffer[..] == buffer[..counter];
    FourParts(Put(node.keyCount, 1), Numbers(node.children[..], 4), Numbers(keySizes, 2), Joined(stored));
  }

  lemma AreSizes(ss: seq<Bytes>, ns: seq<nat>)
    requires |ns| == |ss| && forall i | 0 <= i < |ss| :: ns[i] == |ss[i]|
    ensures ns == Sizes(ss)
  {
  }

  lemma FourParts(a: Bytes, b: Bytes, c: Bytes, d: Bytes)
    ensures [] + a + b + c + d == a + (b + (c + d))
  {
  }

  // ---------- reading ----------

  /** gdbGet16 and gdbGet32 in a loop over an array. */
  method GetNumbers(buffer: Bytes, counter: nat, a: array<int>, k: nat, ghost ns: seq<nat>, ghost rest: Bytes)
    returns (after: nat)
    requires counter <= |buffer| && buffer[counter..] == Numbers(ns, k) + rest
    requires a.Length == |ns| && forall i | 0 <= i < |ns| :: ns[i] < Pow256(k)
    modifies a
    ensures after <= |buffer| && buffer[after..] == rest && a[..] == ns
  {
    hide Put, Get, Pow256;
    after := counter;
    assert ns[0..] == ns;
    for i := 0 to a.Length
      invariant counter <= after <= |buffer| && buffer[after..] == Numbers(ns[i..], k) + rest
      invariant a[..i] == ns[..i]
    {
      TakeNumber(ns, i, k);
      TakePart(buffer, after, Put(ns[i], k), Numbers(ns[i + 1..], k) + rest);
      a[i] := Get(buffer[after..after + k]);
      after := after + k;
    }
    assert ns[a.Length..] == [];
  }

  lemma TakeNumber(ns: seq<nat>, i: nat, k: nat)
    requires i < |ns| && ns[i] < Pow256(k)
    ensures Numbers(ns[i..], k) == Put(ns[i], k) + Numbers(ns[i + 1..], k) && Get(Put(ns[i], k)) == ns[i]
  {
    assert ns[i..][1..] == ns[i + 1..];
    GetPut(ns[i], k);
  }

  lemma TakePart(buffer: Bytes, at: nat, part: Bytes, rest: Bytes)
    requires at <= |buffer| && buffer[at..] == part + rest
    ensures at + |part| <= |buffer| && buffer[at..at + |part|] == part && buffer[at + |part|..] == rest
  {
    assert buffer[at..at + |part|] == buffer[at..][..|part|];
    assert buffer[at + |part|..] == buffer[at..][|part|..];
  }

  /** The keys as they are in the buffer. */
  method GetKeys(buffer: Bytes, counter: nat, keySizes: array<int>, ghost ss: seq<Bytes>) returns (keys: array<Bytes>)
    requires counter <= |buffer| && buffer[counter..] == Joined(ss)
    requires keySizes[..] == Sizes(ss)
    ensures fresh(keys) && keys[..] == ss
  {
    keys := new Bytes[keySizes.Length](_ => []);
    var after := counter;
    assert ss[0..] == ss;
    for i := 0 to keySizes.Length
      invariant counter <= after <= |buffer| && buffer[after..] == Joined(ss[i..])
      invariant keys[..i] == ss[..i] && forall j | i <= j < keys.Length :: keys[j] == []
    {
      assert ss[i..][1..] == ss[i + 1..];
      assert keySizes[i] == keySizes[..][i] == |ss[i]|;
      TakePart(buffer, after, ss[i], Joined(ss[i + 1..]));
      if keySizes[i] > 0 {
        keys[i] := buffer[after..after + keySizes[i]];
        after := after + keySizes[i];
      }
    }
  }

  /** __uncompressNode: each key against the decoded key before it. There is no
      result when a key is missing or is no string, or a buffer is too small. */
  method UncompressNode(stored: array<Bytes>, keyCount: nat, ghost keys: seq<Key>, ghost zs: seq<nat>)
    returns (newKeys: Option<seq<Bytes>>)
    requires Distinct(keys, zs) && Writable(keys, zs) && keyCount == |keys| <= stored.Length
    requires stored[..] == Stored(keys, zs, stored.Length)
    ensures newKeys == Decoded(keys, zs, keyCount)
  {
    hide UncompressString, StoredKey, Distinct;
    var decoded: seq<Bytes> := [];
    for i := 0 to keyCount
      invariant Decoded(keys, zs, i) == Some(decoded)
    {
      assert stored[i] == stored[..][i] && Some(stored[i]) == StoredKey(keys, zs, i);
      var newKey := None;
      if stored[i] != [] {
        newKey := if i == 0 then Some(stored[i]) else UncompressString(decoded[i - 1], stored[i]);
      }
      if newKey == None || 0 !in newKey.value {
        StaysNone(keys, zs, i + 1, keyCount);
        return None;
      }
      decoded := decoded + [newKey.value];
    }
    newKeys := Some(decoded);
  }

  lemma {:induction false} StaysNone(keys: seq<Key>, zs: seq<nat>, i: nat, n: nat)
    requires Distinct(keys, zs) && i <= n <= |keys| && Decoded(keys, zs, i) == None
    ensures Decoded(keys, zs, n) == None
    decreases n - i
  {
    hide UncompressString, StoredKey, Distinct;
    if i < n {
      StaysNone(keys, zs, i, n - 1);
    }
  }

  /** btreeReadNodeBlock: the node that was written, except for what the coding
      of its keys lost. */
  method ReadNodeBlock(buffer: Bytes, order: nat, leaf: bool,
                       ghost keys: seq<Key>, ghost zs: seq<nat>, ghost children: seq<nat>)
    returns (read: Option<Node>)
    requires Fits(order, keys, zs, children) && Writable(keys, zs) && buffer == Encoded(order, keys, zs, children)
    ensures read.Some? ==> fresh(read.value) && fresh(read.value.keys) && fresh(read.value.children)
    ensures read.Some? <==> Decoded(keys, zs, |keys|).Some?
    ensures read.Some? ==>
              var node, decoded := read.value, Decoded(keys, zs, |keys|).value;
              && node.Shaped() && node.order == order && node.leaf == leaf
              && node.keyCount == |keys| && node.children[..] == children
              && forall i | 0 <= i < |keys| :: node.keys[i] == CString(decoded[i]) && node.keySizes[i] == |decoded[i]|
  {
    hide Put, Get, Numbers, Joined, Stored, Sizes, Decoded, Pow256, CString, Distinct, Writable;
    ghost var stored := Stored(keys, zs, order - 1);
    ghost var rest := Numbers(Sizes(stored), 2) + Joined(stored);
    var node := new Node(order, leaf);
    TakePart(buffer, 0, Put(|keys|, 1), Numbers(children, 4) + rest);
    Widths();
    GetPut(|keys|, 1);
    node.keyCount := Get(buffer[0..1]);
    var counter := GetNumbers(buffer, 1, node.children, 4, children, rest);
    var keySizes := new int[order - 1];
    SizesFit(keys, zs, order - 1);
    counter := GetNumbers(buffer, counter, keySizes, 2, Sizes(stored), Joined(stored));
    var raw := GetKeys(buffer, counter, keySizes, stored);
    var newKeys := UncompressNode(raw, node.keyCount, keys, zs);
    if newKeys == None {
      return None;
    }
    TakeKeys(node, newKeys.value);
    read := Some(node);
  }

  /** The new arrays take the place of the coded ones. */
  method TakeKeys(node: Node, newKeys: seq<Bytes>)
    requires node.Shaped() && |newKeys| == node.keyCount && AllEnd(newKeys)
    modifies node`keySizes, node.keys
    ensures node.Shaped()
    ensures forall i | 0 <= i < node.keyCount :: node.keys[i] == CString(newKeys[i]) && node.keySizes[i] == |newKeys[i]|
  {
    hide CString;
    forall i | 0 <= i < node.keyCount {
      node.keys[i] := CString(newKeys[i]);
    }
    node.keySizes := seq(node.order - 1, i => if 0 <= i < |newKeys| then |newKeys[i]| else 0);
  }

  lemma SizesFit(keys: seq<Key>, zs: seq<nat>, slots: nat)
    requires Distinct(keys, zs) && Writable(keys, zs)
    ensures var ns := Sizes(Stored(keys, zs, slots));
            forall i | 0 <= i < slots :: ns[i] < Pow256(2)
  {
    hide StoredKey;
    Widths();
    forall i | 0 <= i < slots
      ensures |Stored(keys, zs, slots)[i]| < SHORT
    {
      assert Some(Stored(keys, zs, slots)[i]) == StoredKey(keys, zs, i);
    }
  }

  /** A node that was written and read is the same node, down to its sizes,
      exactly if all of its keys are legible. */
  method WriteThenRead(node: Node) returns (read: Option<Node>)
    requires node.Shaped() && Fits(node.order, node.keys[..node.keyCount], node.Sizes(), node.children[..])
    ensures read.Some? ==> fresh(read.value) && read.value.Shaped() && read.value.children[..] == node.children[..]
    ensures read.Some? && read.value.Value() == node.Value()
            <==> AllLegible(node.keys[..node.keyCount], node.Sizes(), node.keyCount)
    ensures read.Some? && read.value.Value() == node.Value() ==> read.value.Sizes() == node.Sizes()
  {
    hide Put, Get, Numbers, Joined, Stored, Sizes, Decoded, Pow256, CString, Distinct, Writable, Encoded, AllLegible;
    ghost var keys, zs := node.keys[..node.keyCount], node.Sizes();
    RestoredExactly(keys, zs, node.keyCount);
    var buffer := WriteNodeBlock(node);
    if buffer == None {
      Unwritable(keys, zs);
      return None;
    }
    read := ReadNodeBlock(buffer.value[..], node.order, node.leaf, keys, zs, node.children[..]);
    if read.Some? {
      SameKeys(keys, zs, read.value.keys[..node.keyCount], read.value.Sizes());
      assert read.value.children[..node.keyCount + 1] == node.children[..][..node.keyCount + 1];
    }
  }

  lemma {:induction false} Unwritable(keys: seq<Key>, zs: seq<nat>)
    requires Distinct(keys, zs) && !Writable(keys, zs)
    ensures Decoded(keys, zs, |keys|) == None
  {
    hide StoredKey, Distinct;
    var i :| 0 <= i < |keys| && StoredKey(keys, zs, i) == None;
    assert Decoded(keys, zs, i + 1) == None;
    StaysNone(keys, zs, i + 1, |keys|);
  }

  lemma SameKeys(keys: seq<Key>, zs: seq<nat>, got: seq<Key>, sizes: seq<nat>)
    requires Distinct(keys, zs) && |got| == |sizes| == |keys| && Decoded(keys, zs, |keys|).Some?
    requires var decoded := Decoded(keys, zs, |keys|).value;
             forall i | 0 <= i < |keys| :: got[i] == CString(decoded[i]) && sizes[i] == |decoded[i]|
    ensures got == keys <==> AllLegible(keys, zs, |keys|)
    ensures got == keys ==> sizes == zs
  {
    hide Decoded, CString, Legible;
    RestoredExactly(keys, zs, |keys|);
  }

  /** Two keys in order that a node with just them loses, with right sizes: the
      second key is the first one and one byte more. */
  lemma SomeNodeIsLost() returns (keys: seq<Key>, zs: seq<nat>)
    ensures |keys| == 2 && Fraction(keys[0]) < Fraction(keys[1])
    ensures RightSizes(keys, zs) && Distinct(keys, zs) && !Restored(keys, zs, 2)
  {
    hide Restored, Shared;
    var a: Bytes := seq(MOST + 1, _ => 1);
    var b := a + [1];
    keys, zs := [a, b], [|a| + 1, |b| + 1];
    LongerIsGreater(a);
    SharesAll(a, b);
    assert keys[0] == a && keys[1] == b;
    RestoredExactly(keys, zs, 2);
  }

  lemma SharesAll(a: Key, b: Key)
    requires |a| < |b| && |a| <= 255 && b[..|a|] == a
    ensures Shared(a, |a| + 1, b, |b| + 1) == |a|
  {
    assert Terminated(a)[..|a|] == a == Terminated(b)[..|a|];
    assert b[|a|] in b;
    SharedIs(a, |a| + 1, b, |b| + 1, |a|);
  }

  lemma {:induction false} LongerIsGreater(a: Bytes)
    ensures Fraction(a) < Fraction(a + [1])
  {
    if a == [] {
      assert (a + [1])[1..] == [];
    } else {
      LongerIsGreater(a[1..]);
      assert (a + [1])[1..] == a[1..] + [1];
    }
  }
}
