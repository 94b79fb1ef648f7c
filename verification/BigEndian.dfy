/** Numbers in buffers, most significant byte first (db_utils.c). */
module BigEndian {
  import opened Arithmetic
  import opened ByteOrder

  function Pow256(k: nat): (p: nat)
    ensures p > 0
  {
    if k == 0 then 1 else 256 * Pow256(k - 1)
  }

  /** The low `k` bytes of `n`: gdbPut8, gdbPut16 and gdbPut32. */
  function Put(n: nat, k: nat): (bs: Bytes)
    ensures |bs| == k
  {
    if k == 0 then [] else Put(n / 256, k - 1) + [n % 256]
  }

  /** gdbGet8, gdbGet16 and gdbGet32 */
  function Get(bs: Bytes): (n: nat)
    ensures n < Pow256(|bs|)
  {
    if bs == [] then 0 else Get(bs[..|bs| - 1]) * 256 + bs[|bs| - 1]
  }

  /** What fits into `k` bytes comes back from them. */
  lemma {:induction false} GetPut(n: nat, k: nat)
    requires n < Pow256(k)
    ensures Get(Put(n, k)) == n
  {
    if k > 0 {
      GetPut(n / 256, k - 1);
      assert Put(n, k)[..k - 1] == Put(n / 256, k - 1);
    }
  }

  /** And every `k` bytes are those of one number. */
  lemma {:induction false} PutGet(bs: Bytes)
    ensures Put(Get(bs), |bs|) == bs
  {
    if bs != [] {
      PutGet(bs[..|bs| - 1]);
    }
  }

  lemma Widths()
    ensures Pow256(1) == 0x100 && Pow256(2) == 0x10000 && Pow256(4) == 0x1_0000_0000
  {
    assert Pow256(4) == 256 * (256 * (256 * (256 * Pow256(0))));
    assert Pow256(2) == 256 * (256 * Pow256(0));
  }

  /** The most significant byte comes first. */
  lemma {:induction false} PutByte(n: nat, k: nat, i: nat)
    requires i < k
    ensures Put(n, k)[i] == n / Pow256(k - 1 - i) % 256
  {
    if i < k - 1 {
      PutByte(n / 256, k - 1, i);
      DivideTwice(n, 256, Pow256(k - 2 - i));
    }
  }

  lemma Powers()
    ensures Pow256(0) == 1 && Pow256(1) == 0x100 && Pow256(2) == 0x1_0000 && Pow256(3) == 0x100_0000
  {
    assert Pow256(1) == 256 * Pow256(0) && Pow256(2) == 256 * Pow256(1) && Pow256(3) == 256 * Pow256(2);
  }

  /** A field of one, two or four bytes. */
  lemma OneByte(n: nat)
    ensures Put(n, 1) == [n % 0x100]
  {
    assert Put(n, 1) == Put(n / 256, 0) + [n % 256];
  }

  lemma TwoBytes(n: nat)
    ensures Put(n, 2) == [n / 0x100 % 0x100, n % 0x100]
  {
    hide Put, Pow256;
    Powers();
    PutByte(n, 2, 0);
    PutByte(n, 2, 1);
  }

  lemma FourBytes(n: nat)
    ensures Put(n, 4) == [n / 0x100_0000 % 0x100, n / 0x1_0000 % 0x100, n / 0x100 % 0x100, n % 0x100]
  {
    hide Put, Pow256;
    Powers();
    PutByte(n, 4, 0);
    PutByte(n, 4, 1);
    PutByte(n, 4, 2);
    PutByte(n, 4, 3);
  }
}
