/** The endian-independent dump of a Depot database: for each record, the two
    sizes in hexadecimal and the bytes of the key and the value, each followed
    by a newline. Keys and values may contain any bytes, newlines included. */
module DepotDump {
  import opened Arithmetic
  import opened ByteOrder
  import opened DepotSpace
  import opened HashIndex
  import opened Depot
  import opened DepotTools
  import opened Options

  const NEWLINE: byte := 10
  const IO_BUFFER: nat := 8192 // DP_IOBUFSIZ
  const INT_LIMIT: nat := 0x8000_0000

  // ---------- numbers ----------

  function HexDigit(d: nat): byte
    requires d < 16
  {
    if d < 10 then 48 + d else 55 + d
  }

  /** sprintf with %X */
  function Hex(n: nat): (s: seq<byte>)
    ensures |s| > 0
  {
    if n < 16 then [HexDigit(n)] else Hex(n / 16) + [HexDigit(n % 16)]
  }

  function DigitValue(c: byte): (d: int)
    ensures -1 <= d < 16
  {
    if 48 <= c <= 57 then c - 48
    else if 65 <= c <= 70 then c - 55
    else if 97 <= c <= 102 then c - 87
    else -1
  }

  /** The digits up to the first byte that is none. */
  function Digits(s: seq<byte>, value: nat := 0): nat
    decreases |s|
  {
    if s == [] || DigitValue(s[0]) < 0 then value
    else Digits(s[1..], value * 16 + DigitValue(s[0]))
  }

  predicate IsBlank(c: byte) {
    c == 32 || 9 <= c <= 13
  }

  function Unprefixed(s: seq<byte>): seq<byte> {
    if |s| > 2 && s[0] == 48 && (s[1] == 88 || s[1] == 120) && DigitValue(s[2]) >= 0 then s[2..] else s
  }

  /** strtol in base 16: blanks, a sign, 0x, and digits, each of them optional. */
  function Strtol(s: seq<byte>): int {
    if s == [] then 0
    else if IsBlank(s[0]) then Strtol(s[1..])
    else if s[0] == 45 then 0 - Digits(Unprefixed(s[1..]))
    else if s[0] == 43 then Digits(Unprefixed(s[1..]))
    else Digits(Unprefixed(s))
  }

  lemma {:induction false} DigitsAppend(s: seq<byte>, c: byte, value: nat)
    requires forall i :: 0 <= i < |s| ==> DigitValue(s[i]) >= 0
    requires DigitValue(c) >= 0
    ensures Digits(s + [c], value) == Digits(s, value) * 16 + DigitValue(c)
    decreases |s|
  {
    if s != [] {
      assert (s + [c])[1..] == s[1..] + [c];
      DigitsAppend(s[1..], c, value * 16 + DigitValue(s[0]));
    } else {
      assert (s + [c])[1..] == [];
    }
  }

  lemma {:induction false} HexDigits(n: nat)
    ensures Digits(Hex(n)) == n
    ensures forall i :: 0 <= i < |Hex(n)| ==> DigitValue(Hex(n)[i]) >= 0 && Hex(n)[i] != NEWLINE
  {
    if n >= 16 {
      HexDigits(n / 16);
      DigitsAppend(Hex(n / 16), HexDigit(n % 16), 0);
    }
  }

  /** Reading back a printed size; the digits hold no newline. */
  lemma HexRoundTrip(n: nat)
    ensures Strtol(Hex(n)) == n
    ensures forall i :: 0 <= i < |Hex(n)| ==> DigitValue(Hex(n)[i]) >= 0 && Hex(n)[i] != NEWLINE
  {
    hide Hex, Digits;
    HexDigits(n);
    assert DigitValue(Hex(n)[0]) >= 0;
    assert |Hex(n)| > 1 ==> DigitValue(Hex(n)[1]) >= 0;
  }

  lemma {:induction false} HexLength(n: nat, bits: nat)
    requires bits > 0 && n < Pow16(bits)
    ensures |Hex(n)| <= bits
  {
    if n >= 16 {
      HexLength(n / 16, bits - 1);
    }
  }

  function Pow16(n: nat): (p: nat)
    ensures p > 0
  {
    if n == 0 then 1 else 16 * Pow16(n - 1)
  }

  /** The digits by their places, in capital letters above 9, without a 0 in front. */
  lemma {:induction false} HexByPlace(n: nat, i: nat)
    requires i < |Hex(n)|
    ensures var (c, d) := (Hex(n)[|Hex(n)| - 1 - i], n / Pow16(i) % 16);
            c == if d < 10 then 48 + d else 65 + (d - 10)
    ensures |Hex(n)| > 1 ==> Hex(n)[0] != 48
  {
    if n >= 16 {
      HexByPlace(n / 16, if i > 0 then i - 1 else 0);
      if i > 0 {
        DivideTwice(n, 16, Pow16(i - 1));
      }
    }
  }

  /** strtol passes blanks, takes a sign and a prefix, reads small letters like
      capital ones, and stops at the first byte that is no digit. */
  lemma StrtolReads(blanks: seq<byte>, sign: seq<byte>, prefix: seq<byte>, digits: seq<byte>, n: nat, tail: seq<byte>)
    requires forall i | 0 <= i < |blanks| :: blanks[i] == 32 || 9 <= blanks[i] <= 13
    requires sign in {[], [43], [45]} && prefix in {[], [48, 88], [48, 120]}
    requires |digits| == |Hex(n)|
    requires forall i | 0 <= i < |digits| :: digits[i] == Hex(n)[i] || (65 <= Hex(n)[i] <= 70 && digits[i] == Hex(n)[i] + 32)
    requires tail != [] ==> !(48 <= tail[0] <= 57 || 65 <= tail[0] <= 70 || 97 <= tail[0] <= 102)
    requires n == 0 && tail != [] ==> tail[0] != 88 && tail[0] != 120
    ensures Strtol(blanks + (sign + (prefix + (digits + tail)))) == if sign == [45] then 0 - n else n
  {
    hide Hex, Digits;
    HexDigits(n);
    SameDigits(digits, Hex(n), 0);
    DigitsStop(digits, tail, 0);
    HexStarts(n);
    Prefix(prefix, digits, tail, n);
    Sign(sign, prefix + (digits + tail), digits + tail);
    Blanks(blanks, sign + (prefix + (digits + tail)));
  }

  lemma HexStarts(n: nat)
    ensures |Hex(n)| > 1 ==> Hex(n)[0] != 48
    ensures Hex(n) == [48] <==> n == 0
  {
    HexByPlace(n, 0);
    if n >= 16 {
      HexByPlace(n / 16, 0);
    }
  }

  lemma {:induction false} SameDigits(s: seq<byte>, t: seq<byte>, value: nat)
    requires |s| == |t| && forall i | 0 <= i < |t| :: DigitValue(t[i]) >= 0
    requires forall i | 0 <= i < |s| :: s[i] == t[i] || (65 <= t[i] <= 70 && s[i] == t[i] + 32)
    ensures Digits(s, value) == Digits(t, value) && forall i | 0 <= i < |s| :: DigitValue(s[i]) >= 0
    decreases |s|
  {
    if s != [] {
      assert DigitValue(s[0]) == DigitValue(t[0]) >= 0;
      SameDigits(s[1..], t[1..], value * 16 + DigitValue(t[0]));
    }
  }

  lemma {:induction false} DigitsStop(s: seq<byte>, tail: seq<byte>, value: nat)
    requires forall i | 0 <= i < |s| :: DigitValue(s[i]) >= 0
    requires tail != [] ==> DigitValue(tail[0]) < 0
    ensures Digits(s + tail, value) == Digits(s, value)
    decreases |s|
  {
    if s == [] {
      assert s + tail == tail;
    } else {
      assert (s + tail)[1..] == s[1..] + tail;
      DigitsStop(s[1..], tail, value * 16 + DigitValue(s[0]));
    }
  }

  lemma Prefix(prefix: seq<byte>, digits: seq<byte>, tail: seq<byte>, n: nat)
    requires prefix in {[], [48, 88], [48, 120]} && digits != [] && DigitValue(digits[0]) >= 0
    requires |digits| > 1 ==> digits[0] != 48 && DigitValue(digits[1]) >= 0
    requires tail != [] ==> DigitValue(tail[0]) < 0
    requires |digits| == 1 && digits[0] == 48 && tail != [] ==> tail[0] != 88 && tail[0] != 120
    ensures Unprefixed(prefix + (digits + tail)) == digits + tail
    ensures var s := prefix + (digits + tail); s != [] && DigitValue(s[0]) >= 0
  {
    var s := prefix + (digits + tail);
    if prefix == [] {
      assert s == digits + tail;
    } else {
      assert s[2..] == digits + tail && s[2] == digits[0];
    }
  }

  lemma Sign(sign: seq<byte>, s: seq<byte>, digits: seq<byte>)
    requires sign in {[], [43], [45]} && s != [] && DigitValue(s[0]) >= 0 && Unprefixed(s) == digits
    ensures Strtol(sign + s) == if sign == [45] then 0 - Digits(digits) else Digits(digits)
    ensures sign + s != [] && !IsBlank((sign + s)[0])
  {
    if sign == [] {
      assert sign + s == s;
    } else {
      assert (sign + s)[1..] == s;
    }
  }

  lemma {:induction false} Blanks(blanks: seq<byte>, s: seq<byte>)
    requires forall i | 0 <= i < |blanks| :: IsBlank(blanks[i])
    ensures Strtol(blanks + s) == Strtol(s)
  {
    if blanks == [] {
      assert blanks + s == s;
    } else {
      assert (blanks + s)[1..] == blanks[1..] + s;
      Blanks(blanks[1..], s);
    }
  }

  // ---------- writing ----------

  function Entry(item: Item): seq<byte> {
    Hex(|item.0|) + [NEWLINE] + Hex(|item.1|) + [NEWLINE] + item.0 + [NEWLINE] + item.1 + [NEWLINE]
  }

  function Dump(items: seq<Item>): seq<byte> {
    if items == [] then [] else Dump(items[..|items| - 1]) + Entry(items[|items| - 1])
  }

  /** Where a record is in a dump, and what is there. */
  lemma DumpSpelled(items: seq<Item>, i: nat)
    requires i < |items|
    ensures Dump(items) == Dump(items[..i])
                           + (Hex(|items[i].0|) + [10] + Hex(|items[i].1|) + [10] + items[i].0 + [10] + items[i].1 + [10])
                           + Dump(items[i + 1..])
    ensures Dump([]) == []
  {
    hide *;
    NoDump();
    EntryIs(items[i]);
    assert items == items[..i] + ([items[i]] + items[i + 1..]);
    DumpJoins(items[..i], [items[i]] + items[i + 1..]);
    DumpPrepend(items[i], items[i + 1..]);
    Regrouped(Dump(items[..i]), Entry(items[i]), Dump(items[i + 1..]));
  }

  lemma NoDump()
    ensures Dump([]) == []
  {
  }

  lemma Regrouped(a: seq<byte>, b: seq<byte>, c: seq<byte>)
    ensures a + (b + c) == a + b + c
  {
  }

  lemma EntryIs(item: Item)
    ensures Entry(item) == Hex(|item.0|) + [10] + Hex(|item.1|) + [10] + item.0 + [10] + item.1 + [10]
  {
  }

  lemma {:induction false} DumpJoins(a: seq<Item>, b: seq<Item>)
    ensures Dump(a + b) == Dump(a) + Dump(b)
    decreases |b|
  {
    hide Entry;
    if b == [] {
      assert a + b == a;
    } else {
      var n := |b| - 1;
      assert (a + b)[..|a + b| - 1] == a + b[..n];
      DumpJoins(a, b[..n]);
      assert Dump(a) + Dump(b[..n]) + Entry(b[n]) == Dump(a) + (Dump(b[..n]) + Entry(b[n]));
    }
  }

  // ---------- reading ----------

  /** The first newline at or behind `i`, or the end. */
  function NewlineFrom(s: seq<byte>, i: nat): (j: nat)
    requires i <= |s|
    ensures i <= j <= |s| && (j < |s| ==> s[j] == NEWLINE)
    ensures forall k | i <= k < j :: s[k] != NEWLINE
    decreases |s| - i
  {
    if i == |s| || s[i] == NEWLINE then i else NewlineFrom(s, i + 1)
  }

  datatype Head = Head(ksiz: int, vsiz: int, hlen: nat)

  function HeadOf(mbuf: seq<byte>): (h: Head)
    ensures h.hlen <= |mbuf|
  {
    var i := NewlineFrom(mbuf, 0);
    if i == |mbuf| then Head(-1, -1, 0)
    else
      var j := NewlineFrom(mbuf, i + 1);
      if j == |mbuf| then Head(Strtol(mbuf[..i]), -1, 0)
      else Head(Strtol(mbuf[..i]), Strtol(mbuf[i + 1..j]), j + 1)
  }

  /** What one buffered read of the rest of the file brings in. */
  function Window(rest: seq<byte>): seq<byte> {
    if |rest| > IO_BUFFER then rest[..IO_BUFFER] else rest
  }

  /** The two sizes were found. */
  predicate Headed(h: Head) {
    h.ksiz >= 0 && h.vsiz >= 0 && h.hlen >= 4
  }

  function Used(h: Head): int {
    h.hlen + h.ksiz + h.vsiz + 2
  }

  /** Key and value behind the sizes. */
  function Body(s: seq<byte>, h: Head): Item
    requires Headed(h) && Used(h) <= |s|
  {
    (s[h.hlen..h.hlen + h.ksiz], s[h.hlen + h.ksiz + 1..h.hlen + h.ksiz + 1 + h.vsiz])
  }

  datatype Parsed = Broken | Parsed(item: Item, used: nat)

  /** The complete record that the rest of a file starts with. */
  function WholeItem(rest: seq<byte>): (p: Parsed)
    ensures p.Parsed? ==> 0 < p.used <= |rest|
  {
    var h := HeadOf(Window(rest));
    if !Headed(h) || Used(h) > |rest| then Broken else Parsed(Body(rest, h), Used(h))
  }

  /** The records of a file without any that is cut short. */
  function Whole(rest: seq<byte>): Option<seq<Item>> {
    if rest == [] then Some([])
    else
      match WholeItem(rest)
      case Broken => None
      case Parsed(item, used) => Prefixed([item], Whole(rest[used..]))
  }

  function Prefixed(items: seq<Item>, rest: Option<seq<Item>>): Option<seq<Item>> {
    if rest.None? then None else Some(items + rest.value)
  }

  // ---------- what dpimportdb makes of a file ----------

  type Buffer = b: seq<byte> | |b| == IO_BUFFER witness seq(IO_BUFFER, _ => 0)

  /** The read buffer: what was read, and behind it what was there before. */
  function Filled(rest: seq<byte>, stale: Buffer): Buffer {
    Window(rest) + stale[|Window(rest)|..]
  }

  /** The buffer after the search for the sizes: their lines end in NUL. */
  function Scanned(b: Buffer, msiz: nat): Buffer
    requires msiz <= IO_BUFFER
  {
    var i := NewlineFrom(b[..msiz], 0);
    if i == msiz then b
    else
      var j := NewlineFrom(b[..msiz], i + 1);
      if j == msiz then b[i := 0] else b[i := 0][j := 0]
  }

  /** A record that fits the buffer is taken from it, whether or not the file
      goes that far; a larger one is read, and has to be there. */
  function ReadItem(rest: seq<byte>, stale: Buffer): (p: Parsed)
    ensures p.Parsed? ==> p.used > 0
  {
    var h := HeadOf(Window(rest));
    if !Headed(h) then Broken
    else if Used(h) < IO_BUFFER then Parsed(Body(Filled(rest, stale), h), Used(h))
    else if Used(h) > |rest| then Broken
    else Parsed(Body(rest, h), Used(h))
  }

  function Behind(rest: seq<byte>, used: nat): seq<byte> {
    if used >= |rest| then [] else rest[used..]
  }

  function ReadAll(rest: seq<byte>, stale: Buffer): Option<seq<Item>>
    decreases |rest|
  {
    if rest == [] then Some([])
    else
      match ReadItem(rest, stale)
      case Broken => None
      case Parsed(item, used) =>
        Prefixed([item], ReadAll(Behind(rest, used), Scanned(Filled(rest, stale), |Window(rest)|)))
  }

  /** The records in front of the first one that cannot be read. */
  function ReadUntil(rest: seq<byte>, stale: Buffer): (items: seq<Item>)
    ensures ReadAll(rest, stale).Some? ==> items == ReadAll(rest, stale).value
    decreases |rest|
  {
    if rest == [] then []
    else
      match ReadItem(rest, stale)
      case Broken => []
      case Parsed(item, used) => [item] + ReadUntil(Behind(rest, used), Scanned(Filled(rest, stale), |Window(rest)|))
  }

  /** The records in front of the first one whose key was there before. */
  ghost function FirstDistinct(items: seq<Item>): (first: seq<Item>)
    ensures first <= items && Distinct(first) && (first != items ==> !Distinct(items[..|first| + 1]))
  {
    if items == [] then []
    else
      var n := |items| - 1;
      var first := FirstDistinct(items[..n]);
      assert |first| < n ==> items[..n][..|first| + 1] == items[..|first| + 1];
      if Distinct(items) then items else first
  }

  lemma FirstDistinctIs(items: seq<Item>, item: Item, more: seq<Item>)
    requires Distinct(items)
    ensures FirstDistinct(items) == items
    ensures !Distinct(items + [item]) ==> FirstDistinct(items + ([item] + more)) == items
  {
    hide Distinct;
    var all := items + ([item] + more);
    var first := FirstDistinct(all);
    assert all[..|items|] == items && all[..|items| + 1] == items + [item] && all[..|first|] == first;
    if |first| < |items| {
      DistinctFewer(all, |first| + 1, |items|);
    } else if |first| > |items| {
      DistinctFewer(all, |items| + 1, |first|);
    }
  }

  lemma DistinctFewer(items: seq<Item>, m: nat, n: nat)
    requires m <= n <= |items| && Distinct(items[..n])
    ensures Distinct(items[..m])
  {
    assert forall i | 0 <= i < m :: items[..m][i] == items[..n][i];
  }

  /** The file ends inside a record that would fit the buffer. */
  predicate EndsCut(rest: seq<byte>)
    decreases |rest|
  {
    && rest != []
    && var h := HeadOf(Window(rest));
    && Headed(h)
    && if Used(h) <= |rest| then EndsCut(rest[Used(h)..]) else Used(h) < IO_BUFFER
  }

  lemma ItemIsWhole(rest: seq<byte>, stale: Buffer)
    ensures WholeItem(rest).Parsed? ==> ReadItem(rest, stale) == WholeItem(rest)
    ensures ReadItem(rest, stale).Parsed? && WholeItem(rest).Broken? ==>
              |rest| < ReadItem(rest, stale).used == Used(HeadOf(Window(rest))) < IO_BUFFER
  {
    hide HeadOf, NewlineFrom;
    var h := HeadOf(Window(rest));
    if Headed(h) && Used(h) <= |rest| && Used(h) < IO_BUFFER {
      var w := Filled(rest, stale);
      assert w[..Used(h)] == rest[..Used(h)];
      SameBody(w, rest, h);
    }
  }

  lemma SameBody(s: seq<byte>, t: seq<byte>, h: Head)
    requires Headed(h) && Used(h) <= |s| && Used(h) <= |t| && s[..Used(h)] == t[..Used(h)]
    ensures Body(s, h) == Body(t, h)
  {
    var n := Used(h);
    assert s[..n][h.hlen..h.hlen + h.ksiz] == s[h.hlen..h.hlen + h.ksiz];
    assert t[..n][h.hlen..h.hlen + h.ksiz] == t[h.hlen..h.hlen + h.ksiz];
    var v := h.hlen + h.ksiz + 1;
    assert s[..n][v..v + h.vsiz] == s[v..v + h.vsiz];
    assert t[..n][v..v + h.vsiz] == t[v..v + h.vsiz];
  }

  /** A file of complete records is read as what it holds. Any other file is
      refused, except exactly when all records but the last are complete, and the
      last has its two sizes and is no larger than the read buffer. */
  lemma {:induction false} CutExactly(rest: seq<byte>, stale: Buffer)
    ensures Whole(rest).Some? ==> ReadAll(rest, stale) == Whole(rest)
    ensures ReadAll(rest, stale).Some? <==> Whole(rest).Some? || EndsCut(rest)
    ensures !(Whole(rest).Some? && EndsCut(rest))
    decreases |rest|
  {
    hide HeadOf, Filled, Scanned, Body;
    if rest != [] {
      ItemIsWhole(rest, stale);
      var p := ReadItem(rest, stale);
      if WholeItem(rest).Parsed? {
        CutExactly(Behind(rest, p.used), Scanned(Filled(rest, stale), |Window(rest)|));
      }
    }
  }

  /** The six bytes 4, newline, 4, newline, a and b are taken for a record whose
      last bytes come from whatever the buffer held before. */
  lemma StaleBytesAreStored(stale: Buffer)
    ensures var file := [52, 10, 52, 10, 97, 98];
            && Whole(file) == None && EndsCut(file)
            && ReadAll(file, stale) == Some([([97, 98] + stale[6..8], stale[9..13])])
  {
    var file: seq<byte> := [52, 10, 52, 10, 97, 98];
    assert Window(file) == file;
    SmallHead(file);
    var h := Head(4, 4, 4);
    var w := Filled(file, stale);
    assert w == file + stale[6..];
    assert w[4..8] == [97, 98] + stale[6..8];
    assert w[9..13] == stale[9..13];
    assert ReadItem(file, stale) == Parsed(([97, 98] + stale[6..8], stale[9..13]), 14);
    hide HeadOf, NewlineFrom, Scanned, Filled, Body;
    assert Behind(file, Used(h)) == [];
    var item: Item := ([97, 98] + stale[6..8], stale[9..13]);
    assert [item] + [] == [item];
    assert ReadAll(file, stale) == Prefixed([item], Some([]));
  }

  lemma SmallHead(file: seq<byte>)
    requires file == [52, 10, 52, 10, 97, 98]
    ensures HeadOf(file) == Head(4, 4, 4)
  {
    assert NewlineFrom(file, 0) == 1 && NewlineFrom(file, 2) == 3;
    assert file[..1] == [52] && file[2..3] == [52];
    assert Digits([52]) == 4;
  }

  // ---------- reading back what was written ----------

  lemma {:induction false} DumpPrepend(item: Item, items: seq<Item>)
    ensures Dump([item] + items) == Entry(item) + Dump(items)
  {
    if items == [] {
      assert [item] + items == [item];
      assert Dump([]) + Entry(item) == Entry(item) + Dump([]);
      assert [item][..0] == [];
    } else {
      var n := |items| - 1;
      assert ([item] + items)[..n + 1] == [item] + items[..n];
      DumpPrepend(item, items[..n]);
      assert Entry(item) + (Dump(items[..n]) + Entry(items[n])) == Entry(item) + Dump(items[..n]) + Entry(items[n]);
    }
  }

  /** The sizes of a C caller's keys and values. */
  predicate Sized(item: Item) {
    |item.0| < INT_LIMIT && |item.1| < INT_LIMIT
  }

  lemma NewlineAfter(a: seq<byte>, digits: seq<byte>, rest: seq<byte>, s: seq<byte>)
    requires forall i :: 0 <= i < |digits| ==> digits[i] != NEWLINE
    requires s == a + digits + [NEWLINE] + rest
    ensures NewlineFrom(s, |a|) == |a| + |digits|
  {
    var j := NewlineFrom(s, |a|);
    assert s[|a| + |digits|] == NEWLINE;
    assert forall k | |a| <= k < |a| + |digits| :: s[k] == digits[k - |a|];
  }

  lemma HeadOfParts(ks: seq<byte>, vs: seq<byte>, rest: seq<byte>, w: seq<byte>)
    requires forall i :: 0 <= i < |ks| ==> ks[i] != NEWLINE
    requires forall i :: 0 <= i < |vs| ==> vs[i] != NEWLINE
    requires w == ks + [NEWLINE] + (vs + [NEWLINE] + rest) == (ks + [NEWLINE]) + vs + [NEWLINE] + rest
    ensures HeadOf(w) == Head(Strtol(ks), Strtol(vs), |ks| + |vs| + 2)
  {
    hide Strtol, NewlineFrom;
    FirstLine(ks, vs + [NEWLINE] + rest, w);
    SecondLine(ks + [NEWLINE], vs, rest, w);
  }

  lemma FirstLine(ks: seq<byte>, rest: seq<byte>, w: seq<byte>)
    requires forall i :: 0 <= i < |ks| ==> ks[i] != NEWLINE
    requires w == ks + [NEWLINE] + rest
    ensures NewlineFrom(w, 0) == |ks| && w[..|ks|] == ks
  {
    assert w == [] + ks + [NEWLINE] + rest;
    NewlineAfter([], ks, rest, w);
  }

  lemma SecondLine(a: seq<byte>, vs: seq<byte>, rest: seq<byte>, w: seq<byte>)
    requires forall i :: 0 <= i < |vs| ==> vs[i] != NEWLINE
    requires w == a + vs + [NEWLINE] + rest
    ensures NewlineFrom(w, |a|) == |a| + |vs| && w[|a|..|a| + |vs|] == vs
  {
    NewlineAfter(a, vs, rest, w);
  }

  /** Both sizes and both newlines fit the buffer. */
  lemma HeadFits(item: Item)
    requires Sized(item)
    ensures |Hex(|item.0|)| <= 8 && |Hex(|item.1|)| <= 8
  {
    assert Pow16(8) == 0x1_0000_0000 by {
      assert Pow16(4) == 0x1_0000;
    }
    HexLength(|item.0|, 8);
    HexLength(|item.1|, 8);
  }

  lemma WindowOf(head: seq<byte>, body: seq<byte>)
    requires |head| <= IO_BUFFER
    ensures exists rest :: Window(head + body) == head + rest
  {
    var w := Window(head + body);
    assert w == head + w[|head|..];
  }

  lemma HeadOfEntry(item: Item, tail: seq<byte>)
    requires Sized(item)
    ensures HeadOf(Window(Entry(item) + tail)) == Head(|item.0|, |item.1|, |Hex(|item.0|)| + |Hex(|item.1|)| + 2)
  {
    hide HeadOf, Hex, Strtol;
    var ks, vs := Hex(|item.0|), Hex(|item.1|);
    HexRoundTrip(|item.0|);
    HexRoundTrip(|item.1|);
    HeadFits(item);
    var head := ks + [NEWLINE] + vs + [NEWLINE];
    var body := item.0 + [NEWLINE] + item.1 + [NEWLINE] + tail;
    assert Entry(item) + tail == head + body;
    WindowOf(head, body);
    var rest :| Window(head + body) == head + rest;
    assert head + rest == ks + [NEWLINE] + (vs + [NEWLINE] + rest);
    assert head + rest == (ks + [NEWLINE]) + vs + [NEWLINE] + rest;
    HeadOfParts(ks, vs, rest, Window(head + body));
  }

  lemma ReadEntry(item: Item, tail: seq<byte>)
    requires Sized(item)
    ensures WholeItem(Entry(item) + tail) == Parsed(item, |Entry(item)|)
    ensures Entry(item) == Hex(|item.0|) + [10] + Hex(|item.1|) + [10] + item.0 + [10] + item.1 + [10]
    ensures (Entry(item) + tail)[|Entry(item)|..] == tail
  {
    hide HeadOf, Hex, Window;
    HeadOfEntry(item, tail);
    var ks, vs := Hex(|item.0|), Hex(|item.1|);
    var head := ks + [NEWLINE] + vs + [NEWLINE];
    var rest := Entry(item) + tail;
    assert rest == head + item.0 + [NEWLINE] + item.1 + [NEWLINE] + tail;
    var vpos := |head| + |item.0| + 1;
    assert rest[|head|..|head| + |item.0|] == item.0;
    assert rest[vpos..vpos + |item.1|] == item.1;
  }

  lemma {:induction false} DumpIsWhole(items: seq<Item>)
    requires forall i :: 0 <= i < |items| ==> Sized(items[i])
    ensures Whole(Dump(items)) == Some(items)
    decreases |items|
  {
    if items != [] {
      assert items == [items[0]] + items[1..];
      DumpPrepend(items[0], items[1..]);
      ReadEntry(items[0], Dump(items[1..]));
      DumpIsWhole(items[1..]);
      hide WholeItem, Entry;
    }
  }

  /** Whole records in front of something that is none are read before it stops
      the reader. */
  lemma {:induction false} ReadUntilBroken(items: seq<Item>, rest: seq<byte>, stale: Buffer)
    requires forall i :: 0 <= i < |items| ==> Sized(items[i])
    requires rest != [] && !Headed(HeadOf(Window(rest)))
    ensures ReadUntil(Dump(items) + rest, stale) == items && ReadAll(Dump(items) + rest, stale) == None
    decreases |items|
  {
    hide HeadOf, Window, Entry, WholeItem, Filled, Scanned;
    if items == [] {
      assert Dump(items) + rest == rest;
    } else {
      var tail := Dump(items[1..]) + rest;
      assert items == [items[0]] + items[1..];
      DumpPrepend(items[0], items[1..]);
      assert Dump(items) + rest == Entry(items[0]) + tail;
      ReadEntry(items[0], tail);
      ItemIsWhole(Entry(items[0]) + tail, stale);
      FilledWindow(Entry(items[0]) + tail, stale);
      ReadUntilBroken(items[1..], rest, Scanned(Filled(Entry(items[0]) + tail, stale), |Window(Entry(items[0]) + tail)|));
    }
  }

  /** The round trip: any dump reads back as the records it was made of, whatever
      the buffer held before. */
  lemma DumpRoundTrip(items: seq<Item>, stale: Buffer)
    requires forall i :: 0 <= i < |items| ==> Sized(items[i])
    ensures ReadAll(Dump(items), stale) == Some(items)
  {
    hide *;
    DumpIsWhole(items);
    CutExactly(Dump(items), stale);
  }

  // ---------- dpexportdb and dpimportdb ----------

  /** `items` are the records of `m` whose keys are not in `todo`. */
  ghost predicate Covered(items: seq<Item>, m: Dict, todo: set<Key>) {
    && Distinct(items) && todo <= m.Keys
    && AsMap(items) == (map k | k in m && k !in todo :: m[k])
  }

  lemma CoveredNone(m: Dict)
    ensures Covered([], m, m.Keys)
  {
  }

  lemma CoveredPush(items: seq<Item>, m: Dict, todo: set<Key>, k: Key)
    requires Covered(items, m, todo) && k in todo
    ensures Covered(items + [(k, m[k])], m, todo - {k})
  {
    AsMapPush(items, (k, m[k]));
    forall i | 0 <= i < |items|
      ensures items[i].0 != k
    {
      HasItem(items, i);
    }
  }

  lemma CoveredAll(items: seq<Item>, m: Dict)
    requires Covered(items, m, {})
    ensures Distinct(items) && AsMap(items) == m
  {
  }

  lemma DumpAppend(items: seq<Item>, item: Item)
    ensures Dump(items + [item]) == Dump(items) + Entry(item)
  {
    assert (items + [item])[..|items|] == items;
  }

  /** dpexportdb: every record, as the iterator meets it. */
  method Export(d: Database) returns (file: seq<byte>, ghost items: seq<Item>)
    requires d.Valid()
    modifies d`ioff
    ensures d.Valid() && d.Contents() == old(d.Contents())
    ensures file == Dump(items)
    ensures Distinct(items) && AsMap(items) == d.Contents()
  {
    hide SpaceSound, Indexed, InUse, Live, KeysFrom, Covered, Entry;
    file, items := [], [];
    d.IterInit();
    CoveredNone(d.Contents());
    while true
      invariant d.Valid() && d.IterOk() && d.Contents() == old(d.Contents())
      invariant file == Dump(items)
      invariant Covered(items, d.Contents(), d.LiveFrom(d.ioff))
      decreases |d.LiveFrom(d.ioff)|
    {
      ghost var todo := d.LiveFrom(d.ioff);
      var k := d.IterNext();
      if k.None? {
        break;
      }
      CoveredIn(items, d.Contents(), todo, k.value);
      var v := d.Get(k.value, 0, -1);
      SameBytes(v.value, d.Contents()[k.value]);
      CoveredPush(items, d.Contents(), todo, k.value);
      DumpAppend(items, (k.value, v.value));
      file := file + Hex(|k.value|) + [NEWLINE] + Hex(|v.value|) + [NEWLINE]
              + k.value + [NEWLINE] + v.value + [NEWLINE];
      EntrySpelled(Dump(items), (k.value, v.value));
      items := items + [(k.value, v.value)];
    }
    CoveredAll(items, d.Contents());
  }

  lemma SameBytes(a: seq<byte>, b: seq<byte>)
    requires |a| == |b| && forall i | 0 <= i < |a| :: a[i] == b[i]
    ensures a == b
  {
  }

  lemma CoveredIn(items: seq<Item>, m: Dict, todo: set<Key>, k: Key)
    requires Covered(items, m, todo) && k in todo
    ensures k in m
  {
  }

  lemma EntrySpelled(s: seq<byte>, item: Item)
    ensures s + Hex(|item.0|) + [NEWLINE] + Hex(|item.1|) + [NEWLINE] + item.0 + [NEWLINE] + item.1 + [NEWLINE]
            == s + Entry(item)
  {
  }

  /** The loop of dpimportdb that finds the two sizes in the buffer, and puts NULs
      behind them. */
  method ReadHead(mbuf: Buffer, msiz: nat) returns (h: Head, mbuf': Buffer)
    requires msiz <= IO_BUFFER
    ensures h == HeadOf(mbuf[..msiz]) && mbuf' == Scanned(mbuf, msiz)
  {
    hide Strtol;
    h, mbuf' := Head(-1, -1, 0), mbuf;
    ghost var w := mbuf[..msiz];
    var i := 0;
    while i < msiz
      invariant 0 <= i <= msiz && NewlineFrom(w, 0) == NewlineFrom(w, i)
      invariant h == Head(-1, -1, 0) && mbuf' == mbuf
    {
      if mbuf'[i] == NEWLINE {
        mbuf' := mbuf'[i := 0];
        assert mbuf'[..i] == w[..i];
        h := h.(ksiz := Strtol(mbuf'[..i]));
        var j := i + 1;
        while j < msiz
          invariant i + 1 <= j <= msiz && NewlineFrom(w, i + 1) == NewlineFrom(w, j)
          invariant h == Head(Strtol(w[..i]), -1, 0) && mbuf' == mbuf[i := 0]
        {
          if mbuf'[j] == NEWLINE {
            mbuf' := mbuf'[j := 0];
            assert mbuf'[i + 1..j] == w[i + 1..j];
            h := h.(vsiz := Strtol(mbuf'[i + 1..j]), hlen := j + 1);
            break;
          }
          j := j + 1;
        }
        break;
      }
      i := i + 1;
    }
  }

  lemma SliceOfSlice(s: seq<byte>, lo: nat, hi: nat, a: nat, b: nat)
    requires lo <= lo + a <= lo + b <= hi <= |s|
    ensures s[lo..hi][a..b] == s[lo + a..lo + b]
  {
    assert forall i | 0 <= i < b - a :: s[lo..hi][a..b][i] == s[lo..hi][a + i];
  }

  /** The NULs are in front of the key. */
  lemma BodyScanned(b: Buffer, msiz: nat, h: Head)
    requires msiz <= IO_BUFFER && h == HeadOf(b[..msiz]) && Headed(h) && Used(h) < IO_BUFFER
    ensures Body(Scanned(b, msiz), h) == Body(b, h)
  {
    hide Strtol, NewlineFrom;
    var b' := Scanned(b, msiz);
    assert forall k | h.hlen <= k < IO_BUFFER :: b'[k] == b[k];
    assert b'[h.hlen..h.hlen + h.ksiz] == b[h.hlen..h.hlen + h.ksiz];
    var v := h.hlen + h.ksiz + 1;
    assert b'[v..v + h.vsiz] == b[v..v + h.vsiz];
  }

  /** The key and value behind the two sizes: from the buffer when they fit it, by
      a read of their own, which fails behind the end of the file, when they do
      not. */
  method ReadBody(rest: seq<byte>, mbuf: Buffer, h: Head) returns (ok: bool, k: Key, v: seq<byte>)
    requires Headed(h)
    ensures ok <==> Used(h) < IO_BUFFER || Used(h) <= |rest|
    ensures ok ==> (k, v) == Body(if Used(h) < IO_BUFFER then mbuf else rest, h)
  {
    ok, k, v := true, [], [];
    if h.hlen + h.ksiz + h.vsiz + 2 < IO_BUFFER {
      k := mbuf[h.hlen..h.hlen + h.ksiz];
      v := mbuf[h.hlen + h.ksiz + 1..h.hlen + h.ksiz + 1 + h.vsiz];
    } else if h.hlen + h.ksiz + h.vsiz + 2 <= |rest| {
      var rbuf := rest[h.hlen..h.hlen + h.ksiz + h.vsiz + 2];
      k := rbuf[..h.ksiz];
      v := rbuf[h.ksiz + 1..h.ksiz + 1 + h.vsiz];
      SliceOfSlice(rest, h.hlen, h.hlen + h.ksiz + h.vsiz + 2, 0, h.ksiz);
      SliceOfSlice(rest, h.hlen, h.hlen + h.ksiz + h.vsiz + 2, h.ksiz + 1, h.ksiz + 1 + h.vsiz);
    } else {
      ok := false;
    }
  }

  /** dpimportdb: a database without records takes all records of a dump, or those
      in front of the first one that is broken or has a key that came before.
      `stale` is what the read buffer happens to hold. */
  method Import(d: Database, file: seq<byte>, stale: Buffer) returns (ok: bool)
    requires d.Valid()
    modifies d, d.fbpool, d.buckets
    ensures d.fbpool == old(d.fbpool) && d.buckets == old(d.buckets)
    ensures d.Valid()
    ensures old(d.Contents()) != map[] ==> !ok && d.Contents() == old(d.Contents())
    ensures old(d.Contents()) == map[] ==>
              var items := ReadAll(file, stale);
              && (ok <==> items.Some? && Distinct(items.value))
              && (ok ==> d.Contents() == AsMap(items.value))
              && d.Contents() == AsMap(FirstDistinct(ReadUntil(file, stale)))
  {
    hide SpaceSound, Indexed, InUse, Live, ReadItem, ReadAll, ReadUntil, HeadOf, Window, Distinct, FirstDistinct, AsMap,
         Prefixed, Progress;
    if d.rnum > 0 {
      return false;
    }
    ok := true;
    var mbuf, off: nat := stale, 0;
    ghost var items: seq<Item> := [];
    NoItemsYet(file, stale);
    while ok && off < |file|
      invariant d.Valid() && d.fbpool == old(d.fbpool) && d.buckets == old(d.buckets)
      invariant ok ==> Progress(items, file, stale, Behind(file, off), mbuf, d.Contents())
      invariant !ok ==> ReadAll(file, stale).None? || !Distinct(ReadAll(file, stale).value)
      invariant !ok ==> d.Contents() == AsMap(FirstDistinct(ReadUntil(file, stale)))
      decreases |file| - off, ok
    {
      var used;
      ok, used, mbuf, items := ImportOne(d, file[off..], mbuf, file, stale, items);
      assert ok ==> Behind(file[off..], used) == Behind(file, off + used);
      off := off + used;
    }
    if ok {
      ImportEnd(items, file, stale, mbuf, d.Contents());
    }
  }

  /** After putting `items` the records of `rest` are still to come. */
  ghost predicate Progress(items: seq<Item>, file: seq<byte>, stale: Buffer, rest: seq<byte>, mbuf: Buffer, m: Dict) {
    && ReadAll(file, stale) == Prefixed(items, ReadAll(rest, mbuf)) && ReadUntil(file, stale) == items + ReadUntil(rest, mbuf)
    && Distinct(items) && m == AsMap(items)
  }

  /** One round of the loop of dpimportdb. */
  method ImportOne(d: Database, rest: seq<byte>, mbuf: Buffer, ghost file: seq<byte>, ghost stale: Buffer, ghost items: seq<Item>)
    returns (ok: bool, used: nat, mbuf': Buffer, ghost items': seq<Item>)
    requires d.Valid() && rest != []
    requires Progress(items, file, stale, rest, mbuf, d.Contents())
    modifies d, d.fbpool, d.buckets
    ensures d.Valid() && d.fbpool == old(d.fbpool) && d.buckets == old(d.buckets)
    ensures ok ==> used > 0 && Progress(items', file, stale, Behind(rest, used), mbuf', d.Contents())
    ensures !ok ==> ReadAll(file, stale).None? || !Distinct(ReadAll(file, stale).value)
    ensures !ok ==> d.Contents() == AsMap(FirstDistinct(ReadUntil(file, stale)))
  {
    hide SpaceSound, Indexed, InUse, Live, ReadItem, ReadAll, ReadUntil, FirstDistinct, HeadOf, Window, Distinct, AsMap, Prefixed, Filled, Scanned, Body;
    items', used := items, 0;
    var msiz := |Window(rest)|;
    var h;
    FilledWindow(rest, mbuf);
    h, mbuf' := ReadHead(Filled(rest, mbuf), msiz);
    ReadAllStep(rest, mbuf);
    NothingAdded(items);
    FirstDistinctIs(items, ([], []), []);
    ItemOf(rest, mbuf, h);
    if h.ksiz < 0 || h.vsiz < 0 || h.hlen < 4 {
      return false, 0, mbuf', items;
    }
    var k, v;
    ok, k, v := ReadBody(rest, mbuf', h);
    if !ok {
      return;
    }
    used := h.hlen + h.ksiz + h.vsiz + 2;
    ImportStep(items, (k, v), ReadAll(rest, mbuf), ReadAll(Behind(rest, used), mbuf'));
    FirstDistinctIs(items, (k, v), ReadUntil(Behind(rest, used), mbuf'));
    items' := items + [(k, v)];
    ok := d.Put(k, v, Keep);
  }

  lemma FilledWindow(rest: seq<byte>, stale: Buffer)
    ensures |Window(rest)| <= IO_BUFFER && Filled(rest, stale)[..|Window(rest)|] == Window(rest)
  {
  }

  lemma NoItemsYet(file: seq<byte>, stale: Buffer)
    ensures Behind(file, 0) == file && Progress([], file, stale, file, stale, map[])
  {
    hide ReadAll, ReadUntil;
    var all := ReadAll(file, stale);
    assert [] + ReadUntil(file, stale) == ReadUntil(file, stale);
    if all.Some? {
      assert [] + all.value == all.value;
    }
  }

  /** What ReadItem makes of the two sizes. */
  lemma ItemOf(rest: seq<byte>, stale: Buffer, h: Head)
    requires h == HeadOf(Window(rest))
    ensures !Headed(h) || (Used(h) >= IO_BUFFER && Used(h) > |rest|) ==> ReadItem(rest, stale) == Broken
    ensures Headed(h) && (Used(h) < IO_BUFFER || Used(h) <= |rest|) ==>
              ReadItem(rest, stale) ==
              Parsed(Body(if Used(h) < IO_BUFFER then Scanned(Filled(rest, stale), |Window(rest)|) else rest, h), Used(h))
  {
    hide HeadOf, Filled, Scanned, Body;
    FilledWindow(rest, stale);
    if Headed(h) && Used(h) < IO_BUFFER {
      BodyScanned(Filled(rest, stale), |Window(rest)|, h);
    }
  }

  lemma ReadAllStep(rest: seq<byte>, stale: Buffer)
    requires rest != []
    ensures ReadItem(rest, stale).Broken? ==> ReadAll(rest, stale) == None && ReadUntil(rest, stale) == []
    ensures ReadItem(rest, stale).Parsed? ==>
              ReadAll(rest, stale) == Prefixed([ReadItem(rest, stale).item],
                ReadAll(Behind(rest, ReadItem(rest, stale).used), Scanned(Filled(rest, stale), |Window(rest)|)))
              && ReadUntil(rest, stale) == [ReadItem(rest, stale).item]
                 + ReadUntil(Behind(rest, ReadItem(rest, stale).used), Scanned(Filled(rest, stale), |Window(rest)|))
  {
    hide ReadItem, Scanned, Filled;
  }

  lemma NothingAdded(items: seq<Item>)
    ensures Prefixed(items, None) == None && items + [] == items
  {
  }

  lemma ImportStep(items: seq<Item>, item: Item, here: Option<seq<Item>>, next: Option<seq<Item>>)
    requires Distinct(items) && here == Prefixed([item], next)
    ensures Prefixed(items, here) == Prefixed(items + [item], next)
    ensures item.0 in AsMap(items) ==> Prefixed(items, here).None? || !Distinct(Prefixed(items, here).value)
    ensures item.0 in AsMap(items) ==> !Distinct(items + [item])
    ensures item.0 !in AsMap(items) ==> Distinct(items + [item])
    ensures AsMap(items + [item]) == AsMap(items)[item.0 := item.1]
  {
    hide AsMap, Distinct, FirstOfEach;
    AsMapPush(items, item);
    FirstOfMore(items, item);
    FirstOfDistinct(items);
    if next.Some? {
      var all := items + [item] + next.value;
      assert items + ([item] + next.value) == all && all[..|items| + 1] == items + [item] && all[..|all|] == all;
      if Distinct(all) {
        DistinctFewer(all, |items| + 1, |all|);
      }
    }
  }

  lemma ImportEnd(items: seq<Item>, file: seq<byte>, stale: Buffer, mbuf: Buffer, m: Dict)
    requires Progress(items, file, stale, [], mbuf, m)
    ensures ReadAll(file, stale) == Some(items) && Distinct(items) && m == AsMap(items)
    ensures m == AsMap(FirstDistinct(ReadUntil(file, stale)))
  {
    hide FirstDistinct;
    FirstDistinctIs(items, ([], []), []);
    assert items + [] == items;
  }

  /** Exporting a database and importing the dump into one without records
      brings all records over. */
  method ExportThenImport(d: Database, e: Database, stale: Buffer) returns (ok: bool)
    requires d.Valid() && e.Valid() && d != e && d.fbpool != e.fbpool && d.buckets != e.buckets
    requires e.Contents() == map[]
    requires forall k <- d.Contents() :: Sized((k, d.Contents()[k]))
    modifies d`ioff, e, e.fbpool, e.buckets
    ensures ok && e.Valid() && e.Contents() == d.Contents() == old(d.Contents())
  {
    hide SpaceSound, Indexed, InUse, Live, Dump, ReadAll, Distinct, AsMap;
    var file; ghost var items;
    file, items := Export(d);
    AllSized(items, d.Contents());
    DumpRoundTrip(items, stale);
    ok := Import(e, file, stale);
  }

  lemma AllSized(items: seq<Item>, m: Dict)
    requires Distinct(items) && AsMap(items) == m
    requires forall k <- m :: Sized((k, m[k]))
    ensures forall i :: 0 <= i < |items| ==> Sized(items[i])
  {
    forall i | 0 <= i < |items|
      ensures Sized(items[i])
    {
      ItemValue(items, i);
    }
  }

  lemma {:induction false} ItemValue(items: seq<Item>, i: nat)
    requires Distinct(items) && i < |items|
    ensures items[i].0 in AsMap(items) && AsMap(items)[items[i].0] == items[i].1
  {
    var n := |items| - 1;
    if i < n {
      ItemValue(items[..n], i);
      assert items[..n][i] == items[i];
      assert items[i].0 != items[n].0;
    }
  }
}
