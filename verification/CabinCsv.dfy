/** Cabin's reading and writing of comma-separated values (RFC 4180, section 2). */
module CabinCsv {
  import opened ByteOrder

  const QUOTE: byte := 34
  const COMMA: byte := 44
  const CR: byte := 13
  const LF: byte := 10

  // ---------- what the scanners compute ----------

  /** The rows of `s`, when `cur` was read of the first one, inside quotes or not. */
  function Rows(s: Bytes, quoted: bool, cur: Bytes): seq<Bytes> {
    if s == [] then
      if cur == [] then [] else [cur]
    else
      var q := if s[0] == QUOTE then !quoted else quoted;
      if !q && (s[0] == CR || s[0] == LF) then
        [cur] + Rows(s[EndOfRow(s)..], q, [])
      else
        Rows(s[1..], q, cur + [s[0]])
  }

  /** The size of the line end that `s` begins with. */
  function EndOfRow(s: Bytes): (n: nat)
    requires s != []
    ensures 1 <= n <= |s|
  {
    if s[0] == CR && |s| > 1 && s[1] == LF then 2 else 1
  }

  function Cells(s: Bytes, quoted: bool, cur: Bytes): seq<Bytes> {
    if s == [] then
      [cur]
    else
      var q := if s[0] == QUOTE then !quoted else quoted;
      if !q && s[0] == COMMA then [cur] + Cells(s[1..], q, []) else Cells(s[1..], q, cur + [s[0]])
  }

  /** A cell with every quote doubled. */
  function Doubled(c: Bytes): Bytes {
    if c == [] then [] else (if c[0] == QUOTE then [QUOTE, QUOTE] else [c[0]]) + Doubled(c[1..])
  }

  function Escaped(c: Bytes): Bytes {
    [QUOTE] + Doubled(c) + [QUOTE]
  }

  /** The first `len` bytes of `t` with doubled quotes made single and others
      dropped; the byte behind them is looked at too. */
  function Halved(t: Bytes, len: nat): Bytes
    requires len <= |t|
    decreases len
  {
    if len == 0 then
      []
    else if t[0] == QUOTE then
      if |t| > 1 && t[1] == QUOTE then [QUOTE] + Halved(t[2..], if len > 1 then len - 2 else 0)
      else Halved(t[1..], len - 1)
    else
      [t[0]] + Halved(t[1..], len - 1)
  }

  /** The length inside the enclosing quotes; of a single quote nothing is left. */
  function Inside(s: Bytes): (n: nat)
    requires s != [] && s[0] == QUOTE
    ensures n <= |s| - 1
  {
    if |s| == 1 then 0 else if s[|s| - 1] == QUOTE then |s| - 2 else |s| - 1
  }

  function Unescaped(s: Bytes): Bytes {
    if s != [] && s[0] == QUOTE then Halved(s[1..], Inside(s)) else Halved(s, |s|)
  }

  function UnescapedAll(cells: seq<Bytes>): seq<Bytes> {
    seq(|cells|, i requires 0 <= i < |cells| => Unescaped(cells[i]))
  }

  // ---------- the scanners ----------

  lemma RowsAt(s: Bytes, i: nat, pv: nat, quoted: bool)
    requires pv <= i < |s|
    ensures var q := if s[i] == QUOTE then !quoted else quoted;
            Rows(s[i..], quoted, s[pv..i]) ==
            if q || (s[i] != CR && s[i] != LF) then Rows(s[i + 1..], q, s[pv..i + 1])
            else if s[i] == CR && i + 1 < |s| && s[i + 1] == LF then [s[pv..i]] + Rows(s[i + 2..], q, [])
            else [s[pv..i]] + Rows(s[i + 1..], q, [])
  {
    assert s[i..][1..] == s[i + 1..] && s[pv..i] + [s[i]] == s[pv..i + 1];
    if i + 1 < |s| {
      assert s[i..][2..] == s[i + 2..];
    }
  }

  /** cbcsvrows */
  method CsvRows(str: cstring) returns (list: seq<Bytes>)
    ensures list == Rows(str, false, [])
  {
    list := [];
    var i, pv, quoted := 0, 0, false;
    assert str[0..] == str && str[0..0] == [];
    while true
      invariant 0 <= pv <= i <= |str|
      invariant list + Rows(str[i..], quoted, str[pv..i]) == Rows(str, false, [])
      decreases |str| - i
    {
      hide Rows;
      if i == |str| {
        RowsEnd(str[pv..i]);
        if i > pv {
          list := list + [str[pv..i]];
        }
        break;
      }
      RowsAt(str, i, pv, quoted);
      if str[i] == QUOTE {
        quoted := !quoted;
      }
      if !quoted && (str[i] == CR || str[i] == LF) {
        ghost var was, row := list, str[pv..i];
        list := list + [str[pv..i]];
        if str[i] == CR && i + 1 < |str| && str[i + 1] == LF {
          i := i + 1;
        }
        i := i + 1;
        pv := i;
        assert str[i..i] == [];
        Associates(was, [row], Rows(str[i..], quoted, []));
      } else {
        i := i + 1;
      }
    }
  }

  lemma RowsEnd(cur: Bytes)
    ensures Rows([], false, cur) == Rows([], true, cur) == if cur == [] then [] else [cur]
  {
  }

  /** cbcsvcells */
  method CsvCells(str: cstring) returns (uelist: seq<Bytes>)
    ensures uelist == UnescapedAll(Cells(str, false, []))
  {
    var list := SplitCells(str);
    uelist := [];
    var i := 0;
    while i < |list|
      invariant 0 <= i <= |list| && uelist == UnescapedAll(list[..i])
    {
      var tmp := Unescape(list[i]);
      assert list[..i + 1] == list[..i] + [list[i]];
      uelist := uelist + [tmp];
      i := i + 1;
    }
    assert list[..i] == list;
  }

  lemma CellsAt(s: Bytes, i: nat, pv: nat, quoted: bool)
    requires pv <= i < |s|
    ensures var q := if s[i] == QUOTE then !quoted else quoted;
            Cells(s[i..], quoted, s[pv..i]) ==
            if q || s[i] != COMMA then Cells(s[i + 1..], q, s[pv..i + 1]) else [s[pv..i]] + Cells(s[i + 1..], q, [])
  {
    assert s[i..][1..] == s[i + 1..] && s[pv..i] + [s[i]] == s[pv..i + 1];
  }

  method SplitCells(str: Bytes) returns (list: seq<Bytes>)
    ensures list == Cells(str, false, [])
  {
    list := [];
    var i, pv, quoted := 0, 0, false;
    assert str[0..] == str && str[0..0] == [];
    while i < |str|
      invariant 0 <= pv <= i <= |str|
      invariant list + Cells(str[i..], quoted, str[pv..i]) == Cells(str, false, [])
    {
      hide Cells;
      CellsAt(str, i, pv, quoted);
      if str[i] == QUOTE {
        quoted := !quoted;
      }
      if !quoted && str[i] == COMMA {
        ghost var was, cell := list, str[pv..i];
        list := list + [str[pv..i]];
        i := i + 1;
        pv := i;
        assert str[i..i] == [];
        Associates(was, [cell], Cells(str[i..], quoted, []));
      } else {
        i := i + 1;
      }
    }
    list := list + [str[pv..i]];
  }

  /** cbcsvescape */
  method Escape(str: Bytes) returns (buf: Bytes)
    ensures buf == Escaped(str)
  {
    buf := [QUOTE];
    var i := 0;
    assert str[0..] == str;
    while i < |str|
      invariant 0 <= i <= |str|
      invariant buf + Doubled(str[i..]) == [QUOTE] + Doubled(str)
    {
      assert str[i..][1..] == str[i + 1..];
      if str[i] == QUOTE {
        buf := buf + [QUOTE];
      }
      buf := buf + [str[i]];
      i := i + 1;
    }
    buf := buf + [QUOTE];
  }

  /** cbcsvunescape */
  method Unescape(str: Bytes) returns (buf: Bytes)
    ensures buf == Unescaped(str)
  {
    hide Halved;
    if str != [] && str[0] == QUOTE {
      buf := Halve(str[1..], Inside(str));
    } else {
      buf := Halve(str, |str|);
    }
  }

  /** The loop of cbcsvunescape. */
  method Halve(t: Bytes, len: nat) returns (buf: Bytes)
    requires len <= |t|
    ensures buf == Halved(t, len)
  {
    hide Halved;
    buf := [];
    var i := 0;
    assert t[0..] == t;
    while i < len
      invariant 0 <= i <= len + 1 && i <= |t|
      invariant buf + Halved(t[i..], if i <= len then len - i else 0) == Halved(t, len)
    {
      HalvedAt(t, i, len);
      ghost var was := buf;
      if t[i] == QUOTE {
        if i + 1 < |t| && t[i + 1] == QUOTE {
          buf := buf + [QUOTE];
          i := i + 1;
        }
      } else {
        buf := buf + [t[i]];
      }
      i := i + 1;
      Associates(was, buf[|was|..], Halved(t[i..], if i <= len then len - i else 0));
    }
    NothingHalved(t[i..]);
  }

  lemma Associates<T>(a: seq<T>, b: seq<T>, c: seq<T>)
    ensures a + b + c == a + (b + c)
  {
  }

  lemma NothingHalved(t: Bytes)
    ensures Halved(t, 0) == []
  {
  }

  /** The length for which cbcsvunescape gets a buffer, one byte more for the NUL. */
  function Room(s: Bytes): int {
    if s == [] || s[0] != QUOTE then |s| else if s[|s| - 1] == QUOTE then |s| - 2 else |s| - 1
  }

  /** What it writes fits its buffer, unless the field is a single quote. */
  lemma RoomExactly(s: Bytes)
    ensures |Unescaped(s)| <= Room(s) <==> s != [QUOTE]
  {
    if s != [] && s[0] == QUOTE {
      HalvedShrinks(s[1..], Inside(s));
    } else {
      HalvedShrinks(s, |s|);
    }
  }

  lemma {:induction false} HalvedShrinks(t: Bytes, len: nat)
    requires len <= |t|
    ensures |Halved(t, len)| <= len
    decreases len
  {
    if len > 0 {
      if t[0] == QUOTE && |t| > 1 && t[1] == QUOTE {
        HalvedShrinks(t[2..], if len > 1 then len - 2 else 0);
      } else {
        HalvedShrinks(t[1..], len - 1);
      }
    }
  }

  lemma HalvedAt(t: Bytes, i: nat, len: nat)
    requires i < len <= |t|
    ensures Halved(t[i..], len - i) ==
            if t[i] != QUOTE then [t[i]] + Halved(t[i + 1..], len - i - 1)
            else if i + 1 < |t| && t[i + 1] == QUOTE then [QUOTE] + Halved(t[i + 2..], if i + 2 <= len then len - i - 2 else 0)
            else Halved(t[i + 1..], len - i - 1)
  {
    assert t[i..][1..] == t[i + 1..];
    if i + 1 < |t| {
      assert t[i..][2..] == t[i + 2..];
    }
  }

  // ---------- round trip ----------

  lemma {:induction false} HalvedUndoes(c: Bytes)
    ensures Halved(Doubled(c) + [QUOTE], |Doubled(c)|) == c
  {
    if c != [] {
      HalvedUndoes(c[1..]);
      var t := Doubled(c) + [QUOTE];
      if c[0] == QUOTE {
        assert t[2..] == Doubled(c[1..]) + [QUOTE];
      } else {
        assert t[1..] == Doubled(c[1..]) + [QUOTE];
      }
    }
  }

  /** Unescaping undoes escaping, for cells of any bytes. */
  lemma UnescapeUndoes(c: Bytes)
    ensures Unescaped(Escaped(c)) == c
  {
    HalvedUndoes(c);
    assert Escaped(c)[1..] == Doubled(c) + [QUOTE];
  }

  /** Inside quotes no byte of a cell ends a row or a cell. */
  lemma {:induction false} DoubledIsOne(c: Bytes, rest: Bytes, cur: Bytes)
    ensures Rows(Doubled(c) + rest, true, cur) == Rows(rest, true, cur + Doubled(c))
    ensures Cells(Doubled(c) + rest, true, cur) == Cells(rest, true, cur + Doubled(c))
  {
    var s := Doubled(c) + rest;
    if c == [] {
      assert s == rest && cur + [] == cur;
    } else if c[0] == QUOTE {
      DoubledIsOne(c[1..], rest, cur + [QUOTE, QUOTE]);
      assert s[1..][1..] == Doubled(c[1..]) + rest;
      assert cur + [QUOTE] + [QUOTE] == cur + [QUOTE, QUOTE];
      assert cur + [QUOTE, QUOTE] + Doubled(c[1..]) == cur + Doubled(c);
    } else {
      DoubledIsOne(c[1..], rest, cur + [c[0]]);
      assert s[1..] == Doubled(c[1..]) + rest;
      assert cur + [c[0]] + Doubled(c[1..]) == cur + Doubled(c);
    }
  }

  lemma EscapedIsOne(c: Bytes, rest: Bytes, cur: Bytes)
    ensures Rows(Escaped(c) + rest, false, cur) == Rows(rest, false, cur + Escaped(c))
    ensures Cells(Escaped(c) + rest, false, cur) == Cells(rest, false, cur + Escaped(c))
  {
    var s := Escaped(c) + rest;
    assert s[1..] == Doubled(c) + ([QUOTE] + rest);
    DoubledIsOne(c, [QUOTE] + rest, cur + [QUOTE]);
    assert ([QUOTE] + rest)[1..] == rest;
    assert cur + [QUOTE] + Doubled(c) + [QUOTE] == cur + Escaped(c);
  }

  /** A cell as it is printed: as it is, or escaped. */
  datatype Field = Plain(cell: Bytes) | Quoted(cell: Bytes)

  /** A plain cell has no quote, comma or line end in it. */
  predicate Printable(f: Field) {
    f.Plain? ==> forall i | 0 <= i < |f.cell| :: f.cell[i] != QUOTE && f.cell[i] != COMMA && f.cell[i] != CR && f.cell[i] != LF
  }

  function Printed(f: Field): Bytes {
    if f.Plain? then f.cell else Escaped(f.cell)
  }

  function CellsIn(fields: seq<Field>): (cells: seq<Bytes>)
    ensures |cells| == |fields| && forall i | 0 <= i < |fields| :: cells[i] == fields[i].cell
  {
    seq(|fields|, i requires 0 <= i < |fields| => fields[i].cell)
  }

  /** A row: its cells, printed, with commas between them. */
  function Row(fields: seq<Field>): Bytes
    requires fields != []
  {
    if |fields| == 1 then Printed(fields[0]) else Printed(fields[0]) + [COMMA] + Row(fields[1..])
  }

  predicate AllPrintable(fields: seq<Field>) {
    fields != [] && forall i | 0 <= i < |fields| :: Printable(fields[i])
  }

  /** Text without quotes is not changed by unescaping. */
  lemma PlainUnescaped(s: Bytes)
    requires QUOTE !in s
    ensures Unescaped(s) == s
  {
    PlainHalved(s, []);
    assert s + [] == s;
    if s != [] {
      assert s[0] in s;
    }
  }

  lemma {:induction false} PlainHalved(a: Bytes, b: Bytes)
    requires QUOTE !in a
    ensures Halved(a + b, |a| + |b|) == a + Halved(b, |b|)
  {
    if a == [] {
      assert a + b == b;
    } else {
      assert a[0] in a && forall x | x in a[1..] :: x in a;
      PlainHalved(a[1..], b);
      assert (a + b)[1..] == a[1..] + b && a == [a[0]] + a[1..];
    }
  }

  /** Of quotes inside a field that does not start with one, half are left. */
  lemma QuotesUnescaped(a: Bytes, q: nat, b: Bytes)
    requires a != [] && 34 !in a && 34 !in b
    ensures Unescaped(a + (seq(q, _ => 34) + b)) == a + (seq(q / 2, _ => 34) + b)
  {
    var quotes: Bytes := seq(q, _ => 34);
    assert (a + (quotes + b))[0] == a[0] && a[0] in a;
    PlainHalved(a, quotes + b);
    QuotesHalved(q, b);
    PlainHalved(b, []);
    assert b + [] == b && Halved([], 0) == [];
  }

  lemma {:induction false} QuotesHalved(q: nat, b: Bytes)
    requires QUOTE !in b
    ensures Halved(seq(q, _ => QUOTE) + b, q + |b|) == seq(q / 2, _ => QUOTE) + Halved(b, |b|)
  {
    hide Halved;
    var s: Bytes := seq(q, _ => QUOTE) + b;
    if q == 0 {
      assert s == b;
    } else if q == 1 {
      assert s == [QUOTE] + b;
      assert b != [] ==> b[0] in b;
      OneQuote(b);
    } else {
      QuotesHalved(q - 2, b);
      assert s == [QUOTE, QUOTE] + (seq(q - 2, _ => QUOTE) + b);
      TwoQuotes(seq(q - 2, _ => QUOTE) + b);
      assert [QUOTE] + seq(q / 2 - 1, _ => QUOTE) == seq(q / 2, _ => QUOTE);
    }
  }

  lemma OneQuote(s: Bytes)
    requires s != [] ==> s[0] != QUOTE
    ensures Halved([QUOTE] + s, 1 + |s|) == Halved(s, |s|)
  {
    assert ([QUOTE] + s)[1..] == s;
  }

  lemma TwoQuotes(s: Bytes)
    ensures Halved([QUOTE, QUOTE] + s, 2 + |s|) == [QUOTE] + Halved(s, |s|)
  {
    assert ([QUOTE, QUOTE] + s)[2..] == s;
  }

  /** Escaping puts a cell in quotes and doubles the ones inside. */
  lemma EscapedSpelled(a: Bytes, b: Bytes)
    requires 34 !in a
    ensures Escaped(a) == [34] + a + [34]
    ensures Escaped(a + ([34] + b)) == [34] + a + [34, 34] + Escaped(b)[1..]
  {
    PlainDoubled(a, []);
    PlainDoubled(a, [34] + b);
    assert a + [] == a && Doubled([]) == [];
    assert ([34] + b)[1..] == b;
    assert Escaped(b)[1..] == Doubled(b) + [34];
  }

  lemma {:induction false} PlainDoubled(a: Bytes, b: Bytes)
    requires QUOTE !in a
    ensures Doubled(a + b) == a + Doubled(b)
  {
    if a == [] {
      assert a + b == b;
    } else {
      assert a[0] in a && forall x | x in a[1..] :: x in a;
      PlainDoubled(a[1..], b);
      assert (a + b)[1..] == a[1..] + b && a == [a[0]] + a[1..];
    }
  }

  /** No byte of a plain cell ends a row or a cell. */
  lemma {:induction false} PlainIsOne(c: Bytes, rest: Bytes, cur: Bytes)
    requires Printable(Plain(c))
    ensures Rows(c + rest, false, cur) == Rows(rest, false, cur + c)
    ensures Cells(c + rest, false, cur) == Cells(rest, false, cur + c)
  {
    if c == [] {
      assert c + rest == rest && cur + c == cur;
    } else {
      PlainIsOne(c[1..], rest, cur + [c[0]]);
      assert (c + rest)[1..] == c[1..] + rest;
      assert cur + [c[0]] + c[1..] == cur + c;
    }
  }

  lemma PrintedIsOne(f: Field, rest: Bytes, cur: Bytes)
    requires Printable(f)
    ensures Rows(Printed(f) + rest, false, cur) == Rows(rest, false, cur + Printed(f))
    ensures Cells(Printed(f) + rest, false, cur) == Cells(rest, false, cur + Printed(f))
    ensures Unescaped(Printed(f)) == f.cell
  {
    hide Rows, Cells, Escaped, Unescaped;
    if f.Plain? {
      PlainIsOne(f.cell, rest, cur);
      PlainUnescaped(f.cell);
    } else {
      EscapedIsOne(f.cell, rest, cur);
      UnescapeUndoes(f.cell);
    }
  }

  /** A comma between cells ends a cell, but not a row. */
  lemma CommaAt(more: Bytes, cur: Bytes)
    ensures Rows([COMMA] + more, false, cur) == Rows(more, false, cur + [COMMA])
    ensures Cells([COMMA] + more, false, cur) == [cur] + Cells(more, false, [])
  {
    assert ([COMMA] + more)[1..] == more;
  }

  lemma {:induction false} RowIsOne(fields: seq<Field>, rest: Bytes, cur: Bytes)
    requires AllPrintable(fields)
    ensures Rows(Row(fields) + rest, false, cur) == Rows(rest, false, cur + Row(fields))
    decreases |fields|
  {
    hide Rows, Printed, Printable, Cells;
    PrintedIsOne(fields[0], rest, cur);
    if |fields| > 1 {
      var e, more := Printed(fields[0]), Row(fields[1..]) + rest;
      assert Row(fields) + rest == e + ([COMMA] + more);
      PrintedIsOne(fields[0], [COMMA] + more, cur);
      CommaAt(more, cur + e);
      RowIsOne(fields[1..], rest, cur + e + [COMMA]);
      assert cur + e + [COMMA] + Row(fields[1..]) == cur + Row(fields);
    }
  }

  /** A printed row gives its cells back, plain and quoted ones. */
  lemma {:induction false} CellsOfRow(fields: seq<Field>)
    requires AllPrintable(fields)
    ensures UnescapedAll(Cells(Row(fields), false, [])) == CellsIn(fields)
    decreases |fields|
  {
    hide Printed, Printable, Unescaped, Cells;
    var e := Printed(fields[0]);
    assert [] + e == e && e + [] == e;
    if |fields| == 1 {
      PrintedIsOne(fields[0], [], []);
      LastCell(e);
    } else {
      var more := Row(fields[1..]);
      assert Row(fields) == e + ([COMMA] + more);
      PrintedIsOne(fields[0], [COMMA] + more, []);
      CommaAt(more, e);
      CellsOfRow(fields[1..]);
    }
  }

  lemma LastCell(cur: Bytes)
    ensures Cells([], false, cur) == [cur]
  {
  }

  predicate LineEnd(eol: Bytes) {
    eol == [CR] || eol == [LF] || eol == [CR, LF]
  }

  predicate TablePrintable(rows: seq<seq<Field>>) {
    forall i | 0 <= i < |rows| :: AllPrintable(rows[i])
  }

  /** A table: a line end between rows, and one behind the last row or not. */
  function Table(rows: seq<seq<Field>>, eol: Bytes, closed: bool): Bytes
    requires TablePrintable(rows)
  {
    if rows == [] then []
    else Row(rows[0]) + (if |rows| > 1 || closed then eol else []) + Table(rows[1..], eol, closed)
  }

  function RowTexts(rows: seq<seq<Field>>): (texts: seq<Bytes>)
    requires TablePrintable(rows)
    ensures |texts| == |rows|
    ensures forall i | 0 <= i < |rows| :: texts[i] == Row(rows[i])
  {
    seq(|rows|, i requires 0 <= i < |rows| => Row(rows[i]))
  }

  /** The last row is there, or a line end behind it. */
  predicate LastShows(rows: seq<seq<Field>>, closed: bool)
    requires TablePrintable(rows)
  {
    rows == [] || closed || Row(rows[|rows| - 1]) != []
  }

  /** Splitting a table gives the texts of its rows back, except for a last row of
      one empty plain cell without a line end. */
  lemma {:induction false} RowsOfTable(rows: seq<seq<Field>>, eol: Bytes, closed: bool)
    requires TablePrintable(rows) && LineEnd(eol)
    ensures Rows(Table(rows, eol, closed), false, []) ==
            if LastShows(rows, closed) then RowTexts(rows) else RowTexts(rows[..|rows| - 1])
    decreases |rows|
  {
    hide Row, Rows, Table, LineEnd, Printable;
    if rows == [] {
      NoMore([]);
      EmptyTable(eol, closed);
    } else {
      RowsOfTable(rows[1..], eol, closed);
      FirstRow(rows, eol, closed);
      assert RowTexts(rows) == [Row(rows[0])] + RowTexts(rows[1..]);
      if |rows| > 1 {
        assert RowTexts(rows[..|rows| - 1]) == [Row(rows[0])] + RowTexts(rows[1..][..|rows| - 2]);
      }
    }
  }

  lemma EmptyTable(eol: Bytes, closed: bool)
    ensures Table([], eol, closed) == []
  {
  }

  lemma FirstRow(rows: seq<seq<Field>>, eol: Bytes, closed: bool)
    requires TablePrintable(rows) && LineEnd(eol) && rows != []
    ensures var r := Row(rows[0]);
            Rows(Table(rows, eol, closed), false, []) ==
            (if |rows| > 1 || closed || r != [] then [r] else []) + Rows(Table(rows[1..], eol, closed), false, [])
  {
    hide Row, Rows, LineEnd, Printable;
    var r, more := Row(rows[0]), Table(rows[1..], eol, closed);
    var rest := (if |rows| > 1 || closed then eol else []) + more;
    assert Table(rows, eol, closed) == r + rest && [] + r == r;
    RowIsOne(rows[0], rest, []);
    if |rows| > 1 || closed {
      if eol != [LF] {
        TableStarts(rows[1..], eol, closed);
      }
      LineEndEnds(eol, more, r);
    } else {
      assert rest == [] && more == [];
      NoMore(r);
      NoMore([]);
    }
  }

  lemma NoMore(cur: Bytes)
    ensures Rows([], false, cur) == if cur == [] then [] else [cur]
  {
  }

  lemma RowStarts(fields: seq<Field>)
    requires AllPrintable(fields)
    ensures Row(fields) != [] ==> Row(fields)[0] != LF
  {
  }

  lemma TableStarts(rows: seq<seq<Field>>, eol: Bytes, closed: bool)
    requires TablePrintable(rows) && LineEnd(eol) && eol != [LF]
    ensures var t := Table(rows, eol, closed); t != [] ==> t[0] != LF
  {
    if rows != [] {
      RowStarts(rows[0]);
      hide Row;
    }
  }

  /** A line end ends a row, unless a line feed of the next row joins it. */
  lemma LineEndEnds(eol: Bytes, more: Bytes, cur: Bytes)
    requires LineEnd(eol) && (eol == [CR] && more != [] ==> more[0] != LF)
    ensures Rows(eol + more, false, cur) == [cur] + Rows(more, false, [])
  {
    assert (eol + more)[|eol|..] == more;
  }

  /** The table comes back: plain cells, and quoted ones of any bytes, in any mix. */
  lemma CsvRoundTrip(rows: seq<seq<Field>>, eol: Bytes, closed: bool)
    requires TablePrintable(rows) && LineEnd(eol) && LastShows(rows, closed)
    ensures var texts := Rows(Table(rows, eol, closed), false, []);
            && |texts| == |rows|
            && forall i | 0 <= i < |rows| :: UnescapedAll(Cells(texts[i], false, [])) == CellsIn(rows[i])
  {
    hide Row, Rows, Cells, Table, UnescapedAll, LastShows, Printable;
    RowsOfTable(rows, eol, closed);
    forall i | 0 <= i < |rows|
      ensures UnescapedAll(Cells(Row(rows[i]), false, [])) == CellsIn(rows[i])
    {
      CellsOfRow(rows[i]);
    }
  }
}
