/** Whole histories of a file of blocks. */
module BlockHistory {
  import opened ByteOrder
  import opened BlockFile
  import opened BlockChain
  import opened BlockStore
  import opened Options

  /** One call; blocks are named by the order in which they were added. */
  datatype Op = AddOp(t: BlockType, flags: nat, listNext: nat, data: Bytes)
              | RewriteOp(i: nat, data: Bytes)
              | EraseOp(i: nat)

  /** The blocks by name, those that were erased missing. */
  type Named = seq<Option<Content>>

  predicate Callable(cs: Named, op: Op) {
    match op
    case AddOp(_, _, _, data) => data != []
    case RewriteOp(i, data) => i < |cs| && cs[i].Some? && data != []
    case EraseOp(i) => i < |cs| && cs[i].Some?
  }

  function Applied(cs: Named, op: Op): Named
    requires Callable(cs, op)
  {
    match op
    case AddOp(t, flags, listNext, data) => cs + [Some(Content(t, flags, listNext, data))]
    case RewriteOp(i, data) => cs[i := Some(cs[i].value.(data := data))]
    case EraseOp(i) => cs[i := None]
  }

  predicate AllCallable(cs: Named, ops: seq<Op>)
    decreases ops
  {
    ops == [] || (Callable(cs, ops[0]) && AllCallable(Applied(cs, ops[0]), ops[1..]))
  }

  function AppliedAll(cs: Named, ops: seq<Op>): Named
    requires AllCallable(cs, ops)
    decreases ops
  {
    if ops == [] then cs else AppliedAll(Applied(cs, ops[0]), ops[1..])
  }

  ghost predicate IsAt(cs: Named, offs: seq<nat>, i: int, o: nat) {
    0 <= i < |cs| && i < |offs| && cs[i].Some? && offs[i] == o
  }

  /** The file has just the blocks that have a name, each at an offset of its own. */
  ghost predicate Holds(contents: Contents, cs: Named, offs: seq<nat>) {
    && |offs| == |cs|
    && (forall i | 0 <= i < |cs| && cs[i].Some? :: offs[i] in contents && contents[offs[i]] == cs[i].value)
    && (forall i, j | 0 <= i < j < |cs| && cs[i].Some? && cs[j].Some? :: offs[i] != offs[j])
    && (forall o <- contents :: exists i :: IsAt(cs, offs, i, o))
  }

  lemma HoldsMore(contents: Contents, cs: Named, offs: seq<nat>, o: nat, c: Content)
    requires Holds(contents, cs, offs) && o !in contents
    ensures Holds(contents[o := c], cs + [Some(c)], offs + [o])
  {
    var cs', offs', contents' := cs + [Some(c)], offs + [o], contents[o := c];
    forall p <- contents'
      ensures exists i :: IsAt(cs', offs', i, p)
    {
      if p == o {
        assert IsAt(cs', offs', |cs|, p);
      } else {
        var i :| IsAt(cs, offs, i, p);
        assert IsAt(cs', offs', i, p);
      }
    }
  }

  lemma HoldsOther(contents: Contents, cs: Named, offs: seq<nat>, i: nat, c: Content)
    requires Holds(contents, cs, offs) && i < |cs| && cs[i].Some?
    ensures Holds(contents[offs[i] := c], cs[i := Some(c)], offs)
  {
    var cs', contents' := cs[i := Some(c)], contents[offs[i] := c];
    forall p <- contents'
      ensures exists j :: IsAt(cs', offs, j, p)
    {
      assert p in contents;
      var j :| IsAt(cs, offs, j, p);
      assert IsAt(cs', offs, j, p);
    }
  }

  lemma HoldsLess(contents: Contents, cs: Named, offs: seq<nat>, i: nat)
    requires Holds(contents, cs, offs) && i < |cs| && cs[i].Some?
    ensures Holds(contents - {offs[i]}, cs[i := None], offs)
  {
    var cs', contents' := cs[i := None], contents - {offs[i]};
    forall p <- contents'
      ensures exists j :: IsAt(cs', offs, j, p)
    {
      var j :| IsAt(cs, offs, j, p);
      assert IsAt(cs', offs, j, p);
    }
  }

  method ApplyOne(store: Store, op: Op, offs: seq<nat>, ghost cs: Named) returns (offs': seq<nat>)
    requires store.Valid() && Callable(cs, op) && Holds(store.ContentsOf(), cs, offs)
    modifies store, store.db, store.open.Values
    ensures store.Valid() && Holds(store.ContentsOf(), Applied(cs, op), offs')
    ensures forall b <- store.open.Values :: b in old(store.open.Values) || fresh(b)
  {
    hide Holds, Whole, store.ContentsOf;
    ghost var contents := store.ContentsOf();
    match op
    case AddOp(t, flags, listNext, data) =>
      var o := store.Add(t, flags, listNext, data);
      HoldsMore(contents, cs, offs, o, Content(t, flags, listNext, data));
      offs' := offs + [o];
    case RewriteOp(i, data) =>
      NamedIsOpen(contents, cs, offs, i);
      store.Rewrite(offs[i], data);
      HoldsOther(contents, cs, offs, i, cs[i].value.(data := data));
      offs' := offs;
    case EraseOp(i) =>
      NamedIsOpen(contents, cs, offs, i);
      store.Erase(offs[i]);
      HoldsLess(contents, cs, offs, i);
      offs' := offs;
  }

  lemma NamedIsOpen(contents: Contents, cs: Named, offs: seq<nat>, i: nat)
    requires Holds(contents, cs, offs) && i < |cs| && cs[i].Some?
    ensures i < |offs| && offs[i] in contents && contents[offs[i]] == cs[i].value
  {
  }

  /** Any history of writes, rewrites and erasures from an empty database: each
      block that is left has the contents it was last given, and no block has
      any other. */
  method Run(ops: seq<Op>) returns (store: Store, offs: seq<nat>)
    requires AllCallable([], ops)
    ensures fresh(store) && store.Valid() && Holds(store.ContentsOf(), AppliedAll([], ops), offs)
  {
    hide Holds, Whole, Callable, Applied;
    store := new Store();
    offs := [];
    NothingHeld(store.ContentsOf());
    ghost var cs: Named := [];
    var n := 0;
    assert ops[0..] == ops;
    while n < |ops|
      invariant 0 <= n <= |ops| && fresh(store) && fresh(store.db) && forall b <- store.open.Values :: fresh(b)
      invariant store.Valid() && Holds(store.ContentsOf(), cs, offs)
      invariant AllCallable(cs, ops[n..]) && AppliedAll(cs, ops[n..]) == AppliedAll([], ops)
    {
      assert ops[n..][1..] == ops[n + 1..];
      offs := ApplyOne(store, ops[n], offs, cs);
      cs := Applied(cs, ops[n]);
      n := n + 1;
    }
  }

  lemma NothingHeld(contents: Contents)
    requires contents == map[]
    ensures Holds(contents, [], [])
  {
  }
}
