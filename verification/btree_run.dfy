/** Whole runs of insertions over page objects, and the walk over what they leave (btree.go:106-246,
    372-487). */
module BTreeRun {
  import opened Bytes
  import opened Wrappers
  import opened Pages
  import opened PageOps
  import opened Trees
  import opened TreeInsert
  import opened TreeSplit
  import opened TreeRun
  import opened BTrees
  import opened Cursors

  /** A key beyond every cell keeps the order. */
  lemma AppendKeepsOrder(t: Tree, c: Cell, next: nat)
    requires Good(t, next) && BeyondAll(t, c.key)
    requires t.Leaf? && t.page.cells == [] ==> t.page.Takes(c)
    ensures KeepsOrder(t, c)
  {
    if NoEmptyLeaf(t) {
      BeyondDescends(t, None, None, c.key);
    }
  }

  /** What the loop keeps: the pages hold a good tree of the cells inserted so far. */
  ghost predicate Holding(bt: BTree, t: Tree, cs: seq<Cell>, i: nat)
    requires i <= |cs|
    reads bt, bt.pager, bt.pager.Objects()
  {
    && bt.pager.Valid() && t == bt.Before(t) && (bt.rootPage != INVALID_PAGE ==> bt.Holds(t))
    && Good(t, bt.FirstNewId()) && Flatten(t) == cs[..i]
    && (i > 0 ==> NoEmptyLeaf(t) && bt.rootPage != INVALID_PAGE)
    && (t.Leaf? && t.page.cells == [] ==> t.page.content == PAGE_SIZE)
    && NoOverflowInRun(t, cs[i..], bt.FirstNewId())
  }

  /** One insertion of an ascending run. */
  method InsertNext(bt: BTree, cs: seq<Cell>, i: nat, ghost t: Tree) returns (ghost t': Tree)
    requires i < |cs| && Holding(bt, t, cs, i) && Ascending(cs) && SizesAtMost(cs, 206)
    requires cs[i] == NewCell(cs[i].key, cs[i].value) && bt.pager.pageCount + 3 < INVALID_PAGE
    modifies bt, bt.pager, bt.pager.Objects()
    ensures Holding(bt, t', cs, i + 1) && bt.pager.KeptOrNew()
    ensures bt.pager.pageCount <= old(bt.pager.pageCount) + 3
  {
    ghost var next := bt.FirstNewId();
    t' := TreeNext(t, cs, i, next);
    var r := bt.Insert(cs[i].key, cs[i].value, t);
    HoldingNext(bt, t, t', cs, i, next);
  }

  /** The same step on trees. */
  lemma TreeNext(t: Tree, cs: seq<Cell>, i: nat, next: nat) returns (t': Tree)
    requires i < |cs| && Ascending(cs) && SizesAtMost(cs, 206) && Flatten(t) == cs[..i]
    requires Good(t, next) && NoOverflowInRun(t, cs[i..], next)
    requires t.Leaf? && t.page.cells == [] ==> t.page.content == PAGE_SIZE
    ensures FitsTop(t, cs[i]) && KeepsOrder(t, cs[i]) && cs[i].Encodable() && next + 2 < 0x1_0000_0000
    ensures t' == InsertTop(t, cs[i], next, next + 1) && Good(t', NextId(t, cs[i], next)) && NoEmptyLeaf(t')
    ensures Flatten(t') == cs[..i + 1] && NoOverflowInRun(t', cs[i + 1..], NextId(t, cs[i], next))
  {
    NextStep(t, cs, i, next);
    AppendKeepsOrder(t, cs[i], next);
    AppendStep(t, cs[i], next);
    t' := InsertTop(t, cs[i], next, next + 1);
    assert cs[..i + 1] == cs[..i] + [cs[i]];
  }

  lemma HoldingNext(bt: BTree, t: Tree, t': Tree, cs: seq<Cell>, i: nat, next: nat)
    requires i < |cs| && Links(t) && FitsTop(t, cs[i]) && KeepsOrder(t, cs[i]) && next + 2 < 0x1_0000_0000
    requires t' == InsertTop(t, cs[i], next, next + 1) && Good(t', NextId(t, cs[i], next)) && NoEmptyLeaf(t')
    requires Flatten(t') == cs[..i + 1] && NoOverflowInRun(t', cs[i + 1..], NextId(t, cs[i], next))
    requires bt.pager.Valid() && bt.Inserted(t, cs[i], next) && bt.pager.pageCount == NextId(t, cs[i], next)
    ensures Holding(bt, t', cs, i + 1)
  {
    bt.pager.IdsBelowCount();
    assert bt.Holds(t');
    assert t'.id in bt.pager.pages;
  }

  /** The next key is beyond all cells so far. */
  lemma NextStep(t: Tree, cs: seq<Cell>, i: nat, next: nat)
    requires i < |cs| && Ascending(cs) && SizesAtMost(cs, 206) && Flatten(t) == cs[..i]
    requires NoOverflowInRun(t, cs[i..], next)
    ensures cs[i].Size() <= 206 && BeyondAll(t, cs[i].key)
    ensures Links(t) && next + 2 < 0x1_0000_0000 && NoInternalOverflow(t, cs[i])
    ensures FitsTop(t, cs[i]) ==>
              NoOverflowInRun(InsertTop(t, cs[i], next, next + 1), cs[i + 1..], NextId(t, cs[i], next))
  {
    assert cs[i] in cs;
    assert cs[i..][0] == cs[i] && cs[i..][1..] == cs[i + 1..];
    forall x | x in cs[..i]
      ensures Less(x.key, cs[i].key)
    {
      var j :| 0 <= j < i && cs[..i][j] == x;
      assert cs[j] == x;
    }
  }

  /** Inserting strictly ascending keys with cells of at most 206 bytes into a new tree, page by page,
      up to the first internal page that overflows: draining a cursor then yields exactly the
      inserted pairs in order, and Get finds exactly those whose key is no separator. */
  method InsertAscending(bt: BTree, cs: seq<Cell>) returns (walk: seq<Cell>, ghost t: Tree)
    requires bt.pager.Valid() && bt.rootPage == INVALID_PAGE && cs != []
    requires Ascending(cs) && SizesAtMost(cs, 206)
    requires forall i :: 0 <= i < |cs| ==> cs[i] == NewCell(cs[i].key, cs[i].value)
    requires bt.pager.pageCount + 3 * |cs| < INVALID_PAGE
    requires NoOverflowInRun(EmptyRoot(bt.pager.pageCount), cs, bt.pager.pageCount + 1)
    modifies bt, bt.pager, bt.pager.Objects()
    ensures bt.Holds(t) && NoEmptyLeaf(t) && walk == Flatten(t) == cs
    ensures forall key, value :: Lookup(t, key) == Some(value) <==>
              (exists c :: c in cs && c.key == key && c.value == value) && !IsSeparator(t, key)
  {
    t := EmptyRoot(bt.pager.pageCount);
    ghost var first := bt.pager.pageCount;
    StartHolding(bt, t, cs);
    for i := 0 to |cs|
      invariant Holding(bt, t, cs, i)
      invariant bt.pager.pageCount <= first + 3 * i
      invariant bt.pager.KeptOrNew()
    {
      t := InsertNext(bt, cs, i, t);
    }
    assert cs[..|cs|] == cs;
    ShownIsFlat(t);
    WalkExact(t);
    walk := CollectCells(bt, t);
    forall key, value
      ensures Lookup(t, key) == Some(value) <==>
              (exists c :: c in cs && c.key == key && c.value == value) && !IsSeparator(t, key)
    {
      LookupExact(t, None, None, key, value);
    }
  }

  lemma StartHolding(bt: BTree, t: Tree, cs: seq<Cell>)
    requires bt.pager.Valid() && bt.rootPage == INVALID_PAGE && t == EmptyRoot(bt.pager.pageCount)
    requires NoOverflowInRun(t, cs, bt.pager.pageCount + 1)
    ensures Holding(bt, t, cs, 0)
  {
    assert cs[0..] == cs;
    assert cs[..0] == [];
  }
}
