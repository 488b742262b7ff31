/** The cursor over page objects (btree.go:361-487) and the loops that drain it (table.go:168-209,
    338-356). */
module Cursors {
  import opened Bytes
  import opened Wrappers
  import opened Pages
  import opened PageOps
  import opened Trees
  import opened TreeInsert
  import opened TreeRun
  import opened TreeCursor
  import opened BTrees

  class Cursor {
    const bt: BTree
    var stack: Stack
    var atEnd: bool
    /** How many times the cursor has advanced. */
    ghost var pos: nat

    /** The cursor is at its pos-th stop of t, or past the last one. */
    ghost predicate Valid(t: Tree)
      reads this, bt, bt.pager, bt.pager.Objects()
    {
      && bt.Holds(t)
      && if atEnd then pos == CursorSteps(t) else Path(t, stack) && At(t, stack, pos) && pos < CursorSteps(t)
    }

    /** NewCursor */
    constructor (bt: BTree, ghost t: Tree)
      requires bt.rootPage != INVALID_PAGE ==> bt.Holds(t)
      ensures this.bt == bt && pos == 0
      ensures if bt.rootPage == INVALID_PAGE then atEnd else Valid(t)
    {
      this.bt := bt;
      stack, atEnd, pos := [], false, 0;
      new;
      if bt.rootPage == INVALID_PAGE {
        atEnd := true;
      } else {
        var r := Rewind(t);
      }
    }

    /** rewind: down the left pointers to the first leaf; an empty first leaf ends the walk. */
    method Rewind(ghost t: Tree) returns (r: Result<()>)
      requires bt.Holds(t)
      modifies this
      ensures r == Ok(()) && pos == 0 && Valid(t)
    {
      stack, atEnd, pos := [], false, 0;
      LeftmostAt(t);
      FirstStop(t);
      var empty := Descend(bt.rootPage, t, None, None);
      assert stack == Leftmost(t);
      if empty {
        atEnd := true;
      } else {
        EmptyIsFirst(t);
        AtIsStop(t, stack, 0);
      }
      r := Ok(());
    }

    lemma FirstKid(store: map<uint32, View>, t: Tree, lo: Option<Bytes>, hi: Option<Bytes>)
      requires Live(store, t, lo, hi) && t.Node?
      ensures t.kids[0].id == Pointer(t.page, 0)
      ensures Live(store, t.kids[0], LoOf(t.page, lo, 0), HiOf(t.page, hi, 0))
      ensures Leftmost(t) == [Frame(t.id, 0)] + Leftmost(t.kids[0]) && FirstLeafEmpty(t) == FirstLeafEmpty(t.kids[0])
    {
    }

    /** When the first leaf holds a cell, the first stop has a stack. */
    lemma EmptyIsFirst(t: Tree)
      requires Links(t)
      ensures Leftmost(t) == [] ==> FirstLeafEmpty(t)
    {
    }

    /** Current: the cell at the top frame. At a stop for an empty leaf that is a separator of the
        internal page, unless the frame is at the rightmost pointer. */
    method Current(ghost t: Tree) returns (r: Result<Option<Cell>>)
      requires Valid(t)
      ensures atEnd ==> r == Ok(None)
      ensures !atEnd && Shown(t)[pos].Some? ==> r == Ok(Shown(t)[pos])
    {
      if atEnd || |stack| == 0 {
        return Ok(None);
      }
      AtIsStop(t, stack, pos);
      AtShows(t, stack, pos);
      ghost var lo, hi := TopLive(t, None, None, stack);
      var frame := TopFrame(stack);
      var got := bt.pager.GetPage(frame.pageID);
      if got.Err? {
        return Err(InvalidPage);
      }
      ghost var v := Top(t, stack).page;
      var pt, count := bt.PageKind(got.value, v);
      if frame.idx < count {
        var c := bt.CellOf(got.value, frame.idx, v);
        return Ok(Some(c));
      }
      r := Err(OutOfBounds);
    }

    /** The page of the top frame, and its place in the tree. */
    lemma {:induction false} TopLive(t: Tree, lo: Option<Bytes>, hi: Option<Bytes>, path: Stack)
      returns (lo': Option<Bytes>, hi': Option<Bytes>)
      requires bt.pager.Valid() && Live(bt.pager.store, t, lo, hi) && Path(t, path)
      ensures Live(bt.pager.store, Top(t, path), lo', hi')
      ensures Top(t, path).id == TopFrame(path).pageID
      decreases t
    {
      if |path| == 1 {
        return lo, hi;
      }
      var i := path[0].idx;
      lo', hi' := TopLive(t.kids[i], LoOf(t.page, lo, i), HiOf(t.page, hi, i), path[1..]);
    }

    /** Advance: to the next stop of the tree, or past the end. */
    method Advance(ghost t: Tree) returns (r: Result<()>)
      requires Valid(t)
      modifies this
      ensures r == Ok(()) && Valid(t)
      ensures old(atEnd) ==> atEnd && pos == old(pos)
      ensures !old(atEnd) ==> pos == old(pos) + 1
    {
      if atEnd {
        return Ok(());
      }
      pos := pos + 1;
      MoveOn(t);
      r := Ok(());
    }

    /** The loop of Advance, from the stop before this one. */
    method MoveOn(ghost t: Tree)
      requires bt.Holds(t) && !atEnd && !FirstLeafEmpty(t) && pos > 0 && stack != []
      requires At(t, stack, pos - 1)
      modifies this`stack, this`atEnd
      ensures Valid(t)
    {
      ghost var first := true;
      while |stack| > 0
        invariant bt.Holds(t) && !atEnd
        invariant if first then stack != [] && At(t, stack, pos - 1) else Finished(t)
        decreases |stack|
      {
        var done := Turn(t, first);
        if done {
          Arrived(t);
          return;
        }
        first := false;
      }
      atEnd := true;
    }

    lemma Arrived(t: Tree)
      requires bt.Holds(t) && !atEnd && !FirstLeafEmpty(t) && At(t, stack, pos)
      ensures Valid(t)
    {
      AtIsStop(t, stack, pos);
    }

    /** Everything up to the child of the top frame has been visited. */
    ghost predicate Finished(t: Tree)
      reads this
    {
      if stack == [] then pos == |Stops(t)| else Past(t, stack, pos)
    }

    /** One turn of the loop of Advance: along the leaf, down to the next child, or up. */
    method Turn(ghost t: Tree, ghost first: bool) returns (done: bool)
      requires bt.Holds(t) && !FirstLeafEmpty(t) && stack != [] && pos > 0
      requires if first then At(t, stack, pos - 1) else Past(t, stack, pos)
      modifies this`stack
      ensures done ==> stack != [] && At(t, stack, pos)
      ensures !done ==> |stack| < |old(stack)| && Finished(t)
    {
      if first {
        StepAt(t, stack, pos - 1);
      }
      PathOf(t, stack, first);
      var pg, pt, count;
      ghost var lo, hi;
      pg, pt, count, lo, hi := TopPage(t);
      if pt == LEAF {
        done := TurnLeaf(count, t);
      } else {
        AfterTop(t, stack, pos);
        done := TurnInternal(pg, count, t, lo, hi);
      }
    }

    /** The page of the top frame, its kind and its number of cells. */
    method TopPage(ghost t: Tree)
      returns (pg: Page, pt: byte, count: nat, ghost lo: Option<Bytes>, ghost hi: Option<Bytes>)
      requires bt.Holds(t) && stack != [] && Path(t, stack)
      ensures Live(bt.pager.store, Top(t, stack), lo, hi)
      ensures bt.pager.Has(pg) && pg.id == Top(t, stack).id && count == |Top(t, stack).page.cells|
      ensures pt == (if Top(t, stack).Leaf? then LEAF else INTERNAL)
    {
      lo, hi := TopLive(t, None, None, stack);
      LivePage(bt.pager.store, Top(t, stack), lo, hi);
      var got := bt.pager.GetPage(TopFrame(stack).pageID);
      pg := got.value;
      pt, count := bt.PageKind(pg, Top(t, stack).page);
    }

    method TurnLeaf(count: nat, ghost t: Tree) returns (done: bool)
      requires stack != [] && Path(t, stack) && Top(t, stack).Leaf? && count == |Top(t, stack).page.cells|
      requires if TopFrame(stack).idx + 1 < count then At(t, Bump(stack), pos)
               else if |stack| == 1 then pos == |Stops(t)| else Past(t, Pop(stack), pos)
      modifies this`stack
      ensures done ==> stack != [] && At(t, stack, pos)
      ensures !done ==> |stack| < |old(stack)| && Finished(t)
    {
      ghost var at := stack;
      stack := Bump(stack);
      if TopFrame(stack).idx < count {
        return true;
      }
      stack := Pop(stack);
      assert stack == Pop(at);
      done := false;
    }

    method TurnInternal(pg: Page, count: nat, ghost t: Tree, ghost lo: Option<Bytes>, ghost hi: Option<Bytes>)
      returns (done: bool)
      requires bt.pager.Valid() && Shape(t) && Links(t) && !FirstLeafEmpty(t)
      requires stack != [] && Past(t, stack, pos) && Path(t, stack)
      requires Live(bt.pager.store, Top(t, stack), lo, hi) && Top(t, stack).Node?
      requires bt.pager.Has(pg) && pg.id == Top(t, stack).id && count == |Top(t, stack).page.cells|
      modifies this`stack
      ensures done ==> stack != [] && At(t, stack, pos)
      ensures !done ==> |stack| < |old(stack)| && Finished(t)
    {
      ghost var at, top := stack, Top(t, stack);
      stack := Bump(stack);
      var frame := TopFrame(stack);
      if frame.idx <= count {
        var childPtr := bt.PointerOf(pg, frame.idx, top.page);
        ghost var i := frame.idx;
        StepDown(t, at, pos, Leftmost(top.kids[i]));
        var empty := Descend(childPtr, top.kids[i], LoOf(top.page, lo, i), HiOf(top.page, hi, i));
        return true;
      }
      StepUp(t, at, pos);
      stack := Pop(stack);
      assert stack == Pop(at);
      done := false;
    }

    lemma PathOf(t: Tree, at: Stack, first: bool)
      requires Shape(t) && Links(t) && at != [] && pos > 0
      requires if first then At(t, at, pos - 1) else Past(t, at, pos)
      ensures Path(t, at) && (Top(t, at).Leaf? ==> first)
    {
      if first {
        AtIsStop(t, at, pos - 1);
      } else {
        AfterTop(t, at, pos);
      }
    }

    /** The loop of rewind, and the inner loop of Advance: push frames down to the first leaf,
        which gets a frame only if it holds a cell. */
    method Descend(childPtr: uint32, ghost t: Tree, ghost lo0: Option<Bytes>, ghost hi0: Option<Bytes>)
      returns (empty: bool)
      requires bt.pager.Valid() && Live(bt.pager.store, t, lo0, hi0) && t.id == childPtr
      modifies this`stack
      ensures stack == old(stack) + Leftmost(t) && empty == FirstLeafEmpty(t)
    {
      var pageID := childPtr;
      ghost var sub, lo, hi := t, lo0, hi0;
      bt.pager.IdsBelowCount();
      while pageID != INVALID_PAGE
        invariant sub.id == pageID && Live(bt.pager.store, sub, lo, hi)
        invariant stack + Leftmost(sub) == old(stack) + Leftmost(t) && FirstLeafEmpty(sub) == FirstLeafEmpty(t)
        decreases sub
      {
        LivePage(bt.pager.store, sub, lo, hi);
        var got := bt.pager.GetPage(pageID);
        var pt, count := bt.PageKind(got.value, sub.page);
        if pt == LEAF {
          if count > 0 {
            stack := stack + [Frame(pageID, 0)];
          }
          return count == 0;
        }
        stack := stack + [Frame(pageID, 0)];
        pageID := bt.PointerOf(got.value, 0, sub.page);
        FirstKid(bt.pager.store, sub, lo, hi);
        lo, hi, sub := LoOf(sub.page, lo, 0), HiOf(sub.page, hi, 0), sub.kids[0];
      }
      empty := true;
    }
  }

  // ----- Draining a cursor -----

  /** The loop of TableEngine.Count: one step per stop. */
  method CountCells(bt: BTree, ghost t: Tree) returns (count: nat)
    requires bt.rootPage != INVALID_PAGE && bt.Holds(t)
    ensures count == CursorSteps(t)
    ensures count == |Flatten(t)| <==> NoEmptyLeaf(t) || Flatten(t) == []
  {
    var cursor := new Cursor(bt, t);
    count := 0;
    CursorStepsExact(t);
    while !cursor.atEnd
      invariant fresh(cursor) && cursor.bt == bt && cursor.Valid(t)
      invariant count == cursor.pos
      decreases CursorSteps(t) - count
    {
      count := count + 1;
      var r := cursor.Advance(t);
    }
  }

  /** The cells a whole walk shows. */
  ghost function WalkCells(t: Tree): (cells: seq<Cell>)
    requires Links(t) && ShowsAlways(t)
    ensures |cells| == CursorSteps(t)
  {
    seq(CursorSteps(t), p requires 0 <= p < CursorSteps(t) => Shown(t)[p].value)
  }

  /** The loop of TableEngine.Scan, before rows are decoded: it yields what the cursor shows. */
  method CollectCells(bt: BTree, ghost t: Tree) returns (cells: seq<Cell>)
    requires bt.rootPage != INVALID_PAGE && bt.Holds(t) && ShowsAlways(t)
    ensures cells == WalkCells(t)
  {
    var cursor := new Cursor(bt, t);
    cells := [];
    while !cursor.atEnd
      invariant fresh(cursor) && cursor.bt == bt && cursor.Valid(t)
      invariant |cells| == cursor.pos <= CursorSteps(t) && cells == WalkCells(t)[..cursor.pos]
      decreases CursorSteps(t) - cursor.pos
    {
      ghost var all, p := WalkCells(t), cursor.pos;
      assert all[..p + 1] == all[..p] + [all[p]];
      var c := cursor.Current(t);
      if c.Ok? && c.value.Some? {
        cells := cells + [c.value.value];
      }
      var r := cursor.Advance(t);
    }
  }

  /** A walk yields exactly the cells of the tree, in order, when no leaf is empty or there are no
      cells. Otherwise it yields a separator more for every empty leaf, or, when the first leaf is
      empty, nothing. */
  lemma WalkExact(t: Tree)
    requires Shape(t) && Links(t) && ShowsAlways(t)
    ensures WalkCells(t) == Flatten(t) <==> NoEmptyLeaf(t) || Flatten(t) == []
  {
    CursorStepsExact(t);
    if NoEmptyLeaf(t) {
      ShownIsFlat(t);
    }
  }

  /** Without empty leaves every stop shows its cell. */
  lemma ShownIsFlat(t: Tree)
    requires Shape(t) && Links(t) && NoEmptyLeaf(t)
    ensures ShowsAlways(t) && CursorSteps(t) == |Shown(t)| == |Flatten(t)|
    ensures forall p :: 0 <= p < |Flatten(t)| ==> Shown(t)[p] == Some(Flatten(t)[p])
  {
    CursorStepsExact(t);
    ShownIsStops(t);
  }
}
