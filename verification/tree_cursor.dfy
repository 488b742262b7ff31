/** Where a cursor can be in a tree, as a stack of (page, index) frames, and how one step moves
    it (btree.go:361-487). */
module TreeCursor {
  import opened Bytes
  import opened Wrappers
  import opened Pages
  import opened Trees
  import opened TreeRun

  datatype Frame = Frame(pageID: uint32, idx: nat)

  type Stack = seq<Frame>

  // ----- The stops of a cursor -----

  /** The stops of a cursor on t, left to right: one at every leaf cell, and one at every empty
      leaf, where the cursor rests on the internal page above it. */
  function Stops(t: Tree): seq<Option<Cell>>
    decreases t, 1
  {
    match t
    case Leaf(_, page) =>
      if page.cells == [] then [None] else seq(|page.cells|, i requires 0 <= i < |page.cells| => Some(page.cells[i]))
    case Node(_, _, kids) => StopsAll(kids, |kids|)
  }

  /** The stops under the first n children. */
  function StopsAll(kids: seq<Tree>, n: nat): seq<Option<Cell>>
    requires n <= |kids|
    decreases kids, 0, n
  {
    if n == 0 then [] else StopsAll(kids, n - 1) + Stops(kids[n - 1])
  }

  lemma {:induction false} StopsPrefix(kids: seq<Tree>, m: nat, n: nat)
    requires m <= n <= |kids|
    ensures |StopsAll(kids, m)| <= |StopsAll(kids, n)|
    ensures StopsAll(kids, n)[..|StopsAll(kids, m)|] == StopsAll(kids, m)
  {
    if m < n {
      StopsPrefix(kids, m, n - 1);
    }
  }

  /** A stop under child i, seen from the parent. */
  lemma StopOfKid(kids: seq<Tree>, i: nat, p: nat)
    requires i < |kids| && p < |Stops(kids[i])|
    ensures var off := |StopsAll(kids, i)|;
            off + p < |StopsAll(kids, |kids|)| && StopsAll(kids, |kids|)[off + p] == Stops(kids[i])[p]
  {
    StopsPrefix(kids, i + 1, |kids|);
    assert StopsAll(kids, i + 1)[|StopsAll(kids, i)| + p] == Stops(kids[i])[p];
    assert StopsAll(kids, |kids|)[..|StopsAll(kids, i + 1)|][|StopsAll(kids, i)| + p] == Stops(kids[i])[p];
  }

  function Present(stops: seq<Option<Cell>>): seq<Cell> {
    if stops == [] then []
    else
      var n := |stops| - 1;
      Present(stops[..n]) + (if stops[n].Some? then [stops[n].value] else [])
  }

  lemma {:induction false} PresentAppend(a: seq<Option<Cell>>, b: seq<Option<Cell>>)
    ensures Present(a + b) == Present(a) + Present(b)
  {
    if b == [] {
      assert a + b == a;
    } else {
      var n := |b| - 1;
      PresentAppend(a, b[..n]);
      assert (a + b)[..|a| + n] == a + b[..n];
    }
  }

  lemma {:induction false} PresentAll(stops: seq<Option<Cell>>, cells: seq<Cell>)
    requires |stops| == |cells| && forall i :: 0 <= i < |stops| ==> stops[i] == Some(cells[i])
    ensures Present(stops) == cells
  {
    if stops != [] {
      var n := |stops| - 1;
      PresentAll(stops[..n], cells[..n]);
      assert cells == cells[..n] + [cells[n]];
    }
  }

  /** The stops that are cells are exactly the cells of the tree, in order. */
  lemma {:induction false} StopsFlatten(t: Tree)
    ensures Present(Stops(t)) == Flatten(t)
    decreases t, 1
  {
    match t
    case Leaf(_, page) =>
      if page.cells == [] {
        assert Stops(t)[..0] == [];
      } else {
        PresentAll(Stops(t), page.cells);
      }
    case Node(_, _, kids) =>
      StopsFlattenAll(kids, |kids|);
      assert kids[..|kids|] == kids;
  }

  lemma {:induction false} StopsFlattenAll(kids: seq<Tree>, n: nat)
    requires n <= |kids|
    ensures Present(StopsAll(kids, n)) == FlattenAll(kids[..n])
    decreases kids, 0, n
  {
    if n > 0 {
      StopsFlattenAll(kids, n - 1);
      StopsFlatten(kids[n - 1]);
      PresentAppend(StopsAll(kids, n - 1), Stops(kids[n - 1]));
      FlattenAppend(kids[..n - 1], [kids[n - 1]]);
      FlattenOne(kids[n - 1]);
      assert kids[..n] == kids[..n - 1] + [kids[n - 1]];
    }
  }

  predicate AllPresent(stops: seq<Option<Cell>>) {
    forall i :: 0 <= i < |stops| ==> stops[i].Some?
  }

  lemma {:induction false} PresentSize(stops: seq<Option<Cell>>)
    ensures |Present(stops)| <= |stops|
    ensures |Present(stops)| == |stops| <==> AllPresent(stops)
    ensures AllPresent(stops) ==> forall i :: 0 <= i < |stops| ==> stops[i].value == Present(stops)[i]
  {
    if stops != [] {
      var n := |stops| - 1;
      PresentSize(stops[..n]);
      assert AllPresent(stops) <==> AllPresent(stops[..n]) && stops[n].Some?;
    }
  }

  lemma {:induction false} StopsNoEmptyLeaf(t: Tree)
    requires Shape(t)
    ensures NoEmptyLeaf(t) <==> AllPresent(Stops(t))
    decreases t
  {
    if t.Leaf? {
      assert t.page.cells == [] ==> Stops(t)[0] == None;
    } else {
      forall k | 0 <= k < |t.kids|
        ensures NoEmptyLeaf(t.kids[k]) <==> AllPresent(Stops(t.kids[k]))
      {
        StopsNoEmptyLeaf(t.kids[k]);
      }
      AllSome(t.kids, |t.kids|);
    }
  }

  lemma AllPresentAppend(a: seq<Option<Cell>>, b: seq<Option<Cell>>)
    ensures AllPresent(a + b) <==> AllPresent(a) && AllPresent(b)
  {
    if AllPresent(a + b) {
      assert forall i :: 0 <= i < |a| ==> a[i] == (a + b)[i];
      assert forall i :: 0 <= i < |b| ==> b[i] == (a + b)[|a| + i];
    }
  }

  lemma {:induction false} AllSome(kids: seq<Tree>, n: nat)
    requires n <= |kids|
    ensures AllPresent(StopsAll(kids, n)) <==> forall k :: 0 <= k < n ==> AllPresent(Stops(kids[k]))
  {
    if n > 0 {
      AllSome(kids, n - 1);
      AllPresentAppend(StopsAll(kids, n - 1), Stops(kids[n - 1]));
    }
  }

  // ----- Positions -----

  /** The stack leads to stop p of t. */
  ghost predicate At(t: Tree, stack: Stack, p: nat)
    decreases t
  {
    match t
    case Leaf(id, page) =>
      if page.cells == [] then stack == [] && p == 0 else p < |page.cells| && stack == [Frame(id, p)]
    case Node(id, _, kids) =>
      && stack != [] && stack[0].pageID == id && stack[0].idx < |kids|
      && |StopsAll(kids, stack[0].idx)| <= p
      && At(kids[stack[0].idx], stack[1..], p - |StopsAll(kids, stack[0].idx)|)
  }

  /** The stack leads to an internal page, and the first q stops are those up to and including
      the child its top frame points to. */
  ghost predicate Past(t: Tree, stack: Stack, q: nat)
    decreases t
  {
    && t.Node? && stack != [] && stack[0].pageID == t.id && stack[0].idx < |t.kids|
    && if |stack| == 1 then q == |StopsAll(t.kids, stack[0].idx + 1)|
       else |StopsAll(t.kids, stack[0].idx)| <= q
            && Past(t.kids[stack[0].idx], stack[1..], q - |StopsAll(t.kids, stack[0].idx)|)
  }

  /** The stack is a path of pages from the root of t. */
  ghost predicate Path(t: Tree, stack: Stack)
    decreases t
  {
    && stack != [] && stack[0].pageID == t.id
    && (|stack| > 1 ==> t.Node? && stack[0].idx < |t.kids| && Path(t.kids[stack[0].idx], stack[1..]))
  }

  /** The tree under the page of the top frame. */
  ghost function Top(t: Tree, stack: Stack): Tree
    requires Path(t, stack)
    decreases t
  {
    if |stack| == 1 then t else Top(t.kids[stack[0].idx], stack[1..])
  }

  function TopFrame(stack: Stack): Frame
    requires stack != []
  {
    stack[|stack| - 1]
  }

  function Pop(stack: Stack): Stack
    requires stack != []
  {
    stack[..|stack| - 1]
  }

  /** frame.idx++ on the top frame. */
  function Bump(stack: Stack): Stack
    requires stack != []
  {
    stack[|stack| - 1 := Frame(TopFrame(stack).pageID, TopFrame(stack).idx + 1)]
  }

  /** The frames that rewind and Advance push on the way down to the leftmost leaf. */
  function Leftmost(t: Tree): Stack
    requires Links(t)
    decreases t
  {
    match t
    case Leaf(id, page) => if page.cells == [] then [] else [Frame(id, 0)]
    case Node(id, _, kids) => [Frame(id, 0)] + Leftmost(kids[0])
  }

  predicate FirstLeafEmpty(t: Tree)
    requires Links(t)
    decreases t
  {
    match t
    case Leaf(_, page) => page.cells == []
    case Node(_, _, kids) => FirstLeafEmpty(kids[0])
  }

  lemma {:induction false} LeftmostAt(t: Tree)
    requires Shape(t) && Links(t)
    ensures At(t, Leftmost(t), 0)
    decreases t
  {
    if t.Node? {
      LeftmostAt(t.kids[0]);
      assert Leftmost(t)[1..] == Leftmost(t.kids[0]);
    }
  }

  /** A position is a path; at a leaf page it is that leaf's cell, at an internal page it is the
      stop of an empty leaf. */
  lemma {:induction false} AtIsStop(t: Tree, stack: Stack, p: nat)
    requires Shape(t) && At(t, stack, p)
    ensures p < |Stops(t)|
    ensures stack == [] ==> t.Leaf?
    ensures stack != [] ==>
              && Path(t, stack) && Top(t, stack).id == TopFrame(stack).pageID
              && var top := Top(t, stack);
                 var i := TopFrame(stack).idx;
                 if top.Leaf? then i < |top.page.cells| && Stops(t)[p] == Some(top.page.cells[i])
                 else i < |top.kids| && Stops(t)[p] == None
    decreases t
  {
    if t.Node? {
      var i := stack[0].idx;
      AtIsStop(t.kids[i], stack[1..], p - |StopsAll(t.kids, i)|);
      StopOfKid(t.kids, i, p - |StopsAll(t.kids, i)|);
    }
  }

  /** One step of Advance from a position: along a leaf, or out of it. */
  lemma {:induction false} StepAt(t: Tree, stack: Stack, p: nat)
    requires Shape(t) && At(t, stack, p) && stack != []
    ensures Path(t, stack)
    ensures var top, i := Top(t, stack), TopFrame(stack).idx;
            if top.Node? then Past(t, stack, p + 1)
            else if i + 1 < |top.page.cells| then At(t, Bump(stack), p + 1)
            else if |stack| == 1 then p + 1 == |Stops(t)|
            else Past(t, Pop(stack), p + 1)
    decreases t
  {
    AtIsStop(t, stack, p);
    if t.Node? {
      var k := stack[0].idx;
      var off := |StopsAll(t.kids, k)|;
      if |stack| > 1 {
        StepAt(t.kids[k], stack[1..], p - off);
        assert Bump(stack)[1..] == Bump(stack[1..]);
        assert |stack| > 2 ==> Pop(stack)[1..] == Pop(stack[1..]);
      }
    }
  }

  lemma {:induction false} AfterTop(t: Tree, stack: Stack, q: nat)
    requires Shape(t) && Links(t) && Past(t, stack, q)
    ensures Path(t, stack) && Top(t, stack).Node? && Top(t, stack).id == TopFrame(stack).pageID
    ensures Shape(Top(t, stack)) && Links(Top(t, stack))
    decreases t
  {
    if |stack| > 1 {
      AfterTop(t.kids[stack[0].idx], stack[1..], q - |StopsAll(t.kids, stack[0].idx)|);
    }
  }

  /** One step of Advance from a finished child: down into the next child. */
  lemma {:induction false} StepDown(t: Tree, stack: Stack, q: nat, down: Stack)
    requires Shape(t) && Links(t) && Past(t, stack, q) && Path(t, stack)
    requires Top(t, stack).Node? && TopFrame(stack).idx + 1 < |Top(t, stack).kids|
    requires Links(Top(t, stack)) && down == Leftmost(Top(t, stack).kids[TopFrame(stack).idx + 1])
    ensures At(t, Bump(stack) + down, q)
    decreases t
  {
    var k := stack[0].idx;
    if |stack| == 1 {
      LeftmostAt(t.kids[k + 1]);
      assert (Bump(stack) + down)[1..] == down;
    } else {
      StepDown(t.kids[k], stack[1..], q - |StopsAll(t.kids, k)|, down);
      BumpBelow(stack, down);
    }
  }

  lemma BumpBelow(stack: Stack, down: Stack)
    requires |stack| > 1
    ensures (Bump(stack) + down)[0] == stack[0] && (Bump(stack) + down)[1..] == Bump(stack[1..]) + down
  {
  }

  /** One step of Advance from a finished last child: up. */
  lemma {:induction false} StepUp(t: Tree, stack: Stack, q: nat)
    requires Shape(t) && Past(t, stack, q) && Path(t, stack)
    requires Top(t, stack).Node? && TopFrame(stack).idx + 1 >= |Top(t, stack).kids|
    ensures if |stack| == 1 then q == |Stops(t)| else Past(t, Pop(stack), q)
    decreases t
  {
    if |stack| > 2 {
      StepUp(t.kids[stack[0].idx], stack[1..], q - |StopsAll(t.kids, stack[0].idx)|);
      assert Pop(stack)[1..] == Pop(stack[1..]);
    } else if |stack| == 2 {
      StepUp(t.kids[stack[0].idx], stack[1..], q - |StopsAll(t.kids, stack[0].idx)|);
      assert Pop(stack) == [stack[0]];
    }
  }

  // ----- How many steps a cursor takes -----

  /** NewCursor is at the end at once when the first leaf is empty; otherwise every stop takes
      one Advance. */
  function CursorSteps(t: Tree): nat
    requires Links(t)
  {
    if FirstLeafEmpty(t) then 0 else |Stops(t)|
  }

  lemma {:induction false} FirstStop(t: Tree)
    requires Shape(t) && Links(t)
    ensures |Stops(t)| > 0
    ensures FirstLeafEmpty(t) <==> Stops(t)[0] == None
    decreases t
  {
    if t.Node? {
      FirstStop(t.kids[0]);
      StopOfKid(t.kids, 0, 0);
    }
  }

  /** A cursor takes exactly as many steps as there are leaf cells exactly when no leaf is empty,
      or there are no cells at all. */
  lemma CursorStepsExact(t: Tree)
    requires Shape(t) && Links(t)
    ensures CursorSteps(t) == |Flatten(t)| <==> NoEmptyLeaf(t) || Flatten(t) == []
    ensures NoEmptyLeaf(t) ==> CursorSteps(t) == |Stops(t)| == |Flatten(t)|
                               && forall i :: 0 <= i < |Stops(t)| ==> Stops(t)[i] == Some(Flatten(t)[i])
  {
    StopsFlatten(t);
    PresentSize(Stops(t));
    StopsNoEmptyLeaf(t);
    FirstStop(t);
    if Flatten(t) == [] && !FirstLeafEmpty(t) {
      PresentHas(Stops(t), 0);
    }
  }

  lemma {:induction false} PresentHas(stops: seq<Option<Cell>>, i: nat)
    requires i < |stops| && stops[i].Some?
    ensures Present(stops) != []
  {
    var n := |stops| - 1;
    if i < n {
      PresentHas(stops[..n], i);
    }
  }

  // ----- What the cursor shows -----

  /** What Current finds at each stop: the leaf cell, or at an empty leaf the separator that points to
      it; behind the rightmost pointer there is none. */
  function Shown(t: Tree): (s: seq<Option<Cell>>)
    ensures |s| == |Stops(t)|
    decreases t, 1
  {
    match t
    case Leaf(_, _) => Stops(t)
    case Node(_, page, kids) => ShownAll(page.cells, kids, |kids|)
  }

  function ShownAll(cells: seq<Cell>, kids: seq<Tree>, n: nat): (s: seq<Option<Cell>>)
    requires n <= |kids|
    ensures |s| == |StopsAll(kids, n)|
    decreases kids, 0, n
  {
    if n == 0 then [] else ShownAll(cells, kids, n - 1) + ShownKid(cells, kids, n - 1)
  }

  function ShownKid(cells: seq<Cell>, kids: seq<Tree>, i: nat): (s: seq<Option<Cell>>)
    requires i < |kids|
    ensures |s| == |Stops(kids[i])|
    decreases kids, 0, i, 0
  {
    if kids[i].Leaf? && kids[i].page.cells == [] then [if i < |cells| then Some(cells[i]) else None]
    else Shown(kids[i])
  }

  lemma {:induction false} ShownPrefix(cells: seq<Cell>, kids: seq<Tree>, m: nat, n: nat)
    requires m <= n <= |kids|
    ensures |ShownAll(cells, kids, m)| <= |ShownAll(cells, kids, n)|
    ensures ShownAll(cells, kids, n)[..|ShownAll(cells, kids, m)|] == ShownAll(cells, kids, m)
  {
    if m < n {
      ShownPrefix(cells, kids, m, n - 1);
    }
  }

  lemma ShownOfKid(cells: seq<Cell>, kids: seq<Tree>, i: nat, p: nat)
    requires i < |kids| && p < |Stops(kids[i])|
    ensures var off := |StopsAll(kids, i)|;
            && off + p < |ShownAll(cells, kids, |kids|)|
            && ShownAll(cells, kids, |kids|)[off + p] == ShownKid(cells, kids, i)[p]
  {
    ShownPrefix(cells, kids, i + 1, |kids|);
    var front, kid := ShownAll(cells, kids, i), ShownKid(cells, kids, i);
    var more, all := ShownAll(cells, kids, i + 1), ShownAll(cells, kids, |kids|);
    assert more == front + kid;
    InPrefix(front, kid, all, p);
  }

  lemma InPrefix(front: seq<Option<Cell>>, kid: seq<Option<Cell>>, all: seq<Option<Cell>>, p: nat)
    requires p < |kid| && |front + kid| <= |all| && all[..|front + kid|] == front + kid
    ensures all[|front| + p] == kid[p]
  {
    assert all[..|front + kid|][|front| + p] == (front + kid)[|front| + p];
  }

  /** The top frame says what is shown. */
  lemma {:induction false} AtShows(t: Tree, stack: Stack, p: nat)
    requires Shape(t) && At(t, stack, p) && stack != []
    ensures Path(t, stack) && p < |Shown(t)|
    ensures var cells, i := Top(t, stack).page.cells, TopFrame(stack).idx;
            Shown(t)[p] == if i < |cells| then Some(cells[i]) else None
    decreases t
  {
    AtIsStop(t, stack, p);
    if t.Node? {
      var i := stack[0].idx;
      var q := p - |StopsAll(t.kids, i)|;
      AtIsStop(t.kids[i], stack[1..], q);
      ShownOfKid(t.page.cells, t.kids, i, q);
      if |stack| > 1 {
        AtShows(t.kids[i], stack[1..], q);
      }
    }
  }

  /** Every stop of the walk shows a cell: no leaf behind a rightmost pointer is empty, unless the
      walk ends at once. */
  ghost predicate ShowsAlways(t: Tree)
    requires Links(t)
  {
    forall p :: 0 <= p < CursorSteps(t) ==> p < |Shown(t)| && Shown(t)[p].Some?
  }

  lemma {:induction false} ShownIsStops(t: Tree)
    requires NoEmptyLeaf(t)
    ensures Shown(t) == Stops(t)
    decreases t, 1
  {
    if t.Node? {
      ShownIsStopsAll(t.page.cells, t.kids, |t.kids|);
    }
  }

  lemma {:induction false} ShownIsStopsAll(cells: seq<Cell>, kids: seq<Tree>, n: nat)
    requires n <= |kids| && forall i :: 0 <= i < |kids| ==> NoEmptyLeaf(kids[i])
    ensures ShownAll(cells, kids, n) == StopsAll(kids, n)
    decreases kids, 0, n
  {
    if n > 0 {
      ShownIsStopsAll(cells, kids, n - 1);
      ShownIsStops(kids[n - 1]);
    }
  }
}
