/** What every insertion keeps, and what whole runs of insertions and deletions do. */
module TreeRun {
  import opened Bytes
  import opened Wrappers
  import opened Pages
  import opened PageOps
  import opened Trees
  import opened TreeInsert
  import opened TreeSplit

  // ----- Page ids -----

  function Ids(t: Tree): set<uint32>
    decreases t
  {
    match t
    case Leaf(id, _) => {id}
    case Node(id, _, kids) => {id} + set k, x | 0 <= k < |kids| && x in Ids(kids[k]) :: x
  }

  /** No page occurs twice. */
  ghost predicate Distinct(t: Tree)
    decreases t
  {
    t.Node? ==>
      && (forall i :: 0 <= i < |t.kids| ==> Distinct(t.kids[i]) && t.id !in Ids(t.kids[i]))
      && (forall i, j :: 0 <= i < j < |t.kids| ==> Ids(t.kids[i]) !! Ids(t.kids[j]))
  }

  // ----- Small cells and non-empty leaves -----

  ghost predicate Small(t: Tree, b: nat)
    decreases t
  {
    SizesAtMost(t.page.cells, b) && (t.Node? ==> forall i :: 0 <= i < |t.kids| ==> Small(t.kids[i], b))
  }

  ghost predicate NoEmptyLeaf(t: Tree)
    decreases t
  {
    match t
    case Leaf(_, page) => page.cells != []
    case Node(_, _, kids) => forall i :: 0 <= i < |kids| ==> NoEmptyLeaf(kids[i])
  }

  /** The parent of a leaf that overflows takes the separator. */
  ghost predicate NoInternalOverflow(t: Tree, c: Cell)
    requires Links(t)
    decreases t
  {
    match t
    case Leaf(_, _) => true
    case Node(_, page, kids) =>
      var i := ChildIndex(t, c.key);
      && NoInternalOverflow(kids[i], c)
      && (kids[i].Leaf? && Splits(kids[i], c) ==>
            var all := Upsert(kids[i].page.cells, c);
            page.Takes(all[|all| / 2]))
  }

  /** What runs of insertions keep, with next the first page id not yet allocated. */
  ghost predicate Good(t: Tree, next: nat) {
    && Shape(t) && Links(t) && Distinct(t) && Ordered(t, None, None) && Small(t, 206)
    && (NoEmptyLeaf(t) || (t.Leaf? && t.page.cells == []))
    && forall x :: x in Ids(t) ==> x < next
  }

  // ----- Shape -----

  lemma LeafShape(t: Tree, c: Cell, newId: uint32)
    requires t.Leaf? && Shape(t) && Fits(t, c)
    ensures var r := InsertIntoLeaf(t, c, newId);
            if r.Kept? then r.t.Leaf? && r.t.id == t.id && Shape(r.t) && r.t.page.cells != []
            else r.left.Leaf? && r.right.Leaf? && Shape(r.left) && Shape(r.right)
                 && r.left.page.cells != [] && r.right.page.cells != []
  {
    var cells, n := t.page.cells, LowerBound(t.page.cells, c.key);
    if HasKey(cells, c.key) {
      TotalSizeReplace(cells, c, n);
    } else if t.page.Takes(c) {
      TotalSizeInsert(cells, c, n);
    }
  }

  lemma {:induction false} InsertShape(t: Tree, c: Cell, newId: uint32)
    requires Shape(t) && Links(t) && Fits(t, c)
    ensures var r := InsertTree(t, c, newId);
            r.Kept? ==> r.t.id == t.id && r.t.Leaf? == t.Leaf? && Shape(r.t)
    decreases t
  {
    if t.Leaf? {
      LeafShape(t, c, newId);
    } else {
      var i := ChildIndex(t, c.key);
      var r := InsertTree(t.kids[i], c, newId);
      if r.Kept? {
        InsertShape(t.kids[i], c, newId);
      } else {
        LeafShape(t.kids[i], c, newId);
        AddSeparatorShape(t, i, r);
      }
    }
  }

  lemma AddSeparatorShape(t: Tree, i: nat, s: Outcome)
    requires t.Node? && Shape(t) && i < |t.kids| && s.Split? && t.page.Takes(s.sep)
    requires Shape(s.left) && Shape(s.right) && s.left.id == t.kids[i].id
    ensures Shape(AddSeparator(t, i, s))
  {
    var n := |t.page.cells|;
    var sep := Cell(s.left.id, s.sep.key, s.sep.value);
    var t' := AddSeparator(t, i, s);
    if i == n {
      TotalSizeInsert(t.page.cells, sep, n);
    } else {
      var c' := t.page.cells[i].(leftPtr := s.right.id);
      TotalSizeReplace(t.page.cells, c', i);
      TotalSizeInsert(t.page.cells[i := c'], sep, n);
    }
    forall k | 0 <= k < |t'.kids|
      ensures Pointer(t'.page, k) == t'.kids[k].id && Shape(t'.kids[k])
    {
      AddSeparatorPointer(t, i, s, k);
      AddSeparatorKid(t, i, s, k);
    }
  }

  lemma AddSeparatorPointer(t: Tree, i: nat, s: Outcome, k: nat)
    requires t.Node? && |t.kids| == |t.page.cells| + 1 && i < |t.kids| && k < |t.kids| + 1
    requires s.Split? && t.page.Takes(s.sep) && s.left.id == t.kids[i].id
    requires forall j :: 0 <= j < |t.kids| ==> Pointer(t.page, j) == t.kids[j].id
    ensures k < |AddSeparator(t, i, s).kids|
    ensures Pointer(AddSeparator(t, i, s).page, k) == AddSeparator(t, i, s).kids[k].id
  {
    assert k < |t.page.cells| ==> Pointer(t.page, k) == t.kids[k].id;
    assert Pointer(t.page, |t.page.cells|) == t.kids[|t.page.cells|].id;
  }

  // ----- Ids -----

  lemma KidIds(t: Tree, i: nat)
    requires t.Node? && i < |t.kids|
    ensures Ids(t.kids[i]) <= Ids(t) && t.id in Ids(t)
  {
  }

  lemma {:induction false} InsertIds(t: Tree, c: Cell, newId: uint32)
    requires Links(t) && Fits(t, c) && Distinct(t) && newId !in Ids(t)
    ensures var r := InsertTree(t, c, newId);
            if r.Kept? then Distinct(r.t) && Ids(t) <= Ids(r.t) <= Ids(t) + {newId}
            else Ids(r.left) == Ids(t) && Ids(r.right) == {newId} && Distinct(r.left) && Distinct(r.right)
    decreases t
  {
    if t.Node? {
      var i := ChildIndex(t, c.key);
      KidIds(t, i);
      InsertIds(t.kids[i], c, newId);
      var r := InsertTree(t.kids[i], c, newId);
      if r.Kept? {
        ReplacedIds(t, i, r.t, newId);
      } else {
        AddSeparatorIds(t, i, r, newId);
      }
    }
  }

  lemma ReplacedIds(t: Tree, i: nat, k: Tree, newId: uint32)
    requires t.Node? && Distinct(t) && i < |t.kids| && newId !in Ids(t)
    requires Distinct(k) && Ids(t.kids[i]) <= Ids(k) <= Ids(t.kids[i]) + {newId}
    ensures var t' := Node(t.id, t.page, t.kids[i := k]);
            Distinct(t') && Ids(t) <= Ids(t') <= Ids(t) + {newId}
  {
    var t' := Node(t.id, t.page, t.kids[i := k]);
    forall j | 0 <= j < |t.kids|
      ensures Ids(t.kids[j]) <= Ids(t) && newId !in Ids(t.kids[j])
      ensures Ids(t.kids[j]) <= Ids(t'.kids[j]) <= Ids(t.kids[j]) + {newId}
    {
      KidIds(t, j);
    }
    forall x | x in Ids(t)
      ensures x in Ids(t')
    {
      if x != t.id {
        var j :| 0 <= j < |t.kids| && x in Ids(t.kids[j]);
        KidIds(t', j);
      }
    }
  }

  /** The child of the old node that child k of the new one holds the pages of, or n + 1 for the
      new right half. */
  function Origin(n: nat, i: nat, k: nat): nat {
    if i == n then k else if k == i then n + 1 else if k < n then k else if k == n then i else n
  }

  lemma AddSeparatorKid(t: Tree, i: nat, s: Outcome, k: nat)
    requires t.Node? && |t.kids| == |t.page.cells| + 1 && i < |t.kids| && k < |t.kids| + 1
    requires s.Split? && t.page.Takes(s.sep)
    ensures var o := Origin(|t.page.cells|, i, k);
            && o <= |t.kids| && k < |AddSeparator(t, i, s).kids|
            && AddSeparator(t, i, s).kids[k] ==
                 (if o == |t.kids| then s.right else if o == i then s.left else t.kids[o])
  {
  }

  lemma AddSeparatorIds(t: Tree, i: nat, s: Outcome, newId: uint32)
    requires t.Node? && Distinct(t) && |t.kids| == |t.page.cells| + 1 && i < |t.kids| && newId !in Ids(t)
    requires s.Split? && t.page.Takes(s.sep) && Distinct(s.left) && Distinct(s.right)
    requires Ids(s.left) == Ids(t.kids[i]) && Ids(s.right) == {newId}
    ensures var t' := AddSeparator(t, i, s);
            Distinct(t') && Ids(t') == Ids(t) + {newId}
  {
    var n := |t.page.cells|;
    var t' := AddSeparator(t, i, s);
    var idSets := seq(n + 2, o requires 0 <= o < n + 2 => if o == n + 1 then {newId} else Ids(t.kids[o]));
    forall k | 0 <= k < n + 2
      ensures Ids(t'.kids[k]) == idSets[Origin(n, i, k)] && Distinct(t'.kids[k])
    {
      AddSeparatorKid(t, i, s, k);
    }
    forall o | 0 <= o < n + 1
      ensures idSets[o] <= Ids(t) && newId !in idSets[o] && t.id !in idSets[o]
    {
      KidIds(t, o);
    }
    ApartIds(t', n, i, idSets);
    SameIds(t, t', n, i, idSets, newId);
  }

  /** Children with the disjoint id sets of different origins share no page. */
  lemma ApartIds(t': Tree, n: nat, i: nat, idSets: seq<set<uint32>>)
    requires t'.Node? && |t'.kids| == n + 2 == |idSets| && i <= n
    requires forall k :: 0 <= k < n + 2 ==> Ids(t'.kids[k]) == idSets[Origin(n, i, k)] && Distinct(t'.kids[k])
    requires forall o :: 0 <= o < n + 2 ==> t'.id !in idSets[o]
    requires forall o, p :: 0 <= o < p < n + 2 ==> idSets[o] !! idSets[p]
    ensures Distinct(t')
  {
    forall k, l | 0 <= k < l < n + 2
      ensures Ids(t'.kids[k]) !! Ids(t'.kids[l])
    {
      var o, p := Origin(n, i, k), Origin(n, i, l);
      assert if o < p then idSets[o] !! idSets[p] else p < o && idSets[p] !! idSets[o];
    }
  }

  lemma SameIds(t: Tree, t': Tree, n: nat, i: nat, idSets: seq<set<uint32>>, newId: uint32)
    requires t.Node? && t'.Node? && t'.id == t.id && |t.kids| == n + 1 && |t'.kids| == n + 2 == |idSets| && i <= n
    requires forall k :: 0 <= k < n + 2 ==> Ids(t'.kids[k]) == idSets[Origin(n, i, k)]
    requires forall o :: 0 <= o < n + 1 ==> idSets[o] == Ids(t.kids[o])
    requires idSets[n + 1] == {newId}
    ensures Ids(t') == Ids(t) + {newId}
  {
    forall x | x in Ids(t) + {newId}
      ensures x in Ids(t')
    {
      if x != t.id {
        var o :| 0 <= o < n + 2 && x in idSets[o];
        var k := if i == n then o else if o == n + 1 then i else if o == i then n else if o == n then n + 1 else o;
        assert Origin(n, i, k) == o;
        KidIds(t', k);
      }
    }
    forall x | x in Ids(t')
      ensures x in Ids(t) + {newId}
    {
      if x != t.id {
        var k :| 0 <= k < n + 2 && x in Ids(t'.kids[k]);
        var o := Origin(n, i, k);
        if o <= n {
          KidIds(t, o);
        }
      }
    }
  }

  // ----- Sizes and empty leaves -----

  lemma UpsertSizes(cells: seq<Cell>, c: Cell, b: nat)
    requires Sorted(cells) && SizesAtMost(cells, b) && c.Size() <= b
    ensures SizesAtMost(Upsert(cells, c), b)
  {
    UpsertSorted(cells, c);
  }

  lemma LeafSmall(t: Tree, c: Cell, newId: uint32, b: nat)
    requires t.Leaf? && Sorted(t.page.cells) && Fits(t, c) && Small(t, b) && c.Size() <= b
    ensures var r := InsertIntoLeaf(t, c, newId);
            if r.Kept? then Small(r.t, b)
            else Small(r.left, b) && Small(r.right, b) && r.sep.Size() <= b
  {
    UpsertSizes(t.page.cells, c, b);
    var all := Upsert(t.page.cells, c);
    if !HasKey(t.page.cells, c.key) && !t.page.Takes(c) {
      assert forall x :: x in all[..|all| / 2] ==> x in all;
      assert forall x :: x in all[|all| / 2..] ==> x in all;
      assert all[|all| / 2] in all;
    }
  }

  lemma {:induction false} InsertSmall(t: Tree, lo: Option<Bytes>, hi: Option<Bytes>, c: Cell, newId: uint32, b: nat)
    requires Links(t) && Ordered(t, lo, hi) && Fits(t, c) && Small(t, b) && c.Size() <= b
    ensures InsertTree(t, c, newId).Kept? ==> Small(InsertTree(t, c, newId).t, b)
    decreases t
  {
    if t.Leaf? {
      LeafSmall(t, c, newId, b);
    } else {
      var i := ChildIndex(t, c.key);
      var lo', hi' := LoOf(t.page, lo, i), HiOf(t.page, hi, i);
      var r := InsertTree(t.kids[i], c, newId);
      if r.Kept? {
        InsertSmall(t.kids[i], lo', hi', c, newId, b);
      } else {
        LeafSmall(t.kids[i], c, newId, b);
        AddSeparatorSmall(t, i, r, b);
      }
    }
  }

  lemma AddSeparatorSmall(t: Tree, i: nat, s: Outcome, b: nat)
    requires t.Node? && |t.kids| == |t.page.cells| + 1 && i < |t.kids| && Small(t, b)
    requires s.Split? && t.page.Takes(s.sep) && Small(s.left, b) && Small(s.right, b) && s.sep.Size() <= b
    ensures Small(AddSeparator(t, i, s), b)
  {
    var n := |t.page.cells|;
    var t' := AddSeparator(t, i, s);
    forall x | x in t'.page.cells
      ensures x.Size() <= b
    {
      var k :| 0 <= k < |t'.page.cells| && t'.page.cells[k] == x;
      if k < n {
        assert t.page.cells[k] in t.page.cells;
      }
    }
  }

  lemma {:induction false} InsertNoEmptyLeaf(t: Tree, c: Cell, newId: uint32)
    requires Shape(t) && Links(t) && Fits(t, c) && (t.Leaf? || NoEmptyLeaf(t))
    ensures var r := InsertTree(t, c, newId);
            if r.Kept? then NoEmptyLeaf(r.t) else NoEmptyLeaf(r.left) && NoEmptyLeaf(r.right)
    decreases t
  {
    if t.Leaf? {
      LeafShape(t, c, newId);
    } else {
      InsertNoEmptyLeaf(t.kids[ChildIndex(t, c.key)], c, newId);
    }
  }

  // ----- One insertion -----

  /** With small cells, the only way off the modelled paths is an internal page that overflows
      or an update that grows its cell. */
  lemma {:induction false} SmallFits(t: Tree, lo: Option<Bytes>, hi: Option<Bytes>, c: Cell)
    requires Shape(t) && Links(t) && Ordered(t, lo, hi) && Small(t, 206) && c.Size() <= 206
    requires AtLeast(lo, c.key) && Below(c.key, hi)
    requires NoEmptyLeaf(t) || (t.Leaf? && t.page.Takes(c))
    requires NoInternalOverflow(t, c)
    requires forall x :: x in Flatten(t) ==> x.key != c.key
    requires !IsSeparator(t, c.key)
    ensures Fits(t, c)
    decreases t
  {
    match t
    case Leaf(_, page) =>
      if HasKey(page.cells, c.key) {
        assert false;
      } else if !page.Takes(c) {
        HalvesFitBelow(page, c, 206);
      }
    case Node(_, page, kids) =>
      var i := ChildIndex(t, c.key);
      DescentRange(t, lo, hi, c.key);
      forall x | x in Flatten(kids[i])
        ensures x.key != c.key
      {
        InFlattenAll(kids, x);
      }
      SmallFits(kids[i], LoOf(page, lo, i), HiOf(page, hi, i), c);
  }

  function NextId(t: Tree, c: Cell, next: nat): nat
    requires Links(t)
  {
    if Splits(t, c) then (if t.Leaf? then next + 2 else next + 1) else next
  }

  /** An insertion that keeps the order keeps everything else too. */
  lemma InsertKeepsGood(t: Tree, c: Cell, next: nat)
    requires Good(t, next) && c.Size() <= 206 && next + 2 < 0x1_0000_0000
    requires FitsTop(t, c) && KeepsOrder(t, c)
    ensures Good(InsertTop(t, c, next, next + 1), NextId(t, c, next))
    ensures NoEmptyLeaf(InsertTop(t, c, next, next + 1))
    ensures Flatten(InsertTop(t, c, next, next + 1)) == Upsert(Flatten(t), c)
  {
    if InsertTree(t, c, next).Split? {
      SplitRootGood(t, c, next);
    } else {
      InsertExact(t, None, None, c, next);
      KeptGood(t, c, next);
    }
  }

  lemma SplitRootGood(t: Tree, c: Cell, next: nat)
    requires Good(t, next) && c.Size() <= 206 && next + 2 < 0x1_0000_0000
    requires FitsTop(t, c) && t.Leaf? && Splits(t, c)
    ensures Good(InsertTop(t, c, next, next + 1), next + 2)
    ensures NoEmptyLeaf(InsertTop(t, c, next, next + 1))
    ensures Flatten(InsertTop(t, c, next, next + 1)) == Upsert(Flatten(t), c)
  {
    assert t.id in Ids(t);
    LeafOrdered(t, None, None, c, next);
    LeafShape(t, c, next);
    LeafSmall(t, c, next, 206);
    NewRootGood(InsertTree(t, c, next), next);
  }

  lemma NewRootGood(s: Outcome, next: nat)
    requires s.Split? && s.sep.Size() <= 206 && next + 2 < 0x1_0000_0000
    requires s.left.Leaf? && s.right.Leaf? && s.left.id < next && s.right.id == next
    requires Shape(s.left) && Shape(s.right) && Small(s.left, 206) && Small(s.right, 206)
    requires NoEmptyLeaf(s.left) && NoEmptyLeaf(s.right)
    requires Ordered(s.left, None, Some(s.sep.key)) && Ordered(s.right, Some(s.sep.key), None)
    ensures var t := NewRoot(s, next + 1);
            Good(t, next + 2) && NoEmptyLeaf(t) && Flatten(t) == Flatten(s.left) + Flatten(s.right)
  {
    NewRootShape(s, next + 1);
    NewRootOrder(s, next + 1);
    NewRootIds(s, next + 1);
    var t := NewRoot(s, next + 1);
    assert t.kids[0] == s.left && t.kids[1] == s.right;
  }

  lemma KeptGood(t: Tree, c: Cell, next: nat)
    requires Good(t, next) && c.Size() <= 206 && next + 2 < 0x1_0000_0000
    requires FitsTop(t, c) && InsertTree(t, c, next).Kept? && Ordered(InsertTree(t, c, next).t, None, None)
    ensures Good(InsertTree(t, c, next).t, NextId(t, c, next))
    ensures NoEmptyLeaf(InsertTree(t, c, next).t)
  {
    InsertShape(t, c, next);
    InsertIds(t, c, next);
    InsertSmall(t, None, None, c, next, 206);
    InsertNoEmptyLeaf(t, c, next);
    ShapeLinks(InsertTree(t, c, next).t);
    InsertNextId(t, c, next);
  }

  lemma {:induction false} InsertNextId(t: Tree, c: Cell, newId: uint32)
    requires Links(t) && Fits(t, c) && !(t.Leaf? && Splits(t, c))
    ensures !Splits(t, c) ==> Ids(InsertTree(t, c, newId).t) == Ids(t)
    decreases t
  {
    if t.Node? && !Splits(t, c) {
      var i := ChildIndex(t, c.key);
      InsertNextId(t.kids[i], c, newId);
      var r := InsertTree(t.kids[i], c, newId);
      forall k | 0 <= k < |t.kids|
        ensures Ids(t.kids[i := r.t][k]) == Ids(t.kids[k])
      {
      }
    }
  }

  lemma NewRootShape(s: Outcome, id: uint32)
    requires s.Split? && s.sep.Size() + 2 + PAGE_HEADER_SIZE <= PAGE_SIZE && Shape(s.left) && Shape(s.right)
    ensures Shape(NewRoot(s, id)) && Links(NewRoot(s, id))
  {
    var t := NewRoot(s, id);
    var sep := t.page.cells[0];
    assert t.page.cells == [sep] && [sep][..0] == [];
    assert TotalSize([sep]) == sep.Size();
    assert t.kids[0] == s.left && t.kids[1] == s.right;
    ShapeLinks(t);
  }

  lemma NewRootOrder(s: Outcome, id: uint32)
    requires s.Split? && s.sep.Size() + 2 + PAGE_HEADER_SIZE <= PAGE_SIZE
    requires Ordered(s.left, None, Some(s.sep.key)) && Ordered(s.right, Some(s.sep.key), None)
    ensures var t := NewRoot(s, id);
            Ordered(t, None, None) && Flatten(t) == Flatten(s.left) + Flatten(s.right)
  {
    var t := NewRoot(s, id);
    FlattenAppend([s.left], [s.right]);
    FlattenOne(s.left);
    FlattenOne(s.right);
    assert t.kids == [s.left] + [s.right];
    assert t.kids[0] == s.left && t.kids[1] == s.right;
  }

  lemma NewRootIds(s: Outcome, id: uint32)
    requires s.Split? && s.sep.Size() + 2 + PAGE_HEADER_SIZE <= PAGE_SIZE
    requires s.left.Leaf? && s.right.Leaf? && s.left.id != s.right.id && id !in {s.left.id, s.right.id}
    ensures var t := NewRoot(s, id);
            Distinct(t) && Ids(t) == {id, s.left.id, s.right.id}
  {
    var t := NewRoot(s, id);
    assert t.kids[0] == s.left && t.kids[1] == s.right;
    KidIds(t, 0);
    KidIds(t, 1);
  }

  // ----- Ascending runs -----

  ghost predicate Ascending(cs: seq<Cell>) {
    Sorted(cs)
  }

  /** The key is beyond every cell of the tree. */
  ghost predicate BeyondAll(t: Tree, key: Bytes) {
    forall x :: x in Flatten(t) ==> Less(x.key, key)
  }

  /** A key beyond every cell descends along the right edge and meets no separator. */
  lemma {:induction false} BeyondDescends(t: Tree, lo: Option<Bytes>, hi: Option<Bytes>, key: Bytes)
    requires Shape(t) && Links(t) && Ordered(t, lo, hi) && NoEmptyLeaf(t) && BeyondAll(t, key)
    ensures ReachesRightmost(t, key) && !IsSeparator(t, key)
    ensures t.Node? ==> ChildIndex(t, key) == |t.page.cells| && Less(t.page.cells[|t.page.cells| - 1].key, key)
    decreases t
  {
    if t.Node? {
      var n := |t.page.cells|;
      forall j | 0 <= j < n
        ensures Less(t.page.cells[j].key, key)
      {
        SeparatorBelow(t, lo, hi, j, key);
      }
      LowerBoundUnique(t.page.cells, key, n);
      LessIrreflexive(key);
      forall i | 0 <= i < n
        ensures !IsSeparator(t.kids[i], key)
      {
        OutOfRange(t.kids[i], LoOf(t.page, lo, i), HiOf(t.page, hi, i), key);
      }
      forall x | x in Flatten(t.kids[n])
        ensures Less(x.key, key)
      {
        InFlattenAll(t.kids, x);
      }
      BeyondDescends(t.kids[n], LoOf(t.page, lo, n), hi, key);
    }
  }

  /** A separator is no more than some cell on its right. */
  lemma SeparatorBelow(t: Tree, lo: Option<Bytes>, hi: Option<Bytes>, j: nat, key: Bytes)
    requires t.Node? && Shape(t) && Ordered(t, lo, hi) && NoEmptyLeaf(t) && BeyondAll(t, key)
    requires j < |t.page.cells|
    ensures Less(t.page.cells[j].key, key)
  {
    var x := SomeCell(t.kids[j + 1]);
    OrderedFlatten(t.kids[j + 1], LoOf(t.page, lo, j + 1), HiOf(t.page, hi, j + 1));
    InFlattenAll(t.kids, x);
    NotLessTransitive(t.page.cells[j].key, x.key, key);
  }

  lemma SomeCell(t: Tree) returns (x: Cell)
    requires Shape(t) && NoEmptyLeaf(t)
    ensures x in Flatten(t)
    decreases t
  {
    if t.Leaf? {
      x := t.page.cells[0];
    } else {
      x := SomeCell(t.kids[0]);
      InFlattenAll(t.kids, x);
    }
  }

  lemma AppendUpsert(cells: seq<Cell>, c: Cell)
    requires forall x :: x in cells ==> Less(x.key, c.key)
    ensures Upsert(cells, c) == cells + [c]
  {
    LowerBoundSkip(cells, [], c.key);
    assert cells + [] == cells;
    LessIrreflexive(c.key);
  }

  /** One insertion beyond every key: it appends, and keeps the tree good. */
  lemma AppendStep(t: Tree, c: Cell, next: nat)
    requires Good(t, next) && c.Size() <= 206 && next + 2 < 0x1_0000_0000
    requires BeyondAll(t, c.key) && NoInternalOverflow(t, c)
    requires t.Leaf? && t.page.cells == [] ==> t.page.Takes(c)
    ensures FitsTop(t, c)
    ensures Good(InsertTop(t, c, next, next + 1), NextId(t, c, next))
    ensures NoEmptyLeaf(InsertTop(t, c, next, next + 1))
    ensures Flatten(InsertTop(t, c, next, next + 1)) == Flatten(t) + [c]
  {
    LessIrreflexive(c.key);
    if NoEmptyLeaf(t) {
      BeyondDescends(t, None, None, c.key);
    }
    SmallFits(t, None, None, c);
    if t.Leaf? && Splits(t, c) {
      LeafSmall(t, c, next, 206);
    }
    InsertKeepsGood(t, c, next);
    AppendUpsert(Flatten(t), c);
  }

  /** Every insertion of the run finds room for its separator in the parent page: the run ends
      before the first internal page that overflows. */
  ghost predicate NoOverflowInRun(t: Tree, cs: seq<Cell>, next: nat)
    decreases |cs|
  {
    cs == [] ||
    (Links(t) && next + 2 < 0x1_0000_0000 && NoInternalOverflow(t, cs[0])
     && (FitsTop(t, cs[0]) ==>
           NoOverflowInRun(InsertTop(t, cs[0], next, next + 1), cs[1..], NextId(t, cs[0], next))))
  }

  /** The run, which stops at an insertion that leaves the modelled paths. */
  function RunInserts(t: Tree, cs: seq<Cell>, next: nat): Tree
    decreases |cs|
  {
    if cs == [] || !Links(t) || next + 2 >= 0x1_0000_0000 || !FitsTop(t, cs[0]) then t
    else RunInserts(InsertTop(t, cs[0], next, next + 1), cs[1..], NextId(t, cs[0], next))
  }

  lemma NextIsBeyond(cells: seq<Cell>, c: Cell, key: Bytes)
    requires forall x :: x in cells ==> Less(x.key, c.key)
    requires Less(c.key, key)
    ensures forall x :: x in cells + [c] ==> Less(x.key, key)
  {
    forall x | x in cells + [c]
      ensures Less(x.key, key)
    {
      if x in cells {
        LessTransitive(x.key, c.key, key);
      }
    }
  }

  lemma Regroup(cells: seq<Cell>, cs: seq<Cell>)
    requires cs != []
    ensures cells + [cs[0]] + cs[1..] == cells + cs
  {
  }

  lemma SortedTail(cs: seq<Cell>)
    requires Sorted(cs) && SizesAtMost(cs, 206) && cs != []
    ensures Sorted(cs[1..]) && SizesAtMost(cs[1..], 206) && cs[0].Size() <= 206 && cs == [cs[0]] + cs[1..]
  {
    assert cs[0] in cs;
    assert forall x :: x in cs[1..] ==> x in cs;
  }

  lemma {:induction false} AscendingRunFrom(t: Tree, cs: seq<Cell>, next: nat) returns (last: nat)
    requires Good(t, next) && Ascending(cs) && SizesAtMost(cs, 206) && NoOverflowInRun(t, cs, next)
    requires cs != [] ==> BeyondAll(t, cs[0].key)
    requires t.Leaf? && t.page.cells == [] ==> t.page.content == PAGE_SIZE
    ensures var t' := RunInserts(t, cs, next);
            Good(t', last) && Flatten(t') == Flatten(t) + cs && (cs != [] ==> NoEmptyLeaf(t'))
    decreases |cs|
  {
    last := next;
    if cs != [] {
      SortedTail(cs);
      AppendStep(t, cs[0], next);
      var t1 := InsertTop(t, cs[0], next, next + 1);
      if |cs| > 1 {
        NextIsBeyond(Flatten(t), cs[0], cs[1].key);
      }
      Regroup(Flatten(t), cs);
      last := AscendingRunFrom(t1, cs[1..], NextId(t, cs[0], next));
    }
  }

  function EmptyRoot(id: uint32): Tree { Leaf(id, View(LEAF, [], INVALID_PAGE, PAGE_SIZE)) }

  /** Every run of insertions with strictly ascending keys and cells of at most 206 bytes, from
      an empty root leaf up to the first internal-page overflow: the tree stays ordered with no
      empty leaf, its cells are the inserted pairs in order, and Get finds exactly the inserted
      pairs whose key no split promoted to a separator. */
  lemma AscendingRun(root: uint32, cs: seq<Cell>, next: nat, key: Bytes, value: Bytes)
    requires root < next && Ascending(cs) && SizesAtMost(cs, 206)
    requires NoOverflowInRun(EmptyRoot(root), cs, next)
    ensures var t := RunInserts(EmptyRoot(root), cs, next);
            && Links(t) && Shape(t) && Ordered(t, None, None) && (cs != [] ==> NoEmptyLeaf(t))
            && Flatten(t) == cs
            && (Lookup(t, key) == Some(value) <==>
                (exists c :: c in cs && c.key == key && c.value == value) && !IsSeparator(t, key))
  {
    var last := AscendingRunFrom(EmptyRoot(root), cs, next);
    var t := RunInserts(EmptyRoot(root), cs, next);
    assert [] + cs == cs;
    LookupExact(t, None, None, key, value);
  }
}
