/** Insertion into a B-tree as a function of the tree, with the exact condition under which it
    keeps the order (btree.go:106-246, 502-568). */
module TreeInsert {
  import opened Bytes
  import opened Wrappers
  import opened Pages
  import opened PageOps
  import opened Trees

  // ----- Sizes -----

  lemma {:induction false} TotalSizeAppend(a: seq<Cell>, b: seq<Cell>)
    ensures TotalSize(a + b) == TotalSize(a) + TotalSize(b)
  {
    if b == [] {
      assert a + b == a;
    } else {
      var n := |b| - 1;
      TotalSizeAppend(a, b[..n]);
      assert (a + b)[..|a + b| - 1] == a + b[..n];
    }
  }

  lemma TotalSizeInsert(cells: seq<Cell>, c: Cell, n: nat)
    requires n <= |cells|
    ensures TotalSize(cells[..n] + [c] + cells[n..]) == TotalSize(cells) + c.Size()
  {
    assert [c][..0] == [];
    TotalSizeAppend(cells[..n], [c]);
    TotalSizeAppend(cells[..n] + [c], cells[n..]);
    TotalSizeAppend(cells[..n], cells[n..]);
    assert cells == cells[..n] + cells[n..];
  }

  lemma TotalSizeReplace(cells: seq<Cell>, c: Cell, n: nat)
    requires n < |cells|
    ensures TotalSize(cells[n := c]) == TotalSize(cells) - cells[n].Size() + c.Size()
  {
    var rest := cells[..n] + cells[n + 1..];
    TotalSizeInsert(rest, c, n);
    TotalSizeInsert(rest, cells[n], n);
    assert rest[..n] + [c] + rest[n..] == cells[n := c];
    assert rest[..n] + [cells[n]] + rest[n..] == cells;
  }

  // ----- Insertion into the ordered sequence of cells -----

  /** What inserting or updating means for the cells in order. */
  function Upsert(cells: seq<Cell>, c: Cell): seq<Cell> {
    var n := LowerBound(cells, c.key);
    if HasKey(cells, c.key) && n < |cells| then cells[n := c] else cells[..n] + [c] + cells[n..]
  }

  lemma {:induction false} LowerBoundSkip(a: seq<Cell>, b: seq<Cell>, key: Bytes)
    requires forall x :: x in a ==> Less(x.key, key)
    ensures LowerBound(a + b, key) == |a| + LowerBound(b, key)
  {
    if a == [] {
      assert a + b == b;
    } else {
      LowerBoundSkip(a[1..], b, key);
      assert a[0] in a;
      KeyCmpIsLess(key, a[0].key);
      assert (a + b)[1..] == a[1..] + b;
    }
  }

  lemma {:induction false} LowerBoundStop(b: seq<Cell>, d: seq<Cell>, key: Bytes)
    requires forall x :: x in d ==> Less(key, x.key)
    ensures LowerBound(b + d, key) == LowerBound(b, key)
  {
    if b == [] {
      assert b + d == d;
      if d != [] {
        assert d[0] in d;
        KeyCmpIsLess(key, d[0].key);
      }
    } else {
      LowerBoundStop(b[1..], d, key);
      assert (b + d)[1..] == b[1..] + d;
    }
  }

  lemma HasKeyAround(a: seq<Cell>, b: seq<Cell>, d: seq<Cell>, key: Bytes)
    requires forall x :: x in a ==> Less(x.key, key)
    requires forall x :: x in d ==> Less(key, x.key)
    ensures HasKey(a + b + d, key) <==> HasKey(b, key)
  {
    LessIrreflexive(key);
    var all := a + b + d;
    if HasKey(all, key) {
      var x :| x in all && x.key == key;
      assert x in a || x in b || x in d;
      assert x in b;
    }
    if HasKey(b, key) {
      var i :| 0 <= i < |b| && b[i].key == key;
      assert all[|a| + i].key == key;
    }
  }

  lemma EditMiddle<T>(a: seq<T>, b: seq<T>, d: seq<T>, n: nat, x: T)
    requires n <= |b|
    ensures n < |b| ==> (a + b + d)[|a| + n := x] == a + b[n := x] + d
    ensures (a + b + d)[..|a| + n] + [x] + (a + b + d)[|a| + n..] == a + (b[..n] + [x] + b[n..]) + d
  {
    assert (a + b + d)[..|a| + n] == a + b[..n];
    assert (a + b + d)[|a| + n..] == b[n..] + d;
  }

  /** Smaller cells before and larger cells after do not take part. */
  lemma UpsertAround(a: seq<Cell>, b: seq<Cell>, d: seq<Cell>, c: Cell)
    requires forall x :: x in a ==> Less(x.key, c.key)
    requires forall x :: x in d ==> Less(c.key, x.key)
    ensures Upsert(a + b + d, c) == a + Upsert(b, c) + d
  {
    LowerBoundSkip(a, b + d, c.key);
    LowerBoundStop(b, d, c.key);
    assert a + b + d == a + (b + d);
    HasKeyAround(a, b, d, c.key);
    HasKeyBounds(b, c.key);
    EditMiddle(a, b, d, LowerBound(b, c.key), c);
  }

  lemma HasKeyBounds(cells: seq<Cell>, key: Bytes)
    ensures HasKey(cells, key) ==> LowerBound(cells, key) < |cells|
  {
    if HasKey(cells, key) && LowerBound(cells, key) == |cells| {
      var i :| 0 <= i < |cells| && cells[i].key == key;
      AllBelowLowerBound(cells, key, i);
      LessIrreflexive(key);
    }
  }

  lemma {:induction false} AllBelowLowerBound(cells: seq<Cell>, key: Bytes, i: nat)
    requires i < LowerBound(cells, key)
    ensures Less(cells[i].key, key)
  {
    KeyCmpIsLess(key, cells[0].key);
    if i > 0 {
      AllBelowLowerBound(cells[1..], key, i - 1);
    }
  }

  lemma UpsertSorted(cells: seq<Cell>, c: Cell)
    requires Sorted(cells)
    ensures Sorted(Upsert(cells, c))
    ensures forall x :: x in Upsert(cells, c) ==> x in cells || x == c
    ensures c in Upsert(cells, c)
  {
    LowerBoundSorted(cells, c.key);
    var n := LowerBound(cells, c.key);
    assert Upsert(cells, c)[n] == c;
  }

  // ----- Splitting a leaf -----

  /** A page written from empty by appending the cells one by one. */
  function Packed(ptype: byte, cells: seq<Cell>, right: uint32): View
    requires CanPack(cells)
  {
    View(ptype, cells, right, PAGE_SIZE - TotalSize(cells))
  }

  /** An empty page takes all the cells. */
  predicate CanPack(cells: seq<Cell>) {
    PAGE_HEADER_SIZE + 2 * |cells| + TotalSize(cells) <= PAGE_SIZE
  }

  /** splitLeaf halves the cells by count. */
  predicate HalvesFit(cells: seq<Cell>) {
    CanPack(cells[..|cells| / 2]) && CanPack(cells[|cells| / 2..])
  }

  datatype Outcome = Kept(t: Tree) | Split(left: Tree, sep: Cell, right: Tree)

  // ----- Insertion -----

  /** The leaf this insertion reaches overflows. */
  predicate Splits(t: Tree, c: Cell)
    requires Links(t)
    decreases t
  {
    match t
    case Leaf(_, page) => !HasKey(page.cells, c.key) && !page.Takes(c)
    case Node(_, _, kids) => Splits(kids[ChildIndex(t, c.key)], c)
  }

  /** The leaf this insertion reaches is the rightmost child of its parent, or the root. */
  predicate ReachesRightmost(t: Tree, key: Bytes)
    requires Links(t)
    decreases t
  {
    match t
    case Leaf(_, _) => true
    case Node(_, page, kids) =>
      var i := ChildIndex(t, key);
      if kids[i].Leaf? then i == |page.cells| else ReachesRightmost(kids[i], key)
  }

  /** The insertion stays on the paths modelled here: an update does not grow its cell, a split
      leaf is not empty and its halves fit, and the parent of a split leaf takes the separator. */
  predicate Fits(t: Tree, c: Cell)
    requires Links(t)
    decreases t
  {
    match t
    case Leaf(_, page) =>
      var n := LowerBound(page.cells, c.key);
      if HasKey(page.cells, c.key) then n < |page.cells| && c.Size() <= page.cells[n].Size()
      else page.Takes(c) || (page.cells != [] && HalvesFit(Upsert(page.cells, c)))
    case Node(_, page, kids) =>
      var i := ChildIndex(t, c.key);
      && Fits(kids[i], c)
      && (kids[i].Leaf? && Splits(kids[i], c) ==>
            var all := Upsert(kids[i].page.cells, c);
            page.Takes(all[|all| / 2]))
  }

  /** insertLeaf and, below it, splitLeaf; newId is the page AllocatePage returns. */
  function InsertIntoLeaf(t: Tree, c: Cell, newId: uint32): Outcome
    requires t.Leaf? && Fits(t, c)
  {
    var page := t.page;
    var n := LowerBound(page.cells, c.key);
    if HasKey(page.cells, c.key) then Kept(Leaf(t.id, page.(cells := page.cells[n := c])))
    else if page.Takes(c) then Kept(Leaf(t.id, page.InsertAt(c, n)))
    else
      var all := Upsert(page.cells, c);
      var mid := |all| / 2;
      Split(Leaf(t.id, Packed(page.ptype, all[..mid], page.right)), all[mid],
            Leaf(newId, Packed(LEAF, all[mid..], INVALID_PAGE)))
  }

  /** The parent of a split child: its pointer to the child now leads to the right half, and a
      cell for the left half goes last in the slot array, wherever the child was. */
  function AddSeparator(t: Tree, i: nat, s: Outcome): Tree
    requires t.Node? && |t.kids| == |t.page.cells| + 1 && i < |t.kids|
    requires s.Split? && t.page.Takes(s.sep)
  {
    var n := |t.page.cells|;
    var sep := Cell(s.left.id, s.sep.key, s.sep.value);
    if i == n then
      Node(t.id, t.page.(right := s.right.id).InsertAt(sep, n), t.kids[..n] + [s.left, s.right])
    else
      var cells := t.page.cells[i := t.page.cells[i].(leftPtr := s.right.id)];
      Node(t.id, t.page.(cells := cells).InsertAt(sep, n),
           t.kids[i := s.right][..n] + [s.left, t.kids[n]])
  }

  /** insertInto */
  function InsertTree(t: Tree, c: Cell, newId: uint32): (r: Outcome)
    requires Links(t) && Fits(t, c)
    ensures t.Node? ==> r.Kept?
    ensures t.Leaf? ==> (r.Split? <==> Splits(t, c))
    ensures r.Split? ==> var all := Upsert(t.page.cells, c);
                         r.sep == all[|all| / 2] && r.left.id == t.id && r.right.id == newId
    decreases t
  {
    match t
    case Leaf(_, _) => InsertIntoLeaf(t, c, newId)
    case Node(id, page, kids) =>
      var i := ChildIndex(t, c.key);
      match InsertTree(kids[i], c, newId)
      case Kept(k) => Kept(Node(id, page, kids[i := k]))
      case Split(left, sep, right) => Kept(AddSeparator(t, i, Split(left, sep, right)))
  }

  /** A root page for the two halves of a split root. */
  function NewRoot(s: Outcome, id: uint32): Tree
    requires s.Split? && s.sep.Size() + 2 + PAGE_HEADER_SIZE <= PAGE_SIZE
  {
    var sep := Cell(s.left.id, s.sep.key, s.sep.value);
    Node(id, View(INTERNAL, [sep], s.right.id, PAGE_SIZE - sep.Size()), [s.left, s.right])
  }

  /** Insert at the root also needs an empty root page to take the separator. */
  predicate FitsTop(t: Tree, c: Cell)
    requires Links(t)
  {
    Fits(t, c) && (t.Leaf? && Splits(t, c) ==>
      var all := Upsert(t.page.cells, c);
      all[|all| / 2].Size() + 2 + PAGE_HEADER_SIZE <= PAGE_SIZE)
  }

  /** BTree.Insert: newId and rootId are the pages allocated for a new leaf and a new root. */
  function InsertTop(t: Tree, c: Cell, newId: uint32, rootId: uint32): Tree
    requires Links(t) && FitsTop(t, c)
  {
    match InsertTree(t, c, newId)
    case Kept(t') => t'
    case Split(left, sep, right) => NewRoot(Split(left, sep, right), rootId)
  }

  // ----- Order -----

  /** The condition a caller can check before inserting. */
  predicate KeepsOrder(t: Tree, c: Cell)
    requires Links(t)
  {
    !IsSeparator(t, c.key) && (Splits(t, c) ==> ReachesRightmost(t, c.key))
  }

  lemma WithinUpsert(lo: Option<Bytes>, cells: seq<Cell>, hi: Option<Bytes>, c: Cell)
    requires Sorted(cells) && Within(lo, cells, hi) && AtLeast(lo, c.key) && Below(c.key, hi)
    ensures Sorted(Upsert(cells, c)) && Within(lo, Upsert(cells, c), hi)
  {
    UpsertSorted(cells, c);
  }

  /** Cutting sorted cells in two at a later position. */
  lemma CutOrdered(all: seq<Cell>, mid: nat, lo: Option<Bytes>, hi: Option<Bytes>)
    requires Sorted(all) && Within(lo, all, hi) && 0 < mid < |all|
    ensures Sorted(all[..mid]) && Within(lo, all[..mid], Some(all[mid].key))
    ensures Sorted(all[mid..]) && Within(Some(all[mid].key), all[mid..], hi)
    ensures MoreThan(lo, all[mid].key) && Below(all[mid].key, hi)
  {
    assert all[mid] in all && all[0] in all;
    if lo.Some? {
      assert Less(all[0].key, all[mid].key);
      NotLessTransitive(lo.value, all[0].key, all[mid].key);
    }
    forall x | x in all[..mid]
      ensures AtLeast(lo, x.key) && Less(x.key, all[mid].key)
    {
      assert x in all;
    }
    forall x | x in all[mid..]
      ensures !Less(x.key, all[mid].key) && Below(x.key, hi)
    {
      assert x in all;
      var j :| 0 <= j < |all[mid..]| && all[mid..][j] == x;
      LessIrreflexive(x.key);
      if j > 0 {
        LessAsymmetric(all[mid].key, x.key);
      }
    }
  }

  lemma LeafOrdered(t: Tree, lo: Option<Bytes>, hi: Option<Bytes>, c: Cell, newId: uint32)
    requires t.Leaf? && Fits(t, c) && Ordered(t, lo, hi)
    requires AtLeast(lo, c.key) && Below(c.key, hi)
    ensures var r := InsertIntoLeaf(t, c, newId);
            if r.Kept? then Ordered(r.t, lo, hi) && Flatten(r.t) == Upsert(Flatten(t), c)
            else
              && Ordered(r.left, lo, Some(r.sep.key)) && Ordered(r.right, Some(r.sep.key), hi)
              && MoreThan(lo, r.sep.key) && Below(r.sep.key, hi)
              && Flatten(r.left) + Flatten(r.right) == Upsert(Flatten(t), c)
  {
    WithinUpsert(lo, t.page.cells, hi, c);
    if !HasKey(t.page.cells, c.key) && !t.page.Takes(c) {
      HalvesOrdered(t, lo, hi, Upsert(t.page.cells, c), newId);
    }
  }

  lemma HalvesOrdered(t: Tree, lo: Option<Bytes>, hi: Option<Bytes>, all: seq<Cell>, newId: uint32)
    requires t.Leaf? && |all| >= 2 && HalvesFit(all) && Sorted(all) && Within(lo, all, hi)
    ensures var mid := |all| / 2;
            var left, right := Leaf(t.id, Packed(t.page.ptype, all[..mid], t.page.right)),
                               Leaf(newId, Packed(LEAF, all[mid..], INVALID_PAGE));
            && Ordered(left, lo, Some(all[mid].key)) && Ordered(right, Some(all[mid].key), hi)
            && MoreThan(lo, all[mid].key) && Below(all[mid].key, hi)
            && Flatten(left) + Flatten(right) == all
  {
    CutOrdered(all, |all| / 2, lo, hi);
    assert all[..|all| / 2] + all[|all| / 2..] == all;
  }

  /** A split child that was not the rightmost leaves the separators out of order. */
  lemma MisplacedSeparator(t: Tree, lo: Option<Bytes>, hi: Option<Bytes>, i: nat, s: Outcome)
    requires t.Node? && Ordered(t, lo, hi) && i < |t.page.cells|
    requires s.Split? && t.page.Takes(s.sep) && !Less(t.page.cells[i].key, s.sep.key)
    ensures !Ordered(AddSeparator(t, i, s), lo, hi)
  {
    var n := |t.page.cells|;
    var seps := t.page.cells;
    var cells' := AddSeparator(t, i, s).page.cells;
    assert cells'[n - 1].key == seps[n - 1].key && cells'[n].key == s.sep.key;
    if Less(seps[n - 1].key, s.sep.key) {
      if i < n - 1 {
        LessTransitive(seps[i].key, seps[n - 1].key, s.sep.key);
      }
    }
  }

  lemma SortedPush(cells: seq<Cell>, c: Cell)
    requires Sorted(cells) && cells != [] && Less(cells[|cells| - 1].key, c.key)
    ensures Sorted(cells + [c])
  {
    forall i | 0 <= i < |cells|
      ensures Less(cells[i].key, c.key)
    {
      if i < |cells| - 1 {
        LessTransitive(cells[i].key, cells[|cells| - 1].key, c.key);
      }
    }
  }

  lemma AppendedSeparator(t: Tree, lo: Option<Bytes>, hi: Option<Bytes>, s: Outcome)
    requires t.Node? && Ordered(t, lo, hi) && |t.page.cells| >= 1
    requires s.Split? && t.page.Takes(s.sep)
    requires var n := |t.page.cells|;
             && Ordered(s.left, LoOf(t.page, lo, n), Some(s.sep.key))
             && Ordered(s.right, Some(s.sep.key), hi)
             && MoreThan(LoOf(t.page, lo, n), s.sep.key) && Below(s.sep.key, hi)
    ensures Ordered(AddSeparator(t, |t.page.cells|, s), lo, hi)
  {
    var n := |t.page.cells|;
    AppendedKids(t, lo, hi, s);
    SortedPush(t.page.cells, Cell(s.left.id, s.sep.key, s.sep.value));
    assert AddSeparator(t, n, s).page.cells == t.page.cells + [Cell(s.left.id, s.sep.key, s.sep.value)];
    if lo.Some? {
      LessTransitive(lo.value, t.page.cells[n - 1].key, s.sep.key);
    }
  }

  lemma AppendedKids(t: Tree, lo: Option<Bytes>, hi: Option<Bytes>, s: Outcome)
    requires t.Node? && Ordered(t, lo, hi) && s.Split? && t.page.Takes(s.sep)
    requires Ordered(s.left, LoOf(t.page, lo, |t.page.cells|), Some(s.sep.key))
    requires Ordered(s.right, Some(s.sep.key), hi)
    ensures var t' := AddSeparator(t, |t.page.cells|, s);
            && |t'.kids| == |t'.page.cells| + 1
            && forall i :: 0 <= i < |t'.kids| ==> Ordered(t'.kids[i], LoOf(t'.page, lo, i), HiOf(t'.page, hi, i))
  {
    var n := |t.page.cells|;
    var t' := AddSeparator(t, n, s);
    assert t'.page.cells == t.page.cells + [Cell(s.left.id, s.sep.key, s.sep.value)];
    forall i | 0 <= i < |t'.kids|
      ensures Ordered(t'.kids[i], LoOf(t'.page, lo, i), HiOf(t'.page, hi, i))
    {
      assert LoOf(t.page, lo, n) == LoOf(t'.page, lo, n);
      if i < n {
        assert t'.kids[i] == t.kids[i];
        assert LoOf(t'.page, lo, i) == LoOf(t.page, lo, i) && HiOf(t'.page, hi, i) == HiOf(t.page, hi, i);
      }
    }
  }

  lemma AppendedFlatten(t: Tree, s: Outcome)
    requires t.Node? && |t.kids| == |t.page.cells| + 1 && s.Split? && t.page.Takes(s.sep)
    ensures Flatten(AddSeparator(t, |t.page.cells|, s))
            == FlattenAll(t.kids[..|t.page.cells|]) + (Flatten(s.left) + Flatten(s.right))
  {
    FlattenAppend(t.kids[..|t.page.cells|], [s.left, s.right]);
    FlattenAppend([s.left], [s.right]);
    FlattenOne(s.left);
    FlattenOne(s.right);
    assert [s.left, s.right] == [s.left] + [s.right];
  }

  lemma ReplacedKid(t: Tree, lo: Option<Bytes>, hi: Option<Bytes>, i: nat, k: Tree)
    requires t.Node? && Ordered(t, lo, hi) && i < |t.kids|
    ensures Ordered(Node(t.id, t.page, t.kids[i := k]), lo, hi)
            <==> Ordered(k, LoOf(t.page, lo, i), HiOf(t.page, hi, i))
    ensures Flatten(Node(t.id, t.page, t.kids[i := k]))
            == FlattenAll(t.kids[..i]) + Flatten(k) + FlattenAll(t.kids[i + 1..])
  {
    var t' := Node(t.id, t.page, t.kids[i := k]);
    FlattenAround(t'.kids, i);
    assert t'.kids[..i] == t.kids[..i] && t'.kids[i + 1..] == t.kids[i + 1..];
    if Ordered(t', lo, hi) {
      assert Ordered(t'.kids[i], LoOf(t.page, lo, i), HiOf(t.page, hi, i));
    }
  }

  /** An insertion leaves the key in the tree. */
  lemma {:induction false} InsertLands(t: Tree, c: Cell, newId: uint32)
    requires Links(t) && Fits(t, c)
    ensures InsertTree(t, c, newId).Kept? ==> exists x :: x in Flatten(InsertTree(t, c, newId).t) && x.key == c.key
    decreases t
  {
    match t
    case Leaf(_, page) =>
      if !Splits(t, c) {
        var n := LowerBound(page.cells, c.key);
        assert InsertTree(t, c, newId).t.page.cells[n] == c;
      }
    case Node(_, page, kids) =>
      var i := ChildIndex(t, c.key);
      InsertLands(kids[i], c, newId);
      var r := InsertTree(kids[i], c, newId);
      if r.Kept? {
        var x :| x in Flatten(r.t) && x.key == c.key;
        assert kids[i := r.t][i] == r.t;
        InFlattenAll(kids[i := r.t], x);
      } else {
        SplitLands(kids[i], c, newId);
        var x :| (x in Flatten(r.left) || x in Flatten(r.right)) && x.key == c.key;
        var t' := AddSeparator(t, i, r);
        var n := |page.cells|;
        assert t'.kids[n] == r.left;
        assert i == n ==> t'.kids[n + 1] == r.right;
        assert i < n ==> t'.kids[i] == r.right;
        InFlattenAll(t'.kids, x);
      }
  }

  lemma SplitLands(t: Tree, c: Cell, newId: uint32)
    requires t.Leaf? && Fits(t, c) && Splits(t, c)
    ensures var r := InsertTree(t, c, newId);
            exists x :: (x in Flatten(r.left) || x in Flatten(r.right)) && x.key == c.key
  {
    var all := Upsert(t.page.cells, c);
    var n := LowerBound(t.page.cells, c.key);
    assert all[n] == c;
    var mid := |all| / 2;
    assert all == all[..mid] + all[mid..];
    assert c in all[..mid] || c in all[mid..];
  }

  /** The step of InsertExact at an internal page whose child overflowed. */
  lemma InsertSplitKid(t: Tree, lo: Option<Bytes>, hi: Option<Bytes>, c: Cell, newId: uint32)
    requires t.Node? && Shape(t) && Links(t) && Ordered(t, lo, hi) && Fits(t, c)
    requires AtLeast(lo, c.key) && Below(c.key, hi) && !HasKey(t.page.cells, c.key)
    requires InsertTree(t.kids[ChildIndex(t, c.key)], c, newId).Split?
    ensures var r := InsertTree(t, c, newId);
            if ChildIndex(t, c.key) < |t.page.cells| then !Ordered(r.t, lo, hi)
            else Ordered(r.t, lo, hi) && Flatten(r.t) == Upsert(Flatten(t), c)
  {
    var i := ChildIndex(t, c.key);
    var kid := t.kids[i];
    var s := InsertTree(kid, c, newId);
    DescentRange(t, lo, hi, c.key);
    LeafOrdered(kid, LoOf(t.page, lo, i), HiOf(t.page, hi, i), c, newId);
    if i < |t.page.cells| {
      LessAsymmetric(s.sep.key, t.page.cells[i].key);
      MisplacedSeparator(t, lo, hi, i, s);
    } else {
      AppendedSeparator(t, lo, hi, s);
      AppendedFlatten(t, s);
      UpsertInKid(t, lo, hi, c);
      assert t.kids[i + 1..] == [];
    }
  }

  /** Inserting into an ordered tree gives an ordered tree exactly when the key is not already a
      separator and the leaf reached does not split unless it is its parent's rightmost child;
      the cells of the result are then the old ones with c inserted, or replaced, in order. */
  lemma {:induction false} InsertExact(t: Tree, lo: Option<Bytes>, hi: Option<Bytes>, c: Cell, newId: uint32)
    requires Shape(t) && Links(t) && Ordered(t, lo, hi) && Fits(t, c)
    requires AtLeast(lo, c.key) && Below(c.key, hi)
    ensures var r := InsertTree(t, c, newId);
            r.Kept? ==>
              && (Ordered(r.t, lo, hi) <==> KeepsOrder(t, c))
              && (KeepsOrder(t, c) ==> Flatten(r.t) == Upsert(Flatten(t), c))
    decreases t
  {
    if t.Leaf? {
      LeafOrdered(t, lo, hi, c, newId);
    } else if HasKey(t.page.cells, c.key) {
      SeparatorHit(t, lo, hi, c, newId);
    } else {
      var i := ChildIndex(t, c.key);
      if InsertTree(t.kids[i], c, newId).Kept? {
        DescentRange(t, lo, hi, c.key);
        InsertExact(t.kids[i], LoOf(t.page, lo, i), HiOf(t.page, hi, i), c, newId);
        InsertKeptKid(t, lo, hi, c, newId);
      } else {
        InsertSplitKid(t, lo, hi, c, newId);
        LeafKidKeepsOrder(t, lo, hi, c);
      }
    }
  }

  /** The step of InsertExact at an internal page whose child kept its page. */
  lemma InsertKeptKid(t: Tree, lo: Option<Bytes>, hi: Option<Bytes>, c: Cell, newId: uint32)
    requires t.Node? && Links(t) && Ordered(t, lo, hi) && Fits(t, c)
    requires AtLeast(lo, c.key) && Below(c.key, hi) && !HasKey(t.page.cells, c.key)
    requires var i := ChildIndex(t, c.key);
             var r := InsertTree(t.kids[i], c, newId);
             && r.Kept?
             && (Ordered(r.t, LoOf(t.page, lo, i), HiOf(t.page, hi, i)) <==> KeepsOrder(t.kids[i], c))
             && (KeepsOrder(t.kids[i], c) ==> Flatten(r.t) == Upsert(Flatten(t.kids[i]), c))
    ensures var r := InsertTree(t, c, newId);
            && (Ordered(r.t, lo, hi) <==> KeepsOrder(t, c))
            && (KeepsOrder(t, c) ==> Flatten(r.t) == Upsert(Flatten(t), c))
  {
    var i := ChildIndex(t, c.key);
    DescentRange(t, lo, hi, c.key);
    ReplacedKid(t, lo, hi, i, InsertTree(t.kids[i], c, newId).t);
    UpsertInKid(t, lo, hi, c);
    KeepsOrderInKid(t, i, c);
  }

  lemma LeafKidKeepsOrder(t: Tree, lo: Option<Bytes>, hi: Option<Bytes>, c: Cell)
    requires t.Node? && Links(t) && Ordered(t, lo, hi)
    requires AtLeast(lo, c.key) && Below(c.key, hi) && !HasKey(t.page.cells, c.key)
    requires t.kids[ChildIndex(t, c.key)].Leaf? && Splits(t.kids[ChildIndex(t, c.key)], c)
    ensures KeepsOrder(t, c) <==> ChildIndex(t, c.key) == |t.page.cells|
  {
    var i := ChildIndex(t, c.key);
    DescentRange(t, lo, hi, c.key);
    assert !IsSeparator(t.kids[i], c.key);
    assert !IsSeparator(t, c.key);
    LowerBoundSorted(t.page.cells, c.key);
  }

  lemma KeepsOrderInKid(t: Tree, i: nat, c: Cell)
    requires t.Node? && Links(t) && i == ChildIndex(t, c.key) && !HasKey(t.page.cells, c.key)
    requires forall k :: 0 <= k < |t.kids| && k != i ==> !IsSeparator(t.kids[k], c.key)
    requires t.kids[i].Leaf? ==> !Splits(t.kids[i], c)
    ensures KeepsOrder(t, c) <==> KeepsOrder(t.kids[i], c)
  {
  }

  /** Only the cells of the chosen child take part. */
  lemma UpsertInKid(t: Tree, lo: Option<Bytes>, hi: Option<Bytes>, c: Cell)
    requires t.Node? && Ordered(t, lo, hi) && !HasKey(t.page.cells, c.key)
    ensures var i := ChildIndex(t, c.key);
            Upsert(Flatten(t), c)
            == FlattenAll(t.kids[..i]) + Upsert(Flatten(t.kids[i]), c) + FlattenAll(t.kids[i + 1..])
  {
    var i := ChildIndex(t, c.key);
    AroundKid(t, lo, hi, c.key);
    FlattenAround(t.kids, i);
    UpsertAround(FlattenAll(t.kids[..i]), Flatten(t.kids[i]), FlattenAll(t.kids[i + 1..]), c);
  }

  /** Inserting a key that is a separator of this page puts it to the left of itself. */
  lemma SeparatorHit(t: Tree, lo: Option<Bytes>, hi: Option<Bytes>, c: Cell, newId: uint32)
    requires t.Node? && Shape(t) && Links(t) && Ordered(t, lo, hi) && Fits(t, c)
    requires HasKey(t.page.cells, c.key)
    ensures !Ordered(InsertTree(t, c, newId).t, lo, hi)
  {
    var i := ChildIndex(t, c.key);
    LowerBoundSorted(t.page.cells, c.key);
    var kid := t.kids[i];
    var lo' := LoOf(t.page, lo, i);
    var r := InsertTree(kid, c, newId);
    LessIrreflexive(c.key);
    if r.Kept? {
      InsertLands(kid, c, newId);
      ReplacedKid(t, lo, hi, i, r.t);
      if Ordered(r.t, lo', Some(c.key)) {
        OrderedFlatten(r.t, lo', Some(c.key));
      }
    } else {
      UpsertSorted(kid.page.cells, c);
      var all := Upsert(kid.page.cells, c);
      assert r.sep in all;
      if r.sep != c {
        LessAsymmetric(r.sep.key, c.key);
      }
      MisplacedSeparator(t, lo, hi, i, r);
    }
  }
}
