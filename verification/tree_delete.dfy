/** Deletion of a key that is not a separator (btree.go:285-337, 570-575). */
module TreeDelete {
  import opened Bytes
  import opened Wrappers
  import opened Pages
  import opened PageOps
  import opened Trees
  import opened TreeInsert

  /** The cells without the one that has this key. */
  function Without(cells: seq<Cell>, key: Bytes): seq<Cell> {
    var n := LowerBound(cells, key);
    if HasKey(cells, key) && n < |cells| then cells[..n] + cells[n + 1..] else cells
  }

  /** deleteFrom on the paths that meet no separator equal to the key. */
  function DeleteFromTree(t: Tree, key: Bytes): Tree
    requires Links(t)
    decreases t
  {
    match t
    case Leaf(id, page) =>
      var n := LowerBound(page.cells, key);
      if HasKey(page.cells, key) && n < |page.cells| then Leaf(id, page.RemoveAt(n)) else t
    case Node(id, page, kids) =>
      var i := ChildIndex(t, key);
      Node(id, page, kids[i := DeleteFromTree(kids[i], key)])
  }

  lemma WithoutAround(a: seq<Cell>, b: seq<Cell>, d: seq<Cell>, key: Bytes)
    requires forall x :: x in a ==> Less(x.key, key)
    requires forall x :: x in d ==> Less(key, x.key)
    ensures Without(a + b + d, key) == a + Without(b, key) + d
  {
    LowerBoundSkip(a, b + d, key);
    LowerBoundStop(b, d, key);
    assert a + b + d == a + (b + d);
    HasKeyAround(a, b, d, key);
    HasKeyBounds(b, key);
    RemoveMiddle(a, b, d, LowerBound(b, key));
  }

  lemma RemoveMiddle<T>(a: seq<T>, b: seq<T>, d: seq<T>, n: nat)
    ensures n < |b| ==> (a + b + d)[..|a| + n] + (a + b + d)[|a| + n + 1..] == a + (b[..n] + b[n + 1..]) + d
  {
    if n < |b| {
      assert (a + b + d)[..|a| + n] == a + b[..n];
      assert (a + b + d)[|a| + n + 1..] == b[n + 1..] + d;
    }
  }

  lemma WithoutSorted(cells: seq<Cell>, key: Bytes)
    requires Sorted(cells)
    ensures Sorted(Without(cells, key))
    ensures forall x :: x in Without(cells, key) <==> x in cells && x.key != key
  {
    LowerBoundSorted(cells, key);
    var n := LowerBound(cells, key);
    LessIrreflexive(key);
    forall x | x in cells && x.key != key
      ensures x in Without(cells, key)
    {
      var i :| 0 <= i < |cells| && cells[i] == x;
      assert i < n ==> cells[..n][i] == x;
      assert HasKey(cells, key) && i > n ==> cells[n + 1..][i - n - 1] == x;
    }
    forall x | x in Without(cells, key)
      ensures x in cells && x.key != key
    {
      if HasKey(cells, key) {
        assert x in cells[..n] || x in cells[n + 1..];
      }
    }
  }

  lemma DeleteLeaf(t: Tree, lo: Option<Bytes>, hi: Option<Bytes>, key: Bytes)
    requires t.Leaf? && Shape(t) && Ordered(t, lo, hi)
    ensures Ordered(DeleteFromTree(t, key), lo, hi) && Flatten(DeleteFromTree(t, key)) == Without(Flatten(t), key)
    ensures Shape(DeleteFromTree(t, key))
  {
    WithoutSorted(t.page.cells, key);
    WithoutSize(t.page.cells, key);
  }

  lemma WithoutSize(cells: seq<Cell>, key: Bytes)
    ensures TotalSize(Without(cells, key)) <= TotalSize(cells)
    ensures |Without(cells, key)| <= |cells|
  {
    var n := LowerBound(cells, key);
    if n < |cells| {
      TotalSizeParts(cells, cells[..n], cells[n], cells[n + 1..]);
    }
  }

  lemma TotalSizeParts(cells: seq<Cell>, a: seq<Cell>, c: Cell, b: seq<Cell>)
    requires cells == a + [c] + b
    ensures TotalSize(cells) >= TotalSize(a + b)
  {
    TotalSizeAppend(a + [c], b);
    TotalSizeAppend(a, [c]);
    TotalSizeAppend(a, b);
  }

  lemma DeleteInKid(t: Tree, lo: Option<Bytes>, hi: Option<Bytes>, key: Bytes)
    requires t.Node? && Links(t) && Ordered(t, lo, hi) && !HasKey(t.page.cells, key)
    requires var i := ChildIndex(t, key);
             && Ordered(DeleteFromTree(t.kids[i], key), LoOf(t.page, lo, i), HiOf(t.page, hi, i))
             && Flatten(DeleteFromTree(t.kids[i], key)) == Without(Flatten(t.kids[i]), key)
    ensures Ordered(DeleteFromTree(t, key), lo, hi) && Flatten(DeleteFromTree(t, key)) == Without(Flatten(t), key)
  {
    var i := ChildIndex(t, key);
    ReplacedKid(t, lo, hi, i, DeleteFromTree(t.kids[i], key));
    AroundKid(t, lo, hi, key);
    WithoutAround(FlattenAll(t.kids[..i]), Flatten(t.kids[i]), FlattenAll(t.kids[i + 1..]), key);
    FlattenAround(t.kids, i);
  }

  /** Deleting a key that is no separator keeps the order and the shape and takes exactly that
      key's cell out. */
  lemma {:induction false} DeleteExact(t: Tree, lo: Option<Bytes>, hi: Option<Bytes>, key: Bytes)
    requires Shape(t) && Links(t) && Ordered(t, lo, hi) && AtLeast(lo, key) && Below(key, hi)
    requires !IsSeparator(t, key)
    ensures Ordered(DeleteFromTree(t, key), lo, hi) && Flatten(DeleteFromTree(t, key)) == Without(Flatten(t), key)
    ensures Shape(DeleteFromTree(t, key)) && DeleteFromTree(t, key).id == t.id
    decreases t
  {
    if t.Leaf? {
      DeleteLeaf(t, lo, hi, key);
    } else {
      var i := ChildIndex(t, key);
      DescentRange(t, lo, hi, key);
      DeleteExact(t.kids[i], LoOf(t.page, lo, i), HiOf(t.page, hi, i), key);
      DeleteInKid(t, lo, hi, key);
      ReplacedShape(t, i, DeleteFromTree(t.kids[i], key));
    }
  }

  lemma ReplacedShape(t: Tree, i: nat, k: Tree)
    requires t.Node? && Shape(t) && i < |t.kids| && Shape(k) && k.id == t.kids[i].id
    ensures Shape(Node(t.id, t.page, t.kids[i := k]))
  {
  }
}
