/** B-trees as values: the shape that linked pages form, the order of keys in them, and what
    a lookup finds (btree.go:66-104). */
module Trees {
  import opened Bytes
  import opened Wrappers
  import opened Pages
  import opened PageOps

  /** A page together with the trees its pointers lead to. */
  datatype Tree = Leaf(id: uint32, page: View) | Node(id: uint32, page: View, kids: seq<Tree>)

  /** The slot array and the cells fit in the page without overlap. */
  ghost predicate Sound(v: View) {
    PAGE_HEADER_SIZE + 2 * |v.cells| <= v.content && v.content + TotalSize(v.cells) <= PAGE_SIZE
  }

  /** Pointer i of an internal page: the left pointer of cell i, or the rightmost pointer. */
  function Pointer(v: View, i: nat): uint32 {
    if i < |v.cells| then v.cells[i].leftPtr else v.right
  }

  ghost predicate Shape(t: Tree)
    decreases t
  {
    && Sound(t.page)
    && match t
       case Leaf(_, page) => page.ptype == LEAF
       case Node(_, page, kids) =>
         && page.ptype == INTERNAL && |page.cells| >= 1
         && |kids| == |page.cells| + 1
         && (forall i :: 0 <= i < |kids| ==> Pointer(page, i) == kids[i].id)
         && (forall i :: 0 <= i < |kids| ==> Shape(kids[i]))
  }

  // ----- The cells of a tree, left to right -----

  function Flatten(t: Tree): seq<Cell>
    decreases t, 1
  {
    match t
    case Leaf(_, page) => page.cells
    case Node(_, _, kids) => FlattenAll(kids)
  }

  function FlattenAll(kids: seq<Tree>): seq<Cell>
    decreases kids, 0
  {
    if kids == [] then [] else Flatten(kids[0]) + FlattenAll(kids[1..])
  }

  lemma {:induction false} FlattenAppend(a: seq<Tree>, b: seq<Tree>)
    ensures FlattenAll(a + b) == FlattenAll(a) + FlattenAll(b)
  {
    if a == [] {
      assert a + b == b;
    } else {
      FlattenAppend(a[1..], b);
      assert (a + b)[1..] == a[1..] + b;
    }
  }

  lemma FlattenOne(t: Tree)
    ensures FlattenAll([t]) == Flatten(t)
  {
    assert [t][1..] == [];
  }

  lemma SplitSeq<T>(s: seq<T>, i: nat)
    requires i < |s|
    ensures s == s[..i] + [s[i]] + s[i + 1..]
  {
  }

  lemma FlattenParts(kids: seq<Tree>, a: seq<Tree>, k: Tree, b: seq<Tree>)
    requires kids == a + [k] + b
    ensures FlattenAll(kids) == FlattenAll(a) + Flatten(k) + FlattenAll(b)
  {
    FlattenAppend(a + [k], b);
    FlattenAppend(a, [k]);
    FlattenOne(k);
  }

  lemma FlattenAround(kids: seq<Tree>, i: nat)
    requires i < |kids|
    ensures FlattenAll(kids) == FlattenAll(kids[..i]) + Flatten(kids[i]) + FlattenAll(kids[i + 1..])
  {
    SplitSeq(kids, i);
    FlattenParts(kids, kids[..i], kids[i], kids[i + 1..]);
  }

  lemma {:induction false} InFlattenAll(kids: seq<Tree>, c: Cell)
    ensures c in FlattenAll(kids) <==> exists i :: 0 <= i < |kids| && c in Flatten(kids[i])
  {
    if kids != [] {
      InFlattenAll(kids[1..], c);
      if c in FlattenAll(kids[1..]) {
        var i :| 0 <= i < |kids[1..]| && c in Flatten(kids[1..][i]);
        assert c in Flatten(kids[i + 1]);
      }
      if i :| 0 <= i < |kids| && c in Flatten(kids[i]) {
        if i > 0 {
          assert c in Flatten(kids[1..][i - 1]);
        }
      }
    }
  }

  /** The key separates two children of some internal page. */
  predicate IsSeparator(t: Tree, key: Bytes)
    decreases t
  {
    t.Node? && (HasKey(t.page.cells, key) || exists i :: 0 <= i < |t.kids| && IsSeparator(t.kids[i], key))
  }

  // ----- Key order -----

  ghost predicate AtLeast(lo: Option<Bytes>, key: Bytes) { lo.Some? ==> !Less(key, lo.value) }

  ghost predicate MoreThan(lo: Option<Bytes>, key: Bytes) { lo.Some? ==> Less(lo.value, key) }

  ghost predicate Below(key: Bytes, hi: Option<Bytes>) { hi.Some? ==> Less(key, hi.value) }

  ghost predicate Within(lo: Option<Bytes>, cells: seq<Cell>, hi: Option<Bytes>) {
    forall c :: c in cells ==> AtLeast(lo, c.key) && Below(c.key, hi)
  }

  /** The key range of child i: from the separator on its left to the one on its right. */
  function LoOf(v: View, lo: Option<Bytes>, i: nat): Option<Bytes> {
    if 0 < i <= |v.cells| then Some(v.cells[i - 1].key) else lo
  }

  function HiOf(v: View, hi: Option<Bytes>, i: nat): Option<Bytes> {
    if i < |v.cells| then Some(v.cells[i].key) else hi
  }

  /** Every page is sorted; the cells under child i are at least the separator on its left and
      below the one on its right; separators lie strictly inside the range of their page. */
  ghost predicate Ordered(t: Tree, lo: Option<Bytes>, hi: Option<Bytes>)
    decreases t
  {
    && Sorted(t.page.cells)
    && match t
       case Leaf(_, page) => Within(lo, page.cells, hi)
       case Node(_, page, kids) =>
         && |kids| == |page.cells| + 1
         && (forall j :: 0 <= j < |page.cells| ==> MoreThan(lo, page.cells[j].key) && Below(page.cells[j].key, hi))
         && (forall i :: 0 <= i < |kids| ==> Ordered(kids[i], LoOf(page, lo, i), HiOf(page, hi, i)))
  }

  /** a is no more than b. */
  lemma NotLessTransitive(a: Bytes, b: Bytes, c: Bytes)
    requires !Less(b, a) && Less(b, c)
    ensures Less(a, c)
  {
    LessTotal(a, b);
    if Less(a, b) {
      LessTransitive(a, b, c);
    }
  }

  lemma LessNotLess(a: Bytes, b: Bytes, c: Bytes)
    requires Less(a, b) && !Less(c, b)
    ensures Less(a, c) && !Less(c, a)
  {
    LessTotal(b, c);
    if Less(b, c) {
      LessTransitive(a, b, c);
    }
    LessAsymmetric(a, c);
  }

  /** Cells of the children before i are below child i's range, those after it are not below
      its upper end. */
  lemma {:induction false} KidsAround(t: Tree, lo: Option<Bytes>, hi: Option<Bytes>, i: nat)
    requires t.Node? && Ordered(t, lo, hi) && i < |t.kids|
    requires forall k | 0 <= k < |t.kids| ::
               Within(LoOf(t.page, lo, k), Flatten(t.kids[k]), HiOf(t.page, hi, k))
    ensures forall c :: c in FlattenAll(t.kids[..i]) ==> i > 0 && Less(c.key, t.page.cells[i - 1].key)
    ensures forall c :: c in FlattenAll(t.kids[i + 1..]) ==>
              i < |t.page.cells| && !Less(c.key, t.page.cells[i].key)
  {
    var seps := t.page.cells;
    forall c | c in FlattenAll(t.kids[..i])
      ensures i > 0 && Less(c.key, seps[i - 1].key)
    {
      InFlattenAll(t.kids[..i], c);
      var k :| 0 <= k < i && c in Flatten(t.kids[..i][k]);
      assert c in Flatten(t.kids[k]);
      assert Less(c.key, seps[k].key);
      if k < i - 1 {
        LessTransitive(c.key, seps[k].key, seps[i - 1].key);
      }
    }
    var after := t.kids[i + 1..];
    forall c | c in FlattenAll(after)
      ensures i < |seps| && !Less(c.key, seps[i].key)
    {
      InFlattenAll(after, c);
      var k :| 0 <= k < |after| && c in Flatten(after[k]);
      assert c in Flatten(t.kids[i + 1 + k]);
      assert !Less(c.key, seps[i + k].key);
      if k > 0 {
        LessNotLess(seps[i].key, seps[i + k].key, c.key);
      }
    }
  }

  lemma SortedAppend(a: seq<Cell>, b: seq<Cell>, m: Bytes)
    requires Sorted(a) && Sorted(b)
    requires forall c :: c in a ==> Less(c.key, m)
    requires forall c :: c in b ==> !Less(c.key, m)
    ensures Sorted(a + b)
  {
    forall i, j | 0 <= i < j < |a + b|
      ensures Less((a + b)[i].key, (a + b)[j].key)
    {
      if i < |a| <= j {
        assert a[i] in a && b[j - |a|] in b;
        LessNotLess(a[i].key, m, b[j - |a|].key);
      }
    }
  }

  /** The cells of an ordered tree are sorted and inside its range. */
  lemma {:induction false} OrderedFlatten(t: Tree, lo: Option<Bytes>, hi: Option<Bytes>)
    requires Ordered(t, lo, hi)
    ensures Sorted(Flatten(t)) && Within(lo, Flatten(t), hi)
    decreases t, 1
  {
    if t.Node? {
      forall i | 0 <= i < |t.kids|
        ensures Sorted(Flatten(t.kids[i]))
        ensures Within(LoOf(t.page, lo, i), Flatten(t.kids[i]), HiOf(t.page, hi, i))
      {
        OrderedFlatten(t.kids[i], LoOf(t.page, lo, i), HiOf(t.page, hi, i));
      }
      SortedKids(t, lo, hi, |t.kids|);
      assert t.kids[..|t.kids|] == t.kids;
      forall c | c in FlattenAll(t.kids)
        ensures AtLeast(lo, c.key) && Below(c.key, hi)
      {
        InFlattenAll(t.kids, c);
        var i :| 0 <= i < |t.kids| && c in Flatten(t.kids[i]);
        if i > 0 && lo.Some? {
          LessNotLess(lo.value, t.page.cells[i - 1].key, c.key);
        }
        if i < |t.page.cells| && hi.Some? {
          LessTransitive(c.key, t.page.cells[i].key, hi.value);
        }
      }
    }
  }

  lemma {:induction false} SortedKids(t: Tree, lo: Option<Bytes>, hi: Option<Bytes>, n: nat)
    requires t.Node? && Ordered(t, lo, hi) && n <= |t.kids|
    requires forall i :: 0 <= i < |t.kids| ==> Sorted(Flatten(t.kids[i]))
    requires forall k | 0 <= k < |t.kids| ::
               Within(LoOf(t.page, lo, k), Flatten(t.kids[k]), HiOf(t.page, hi, k))
    ensures Sorted(FlattenAll(t.kids[..n]))
    decreases t, 0, n
  {
    if n > 0 {
      SortedKids(t, lo, hi, n - 1);
      KidsAround(t, lo, hi, n - 1);
      FlattenAppend(t.kids[..n - 1], [t.kids[n - 1]]);
      FlattenOne(t.kids[n - 1]);
      assert t.kids[..n] == t.kids[..n - 1] + [t.kids[n - 1]];
      if n > 1 {
        SortedAppend(FlattenAll(t.kids[..n - 1]), Flatten(t.kids[n - 1]), t.page.cells[n - 2].key);
      } else {
        assert t.kids[..0] == [];
      }
    }
  }

  // ----- Lookup -----

  /** The child that search, insertInto and deleteFrom descend to: the lower bound. On a key
      equal to a separator that is the child on its left. */
  function ChildIndex(t: Tree, key: Bytes): nat { LowerBound(t.page.cells, key) }

  /** The value stored under the key in the cells of a leaf. */
  function LookupIn(cells: seq<Cell>, key: Bytes): Option<Bytes> {
    var n := LowerBound(cells, key);
    if HasKey(cells, key) && n < |cells| then Some(cells[n].value) else None
  }

  /** What BTree.search returns. */
  function Lookup(t: Tree, key: Bytes): Option<Bytes>
    requires Links(t)
    decreases t
  {
    match t
    case Leaf(_, page) => LookupIn(page.cells, key)
    case Node(_, _, kids) => Lookup(kids[ChildIndex(t, key)], key)
  }

  /** Every internal page has one child more than cells. */
  predicate Links(t: Tree)
    decreases t
  {
    t.Node? ==> |t.kids| == |t.page.cells| + 1 && forall i :: 0 <= i < |t.kids| ==> Links(t.kids[i])
  }

  lemma ShapeLinks(t: Tree)
    requires Shape(t)
    ensures Links(t)
    decreases t
  {
    if t.Node? {
      forall i | 0 <= i < |t.kids|
        ensures Links(t.kids[i])
      {
        ShapeLinks(t.kids[i]);
      }
    }
  }

  /** The tree holds the pair. */
  predicate Contains(t: Tree, key: Bytes, value: Bytes) {
    exists c :: c in Flatten(t) && c.key == key && c.value == value
  }

  /** A key that only the upper end of the range could hold is never found, and is no
      separator. */
  lemma {:induction false} LookupAtEnd(t: Tree, lo: Option<Bytes>, key: Bytes)
    requires Links(t) && Ordered(t, lo, Some(key))
    ensures Lookup(t, key) == None && !IsSeparator(t, key)
    decreases t
  {
    LessIrreflexive(key);
    match t
    case Leaf(_, page) =>
      assert !HasKey(page.cells, key);
    case Node(_, page, kids) =>
      var n := |page.cells|;
      forall j | 0 <= j < n
        ensures Less(page.cells[j].key, key)
      {
      }
      LowerBoundUnique(page.cells, key, n);
      assert !HasKey(page.cells, key);
      LookupAtEnd(kids[n], LoOf(page, lo, n), key);
      forall i | 0 <= i < n
        ensures !IsSeparator(kids[i], key)
      {
        OutOfRange(kids[i], LoOf(page, lo, i), HiOf(page, Some(key), i), key);
      }
  }

  /** A key outside the range of a tree is neither in it nor a separator of it. */
  lemma {:induction false} OutOfRange(t: Tree, lo: Option<Bytes>, hi: Option<Bytes>, key: Bytes)
    requires Links(t) && Ordered(t, lo, hi)
    requires (lo.Some? && Less(key, lo.value)) || (hi.Some? && Less(hi.value, key))
    ensures !IsSeparator(t, key)
    ensures forall c :: c in Flatten(t) ==> c.key != key
    decreases t
  {
    OrderedFlatten(t, lo, hi);
    forall c | c in Flatten(t)
      ensures c.key != key
    {
      if hi.Some? {
        LessAsymmetric(key, hi.value);
      }
    }
    if t.Node? {
      forall j | 0 <= j < |t.page.cells|
        ensures t.page.cells[j].key != key
      {
        if hi.Some? {
          LessAsymmetric(key, hi.value);
        }
        if lo.Some? {
          LessAsymmetric(key, lo.value);
        }
      }
      forall i | 0 <= i < |t.kids|
        ensures !IsSeparator(t.kids[i], key)
      {
        if hi.Some? && Less(hi.value, key) && i < |t.page.cells| {
          LessTransitive(t.page.cells[i].key, hi.value, key);
        }
        if lo.Some? && Less(key, lo.value) && i > 0 {
          LessTransitive(key, lo.value, t.page.cells[i - 1].key);
        }
        OutOfRange(t.kids[i], LoOf(t.page, lo, i), HiOf(t.page, hi, i), key);
      }
    }
  }

  /** Where the descent goes when the key is not a separator of this page: the key is in the
      range of the chosen child and of no other. */
  lemma DescentRange(t: Tree, lo: Option<Bytes>, hi: Option<Bytes>, key: Bytes)
    requires t.Node? && Links(t) && Ordered(t, lo, hi)
    requires AtLeast(lo, key) && Below(key, hi) && !HasKey(t.page.cells, key)
    ensures var i := ChildIndex(t, key);
            && AtLeast(LoOf(t.page, lo, i), key) && Below(key, HiOf(t.page, hi, i))
            && forall k :: 0 <= k < |t.kids| && k != i ==>
                 !IsSeparator(t.kids[k], key) && forall c :: c in Flatten(t.kids[k]) ==> c.key != key
  {
    var seps := t.page.cells;
    var i := ChildIndex(t, key);
    LowerBoundSorted(seps, key);
    if i > 0 {
      LessAsymmetric(key, seps[i - 1].key);
    }
    forall k | 0 <= k < |t.kids| && k != i
      ensures !IsSeparator(t.kids[k], key) && forall c :: c in Flatten(t.kids[k]) ==> c.key != key
    {
      if k < i {
        assert Less(seps[k].key, key);
      } else {
        assert i < |seps| && Less(key, seps[i].key);
        assert Less(key, seps[k - 1].key);
      }
      OutOfRange(t.kids[k], LoOf(t.page, lo, k), HiOf(t.page, hi, k), key);
    }
  }

  /** Get is exact: on an ordered tree it returns a value exactly when the tree holds that pair
      and the key is not a separator of any internal page. A key that a split promoted is in
      the tree and is not found. */
  lemma {:induction false} LookupExact(t: Tree, lo: Option<Bytes>, hi: Option<Bytes>, key: Bytes, value: Bytes)
    requires Links(t) && Ordered(t, lo, hi) && AtLeast(lo, key) && Below(key, hi)
    ensures Lookup(t, key) == Some(value) <==> Contains(t, key, value) && !IsSeparator(t, key)
    decreases t
  {
    match t
    case Leaf(_, page) =>
      LowerBoundSorted(page.cells, key);
      var n := LowerBound(page.cells, key);
      if c :| c in page.cells && c.key == key && c.value == value {
        var i :| 0 <= i < |page.cells| && page.cells[i] == c;
        if i < n || n < i {
          LessIrreflexive(key);
        }
      }
    case Node(_, page, kids) =>
      var i := ChildIndex(t, key);
      if HasKey(page.cells, key) {
        LowerBoundSorted(page.cells, key);
        LookupAtEnd(kids[i], LoOf(page, lo, i), key);
      } else {
        DescentRange(t, lo, hi, key);
        LookupExact(kids[i], LoOf(page, lo, i), HiOf(page, hi, i), key, value);
        ContainsKid(t, i, key, value);
      }
  }

  /** Around the child the descent chooses: smaller cells before it, larger cells after it. */
  lemma AroundKid(t: Tree, lo: Option<Bytes>, hi: Option<Bytes>, key: Bytes)
    requires t.Node? && Ordered(t, lo, hi) && !HasKey(t.page.cells, key)
    ensures var i := ChildIndex(t, key);
            && (forall x :: x in FlattenAll(t.kids[..i]) ==> Less(x.key, key))
            && (forall x :: x in FlattenAll(t.kids[i + 1..]) ==> Less(key, x.key))
  {
    var i := ChildIndex(t, key);
    var seps := t.page.cells;
    LowerBoundSorted(seps, key);
    forall k | 0 <= k < |t.kids|
      ensures Within(LoOf(t.page, lo, k), Flatten(t.kids[k]), HiOf(t.page, hi, k))
    {
      OrderedFlatten(t.kids[k], LoOf(t.page, lo, k), HiOf(t.page, hi, k));
    }
    KidsAround(t, lo, hi, i);
    forall x | x in FlattenAll(t.kids[..i])
      ensures Less(x.key, key)
    {
      LessTransitive(x.key, seps[i - 1].key, key);
    }
    forall x | x in FlattenAll(t.kids[i + 1..])
      ensures Less(key, x.key)
    {
      LessNotLess(key, seps[i].key, x.key);
    }
  }

  lemma ContainsKid(t: Tree, i: nat, key: Bytes, value: Bytes)
    requires t.Node? && i < |t.kids|
    requires forall k, c :: 0 <= k < |t.kids| && k != i && c in Flatten(t.kids[k]) ==> c.key != key
    ensures Contains(t, key, value) <==> Contains(t.kids[i], key, value)
  {
    if c :| c in Flatten(t) && c.key == key && c.value == value {
      InFlattenAll(t.kids, c);
    }
    if c :| c in Flatten(t.kids[i]) && c.key == key && c.value == value {
      InFlattenAll(t.kids, c);
    }
  }
}
