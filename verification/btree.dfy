/** The B-tree over page objects: descent, insertion and deletion, as loops and recursive methods
    that read and write pages (btree.go:51-359, 489-575). */
module BTrees {
  import opened Bytes
  import opened Wrappers
  import opened Pages
  import opened PageOps
  import opened Trees
  import opened TreeInsert
  import opened TreeRun
  import opened TreeDelete

  /** The pages the tree sees through its pager while its working set stays cached. The ghost
      field store is what the pages show. */
  class PageTable {
    var pages: map<uint32, Page>
    var pageCount: uint32
    ghost var store: map<uint32, View>

    ghost function Objects(): set<object>
      reads this
    {
      (set id | id in pages :: pages[id] as object) + (set id | id in pages :: pages[id].data as object)
    }

    /** The page is filed under its own id and shows what the store says. */
    ghost predicate PageOk(id: uint32)
      requires id in pages
      reads this, pages[id].data
    {
      && pages[id].id == id < pageCount && pages[id].Valid()
      && id in store && store[id] == pages[id].View()
    }

    ghost predicate PagesApart(i: uint32, j: uint32)
      requires i in pages && j in pages
      reads this
    {
      pages[i].data != pages[j].data
    }

    ghost predicate Valid()
      reads this, Objects()
    {
      && store.Keys == pages.Keys
      && (forall id {:trigger PageOk(id)} :: id in pages ==> PageOk(id))
      && (forall i, j {:trigger PagesApart(i, j)} :: i in pages && j in pages && i != j ==> PagesApart(i, j))
    }

    ghost predicate Has(pg: Page)
      reads this
    {
      pg.id in pages && pages[pg.id] == pg
    }

    /** Pager.GetPage */
    method GetPage(id: uint32) returns (r: Result<Page>)
      requires Valid()
      ensures r == if id in pages then Ok(pages[id]) else Err(InvalidPage)
      ensures r.Ok? ==> Has(r.value) && r.value.id == id
    {
      assert id in pages ==> PageOk(id);
      r := if id in pages then Ok(pages[id]) else Err(InvalidPage);
    }

    /** Pager.AllocatePage: the next page id, with a zeroed page. */
    method AllocatePage() returns (pg: Page)
      requires Valid() && pageCount < INVALID_PAGE
      modifies this
      ensures Valid() && AllocatedOne(pg)
      ensures store == old(store)[pg.id := View(0, [], 0, PAGE_SIZE)]
    {
      var id := pageCount;
      pg := new Page(id);
      IdsBelowCount();
      pages := pages[id := pg];
      pageCount := pageCount + 1;
      store := store[id := View(0, [], 0, PAGE_SIZE)];
      PageAdded(this, pg);
    }

    lemma IdsBelowCount()
      requires Valid()
      ensures forall id :: id in pages ==> id < pageCount
    {
      forall id | id in pages
        ensures id < pageCount
      {
        assert PageOk(id);
      }
    }

    /** One page was allocated; the others stay filed as they were. */
    twostate predicate AllocatedOne(new pg: Page)
      reads this
    {
      && pageCount == old(pageCount) + 1 && pg.id == old(pageCount) && pg.id !in old(pages)
      && pages == old(pages)[pg.id := pg] && fresh(pg) && fresh(pg.data)
    }

    /** Every filed page was filed before, or is new. */
    twostate predicate KeptOrNew()
      reads this
    {
      forall id :: id in pages ==>
        || (id in old(pages) && pages[id] == old(pages)[id])
        || (fresh(pages[id]) && fresh(pages[id].data))
    }

    // ----- Edits of one page, recorded in the store -----

    method BinarySearch(pg: Page, key: Bytes, ghost v: View) returns (idx: nat, found: bool)
      requires Valid() && Has(pg) && store[pg.id] == v && Sorted(v.cells)
      ensures idx == LowerBound(v.cells, key)
      ensures found <==> HasKey(v.cells, key)
    {
      assert PageOk(pg.id);
      idx, found := pg.BinarySearch(key);
    }

    /** rewriteCell, for a cell that does not grow. */
    method RewriteCell(pg: Page, idx: nat, c: Cell, ghost v: View)
      requires Valid() && Has(pg) && store[pg.id] == v
      requires idx < |v.cells| && c.Encodable() && c.Size() <= v.cells[idx].Size()
      modifies this`store, pg`dirty, pg.data
      ensures Valid() && store == old(store)[pg.id := v.(cells := v.cells[idx := c])]
    {
      assert PageOk(pg.id);
      var w := pg.RewriteCell(idx, c);
      store := store[pg.id := v.(cells := v.cells[idx := c])];
      PageEdited(this, pg);
    }

    method InsertCellAt(pg: Page, c: Cell, idx: nat, ghost v: View) returns (w: Result<()>)
      requires Valid() && Has(pg) && store[pg.id] == v && idx <= |v.cells| && c.Encodable()
      modifies this`store, pg`dirty, pg.data
      ensures Valid()
      ensures v.Takes(c) ==> w == Ok(()) && store == old(store)[pg.id := v.InsertAt(c, idx)]
      ensures !v.Takes(c) ==> w == Err(PageFull) && store == old(store)
    {
      assert PageOk(pg.id);
      w := pg.InsertCellAt(c, idx);
      if w.Ok? {
        store := store[pg.id := v.InsertAt(c, idx)];
      }
      PageEdited(this, pg);
    }

    method InsertCell(pg: Page, c: Cell, ghost v: View) returns (w: Result<()>)
      requires Valid() && Has(pg) && store[pg.id] == v && c.Encodable()
      modifies this`store, pg`dirty, pg.data
      ensures Valid()
      ensures v.Takes(c) ==> w == Ok(()) && store == old(store)[pg.id := v.InsertAt(c, |v.cells|)]
      ensures !v.Takes(c) ==> w == Err(PageFull) && store == old(store)
    {
      assert PageOk(pg.id);
      w := pg.InsertCell(c);
      if w.Ok? {
        store := store[pg.id := v.InsertAt(c, |v.cells|)];
      }
      PageEdited(this, pg);
    }

    method RemoveCellAt(pg: Page, idx: nat, ghost v: View)
      requires Valid() && Has(pg) && store[pg.id] == v && idx < |v.cells|
      modifies this`store, pg`dirty, pg.data
      ensures Valid() && store == old(store)[pg.id := v.RemoveAt(idx)]
    {
      assert PageOk(pg.id);
      pg.RemoveCellAt(idx);
      store := store[pg.id := v.RemoveAt(idx)];
      PageEdited(this, pg);
    }

    method SetRightmostPointer(pg: Page, p: uint32, ghost v: View)
      requires Valid() && Has(pg) && store[pg.id] == v
      modifies this`store, pg`dirty, pg.data
      ensures Valid() && store == old(store)[pg.id := v.(right := p)]
    {
      assert PageOk(pg.id);
      pg.SetRightmostPointer(p);
      store := store[pg.id := v.(right := p)];
      PageEdited(this, pg);
    }

    /** clearPage */
    method ClearPage(pg: Page, ghost v: View)
      requires Valid() && Has(pg) && store[pg.id] == v
      modifies this`store, pg`dirty, pg.data
      ensures Valid() && store == old(store)[pg.id := v.Clear()]
    {
      assert PageOk(pg.id);
      pg.ClearPage();
      store := store[pg.id := v.Clear()];
      PageEdited(this, pg);
    }

    /** The setters every new tree page goes through. */
    method FormatPage(pg: Page, ptype: byte, right: uint32)
      requires Valid() && Has(pg)
      modifies this`store, pg`dirty, pg.data
      ensures Valid() && store == old(store)[pg.id := View(ptype, [], right, PAGE_SIZE)]
    {
      assert PageOk(pg.id);
      pg.SetType(ptype);
      pg.Format(right);
      store := store[pg.id := View(ptype, [], right, PAGE_SIZE)];
      PageEdited(this, pg);
    }
  }

  /** Filing a new page leaves the others as they were. */
  twostate lemma PageAdded(table: PageTable, new pg: Page)
    requires old(table.Valid()) && pg.id !in old(table.pages) && pg.id < table.pageCount
    requires table.pages == old(table.pages)[pg.id := pg] && table.pageCount >= old(table.pageCount)
    requires forall i :: i in old(table.pages) ==> unchanged(old(table.pages)[i].data)
    requires fresh(pg.data) && pg.Valid() && table.store == old(table.store)[pg.id := pg.View()]
    ensures table.Valid()
  {
    forall i | i in table.pages
      ensures table.PageOk(i)
    {
      if i != pg.id {
        PageUnchanged(table, i);
      }
    }
    forall i, j | i in table.pages && j in table.pages && i != j
      ensures table.PagesApart(i, j)
    {
      if i != pg.id && j != pg.id {
        assert old(table.PagesApart(i, j));
      }
    }
  }

  /** A page whose bytes were not written still shows what the store says. */
  twostate lemma PageUnchanged(table: PageTable, new i: uint32)
    requires i in old(table.pages) && i in table.pages && table.pages[i] == old(table.pages)[i]
    requires old(table.Valid()) && unchanged(table.pages[i].data) && table.pageCount >= old(table.pageCount)
    requires i in table.store && i in old(table.store) && table.store[i] == old(table.store)[i]
    ensures table.PageOk(i)
  {
    assert old(table.PageOk(i));
    assert table.pages[i].data[..] == old(table.pages[i].data[..]);
  }

  /** After an edit of one page that the store records, the table is valid again. */
  twostate lemma PageEdited(table: PageTable, new pg: Page)
    requires old(table.Valid()) && table.Has(pg) && pg.id in old(table.store)
    requires table.pages == old(table.pages) && table.pageCount == old(table.pageCount)
    requires forall i :: i in table.pages && table.pages[i].data != pg.data ==> unchanged(table.pages[i].data)
    requires pg.Valid() && pg.id < table.pageCount && table.store == old(table.store)[pg.id := pg.View()]
    ensures table.Valid()
  {
    forall i | i in table.pages
      ensures table.PageOk(i)
    {
      if i != pg.id {
        assert old(table.PagesApart(i, pg.id));
        PageUnchanged(table, i);
      }
    }
    forall i, j | i in table.pages && j in table.pages && i != j
      ensures table.PagesApart(i, j)
    {
      assert old(table.PagesApart(i, j));
    }
  }

  /** The pages of t are in the store. */
  ghost predicate Held(store: map<uint32, View>, t: Tree)
    decreases t
  {
    && t.id in store && store[t.id] == t.page
    && (t.Node? ==> forall i :: 0 <= i < |t.kids| ==> Held(store, t.kids[i]))
  }

  lemma {:induction false} HeldFrame(s: map<uint32, View>, s': map<uint32, View>, t: Tree)
    requires Held(s, t)
    requires forall id :: id in Ids(t) ==> id in s' && (id in s ==> s'[id] == s[id])
    ensures Held(s', t)
    decreases t
  {
    if t.Node? {
      forall i | 0 <= i < |t.kids|
        ensures Held(s', t.kids[i])
      {
        KidIds(t, i);
        HeldFrame(s, s', t.kids[i]);
      }
    }
  }

  lemma {:induction false} HeldIds(s: map<uint32, View>, t: Tree)
    requires Held(s, t)
    ensures Ids(t) <= s.Keys
    decreases t
  {
    if t.Node? {
      forall i | 0 <= i < |t.kids|
        ensures Ids(t.kids[i]) <= s.Keys
      {
        HeldIds(s, t.kids[i]);
      }
    }
  }

  /** A held, well-shaped, ordered tree. */
  ghost predicate Live(store: map<uint32, View>, t: Tree, lo: Option<Bytes>, hi: Option<Bytes>) {
    Held(store, t) && Shape(t) && Links(t) && Ordered(t, lo, hi)
  }

  lemma LivePage(store: map<uint32, View>, t: Tree, lo: Option<Bytes>, hi: Option<Bytes>)
    requires Live(store, t, lo, hi)
    ensures t.id in store && store[t.id] == t.page
    ensures Sorted(t.page.cells) && t.page.ptype == (if t.Leaf? then LEAF else INTERNAL)
  {
  }

  lemma LiveChild(store: map<uint32, View>, t: Tree, lo: Option<Bytes>, hi: Option<Bytes>, key: Bytes)
    requires Live(store, t, lo, hi) && t.Node?
    ensures var i := ChildIndex(t, key);
            && i < |t.kids| && t.kids[i].id == Pointer(t.page, i) && Lookup(t, key) == Lookup(t.kids[i], key)
            && Live(store, t.kids[i], LoOf(t.page, lo, i), HiOf(t.page, hi, i))
  {
  }

  /** Nothing outside the given pages changed between the two stores. */
  ghost predicate SameOutside(s: map<uint32, View>, s': map<uint32, View>, ids: set<uint32>) {
    forall id :: id in s && id !in ids ==> id in s' && s'[id] == s[id]
  }

  /** The node's page and its other children are as before when only child i was written. */
  lemma HeldOthers(s: map<uint32, View>, s': map<uint32, View>, t: Tree, i: nat)
    requires t.Node? && Held(s, t) && Distinct(t) && i < |t.kids| && SameOutside(s, s', Ids(t.kids[i]))
    ensures t.id in s' && s'[t.id] == t.page
    ensures forall j :: 0 <= j < |t.kids| && j != i ==> Held(s', t.kids[j])
  {
    forall j | 0 <= j < |t.kids| && j != i
      ensures Held(s', t.kids[j])
    {
      assert Ids(t.kids[if i < j then i else j]) !! Ids(t.kids[if i < j then j else i]);
      HeldIds(s, t.kids[j]);
      HeldFrame(s, s', t.kids[j]);
    }
  }

  lemma HeldKept(s: map<uint32, View>, s': map<uint32, View>, t: Tree, i: nat, k: Tree)
    requires t.Node? && Held(s, t) && Distinct(t) && i < |t.kids| && SameOutside(s, s', Ids(t.kids[i]))
    requires Held(s', k)
    ensures Held(s', Node(t.id, t.page, t.kids[i := k]))
  {
    HeldOthers(s, s', t, i);
  }

  lemma HeldSplit(s: map<uint32, View>, s': map<uint32, View>, t: Tree, i: nat, out: Outcome, newId: uint32)
    requires t.Node? && Held(s, t) && Distinct(t) && |t.kids| == |t.page.cells| + 1 && i < |t.kids|
    requires SameOutside(s, s', Ids(t.kids[i])) && newId !in s
    requires out.Split? && t.page.Takes(out.sep) && Held(s', out.left) && Held(s', out.right)
    requires Ids(out.left) == Ids(t.kids[i]) && Ids(out.right) == {newId}
    ensures Held(s'[t.id := AddSeparator(t, i, out).page], AddSeparator(t, i, out))
  {
    var t' := AddSeparator(t, i, out);
    var s'' := s'[t.id := t'.page];
    HeldOthers(s, s', t, i);
    HeldIds(s', out.left);
    HeldFrame(s', s'', out.left);
    HeldFrame(s', s'', out.right);
    forall j | 0 <= j < |t.kids| && j != i
      ensures Held(s'', t.kids[j])
    {
      HeldIds(s', t.kids[j]);
      HeldFrame(s', s'', t.kids[j]);
    }
    forall k | 0 <= k < |t'.kids|
      ensures Held(s'', t'.kids[k])
    {
      AddSeparatorKid(t, i, out, k);
    }
  }

  datatype Overflow = NoOverflow | Overflow(key: Bytes, value: Bytes, page: uint32)

  /** What insertInto reports for the outcome of an insertion. */
  ghost function Reported(out: Outcome): Overflow {
    match out
    case Kept(_) => NoOverflow
    case Split(_, sep, right) => Overflow(sep.key, sep.value, right.id)
  }

  /** The store after an insertion that rewrote one leaf, or split it. */
  ghost function Stored(store: map<uint32, View>, out: Outcome): map<uint32, View> {
    match out
    case Kept(t) => store[t.id := t.page]
    case Split(left, _, right) => store[left.id := left.page][right.id := right.page]
  }

  function NewCell(key: Bytes, value: Bytes): Cell { Cell(INVALID_PAGE, key, value) }

  class BTree {
    const pager: PageTable
    var rootPage: uint32

    constructor (pager: PageTable, root: uint32)
      ensures this.pager == pager && rootPage == root
    {
      this.pager := pager;
      rootPage := root;
    }

    /** BTree.Get */
    method Get(key: Bytes, ghost t: Tree) returns (r: Result<Option<Bytes>>)
      requires pager.Valid() && Live(pager.store, t, None, None) && t.id == rootPage
      ensures r == Ok(Lookup(t, key))
    {
      r := Search(rootPage, key, t);
    }

    /** BTree.search: the descent by binary search in each page. */
    method Search(root: uint32, key: Bytes, ghost t: Tree) returns (r: Result<Option<Bytes>>)
      requires pager.Valid() && Live(pager.store, t, None, None) && t.id == root
      ensures r == Ok(Lookup(t, key))
    {
      var pageID := root;
      ghost var sub, lo, hi := t, None, None;
      while pageID != INVALID_PAGE
        invariant sub.id == pageID && Live(pager.store, sub, lo, hi)
        invariant Lookup(sub, key) == Lookup(t, key)
        decreases sub
      {
        LivePage(pager.store, sub, lo, hi);
        var got := pager.GetPage(pageID);
        if got.Err? {
          return Err(InvalidPage);
        }
        var leaf, value, next := SearchPage(got.value, key, sub.page);
        if leaf {
          return Ok(value);
        }
        LiveChild(pager.store, sub, lo, hi, key);
        pageID := next;
        ghost var i := ChildIndex(sub, key);
        lo, hi, sub := LoOf(sub.page, lo, i), HiOf(sub.page, hi, i), sub.kids[i];
      }
      pager.IdsBelowCount();
    }

    /** One turn of the search loop: the answer at a leaf, the next page at an internal page. */
    method SearchPage(pg: Page, key: Bytes, ghost v: View) returns (leaf: bool, value: Option<Bytes>, next: uint32)
      requires pager.Valid() && pager.Has(pg) && pager.store[pg.id] == v
      requires Sorted(v.cells) && v.ptype in {LEAF, INTERNAL}
      ensures leaf <==> v.ptype == LEAF
      ensures leaf ==> value == LookupIn(v.cells, key)
      ensures !leaf ==> next == Pointer(v, LowerBound(v.cells, key))
    {
      assert pager.PageOk(pg.id);
      var count := pg.CellCount();
      var pt := pg.Type();
      var idx, found := pg.BinarySearch(key);
      LowerBoundSorted(v.cells, key);
      if found {
        var cell := pg.CellOf(idx);
        if pt == LEAF {
          return true, Some(cell.value), INVALID_PAGE;
        }
        return false, None, cell.leftPtr;
      }
      if pt == INTERNAL {
        if idx >= count {
          return false, None, pg.RightmostPointer();
        }
        return false, None, pg.CellOf(idx).leftPtr;
      }
      return true, None, INVALID_PAGE;
    }

    // ----- Insertion -----

    /** insertLeaf */
    method InsertLeaf(pg: Page, key: Bytes, value: Bytes, ghost t: Tree) returns (r: Result<Overflow>)
      requires pager.Valid() && pager.Has(pg) && t == Leaf(pg.id, pager.store[pg.id])
      requires t.page.ptype == LEAF && Sorted(t.page.cells) && Sound(t.page)
      requires Fits(t, NewCell(key, value)) && NewCell(key, value).Encodable()
      requires pager.pageCount < INVALID_PAGE
      modifies pager, pg`dirty, pg.data
      ensures pager.Valid()
      ensures r == Ok(Reported(InsertTree(t, NewCell(key, value), old(pager.pageCount))))
      ensures pager.store == Stored(old(pager.store), InsertTree(t, NewCell(key, value), old(pager.pageCount)))
      ensures if Splits(t, NewCell(key, value)) then AllocatedNext()
              else pager.pages == old(pager.pages) && pager.pageCount == old(pager.pageCount)
    {
      var c := NewCell(key, value);
      LeafCases(t, c, pager.pageCount);
      var idx, found := pager.BinarySearch(pg, key, t.page);
      if found {
        pager.RewriteCell(pg, idx, c, t.page);
        return Ok(NoOverflow);
      }
      var w := pager.InsertCellAt(pg, c, idx, t.page);
      if w == Err(PageFull) {
        r := SplitLeaf(pg, key, value, t);
        return;
      }
      r := Ok(NoOverflow);
    }

    /** The tree rooted at rootPage is t. */
    ghost predicate Holds(t: Tree)
      reads this, pager, pager.Objects()
    {
      pager.Valid() && Live(pager.store, t, None, None) && Distinct(t) && t.id == rootPage
    }

    /** The tree that an insertion starts from: an empty leaf when there is no root yet. */
    ghost function Before(t: Tree): Tree
      reads this, pager
    {
      if rootPage == INVALID_PAGE then EmptyRoot(pager.pageCount) else t
    }

    ghost function FirstNewId(): nat
      reads this, pager
    {
      if rootPage == INVALID_PAGE then pager.pageCount + 1 else pager.pageCount
    }

    /** BTree.Insert */
    method Insert(key: Bytes, value: Bytes, ghost t: Tree) returns (r: Result<()>)
      requires pager.Valid() && pager.pageCount + 3 < INVALID_PAGE
      requires rootPage != INVALID_PAGE ==> Holds(t)
      requires Links(Before(t)) && FitsTop(Before(t), NewCell(key, value)) && NewCell(key, value).Encodable()
      modifies this, pager, pager.Objects()
      ensures pager.Valid() && r == Ok(()) && pager.KeptOrNew()
      ensures Inserted(old(Before(t)), NewCell(key, value), old(FirstNewId()))
      ensures pager.pageCount == NextId(old(Before(t)), NewCell(key, value), old(FirstNewId()))
    {
      ghost var t0 := Before(t);
      if rootPage == INVALID_PAGE {
        CreateRoot();
      }
      r := InsertAtRoot(key, value, t0);
    }

    /** The pages hold the tree that InsertTop describes; where the insertion keeps the order
        that is an ordered tree with the pair put in place. */
    ghost predicate Inserted(t: Tree, c: Cell, newId: nat)
      requires Links(t) && FitsTop(t, c) && newId + 1 < INVALID_PAGE
      reads this, pager, pager.Objects()
    {
      var t' := InsertTop(t, c, newId, newId + 1);
      && Held(pager.store, t') && t'.id == rootPage
      && (KeepsOrder(t, c) ==> Holds(t') && Flatten(t') == Upsert(Flatten(t), c))
    }

    lemma InsertedLive(t: Tree, c: Cell, newId: nat)
      requires pager.Valid() && Shape(t) && Links(t) && Ordered(t, None, None) && Distinct(t) && FitsTop(t, c)
      requires newId + 2 < INVALID_PAGE && newId !in Ids(t) && newId + 1 !in Ids(t)
      requires Held(pager.store, InsertTop(t, c, newId, newId + 1)) && InsertTop(t, c, newId, newId + 1).id == rootPage
      ensures Inserted(t, c, newId)
    {
      if KeepsOrder(t, c) {
        InsertTopLive(t, c, newId);
      }
    }

    /** The empty root leaf that the first insertion allocates. */
    method CreateRoot()
      requires pager.Valid() && pager.pageCount < INVALID_PAGE
      modifies this, pager
      ensures Holds(EmptyRoot(old(pager.pageCount))) && pager.pageCount == old(pager.pageCount) + 1
      ensures pager.AllocatedOne(pager.pages[old(pager.pageCount)])
    {
      var pg := pager.AllocatePage();
      pager.FormatPage(pg, LEAF, INVALID_PAGE);
      rootPage := pg.id;
      EmptyRootLive(pager.store, EmptyRoot(rootPage));
    }

    lemma NewIds(t: Tree)
      requires Holds(t)
      ensures forall id :: id in Ids(t) ==> id < pager.pageCount
    {
      pager.IdsBelowCount();
      HeldIds(pager.store, t);
    }

    lemma EmptyRootLive(store: map<uint32, View>, t: Tree)
      requires t == EmptyRoot(t.id) && t.id in store && store[t.id] == t.page
      ensures Live(store, t, None, None) && Distinct(t)
    {
    }

    lemma InsertTopLive(t: Tree, c: Cell, newId: nat)
      requires Shape(t) && Links(t) && Ordered(t, None, None) && Distinct(t)
      requires FitsTop(t, c) && KeepsOrder(t, c)
      requires newId + 2 < INVALID_PAGE && newId !in Ids(t) && newId + 1 !in Ids(t)
      ensures var t' := InsertTop(t, c, newId, newId + 1);
              && Shape(t') && Links(t') && Ordered(t', None, None) && Distinct(t')
              && Flatten(t') == Upsert(Flatten(t), c)
    {
      var out := InsertTree(t, c, newId);
      InsertIds(t, c, newId);
      if out.Kept? {
        InsertExact(t, None, None, c, newId);
        InsertShape(t, c, newId);
        ShapeLinks(out.t);
      } else {
        LeafOrdered(t, None, None, c, newId);
        LeafShape(t, c, newId);
        NewRootLive(out, newId + 1);
      }
    }

    lemma NewRootLive(out: Outcome, id: uint32)
      requires out.Split? && out.sep.Size() + 2 + PAGE_HEADER_SIZE <= PAGE_SIZE
      requires Shape(out.left) && Shape(out.right) && out.left.Leaf? && out.right.Leaf?
      requires Ordered(out.left, None, Some(out.sep.key)) && Ordered(out.right, Some(out.sep.key), None)
      requires out.left.id != out.right.id && id != out.left.id && id != out.right.id
      ensures var t := NewRoot(out, id);
              && Shape(t) && Links(t) && Ordered(t, None, None) && Distinct(t)
              && Flatten(t) == Flatten(out.left) + Flatten(out.right)
    {
      NewRootShape(out, id);
      NewRootOrder(out, id);
      NewRootIds(out, id);
    }

    /** BTree.Insert once there is a root. */
    method InsertAtRoot(key: Bytes, value: Bytes, ghost t: Tree) returns (r: Result<()>)
      requires Holds(t) && pager.pageCount + 2 < INVALID_PAGE
      requires FitsTop(t, NewCell(key, value)) && NewCell(key, value).Encodable()
      modifies this, pager, pager.Objects()
      ensures pager.Valid() && r == Ok(()) && pager.KeptOrNew()
      ensures Inserted(t, NewCell(key, value), old(pager.pageCount) as nat)
      ensures pager.pageCount == NextId(t, NewCell(key, value), old(pager.pageCount))
    {
      ghost var newId := pager.pageCount;
      NewIds(t);
      var out := InsertInto(rootPage, key, value, t, None, None);
      if out.Err? {
        return Err(InvalidPage);
      }
      GrowAbove(out.value, t, NewCell(key, value), newId);
      r := Ok(());
    }

    /** The end of BTree.Insert: a root that was split gets a new root over its halves. */
    method GrowAbove(over: Overflow, ghost t: Tree, ghost c: Cell, ghost newId: uint32)
      requires pager.Valid() && pager.pageCount < INVALID_PAGE && newId < INVALID_PAGE && rootPage == t.id
      requires Shape(t) && Links(t) && FitsTop(t, c) && over == Reported(InsertTree(t, c, newId))
      requires HeldOutcome(pager.store, InsertTree(t, c, newId))
      requires pager.pageCount == if Splits(t, c) then newId + 1 else newId
      requires Ordered(t, None, None) && Distinct(t) && newId + 2 < INVALID_PAGE
      requires newId !in Ids(t) && newId + 1 !in Ids(t)
      modifies this, pager
      ensures pager.Valid() && pager.KeptOrNew() && pager.pageCount == NextId(t, c, newId)
      ensures Inserted(t, c, newId as nat)
    {
      InsertShape(t, c, newId);
      if over.Overflow? {
        GrowRoot(over.key, over.value, over.page, InsertTree(t, c, newId));
      }
      InsertedLive(t, c, newId as nat);
    }

    /** A new root over the two halves of the old one. */
    method GrowRoot(midKey: Bytes, midVal: Bytes, newPage: uint32, ghost out: Outcome)
      requires pager.Valid() && pager.pageCount < INVALID_PAGE && HeldOutcome(pager.store, out)
      requires out.Split? && out.sep.Size() + 2 + PAGE_HEADER_SIZE <= PAGE_SIZE
      requires out.left.Leaf? && out.right.Leaf? && out.left.id == rootPage && out.right.id == newPage
      requires out.sep.key == midKey && out.sep.value == midVal
      modifies this, pager
      ensures pager.Valid() && pager.KeptOrNew() && pager.pageCount == old(pager.pageCount) + 1
      ensures rootPage == old(pager.pageCount) && Held(pager.store, NewRoot(out, rootPage))
    {
      pager.IdsBelowCount();
      var newRoot := pager.AllocatePage();
      pager.FormatPage(newRoot, INTERNAL, newPage);
      var w := pager.InsertCell(newRoot, Cell(rootPage, midKey, midVal), View(INTERNAL, [], newPage, PAGE_SIZE));
      rootPage := newRoot.id;
      ghost var t' := NewRoot(out, rootPage);
      assert pager.store[rootPage] == t'.page;
      assert t'.kids[0] == out.left && t'.kids[1] == out.right;
    }

    /** insertInto: down to the leaf, and back up with the separator of a split. */
    method InsertInto(pageID: uint32, key: Bytes, value: Bytes,
                      ghost t: Tree, ghost lo: Option<Bytes>, ghost hi: Option<Bytes>) returns (r: Result<Overflow>)
      requires pager.Valid() && Live(pager.store, t, lo, hi) && t.id == pageID && Distinct(t)
      requires Fits(t, NewCell(key, value)) && NewCell(key, value).Encodable()
      requires pager.pageCount < INVALID_PAGE
      modifies pager, pager.Objects()
      ensures pager.Valid()
      ensures r == Ok(Reported(InsertTree(t, NewCell(key, value), old(pager.pageCount))))
      ensures HeldOutcome(pager.store, InsertTree(t, NewCell(key, value), old(pager.pageCount)))
      ensures SameOutside(old(pager.store), pager.store, Ids(t))
      ensures if Splits(t, NewCell(key, value)) then AllocatedNext()
              else pager.pages == old(pager.pages) && pager.pageCount == old(pager.pageCount)
      decreases t, 1
    {
      LivePage(pager.store, t, lo, hi);
      var got := pager.GetPage(pageID);
      if got.Err? {
        return Err(InvalidPage);
      }
      var pg := got.value;
      var pt, count := PageKind(pg, t.page);
      if pt == LEAF {
        r := InsertLeaf(pg, key, value, t);
        return;
      }
      r := InsertBelow(pg, count, key, value, t, lo, hi);
    }

    /** insertInto at an internal page: into the child, and then the separator of a split. */
    method InsertBelow(pg: Page, count: nat, key: Bytes, value: Bytes,
                       ghost t: Tree, ghost lo: Option<Bytes>, ghost hi: Option<Bytes>) returns (r: Result<Overflow>)
      requires pager.Valid() && Live(pager.store, t, lo, hi) && Distinct(t)
      requires pager.Has(pg) && t.id == pg.id && t.Node? && count == |t.page.cells|
      requires Fits(t, NewCell(key, value)) && NewCell(key, value).Encodable()
      requires pager.pageCount < INVALID_PAGE
      modifies pager, pager.Objects()
      ensures pager.Valid()
      ensures r == Ok(Reported(InsertTree(t, NewCell(key, value), old(pager.pageCount))))
      ensures HeldOutcome(pager.store, InsertTree(t, NewCell(key, value), old(pager.pageCount)))
      ensures SameOutside(old(pager.store), pager.store, Ids(t))
      ensures if Splits(t, NewCell(key, value)) then AllocatedNext()
              else pager.pages == old(pager.pages) && pager.pageCount == old(pager.pageCount)
      decreases t, 0
    {
      LivePage(pager.store, t, lo, hi);
      var idx, found := pager.BinarySearch(pg, key, t.page);
      var childPtr := PointerOf(pg, idx, t.page);
      ghost var store0, newId := pager.store, pager.pageCount;
      pager.IdsBelowCount();
      BeforeChild(store0, t, lo, hi, NewCell(key, value), newId);
      r := InsertInto(childPtr, key, value, t.kids[idx], LoOf(t.page, lo, idx), HiOf(t.page, hi, idx));
      r := AfterChild(pg, idx, count, childPtr, r, store0, t, NewCell(key, value), newId);
    }

    /** What the recursive call needs of the child it goes to. */
    lemma BeforeChild(store: map<uint32, View>, t: Tree, lo: Option<Bytes>, hi: Option<Bytes>, c: Cell, newId: uint32)
      requires Live(store, t, lo, hi) && t.Node? && Distinct(t) && Fits(t, c) && newId !in store
      ensures var i := ChildIndex(t, c.key);
              && i < |t.kids| && t.kids[i].id == Pointer(t.page, i)
              && Live(store, t.kids[i], LoOf(t.page, lo, i), HiOf(t.page, hi, i))
              && Distinct(t.kids[i]) && Fits(t.kids[i], c) && newId !in Ids(t) && Ids(t.kids[i]) <= Ids(t)
              && t.id !in Ids(t.kids[i]) && (Splits(t, c) <==> Splits(t.kids[i], c)) && Sound(t.page)
    {
      LiveChild(store, t, lo, hi, c.key);
      HeldIds(store, t);
      KidIds(t, ChildIndex(t, c.key));
    }

    /** The end of insertInto, after the recursive call. */
    method AfterChild(pg: Page, idx: nat, count: nat, childPtr: uint32, r0: Result<Overflow>,
                      ghost store0: map<uint32, View>, ghost t: Tree, ghost c: Cell, ghost newId: uint32)
      returns (r: Result<Overflow>)
      requires pager.Valid() && pager.Has(pg) && t.Node? && pg.id == t.id
      requires Links(t) && Fits(t, c) && Held(store0, t) && Distinct(t) && newId !in store0
      requires idx == ChildIndex(t, c.key) && idx < |t.kids| && t.kids[idx].id == childPtr
      requires count == |t.page.cells| && Sound(t.page) && t.id !in Ids(t.kids[idx]) && Ids(t.kids[idx]) <= Ids(t)
      requires newId !in Ids(t.kids[idx]) && Distinct(t.kids[idx])
      requires r0 == Ok(Reported(InsertTree(t.kids[idx], c, newId)))
      requires HeldOutcome(pager.store, InsertTree(t.kids[idx], c, newId))
      requires SameOutside(store0, pager.store, Ids(t.kids[idx]))
      modifies pager`store, pg`dirty, pg.data
      ensures pager.Valid()
      ensures r == Ok(Reported(InsertTree(t, c, newId))) && HeldOutcome(pager.store, InsertTree(t, c, newId))
      ensures SameOutside(store0, pager.store, Ids(t))
    {
      HeldOthers(store0, pager.store, t, idx);
      ghost var out := InsertTree(t.kids[idx], c, newId);
      if r0.value == NoOverflow {
        HeldKept(store0, pager.store, t, idx, out.t);
        return Ok(NoOverflow);
      }
      InsertIds(t.kids[idx], c, newId);
      HeldSplit(store0, pager.store, t, idx, out, newId);
      AddToParent(pg, idx, count, Cell(childPtr, r0.value.key, r0.value.value), r0.value.page, t, out);
      r := Ok(NoOverflow);
    }

    ghost predicate HeldOutcome(store: map<uint32, View>, out: Outcome) {
      match out
      case Kept(t) => Held(store, t)
      case Split(left, _, right) => Held(store, left) && Held(store, right)
    }

    method PageKind(pg: Page, ghost v: View) returns (pt: byte, count: nat)
      requires pager.Valid() && pager.Has(pg) && pager.store[pg.id] == v
      ensures pt == v.ptype && count == |v.cells|
    {
      assert pager.PageOk(pg.id);
      pt, count := pg.Type(), pg.CellCount();
    }

    /** The child pointer at idx: the left pointer of that cell, or the rightmost pointer. */
    method PointerOf(pg: Page, idx: nat, ghost v: View) returns (p: uint32)
      requires pager.Valid() && pager.Has(pg) && pager.store[pg.id] == v
      ensures p == Pointer(v, idx)
    {
      assert pager.PageOk(pg.id);
      var count := pg.CellCount();
      if idx >= count {
        p := pg.RightmostPointer();
      } else {
        p := pg.CellOf(idx).leftPtr;
      }
    }

    /** The end of insertInto at the parent of a split page. */
    method AddToParent(pg: Page, idx: nat, count: nat, c: Cell, newPage: uint32, ghost t: Tree, ghost out: Outcome)
      requires pager.Valid() && pager.Has(pg) && t.Node? && t.id == pg.id && pager.store[pg.id] == t.page
      requires |t.kids| == |t.page.cells| + 1 && count == |t.page.cells| && idx <= count && Sound(t.page)
      requires out.Split? && t.page.Takes(out.sep) && newPage == out.right.id
      requires c == Cell(out.left.id, out.sep.key, out.sep.value)
      modifies pager`store, pg`dirty, pg.data
      ensures pager.Valid() && pager.store == old(pager.store)[t.id := AddSeparator(t, idx, out).page]
    {
      ghost var v := t.page;
      if idx >= count {
        pager.SetRightmostPointer(pg, newPage, v);
        v := v.(right := newPage);
      } else {
        var oldCell := CellOf(pg, idx, v);
        oldCell := oldCell.(leftPtr := newPage);
        OneOfTotal(v.cells, v.cells[idx]);
        pager.RewriteCell(pg, idx, oldCell, v);
        v := v.(cells := v.cells[idx := oldCell]);
      }
      var w := pager.InsertCell(pg, c, v);
    }

    method CellOf(pg: Page, idx: nat, ghost v: View) returns (c: Cell)
      requires pager.Valid() && pager.Has(pg) && pager.store[pg.id] == v && idx < |v.cells|
      ensures c == v.cells[idx]
    {
      assert pager.PageOk(pg.id);
      c := pg.CellOf(idx);
    }

    // ----- Deletion -----

    /** BTree.Delete of a key that is not a separator: exactly its cell goes. */
    method Delete(key: Bytes, ghost t: Tree) returns (r: Result<bool>)
      requires Holds(t) && !IsSeparator(t, key)
      modifies pager, pager.Objects()
      ensures r == Ok(HasKey(Flatten(t), key))
      ensures Holds(DeleteFromTree(t, key)) && Flatten(DeleteFromTree(t, key)) == Without(Flatten(t), key)
      ensures pager.pages == old(pager.pages) && pager.pageCount == old(pager.pageCount)
    {
      DeleteExact(t, None, None, key);
      DeleteIds(t, key);
      ShapeLinks(DeleteFromTree(t, key));
      r := DeleteFrom(rootPage, key, t, None, None);
    }

    /** deleteFrom, on the paths that meet no separator equal to the key. */
    method DeleteFrom(pageID: uint32, key: Bytes, ghost t: Tree, ghost lo: Option<Bytes>, ghost hi: Option<Bytes>)
      returns (r: Result<bool>)
      requires pager.Valid() && Live(pager.store, t, lo, hi) && t.id == pageID && Distinct(t)
      requires !IsSeparator(t, key) && AtLeast(lo, key) && Below(key, hi)
      modifies pager, pager.Objects()
      ensures pager.Valid() && pager.pages == old(pager.pages) && pager.pageCount == old(pager.pageCount)
      ensures r == Ok(HasKey(Flatten(t), key))
      ensures Held(pager.store, DeleteFromTree(t, key)) && SameOutside(old(pager.store), pager.store, Ids(t))
      decreases t, 1
    {
      LivePage(pager.store, t, lo, hi);
      var got := pager.GetPage(pageID);
      if got.Err? {
        return Err(InvalidPage);
      }
      var pg := got.value;
      var pt, count := PageKind(pg, t.page);
      LowerBoundSorted(t.page.cells, key);
      var idx, found := pager.BinarySearch(pg, key, t.page);
      if found {
        pager.RemoveCellAt(pg, idx, t.page);
        return Ok(true);
      }
      if pt == INTERNAL {
        r := DeleteBelow(pg, idx, key, t, lo, hi);
        return;
      }
      r := Ok(false);
    }

    /** deleteFrom at an internal page: in the child where the key belongs. */
    method DeleteBelow(pg: Page, idx: nat, key: Bytes, ghost t: Tree, ghost lo: Option<Bytes>, ghost hi: Option<Bytes>)
      returns (r: Result<bool>)
      requires pager.Valid() && Live(pager.store, t, lo, hi) && Distinct(t)
      requires pager.Has(pg) && t.id == pg.id && t.Node? && idx == ChildIndex(t, key)
      requires !IsSeparator(t, key) && AtLeast(lo, key) && Below(key, hi)
      modifies pager, pager.Objects()
      ensures pager.Valid() && pager.pages == old(pager.pages) && pager.pageCount == old(pager.pageCount)
      ensures r == Ok(HasKey(Flatten(t), key))
      ensures Held(pager.store, DeleteFromTree(t, key)) && SameOutside(old(pager.store), pager.store, Ids(t))
      decreases t, 0
    {
      ghost var store0 := pager.store;
      LivePage(store0, t, lo, hi);
      DeleteChild(store0, t, lo, hi, key);
      var childPtr := PointerOf(pg, idx, t.page);
      r := DeleteFrom(childPtr, key, t.kids[idx], LoOf(t.page, lo, idx), HiOf(t.page, hi, idx));
      HeldKept(store0, pager.store, t, idx, DeleteFromTree(t.kids[idx], key));
    }

    lemma DeleteChild(store: map<uint32, View>, t: Tree, lo: Option<Bytes>, hi: Option<Bytes>, key: Bytes)
      requires Live(store, t, lo, hi) && t.Node? && Distinct(t)
      requires !IsSeparator(t, key) && AtLeast(lo, key) && Below(key, hi)
      ensures var i := ChildIndex(t, key);
              && i < |t.kids| && t.kids[i].id == Pointer(t.page, i) && t.id !in Ids(t.kids[i])
              && Live(store, t.kids[i], LoOf(t.page, lo, i), HiOf(t.page, hi, i))
              && Distinct(t.kids[i]) && Ids(t.kids[i]) <= Ids(t) && !IsSeparator(t.kids[i], key)
              && AtLeast(LoOf(t.page, lo, i), key) && Below(key, HiOf(t.page, hi, i))
              && (HasKey(Flatten(t), key) <==> HasKey(Flatten(t.kids[i]), key))
    {
      var i := ChildIndex(t, key);
      LiveChild(store, t, lo, hi, key);
      KidIds(t, i);
      DescentRange(t, lo, hi, key);
      AroundKid(t, lo, hi, key);
      FlattenAround(t.kids, i);
      HasKeyAround(FlattenAll(t.kids[..i]), Flatten(t.kids[i]), FlattenAll(t.kids[i + 1..]), key);
    }

    lemma {:induction false} DeleteIds(t: Tree, key: Bytes)
      requires Links(t) && Distinct(t)
      ensures Ids(DeleteFromTree(t, key)) == Ids(t) && Distinct(DeleteFromTree(t, key))
      decreases t
    {
      if t.Node? {
        var i := ChildIndex(t, key);
        var k := DeleteFromTree(t.kids[i], key);
        DeleteIds(t.kids[i], key);
        forall j | 0 <= j < |t.kids|
          ensures Ids(t.kids[i := k][j]) == Ids(t.kids[j])
        {
        }
      }
    }

    /** The three ways an insertion into a leaf can go. */
    lemma LeafCases(t: Tree, c: Cell, newId: uint32)
      requires t.Leaf? && Fits(t, c)
      ensures var n := LowerBound(t.page.cells, c.key);
              if HasKey(t.page.cells, c.key) then
                !Splits(t, c) && n < |t.page.cells| && c.Size() <= t.page.cells[n].Size()
                && InsertTree(t, c, newId) == Kept(Leaf(t.id, t.page.(cells := t.page.cells[n := c])))
              else if t.page.Takes(c) then
                !Splits(t, c) && InsertTree(t, c, newId) == Kept(Leaf(t.id, t.page.InsertAt(c, n)))
              else Splits(t, c)
    {
    }

    /** Exactly one page was allocated. */
    twostate predicate AllocatedNext()
      reads pager
    {
      && old(pager.pageCount) in pager.pages && pager.AllocatedOne(pager.pages[old(pager.pageCount)])
    }

    /** splitLeaf: collect the cells, add the new one in order, and write the first half back to
        the page and the second half to a new one. */
    method SplitLeaf(pg: Page, key: Bytes, value: Bytes, ghost t: Tree) returns (r: Result<Overflow>)
      requires pager.Valid() && pager.Has(pg) && t == Leaf(pg.id, pager.store[pg.id])
      requires t.page.ptype == LEAF && Sorted(t.page.cells) && Sound(t.page)
      requires Fits(t, NewCell(key, value)) && Splits(t, NewCell(key, value)) && NewCell(key, value).Encodable()
      requires pager.pageCount < INVALID_PAGE
      modifies pager, pg`dirty, pg.data
      ensures pager.Valid() && AllocatedNext()
      ensures r == Ok(Reported(InsertTree(t, NewCell(key, value), old(pager.pageCount))))
      ensures pager.store == Stored(old(pager.store), InsertTree(t, NewCell(key, value), old(pager.pageCount)))
    {
      var cells := CollectCells(pg, t.page);
      cells := InsertSorted(cells, NewCell(key, value));
      var mid := |cells| / 2;
      UpsertSorted(t.page.cells, NewCell(key, value));
      EncodableAll(t.page.cells, NewCell(key, value), cells);
      var newPg := WriteHalves(pg, cells, mid, t.page);
      r := Ok(Overflow(cells[mid].key, cells[mid].value, newPg.id));
      SplitStored(t, NewCell(key, value), newPg.id, cells, old(pager.store), pager.store);
    }

    /** The second half of splitLeaf: the cells go back to the page and to a new one. */
    method WriteHalves(pg: Page, cells: seq<Cell>, mid: nat, ghost v: View) returns (newPg: Page)
      requires pager.Valid() && pager.Has(pg) && pager.store[pg.id] == v && mid <= |cells|
      requires CanPack(cells[..mid]) && CanPack(cells[mid..]) && forall x :: x in cells ==> x.Encodable()
      requires pager.pageCount < INVALID_PAGE
      modifies pager, pg`dirty, pg.data
      ensures pager.Valid() && AllocatedNext() && newPg.id == old(pager.pageCount) && newPg.id != pg.id
      ensures pager.store == old(pager.store)
                [newPg.id := View(0, [], 0, PAGE_SIZE)][newPg.id := View(LEAF, [], INVALID_PAGE, PAGE_SIZE)]
                [pg.id := v.Clear()][pg.id := Packed(v.ptype, cells[..mid], v.right)]
                [newPg.id := Packed(LEAF, cells[mid..], INVALID_PAGE)]
    {
      newPg := pager.AllocatePage();
      pager.FormatPage(newPg, LEAF, INVALID_PAGE);
      pager.ClearPage(pg, v);
      FillPage(pg, cells[..mid], v.Clear());
      FillPage(newPg, cells[mid..], View(LEAF, [], INVALID_PAGE, PAGE_SIZE));
    }

    lemma SplitStored(t: Tree, c: Cell, newId: uint32, all: seq<Cell>, s: map<uint32, View>, s': map<uint32, View>)
      requires t.Leaf? && t.page.ptype == LEAF && Fits(t, c) && Splits(t, c)
      requires all == Upsert(t.page.cells, c) && HalvesFit(all) && newId != t.id
      requires s' == s[newId := View(0, [], 0, PAGE_SIZE)][newId := View(LEAF, [], INVALID_PAGE, PAGE_SIZE)]
                      [t.id := t.page.Clear()][t.id := Packed(LEAF, all[..|all| / 2], t.page.right)]
                      [newId := Packed(LEAF, all[|all| / 2..], INVALID_PAGE)]
      ensures s' == Stored(s, InsertTree(t, c, newId))
    {
    }

    method CollectCells(pg: Page, ghost v: View) returns (cells: seq<Cell>)
      requires pager.Valid() && pager.Has(pg) && pager.store[pg.id] == v
      ensures cells == v.cells
    {
      assert pager.PageOk(pg.id);
      cells := pg.CollectCells();
    }

    lemma EncodableAll(cells: seq<Cell>, c: Cell, all: seq<Cell>)
      requires PAGE_HEADER_SIZE + TotalSize(cells) <= PAGE_SIZE && c.Encodable()
      requires forall x :: x in all ==> x in cells || x == c
      ensures forall x :: x in all ==> x.Encodable()
    {
      forall x | x in all && x != c
        ensures x.Encodable()
      {
        OneOfTotal(cells, x);
      }
    }

    lemma {:induction false} OneOfTotal(cells: seq<Cell>, x: Cell)
      requires x in cells
      ensures x.Size() <= TotalSize(cells)
    {
      var n := |cells| - 1;
      if x != cells[n] {
        OneOfTotal(cells[..n], x);
      }
    }

    /** The loops of splitLeaf: append the cells to an empty page. */
    method FillPage(pg: Page, cells: seq<Cell>, ghost v: View)
      requires pager.Valid() && pager.Has(pg) && pager.store[pg.id] == v
      requires v.cells == [] && v.content == PAGE_SIZE
      requires CanPack(cells) && forall x :: x in cells ==> x.Encodable()
      modifies pager`store, pg`dirty, pg.data
      ensures pager.Valid() && pager.store == old(pager.store)[pg.id := Packed(v.ptype, cells, v.right)]
    {
      for i := 0 to |cells|
        invariant pager.Valid() && CanPack(cells[..i])
        invariant pager.store == old(pager.store)[pg.id := Packed(v.ptype, cells[..i], v.right)]
      {
        PackStep(cells, i, v.ptype, v.right);
        var w := pager.InsertCell(pg, cells[i], Packed(v.ptype, cells[..i], v.right));
      }
      assert cells[..|cells|] == cells;
    }

    lemma PackStep(cells: seq<Cell>, i: nat, ptype: byte, right: uint32)
      requires i < |cells| && CanPack(cells)
      ensures CanPack(cells[..i]) && CanPack(cells[..i + 1]) && cells[i] in cells
      ensures var v := Packed(ptype, cells[..i], right);
              v.Takes(cells[i]) && v.InsertAt(cells[i], i) == Packed(ptype, cells[..i + 1], right)
    {
      assert cells[..i + 1][..i] == cells[..i];
      TotalSizeAppend(cells[..i + 1], cells[i + 1..]);
      assert cells == cells[..i + 1] + cells[i + 1..];
      var v := Packed(ptype, cells[..i], right);
      assert v.InsertAt(cells[i], i).cells == cells[..i + 1];
    }

    /** insertSorted: before the first cell with a larger key. */
    method InsertSorted(cells: seq<Cell>, c: Cell) returns (all: seq<Cell>)
      requires Sorted(cells) && !HasKey(cells, c.key)
      ensures all == Upsert(cells, c)
    {
      var idx := |cells|;
      for i := 0 to |cells|
        invariant idx == |cells|
        invariant forall j :: 0 <= j < i ==> Less(cells[j].key, c.key)
      {
        KeyCmpIsLess(c.key, cells[i].key);
        if KeyCmp(c.key, cells[i].key) < 0 {
          idx := i;
          LessAsymmetric(c.key, cells[i].key);
          break;
        }
      }
      LowerBoundUnique(cells, c.key, idx);
      all := cells[..idx] + [c] + cells[idx..];
    }
  }
}
