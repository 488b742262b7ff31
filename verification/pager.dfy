/** The pager: a write-back cache over a file of pages (pager.go:116-145, 244-266, 334-463). */
module Pagers {
  import opened Bytes
  import opened Wrappers
  import opened Pages
  import opened PageOps
  import opened Lru

  // ----- What is cached and what is on disk, as values -----

  datatype Entry = Entry(data: Bytes, dirty: bool)

  /** The cached pages and the file, page by page. */
  datatype Store = Store(cached: map<uint32, Entry>, file: seq<Bytes>)

  /** File.WriteAt at a page boundary: writing past the end leaves a hole of zeros. */
  function WriteAt(file: seq<Bytes>, id: uint32, d: Bytes): (r: seq<Bytes>)
    ensures |r| == if id < |file| then |file| else id + 1
    ensures r[id] == d
    ensures forall i :: 0 <= i < |file| && i != id ==> r[i] == file[i]
    ensures forall i :: |file| <= i < id ==> r[i] == ZeroBytes()
  {
    if id < |file| then file[id := d]
    else file + seq(id - |file|, _ => ZeroBytes()) + [d]
  }

  /** What a read of page id shows: the cached copy, or the one in the file. */
  function Read(st: Store, id: uint32): Option<Bytes> {
    if id in st.cached then Some(st.cached[id].data)
    else if id < |st.file| then Some(st.file[id])
    else None
  }

  /** A clean cached page equals its file copy. */
  predicate Settled(st: Store, id: uint32) {
    id in st.cached && !st.cached[id].dirty ==> id < |st.file| && st.file[id] == st.cached[id].data
  }

  ghost predicate AllSettled(st: Store) {
    forall id: uint32 :: Settled(st, id)
  }

  /** Page id reads the same in both, or as a hole of zeros where there was no page. */
  predicate SameRead(before: Store, now: Store, id: uint32) {
    Read(now, id) == Read(before, id) || (Read(before, id) == None && Read(now, id) == Some(ZeroBytes()))
  }

  ghost predicate Transparent(before: Store, now: Store) {
    forall id: uint32 :: SameRead(before, now, id)
  }

  /** writePage of a page that is dropped from, or stays in, the cache. */
  function Evict(st: Store, victim: uint32): Store
    requires victim in st.cached
  {
    var e := st.cached[victim];
    Store(st.cached - {victim}, if e.dirty then WriteAt(st.file, victim, e.data) else st.file)
  }

  function Clean(st: Store, id: uint32): Store {
    if id in st.cached && st.cached[id].dirty then
      var d := st.cached[id].data;
      Store(st.cached[id := Entry(d, false)], WriteAt(st.file, id, d))
    else st
  }

  /** An eviction is invisible exactly when the page was settled; no other page ever changes. */
  lemma EvictExact(st: Store, victim: uint32)
    requires victim in st.cached
    ensures Read(Evict(st, victim), victim) == Read(st, victim) <==> Settled(st, victim)
    ensures forall id: uint32 :: id != victim ==> SameRead(st, Evict(st, victim), id)
    ensures forall id: uint32 :: Settled(st, id) ==> Settled(Evict(st, victim), id)
  {
  }

  /** The victim of a put, no page being pinned. */
  function Victim(order: seq<uint32>, id: uint32, cap: nat): Option<uint32> {
    if id !in order && |order| >= cap && order != [] then Some(order[|order| - 1]) else None
  }

  predicate Evictable(st: Store, id: uint32, victim: Option<uint32>) {
    victim.Some? ==> victim.value in st.cached && victim.value != id
  }

  function AfterEviction(st: Store, victim: Option<uint32>): Store
    requires victim.Some? ==> victim.value in st.cached
  {
    if victim.Some? then Evict(st, victim.value) else st
  }

  /** The cache takes a page, giving up the victim. */
  function PutPage(st: Store, id: uint32, e: Entry, victim: Option<uint32>): Store
    requires Evictable(st, id, victim)
  {
    var s := AfterEviction(st, victim);
    Store(s.cached[id := e], s.file)
  }

  /** Whatever page is brought in, the pages that were settled read as before and stay settled. */
  lemma PutKeeps(st: Store, id: uint32, e: Entry, victim: Option<uint32>)
    requires Evictable(st, id, victim)
    ensures forall x: uint32 :: x != id && Settled(st, x) ==>
              SameRead(st, PutPage(st, id, e, victim), x) && Settled(PutPage(st, id, e, victim), x)
  {
    if victim.Some? {
      EvictExact(st, victim.value);
    }
  }

  /** Reading a page in from the file changes no page, when every page is settled. */
  lemma ReadInTransparent(st: Store, id: uint32, victim: Option<uint32>)
    requires Evictable(st, id, victim) && AllSettled(st) && id !in st.cached && id < |st.file|
    ensures Transparent(st, PutPage(st, id, Entry(st.file[id], false), victim))
    ensures AllSettled(PutPage(st, id, Entry(st.file[id], false), victim))
  {
    PutKeeps(st, id, Entry(st.file[id], false), victim);
    var now := PutPage(st, id, Entry(st.file[id], false), victim);
    assert now.file[id] == st.file[id];
    forall x: uint32
      ensures SameRead(st, now, x) && Settled(now, x)
    {
      assert Settled(st, x);
    }
  }

  /** FlushAll writes the dirty pages back in list order. */
  function WriteBack(st: Store, ids: seq<uint32>): Store {
    if ids == [] then st else Clean(WriteBack(st, ids[..|ids| - 1]), ids[|ids| - 1])
  }

  lemma {:induction false} WriteBackExact(st: Store, ids: seq<uint32>)
    ensures var now := WriteBack(st, ids);
            && Transparent(st, now)
            && (forall id: uint32 :: Settled(st, id) ==> Settled(now, id))
            && now.cached.Keys == st.cached.Keys
            && (forall id :: id in st.cached ==>
                  now.cached[id] == Entry(st.cached[id].data, st.cached[id].dirty && id !in ids))
  {
    if ids != [] {
      var n := |ids| - 1;
      WriteBackExact(st, ids[..n]);
      var mid := WriteBack(st, ids[..n]);
      CleanExact(mid, ids[n]);
      assert ids == ids[..n] + [ids[n]];
      forall id: uint32
        ensures SameRead(st, Clean(mid, ids[n]), id)
      {
        assert SameRead(st, mid, id) && SameRead(mid, Clean(mid, ids[n]), id);
      }
    }
  }

  lemma CleanExact(st: Store, id: uint32)
    ensures Transparent(st, Clean(st, id))
    ensures forall x: uint32 :: Settled(st, x) ==> Settled(Clean(st, id), x)
    ensures Clean(st, id).cached.Keys == st.cached.Keys
    ensures forall x :: x in st.cached ==>
              Clean(st, id).cached[x] == Entry(st.cached[x].data, st.cached[x].dirty && x != id)
  {
  }

  /** After a flush the file is the logical contents: every page, other than the header page,
      that could be read before is in the file as it read. */
  lemma FlushedFile(st: Store, ids: seq<uint32>, id: uint32)
    requires Settled(st, id) && (forall x :: x in st.cached ==> x in ids)
    requires Read(st, id).Some?
    ensures var now := WriteBack(st, ids);
            id < |now.file| && now.file[id] == Read(st, id).value == Read(now, id).value
  {
    WriteBackExact(st, ids);
    assert SameRead(st, WriteBack(st, ids), id);
    assert Settled(WriteBack(st, ids), id);
  }

  // ----- The header page -----

  datatype Header = Header(version: uint32, pageSize: uint32, pageCount: uint32, freeList: uint32,
                           rootPage: uint32, schemaPage: uint32)

  const HEADER_SIZE := 100
  const FILE_VERSION: uint32 := 3
  const MAGIC: Bytes := [83, 81, 76, 71, 79, 0, 0, 0]

  function EncodeHeader(h: Header): (b: Bytes)
    ensures |b| == HEADER_SIZE
  {
    MAGIC + Words([h.version, h.pageSize, h.pageCount, h.freeList, h.rootPage, h.schemaPage])
    + seq(HEADER_SIZE - 32, _ => 0 as byte)
  }

  function Words(ws: seq<uint32>): (b: Bytes)
    ensures |b| == 4 * |ws|
  {
    if ws == [] then [] else Words(ws[..|ws| - 1]) + U32Bytes(ws[|ws| - 1])
  }

  lemma {:induction false} WordAt(b: Bytes, before: Bytes, ws: seq<uint32>, rest: Bytes, k: nat)
    requires b == before + Words(ws) + rest && k < |ws|
    ensures GetU32(b, |before| + 4 * k) == ws[k]
  {
    var n := |ws| - 1;
    var last := U32Bytes(ws[n]);
    var front := Words(ws[..n]);
    assert Words(ws) == front + last;
    if k == n {
      var at := |before| + 4 * n;
      assert b[at..at + 4] == last;
      assert b[at] == last[0] && b[at + 1] == last[1] && b[at + 2] == last[2] && b[at + 3] == last[3];
    } else {
      assert b == before + front + (last + rest);
      WordAt(b, before, ws[..n], last + rest, k);
    }
  }

  /** DecodeHeader and loadHeader's check of the magic. */
  function DecodeHeader(b: Bytes): Result<Header> {
    if |b| < HEADER_SIZE then Err(Truncated)
    else if b[..5] != MAGIC[..5] then Err(BadType)
    else Ok(Header(GetU32(b, 8), GetU32(b, 12), GetU32(b, 16), GetU32(b, 20), GetU32(b, 24), GetU32(b, 28)))
  }

  /** The header page: the encoded header, padded with zeros. */
  function HeaderPage(h: Header): (d: Bytes)
    ensures |d| == PAGE_SIZE
  {
    EncodeHeader(h) + seq(PAGE_SIZE - HEADER_SIZE, _ => 0 as byte)
  }

  /** Opening the file reads back the header that was written, whatever pads it. */
  lemma HeaderRoundTrip(h: Header, rest: Bytes)
    ensures DecodeHeader(EncodeHeader(h) + rest) == Ok(h)
  {
    var ws := [h.version, h.pageSize, h.pageCount, h.freeList, h.rootPage, h.schemaPage];
    var b := EncodeHeader(h) + rest;
    var z := seq(HEADER_SIZE - 32, _ => 0 as byte) + rest;
    assert b == MAGIC + Words(ws) + z;
    assert b[..5] == MAGIC[..5];
    WordAt(b, MAGIC, ws, z, 0);
    WordAt(b, MAGIC, ws, z, 1);
    WordAt(b, MAGIC, ws, z, 2);
    WordAt(b, MAGIC, ws, z, 3);
    WordAt(b, MAGIC, ws, z, 4);
    WordAt(b, MAGIC, ws, z, 5);
  }

  /** What GetPage leaves: a hit changes nothing, a miss brings the file's page in. */
  function GetStore(st: Store, id: uint32, victim: Option<uint32>): Store
    requires Evictable(st, id, victim)
  {
    if id in st.cached || id >= |st.file| then st
    else PutPage(st, id, Entry(st.file[id], false), victim)
  }

  /** GetPage changes no page, when every page is settled. */
  lemma GetTransparent(st: Store, id: uint32, victim: Option<uint32>)
    requires Evictable(st, id, victim) && AllSettled(st)
    ensures Transparent(st, GetStore(st, id, victim)) && AllSettled(GetStore(st, id, victim))
  {
    if id !in st.cached && id < |st.file| {
      ReadInTransparent(st, id, victim);
    }
  }

  // ----- The pager -----

  class Pager {
    const cache: LruCache
    var file: seq<Bytes>
    var header: Header
    var freePages: seq<uint32>
    /** What the cached pages and the file hold. */
    ghost var store: Store

    /** NewPager on a missing file (initDB): a header page and an empty leaf for the schema. */
    constructor Create(cap: nat)
      ensures Valid() && AllSettled(store)
      ensures cache.cap == cap && cache.order == [] && freePages == []
      ensures header == Header(FILE_VERSION, PAGE_SIZE, 2, INVALID_PAGE, INVALID_PAGE, 1)
      ensures |file| == 2 && file[0] == HeaderPage(header)
      ensures WellFormed(file[1]) && ViewOf(file[1]) == View(LEAF, [], INVALID_PAGE, PAGE_SIZE)
    {
      var h := Header(FILE_VERSION, PAGE_SIZE, 2, INVALID_PAGE, INVALID_PAGE, 1);
      var schema := new Page(1);
      schema.SetType(LEAF);
      schema.Format(INVALID_PAGE);
      cache := new LruCache(cap);
      header := h;
      freePages := [];
      file := [HeaderPage(h), schema.data[..]];
      store := Store(map[], [HeaderPage(h), schema.data[..]]);
    }

    /** NewPager on an existing file (loadHeader). */
    constructor Open(cap: nat, pages: seq<Bytes>, h: Header)
      requires |pages| > 0 && DecodeHeader(pages[0]) == Ok(h)
      requires forall i :: 0 <= i < |pages| ==> |pages[i]| == PAGE_SIZE
      ensures Valid() && AllSettled(store)
      ensures cache.cap == cap && cache.order == [] && freePages == []
      ensures header == h && store == Store(map[], pages)
    {
      cache := new LruCache(cap);
      header := h;
      freePages := [];
      file := pages;
      store := Store(map[], pages);
    }

    ghost function Objects(): set<object>
      reads this, cache
    {
      (set id | id in cache.items :: cache.items[id] as object)
      + (set id | id in cache.items :: cache.items[id].data as object)
    }

    /** The page is filed under its own id, unpinned, and holds what the store says. */
    ghost predicate PageOk(id: uint32)
      requires id in cache.items
      reads this, cache, cache.items[id], cache.items[id].data
    {
      var pg := cache.items[id];
      && pg.id == id && pg.pins == 0 && pg.data.Length == PAGE_SIZE
      && id in store.cached && store.cached[id] == Entry(pg.data[..], pg.dirty)
    }

    ghost predicate PagesApart(i: uint32, j: uint32)
      requires i in cache.items && j in cache.items
      reads this, cache
    {
      cache.items[i].data != cache.items[j].data
    }

    ghost predicate Valid()
      reads this, cache, Objects()
    {
      && cache.Linked()
      && store.cached.Keys == cache.items.Keys
      && store.file == file
      && (forall i :: 0 <= i < |file| ==> |file[i]| == PAGE_SIZE)
      && (forall id {:trigger PageOk(id)} :: id in cache.items ==> PageOk(id))
      && (forall i, j {:trigger PagesApart(i, j)} ::
            i in cache.items && j in cache.items && i != j ==> PagesApart(i, j))
    }

    ghost predicate Has(pg: Page)
      reads this, cache
    {
      pg.id in cache.items && cache.items[pg.id] == pg
    }

    /** GetPage: from the cache, else read in from the file, writing back what that evicts. */
    method GetPage(id: uint32) returns (r: Result<Page>)
      requires Valid()
      modifies this`file, this`store, cache, cache.items.Values`dirty
      ensures Valid()
      ensures Read(old(store), id) == None ==>
                r == Err(InvalidPage) && store == old(store) && cache.order == old(cache.order)
      ensures Read(old(store), id).Some? ==>
                && r.Ok? && Has(r.value) && r.value.id == id
                && r.value.data[..] == Read(old(store), id).value
                && cache.order == PutOrder(old(cache.order), id, cache.cap, false)
      ensures var victim := Victim(old(cache.order), id, cache.cap);
              Evictable(old(store), id, victim) && store == GetStore(old(store), id, victim)
      ensures KeptOrNew()
    {
      VictimCached(id);
      assert id in cache.items ==> PageOk(id);
      var hit := cache.Get(id);
      if hit != null {
        SamePages();
        return Ok(hit);
      }
      if id >= |file| {
        return Err(InvalidPage);
      }
      var pg := new Page(id);
      CopyIn(pg, file[id]);
      Install(pg, file[id]);
      r := Ok(pg);
    }

    /** Every cached page object was cached before, under the same id, or is new. */
    twostate predicate KeptOrNew()
      reads this, cache
    {
      forall x :: x in cache.items ==>
        || (x in old(cache.items) && cache.items[x] == old(cache.items)[x])
        || (fresh(cache.items[x]) && fresh(cache.items[x].data))
    }

    method CopyIn(pg: Page, d: Bytes)
      requires pg.data.Length == PAGE_SIZE == |d|
      modifies pg.data
      ensures pg.data[..] == d
    {
      forall k | 0 <= k < PAGE_SIZE {
        pg.data[k] := d[k];
      }
    }

    lemma VictimCached(id: uint32)
      requires Valid()
      ensures var victim := Victim(cache.order, id, cache.cap);
              Evictable(store, id, victim) && (victim.Some? ==> PageOk(victim.value))
    {
      var victim := Victim(cache.order, id, cache.cap);
      if victim.Some? {
        assert victim.value in cache.order;
        assert PageOk(victim.value);
      }
    }

    /** cache.put, then writePage of a dirty evicted page. */
    method Install(pg: Page, ghost d: Bytes)
      requires Valid() && pg.pins == 0 && !pg.dirty && pg.data.Length == PAGE_SIZE && pg.data[..] == d
      requires forall x :: x in cache.items ==> cache.items[x] != pg && cache.items[x].data != pg.data
      modifies this`file, this`store, cache, cache.items.Values`dirty
      ensures Valid() && Has(pg) && !pg.dirty
      ensures forall x :: x in cache.items && x != pg.id ==>
                x in old(cache.items) && cache.items[x] == old(cache.items)[x]
      ensures cache.order == PutOrder(old(cache.order), pg.id, cache.cap, false)
      ensures var victim := Victim(old(cache.order), pg.id, cache.cap);
              Evictable(old(store), pg.id, victim) && store == PutPage(old(store), pg.id, Entry(d, false), victim)
    {
      VictimCached(pg.id);
      ghost var victim := Victim(cache.order, pg.id, cache.cap);
      FiledById();
      var evicted := cache.Put(pg.id, pg);
      if evicted != null && evicted.dirty {
        WritePage(evicted);
      }
      store := PutPage(store, pg.id, Entry(d, false), victim);
      Installed(pg, d, victim);
    }

    /** writePage */
    method WritePage(pg: Page)
      requires pg.data.Length == PAGE_SIZE
      modifies this`file, pg`dirty
      ensures file == WriteAt(old(file), pg.id, pg.data[..]) && !pg.dirty
    {
      file := WriteAt(file, pg.id, pg.data[..]);
      pg.dirty := false;
    }

    twostate lemma Installed(new pg: Page, new d: Bytes, new victim: Option<uint32>)
      requires old(Valid()) && cache.Linked()
      requires Evictable(old(store), pg.id, victim)
      requires victim.Some? ==> old(PageOk(victim.value))
      requires pg.pins == 0 && !pg.dirty && pg.data.Length == PAGE_SIZE && pg.data[..] == d
      requires forall x :: x in old(cache.items) ==> old(cache.items)[x] != pg && old(cache.items)[x].data != pg.data
      requires cache.items == (if victim.Some? then old(cache.items) - {victim.value}
                               else old(cache.items))[pg.id := pg]
      requires store == PutPage(old(store), pg.id, Entry(d, false), victim)
      requires file == AfterEviction(old(store), victim).file
      requires forall x :: x in cache.items && x != pg.id ==>
                 unchanged(cache.items[x]) && unchanged(cache.items[x].data)
      ensures Valid()
    {
      assert store.cached.Keys == cache.items.Keys;
      forall x | x in cache.items
        ensures PageOk(x)
      {
        assert x != pg.id ==> old(PageOk(x));
      }
      forall i, j | i in cache.items && j in cache.items && i != j
        ensures PagesApart(i, j)
      {
        assert i != pg.id && j != pg.id ==> old(PagesApart(i, j));
      }
    }

    lemma FiledById()
      requires Valid()
      ensures forall x :: x in cache.items ==> cache.items[x].id == x
    {
      forall x | x in cache.items
        ensures cache.items[x].id == x
      {
        assert PageOk(x);
      }
    }

    lemma OthersApart(pg: Page)
      requires Valid() && Has(pg)
      ensures PageOk(pg.id)
      ensures forall x :: x in cache.items && x != pg.id ==> cache.items[x] != pg && cache.items[x].data != pg.data
    {
      assert PageOk(pg.id);
      forall x | x in cache.items && x != pg.id
        ensures cache.items[x] != pg && cache.items[x].data != pg.data
      {
        assert PageOk(x) && PagesApart(x, pg.id);
      }
    }

    /** No cached page changed. */
    twostate lemma SamePages()
      requires old(Valid()) && cache.Linked()
      requires cache.items == old(cache.items) && store.cached == old(store.cached) && store.file == file
      requires forall i :: 0 <= i < |file| ==> |file[i]| == PAGE_SIZE
      requires forall id :: id in cache.items ==> unchanged(cache.items[id]) && unchanged(cache.items[id].data)
      ensures Valid()
    {
      forall id | id in cache.items
        ensures PageOk(id)
      {
        assert old(PageOk(id));
      }
      forall i, j | i in cache.items && j in cache.items && i != j
        ensures PagesApart(i, j)
      {
        assert old(PagesApart(i, j));
      }
    }

    /** The id that AllocatePage uses: the last one freed, or else the next new one. */
    method TakeId() returns (id: uint32)
      requires Valid() && (freePages == [] ==> header.pageCount < INVALID_PAGE)
      modifies this`header, this`freePages
      ensures Valid()
      ensures if old(freePages) == []
              then id == old(header.pageCount) && freePages == []
                   && header == old(header).(pageCount := old(header.pageCount) + 1)
              else old(freePages) == freePages + [id] && header == old(header)
    {
      id := header.pageCount;
      if |freePages| > 0 {
        id := freePages[|freePages| - 1];
        freePages := freePages[..|freePages| - 1];
      } else {
        header := header.(pageCount := header.pageCount + 1);
      }
      SamePages();
    }

    /** AllocatePage: a page id off the free list, or the next new one, with a clean zeroed page. */
    method AllocatePage() returns (pg: Page)
      requires Valid() && (freePages == [] ==> header.pageCount < INVALID_PAGE)
      modifies this`file, this`store, this`header, this`freePages, cache, cache.items.Values`dirty
      ensures Valid() && Has(pg) && fresh(pg) && pg.data[..] == ZeroBytes()
      ensures if old(freePages) == []
              then pg.id == old(header.pageCount) && freePages == []
                   && header == old(header).(pageCount := old(header.pageCount) + 1)
              else old(freePages) == freePages + [pg.id] && header == old(header)
      ensures cache.order == PutOrder(old(cache.order), pg.id, cache.cap, false)
      ensures var victim := Victim(old(cache.order), pg.id, cache.cap);
              Evictable(old(store), pg.id, victim)
              && store == PutPage(old(store), pg.id, Entry(ZeroBytes(), false), victim)
    {
      var id := TakeId();
      pg := new Page(id);
      Install(pg, ZeroBytes());
    }

    /** A client writes a cached page and sets Dirty, as every page setter does. */
    method Edit(pg: Page, d: Bytes)
      requires Valid() && Has(pg) && |d| == PAGE_SIZE
      modifies this`store, pg`dirty, pg.data
      ensures Valid() && pg.data[..] == d
      ensures store == old(store).(cached := old(store).cached[pg.id := Entry(d, true)])
    {
      OthersApart(pg);
      CopyIn(pg, d);
      pg.dirty := true;
      store := store.(cached := store.cached[pg.id := Entry(d, true)]);
      Overwritten(pg);
    }

    /** A rollback puts saved bytes back and clears Dirty. */
    method PutBack(pg: Page, d: Bytes)
      requires Valid() && Has(pg) && |d| == PAGE_SIZE
      modifies this`store, pg`dirty, pg.data
      ensures Valid() && pg.data[..] == d
      ensures store == old(store).(cached := old(store).cached[pg.id := Entry(d, false)])
    {
      OthersApart(pg);
      CopyIn(pg, d);
      pg.dirty := false;
      store := store.(cached := store.cached[pg.id := Entry(d, false)]);
      Overwritten(pg);
    }

    /** One cached page was overwritten, and its entry with it. */
    twostate lemma Overwritten(pg: Page)
      requires old(Valid()) && cache.Linked() && old(Has(pg))
      requires cache.items == old(cache.items) && file == store.file
      requires forall i :: 0 <= i < |file| ==> |file[i]| == PAGE_SIZE
      requires pg.data.Length == PAGE_SIZE && pg.pins == old(pg.pins)
      requires store.cached == old(store).cached[pg.id := Entry(pg.data[..], pg.dirty)]
      requires forall x :: x in cache.items && x != pg.id ==>
                 unchanged(cache.items[x]) && unchanged(cache.items[x].data)
      ensures Valid()
    {
      forall x | x in cache.items
        ensures PageOk(x)
      {
        assert old(PageOk(x));
      }
      forall i, j | i in cache.items && j in cache.items && i != j
        ensures PagesApart(i, j)
      {
        assert old(PagesApart(i, j));
      }
    }

    /** FreePage: the id goes on the free list and its cached copy is dropped. */
    method FreePage(id: uint32)
      requires Valid()
      modifies this`freePages, this`store, cache
      ensures Valid() && freePages == old(freePages) + [id]
      ensures store == old(store).(cached := old(store).cached - {id})
      ensures cache.order == Without(old(cache.order), id)
    {
      freePages := freePages + [id];
      cache.Remove(id);
      store := store.(cached := store.cached - {id});
      forall x | x in cache.items
        ensures PageOk(x)
      {
        assert old(PageOk(x));
      }
      forall i, j | i in cache.items && j in cache.items && i != j
        ensures PagesApart(i, j)
      {
        assert old(PagesApart(i, j));
      }
    }

    method FlushPage(pg: Page)
      requires Valid() && Has(pg)
      modifies this`file, this`store, pg`dirty
      ensures Valid() && store == Clean(old(store), pg.id)
    {
      OthersApart(pg);
      if pg.dirty {
        WritePage(pg);
        store := Clean(store, pg.id);
        Overwritten(pg);
      }
    }

    method WriteHeader()
      requires Valid()
      modifies this`file, this`store
      ensures Valid()
      ensures store == old(store).(file := WriteAt(old(store).file, 0, HeaderPage(header)))
    {
      file := WriteAt(file, 0, HeaderPage(header));
      store := store.(file := file);
      SamePages();
    }

    /** FlushAll: the header page, then every dirty cached page in list order. */
    method FlushAll()
      requires Valid()
      modifies this`file, this`store, cache.items.Values`dirty
      ensures Valid()
      ensures store == WriteBack(old(store).(file := WriteAt(old(store).file, 0, HeaderPage(header))), cache.order)
    {
      WriteHeader();
      ghost var start := store;
      for i := 0 to |cache.order|
        invariant Valid()
        invariant store == WriteBack(start, cache.order[..i])
      {
        assert cache.order[i] in cache.order;
        var pg := cache.items[cache.order[i]];
        assert PageOk(cache.order[i]);
        FlushPage(pg);
        assert cache.order[..i + 1][..i] == cache.order[..i];
      }
      assert cache.order[..|cache.order|] == cache.order;
    }
  }
}
