/** The cache is invisible: runs of the pager against runs of a plain map of pages. */
module PagerRun {
  import opened Bytes
  import opened Wrappers
  import opened Pages
  import opened PageOps
  import opened Lru
  import opened Pagers

  /** What a client does: read a page; read it and overwrite it; allocate one and overwrite it;
      free one; flush. */
  datatype Op = Fetch(id: uint32) | Update(id: uint32, data: Bytes) | Create(id: uint32, data: Bytes)
              | Free(id: uint32) | Flush(header: Header)

  /** The store, and the list of the cache. */
  datatype State = State(store: Store, order: seq<uint32>, cap: nat) {
    ghost predicate Linked() {
      NoDuplicates(order) && forall id :: id in order <==> id in store.cached
    }

    function Victim(id: uint32): Option<uint32> { Pagers.Victim(order, id, cap) }

    lemma VictimCached(id: uint32)
      requires Linked()
      ensures Evictable(store, id, Victim(id))
    {
      if Victim(id).Some? {
        assert Victim(id).value in order;
      }
    }
  }

  /** Pager.GetPage, as its contract states it. */
  ghost function Get(s: State, id: uint32): (t: State)
    requires s.Linked()
    ensures t.Linked()
  {
    s.VictimCached(id);
    PutOrderIds(s.order, id, s.cap, false);
    if Read(s.store, id) == None then s
    else State(GetStore(s.store, id, s.Victim(id)), PutOrder(s.order, id, s.cap, false), s.cap)
  }

  /** Pager.AllocatePage. */
  ghost function Allocate(s: State, id: uint32): (t: State)
    requires s.Linked()
    ensures t.Linked()
  {
    s.VictimCached(id);
    PutOrderIds(s.order, id, s.cap, false);
    State(PutPage(s.store, id, Entry(ZeroBytes(), false), s.Victim(id)), PutOrder(s.order, id, s.cap, false), s.cap)
  }

  /** Pager.Edit of a cached page. */
  ghost function Overwrite(s: State, id: uint32, d: Bytes): (t: State)
    requires s.Linked()
    ensures t.Linked()
  {
    if id in s.store.cached then s.(store := s.store.(cached := s.store.cached[id := Entry(d, true)])) else s
  }

  /** Pager.FreePage: the cached copy is dropped, dirty or not. */
  ghost function Drop(s: State, id: uint32): (t: State)
    requires s.Linked()
    ensures t.Linked()
  {
    WithoutKeepsOrder(s.order, id);
    State(s.store.(cached := s.store.cached - {id}), Without(s.order, id), s.cap)
  }

  /** Pager.FlushAll */
  ghost function FlushAll(s: State, h: Header): (t: State)
    requires s.Linked()
    ensures t.Linked()
  {
    var st := s.store.(file := WriteAt(s.store.file, 0, HeaderPage(h)));
    WriteBackExact(st, s.order);
    s.(store := WriteBack(st, s.order))
  }

  ghost function Step(s: State, op: Op): (t: State)
    requires s.Linked()
    ensures t.Linked()
  {
    match op
    case Fetch(id) => Get(s, id)
    case Update(id, d) => Overwrite(Get(s, id), id, d)
    case Create(id, d) => Overwrite(Allocate(s, id), id, d)
    case Free(id) => Drop(s, id)
    case Flush(h) => FlushAll(s, h)
  }

  ghost function Run(s: State, ops: seq<Op>): (t: State)
    requires s.Linked()
    ensures t.Linked()
  {
    if ops == [] then s else Step(Run(s, ops[..|ops| - 1]), ops[|ops| - 1])
  }

  /** The same step, and the same run, on a plain map of pages. */
  function PlainStep(world: map<uint32, Bytes>, op: Op): map<uint32, Bytes> {
    match op
    case Fetch(_) => world
    case Update(id, d) => world[id := d]
    case Create(id, d) => world[id := d]
    case Free(id) => world - {id}
    case Flush(_) => world
  }

  function PlainRun(world: map<uint32, Bytes>, ops: seq<Op>): map<uint32, Bytes> {
    if ops == [] then world else PlainStep(PlainRun(world, ops[..|ops| - 1]), ops[|ops| - 1])
  }

  /** Updates go to pages that exist, and clients leave page 0, the header page, alone. */
  predicate Allowed(world: map<uint32, Bytes>, op: Op) {
    match op
    case Fetch(id) => id != 0
    case Update(id, _) => id in world && id != 0
    case Create(id, _) => id != 0
    case Free(id) => id != 0
    case Flush(_) => true
  }

  predicate AllowedRun(world: map<uint32, Bytes>, ops: seq<Op>) {
    ops == [] || (AllowedRun(world, ops[..|ops| - 1]) && Allowed(PlainRun(world, ops[..|ops| - 1]), ops[|ops| - 1]))
  }

  predicate ShowsAt(st: Store, world: map<uint32, Bytes>, id: uint32) {
    Settled(st, id) && (id in world ==> Read(st, id) == Some(world[id]))
  }

  /** Every page of the map reads the same through the cache, and is settled; the header page
      aside, which is never cached. */
  ghost predicate Shows(s: State, world: map<uint32, Bytes>) {
    (forall id: uint32 {:trigger ShowsAt(s.store, world, id)} :: id != 0 ==> ShowsAt(s.store, world, id))
    && 0 !in s.store.cached
  }

  lemma GetShows(s: State, id: uint32, world: map<uint32, Bytes>)
    requires s.Linked() && Shows(s, world) && id != 0
    ensures Shows(Get(s, id), world)
    ensures id in world ==> id in Get(s, id).store.cached
  {
    assert ShowsAt(s.store, world, id);
    if Read(s.store, id).Some? && id !in s.store.cached {
      s.VictimCached(id);
      var e := Entry(s.store.file[id], false);
      PutKeeps(s.store, id, e, s.Victim(id));
      var now := PutPage(s.store, id, e, s.Victim(id));
      assert now.file[id] == s.store.file[id];
      forall x: uint32 | x != 0
        ensures ShowsAt(now, world, x)
      {
        assert ShowsAt(s.store, world, x);
        assert x != id ==> SameRead(s.store, now, x);
      }
    }
  }

  lemma OverwriteShows(s: State, id: uint32, world: map<uint32, Bytes>, d: Bytes)
    requires s.Linked() && id in s.store.cached && id != 0 && 0 !in s.store.cached
    requires forall x: uint32 {:trigger ShowsAt(s.store, world, x)} :: x != 0 && x != id ==> ShowsAt(s.store, world, x)
    ensures Shows(Overwrite(s, id, d), world[id := d])
  {
    var now, after := Overwrite(s, id, d).store, world[id := d];
    forall x: uint32 | x != 0
      ensures ShowsAt(now, after, x)
    {
      assert x != id ==> ShowsAt(s.store, world, x);
    }
  }

  lemma AllocateShows(s: State, id: uint32, world: map<uint32, Bytes>, d: Bytes)
    requires s.Linked() && Shows(s, world) && id != 0
    ensures Shows(Overwrite(Allocate(s, id), id, d), world[id := d])
  {
    s.VictimCached(id);
    var e := Entry(ZeroBytes(), false);
    PutKeeps(s.store, id, e, s.Victim(id));
    var now := Allocate(s, id);
    forall x: uint32 | x != 0 && x != id
      ensures ShowsAt(now.store, world, x)
    {
      assert ShowsAt(s.store, world, x);
      assert SameRead(s.store, now.store, x);
    }
    OverwriteShows(now, id, world, d);
  }

  lemma DropShows(s: State, id: uint32, world: map<uint32, Bytes>)
    requires s.Linked() && Shows(s, world) && id != 0
    ensures Shows(Drop(s, id), world - {id})
  {
    forall x: uint32 | x != 0
      ensures ShowsAt(Drop(s, id).store, world - {id}, x)
    {
      assert ShowsAt(s.store, world, x);
    }
  }

  lemma FlushShows(s: State, h: Header, world: map<uint32, Bytes>)
    requires s.Linked() && Shows(s, world)
    ensures Shows(FlushAll(s, h), world)
    ensures var flushed := Store(map[], FlushAll(s, h).store.file);
            && Read(flushed, 0) == Some(HeaderPage(h))
            && (forall id :: id in world && id != 0 ==> Read(flushed, id) == Some(world[id]))
  {
    var st := s.store.(file := WriteAt(s.store.file, 0, HeaderPage(h)));
    var now := FlushAll(s, h).store;
    WriteBackExact(st, s.order);
    assert SameRead(st, now, 0);
    forall id: uint32 | id != 0
      ensures ShowsAt(now, world, id)
      ensures id in world ==> Read(Store(map[], now.file), id) == Some(world[id])
    {
      assert ShowsAt(s.store, world, id);
      assert SameRead(s.store, st, id) && Settled(st, id);
      assert SameRead(st, now, id);
      if id in world {
        FlushedFile(st, s.order, id);
      }
    }
  }

  /** Over any run the cache is invisible: the pages read as the plain map says. */
  lemma {:induction false} CacheIsInvisible(s: State, world: map<uint32, Bytes>, ops: seq<Op>)
    requires s.Linked() && Shows(s, world) && AllowedRun(world, ops)
    ensures Shows(Run(s, ops), PlainRun(world, ops))
  {
    if ops != [] {
      var n := |ops| - 1;
      CacheIsInvisible(s, world, ops[..n]);
      StepShows(Run(s, ops[..n]), PlainRun(world, ops[..n]), ops[n]);
    }
  }

  lemma StepShows(s: State, world: map<uint32, Bytes>, op: Op)
    requires s.Linked() && Shows(s, world) && Allowed(world, op)
    ensures Shows(Step(s, op), PlainStep(world, op))
  {
    match op {
      case Fetch(id) => GetShows(s, id, world);
      case Update(id, d) => {
        GetShows(s, id, world);
        OverwriteShows(Get(s, id), id, world, d);
      }
      case Create(id, d) => AllocateShows(s, id, world, d);
      case Free(id) => DropShows(s, id, world);
      case Flush(h) => FlushShows(s, h, world);
    }
  }

  /** A run that ends with a flush leaves the header and every page of the plain map in the
      file, so that opening it with an empty cache shows the same pages. */
  lemma FlushedRunIsDurable(s: State, world: map<uint32, Bytes>, ops: seq<Op>, h: Header)
    requires s.Linked() && Shows(s, world) && AllowedRun(world, ops)
    ensures var reopen := Store(map[], FlushAll(Run(s, ops), h).store.file);
            && Read(reopen, 0) == Some(HeaderPage(h))
            && (forall id :: id in PlainRun(world, ops) && id != 0 ==>
                  Read(reopen, id) == Some(PlainRun(world, ops)[id]))
  {
    CacheIsInvisible(s, world, ops);
    FlushShows(Run(s, ops), h, PlainRun(world, ops));
  }
}
