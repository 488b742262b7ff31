/** Transactions: copy on first write, nested savepoints, rollback (transaction.go). */
module Transactions {
  import opened Bytes
  import opened Wrappers
  import opened Pages
  import opened PageOps
  import opened Lru
  import opened Pagers
  import opened PagerRun
  import opened Rollbacks

  datatype TxState = Active | Committed | RolledBack

  datatype Mark = Mark(name: string, pages: map<uint32, Bytes>)

  // ----- Saved pages against snapshots -----

  /** The saved copy of a page, or else the page itself, is what the snapshot shows. */
  predicate RestoresAt(now: Store, saved: map<uint32, Bytes>, snap: Store, id: uint32) {
    Read(snap, id).Some? ==> Read(snap, id) == if id in saved then Some(saved[id]) else Read(now, id)
  }

  /** The store overlaid with the saved pages is the snapshot. */
  ghost predicate Restores(now: Store, saved: map<uint32, Bytes>, snap: Store) {
    forall id: uint32 {:trigger RestoresAt(now, saved, snap, id)} :: RestoresAt(now, saved, snap, id)
  }

  /** Every savepoint restores its snapshot. */
  ghost predicate AllRestore(now: Store, points: seq<Mark>, snaps: seq<Store>) {
    |points| == |snaps| && forall j :: 0 <= j < |points| ==> Restores(now, points[j].pages, snaps[j])
  }

  /** Later savepoints save no more pages than earlier ones. */
  ghost predicate Nested(points: seq<Mark>, outer: map<uint32, Bytes>) {
    && (forall j :: 0 <= j < |points| ==> points[j].pages.Keys <= outer.Keys)
    && (forall i, j :: 0 <= i < j < |points| ==> points[j].pages.Keys <= points[i].pages.Keys)
  }

  function SaveIn(saved: map<uint32, Bytes>, id: uint32, d: Bytes): map<uint32, Bytes> {
    if id in saved then saved else saved[id := d]
  }

  function SaveInPoint(p: Mark, id: uint32, d: Bytes): Mark { p.(pages := SaveIn(p.pages, id, d)) }

  lemma SaveRestores(now: Store, saved: map<uint32, Bytes>, snap: Store, id: uint32)
    requires Restores(now, saved, snap) && Read(now, id).Some?
    ensures Restores(now, SaveIn(saved, id, Read(now, id).value), snap)
  {
    var more := SaveIn(saved, id, Read(now, id).value);
    forall x: uint32
      ensures RestoresAt(now, more, snap, x)
    {
      assert RestoresAt(now, saved, snap, x);
    }
  }

  /** A page that is saved may change freely; one that is not must read as before. */
  lemma ChangeRestores(before: Store, now: Store, saved: map<uint32, Bytes>, snap: Store)
    requires Restores(before, saved, snap)
    requires forall id: uint32 :: id in saved || SameRead(before, now, id)
    ensures Restores(now, saved, snap)
  {
    forall x: uint32
      ensures RestoresAt(now, saved, snap, x)
    {
      assert RestoresAt(before, saved, snap, x);
      assert x in saved || SameRead(before, now, x);
    }
  }

  /** Putting the saved pages back shows the snapshot. */
  lemma PutBackRestores(before: Store, now: Store, saved: map<uint32, Bytes>, snap: Store)
    requires Restores(before, saved, snap) && PutBack(before, now, saved)
    ensures Restores(now, map[], snap)
  {
    forall x: uint32
      ensures RestoresAt(now, map[], snap, x)
    {
      assert RestoresAt(before, saved, snap, x) && PutBackAt(before, now, saved, x);
    }
  }

  /** Putting back an inner savepoint's pages disturbs no outer one. */
  lemma PutBackKeepsOuter(before: Store, now: Store, inner: map<uint32, Bytes>, outer: map<uint32, Bytes>, snap: Store)
    requires PutBack(before, now, inner) && inner.Keys <= outer.Keys
    requires Restores(before, outer, snap)
    ensures Restores(now, outer, snap)
  {
    forall id: uint32
      ensures id in outer || SameRead(before, now, id)
    {
      assert PutBackAt(before, now, inner, id);
      assert id in inner ==> id in outer;
    }
    ChangeRestores(before, now, outer, snap);
  }

  /** The innermost savepoint of that name. */
  function Find(points: seq<Mark>, name: string): (i: int)
    ensures -1 <= i < |points|
    ensures i >= 0 ==> points[i].name == name
    ensures forall k :: i < k < |points| ==> points[k].name != name
  {
    if points == [] then -1
    else if points[|points| - 1].name == name then |points| - 1
    else Find(points[..|points| - 1], name)
  }

  // ----- One step of a transaction -----

  /** What a transaction keeps: the pages saved since it began, and its open savepoints. */
  datatype Log = Log(saved: map<uint32, Bytes>, points: seq<Mark>)

  /** Saved copies are whole pages. */
  predicate Whole(saved: map<uint32, Bytes>) { forall id :: id in saved ==> |saved[id]| == PAGE_SIZE }

  /** They are of pages that exist. */
  ghost predicate Saveable(now: Store, saved: map<uint32, Bytes>) { Whole(saved) && Existing(now, saved) }

  /** The log restores base, the store as the transaction began, and at each savepoint the store
      as the savepoint was set. */
  ghost predicate Keeps(now: Store, log: Log, base: Store, snaps: seq<Store>) {
    && Restores(now, log.saved, base)
    && AllRestore(now, log.points, snaps)
    && Nested(log.points, log.saved)
    && Saveable(now, log.saved)
    && (forall j :: 0 <= j < |log.points| ==> Saveable(now, log.points[j].pages))
  }

  function SaveAll(log: Log, id: uint32, d: Bytes): Log {
    Log(SaveIn(log.saved, id, d),
        seq(|log.points|, i requires 0 <= i < |log.points| => SaveInPoint(log.points[i], id, d)))
  }

  /** A copy of the page is kept everywhere. */
  ghost predicate Saved(log: Log, id: uint32) {
    id in log.saved && forall j :: 0 <= j < |log.points| ==> id in log.points[j].pages
  }

  lemma SaveKeeps(now: Store, log: Log, base: Store, snaps: seq<Store>, id: uint32)
    requires Keeps(now, log, base, snaps)
    requires Read(now, id).Some? && |Read(now, id).value| == PAGE_SIZE
    ensures Keeps(now, SaveAll(log, id, Read(now, id).value), base, snaps)
    ensures Saved(SaveAll(log, id, Read(now, id).value), id)
  {
    var d := Read(now, id).value;
    var more := SaveAll(log, id, d);
    SaveRestores(now, log.saved, base, id);
    forall j | 0 <= j < |log.points|
      ensures Restores(now, more.points[j].pages, snaps[j])
      ensures Saveable(now, more.points[j].pages)
    {
      SaveRestores(now, log.points[j].pages, snaps[j], id);
      assert Saveable(now, log.points[j].pages);
    }
    forall i, j | 0 <= i < j < |log.points|
      ensures more.points[j].pages.Keys <= more.points[i].pages.Keys
    {
      assert log.points[j].pages.Keys <= log.points[i].pages.Keys;
    }
  }

  /** Pages that are saved everywhere may change; the others must read as before. */
  lemma ChangeKeeps(before: Store, now: Store, log: Log, base: Store, snaps: seq<Store>)
    requires Keeps(before, log, base, snaps)
    requires forall id: uint32 :: Saved(log, id) || SameRead(before, now, id)
    requires forall id: uint32 :: Read(before, id).Some? ==> Read(now, id).Some?
    ensures Keeps(now, log, base, snaps)
  {
    ChangeRestores(before, now, log.saved, base);
    forall j | 0 <= j < |log.points|
      ensures Restores(now, log.points[j].pages, snaps[j]) && Saveable(now, log.points[j].pages)
    {
      assert Saveable(before, log.points[j].pages);
      ChangeRestores(before, now, log.points[j].pages, snaps[j]);
    }
  }

  lemma SameKeeps(before: Store, now: Store, log: Log, base: Store, snaps: seq<Store>)
    requires Keeps(before, log, base, snaps) && Transparent(before, now)
    ensures Keeps(now, log, base, snaps)
  {
    forall id: uint32
      ensures SameRead(before, now, id) && (Read(before, id).Some? ==> Read(now, id).Some?)
    {
      assert SameRead(before, now, id);
    }
    ChangeKeeps(before, now, log, base, snaps);
  }

  lemma MarkKeeps(now: Store, log: Log, base: Store, snaps: seq<Store>, name: string)
    requires Keeps(now, log, base, snaps)
    ensures Keeps(now, log.(points := log.points + [Mark(name, map[])]), base, snaps + [now])
  {
    assert Restores(now, map[], now) by {
      assert forall id: uint32 :: RestoresAt(now, map[], now, id);
    }
    assert Saveable(now, map[]);
  }

  lemma ReleaseKeeps(now: Store, log: Log, base: Store, snaps: seq<Store>, i: nat)
    requires Keeps(now, log, base, snaps) && i <= |log.points|
    ensures Keeps(now, log.(points := log.points[..i]), base, snaps[..i])
  {
  }

  /** Savepoint i is the innermost one, with nothing saved. */
  function Unwound(log: Log, i: nat): Log
    requires i < |log.points|
  {
    log.(points := log.points[..i] + [log.points[i].(pages := map[])])
  }

  /** Rolling back to savepoint i shows its snapshot, keeps it open with nothing saved, and keeps
      every outer one. */
  lemma RollbackKeeps(before: Store, now: Store, log: Log, base: Store, snaps: seq<Store>, i: nat)
    requires Keeps(before, log, base, snaps) && i < |log.points|
    requires PutBack(before, now, log.points[i].pages)
    ensures Keeps(now, Unwound(log, i), base, snaps[..i + 1])
    ensures Restores(now, map[], snaps[i])
  {
    var inner := log.points[i].pages;
    var points := Unwound(log, i).points;
    PutBackReads(before, now, inner);
    PutBackKeepsOuter(before, now, inner, log.saved, base);
    PutBackRestores(before, now, inner, snaps[i]);
    forall j | 0 <= j < |points|
      ensures Restores(now, points[j].pages, snaps[j]) && Saveable(now, points[j].pages)
    {
      if j < i {
        assert Saveable(before, log.points[j].pages);
        PutBackKeepsOuter(before, now, inner, log.points[j].pages, snaps[j]);
      }
    }
  }

  lemma PutBackReads(before: Store, now: Store, saved: map<uint32, Bytes>)
    requires PutBack(before, now, saved)
    ensures forall id: uint32 :: Read(before, id).Some? ==> Read(now, id).Some?
  {
    forall id: uint32 | Read(before, id).Some?
      ensures Read(now, id).Some?
    {
      assert PutBackAt(before, now, saved, id);
    }
  }

  // ----- One page changes -----

  /** What is kept of page v: every snapshot, and that a saved page exists. */
  ghost predicate KeptAt(now: Store, log: Log, base: Store, snaps: seq<Store>, v: uint32)
    requires |log.points| == |snaps|
  {
    && RestoresAt(now, log.saved, base, v)
    && (forall j :: 0 <= j < |snaps| ==> RestoresAt(now, log.points[j].pages, snaps[j], v))
    && (v in log.saved ==> Read(now, v).Some?)
  }

  /** When only page v changes, everything is kept exactly when page v is. */
  lemma KeepsExact(before: Store, now: Store, log: Log, base: Store, snaps: seq<Store>, v: uint32)
    requires Keeps(before, log, base, snaps)
    requires forall x: uint32 :: x != v ==> SameRead(before, now, x)
    ensures Keeps(now, log, base, snaps) <==> KeptAt(now, log, base, snaps, v)
  {
    if KeptAt(now, log, base, snaps, v) {
      OnePageRestores(before, now, log.saved, base, v);
      OnePageExists(before, now, log.saved, v);
      forall j | 0 <= j < |snaps|
        ensures Restores(now, log.points[j].pages, snaps[j]) && Saveable(now, log.points[j].pages)
      {
        assert Saveable(before, log.points[j].pages);
        assert v in log.points[j].pages ==> v in log.saved;
        OnePageRestores(before, now, log.points[j].pages, snaps[j], v);
        OnePageExists(before, now, log.points[j].pages, v);
      }
    }
  }

  lemma OnePageRestores(before: Store, now: Store, saved: map<uint32, Bytes>, snap: Store, v: uint32)
    requires Restores(before, saved, snap) && RestoresAt(now, saved, snap, v)
    requires forall x: uint32 :: x != v ==> SameRead(before, now, x)
    ensures Restores(now, saved, snap)
  {
    forall x: uint32
      ensures RestoresAt(now, saved, snap, x)
    {
      assert RestoresAt(before, saved, snap, x);
      assert x != v ==> SameRead(before, now, x);
    }
  }

  lemma OnePageExists(before: Store, now: Store, saved: map<uint32, Bytes>, v: uint32)
    requires Saveable(before, saved) && (v in saved ==> Read(now, v).Some?)
    requires forall x: uint32 :: x != v ==> SameRead(before, now, x)
    ensures Saveable(now, saved)
  {
    forall x | x in saved
      ensures Read(now, x).Some?
    {
      assert x != v ==> SameRead(before, now, x);
    }
  }

  // ----- Reading a page -----

  /** A copy of the page is kept, or the snapshot never had the page. */
  predicate Covered(saved: map<uint32, Bytes>, snap: Store, v: uint32) { v in saved || Read(snap, v) == None }

  /** Page v may leave the cache: it is settled, or every snapshot is covered and, where a copy is
      kept, the page can be read again. */
  ghost predicate MayLeave(now: Store, log: Log, base: Store, snaps: seq<Store>, v: uint32)
    requires |log.points| == |snaps|
  {
    || Settled(now, v)
    || (&& Covered(log.saved, base, v)
        && (forall j :: 0 <= j < |snaps| ==> Covered(log.points[j].pages, snaps[j], v))
        && (v in log.saved ==> v < |now.file|))
  }

  /** What reading page id pushes out may leave. */
  ghost predicate Spared(s: State, log: Log, base: Store, snaps: seq<Store>, id: uint32)
    requires |log.points| == |snaps|
  {
    id !in s.store.cached && id < |s.store.file| && s.Victim(id).Some? ==>
      MayLeave(s.store, log, base, snaps, s.Victim(id).value)
  }

  /** Reading a page changes at most what it pushes out, and that only if it is not settled. */
  lemma GetChanges(s: State, id: uint32)
    requires s.Linked()
    ensures var t := Get(s, id);
            var misses := id !in s.store.cached && id < |s.store.file|;
            && (forall x: uint32 :: !(misses && s.Victim(id) == Some(x)) ==> SameRead(s.store, t.store, x))
            && (misses && s.Victim(id).Some? ==>
                  var v := s.Victim(id).value;
                  && v in s.store.cached
                  && (if Settled(s.store, v) then Read(t.store, v) == Read(s.store, v)
                      else Read(t.store, v) != Read(s.store, v)
                           && Read(t.store, v) == (if v < |s.store.file| then Some(s.store.file[v]) else None)))
  {
    s.VictimCached(id);
    if s.Victim(id).Some? {
      EvictExact(s.store, s.Victim(id).value);
    }
  }

  /** Reading a page keeps every snapshot exactly when what it pushes out may leave. */
  lemma GetKeepsExact(s: State, log: Log, base: Store, snaps: seq<Store>, id: uint32)
    requires s.Linked() && Keeps(s.store, log, base, snaps)
    ensures Keeps(Get(s, id).store, log, base, snaps) <==> Spared(s, log, base, snaps, id)
  {
    var t := Get(s, id);
    GetChanges(s, id);
    if id !in s.store.cached && id < |s.store.file| && s.Victim(id).Some? {
      var v := s.Victim(id).value;
      KeepsExact(s.store, t.store, log, base, snaps, v);
      LeavesExact(s.store, t.store, log, base, snaps, v);
    } else {
      assert forall x: uint32 :: SameRead(s.store, t.store, x);
      SameKeeps(s.store, t.store, log, base, snaps);
    }
  }

  lemma LeavesExact(before: Store, now: Store, log: Log, base: Store, snaps: seq<Store>, v: uint32)
    requires Keeps(before, log, base, snaps) && v in before.cached
    requires if Settled(before, v) then Read(now, v) == Read(before, v)
             else Read(now, v) != Read(before, v)
                  && Read(now, v) == (if v < |before.file| then Some(before.file[v]) else None)
    ensures KeptAt(now, log, base, snaps, v) <==> MayLeave(before, log, base, snaps, v)
  {
    assert RestoresAt(before, log.saved, base, v);
    forall j | 0 <= j < |snaps|
      ensures RestoresAt(now, log.points[j].pages, snaps[j], v) <==>
              Settled(before, v) || Covered(log.points[j].pages, snaps[j], v)
    {
      assert Restores(before, log.points[j].pages, snaps[j]);
      assert RestoresAt(before, log.points[j].pages, snaps[j], v);
    }
  }

  class Transaction {
    const pager: Pager
    var state: TxState
    var saveState: map<uint32, Bytes>
    var savepoints: seq<Mark>
    /** What the pager showed when the transaction, and each open savepoint, began. */
    ghost var base: Store
    ghost var snaps: seq<Store>

    /** NewTransaction */
    constructor (pager: Pager)
      requires pager.Valid()
      ensures this.pager == pager && Valid() && Sound() && state == Active
      ensures saveState == map[] && savepoints == [] && base == pager.store && snaps == []
    {
      this.pager := pager;
      state, saveState, savepoints := Active, map[], [];
      base, snaps := pager.store, [];
    }

    ghost function Copies(): Log
      reads this
    {
      Log(saveState, savepoints)
    }

    /** The store, with the list of the cache. */
    ghost function Now(): State
      reads pager, pager.cache
    {
      State(pager.store, pager.cache.order, pager.cache.cap)
    }

    ghost predicate Valid()
      reads this, pager, pager.cache, pager.Objects()
    {
      && pager.Valid() && |savepoints| == |snaps|
      && Whole(saveState) && (forall j :: 0 <= j < |savepoints| ==> Whole(savepoints[j].pages))
      && (state != Active ==> saveState == map[] && savepoints == [])
    }

    /** While active, the log restores the snapshots. */
    ghost predicate Sound()
      reads this, pager
    {
      state == Active ==> Keeps(pager.store, Copies(), base, snaps)
    }

    /** One turn of both rollback loops: read a saved page, overwrite it, clear Dirty; skip a page
        that cannot be read. */
    method PutPageBack(id: uint32, d: Bytes)
      requires pager.Valid() && |d| == PAGE_SIZE
      modifies pager`file, pager`store, pager.cache, pager.Objects()
      ensures pager.Valid() && pager.KeptOrNew() && old(Now()).Linked()
      ensures Now() == PutBackOne(old(Now()), id, d)
    {
      var r := pager.GetPage(id);
      if r.Err? {
        return;
      }
      pager.PutBack(r.value, d);
    }

    /** Both rollback loops, over the saved pages in any order. */
    method PutPagesBack(saved: map<uint32, Bytes>) returns (ghost walk: seq<uint32>)
      requires pager.Valid() && Whole(saved)
      modifies pager`file, pager`store, pager.cache, pager.Objects()
      ensures pager.Valid() && old(Now()).Linked() && Walk(walk, saved)
      ensures Now() == PutBackAll(old(Now()), saved, walk)
    {
      var ids := saved.Keys;
      walk := [];
      ghost var before := Now();
      while ids != {}
        invariant pager.Valid() && pager.KeptOrNew() && before.Linked()
        invariant ids <= saved.Keys && Walked(walk, saved.Keys - ids) && AllSaved(walk, saved)
        invariant Now() == PutBackAll(before, saved, walk)
        decreases |ids|
      {
        var id :| id in ids;
        PutPageBack(id, saved[id]);
        WalkOn(before, saved, walk, ids, id);
        ids, walk := ids - {id}, walk + [id];
      }
    }

    /** SavePage: the page's bytes, wherever no copy is kept yet. A transaction that has ended
        has no map to save into. */
    method SavePage(pg: Page)
      requires Valid() && state == Active && pager.Has(pg)
      modifies this`saveState, this`savepoints
      ensures Valid() && Copies() == SaveAll(old(Copies()), pg.id, pg.data[..]) && Saved(Copies(), pg.id)
      ensures old(Sound()) ==> Sound()
    {
      assert pager.PageOk(pg.id);
      if Sound() {
        SaveKeeps(pager.store, Copies(), base, snaps, pg.id);
      }
      ghost var more := SaveAll(Copies(), pg.id, pg.data[..]);
      if pg.id !in saveState {
        saveState := saveState[pg.id := pg.data[..]];
      }
      SaveInPoints(pg.id, pg.data[..]);
      assert savepoints == more.points;
    }

    /** The loop over the savepoints. */
    method SaveInPoints(id: uint32, d: Bytes)
      modifies this`savepoints
      ensures |savepoints| == |old(savepoints)|
      ensures forall j :: 0 <= j < |savepoints| ==> savepoints[j] == SaveInPoint(old(savepoints)[j], id, d)
    {
      for i := 0 to |savepoints|
        invariant |savepoints| == |old(savepoints)|
        invariant forall j :: 0 <= j < i ==> savepoints[j] == SaveInPoint(old(savepoints)[j], id, d)
        invariant forall j :: i <= j < |savepoints| ==> savepoints[j] == old(savepoints)[j]
      {
        if id !in savepoints[i].pages {
          savepoints := savepoints[i := SaveInPoint(savepoints[i], id, d)];
        }
      }
    }

    /** A client writes a page. Every snapshot is kept exactly when the page is; so it is after
        SavePage, which is the client's part. */
    method Write(pg: Page, d: Bytes)
      requires Valid() && pager.Has(pg) && |d| == PAGE_SIZE
      modifies pager`store, pg`dirty, pg.data
      ensures Valid() && pg.data[..] == d
      ensures pager.store == old(pager.store).(cached := old(pager.store).cached[pg.id := Entry(d, true)])
      ensures old(Sound()) && state == Active ==> (Sound() <==> KeptAt(pager.store, Copies(), base, snaps, pg.id))
      ensures old(Sound()) && (state == Active ==> Saved(Copies(), pg.id)) ==> Sound()
    {
      ghost var sound := Sound() && state == Active;
      pager.Edit(pg, d);
      if sound {
        KeepsExact(old(pager.store), pager.store, Copies(), base, snaps, pg.id);
        if Saved(Copies(), pg.id) {
          SavedIsKept(old(pager.store), pager.store, Copies(), base, snaps, pg.id);
        }
      }
    }

    /** The pager reads a page, which may push out another. Every snapshot is kept exactly when
        that one may leave. */
    method Fetch(id: uint32) returns (r: Result<Page>)
      requires Valid()
      modifies pager`file, pager`store, pager.cache, pager.cache.items.Values`dirty
      ensures Valid() && old(Now()).Linked() && Now() == Get(old(Now()), id)
      ensures r.Ok? <==> Read(old(pager.store), id).Some?
      ensures r.Ok? ==> pager.Has(r.value) && r.value.id == id && r.value.data[..] == Read(old(pager.store), id).value
      ensures old(Sound()) && state == Active ==> (Sound() <==> Spared(old(Now()), Copies(), base, snaps, id))
    {
      if Sound() && state == Active {
        GetKeepsExact(Now(), Copies(), base, snaps, id);
      }
      r := pager.GetPage(id);
    }

    method Savepoint(name: string) returns (r: Result<()>)
      requires Valid()
      modifies this`savepoints, this`snaps
      ensures Valid() && (old(Sound()) ==> Sound())
      ensures r == if state == Active then Ok(()) else Err(NotActive)
      ensures r.Ok? ==> savepoints == old(savepoints) + [Mark(name, map[])]
                        && snaps == old(snaps) + [pager.store]
      ensures r.Err? ==> savepoints == old(savepoints) && snaps == old(snaps)
    {
      if state != Active {
        return Err(NotActive);
      }
      if Sound() {
        MarkKeeps(pager.store, Copies(), base, snaps, name);
      }
      savepoints := savepoints + [Mark(name, map[])];
      snaps := snaps + [pager.store];
      r := Ok(());
    }

    /** The search of both ReleaseSavepoint and RollbackToSavepoint, from the innermost out. */
    method FindSavepoint(name: string) returns (i: int)
      ensures i == Find(savepoints, name)
    {
      i := |savepoints| - 1;
      while i >= 0 && savepoints[i].name != name
        invariant -1 <= i < |savepoints|
        invariant forall k :: i < k < |savepoints| ==> savepoints[k].name != name
      {
        i := i - 1;
      }
    }

    /** ReleaseSavepoint drops the innermost savepoint of that name and everything inside it; the
        outer snapshots stay. */
    method ReleaseSavepoint(name: string) returns (r: Result<()>)
      requires Valid()
      modifies this`savepoints, this`snaps
      ensures Valid() && (old(Sound()) ==> Sound())
      ensures var i := Find(old(savepoints), name);
              if i < 0 then r == Err(NoSuchSavepoint) && savepoints == old(savepoints) && snaps == old(snaps)
              else r == Ok(()) && savepoints == old(savepoints)[..i] && snaps == old(snaps)[..i]
    {
      var i := FindSavepoint(name);
      if i < 0 {
        return Err(NoSuchSavepoint);
      }
      if Sound() {
        ReleaseKeeps(pager.store, Copies(), base, snaps, i);
      }
      savepoints, snaps := savepoints[..i], snaps[..i];
      r := Ok(());
    }

    /** RollbackToSavepoint puts back the pages saved by the innermost savepoint of that name, in
        some order, and keeps only it, empty, and the outer ones. When they are restorable the
        store shows the savepoint's snapshot, and the outer ones are kept. */
    method RollbackToSavepoint(name: string) returns (r: Result<()>, ghost walk: seq<uint32>)
      requires Valid()
      modifies this`savepoints, this`snaps, pager`file, pager`store, pager.cache, pager.Objects()
      ensures Valid() && old(Now()).Linked()
      ensures var i := Find(old(savepoints), name);
              if i < 0 then
                r == Err(NoSuchSavepoint) && savepoints == old(savepoints) && snaps == old(snaps) && Now() == old(Now())
              else
                var saved := old(savepoints)[i].pages;
                && r == Ok(())
                && savepoints == old(savepoints)[..i] + [Mark(name, map[])]
                && snaps == old(snaps)[..i + 1]
                && Walk(walk, saved) && Now() == PutBackAll(old(Now()), saved, walk)
                && (old(Sound()) && Restorable(old(Now()), saved) ==>
                      Sound() && Restores(pager.store, map[], snaps[i]))
    {
      walk := [];
      var i := FindSavepoint(name);
      if i < 0 {
        return Err(NoSuchSavepoint), [];
      }
      walk := RestoreTo(i);
      r := Ok(());
    }

    /** The pages saved by savepoint i go back, and it becomes the innermost one, empty again. */
    method RestoreTo(i: nat) returns (ghost walk: seq<uint32>)
      requires Valid() && i < |savepoints|
      modifies this`savepoints, this`snaps, pager`file, pager`store, pager.cache, pager.Objects()
      ensures Valid() && old(Now()).Linked()
      ensures savepoints == old(savepoints)[..i] + [Mark(old(savepoints)[i].name, map[])]
      ensures snaps == old(snaps)[..i + 1]
      ensures Walk(walk, old(savepoints)[i].pages)
      ensures Now() == PutBackAll(old(Now()), old(savepoints)[i].pages, walk)
      ensures old(Sound()) && Restorable(old(Now()), old(savepoints)[i].pages) ==>
                Sound() && Restores(pager.store, map[], snaps[i])
    {
      walk := RestorePoint(i);
      Unwind(i);
    }

    /** The loop of RollbackToSavepoint. */
    method RestorePoint(i: nat) returns (ghost walk: seq<uint32>)
      requires Valid() && i < |savepoints|
      modifies pager`file, pager`store, pager.cache, pager.Objects()
      ensures pager.Valid() && old(Now()).Linked()
      ensures Walk(walk, savepoints[i].pages) && Now() == PutBackAll(old(Now()), savepoints[i].pages, walk)
      ensures state == Active && old(Sound()) && Restorable(old(Now()), savepoints[i].pages) ==>
                && Keeps(pager.store, Unwound(Copies(), i), base, snaps[..i + 1])
                && Restores(pager.store, map[], snaps[i])
    {
      ghost var saved, log, before := savepoints[i].pages, Copies(), Now();
      ghost var sound := state == Active && Sound();
      walk := PutPagesBack(savepoints[i].pages);
      if sound && Restorable(before, saved) {
        assert Saveable(before.store, saved);
        RestorableRestores(before, saved, walk);
        RollbackKeeps(before.store, pager.store, log, base, snaps, i);
      }
    }

    /** The savepoints inside savepoint i go, and it is empty again. */
    method Unwind(i: nat)
      requires pager.Valid() && |savepoints| == |snaps| && i < |savepoints| && state == Active
      requires Whole(saveState) && forall j :: 0 <= j < |savepoints| ==> Whole(savepoints[j].pages)
      modifies this`savepoints, this`snaps
      ensures Valid() && Now() == old(Now())
      ensures Copies() == Unwound(old(Copies()), i) && snaps == old(snaps)[..i + 1]
    {
      savepoints := savepoints[..i] + [savepoints[i].(pages := map[])];
      snaps := snaps[..i + 1];
    }

    /** Rollback puts back every page saved since the transaction began, in some order. When they
        are restorable the store shows the beginning. */
    method Rollback() returns (r: Result<()>, ghost walk: seq<uint32>)
      requires Valid()
      modifies this`state, this`saveState, this`savepoints, this`snaps
      modifies pager`file, pager`store, pager.cache, pager.Objects()
      ensures Valid() && old(Now()).Linked()
      ensures old(state) != Active ==> r == Err(NotActive) && state == old(state) && Now() == old(Now())
      ensures old(state) == Active ==>
                var saved := old(saveState);
                && r == Ok(()) && state == RolledBack
                && Walk(walk, saved) && Now() == PutBackAll(old(Now()), saved, walk)
                && (old(Sound()) && Restorable(old(Now()), saved) ==> Restores(pager.store, map[], base))
    {
      walk := [];
      if state != Active {
        return Err(NotActive), [];
      }
      walk := RestoreBase();
      End(RolledBack);
      r := Ok(());
    }

    /** The transaction is over; what it saved is dropped. */
    method End(ended: TxState)
      requires pager.Valid() && ended != Active
      modifies this`state, this`saveState, this`savepoints, this`snaps
      ensures Valid() && state == ended && Now() == old(Now())
    {
      state, saveState, savepoints, snaps := ended, map[], [], [];
    }

    /** The loop of Rollback. */
    method RestoreBase() returns (ghost walk: seq<uint32>)
      requires Valid()
      modifies pager`file, pager`store, pager.cache, pager.Objects()
      ensures pager.Valid() && old(Now()).Linked()
      ensures Walk(walk, saveState) && Now() == PutBackAll(old(Now()), saveState, walk)
      ensures state == Active && old(Sound()) && Restorable(old(Now()), saveState) ==>
                Restores(pager.store, map[], base)
    {
      ghost var before := Now();
      ghost var sound := state == Active && Sound() && Restorable(before, saveState);
      walk := PutPagesBack(saveState);
      if sound {
        RestorableRestores(before, saveState, walk);
        PutBackRestores(before.store, pager.store, saveState, base);
      }
    }

    /** Commit ends the transaction and flushes: every settled page is in the file as it read. */
    method Commit() returns (r: Result<()>)
      requires Valid()
      modifies this`state, this`saveState, this`savepoints, this`snaps
      modifies pager`file, pager`store, pager.cache.items.Values`dirty
      ensures Valid()
      ensures old(state) != Active ==> r == Err(NotActive) && state == old(state) && pager.store == old(pager.store)
      ensures old(state) == Active ==> r == Ok(()) && state == Committed
      ensures old(state) == Active ==>
                forall id: uint32 :: id != 0 && Settled(old(pager.store), id) && Read(old(pager.store), id).Some? ==>
                  id < |pager.file| && pager.file[id] == Read(old(pager.store), id).value == Read(pager.store, id).value
    {
      if state != Active {
        return Err(NotActive);
      }
      End(Committed);
      ghost var headed := pager.store.(file := WriteAt(pager.store.file, 0, HeaderPage(pager.header)));
      ghost var ids := pager.cache.order;
      pager.FlushAll();
      r := Ok(());
      forall id: uint32 | id != 0 && Settled(old(pager.store), id) && Read(old(pager.store), id).Some?
        ensures id < |pager.file| && pager.file[id] == Read(old(pager.store), id).value == Read(pager.store, id).value
      {
        FlushedFile(headed, ids, id);
      }
    }
  }

  /** A page that is saved everywhere may be written. */
  lemma SavedIsKept(before: Store, now: Store, log: Log, base: Store, snaps: seq<Store>, v: uint32)
    requires Keeps(before, log, base, snaps) && Saved(log, v) && Read(now, v).Some?
    ensures KeptAt(now, log, base, snaps, v)
  {
    assert RestoresAt(before, log.saved, base, v);
    forall j | 0 <= j < |snaps|
      ensures RestoresAt(now, log.points[j].pages, snaps[j], v)
    {
      assert Restores(before, log.points[j].pages, snaps[j]);
      assert RestoresAt(before, log.points[j].pages, snaps[j], v);
    }
  }

  /** The part of a walk that has been done. */
  ghost predicate Walked(walk: seq<uint32>, done: set<uint32>) {
    NoDuplicates(walk) && forall id :: id in walk <==> id in done
  }

  lemma WalkOn(s: State, saved: map<uint32, Bytes>, walk: seq<uint32>, ids: set<uint32>, id: uint32)
    requires s.Linked() && id in ids && ids <= saved.Keys && Walked(walk, saved.Keys - ids) && AllSaved(walk, saved)
    ensures Walked(walk + [id], saved.Keys - (ids - {id})) && AllSaved(walk + [id], saved)
    ensures PutBackAll(s, saved, walk + [id]) == PutBackOne(PutBackAll(s, saved, walk), id, saved[id])
  {
    assert (walk + [id])[..|walk|] == walk;
  }
}
