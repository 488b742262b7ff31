/** Exactly when a rollback shows what was saved (transaction.go:91-99, 122-130), for pages that
    have their place in the file. */
module RollbackExact {
  import opened Bytes
  import opened Wrappers
  import opened Lru
  import opened Evictions
  import opened Pagers
  import opened PagerRun
  import opened Rollbacks

  /** Every cached and every saved page has its place in the file. */
  ghost predicate InFile(st: Store, saved: map<uint32, Bytes>) {
    forall id :: id in st.cached || id in saved ==> id < |st.file|
  }

  /** The page is pushed out while the first pages of ids are read. */
  ghost predicate PushedOut(s: State, ids: seq<uint32>, x: uint32) {
    x in s.order && x !in Moved(s.order, ids, s.cap)
  }

  /** The file's copy of a page once it was pushed out: what the cache held, if that was dirty. */
  ghost function LeftInFile(s: State, ids: seq<uint32>, x: uint32): Bytes
    requires s.Linked() && x < |s.store.file|
  {
    if PushedOut(s, ids, x) && s.store.cached[x].dirty then s.store.cached[x].data else s.store.file[x]
  }

  /** A page still to come. */
  ghost predicate WaitingAt(s: State, t: State, done: seq<uint32>, x: uint32)
    requires s.Linked() && |t.store.file| == |s.store.file|
  {
    && (x in t.store.cached ==> x in s.store.cached && t.store.cached[x] == s.store.cached[x])
    && (x < |s.store.file| ==> t.store.file[x] == LeftInFile(s, done, x))
    && (x >= |s.store.file| ==> x !in t.store.cached)
  }

  /** A page that was put back after those of ids[..j]. */
  ghost predicate DoneAt(s: State, t: State, saved: map<uint32, Bytes>, ids: seq<uint32>, j: nat)
    requires s.Linked() && j < |ids| && |t.store.file| == |s.store.file|
  {
    var x := ids[j];
    && x in saved && x < |s.store.file| && t.store.file[x] == LeftInFile(s, ids[..j], x)
    && (x in t.store.cached ==> t.store.cached[x] == Entry(saved[x], false))
  }

  ghost predicate HalfWay(s: State, t: State, saved: map<uint32, Bytes>, ids: seq<uint32>, k: nat)
    requires s.Linked() && k <= |ids|
  {
    && t.Linked() && t.cap == s.cap && t.order == Moved(s.order, ids[..k], s.cap)
    && |t.store.file| == |s.store.file|
    && (forall x: uint32 {:trigger WaitingAt(s, t, ids[..k], x)} :: x !in ids[..k] ==> WaitingAt(s, t, ids[..k], x))
    && (forall j {:trigger DoneAt(s, t, saved, ids, j)} :: 0 <= j < k ==> DoneAt(s, t, saved, ids, j))
  }

  lemma {:induction false} HalfWayAt(s: State, saved: map<uint32, Bytes>, ids: seq<uint32>, k: nat)
    requires s.Linked() && InFile(s.store, saved) && Walk(ids, saved) && k <= |ids|
    ensures AllSaved(ids[..k], saved) && HalfWay(s, PutBackAll(s, saved, ids[..k]), saved, ids, k)
  {
    WalkFront(ids, saved, k);
    if k == 0 {
      assert ids[..0] == [];
      assert forall x: uint32 :: WaitingAt(s, s, ids[..0], x);
    } else {
      WalkFront(ids, saved, k - 1);
      HalfWayAt(s, saved, ids, k - 1);
      assert ids[..k][..k - 1] == ids[..k - 1];
      HalfWayNext(s, PutBackAll(s, saved, ids[..k - 1]), saved, ids, k - 1);
    }
  }

  /** One more turn. */
  lemma HalfWayNext(s: State, t: State, saved: map<uint32, Bytes>, ids: seq<uint32>, k: nat)
    requires s.Linked() && InFile(s.store, saved) && Walk(ids, saved) && k < |ids|
    requires HalfWay(s, t, saved, ids, k) && ids[k] in saved
    ensures HalfWay(s, PutBackOne(t, ids[k], saved[ids[k]]), saved, ids, k + 1)
  {
    var id := ids[k];
    var u := PutBackOne(t, id, saved[id]);
    WalkFront(ids, saved, k);
    WalkFront(ids, saved, k + 1);
    assert ids[..k + 1][..k] == ids[..k];
    t.VictimCached(id);
    assert WaitingAt(s, t, ids[..k], id);
    VictimInFile(s, t, saved, ids, k);
    TurnLeaves(t, id, saved[id]);
    var done := ids[..k + 1];
    forall x: uint32 | x !in done
      ensures WaitingAt(s, u, done, x)
    {
      assert WaitingAt(s, t, ids[..k], x);
      WaitingNext(s, t, u, ids[..k], id, saved[id], x);
    }
    forall j | 0 <= j < k + 1
      ensures DoneAt(s, u, saved, ids, j)
    {
      if j < k {
        assert DoneAt(s, t, saved, ids, j);
        assert ids[j] in ids[..k] && ids[j] != id;
        TurnKeeps(t, id, saved[id], ids[j]);
      }
    }
  }

  /** Whatever is evicted has its place in the file, so the file keeps its length. */
  lemma VictimInFile(s: State, t: State, saved: map<uint32, Bytes>, ids: seq<uint32>, k: nat)
    requires s.Linked() && InFile(s.store, saved) && k < |ids| && HalfWay(s, t, saved, ids, k)
    ensures t.Victim(ids[k]).Some? ==> t.Victim(ids[k]).value < |t.store.file|
  {
    t.VictimCached(ids[k]);
    if t.Victim(ids[k]).Some? {
      var v := t.Victim(ids[k]).value;
      if v in ids[..k] {
        var j :| 0 <= j < k && ids[..k][j] == v;
        assert DoneAt(s, t, saved, ids, j);
      } else {
        assert WaitingAt(s, t, ids[..k], v);
      }
    }
  }

  /** What a turn does to another page: it stays as it is, or it is pushed out. */
  lemma TurnKeeps(t: State, id: uint32, d: Bytes, x: uint32)
    requires t.Linked() && id < |t.store.file| && x != id && x < |t.store.file|
    requires t.Victim(id).Some? ==> t.Victim(id).value < |t.store.file|
    ensures var u := PutBackOne(t, id, d);
            && |u.store.file| == |t.store.file| && u.order == PutOrder(t.order, id, t.cap, false)
            && (x in u.order <==> x in t.order && t.Victim(id) != Some(x))
            && (x in u.store.cached ==> x in t.store.cached && u.store.cached[x] == t.store.cached[x])
            && u.store.file[x] ==
                 (if x in t.order && x !in u.order && t.store.cached[x].dirty then t.store.cached[x].data
                  else t.store.file[x])
  {
    t.VictimCached(id);
    PutOrderIds(t.order, id, t.cap, false);
  }

  /** What it does to its own page. */
  lemma TurnLeaves(t: State, id: uint32, d: Bytes)
    requires t.Linked() && id < |t.store.file|
    requires t.Victim(id).Some? ==> t.Victim(id).value < |t.store.file|
    ensures var u := PutBackOne(t, id, d);
            && |u.store.file| == |t.store.file| && u.store.file[id] == t.store.file[id]
            && id in u.store.cached && u.store.cached[id] == Entry(d, false)
            && u.order == PutOrder(t.order, id, t.cap, false)
  {
    t.VictimCached(id);
  }

  lemma WaitingNext(s: State, t: State, u: State, done: seq<uint32>, id: uint32, d: Bytes, x: uint32)
    requires s.Linked() && t.Linked() && t.cap == s.cap && t.order == Moved(s.order, done, s.cap)
    requires id < |t.store.file| && |t.store.file| == |s.store.file| && x != id && x !in done
    requires t.Victim(id).Some? ==> t.Victim(id).value < |t.store.file|
    requires u == PutBackOne(t, id, d) && |u.store.file| == |t.store.file|
    requires WaitingAt(s, t, done, x)
    ensures WaitingAt(s, u, done + [id], x)
  {
    assert (done + [id])[..|done|] == done;
    t.VictimCached(id);
    PutOrderIds(t.order, id, t.cap, false);
    if x < |t.store.file| {
      TurnKeeps(t, id, d, x);
    }
  }

  // ----- The exact condition -----

  /** The pages the rollback leaves alone survive: those it can push out are settled. */
  ghost predicate OthersSafe(s: State, saved: map<uint32, Bytes>) {
    forall x :: x in s.store.cached && x !in saved && AtRisk(s.order, s.cap, saved.Keys, x) ==> Settled(s.store, x)
  }

  /** The pages put back too early to stay cached survive: the file holds their saved bytes, and
      they were not pushed out dirty before their turn. */
  ghost predicate EarlySafe(s: State, saved: map<uint32, Bytes>, ids: seq<uint32>)
    requires s.Linked() && InFile(s.store, saved) && Walk(ids, saved)
  {
    forall k {:trigger ids[k]} :: 0 <= k < |ids| && |ids| - k - 1 >= Room(s.order, s.cap) ==>
      ids[k] in saved && ids[k] < |s.store.file| && LeftInFile(s, ids[..k], ids[k]) == saved[ids[k]]
  }

  /** A rollback shows the saved pages, and no other page changes, exactly when both are safe. */
  lemma ShowsExact(s: State, saved: map<uint32, Bytes>, ids: seq<uint32>)
    requires s.Linked() && InFile(s.store, saved) && Walk(ids, saved)
    ensures PutBack(s.store, PutBackAll(s, saved, ids).store, saved) <==>
            OthersSafe(s, saved) && EarlySafe(s, saved, ids)
  {
    var t := PutBackAll(s, saved, ids);
    HalfWayAt(s, saved, ids, |ids|);
    assert ids[..|ids|] == ids;
    WalkSize(ids, saved);
    forall x: uint32 | x !in saved
      ensures PutBackAt(s.store, t.store, saved, x) <==>
              (x in s.store.cached && AtRisk(s.order, s.cap, saved.Keys, x) ==> Settled(s.store, x))
    {
      OtherShows(s, t, saved, ids, x);
    }
    forall k | 0 <= k < |ids|
      ensures ids[k] in saved
      ensures PutBackAt(s.store, t.store, saved, ids[k]) <==>
              (|ids| - k - 1 >= Room(s.order, s.cap) ==> LeftInFile(s, ids[..k], ids[k]) == saved[ids[k]])
    {
      SavedShows(s, t, saved, ids, k);
    }
    assert forall x :: x in saved ==> x in ids;
  }

  lemma OtherShows(s: State, t: State, saved: map<uint32, Bytes>, ids: seq<uint32>, x: uint32)
    requires s.Linked() && InFile(s.store, saved) && Walk(ids, saved) && HalfWay(s, t, saved, ids, |ids|)
    requires x !in saved
    ensures PutBackAt(s.store, t.store, saved, x) <==>
            (x in s.store.cached && AtRisk(s.order, s.cap, saved.Keys, x) ==> Settled(s.store, x))
  {
    assert ids[..|ids|] == ids;
    assert WaitingAt(s, t, ids[..|ids|], x);
    WalkSize(ids, saved);
    if x in s.store.cached {
      PushedOutExact(s.order, ids, s.cap, x);
    }
  }

  lemma SavedShows(s: State, t: State, saved: map<uint32, Bytes>, ids: seq<uint32>, k: nat)
    requires s.Linked() && InFile(s.store, saved) && Walk(ids, saved) && HalfWay(s, t, saved, ids, |ids|)
    requires k < |ids|
    ensures ids[k] in saved && ids[k] < |s.store.file|
    ensures PutBackAt(s.store, t.store, saved, ids[k]) <==>
            (|ids| - k - 1 >= Room(s.order, s.cap) ==> LeftInFile(s, ids[..k], ids[k]) == saved[ids[k]])
  {
    assert DoneAt(s, t, saved, ids, k);
    assert ids[..|ids|] == ids;
    PutStaysExact(s.order, ids, k, s.cap);
  }

  /** When the saved pages have room together, the order they come in does not matter, and being
      restorable is necessary too. */
  lemma RoomForAll(s: State, saved: map<uint32, Bytes>, ids: seq<uint32>)
    requires s.Linked() && InFile(s.store, saved) && Walk(ids, saved) && |saved| <= Room(s.order, s.cap)
    ensures PutBack(s.store, PutBackAll(s, saved, ids).store, saved) <==> Restorable(s, saved)
  {
    WalkSize(ids, saved);
    ShowsExact(s, saved, ids);
  }

  /** Without that room, the first page put back is shown only if the file held its saved bytes. */
  lemma FirstIsLost(s: State, saved: map<uint32, Bytes>, ids: seq<uint32>)
    requires s.Linked() && InFile(s.store, saved) && Walk(ids, saved) && |saved| > Room(s.order, s.cap)
    requires ids[0] in saved && s.store.file[ids[0]] != saved[ids[0]]
    ensures !PutBack(s.store, PutBackAll(s, saved, ids).store, saved)
  {
    WalkSize(ids, saved);
    ShowsExact(s, saved, ids);
    assert ids[..0] == [];
    assert LeftInFile(s, ids[..0], ids[0]) == s.store.file[ids[0]];
  }

  /** A page put back is marked clean, so that the next eviction can lose it: here the file never
      held the bytes that the rollback has just shown. */
  lemma PutBackIsLost() returns (s: State, saved: map<uint32, Bytes>, page: uint32, other: uint32)
    ensures s.Linked() && InFile(s.store, saved) && Restorable(s, saved) && Walk([page], saved)
    ensures var t := PutBackAll(s, saved, [page]);
            && Read(t.store, page) == Some(saved[page])
            && Read(Get(t, other).store, page) != Some(saved[page])
  {
    page, other := 1, 2;
    saved := map[page := [1]];
    s := State(Store(map[page := Entry([2], true)], [[0], [0], [0]]), [page], 1);
    OnePutBack(s, saved, page);
    LostNext(PutBackAll(s, saved, [page]), page, other, saved[page]);
  }

  lemma OnePutBack(s: State, saved: map<uint32, Bytes>, page: uint32)
    requires s.Linked() && s.order == [page] && saved.Keys == {page} && page in s.store.cached
    ensures Restorable(s, saved) && Walk([page], saved)
    ensures PutBackAll(s, saved, [page]) ==
            s.(store := s.store.(cached := s.store.cached[page := Entry(saved[page], false)]))
  {
    RestorableWhen(s, saved);
    var ids := [page];
    WalkFront(ids, saved, 0);
    assert ids[..0] == [];
    assert PutBackAll(s, saved, ids[..0]) == s;
    assert PutBackAll(s, saved, ids) == PutBackOne(s, page, saved[page]);
    assert ids[1..] == [];
    assert Without(ids, page) == Without(ids[1..], page) == [];
    assert Get(s, page).order == Touch(s.order, page) == [page];
  }

  lemma LostNext(t: State, page: uint32, other: uint32, d: Bytes)
    requires t.Linked() && t.order == [page] && t.cap == 1 && page != other
    requires page < |t.store.file| && other < |t.store.file| && t.store.file[page] != d
    requires page in t.store.cached && t.store.cached[page] == Entry(d, false)
    ensures Read(Get(t, other).store, page) == Some(t.store.file[page])
  {
    t.VictimCached(other);
  }
}
