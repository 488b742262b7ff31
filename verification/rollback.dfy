/** The loop of both rollbacks, on values: read each saved page, overwrite it, clear Dirty
    (transaction.go:91-99, 122-130). */
module Rollbacks {
  import opened Bytes
  import opened Wrappers
  import opened Lru
  import opened Evictions
  import opened Pagers
  import opened PagerRun

  predicate PutBackAt(before: Store, now: Store, saved: map<uint32, Bytes>, id: uint32) {
    if id in saved then Read(now, id) == Some(saved[id]) else SameRead(before, now, id)
  }

  /** The saved pages read as saved, the others as before. */
  ghost predicate PutBack(before: Store, now: Store, saved: map<uint32, Bytes>) {
    forall id: uint32 {:trigger PutBackAt(before, now, saved, id)} :: PutBackAt(before, now, saved, id)
  }

  /** One turn: the page is read, overwritten and marked clean; one that cannot be read is skipped. */
  ghost function PutBackOne(s: State, id: uint32, d: Bytes): (t: State)
    requires s.Linked()
    ensures t.Linked() && t.cap == s.cap
  {
    if Read(s.store, id) == None then s
    else
      var read := Get(s, id);
      read.(store := read.store.(cached := read.store.cached[id := Entry(d, false)]))
  }

  predicate AllSaved(ids: seq<uint32>, saved: map<uint32, Bytes>) { forall id :: id in ids ==> id in saved }

  ghost function PutBackAll(s: State, saved: map<uint32, Bytes>, ids: seq<uint32>): (t: State)
    requires s.Linked() && AllSaved(ids, saved)
    ensures t.Linked() && t.cap == s.cap
  {
    if ids == [] then s
    else
      var n := |ids| - 1;
      PutBackOne(PutBackAll(s, saved, ids[..n]), ids[n], saved[ids[n]])
  }

  /** An order in which a Go map can be walked: each key once. */
  ghost predicate Walk(ids: seq<uint32>, saved: map<uint32, Bytes>) {
    NoDuplicates(ids) && forall id :: id in ids <==> id in saved
  }

  lemma WalkFront(ids: seq<uint32>, saved: map<uint32, Bytes>, k: nat)
    requires Walk(ids, saved) && k <= |ids|
    ensures AllSaved(ids[..k], saved) && NoDuplicates(ids[..k])
    ensures k < |ids| ==> ids[k] in saved && ids[k] !in ids[..k] && ids[..k + 1] == ids[..k] + [ids[k]]
    ensures Ids(ids[..k]) <= saved.Keys
  {
    if k < |ids| {
      FrontApart(ids, k);
      assert ids[k] in ids;
    }
  }

  lemma WalkSize(ids: seq<uint32>, saved: map<uint32, Bytes>)
    requires Walk(ids, saved)
    ensures |ids| == |saved| && Ids(ids) == saved.Keys
  {
    FrontSize(ids);
    assert Ids(ids) == saved.Keys;
    assert |saved.Keys| == |saved|;
  }

  // ----- A rollback that cannot fail -----

  /** A page may be pushed out by a rollback: it is settled, or is put back anyway and can be read
      again. */
  predicate MayGo(st: Store, saved: map<uint32, Bytes>, x: uint32) {
    Settled(st, x) || (x in saved && x < |st.file|)
  }

  /** The saved pages have room together, and every cached page that reading them can push out may
      go. */
  ghost predicate Restorable(s: State, saved: map<uint32, Bytes>) {
    && |saved| <= Room(s.order, s.cap)
    && forall x :: x in s.store.cached && AtRisk(s.order, s.cap, saved.Keys, x) ==> MayGo(s.store, saved, x)
  }

  /** So it is when all the saved pages are cached; and when every page is settled and the capacity
      suffices. */
  lemma RestorableWhen(s: State, saved: map<uint32, Bytes>)
    requires s.Linked()
    requires saved.Keys <= s.store.cached.Keys || (AllSettled(s.store) && |saved| <= s.cap)
    ensures Restorable(s, saved)
  {
    if saved.Keys <= s.store.cached.Keys {
      FrontSize(s.order);
      assert saved.Keys <= Ids(s.order);
      SubsetSmaller(saved.Keys, Ids(s.order));
      forall x | x in s.store.cached
        ensures !AtRisk(s.order, s.cap, saved.Keys, x)
      {
        ListedNotAtRisk(s.order, s.cap, saved.Keys, x);
      }
    }
  }

  /** Half way: the pages of done are back, and cached; the saved ones to come can be read, the
      others read as before, and what is cached of either was so before. */
  predicate RestoringAt(before: Store, now: Store, saved: map<uint32, Bytes>, done: seq<uint32>, id: uint32) {
    if id in done then id in saved && id in now.cached && now.cached[id] == Entry(saved[id], false)
    else
      && (if id in saved then Read(now, id).Some? else SameRead(before, now, id))
      && (Settled(before, id) ==> Settled(now, id)) && |before.file| <= |now.file|
      && (id in now.cached ==> id in before.cached && now.cached[id] == before.cached[id])
  }

  ghost predicate Restoring(before: Store, now: Store, saved: map<uint32, Bytes>, done: seq<uint32>) {
    forall id: uint32 {:trigger RestoringAt(before, now, saved, done, id)} :: RestoringAt(before, now, saved, done, id)
  }

  /** Every saved page exists. */
  predicate Existing(st: Store, saved: map<uint32, Bytes>) {
    forall id :: id in saved ==> Read(st, id).Some?
  }

  lemma {:induction false} PutBackProgress(s: State, saved: map<uint32, Bytes>, ids: seq<uint32>, k: nat)
    requires s.Linked() && Restorable(s, saved) && Existing(s.store, saved) && Walk(ids, saved) && k <= |ids|
    ensures AllSaved(ids[..k], saved)
    ensures var t := PutBackAll(s, saved, ids[..k]);
            t.order == Moved(s.order, ids[..k], s.cap) && Restoring(s.store, t.store, saved, ids[..k])
  {
    WalkFront(ids, saved, k);
    if k == 0 {
      assert forall id: uint32 :: RestoringAt(s.store, s.store, saved, [], id);
    } else {
      WalkFront(ids, saved, k - 1);
      PutBackProgress(s, saved, ids, k - 1);
      WalkSize(ids, saved);
      assert ids[..k][..k - 1] == ids[..k - 1];
      PutBackTurn(s, PutBackAll(s, saved, ids[..k - 1]), saved, ids[..k - 1], ids[k - 1]);
    }
  }

  /** One turn of a restorable rollback: what it pushes out may go and was not yet put back. */
  lemma PutBackTurn(s: State, t: State, saved: map<uint32, Bytes>, done: seq<uint32>, id: uint32)
    requires s.Linked() && t.Linked() && Restorable(s, saved) && Existing(s.store, saved) && t.cap == s.cap
    requires id in saved && id !in done && NoDuplicates(done) && Ids(done) <= saved.Keys
    requires |done| < |saved|
    requires t.order == Moved(s.order, done, s.cap) && Restoring(s.store, t.store, saved, done)
    ensures var u := PutBackOne(t, id, saved[id]);
            u.order == Moved(s.order, done + [id], s.cap) && Restoring(s.store, u.store, saved, done + [id])
  {
    assert RestoringAt(s.store, t.store, saved, done, id);
    assert (done + [id])[..|done|] == done;
    var victim := t.Victim(id);
    t.VictimCached(id);
    if id !in t.store.cached && victim.Some? {
      VictimSettled(s, t, saved, done, id, victim.value);
    }
    var u := PutBackOne(t, id, saved[id]);
    forall x: uint32
      ensures RestoringAt(s.store, u.store, saved, done + [id], x)
    {
      RestoringNext(s.store, t, u, saved, done, id, x);
    }
  }

  lemma RestoringNext(before: Store, t: State, u: State, saved: map<uint32, Bytes>, done: seq<uint32>, id: uint32,
                      x: uint32)
    requires t.Linked() && id in saved && id !in done && Read(t.store, id).Some? && u == PutBackOne(t, id, saved[id])
    requires RestoringAt(before, t.store, saved, done, x)
    requires id !in t.store.cached && t.Victim(id).Some? ==>
               t.Victim(id).value !in done && MayGo(t.store, saved, t.Victim(id).value)
    ensures RestoringAt(before, u.store, saved, done + [id], x)
  {
    t.VictimCached(id);
    if id !in t.store.cached {
      PutKeeps(t.store, id, Entry(t.store.file[id], false), t.Victim(id));
    }
  }

  lemma VictimSettled(s: State, t: State, saved: map<uint32, Bytes>, done: seq<uint32>, id: uint32, v: uint32)
    requires s.Linked() && t.Linked() && Restorable(s, saved) && t.cap == s.cap
    requires id in saved && id !in done && NoDuplicates(done) && Ids(done) <= saved.Keys && |done| < |saved|
    requires t.order == Moved(s.order, done, s.cap) && Restoring(s.store, t.store, saved, done)
    requires t.Victim(id) == Some(v)
    ensures v !in done && MayGo(t.store, saved, v)
  {
    var next := done + [id];
    assert next[..|done|] == done;
    t.VictimCached(id);
    PutOrderIds(t.order, id, t.cap, false);
    assert v !in Moved(s.order, next, s.cap);
    assert NoDuplicates(next);
    if v in done {
      var k :| 0 <= k < |done| && done[k] == v;
      assert next[k] == v;
      PutStaysExact(s.order, next, k, s.cap);
    } else {
      assert RestoringAt(s.store, t.store, saved, done, v);
      assert v !in next;
      PushedOutAtRisk(s.order, next, s.cap, saved.Keys, v);
    }
  }

  /** A restorable rollback shows the saved pages, whatever order they come in. What was settled
      stays settled, and a page put back is settled exactly when the file holds its saved bytes. */
  lemma RestorableRestores(s: State, saved: map<uint32, Bytes>, ids: seq<uint32>)
    requires s.Linked() && Restorable(s, saved) && Existing(s.store, saved) && Walk(ids, saved)
    ensures var t := PutBackAll(s, saved, ids);
            && PutBack(s.store, t.store, saved)
            && (forall id: uint32 :: id !in saved && Settled(s.store, id) ==> Settled(t.store, id))
            && (forall id :: id in saved ==>
                  (Settled(t.store, id) <==> id < |t.store.file| && t.store.file[id] == saved[id]))
  {
    PutBackProgress(s, saved, ids, |ids|);
    assert ids[..|ids|] == ids;
    var t := PutBackAll(s, saved, ids);
    forall id: uint32
      ensures PutBackAt(s.store, t.store, saved, id)
      ensures id !in saved && Settled(s.store, id) ==> Settled(t.store, id)
      ensures id in saved ==> (Settled(t.store, id) <==> id < |t.store.file| && t.store.file[id] == saved[id])
    {
      assert RestoringAt(s.store, t.store, saved, ids, id);
    }
  }
}
