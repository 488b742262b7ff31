/** Whole runs of a transaction, on values: what the methods of class Transaction do to the store,
    the cache list and the log, one step after another. */
module TransactionRun {
  import opened Bytes
  import opened Wrappers
  import opened Lru
  import opened Pages
  import opened Evictions
  import opened Pagers
  import opened PagerRun
  import opened Rollbacks
  import opened RollbackExact
  import opened Transactions

  /** Read a page, save it and write it; read a page; set, release or roll back to a savepoint, or
      roll everything back, in the given order. */
  datatype Action = SaveAndWrite(id: uint32, data: Bytes) | ReadIn(id: uint32) | Set(name: string)
                  | Release(name: string) | RollbackTo(name: string, walk: seq<uint32>) | RollbackAll(walk: seq<uint32>)

  datatype Moment = Moment(cache: State, log: Log, snaps: seq<Store>)

  /** Pages that are written exist and are whole; rollbacks walk the saved pages, and those are
      restorable. */
  ghost predicate Allowed(s: Moment, a: Action)
    requires s.cache.Linked() && |s.snaps| == |s.log.points|
  {
    match a
    case SaveAndWrite(id, d) => Read(s.cache.store, id).Some? && |Read(s.cache.store, id).value| == PAGE_SIZE == |d|
    case RollbackTo(name, walk) =>
      var i := Find(s.log.points, name);
      i >= 0 ==> Walk(walk, s.log.points[i].pages) && Restorable(s.cache, s.log.points[i].pages)
    case RollbackAll(walk) => Walk(walk, s.log.saved) && Restorable(s.cache, s.log.saved)
    case _ => true
  }

  /** What a read pushes out may leave. */
  ghost predicate Careful(s: Moment, a: Action, base: Store)
    requires |s.snaps| == |s.log.points|
  {
    match a
    case SaveAndWrite(id, _) => Spared(s.cache, s.log, base, s.snaps, id)
    case ReadIn(id) => Spared(s.cache, s.log, base, s.snaps, id)
    case _ => true
  }

  ghost function Written(t: State, id: uint32, d: Bytes): (u: State)
    requires t.Linked()
    ensures u.Linked()
  {
    Overwrite(t, id, d)
  }

  ghost function Next(s: Moment, a: Action): (t: Moment)
    requires s.cache.Linked() && |s.snaps| == |s.log.points| && Allowed(s, a)
    ensures t.cache.Linked() && |t.snaps| == |t.log.points|
  {
    match a
    case SaveAndWrite(id, d) =>
      Moment(Written(Get(s.cache, id), id, d), SaveAll(s.log, id, Read(s.cache.store, id).value), s.snaps)
    case ReadIn(id) => s.(cache := Get(s.cache, id))
    case Set(name) =>
      s.(log := s.log.(points := s.log.points + [Mark(name, map[])]), snaps := s.snaps + [s.cache.store])
    case Release(name) =>
      var i := Find(s.log.points, name);
      if i < 0 then s else s.(log := s.log.(points := s.log.points[..i]), snaps := s.snaps[..i])
    case RollbackTo(name, walk) =>
      var i := Find(s.log.points, name);
      if i < 0 then s
      else Moment(PutBackAll(s.cache, s.log.points[i].pages, walk), Unwound(s.log, i), s.snaps[..i + 1])
    case RollbackAll(walk) => Moment(PutBackAll(s.cache, s.log.saved, walk), Log(map[], []), [])
  }

  ghost predicate Kept(s: Moment, base: Store) { Keeps(s.cache.store, s.log, base, s.snaps) }

  /** A step keeps every snapshot exactly when its read is careful. */
  lemma NextExact(s: Moment, a: Action, base: Store)
    requires s.cache.Linked() && Kept(s, base) && Allowed(s, a)
    ensures Kept(Next(s, a), base) <==> Careful(s, a, base)
  {
    match a {
      case SaveAndWrite(id, d) =>
        GetKeepsExact(s.cache, s.log, base, s.snaps, id);
        WriteExact(s, id, d, base);
      case ReadIn(id) => GetKeepsExact(s.cache, s.log, base, s.snaps, id);
      case Set(name) => MarkKeeps(s.cache.store, s.log, base, s.snaps, name);
      case Release(name) =>
        var i := Find(s.log.points, name);
        if i >= 0 {
          ReleaseKeeps(s.cache.store, s.log, base, s.snaps, i);
        }
      case RollbackTo(name, walk) =>
        var i := Find(s.log.points, name);
        if i >= 0 {
          RestorableRestores(s.cache, s.log.points[i].pages, walk);
          RollbackKeeps(s.cache.store, Next(s, a).cache.store, s.log, base, s.snaps, i);
        }
      case RollbackAll(walk) =>
        RestorableRestores(s.cache, s.log.saved, walk);
        PutBackRestores(s.cache.store, Next(s, a).cache.store, s.log.saved, base);
    }
  }

  /** After the read, saving and writing the page lose nothing more, and repair nothing. */
  lemma WriteExact(s: Moment, id: uint32, d: Bytes, base: Store)
    requires s.cache.Linked() && Kept(s, base) && Allowed(s, SaveAndWrite(id, d))
    ensures Kept(Next(s, SaveAndWrite(id, d)), base) <==> Keeps(Get(s.cache, id).store, s.log, base, s.snaps)
  {
    var t := Get(s.cache, id);
    var u := Next(s, SaveAndWrite(id, d));
    GetChanges(s.cache, id);
    s.cache.VictimCached(id);
    assert Read(t.store, id) == Read(s.cache.store, id) && id in t.store.cached;
    if Keeps(t.store, s.log, base, s.snaps) {
      SaveKeeps(t.store, s.log, base, s.snaps, id);
      KeepsExact(t.store, u.cache.store, u.log, base, u.snaps, id);
      SavedIsKept(t.store, u.cache.store, u.log, base, u.snaps, id);
    } else {
      StaysLost(s, t, u, id, base);
    }
  }

  /** A snapshot lost by the read is lost after the write. */
  lemma StaysLost(s: Moment, t: State, u: Moment, id: uint32, base: Store)
    requires s.cache.Linked() && Kept(s, base) && t == Get(s.cache, id) && t.Linked()
    requires Read(s.cache.store, id).Some? && id in t.store.cached
    requires u.cache.store.file == t.store.file && u.log == SaveAll(s.log, id, Read(s.cache.store, id).value)
    requires u.snaps == s.snaps
    requires forall x: uint32 :: x != id ==> (x in u.cache.store.cached <==> x in t.store.cached)
                                             && (x in t.store.cached ==> u.cache.store.cached[x] == t.store.cached[x])
    requires !Keeps(t.store, s.log, base, s.snaps)
    ensures !Kept(u, base)
  {
    GetKeepsExact(s.cache, s.log, base, s.snaps, id);
    var v := s.cache.Victim(id).value;
    s.cache.VictimCached(id);
    GetChanges(s.cache, id);
    LeavesExact(s.cache.store, t.store, s.log, base, s.snaps, v);
    assert !KeptAt(t.store, s.log, base, s.snaps, v);
    assert Read(u.cache.store, v) == Read(t.store, v);
    if Kept(u, base) {
      assert RestoresAt(u.cache.store, u.log.saved, base, v);
      forall j | 0 <= j < |s.snaps|
        ensures RestoresAt(t.store, s.log.points[j].pages, s.snaps[j], v)
      {
        assert Restores(u.cache.store, u.log.points[j].pages, u.snaps[j]);
        assert RestoresAt(u.cache.store, u.log.points[j].pages, u.snaps[j], v);
      }
      assert false;
    }
  }

  // ----- Runs -----

  /** trace is a run: every moment after the first comes from the one before by its action. */
  ghost predicate IsRun(trace: seq<Moment>, actions: seq<Action>) {
    && |trace| == |actions| + 1
    && forall k :: 0 <= k < |actions| ==> Moves(trace[k], actions[k], trace[k + 1])
  }

  ghost predicate Moves(s: Moment, a: Action, t: Moment) {
    s.cache.Linked() && |s.snaps| == |s.log.points| && Allowed(s, a) && t == Next(s, a)
  }

  ghost predicate Starts(s: Moment, base: Store) {
    s.cache.Linked() && s.cache.store == base && s.log == Log(map[], []) && s.snaps == []
  }

  ghost predicate CarefulStep(s: Moment, a: Action, t: Moment, base: Store) {
    Moves(s, a, t) && Careful(s, a, base)
  }

  ghost predicate CarefulRun(trace: seq<Moment>, actions: seq<Action>, base: Store, k: nat)
    requires |trace| == |actions| + 1 && k <= |actions|
  {
    forall i :: 0 <= i < k ==> CarefulStep(trace[i], actions[i], trace[i + 1], base)
  }

  /** In every moment of a careful run, duplicate savepoint names included, the log restores the
      store as the run began and as each open savepoint was set, and inner saved sets nest in
      outer. */
  lemma {:induction false} RunKeeps(trace: seq<Moment>, actions: seq<Action>, base: Store, k: nat)
    requires IsRun(trace, actions) && k <= |actions| && Starts(trace[0], base)
    requires CarefulRun(trace, actions, base, k)
    ensures Kept(trace[k], base)
  {
    if k == 0 {
      assert forall id: uint32 :: RestoresAt(base, map[], base, id);
    } else {
      RunKeeps(trace, actions, base, k - 1);
      assert CarefulStep(trace[k - 1], actions[k - 1], trace[k], base);
      NextExact(trace[k - 1], actions[k - 1], base);
    }
  }

  /** And only careful runs do. */
  lemma RunKeepsExact(trace: seq<Moment>, actions: seq<Action>, base: Store)
    requires IsRun(trace, actions) && Starts(trace[0], base)
    ensures CarefulRun(trace, actions, base, |actions|) <==> forall k :: 0 <= k <= |actions| ==> Kept(trace[k], base)
  {
    if CarefulRun(trace, actions, base, |actions|) {
      forall k | 0 <= k <= |actions|
        ensures Kept(trace[k], base)
      {
        RunKeeps(trace, actions, base, k);
      }
    }
    if forall k :: 0 <= k <= |actions| ==> Kept(trace[k], base) {
      forall i | 0 <= i < |actions|
        ensures CarefulStep(trace[i], actions[i], trace[i + 1], base)
      {
        assert Moves(trace[i], actions[i], trace[i + 1]);
        NextExact(trace[i], actions[i], base);
      }
    }
  }

  /** Rolling back shows the snapshot taken when the innermost savepoint of that name was set. */
  lemma RollbackShowsSnapshot(trace: seq<Moment>, actions: seq<Action>, base: Store, k: nat)
    requires IsRun(trace, actions) && k < |actions| && Starts(trace[0], base)
    requires actions[k].RollbackTo? && CarefulRun(trace, actions, base, k)
    requires Find(trace[k].log.points, actions[k].name) >= 0
    ensures |trace[k].snaps| == |trace[k].log.points|
    ensures Restores(trace[k + 1].cache.store, map[], trace[k].snaps[Find(trace[k].log.points, actions[k].name)])
  {
    RunKeeps(trace, actions, base, k);
    assert Moves(trace[k], actions[k], trace[k + 1]);
    var s, i := trace[k], Find(trace[k].log.points, actions[k].name);
    RestorableRestores(s.cache, s.log.points[i].pages, actions[k].walk);
    RollbackKeeps(s.cache.store, trace[k + 1].cache.store, s.log, base, s.snaps, i);
  }

  /** Rolling everything back shows the store as the run began. */
  lemma RollbackShowsBase(trace: seq<Moment>, actions: seq<Action>, base: Store, k: nat)
    requires IsRun(trace, actions) && k < |actions| && Starts(trace[0], base)
    requires actions[k].RollbackAll? && CarefulRun(trace, actions, base, k)
    ensures Restores(trace[k + 1].cache.store, map[], base)
  {
    RunKeeps(trace, actions, base, k);
    assert Moves(trace[k], actions[k], trace[k + 1]);
    var s := trace[k];
    RestorableRestores(s.cache, s.log.saved, actions[k].walk);
    PutBackRestores(s.cache.store, trace[k + 1].cache.store, s.log.saved, base);
  }

  /** Where every page has its place in the file and the snapshot knows every page, a rollback shows
      the snapshot exactly when the pages it leaves alone, and those it puts back too early to stay
      cached, are safe. */
  lemma ShowsSnapshotExact(s: State, saved: map<uint32, Bytes>, snap: Store, walk: seq<uint32>)
    requires s.Linked() && InFile(s.store, saved) && Walk(walk, saved) && Restores(s.store, saved, snap)
    requires forall x: uint32 :: Read(s.store, x).Some? ==> Read(snap, x).Some?
    ensures Restores(PutBackAll(s, saved, walk).store, map[], snap) <==>
            OthersSafe(s, saved) && EarlySafe(s, saved, walk)
  {
    var now := PutBackAll(s, saved, walk).store;
    ShowsExact(s, saved, walk);
    if PutBack(s.store, now, saved) {
      PutBackRestores(s.store, now, saved, snap);
    }
    if Restores(now, map[], snap) {
      HalfWayAt(s, saved, walk, |walk|);
      assert walk[..|walk|] == walk;
      forall x: uint32
        ensures PutBackAt(s.store, now, saved, x)
      {
        assert RestoresAt(s.store, saved, snap, x) && RestoresAt(now, map[], snap, x);
        assert x in saved ==> Read(s.store, x).Some?;
        if Read(s.store, x) == None {
          assert WaitingAt(s, PutBackAll(s, saved, walk), walk[..|walk|], x);
        }
      }
    }
  }
}
