/** The page cache: a map and a list kept in step, least recently used entry evicted first
    (pager.go:152-234). */
module Lru {
  import opened Bytes
  import opened PageOps

  // ----- Recency as a function of the references -----

  function Without(order: seq<uint32>, id: uint32): seq<uint32> {
    if order == [] then []
    else if order[0] == id then Without(order[1..], id)
    else [order[0]] + Without(order[1..], id)
  }

  /** The list after id is referenced. */
  function Touch(order: seq<uint32>, id: uint32): seq<uint32> { [id] + Without(order, id) }

  function Cut(order: seq<uint32>, cap: nat): seq<uint32> {
    if |order| <= cap then order else order[..cap]
  }

  /** All ids ever referenced, each once, the latest reference first. */
  function Recent(refs: seq<uint32>): seq<uint32> {
    if refs == [] then [] else Touch(Recent(refs[..|refs| - 1]), refs[|refs| - 1])
  }

  ghost predicate NoDuplicates(order: seq<uint32>) {
    forall i, j :: 0 <= i < j < |order| ==> order[i] != order[j]
  }

  lemma {:induction false} WithoutIn(order: seq<uint32>, id: uint32)
    ensures forall x :: x in Without(order, id) <==> x in order && x != id
  {
    if order != [] {
      var head, tail := order[0], order[1..];
      assert order == [head] + tail;
      WithoutIn(tail, id);
      assert Without(order, id) == if head == id then Without(tail, id) else [head] + Without(tail, id);
    }
  }

  lemma {:induction false} WithoutKeepsOrder(order: seq<uint32>, id: uint32)
    requires NoDuplicates(order)
    ensures NoDuplicates(Without(order, id))
    ensures forall x :: x in Without(order, id) <==> x in order && x != id
    ensures id !in order ==> Without(order, id) == order
    ensures id in order ==> |Without(order, id)| == |order| - 1
  {
    if order != [] {
      var head, tail := order[0], order[1..];
      assert order == [head] + tail;
      TailApart(head, tail);
      WithoutKeepsOrder(tail, id);
      var rest := Without(tail, id);
      if head == id {
        assert Without(order, id) == rest;
      } else {
        assert Without(order, id) == [head] + rest;
        PushFront(head, rest);
      }
    }
  }

  lemma TailApart(head: uint32, tail: seq<uint32>)
    requires NoDuplicates([head] + tail)
    ensures NoDuplicates(tail) && head !in tail
    ensures forall x :: x in [head] + tail <==> x == head || x in tail
  {
    var order := [head] + tail;
    assert forall i :: 0 <= i < |tail| ==> order[i + 1] == tail[i] && order[0] != order[i + 1];
  }

  lemma PushFront(id: uint32, order: seq<uint32>)
    requires NoDuplicates(order) && id !in order
    ensures NoDuplicates([id] + order) && forall x :: x in [id] + order <==> x == id || x in order
  {
  }

  /** Position of the last reference to x. */
  function LastRef(refs: seq<uint32>, x: uint32): (n: int)
    ensures -1 <= n < |refs| && (n >= 0 <==> x in refs) && (n >= 0 ==> refs[n] == x)
    ensures forall k :: n < k < |refs| ==> refs[k] != x
  {
    if refs == [] then -1
    else if refs[|refs| - 1] == x then |refs| - 1
    else LastRef(refs[..|refs| - 1], x)
  }

  ghost predicate ByRecency(refs: seq<uint32>, order: seq<uint32>) {
    forall i, j :: 0 <= i < j < |order| ==> LastRef(refs, order[i]) > LastRef(refs, order[j])
  }

  /** Recent is the distinct referenced ids, ordered by their last reference, latest first. */
  lemma {:induction false} RecentMeaning(refs: seq<uint32>)
    ensures NoDuplicates(Recent(refs))
    ensures forall x :: x in Recent(refs) <==> x in refs
    ensures ByRecency(refs, Recent(refs))
  {
    if refs != [] {
      var n := |refs| - 1;
      var before, id := refs[..n], refs[n];
      RecentMeaning(before);
      TouchMeaning(before, id, Recent(before));
      WithoutIn(Recent(before), id);
      assert refs == before + [id];
    }
  }

  lemma TouchMeaning(before: seq<uint32>, id: uint32, order: seq<uint32>)
    requires NoDuplicates(order)
    requires ByRecency(before, order)
    ensures NoDuplicates(Touch(order, id)) && ByRecency(before + [id], Touch(order, id))
  {
    var rest := Without(order, id);
    WithoutKeepsOrder(order, id);
    WithoutRanks(before, id, order);
    assert (before + [id])[..|before|] == before;
    forall j | 0 <= j < |rest|
      ensures rest[j] != id && LastRef(before + [id], rest[j]) == LastRef(before, rest[j])
    {
      assert rest[j] in rest;
    }
  }

  lemma {:induction false} WithoutRanks(refs: seq<uint32>, id: uint32, order: seq<uint32>)
    requires ByRecency(refs, order)
    ensures ByRecency(refs, Without(order, id))
  {
    if order != [] {
      var tail := order[1..];
      forall i, j | 0 <= i < j < |tail|
        ensures LastRef(refs, tail[i]) > LastRef(refs, tail[j])
      {
        assert tail[i] == order[i + 1] && tail[j] == order[j + 1];
      }
      WithoutRanks(refs, id, tail);
      WithoutIn(tail, id);
      var rest := Without(tail, id);
      forall x | x in rest
        ensures LastRef(refs, order[0]) > LastRef(refs, x)
      {
        var k :| 0 <= k < |tail| && tail[k] == x;
        assert tail[k] == order[k + 1];
      }
      assert ByRecency(refs, [order[0]] + rest);
      assert Without(order, id) == if order[0] == id then rest else [order[0]] + rest;
    }
  }

  /** One reference to a cache that holds the cap most recent ids leaves it holding the cap most
      recent ids. */
  lemma CutTouch(full: seq<uint32>, id: uint32, cap: nat)
    requires cap >= 1 && NoDuplicates(full)
    ensures Cut(Touch(full, id), cap) ==
            (if id in Cut(full, cap) then Touch(Cut(full, cap), id) else Cut([id] + Cut(full, cap), cap))
  {
    var kept := Cut(full, cap);
    var rest := full[|kept|..];
    assert full == kept + rest;
    WithoutAppend(kept, rest, id);
    assert NoDuplicates(kept);
    WithoutKeepsOrder(kept, id);
    if id in kept {
      CutTouchInside(kept, rest, id, cap);
    } else {
      CutTouchOutside(kept, Without(rest, id), id, cap);
    }
  }

  lemma CutTouchInside(kept: seq<uint32>, rest: seq<uint32>, id: uint32, cap: nat)
    requires NoDuplicates(kept + rest) && NoDuplicates(kept) && id in kept
    requires |kept| == cap || (rest == [] && |kept| < cap)
    requires Without(kept + rest, id) == Without(kept, id) + Without(rest, id)
    ensures Cut(Touch(kept + rest, id), cap) == Touch(kept, id)
  {
    Elsewhere(kept, rest, id);
    WithoutKeepsOrder(kept, id);
    WithoutKeepsOrder(rest, id);
    CutPrefix(Touch(kept, id), rest, cap);
    assert Touch(kept + rest, id) == Touch(kept, id) + rest;
  }

  lemma Elsewhere(kept: seq<uint32>, rest: seq<uint32>, id: uint32)
    requires NoDuplicates(kept + rest) && id in kept
    ensures id !in rest && NoDuplicates(rest)
  {
    var all := kept + rest;
    var k :| 0 <= k < |kept| && kept[k] == id;
    forall i | 0 <= i < |rest|
      ensures rest[i] != id && all[|kept| + i] == rest[i]
    {
      assert all[k] != all[|kept| + i];
    }
  }

  lemma CutTouchOutside(kept: seq<uint32>, others: seq<uint32>, id: uint32, cap: nat)
    requires |kept| == cap || (others == [] && |kept| < cap)
    requires cap >= 1
    ensures Cut([id] + (kept + others), cap) == Cut([id] + kept, cap)
  {
    if |kept| == cap {
      assert ([id] + (kept + others))[..cap] == ([id] + kept)[..cap];
    } else {
      assert kept + others == kept;
    }
  }

  lemma CutPrefix(a: seq<uint32>, b: seq<uint32>, cap: nat)
    requires |a| == cap || (b == [] && |a| < cap)
    ensures Cut(a + b, cap) == a
  {
    if |a| < cap {
      assert a + b == a;
    } else {
      assert (a + b)[..cap] == a;
    }
  }

  lemma {:induction false} WithoutAppend(a: seq<uint32>, b: seq<uint32>, id: uint32)
    ensures Without(a + b, id) == Without(a, id) + Without(b, id)
  {
    if a == [] {
      assert a + b == b;
    } else {
      WithoutAppend(a[1..], b, id);
      assert (a + b)[1..] == a[1..] + b;
    }
  }

  function Ids(refs: seq<uint32>): set<uint32> { set x | x in refs }

  /** id is at place k, behind only ids in later. */
  ghost predicate At(order: seq<uint32>, id: uint32, k: nat, later: seq<uint32>) {
    k < |order| && order[k] == id && forall i :: 0 <= i < k ==> order[i] in later
  }

  lemma RecentAfter(before: seq<uint32>, x: uint32)
    ensures Recent(before + [x]) == Touch(Recent(before), x)
  {
    assert (before + [x])[..|before|] == before;
  }

  /** After a last reference to id, it moves back by one place for every other id referenced. */
  lemma {:induction false} PlaceOf(refs: seq<uint32>, id: uint32, later: seq<uint32>)
    requires id !in later
    ensures At(Recent(refs + [id] + later), id, |Ids(later)|, later)
  {
    if later == [] {
      assert refs + [id] + later == refs + [id];
      RecentAfter(refs, id);
      assert Ids(later) == {};
    } else {
      var n := |later| - 1;
      var before := refs + [id] + later[..n];
      PlaceOf(refs, id, later[..n]);
      RecentMeaning(before);
      PlaceStep(Recent(before), id, later[..n], later[n]);
      RecentAfter(before, later[n]);
      assert refs + [id] + later == before + [later[n]];
      assert later == later[..n] + [later[n]];
    }
  }

  lemma PlaceStep(order: seq<uint32>, id: uint32, later: seq<uint32>, x: uint32)
    requires NoDuplicates(order) && x != id && At(order, id, |Ids(later)|, later)
    ensures At(Touch(order, x), id, |Ids(later + [x])|, later + [x])
  {
    var k := |Ids(later)|;
    MoveBack(order, x, id, k);
    assert Ids(later + [x]) == Ids(later) + {x};
    if x in later {
      PlacedBefore(order, later, k, x, id);
    } else {
      assert x !in order[..k];
    }
  }

  /** Everything referenced since id stands before it. */
  lemma PlacedBefore(order: seq<uint32>, later: seq<uint32>, k: nat, x: uint32, id: uint32)
    requires k < |order| && NoDuplicates(order) && k == |Ids(later)| && x in later
    requires forall i :: 0 <= i < k ==> order[i] in later
    ensures x in order[..k]
  {
    FrontSize(order[..k]);
    assert Ids(order[..k]) <= Ids(later);
    SameSize(Ids(order[..k]), Ids(later));
    assert x in Ids(order[..k]);
  }

  lemma {:induction false} FrontSize(order: seq<uint32>)
    requires NoDuplicates(order)
    ensures |Ids(order)| == |order|
  {
    if order != [] {
      var n := |order| - 1;
      FrontSize(order[..n]);
      assert Ids(order) == Ids(order[..n]) + {order[n]};
      assert order[n] !in order[..n];
    } else {
      assert Ids(order) == {};
    }
  }

  lemma SameSize<T>(a: set<T>, b: set<T>)
    requires a <= b && |a| == |b|
    ensures a == b
  {
    assert b == a + (b - a);
  }

  lemma MoveBack(order: seq<uint32>, x: uint32, id: uint32, k: nat)
    requires NoDuplicates(order) && k < |order| && order[k] == id && x != id
    ensures var t := Touch(order, x);
            var k' := if x in order[..k] then k else k + 1;
            k' < |t| && t[k'] == id && forall i :: 0 <= i < k' ==> t[i] == x || t[i] in order[..k]
  {
    WithoutAppend(order[..k], order[k..], x);
    assert order == order[..k] + order[k..];
    assert NoDuplicates(order[..k]);
    WithoutKeepsOrder(order[..k], x);
    var a, b := Without(order[..k], x), Without(order[k..], x);
    assert order[k..][0] == id;
    assert b[0] == id;
    var t := Touch(order, x);
    assert t == [x] + a + b;
    forall i | 0 <= i < |a| + 1
      ensures t[i] == x || t[i] in order[..k]
    {
      if i > 0 {
        assert t[i] == a[i - 1] && a[i - 1] in a;
      }
    }
  }

  /** A page stays cached until cap other distinct ids have been referenced since, and no
      longer. */
  lemma Residency(refs: seq<uint32>, id: uint32, later: seq<uint32>, cap: nat)
    requires id !in later
    ensures id in Cut(Recent(refs + [id] + later), cap) <==> |Ids(later)| < cap
  {
    PlaceOf(refs, id, later);
    RecentMeaning(refs + [id] + later);
    var r := Recent(refs + [id] + later);
    var k := |Ids(later)|;
    if id in Cut(r, cap) {
      var i :| 0 <= i < |Cut(r, cap)| && Cut(r, cap)[i] == id;
      assert r[i] == r[k];
    }
    if k < cap {
      assert Cut(r, cap)[k] == id;
    }
  }

  // ----- The cache -----

  /** What put does to the list: a hit moves the id to the front; otherwise a full list gives up
      its last id, or, when that page is pinned, keeps it at the front and grows. */
  function PutOrder(order: seq<uint32>, id: uint32, cap: nat, lastPinned: bool): seq<uint32> {
    if id in order then Touch(order, id)
    else if |order| < cap || order == [] then [id] + order
    else
      var victim := order[|order| - 1];
      if lastPinned then [id] + Touch(order, victim) else [id] + order[..|order| - 1]
  }

  /** A list less its last entry. */
  lemma DropLast(front: seq<uint32>, victim: uint32)
    requires NoDuplicates(front + [victim])
    ensures NoDuplicates(front) && forall x :: x in front <==> x in front + [victim] && x != victim
  {
    var order := front + [victim];
    assert forall i :: 0 <= i < |front| ==> order[i] == front[i] && order[i] != order[|front|];
  }

  lemma PutOrderIds(order: seq<uint32>, id: uint32, cap: nat, lastPinned: bool)
    requires NoDuplicates(order)
    ensures var t := PutOrder(order, id, cap, lastPinned);
            && NoDuplicates(t)
            && (forall x :: x in t <==> x == id || (x in order && !Evicts(order, id, cap, lastPinned, x)))
  {
    if id in order {
      WithoutKeepsOrder(order, id);
      PushFront(id, Without(order, id));
    } else if |order| < cap || order == [] {
      PushFront(id, order);
    } else {
      var front, victim := order[..|order| - 1], order[|order| - 1];
      assert order == front + [victim];
      if lastPinned {
        WithoutKeepsOrder(order, victim);
        PushFront(victim, Without(order, victim));
        PushFront(id, Touch(order, victim));
      } else {
        DropLast(front, victim);
        PushFront(id, front);
      }
    }
  }

  /** The ids cached after a put. */
  function KeysAfter(order: seq<uint32>, keys: set<uint32>, id: uint32, cap: nat, lastPinned: bool): set<uint32> {
    (if id !in order && |order| >= cap && order != [] && !lastPinned then keys - {order[|order| - 1]} else keys) + {id}
  }

  /** The list and the map stay in step. */
  lemma PutLinked(order: seq<uint32>, keys: set<uint32>, id: uint32, cap: nat, lastPinned: bool)
    requires NoDuplicates(order) && forall x :: x in order <==> x in keys
    ensures var t := PutOrder(order, id, cap, lastPinned);
            NoDuplicates(t) && forall x :: x in t <==> x in KeysAfter(order, keys, id, cap, lastPinned)
  {
    PutOrderIds(order, id, cap, lastPinned);
  }

  /** Putting id pushes x out: x is last in a full list that lacks id, and not pinned. */
  predicate Evicts(order: seq<uint32>, id: uint32, cap: nat, lastPinned: bool, x: uint32) {
    id !in order && |order| >= cap && order != [] && x == order[|order| - 1] && !lastPinned
  }

  /** Without pins, a put is a reference: the list stays the most recent ids, cut to capacity. */
  lemma PutIsReference(refs: seq<uint32>, id: uint32, cap: nat)
    requires cap >= 1
    ensures PutOrder(Cut(Recent(refs), cap), id, cap, false) == Cut(Recent(refs + [id]), cap)
  {
    Referenced(refs, id, cap);
    var kept := Cut(Recent(refs), cap);
    if id !in kept && |kept| == cap {
      assert ([id] + kept)[..cap] == [id] + kept[..cap - 1];
    }
  }

  /** A reference to a listed id, and one to a new id, keep the list the cut of Recent. */
  lemma Referenced(refs: seq<uint32>, id: uint32, cap: nat)
    requires cap >= 1
    ensures var kept := Cut(Recent(refs), cap);
            Cut(Recent(refs + [id]), cap) == (if id in kept then Touch(kept, id) else Cut([id] + kept, cap))
  {
    RecentAfter(refs, id);
    RecentMeaning(refs);
    CutTouch(Recent(refs), id, cap);
  }

  class LruCache {
    const cap: nat
    var items: map<uint32, Page>
    var order: seq<uint32>
    /** The references so far: get hits and puts. */
    ghost var refs: seq<uint32>

    /** The map and the list hold the same ids, each once. */
    ghost predicate Linked()
      reads this
    {
      NoDuplicates(order) && forall id :: id in order <==> id in items
    }

    /** The list is the most recently referenced ids, cut to capacity. */
    ghost predicate Valid()
      reads this
    {
      Linked() && cap >= 1 && order == Cut(Recent(refs), cap)
    }

    constructor (cap: nat)
      ensures this.cap == cap && items == map[] && order == [] && refs == []
      ensures Linked() && (cap >= 1 ==> Valid())
    {
      this.cap := cap;
      items, order, refs := map[], [], [];
    }

    /** A hit moves the id to the front; a miss changes nothing. */
    method Get(id: uint32) returns (pg: Page?)
      requires Linked()
      modifies this`order, this`refs
      ensures Linked() && (old(Valid()) ==> Valid())
      ensures id in items ==> pg == items[id] && order == Touch(old(order), id) && refs == old(refs) + [id]
      ensures id !in items ==> pg == null && order == old(order) && refs == old(refs)
    {
      if id !in items {
        return null;
      }
      Hit(id);
      order := Touch(order, id);
      refs := refs + [id];
      pg := items[id];
    }

    lemma Hit(id: uint32)
      requires Linked() && id in items
      ensures NoDuplicates(Touch(order, id)) && forall x :: x in Touch(order, id) <==> x in items
      ensures Valid() ==> Touch(order, id) == Cut(Recent(refs + [id]), cap)
    {
      WithoutKeepsOrder(order, id);
      if Valid() {
        Referenced(refs, id, cap);
      }
    }

    /** The page in the last place of the list is pinned. */
    ghost predicate LastPinned()
      requires Linked()
      reads this, items.Values
    {
      order != [] && var last := order[|order| - 1]; last in order && items[last].pins > 0
    }

    /** put returns the page it evicted, if any. */
    method Put(id: uint32, pg: Page) returns (evicted: Page?)
      requires Linked()
      modifies this`items, this`order, this`refs
      ensures Linked() && (old(Valid() && !LastPinned()) ==> Valid())
      ensures order == PutOrder(old(order), id, cap, old(LastPinned()))
      ensures refs == old(refs) + [id]
      ensures if id in old(items) || |old(order)| < cap || old(order) == [] || old(LastPinned())
              then evicted == null && items == old(items)[id := pg]
              else var last := old(order)[|old(order)| - 1];
                   evicted == old(items)[last] && items == (old(items) - {last})[id := pg]
    {
      ghost var pinned := LastPinned();
      PutLinked(order, items.Keys, id, cap, pinned);
      if Valid() {
        PutIsReference(refs, id, cap);
      }
      evicted := Arrange(id);
      refs := refs + [id];
      items := items[id := pg];
    }

    /** put up to filing the page: the id comes to the front, and a full list makes room. */
    method Arrange(id: uint32) returns (evicted: Page?)
      requires Linked()
      modifies this`items, this`order
      ensures order == PutOrder(old(order), id, cap, old(LastPinned()))
      ensures items.Keys + {id} == KeysAfter(old(order), old(items).Keys, id, cap, old(LastPinned()))
      ensures if id in old(items) || |old(order)| < cap || old(order) == [] || old(LastPinned())
              then evicted == null && items == old(items)
              else var last := old(order)[|old(order)| - 1];
                   evicted == old(items)[last] && items == old(items) - {last}
    {
      evicted := null;
      if id in items {
        order := Touch(order, id);
      } else {
        if |order| >= cap && |order| > 0 {
          evicted := MakeRoom();
        }
        order := [id] + order;
      }
    }

    /** The one turn of put's eviction loop: the last page goes, unless it is pinned. */
    method MakeRoom() returns (evicted: Page?)
      requires Linked() && order != []
      modifies this`items, this`order
      ensures var last := old(order)[|old(order)| - 1];
              if old(LastPinned())
              then evicted == null && order == Touch(old(order), last) && items == old(items)
              else last in old(items) && evicted == old(items)[last]
                   && order == old(order)[..|old(order)| - 1] && items == old(items) - {last}
    {
      var last := order[|order| - 1];
      assert last in order;
      if items[last].pins > 0 {
        evicted := null;
        order := Touch(order, last);
      } else {
        evicted := items[last];
        items := items - {last};
        order := order[..|order| - 1];
      }
    }

    /** remove */
    method Remove(id: uint32)
      requires Linked()
      modifies this`items, this`order
      ensures Linked() && items == old(items) - {id} && order == Without(old(order), id)
    {
      if id in items {
        WithoutKeepsOrder(order, id);
        items := items - {id};
        order := Without(order, id);
      } else {
        WithoutKeepsOrder(order, id);
      }
    }
  }
}
