/** Which pages stay cached while a list of pages is read (pager.go:174-234). */
module Evictions {
  import opened Bytes
  import opened Lru

  function Max(a: nat, b: nat): nat { if a < b then b else a }

  /** How many pages a cache without pins holds at most: it never shrinks, and takes one even when
      its capacity is 0. */
  function Room(order: seq<uint32>, cap: nat): nat { Max(1, Max(cap, |order|)) }

  /** The list after the pages were put, one after another. */
  function Moved(order: seq<uint32>, ids: seq<uint32>, cap: nat): seq<uint32> {
    if ids == [] then order else PutOrder(Moved(order, ids[..|ids| - 1], cap), ids[|ids| - 1], cap, false)
  }

  function Reverse(s: seq<uint32>): seq<uint32> { if s == [] then [] else Reverse(s[1..]) + [s[0]] }

  lemma {:induction false} ReverseAppend(a: seq<uint32>, b: seq<uint32>)
    ensures Reverse(a + b) == Reverse(b) + Reverse(a)
  {
    if a == [] {
      assert a + b == b;
    } else {
      ReverseAppend(a[1..], b);
      assert (a + b)[1..] == a[1..] + b;
    }
  }

  lemma {:induction false} ReverseIds(s: seq<uint32>)
    ensures forall x :: x in Reverse(s) <==> x in s
  {
    if s != [] {
      ReverseIds(s[1..]);
      assert s == [s[0]] + s[1..];
    }
  }

  /** Any list is what references from its end to its front leave. */
  lemma {:induction false} RecentReverse(order: seq<uint32>)
    requires NoDuplicates(order)
    ensures Recent(Reverse(order)) == order
  {
    if order != [] {
      var head, tail := order[0], order[1..];
      assert order == [head] + tail;
      TailApart(head, tail);
      RecentReverse(tail);
      RecentAfter(Reverse(tail), head);
      WithoutKeepsOrder(tail, head);
    }
  }

  /** Putting with the room there is, is putting with the capacity; and the room stays. */
  lemma PutInRoom(order: seq<uint32>, id: uint32, cap: nat)
    requires NoDuplicates(order)
    ensures PutOrder(order, id, cap, false) == PutOrder(order, id, Room(order, cap), false)
    ensures Room(PutOrder(order, id, cap, false), cap) == Room(order, cap)
  {
    WithoutKeepsOrder(order, id);
  }

  /** The list is the most recently put pages, then the old list, cut to the room. */
  lemma {:induction false} MovedIsRecent(order: seq<uint32>, ids: seq<uint32>, cap: nat)
    requires NoDuplicates(order)
    ensures Moved(order, ids, cap) == Cut(Recent(Reverse(order) + ids), Room(order, cap))
    ensures NoDuplicates(Moved(order, ids, cap)) && Room(Moved(order, ids, cap), cap) == Room(order, cap)
  {
    var refs, room := Reverse(order), Room(order, cap);
    if ids == [] {
      RecentReverse(order);
      assert refs + ids == refs;
    } else {
      var n := |ids| - 1;
      MovedIsRecent(order, ids[..n], cap);
      var before := Moved(order, ids[..n], cap);
      PutInRoom(before, ids[n], cap);
      PutIsReference(refs + ids[..n], ids[n], room);
      PutOrderIds(before, ids[n], cap, false);
      LastApart(refs, ids);
    }
  }

  lemma LastApart(front: seq<uint32>, ids: seq<uint32>)
    requires ids != []
    ensures front + ids[..|ids| - 1] + [ids[|ids| - 1]] == front + ids
  {
  }

  /** A page not put again stays exactly while fewer pages than there is room for are ahead of it
      in the list or put. */
  lemma StaysExact(order: seq<uint32>, p: nat, ids: seq<uint32>, cap: nat)
    requires NoDuplicates(order) && p < |order| && order[p] !in ids
    ensures order[p] in Moved(order, ids, cap) <==> |Ids(order[..p] + ids)| < Room(order, cap)
  {
    var x, front := order[p], order[..p];
    FrontApart(order, p);
    ReverseAround(order, p, ids);
    ReverseIds(front);
    MovedIsRecent(order, ids, cap);
    Residency(Reverse(order[p + 1..]), x, Reverse(front) + ids, Room(order, cap));
    assert Ids(Reverse(front) + ids) == Ids(front + ids);
  }

  lemma FrontApart(order: seq<uint32>, p: nat)
    requires NoDuplicates(order) && p < |order|
    ensures order[p] !in order[..p]
  {
    assert forall i :: 0 <= i < p ==> order[..p][i] == order[i] != order[p];
  }

  lemma ReverseAround(order: seq<uint32>, p: nat, ids: seq<uint32>)
    requires p < |order|
    ensures Reverse(order) + ids == Reverse(order[p + 1..]) + [order[p]] + (Reverse(order[..p]) + ids)
  {
    var front, rest := order[..p], order[p..];
    assert order == front + rest;
    ReverseAppend(front, rest);
    assert rest[0] == order[p] && rest[1..] == order[p + 1..];
    Regroup(Reverse(order[p + 1..]), order[p], Reverse(front), ids);
  }

  lemma Regroup(a: seq<uint32>, x: uint32, b: seq<uint32>, c: seq<uint32>)
    ensures a + [x] + b + c == a + [x] + (b + c)
  {
  }

  /** A page that was put stays exactly while fewer other pages than there is room for follow. */
  lemma PutStaysExact(order: seq<uint32>, ids: seq<uint32>, k: nat, cap: nat)
    requires NoDuplicates(order) && NoDuplicates(ids) && k < |ids|
    ensures ids[k] in Moved(order, ids, cap) <==> |ids| - k - 1 < Room(order, cap)
  {
    var x, later := ids[k], ids[k + 1..];
    TailAfter(ids, k);
    MovedIsRecent(order, ids, cap);
    Residency(Reverse(order) + ids[..k], x, later, Room(order, cap));
    Around(Reverse(order), ids, k);
    FrontSize(later);
  }

  lemma TailAfter(ids: seq<uint32>, k: nat)
    requires NoDuplicates(ids) && k < |ids|
    ensures NoDuplicates(ids[k + 1..]) && ids[k] !in ids[k + 1..]
  {
    var later := ids[k + 1..];
    assert forall i :: 0 <= i < |later| ==> later[i] == ids[k + 1 + i];
  }

  lemma Around(front: seq<uint32>, ids: seq<uint32>, k: nat)
    requires k < |ids|
    ensures front + ids == front + ids[..k] + [ids[k]] + ids[k + 1..]
  {
    assert ids == ids[..k] + [ids[k]] + ids[k + 1..];
  }

  /** Where x stands in the list; |order| if it does not. */
  function Place(order: seq<uint32>, x: uint32): (p: nat)
    ensures p <= |order| && (p < |order| <==> x in order) && (p < |order| ==> order[p] == x)
  {
    if order == [] then 0
    else if order[0] == x then 0
    else Place(order[1..], x) + 1
  }

  /** Reading all these pages, in some order, can push x out: with them, at least as many other
      pages as there is room for come ahead of it. */
  predicate AtRisk(order: seq<uint32>, cap: nat, pages: set<uint32>, x: uint32) {
    |(Ids(order[..Place(order, x)]) + pages) - {x}| >= Room(order, cap)
  }

  /** Only a page at risk is pushed out before its own turn, in whatever order the pages come. */
  lemma PushedOutAtRisk(order: seq<uint32>, ids: seq<uint32>, cap: nat, pages: set<uint32>, x: uint32)
    requires NoDuplicates(order) && x in order && x !in ids && Ids(ids) <= pages
    requires x !in Moved(order, ids, cap)
    ensures AtRisk(order, cap, pages, x)
  {
    var p := Place(order, x);
    StaysExact(order, p, ids, cap);
    var few, many := Ids(order[..p] + ids), (Ids(order[..p]) + pages) - {x};
    FrontApart(order, p);
    assert few <= many;
    SubsetSmaller(few, many);
  }

  lemma SubsetSmaller<T>(a: set<T>, b: set<T>)
    requires a <= b
    ensures |a| <= |b|
  {
    assert b == a + (b - a);
  }

  /** A page outside the list of pages is pushed out by reading them all exactly when it is at
      risk. */
  lemma PushedOutExact(order: seq<uint32>, ids: seq<uint32>, cap: nat, x: uint32)
    requires NoDuplicates(order) && x in order && x !in ids
    ensures x !in Moved(order, ids, cap) <==> AtRisk(order, cap, Ids(ids), x)
  {
    var p := Place(order, x);
    StaysExact(order, p, ids, cap);
    FrontApart(order, p);
    IdsBoth(order[..p], ids, x);
  }

  lemma IdsBoth(a: seq<uint32>, b: seq<uint32>, x: uint32)
    requires x !in a && x !in b
    ensures Ids(a + b) == (Ids(a) + Ids(b)) - {x}
  {
  }

  /** When all the pages are listed already, none is at risk. */
  lemma ListedNotAtRisk(order: seq<uint32>, cap: nat, pages: set<uint32>, x: uint32)
    requires NoDuplicates(order) && x in order && forall id :: id in pages ==> id in order
    ensures !AtRisk(order, cap, pages, x)
  {
    var others := (Ids(order[..Place(order, x)]) + pages) - {x};
    FrontSize(order);
    assert others <= Ids(order) - {x};
    SubsetSmaller(others, Ids(order) - {x});
    assert |Ids(order) - {x}| == |Ids(order)| - 1;
  }
}
