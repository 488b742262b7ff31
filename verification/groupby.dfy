/** GROUP BY and the aggregates over integers (executor.go:594-655, 709-826). */
module Grouping {
  import opened Bytes
  import opened Wrappers
  import opened Rows
  import opened Values
  import opened GroupKeys

  // ----- Groups -----

  datatype Group<K, R> = Group(key: K, rows: seq<R>)

  /** The group with this key; |groups| when there is none. */
  function Find<K(==), R>(groups: seq<Group<K, R>>, key: K): (i: nat)
    ensures i <= |groups| && (i < |groups| ==> groups[i].key == key)
    ensures forall j :: 0 <= j < i ==> groups[j].key != key
  {
    if groups == [] then 0
    else if groups[0].key == key then 0
    else Find(groups[1..], key) + 1
  }

  /** One row more: into its group, or into a new last one. */
  function AddRow<K(==), R>(groups: seq<Group<K, R>>, key: K, row: R): seq<Group<K, R>> {
    var i := Find(groups, key);
    if i < |groups| then groups[i := Group(key, groups[i].rows + [row])]
    else groups + [Group(key, [row])]
  }

  function Groups<K(==), R>(rows: seq<R>, keyOf: R -> K): seq<Group<K, R>> {
    if rows == [] then []
    else AddRow(Groups(rows[..|rows| - 1], keyOf), keyOf(rows[|rows| - 1]), rows[|rows| - 1])
  }

  /** The rows with this key, in their order. */
  function WithKey<K(==), R>(rows: seq<R>, keyOf: R -> K, key: K): seq<R> {
    if rows == [] then []
    else
      var n := |rows| - 1;
      WithKey(rows[..n], keyOf, key) + (if keyOf(rows[n]) == key then [rows[n]] else [])
  }

  /** The groups' keys are distinct. */
  ghost predicate Distinct<K, R>(gs: seq<Group<K, R>>) {
    forall i, j :: 0 <= i < j < |gs| ==> gs[i].key != gs[j].key
  }

  /** Each group is the rows with its key, in their order, and there are some. */
  ghost predicate AreFilters<K, R>(gs: seq<Group<K, R>>, rows: seq<R>, keyOf: R -> K) {
    forall i :: 0 <= i < |gs| ==> gs[i].rows == WithKey(rows, keyOf, gs[i].key) && gs[i].rows != []
  }

  /** Every row's key is the key of a group. */
  ghost predicate AllGrouped<K, R>(gs: seq<Group<K, R>>, rows: seq<R>, keyOf: R -> K) {
    forall r :: 0 <= r < |rows| ==> Find(gs, keyOf(rows[r])) < |gs|
  }

  /** The groups partition the rows. */
  lemma {:induction false} GroupsMeaning<K, R>(rows: seq<R>, keyOf: R -> K)
    ensures var gs := Groups(rows, keyOf);
            Distinct(gs) && AreFilters(gs, rows, keyOf) && AllGrouped(gs, rows, keyOf)
  {
    if rows != [] {
      var n := |rows| - 1;
      GroupsMeaning(rows[..n], keyOf);
      var gs, key := Groups(rows[..n], keyOf), keyOf(rows[n]);
      AddRowFilters(gs, rows, keyOf);
      AddRowGroups(gs, rows, keyOf);
    }
  }

  lemma AddRowFilters<K, R>(gs: seq<Group<K, R>>, rows: seq<R>, keyOf: R -> K)
    requires rows != []
    requires Distinct(gs) && AreFilters(gs, rows[..|rows| - 1], keyOf) && AllGrouped(gs, rows[..|rows| - 1], keyOf)
    ensures var after := AddRow(gs, keyOf(rows[|rows| - 1]), rows[|rows| - 1]);
            Distinct(after) && AreFilters(after, rows, keyOf)
  {
    var n := |rows| - 1;
    var key := keyOf(rows[n]);
    if Find(gs, key) == |gs| {
      NoRows(rows[..n], keyOf, key, gs);
    }
    var after := AddRow(gs, key, rows[n]);
    forall i | 0 <= i < |after|
      ensures after[i].rows == WithKey(rows, keyOf, after[i].key) && after[i].rows != []
    {
      assert i < |gs| ==> after[i].key == gs[i].key;
    }
  }

  lemma AddRowGroups<K, R>(gs: seq<Group<K, R>>, rows: seq<R>, keyOf: R -> K)
    requires rows != [] && AllGrouped(gs, rows[..|rows| - 1], keyOf)
    ensures AllGrouped(AddRow(gs, keyOf(rows[|rows| - 1]), rows[|rows| - 1]), rows, keyOf)
  {
    var n := |rows| - 1;
    var key := keyOf(rows[n]);
    var after := AddRow(gs, key, rows[n]);
    forall r | 0 <= r < |rows|
      ensures Find(after, keyOf(rows[r])) < |after|
    {
      var k := keyOf(rows[r]);
      if r < n {
        assert rows[r] == rows[..n][r];
        assert after[Find(gs, k)].key == k;
      } else {
        assert after[Find(gs, key)].key == key;
      }
    }
  }

  lemma {:induction false} NoRows<K, R>(rows: seq<R>, keyOf: R -> K, key: K, gs: seq<Group<K, R>>)
    requires Find(gs, key) == |gs| && AllGrouped(gs, rows, keyOf)
    ensures WithKey(rows, keyOf, key) == []
  {
    if rows != [] {
      var n := |rows| - 1;
      forall r | 0 <= r < n
        ensures Find(gs, keyOf(rows[..n][r])) < |gs|
      {
        assert rows[..n][r] == rows[r];
      }
      NoRows(rows[..n], keyOf, key, gs);
    }
  }

  /** Row number r is the first with its key. */
  ghost predicate IsFirst<K(!new), R>(rows: seq<R>, keyOf: R -> K, r: nat) {
    r < |rows| && forall q :: 0 <= q < r ==> keyOf(rows[q]) != keyOf(rows[r])
  }

  /** Group number i has the key of row at[i], the first with it, and these rows come in order. */
  ghost predicate AppearAt<K(!new), R>(gs: seq<Group<K, R>>, rows: seq<R>, keyOf: R -> K, at: seq<nat>) {
    && |at| == |gs|
    && (forall i :: 0 <= i < |gs| ==> IsFirst(rows, keyOf, at[i]) && gs[i].key == keyOf(rows[at[i]]))
    && forall i, j :: 0 <= i < j < |gs| ==> at[i] < at[j]
  }

  /** The groups come in the order in which their keys first appear. */
  lemma {:induction false} GroupsAppear<K(!new), R>(rows: seq<R>, keyOf: R -> K) returns (at: seq<nat>)
    ensures AppearAt(Groups(rows, keyOf), rows, keyOf, at)
  {
    if rows == [] {
      at := [];
    } else {
      var n := |rows| - 1;
      at := GroupsAppear(rows[..n], keyOf);
      GroupsMeaning(rows[..n], keyOf);
      at := AddRowAppears(Groups(rows[..n], keyOf), rows[..n], rows[n], keyOf, at);
      assert rows[..n] + [rows[n]] == rows;
    }
  }

  lemma AddRowAppears<K(!new), R>(gs: seq<Group<K, R>>, front: seq<R>, row: R, keyOf: R -> K, before: seq<nat>)
    returns (at: seq<nat>)
    requires AppearAt(gs, front, keyOf, before) && AllGrouped(gs, front, keyOf)
    ensures AppearAt(AddRow(gs, keyOf(row), row), front + [row], keyOf, at)
  {
    StillAppear(gs, front, row, keyOf, before);
    var i := Find(gs, keyOf(row));
    if i < |gs| {
      at := before;
      SameKeys(gs, gs[i := Group(keyOf(row), gs[i].rows + [row])], front + [row], keyOf, before);
    } else {
      at := before + [|front|];
      NewKeyFirst(gs, front, row, keyOf);
      OneMoreAppears(gs, Group(keyOf(row), [row]), front, row, keyOf, before);
    }
  }

  lemma StillAppear<K(!new), R>(gs: seq<Group<K, R>>, front: seq<R>, row: R, keyOf: R -> K, at: seq<nat>)
    requires AppearAt(gs, front, keyOf, at)
    ensures AppearAt(gs, front + [row], keyOf, at)
  {
    forall i | 0 <= i < |gs|
      ensures IsFirst(front + [row], keyOf, at[i]) && gs[i].key == keyOf((front + [row])[at[i]])
    {
      StillFirst(front, row, keyOf, at[i]);
    }
  }

  lemma OneMoreAppears<K(!new), R>(gs: seq<Group<K, R>>, g: Group<K, R>, front: seq<R>, row: R, keyOf: R -> K,
                                   at: seq<nat>)
    requires AppearAt(gs, front, keyOf, at) && AppearAt(gs, front + [row], keyOf, at)
    requires IsFirst(front + [row], keyOf, |front|) && g.key == keyOf(row)
    ensures AppearAt(gs + [g], front + [row], keyOf, at + [|front|])
  {
    assert forall i :: 0 <= i < |gs| ==> IsFirst(front, keyOf, at[i]) && at[i] < |front|;
    assert (front + [row])[|front|] == row;
  }

  lemma SameKeys<K(!new), R>(gs: seq<Group<K, R>>, after: seq<Group<K, R>>, rows: seq<R>, keyOf: R -> K, at: seq<nat>)
    requires |after| == |gs| && AppearAt(gs, rows, keyOf, at) && forall i :: 0 <= i < |gs| ==> after[i].key == gs[i].key
    ensures AppearAt(after, rows, keyOf, at)
  {
  }

  lemma StillFirst<K(!new), R>(front: seq<R>, row: R, keyOf: R -> K, r: nat)
    requires IsFirst(front, keyOf, r)
    ensures IsFirst(front + [row], keyOf, r) && (front + [row])[r] == front[r]
  {
  }

  lemma NewKeyFirst<K(!new), R>(gs: seq<Group<K, R>>, front: seq<R>, row: R, keyOf: R -> K)
    requires AllGrouped(gs, front, keyOf) && Find(gs, keyOf(row)) == |gs|
    ensures IsFirst(front + [row], keyOf, |front|)
  {
    forall q | 0 <= q < |front|
      ensures keyOf((front + [row])[q]) != keyOf(row)
    {
      assert Find(gs, keyOf(front[q])) < |gs|;
    }
  }

  // ----- Conservation -----

  /** The sum of a weight over rows, and over all rows of all groups. */
  function Weight<R>(rows: seq<R>, f: R -> int): int {
    if rows == [] then 0 else Weight(rows[..|rows| - 1], f) + f(rows[|rows| - 1])
  }

  function GroupWeight<K(==), R>(groups: seq<Group<K, R>>, f: R -> int): int {
    if groups == [] then 0 else GroupWeight(groups[..|groups| - 1], f) + Weight(groups[|groups| - 1].rows, f)
  }

  lemma {:induction false} AddRowWeighs<K, R>(groups: seq<Group<K, R>>, i: nat, row: R, f: R -> int)
    requires i < |groups|
    ensures GroupWeight(groups[i := Group(groups[i].key, groups[i].rows + [row])], f) == GroupWeight(groups, f) + f(row)
  {
    var n := |groups| - 1;
    var g := Group(groups[i].key, groups[i].rows + [row]);
    assert (groups[i].rows + [row])[..|groups[i].rows|] == groups[i].rows;
    if i == n {
      assert groups[i := g][..n] == groups[..n];
    } else {
      AddRowWeighs(groups[..n], i, row, f);
      assert groups[i := g][..n] == groups[..n][i := g];
    }
  }

  /** Whatever is counted or added up per row, the groups together give what the rows give. */
  lemma {:induction false} GroupsConserve<K, R>(rows: seq<R>, keyOf: R -> K, f: R -> int)
    ensures GroupWeight(Groups(rows, keyOf), f) == Weight(rows, f)
  {
    if rows != [] {
      var n := |rows| - 1;
      var gs, key := Groups(rows[..n], keyOf), keyOf(rows[n]);
      GroupsConserve(rows[..n], keyOf, f);
      var i := Find(gs, key);
      if i < |gs| {
        AddRowWeighs(gs, i, rows[n], f);
      } else {
        assert (gs + [Group(key, [rows[n]])])[..|gs|] == gs;
        assert [rows[n]][..0] == [];
        assert Weight([rows[n]], f) == f(rows[n]);
      }
    }
  }

  // ----- Aggregates over integers and NULL -----

  datatype Aggregate = Sum | Min | Max

  /** int64 addition. */
  function Wrap(n: int): int64 {
    var m := n % 0x1_0000_0000_0000_0000;
    if m < 0x8000_0000_0000_0000 then m else m - 0x1_0000_0000_0000_0000
  }

  predicate Numeric(v: Value) { v.Null? || v.Integer? }

  type NumericValue = v: Value | Numeric(v) witness Null

  /** How two partial results combine; NULL adds nothing. */
  function Plus(a: Aggregate, x: Value, y: Value): (z: Value)
    requires Numeric(x) && Numeric(y)
    ensures Numeric(z)
  {
    if x.Null? then y
    else if y.Null? then x
    else match a
      case Sum => Integer(Wrap(x.i + y.i))
      case Min => if y.i < x.i then y else x
      case Max => if y.i > x.i then y else x
  }

  predicate AllNumeric(vs: seq<Value>) { forall i :: 0 <= i < |vs| ==> Numeric(vs[i]) }

  function Fold(a: Aggregate, vs: seq<Value>): (z: Value)
    requires AllNumeric(vs)
    ensures Numeric(z)
  {
    if vs == [] then Null else Plus(a, Fold(a, vs[..|vs| - 1]), vs[|vs| - 1])
  }

  function NonNulls(vs: seq<Value>): nat {
    if vs == [] then 0 else NonNulls(vs[..|vs| - 1]) + (if vs[|vs| - 1].Null? then 0 else 1)
  }

  /** The plain sum of the integers. */
  function Integers(vs: seq<Value>): int {
    if vs == [] then 0 else Integers(vs[..|vs| - 1]) + (if vs[|vs| - 1].Integer? then vs[|vs| - 1].i else 0)
  }

  lemma WrapAdds(n: int, m: int)
    ensures Wrap(Wrap(n) + m) == Wrap(n + m)
  {
  }

  /** SUM is the sum modulo 2^64, NULL without a value; MIN and MAX are a value of the column that
      no other passes. */
  lemma {:induction false} FoldMeaning(a: Aggregate, vs: seq<Value>)
    requires AllNumeric(vs)
    ensures Fold(a, vs) == Null <==> NonNulls(vs) == 0
    ensures a == Sum && NonNulls(vs) > 0 ==> Fold(a, vs) == Integer(Wrap(Integers(vs)))
    ensures NonNulls(vs) == 0 ==> Integers(vs) == 0
    ensures a != Sum && NonNulls(vs) > 0 ==> Fold(a, vs) in vs
    ensures forall i :: 0 <= i < |vs| && vs[i].Integer? ==>
              (a == Min ==> Fold(a, vs).Integer? && Fold(a, vs).i <= vs[i].i)
              && (a == Max ==> Fold(a, vs).Integer? && Fold(a, vs).i >= vs[i].i)
  {
    if vs != [] {
      var n := |vs| - 1;
      FoldMeaning(a, vs[..n]);
      assert vs == vs[..n] + [vs[n]];
      if Fold(a, vs[..n]).Integer? && vs[n].Integer? {
        WrapAdds(Integers(vs[..n]), vs[n].i);
      }
      forall i | 0 <= i < |vs| && vs[i].Integer?
        ensures (a == Min ==> Fold(a, vs).Integer? && Fold(a, vs).i <= vs[i].i)
                && (a == Max ==> Fold(a, vs).Integer? && Fold(a, vs).i >= vs[i].i)
      {
        assert i < n ==> vs[..n][i] == vs[i];
      }
    }
  }

  lemma PlusRegroups(a: Aggregate, x: Value, y: Value, z: Value)
    requires Numeric(x) && Numeric(y) && Numeric(z)
    ensures Plus(a, Plus(a, x, y), z) == Plus(a, x, Plus(a, y, z))
    ensures Plus(a, x, y) == Plus(a, y, x)
  {
    if x.Integer? && y.Integer? && z.Integer? && a == Sum {
      WrapAdds(x.i + y.i, z.i);
      WrapAdds(y.i + z.i, x.i);
    }
  }

  /** A value added to one partial result is added to the whole. */
  lemma {:induction false} FoldUpdate(a: Aggregate, vs: seq<Value>, i: nat, v: Value)
    requires AllNumeric(vs) && i < |vs| && Numeric(v)
    ensures AllNumeric(vs[i := Plus(a, vs[i], v)])
    ensures Fold(a, vs[i := Plus(a, vs[i], v)]) == Plus(a, Fold(a, vs), v)
  {
    var n := |vs| - 1;
    var ws := vs[i := Plus(a, vs[i], v)];
    var front := Fold(a, vs[..n]);
    if i == n {
      assert ws[..n] == vs[..n];
      PlusRegroups(a, front, vs[n], v);
    } else {
      FoldUpdate(a, vs[..n], i, v);
      assert ws[..n] == vs[..n][i := Plus(a, vs[..n][i], v)];
      PlusRegroups(a, front, v, vs[n]);
      PlusRegroups(a, front, vs[n], v);
      PlusRegroups(a, v, vs[n], v);
    }
  }

  /** The argument of an aggregate on each row. */
  function ArgumentsOf<R>(rows: seq<R>, arg: R -> Value): (vs: seq<Value>)
    ensures |vs| == |rows|
  {
    seq(|rows|, i requires 0 <= i < |rows| => arg(rows[i]))
  }

  /** The same for an argument that is an integer or NULL on every row. */
  function Arguments<R>(rows: seq<R>, arg: R -> NumericValue): (vs: seq<Value>)
    ensures |vs| == |rows| && AllNumeric(vs)
  {
    seq(|rows|, i requires 0 <= i < |rows| => arg(rows[i]))
  }

  /** The aggregate of each group. */
  function PerGroup<K, R>(a: Aggregate, groups: seq<Group<K, R>>, arg: R -> NumericValue): (vs: seq<Value>)
    ensures |vs| == |groups| && AllNumeric(vs)
  {
    seq(|groups|, i requires 0 <= i < |groups| => Fold(a, Arguments(groups[i].rows, arg)))
  }

  /** Aggregating the groups' SUM, MIN or MAX again gives the aggregate of all rows, SUM modulo
      2^64. */
  lemma {:induction false} Reaggregate<K, R>(a: Aggregate, rows: seq<R>, keyOf: R -> K, arg: R -> NumericValue)
    ensures Fold(a, PerGroup(a, Groups(rows, keyOf), arg)) == Fold(a, Arguments(rows, arg))
  {
    if rows != [] {
      var n := |rows| - 1;
      var gs, key := Groups(rows[..n], keyOf), keyOf(rows[n]);
      Reaggregate(a, rows[..n], keyOf, arg);
      ReaggregateStep(a, gs, key, rows[n], arg);
      assert Arguments(rows, arg)[..n] == Arguments(rows[..n], arg);
    }
  }

  lemma ReaggregateStep<K, R>(a: Aggregate, gs: seq<Group<K, R>>, key: K, row: R, arg: R -> NumericValue)
    ensures Fold(a, PerGroup(a, AddRow(gs, key, row), arg)) == Plus(a, Fold(a, PerGroup(a, gs, arg)), arg(row))
  {
    var i := Find(gs, key);
    var before := PerGroup(a, gs, arg);
    if i < |gs| {
      var g := Group(key, gs[i].rows + [row]);
      ValuesGrow(a, gs[i].rows, row, arg);
      PerGroupAt(a, gs, i, g, arg);
      FoldUpdate(a, before, i, arg(row));
    } else {
      ValuesGrow(a, [], row, arg);
      assert [] + [row] == [row];
      PerGroupEnd(a, gs, Group(key, [row]), arg);
      FoldEnd(a, before, arg(row));
    }
  }

  lemma ValuesGrow<R>(a: Aggregate, rows: seq<R>, row: R, arg: R -> NumericValue)
    ensures Fold(a, Arguments(rows + [row], arg)) == Plus(a, Fold(a, Arguments(rows, arg)), arg(row))
  {
    var vs := Arguments(rows + [row], arg);
    assert vs[..|rows|] == Arguments(rows, arg);
    assert vs[|rows|] == arg(row);
  }

  lemma PerGroupAt<K, R>(a: Aggregate, gs: seq<Group<K, R>>, i: nat, g: Group<K, R>, arg: R -> NumericValue)
    requires i < |gs|
    ensures PerGroup(a, gs[i := g], arg) == PerGroup(a, gs, arg)[i := Fold(a, Arguments(g.rows, arg))]
  {
  }

  lemma PerGroupEnd<K, R>(a: Aggregate, gs: seq<Group<K, R>>, g: Group<K, R>, arg: R -> NumericValue)
    ensures PerGroup(a, gs + [g], arg) == PerGroup(a, gs, arg) + [Fold(a, Arguments(g.rows, arg))]
  {
  }

  lemma FoldEnd(a: Aggregate, vs: seq<Value>, v: Value)
    requires AllNumeric(vs) && Numeric(v)
    ensures Fold(a, vs + [v]) == Plus(a, Fold(a, vs), v)
  {
    assert (vs + [v])[..|vs|] == vs;
  }

  // ----- The loops -----

  ghost predicate AllEvaluate<R>(rows: seq<R>, values: R -> Result<seq<Value>>) {
    FirstEvaluate(rows, values, |rows|)
  }

  function KeyOf<R>(values: R -> Result<seq<Value>>, fl: Floats): R -> Bytes {
    (row: R) => match values(row) case Ok(vs) => GroupKey(vs, fl) case Err(_) => []
  }

  /** keyOf is the key of every row that evaluates. */
  ghost predicate KeysAre<R>(rows: seq<R>, values: R -> Result<seq<Value>>, fl: Floats, keyOf: R -> Bytes) {
    forall i :: 0 <= i < |rows| && values(rows[i]).Ok? ==> keyOf(rows[i]) == GroupKey(values(rows[i]).value, fl)
  }

  /** The grouping loop of evalGroupBy; values evaluates the GROUP BY expressions on a row. */
  method GroupBy<R>(rows: seq<R>, values: R -> Result<seq<Value>>, fl: Floats)
    returns (r: Result<seq<Group<Bytes, R>>>)
    ensures r.Ok? <==> AllEvaluate(rows, values)
    ensures r.Ok? ==> r.value == Groups(rows, KeyOf(values, fl))
  {
    r := GroupRows(rows, values, fl, KeyOf(values, fl));
  }

  method GroupRows<R>(rows: seq<R>, values: R -> Result<seq<Value>>, fl: Floats, ghost keyOf: R -> Bytes)
    returns (r: Result<seq<Group<Bytes, R>>>)
    requires KeysAre(rows, values, fl, keyOf)
    ensures r.Ok? <==> AllEvaluate(rows, values)
    ensures r.Ok? ==> r.value == Groups(rows, keyOf)
  {
    var groups, groupIdx := NoGroups(rows, keyOf);
    for n := 0 to |rows|
      invariant FirstEvaluate(rows, values, n)
      invariant groups == Groups(rows[..n], keyOf) && Indexes(groupIdx, groups)
    {
      var vs := values(rows[n]);
      if vs.Err? {
        return Err(vs.error);
      }
      groups, groupIdx := PlaceNext(rows, n, GroupKey(vs.value, fl), keyOf, groups, groupIdx);
    }
    assert rows[..|rows|] == rows;
    r := Ok(groups);
  }

  ghost predicate FirstEvaluate<R>(rows: seq<R>, values: R -> Result<seq<Value>>, n: nat)
    requires n <= |rows|
  {
    forall i :: 0 <= i < n ==> values(rows[i]).Ok?
  }

  /** Before the first row. */
  method NoGroups<R>(ghost rows: seq<R>, ghost keyOf: R -> Bytes)
    returns (groups: seq<Group<Bytes, R>>, groupIdx: map<Bytes, nat>)
    ensures groups == Groups(rows[..0], keyOf) && Indexes(groupIdx, groups)
  {
    groups, groupIdx := [], map[];
  }

  /** The row after the first n joins its group, or begins one. */
  method PlaceNext<R>(rows: seq<R>, n: nat, key: Bytes, ghost keyOf: R -> Bytes,
                      groups: seq<Group<Bytes, R>>, groupIdx: map<Bytes, nat>)
    returns (after: seq<Group<Bytes, R>>, indexes: map<Bytes, nat>)
    requires n < |rows| && key == keyOf(rows[n])
    requires groups == Groups(rows[..n], keyOf) && Indexes(groupIdx, groups)
    ensures after == Groups(rows[..n + 1], keyOf) && Indexes(indexes, after)
  {
    GroupsNext(rows, keyOf, n);
    after, indexes := PlaceRow(groups, groupIdx, key, rows[n]);
  }

  lemma GroupsNext<K, R>(rows: seq<R>, keyOf: R -> K, n: nat)
    requires n < |rows|
    ensures Groups(rows[..n + 1], keyOf) == AddRow(Groups(rows[..n], keyOf), keyOf(rows[n]), rows[n])
  {
    assert rows[..n + 1][..n] == rows[..n];
  }

  /** The body of the loop: the row joins its group, or begins one. */
  method PlaceRow<K(==,!new), R>(groups: seq<Group<K, R>>, groupIdx: map<K, nat>, key: K, row: R)
    returns (after: seq<Group<K, R>>, indexes: map<K, nat>)
    requires Indexes(groupIdx, groups)
    ensures after == AddRow(groups, key, row) && Indexes(indexes, after)
  {
    IndexesAfter(groupIdx, groups, key, row);
    if key in groupIdx {
      var i := groupIdx[key];
      after, indexes := groups[i := Group(key, groups[i].rows + [row])], groupIdx;
    } else {
      after, indexes := groups + [Group(key, [row])], groupIdx[key := |groups|];
    }
  }

  /** groupIdx says which group has which key. */
  ghost predicate Indexes<K(!new), R>(groupIdx: map<K, nat>, groups: seq<Group<K, R>>) {
    forall k :: if k in groupIdx then groupIdx[k] == Find(groups, k) < |groups| else Find(groups, k) == |groups|
  }

  lemma IndexesAfter<K(!new), R>(groupIdx: map<K, nat>, groups: seq<Group<K, R>>, key: K, row: R)
    requires Indexes(groupIdx, groups)
    ensures key in groupIdx ==>
              groupIdx[key] == Find(groups, key) < |groups| && Indexes(groupIdx, AddRow(groups, key, row))
    ensures key !in groupIdx ==>
              Find(groups, key) == |groups| && Indexes(groupIdx[key := |groups|], AddRow(groups, key, row))
  {
    if key in groupIdx {
      var i := groupIdx[key];
      RegroupFinds(groups, i, Group(key, groups[i].rows + [row]));
    } else {
      AppendFinds(groups, Group(key, [row]));
    }
  }

  lemma RegroupFinds<K(!new), R>(groups: seq<Group<K, R>>, i: nat, g: Group<K, R>)
    requires i < |groups| && g.key == groups[i].key
    ensures forall k :: Find(groups[i := g], k) == Find(groups, k)
  {
    var after := groups[i := g];
    assert forall j :: 0 <= j < |groups| ==> after[j].key == groups[j].key;
  }

  lemma AppendFinds<K(!new), R>(groups: seq<Group<K, R>>, g: Group<K, R>)
    ensures forall k :: Find(groups, k) < |groups| ==> Find(groups + [g], k) == Find(groups, k)
    ensures forall k :: Find(groups, k) == |groups| ==>
              Find(groups + [g], k) == if k == g.key then |groups| else |groups| + 1
  {
    var after := groups + [g];
    forall k
      ensures Find(groups, k) < |groups| ==> Find(after, k) == Find(groups, k)
      ensures Find(groups, k) == |groups| ==> Find(after, k) == if k == g.key then |groups| else |groups| + 1
    {
      var a, b := Find(after, k), Find(groups, k);
      assert a < |groups| ==> after[a] == groups[a];
      assert b < |groups| ==> after[b] == groups[b];
      assert after[|groups|] == g;
    }
  }

  // ----- The accumulator -----

  datatype AggregateName = COUNT | SUM | MIN | MAX

  /** Value.ToFloat and the addition of floating-point numbers, on their bits. */
  datatype FloatSum = FloatSum(toFloat: Value -> uint64, add: (uint64, uint64) -> uint64)

  function FloatTotal(vs: seq<Value>, fs: FloatSum): uint64 {
    if vs == [] then 0
    else
      var n := |vs| - 1;
      var sum := FloatTotal(vs[..n], fs);
      if vs[n].Null? then sum else fs.add(sum, fs.toFloat(vs[n]))
  }

  /** at lists, in order, the places of the values that are not NULL, and p the partial sums: each
      adds the next such value to the one before. */
  ghost predicate AddsUp(vs: seq<Value>, fs: FloatSum, at: seq<nat>, p: seq<uint64>) {
    && (forall k :: 0 <= k < |at| ==> at[k] < |vs| && !vs[at[k]].Null?)
    && (forall j, k :: 0 <= j < k < |at| ==> at[j] < at[k])
    && (forall i :: 0 <= i < |vs| && !vs[i].Null? ==> i in at)
    && |p| == |at| + 1 && p[0] == 0
    && forall k :: 0 <= k < |at| ==> p[k + 1] == fs.add(p[k], fs.toFloat(vs[at[k]]))
  }

  /** The total is the last of the partial sums. */
  lemma {:induction false} TotalAddsUp(vs: seq<Value>, fs: FloatSum) returns (at: seq<nat>, p: seq<uint64>)
    ensures AddsUp(vs, fs, at, p) && FloatTotal(vs, fs) == p[|at|] && |at| == NonNulls(vs)
  {
    if vs == [] {
      at, p := [], [0];
    } else {
      var n := |vs| - 1;
      var at0, p0 := TotalAddsUp(vs[..n], fs);
      if vs[n].Null? {
        at, p := at0, p0;
      } else {
        at, p := at0 + [n], p0 + [fs.add(p0[|at0|], fs.toFloat(vs[n]))];
        assert at[|at0|] == n;
      }
      forall i | 0 <= i < |vs| && !vs[i].Null?
        ensures i in at
      {
        assert i < n ==> vs[..n][i] == vs[i];
      }
    }
  }

  /** SUM over values of which some is not NULL and none an integer is the last of their partial
      sums, the first of which is 0. */
  lemma SumOfReals(vs: seq<Value>, fs: FloatSum)
    requires (exists i :: 0 <= i < |vs| && !vs[i].Null?) && forall i :: 0 <= i < |vs| ==> !vs[i].Integer?
    ensures exists at, p :: AddsUp(vs, fs, at, p) && Aggregated(SUM, vs, fs) == Real(p[|at|])
  {
    var at, p := TotalAddsUp(vs, fs);
    assert at != [];
    assert AddsUp(vs, fs, at, p) && Aggregated(SUM, vs, fs) == Real(p[|at|]);
  }

  /** COUNT counts the places that hold a value. */
  lemma CountIsPlaces(vs: seq<Value>, fs: FloatSum)
    ensures Aggregated(COUNT, vs, fs) == Integer(Wrap(|set i | 0 <= i < |vs| && !vs[i].Null?|))
  {
    NonNullPlaces(vs);
  }

  lemma {:induction false} NonNullPlaces(vs: seq<Value>)
    ensures NonNulls(vs) == |set i | 0 <= i < |vs| && !vs[i].Null?|
  {
    if vs != [] {
      var n := |vs| - 1;
      NonNullPlaces(vs[..n]);
      var front := set i | 0 <= i < n && !vs[..n][i].Null?;
      var all := set i | 0 <= i < |vs| && !vs[i].Null?;
      assert forall i :: 0 <= i < n ==> vs[..n][i] == vs[i];
      assert all == if vs[n].Null? then front else front + {n};
    }
  }

  predicate HasInteger(vs: seq<Value>) { exists i :: 0 <= i < |vs| && vs[i].Integer? }

  /** What an aggregate returns over the values it was given. */
  function Aggregated(name: AggregateName, vs: seq<Value>, fs: FloatSum): Value
    requires Takes(name, vs)
  {
    match name
    case COUNT => Integer(Wrap(NonNulls(vs)))
    case SUM =>
      if NonNulls(vs) == 0 then Null
      else if HasInteger(vs) then Integer(Wrap(Integers(vs)))
      else Real(FloatTotal(vs, fs))
    case MIN => Fold(Min, vs)
    case MAX => Fold(Max, vs)
  }

  /** COUNT and SUM take any values, MIN and MAX integers and NULLs. */
  predicate Takes(name: AggregateName, vs: seq<Value>) { name.COUNT? || name.SUM? || AllNumeric(vs) }

  /** Over integers and NULLs, SUM is the sum that Reaggregate speaks of. */
  lemma SumIsFold(vs: seq<Value>, fs: FloatSum)
    requires AllNumeric(vs)
    ensures Aggregated(SUM, vs, fs) == Fold(Sum, vs)
  {
    FoldMeaning(Sum, vs);
    SomeInteger(vs);
  }

  lemma {:induction false} SomeInteger(vs: seq<Value>)
    requires AllNumeric(vs)
    ensures HasInteger(vs) <==> NonNulls(vs) > 0
  {
    if vs != [] {
      var n := |vs| - 1;
      SomeInteger(vs[..n]);
      assert vs == vs[..n] + [vs[n]];
      assert HasInteger(vs[..n]) ==> HasInteger(vs);
    }
  }

  function OnlyIntegers(vs: seq<Value>): seq<Value> {
    if vs == [] then []
    else
      var n := |vs| - 1;
      OnlyIntegers(vs[..n]) + (if vs[n].Integer? then [vs[n]] else [])
  }

  /** One integer among the values makes SUM forget the real numbers and the texts: it is the SUM
      of the integers alone exactly when there is one, or nothing but NULLs. */
  lemma SumForgets(vs: seq<Value>, fs: FloatSum)
    ensures Aggregated(SUM, vs, fs) == Aggregated(SUM, OnlyIntegers(vs), fs) <==>
            HasInteger(vs) || NonNulls(vs) == 0
  {
    IntegersOnly(vs);
    SomeInteger(OnlyIntegers(vs));
  }

  lemma {:induction false} IntegersOnly(vs: seq<Value>)
    ensures AllNumeric(OnlyIntegers(vs)) && Integers(OnlyIntegers(vs)) == Integers(vs)
    ensures HasInteger(vs) <==> NonNulls(OnlyIntegers(vs)) > 0
    ensures HasInteger(vs) ==> NonNulls(vs) > 0
  {
    if vs != [] {
      var n := |vs| - 1;
      var front := OnlyIntegers(vs[..n]);
      IntegersOnly(vs[..n]);
      assert vs == vs[..n] + [vs[n]];
      assert HasInteger(vs[..n]) ==> HasInteger(vs);
      if vs[n].Integer? {
        assert (front + [vs[n]])[..|front|] == front;
      } else {
        assert front + [] == front;
      }
    }
  }

  /** simpleAgg for COUNT and SUM, and for MIN and MAX of integers and NULLs. */
  class SimpleAgg {
    const name: AggregateName
    const fs: FloatSum
    var count: int64
    var isum: int64
    var sum: uint64
    var isInt: bool
    var min: Option<int64>
    var max: Option<int64>
    /** The values accumulated so far. */
    ghost var seen: seq<Value>

    ghost predicate Valid()
      reads this
    {
      && Takes(name, seen)
      && match name
         case COUNT => count == Wrap(NonNulls(seen))
         case SUM =>
           && (isInt <==> HasInteger(seen)) && isum == Wrap(Integers(seen)) && sum == FloatTotal(seen, fs)
           && NonNulls(seen) < 0x1_0000_0000_0000_0000 && count == Wrap(NonNulls(seen))
         case MIN => Fold(Min, seen) == (if min.Some? then Integer(min.value) else Null)
         case MAX => Fold(Max, seen) == (if max.Some? then Integer(max.value) else Null)
    }

    constructor (name: AggregateName, fs: FloatSum)
      ensures Valid() && seen == [] && this.name == name && this.fs == fs
    {
      this.name, this.fs := name, fs;
      count, isum, sum, isInt, min, max, seen := 0, 0, 0, false, None, None, [];
    }

    /** accumulate: a NULL changes nothing. */
    method Accumulate(v: Value)
      requires Valid() && (name.COUNT? || name.SUM? || Numeric(v)) && |seen| + 1 < 0x1_0000_0000_0000_0000
      modifies this
      ensures Valid() && seen == old(seen) + [v]
    {
      SeenGrows(seen, v);
      IntegerGrows(seen, v);
      if name.SUM? {
        AddSum(v);
        return;
      }
      seen := seen + [v];
      if v.Null? {
        return;
      }
      WrapAdds(NonNulls(old(seen)), 1);
      match name {
        case COUNT => count := Wrap(count + 1);
        case SUM =>
        case MIN =>
          if min.None? || v.i < min.value {
            min := Some(v.i);
          }
        case MAX =>
          if max.None? || v.i > max.value {
            max := Some(v.i);
          }
      }
    }

    /** accumulate of a SUM. */
    method AddSum(v: Value)
      requires Valid() && name.SUM? && |seen| + 1 < 0x1_0000_0000_0000_0000
      modifies this
      ensures Valid() && seen == old(seen) + [v]
    {
      SeenGrows(seen, v);
      IntegerGrows(seen, v);
      seen := seen + [v];
      if v.Null? {
        return;
      }
      WrapAdds(NonNulls(old(seen)), 1);
      if v.Integer? {
        WrapAdds(Integers(old(seen)), v.i);
        isum, isInt := Wrap(isum + v.i), true;
      }
      sum := fs.add(sum, fs.toFloat(v));
      count := Wrap(count + 1);
    }

    /** result */
    method Result() returns (v: Value)
      requires Valid()
      ensures v == Aggregated(name, seen, fs)
    {
      match name
      case COUNT => v := Integer(count);
      case SUM => v := if count == 0 then Null else if isInt then Integer(isum) else Real(sum);
      case MIN => v := if min.Some? then Integer(min.value) else Null;
      case MAX => v := if max.Some? then Integer(max.value) else Null;
    }
  }

  lemma SeenGrows(vs: seq<Value>, v: Value)
    ensures (vs + [v])[..|vs|] == vs
    ensures NonNulls(vs + [v]) <= |vs| + 1
  {
    NonNullsFew(vs + [v]);
  }

  lemma IntegerGrows(vs: seq<Value>, v: Value)
    ensures HasInteger(vs + [v]) <==> HasInteger(vs) || v.Integer?
  {
    var all := vs + [v];
    assert all[|vs|] == v;
    assert forall i :: 0 <= i < |vs| ==> all[i] == vs[i];
  }

  lemma {:induction false} NonNullsFew(vs: seq<Value>)
    ensures NonNulls(vs) <= |vs|
  {
    if vs != [] {
      NonNullsFew(vs[..|vs| - 1]);
    }
  }

  /** The accumulation loop of evalAggregate over the rows of a group. */
  method AggregateRows<R>(name: AggregateName, rows: seq<R>, arg: R -> Value, fs: FloatSum) returns (v: Value)
    requires Takes(name, ArgumentsOf(rows, arg)) && |rows| < 0x1_0000_0000_0000_0000
    ensures v == Aggregated(name, ArgumentsOf(rows, arg), fs)
    ensures name.SUM? && (exists i :: 0 <= i < |rows| && !arg(rows[i]).Null?)
            && (forall i :: 0 <= i < |rows| ==> !arg(rows[i]).Integer?) ==>
              exists at, p :: AddsUp(ArgumentsOf(rows, arg), fs, at, p) && v == Real(p[|at|])
  {
    ghost var vs := ArgumentsOf(rows, arg);
    var agg := new SimpleAgg(name, fs);
    for i := 0 to |rows|
      invariant fresh(agg) && agg.name == name && agg.fs == fs && agg.Valid() && agg.seen == vs[..i]
    {
      assert vs[i] == arg(rows[i]) && vs[..i + 1] == vs[..i] + [vs[i]];
      agg.Accumulate(arg(rows[i]));
    }
    assert vs[..|rows|] == vs;
    v := agg.Result();
    if name.SUM? && (exists i :: 0 <= i < |vs| && !vs[i].Null?) && forall i :: 0 <= i < |vs| ==> !vs[i].Integer? {
      SumOfReals(vs, fs);
    }
    assert forall i :: 0 <= i < |rows| ==> vs[i] == arg(rows[i]);
  }

  // ----- COUNT over groups -----

  function Counted<R>(arg: R -> Value): R -> int { (row: R) => if arg(row).Null? then 0 else 1 }

  /** The COUNT of each group. */
  function Counts<K, R>(groups: seq<Group<K, R>>, arg: R -> Value, fs: FloatSum): (vs: seq<Value>)
    ensures |vs| == |groups| && AllNumeric(vs)
  {
    seq(|groups|, i requires 0 <= i < |groups| => Aggregated(COUNT, ArgumentsOf(groups[i].rows, arg), fs))
  }

  /** The SUM of the groups' COUNTs is the COUNT of all rows exactly when there are rows: without
      any, the SUM is NULL and the COUNT 0. With an argument never NULL this is COUNT(*). */
  lemma CountsAdd<K, R>(rows: seq<R>, keyOf: R -> K, arg: R -> Value, fs: FloatSum)
    ensures Fold(Sum, Counts(Groups(rows, keyOf), arg, fs)) == Aggregated(COUNT, ArgumentsOf(rows, arg), fs) <==>
            rows != []
  {
    var gs := Groups(rows, keyOf);
    var cs := Counts(gs, arg, fs);
    FoldMeaning(Sum, cs);
    CountsWeigh(gs, arg, fs);
    if rows != [] {
      GroupsMeaning(rows, keyOf);
      assert Find(gs, keyOf(rows[0])) < |gs|;
      GroupsConserve(rows, keyOf, Counted(arg));
      CountIsWeight(rows, arg);
    }
  }

  lemma {:induction false} CountsWeigh<K, R>(gs: seq<Group<K, R>>, arg: R -> Value, fs: FloatSum)
    ensures NonNulls(Counts(gs, arg, fs)) == |gs|
    ensures Wrap(Integers(Counts(gs, arg, fs))) == Wrap(GroupWeight(gs, Counted(arg)))
  {
    if gs != [] {
      var n := |gs| - 1;
      var cs := Counts(gs, arg, fs);
      CountsWeigh(gs[..n], arg, fs);
      CountIsWeight(gs[n].rows, arg);
      assert cs[..n] == Counts(gs[..n], arg, fs);
      var front, weight := Integers(cs[..n]), GroupWeight(gs[..n], Counted(arg));
      WrapAdds(front, cs[n].i);
      WrapAdds(weight, cs[n].i);
      WrapAdds(NonNulls(ArgumentsOf(gs[n].rows, arg)), weight);
    }
  }

  lemma {:induction false} CountIsWeight<R>(rows: seq<R>, arg: R -> Value)
    ensures Weight(rows, Counted(arg)) == NonNulls(ArgumentsOf(rows, arg))
  {
    if rows != [] {
      CountIsWeight(rows[..|rows| - 1], arg);
      assert ArgumentsOf(rows, arg)[..|rows| - 1] == ArgumentsOf(rows[..|rows| - 1], arg);
    }
  }
}
