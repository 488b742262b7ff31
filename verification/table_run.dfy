/** Whole runs of INSERT, UPDATE and DELETE on one table (table.go:43-161, 229-336). */
module TableRun {
  import opened Bytes
  import opened Wrappers
  import opened Rows
  import opened TableIndex
  import opened Values
  import opened TableRows
  import opened Tables

  datatype Statement =
    | Insert(names: seq<string>, values: seq<Value>, onConflict: Conflict)
    | Update(id: int64, updates: map<string, Value>)
    | Delete(id: int64)

  /** The executor gives column names in lower case, and values the row format can hold. */
  ghost predicate Proper(s: Statement) {
    match s
    case Insert(_, values, _) => AllBounded(values)
    case Update(_, updates) => UpdatesBounded(updates) && forall name :: name in updates ==> Lower(name) == name
    case Delete(_) => true
  }

  /** Row k has exactly this entry in index number i. */
  ghost predicate IsEntry(te: TableEngine, i: nat, e: Key, k: Key)
    requires te.Valid() && i < |te.indexes|
    reads te
  {
    k in te.table && te.Col(i) < |te.table[k]| && e == IndexKey(String(te.table[k][te.Col(i)], te.fl), k)
  }

  /** Every index is exactly the image of the table under indexKey. */
  ghost predicate Exact(te: TableEngine)
    requires te.Valid()
    reads te
  {
    forall i, e, k :: 0 <= i < |te.indexes| ==> (e in te.trees[i] && te.trees[i][e] == k <==> IsEntry(te, i, e, k))
  }

  /** The statement gives the primary key column no value of its own. */
  ghost predicate LeavesKey(te: TableEngine, s: Statement) {
    var pk := PrimaryKeyColumn(te.columns);
    s.Update? && pk >= 0 ==> Lower(te.columns[pk].name) !in s.updates
  }

  /** Any run of statements, accepted or refused, from a table whose indexes are exact: every row
      keeps its entries, and without REPLACE the indexes are still exact; and while no UPDATE names
      the primary key column, it holds the row's id. */
  method RunStatements(te: TableEngine, steps: seq<Statement>)
    requires te.Valid() && forall i :: 0 <= i < |steps| ==> Proper(steps[i])
    modifies te
    ensures te.Valid()
    ensures old(te.Clean()) && (forall i :: 0 <= i < |steps| && steps[i].Insert? ==> steps[i].onConflict != Replace) ==>
              te.Clean() && Exact(te)
    ensures old(KeysAreIds(te.columns, te.table)) && (forall i :: 0 <= i < |steps| ==> LeavesKey(te, steps[i])) ==>
              KeysAreIds(te.columns, te.table)
  {
    ghost var leaving := forall i :: 0 <= i < |steps| ==> LeavesKey(te, steps[i]);
    ghost var replacing := exists i :: 0 <= i < |steps| && steps[i].Insert? && steps[i].onConflict == Replace;
    for n := 0 to |steps|
      invariant te.Valid() && (old(te.Clean()) && !replacing ==> te.Clean())
      invariant old(KeysAreIds(te.columns, te.table)) && leaving ==> KeysAreIds(te.columns, te.table)
    {
      RunStatement(te, steps[n]);
    }
    CleanIsExact(te);
  }

  method RunStatement(te: TableEngine, s: Statement)
    requires te.Valid() && Proper(s)
    modifies te
    ensures te.Valid()
    ensures old(te.Clean()) && !(s.Insert? && s.onConflict == Replace) ==> te.Clean()
    ensures old(KeysAreIds(te.columns, te.table)) && LeavesKey(te, s) ==> KeysAreIds(te.columns, te.table)
  {
    match s
    case Insert(names, values, onConflict) =>
      var r, built := te.InsertWithConflict(names, values, onConflict);
    case Update(id, updates) =>
      var _ := te.Update(id, updates);
    case Delete(id) =>
      var _ := te.Delete(id);
  }

  /** The indexes are exact just when none has a stale entry. */
  lemma CleanIsExact(te: TableEngine)
    requires te.Valid()
    ensures Exact(te) <==> te.Clean()
  {
    te.AllShaped();
    forall i | 0 <= i < |te.indexes|
      ensures NoStale(te.trees[i], te.table, te.Col(i), te.fl) <==>
              forall e, k :: e in te.trees[i] && te.trees[i][e] == k <==> IsEntry(te, i, e, k)
    {
      if NoStale(te.trees[i], te.table, te.Col(i), te.fl) {
        ExactIndex(te.trees[i], te.table, te.Col(i), te.fl);
      }
      forall e | e in te.trees[i] && IsEntry(te, i, e, te.trees[i][e])
        ensures Current(te.trees[i], te.table, te.Col(i), te.fl, e)
      {
        KeyOfIndexKey(String(te.table[te.trees[i][e]][te.Col(i)], te.fl), te.trees[i][e]);
      }
    }
  }
}
