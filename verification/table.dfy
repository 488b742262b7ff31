/** The table engine over ordered maps in place of its trees (table.go:26-161, 211-336). */
module Tables {
  import opened Bytes
  import opened Wrappers
  import opened Rows
  import opened TableIndex
  import opened Values
  import opened TableRows

  predicate Storable(columns: seq<ColumnDef>, row: Row) { |row| == |columns| && Fits(row) }

  /** The stored bytes of a row are those of the row the table holds. */
  predicate Stored(columns: seq<ColumnDef>, rows: map<Key, Bytes>, table: map<Key, Row>, k: Key) {
    k in rows && k in table && |k| == 8 && Storable(columns, table[k]) && rows[k] == Encoded(table[k])
  }

  ghost predicate AllStored(columns: seq<ColumnDef>, rows: map<Key, Bytes>, table: map<Key, Row>) {
    rows.Keys == table.Keys
    && forall k {:trigger Stored(columns, rows, table, k)} :: k in table ==> Stored(columns, rows, table, k)
  }

  lemma PutStored(columns: seq<ColumnDef>, rows: map<Key, Bytes>, table: map<Key, Row>, key: Key, row: Row)
    requires AllStored(columns, rows, table - {key}) && |key| == 8 && Storable(columns, row)
    ensures AllStored(columns, rows[key := Encoded(row)], table[key := row])
  {
    var now, after := rows[key := Encoded(row)], table[key := row];
    forall k | k in after
      ensures Stored(columns, now, after, k)
    {
      assert k != key ==> Stored(columns, rows, table - {key}, k);
    }
  }

  lemma DropStored(columns: seq<ColumnDef>, rows: map<Key, Bytes>, table: map<Key, Row>, key: Key)
    requires AllStored(columns, rows, table)
    ensures AllStored(columns, rows - {key}, table - {key})
  {
    forall k | k in table - {key}
      ensures Stored(columns, rows - {key}, table - {key}, k)
    {
      assert Stored(columns, rows, table, k);
    }
  }

  lemma ReplaceStored(columns: seq<ColumnDef>, rows: map<Key, Bytes>, table: map<Key, Row>, key: Key, row: Row)
    requires AllStored(columns, rows, table) && |key| == 8 && Storable(columns, row)
    ensures AllStored(columns, rows[key := Encoded(row)], table[key := row])
  {
    DropStored(columns, rows, table, key);
    PutStored(columns, rows - {key}, table, key, row);
    assert (rows - {key})[key := Encoded(row)] == rows[key := Encoded(row)];
  }

  /** What strconv spells of a floating-point number is no longer than a column can hold. */
  ghost predicate FloatsSpell(fl: Floats) {
    forall bits :: |fl.format(bits)| < 0x1_0000_0000
  }

  /** The values of a statement fit the lengths of the row format. */
  ghost predicate AllBounded(values: seq<Value>) { forall i :: 0 <= i < |values| ==> Bounded(values[i]) }

  ghost predicate UpdatesBounded(updates: map<string, Value>) {
    forall name :: name in updates ==> Bounded(updates[name])
  }

  class TableEngine {
    const columns: seq<ColumnDef>
    /** The columns of the indexes. */
    const indexes: seq<string>
    /** The library's conversions of floating-point numbers. */
    const fl: Floats
    var nextAutoInc: int64
    var rows: map<Key, Bytes>
    var trees: seq<map<Key, Key>>
    var lastInsertRowID: int64
    var changes: nat
    /** The rows themselves. */
    ghost var table: map<Key, Row>

    /** The schema can be stored: few enough columns, indexes on columns that exist, defaults and
        spellings of floating-point numbers of less than 2^32 bytes. */
    ghost predicate Schema() {
      && |columns| < 0x1_0000
      && (forall i :: 0 <= i < |indexes| ==> ColumnIndex(columns, indexes[i]) >= 0)
      && (forall i :: 0 <= i < |columns| ==> |columns[i].default| < 0x1_0000_0000)
      && FloatsSpell(fl)
    }

    ghost function Col(i: nat): nat
      requires i < |indexes| && Schema()
    {
      ColumnIndex(columns, indexes[i])
    }

    /** Every index is complete, whatever conflict clauses were used. */
    ghost predicate Valid()
      reads this
    {
      Schema() && |trees| == |indexes| && AllStored(columns, rows, table) && AllComplete(trees, table)
    }

    /** No index has a stale entry. */
    ghost predicate Clean()
      requires Valid()
      reads this
    {
      AllClean(trees, table)
    }

    /** A table just created, with its indexes. */
    constructor (columns: seq<ColumnDef>, indexes: seq<string>, fl: Floats)
      requires |columns| < 0x1_0000 && forall i :: 0 <= i < |indexes| ==> ColumnIndex(columns, indexes[i]) >= 0
      requires forall i :: 0 <= i < |columns| ==> |columns[i].default| < 0x1_0000_0000
      requires FloatsSpell(fl)
      ensures this.columns == columns && this.indexes == indexes && this.fl == fl
      ensures Valid() && Clean() && IdsBelow(table, nextAutoInc) && table == map[] && nextAutoInc == 1
    {
      this.columns, this.indexes, this.fl := columns, indexes, fl;
      nextAutoInc, rows, lastInsertRowID, changes, table := 1, map[], 0, 0, map[];
      trees := seq(|indexes|, _ => map[]);
    }

    // ----- Building a row -----

    method BuildRow(names: seq<string>, values: seq<Value>) returns (r: Result<Row>)
      requires Schema() && AllBounded(values)
      ensures r == BuiltRow(columns, names, values, fl)
      ensures r.Ok? ==> Storable(columns, r.value)
    {
      var row := Defaults(columns);
      if |names| == 0 {
        if |values| != |columns| {
          return Err(CountMismatch);
        }
        for i := 0 to |values|
          invariant Storable(columns, row)
          invariant ByPosition(columns, values, i, row, fl) == BuiltRow(columns, names, values, fl)
        {
          var coerced := CoerceValue(values[i], columns[i].ctype, fl);
          CoerceBounded(values[i], columns[i].ctype, fl);
          if coerced.Err? {
            return Err(coerced.error);
          }
          row := row[i := coerced.value];
        }
      } else {
        if |names| != |values| {
          return Err(CountMismatch);
        }
        for i := 0 to |names|
          invariant Storable(columns, row)
          invariant ByName(columns, names, values, i, row, fl) == BuiltRow(columns, names, values, fl)
        {
          var c := ColumnIndex(columns, names[i]);
          if c < 0 {
            return Err(UnknownColumn);
          }
          var coerced := CoerceValue(values[i], columns[c].ctype, fl);
          CoerceBounded(values[i], columns[c].ctype, fl);
          if coerced.Err? {
            return Err(coerced.error);
          }
          row := row[c := coerced.value];
        }
      }
      r := Ok(row);
    }

    /** The NOT NULL check of an INSERT, which spares primary keys. */
    method HasMissing(row: Row) returns (missing: bool)
      requires |row| == |columns|
      ensures missing == Missing(columns, row)
    {
      for i := 0 to |columns|
        invariant forall j :: 0 <= j < i ==> !(columns[j].notNull && row[j] == Null && !columns[j].primaryKey)
      {
        if columns[i].notNull && row[i] == Null && !columns[i].primaryKey {
          return true;
        }
      }
      missing := false;
    }

    // ----- INSERT -----

    /** InsertWithConflict; built is the row before it has its id. It is refused, with nothing
        changed, when the values do not match the columns in number, when one has no column or is not
        taken by it, or when a column that must not be NULL is left so, primary keys aside. Else it
        goes under its id as the conflict clause says; the counter moves even when it is then ignored
        or refused. Every index stays complete. A replaced row leaves stale index entries exactly when
        an indexed text changed: REPLACE deletes the row but not its entries. */
    method InsertWithConflict(names: seq<string>, values: seq<Value>, onConflict: Conflict)
      returns (r: Result<()>, ghost built: Row)
      requires Valid() && AllBounded(values)
      modifies this
      ensures Valid()
      ensures if !Counted(columns, names, values) then r == Err(CountMismatch) && Untouched()
              else if exists j :: 0 <= j < |values| && !HasColumn(columns, names, values, fl, j) then
                (r == Err(UnknownColumn) || r == Err(BadConversion)) && Untouched()
              else
                && IsBuilt(columns, names, values, fl, built)
                && if exists c :: 0 <= c < |columns| && columns[c].notNull && !columns[c].primaryKey && built[c] == Null
                   then r == Err(NotNullFailed) && Untouched()
                   else
                     var p := PlaceRow(columns, built, old(nextAutoInc));
                     var k := RowKey(p.id);
                     && nextAutoInc == p.next
                     && if k in old(table) && onConflict == Ignore then r == Ok(()) && Unmoved()
                        else if k in old(table) && onConflict != Replace then r == Err(UniqueFailed) && Unmoved()
                        else
                          && r == Ok(()) && table == old(table)[k := p.row] && lastInsertRowID == p.id
                          && changes == old(changes) + 1
                          && (old(Clean()) ==> (Clean() <==> k in old(table) ==> SameTexts(old(table)[k], p.row)))
      ensures old(IdsBelow(table, nextAutoInc))
              && (|built| == |columns| ==> PlaceRow(columns, built, old(nextAutoInc)).id != MAX_ID) ==>
                IdsBelow(table, nextAutoInc)
      ensures old(KeysAreIds(columns, table)) ==> KeysAreIds(columns, table)
    {
      built := [];
      BuiltExact(columns, names, values, fl);
      var row := BuildRow(names, values);
      if row.Err? {
        return Err(row.error), [];
      }
      built := row.value;
      var missing := HasMissing(row.value);
      if missing {
        return Err(NotNullFailed), built;
      }
      r := PlaceBuilt(row.value, onConflict);
    }

    /** The end of InsertWithConflict: the row gets its id and its place. */
    method PlaceBuilt(built: Row, onConflict: Conflict) returns (r: Result<()>)
      requires Valid() && Storable(columns, built)
      modifies this
      ensures Valid()
      ensures var p := PlaceRow(columns, built, old(nextAutoInc));
              var k := RowKey(p.id);
              && nextAutoInc == p.next
              && if k in old(table) && onConflict == Ignore then r == Ok(()) && Unmoved()
                 else if k in old(table) && onConflict != Replace then r == Err(UniqueFailed) && Unmoved()
                 else
                   && r == Ok(()) && table == old(table)[k := p.row] && lastInsertRowID == p.id
                   && changes == old(changes) + 1
                   && (old(Clean()) ==> (Clean() <==> k in old(table) ==> SameTexts(old(table)[k], p.row)))
      ensures old(IdsBelow(table, nextAutoInc)) && PlaceRow(columns, built, old(nextAutoInc)).id != MAX_ID ==>
                IdsBelow(table, nextAutoInc)
      ensures old(KeysAreIds(columns, table)) ==> KeysAreIds(columns, table)
    {
      if IdsBelow(table, nextAutoInc) {
        IdsStayBelow(columns, built, table, nextAutoInc);
      }
      var id, row := AssignId(built);
      if KeysAreIds(columns, table) {
        PutKeepsKeys(columns, table, id, row);
        if PrimaryKeyColumn(columns) >= 0 {
          KeyColumnIsId(columns, built, old(nextAutoInc));
        }
      }
      r := PutRow(id, row, onConflict);
    }

    /** Nothing changed, the counter neither. */
    twostate predicate Untouched()
      reads this
    {
      Unmoved() && nextAutoInc == old(nextAutoInc)
    }

    /** Nothing but the counter changed. */
    twostate predicate Unmoved()
      reads this
    {
      table == old(table) && rows == old(rows) && trees == old(trees) && changes == old(changes)
    }

    /** The row's own integer key, or the next automatic one. */
    method AssignId(built: Row) returns (id: int64, row: Row)
      requires Storable(columns, built)
      modifies this`nextAutoInc
      ensures Storable(columns, row) && Place(id, row, nextAutoInc) == PlaceRow(columns, built, old(nextAutoInc))
    {
      row := built;
      var pk := PrimaryKeyColumn(columns);
      if pk >= 0 && row[pk] != Null && IntegerOf(row[pk]) != 0 {
        id := IntegerOf(row[pk]);
        if id >= nextAutoInc {
          nextAutoInc := NextId(id);
        }
      } else {
        id := nextAutoInc;
        nextAutoInc := NextId(nextAutoInc);
        if pk >= 0 {
          row := row[pk := Integer(id)];
        }
      }
    }

    /** The part of InsertWithConflict that looks for a row under the id. */
    method PutRow(id: int64, row: Row, onConflict: Conflict) returns (r: Result<()>)
      requires Valid() && Storable(columns, row)
      modifies this`rows, this`table, this`trees, this`lastInsertRowID, this`changes
      ensures Valid()
      ensures var k := RowKey(id);
              if k in old(table) && onConflict == Ignore then r == Ok(()) && Unmoved()
              else if k in old(table) && onConflict != Replace then r == Err(UniqueFailed) && Unmoved()
              else
                && r == Ok(()) && table == old(table)[k := row] && lastInsertRowID == id && changes == old(changes) + 1
                && (old(Clean()) ==> (Clean() <==> k in old(table) ==> SameTexts(old(table)[k], row)))
    {
      var key := RowKey(id);
      AllShaped();
      DropStored(columns, rows, table, key);
      if key in rows {
        match onConflict {
          case Ignore => return Ok(());
          case Replace => rows := rows - {key};
          case _ => return Err(UniqueFailed);
        }
      }
      assert key !in rows ==> rows - {key} == rows;
      StoreRow(id, row);
      r := Ok(());
    }

    lemma AllShaped()
      requires Valid()
      ensures Shaped(table)
    {
      forall k | k in table
        ensures |k| == 8 && |table[k]| == |columns|
      {
        assert Stored(columns, rows, table, k);
      }
    }

    /** The row goes into the table, and an entry for it into every index. */
    method StoreRow(id: int64, row: Row)
      requires Schema() && |trees| == |indexes| && Storable(columns, row) && Shaped(table)
      requires AllStored(columns, rows, table - {RowKey(id)}) && AllComplete(trees, table)
      modifies this`rows, this`table, this`trees, this`lastInsertRowID, this`changes
      ensures Valid() && table == old(table)[RowKey(id) := row] && lastInsertRowID == id && changes == old(changes) + 1
      ensures old(AllClean(trees, table)) ==>
                (Clean() <==> RowKey(id) in old(table) ==> SameTexts(old(table)[RowKey(id)], row))
    {
      var key := RowKey(id);
      var encoded := EncodeRow(row);
      PutStored(columns, rows, table, key, row);
      PutAll(trees, AddedTo(trees, key, row), table, key, row);
      rows := rows[key := encoded];
      lastInsertRowID := id;
      changes := changes + 1;
      AddEntries(key, row);
      table := table[key := row];
    }

    /** The trees with an entry for the row in each. */
    ghost function AddedTo(trees: seq<map<Key, Key>>, key: Key, row: Row): (r: seq<map<Key, Key>>)
      requires Schema() && |trees| == |indexes| && |row| == |columns|
      ensures |r| == |trees|
    {
      seq(|trees|, i requires 0 <= i < |trees| => trees[i][IndexKey(String(row[Col(i)], fl), key) := key])
    }

    method AddEntries(key: Key, row: Row)
      requires Schema() && |trees| == |indexes| && |row| == |columns|
      modifies this`trees
      ensures trees == AddedTo(old(trees), key, row)
    {
      ghost var after := AddedTo(trees, key, row);
      for i := 0 to |indexes|
        invariant |trees| == |indexes|
        invariant forall j :: 0 <= j < i ==> trees[j] == after[j]
        invariant forall j :: i <= j < |indexes| ==> trees[j] == old(trees)[j]
      {
        var c := ColumnIndex(columns, indexes[i]);
        assert after[i] == old(trees)[i][IndexKey(String(row[Col(i)], fl), key) := key];
        trees := trees[i := trees[i][IndexKey(String(row[c], fl), key) := key]];
      }
    }

    ghost predicate Shaped(t: map<Key, Row>) {
      forall k :: k in t ==> |k| == 8 && |t[k]| == |columns|
    }

    ghost predicate AllComplete(trees: seq<map<Key, Key>>, t: map<Key, Row>)
      requires Schema() && |trees| == |indexes|
    {
      forall i :: 0 <= i < |indexes| ==> Complete(trees[i], t, Col(i), fl)
    }

    ghost predicate AllClean(trees: seq<map<Key, Key>>, t: map<Key, Row>)
      requires Schema() && |trees| == |indexes|
    {
      forall i :: 0 <= i < |indexes| ==> NoStale(trees[i], t, Col(i), fl)
    }

    lemma PutAll(before: seq<map<Key, Key>>, now: seq<map<Key, Key>>, t: map<Key, Row>, key: Key, row: Row)
      requires Schema() && |before| == |indexes| && Shaped(t) && |key| == 8 && |row| == |columns|
      requires now == AddedTo(before, key, row) && AllComplete(before, t)
      ensures AllComplete(now, t[key := row])
      ensures AllClean(before, t) ==> (AllClean(now, t[key := row]) <==> key in t ==> SameTexts(t[key], row))
    {
      forall i | 0 <= i < |indexes|
        ensures Complete(now[i], t[key := row], Col(i), fl)
        ensures NoStale(before[i], t, Col(i), fl) ==>
                  (NoStale(now[i], t[key := row], Col(i), fl) <==> key in t ==>
                     String(t[key][Col(i)], fl) == String(row[Col(i)], fl))
      {
        PutIndexed(before[i], t, Col(i), fl, key, row);
      }
    }

    /** Value.Integer: 0 in a value of another type. */
    function IntegerOf(v: Value): int64 { if v.Integer? then v.i else 0 }

    ghost predicate SameTexts(a: Row, b: Row)
      requires Schema()
    {
      |a| == |b| == |columns| && forall i :: 0 <= i < |indexes| ==> String(a[Col(i)], fl) == String(b[Col(i)], fl)
    }

    // ----- Reading, DELETE and UPDATE -----

    /** GetByID */
    method GetByID(id: int64) returns (r: Result<Option<Row>>)
      requires Valid()
      ensures r == Ok(if RowKey(id) in table then Some(table[RowKey(id)]) else None)
    {
      var key := RowKey(id);
      if key !in rows {
        return Ok(None);
      }
      StoredDecodes(key);
      var row := DecodeRow(rows[key]);
      if row.Err? {
        return Err(Truncated);
      }
      r := Ok(Some(row.value));
    }

    lemma StoredDecodes(key: Key)
      requires Valid() && key in table
      ensures Storable(columns, table[key]) && Decoded(rows[key]) == Ok(table[key])
    {
      assert Stored(columns, rows, table, key);
      RowRoundTrip(table[key], []);
      assert rows[key] + [] == rows[key];
    }

    /** Delete: the row goes with its entries. */
    method Delete(id: int64) returns (r: Result<bool>)
      requires Valid()
      modifies this`rows, this`table, this`trees, this`changes
      ensures Valid() && r == Ok(RowKey(id) in old(table))
      ensures table == old(table) - {RowKey(id)}
      ensures changes == old(changes) + (if RowKey(id) in old(table) then 1 else 0)
      ensures old(Clean()) ==> Clean()
      ensures old(KeysAreIds(columns, table)) ==> KeysAreIds(columns, table)
    {
      var key := RowKey(id);
      if key !in rows {
        assert table - {key} == table;
        return Ok(false);
      }
      StoredDecodes(key);
      AllShaped();
      var row := DecodeRow(rows[key]);
      if row.Err? {
        return Err(Truncated);
      }
      RemoveAll(trees, RemovedFrom(trees, key, row.value), table, key);
      DropStored(columns, rows, table, key);
      RemoveEntries(key, row.value);
      rows := rows - {key};
      changes := changes + 1;
      table := table - {key};
      r := Ok(true);
    }

    ghost function RemovedFrom(trees: seq<map<Key, Key>>, key: Key, row: Row): (r: seq<map<Key, Key>>)
      requires Schema() && |trees| == |indexes| && |row| == |columns|
      ensures |r| == |trees|
    {
      seq(|trees|, i requires 0 <= i < |trees| => trees[i] - {IndexKey(String(row[Col(i)], fl), key)})
    }

    method RemoveEntries(key: Key, row: Row)
      requires Schema() && |trees| == |indexes| && |row| == |columns|
      modifies this`trees
      ensures trees == RemovedFrom(old(trees), key, row)
    {
      ghost var after := RemovedFrom(trees, key, row);
      for i := 0 to |indexes|
        invariant |trees| == |indexes|
        invariant forall j :: 0 <= j < i ==> trees[j] == after[j]
        invariant forall j :: i <= j < |indexes| ==> trees[j] == old(trees)[j]
      {
        var c := ColumnIndex(columns, indexes[i]);
        assert after[i] == old(trees)[i] - {IndexKey(String(row[Col(i)], fl), key)};
        trees := trees[i := trees[i] - {IndexKey(String(row[c], fl), key)}];
      }
    }

    lemma RemoveAll(before: seq<map<Key, Key>>, now: seq<map<Key, Key>>, t: map<Key, Row>, key: Key)
      requires Schema() && |before| == |indexes| && Shaped(t) && key in t && AllComplete(before, t)
      requires now == RemovedFrom(before, key, t[key])
      ensures AllComplete(now, t - {key}) && (AllClean(before, t) ==> AllClean(now, t - {key}))
    {
      forall i | 0 <= i < |indexes|
        ensures Complete(now[i], t - {key}, Col(i), fl)
        ensures NoStale(before[i], t, Col(i), fl) ==> NoStale(now[i], t - {key}, Col(i), fl)
      {
        RemoveIndexed(before[i], t, Col(i), fl, key);
      }
    }

    /** Update, for column names in lower case, as the executor gives them. It is refused, without
        effect, when the row is missing or some column does not take its value; else the named
        columns change, every index stays complete, and no stale entry is left. */
    method Update(id: int64, updates: map<string, Value>) returns (r: Result<()>)
      requires Valid() && UpdatesBounded(updates) && forall name :: name in updates ==> Lower(name) == name
      modifies this`rows, this`table, this`trees, this`changes
      ensures Valid() && (old(Clean()) ==> Clean())
      ensures r.Ok? <==> && RowKey(id) in old(table)
                         && forall name :: name in updates ==> Accepts(columns, name, updates[name], fl)
      ensures RowKey(id) !in old(table) ==> r == Err(RowNotFound)
      ensures r.Err? ==> Unmoved()
      ensures r.Ok? ==>
                && |old(table)[RowKey(id)]| == |columns| && changes == old(changes) + 1
                && table == old(table)[RowKey(id) := UpdatedRow(updates, old(table)[RowKey(id)])]
                && IsUpdated(columns, updates, fl, old(table)[RowKey(id)], table[RowKey(id)])
                && (old(KeysAreIds(columns, table)) ==>
                      var pk := PrimaryKeyColumn(columns);
                      KeysAreIds(columns, table) <==>
                      (pk >= 0 ==> UpdatedRow(updates, old(table)[RowKey(id)])[pk] == Integer(id)))
    {
      var key := RowKey(id);
      if key !in rows {
        return Err(RowNotFound);
      }
      StoredDecodes(key);
      var oldRow := DecodeRow(rows[key]);
      if oldRow.Err? {
        return Err(Truncated);
      }
      AcceptableExact(columns, updates, fl);
      var row := ApplyUpdates(updates, oldRow.value);
      if row.Err? {
        return Err(row.error);
      }
      UpdatedExact(updates, oldRow.value);
      if KeysAreIds(columns, table) {
        PutKeepsKeys(columns, table, id, row.value);
      }
      RewriteRow(key, oldRow.value, row.value, updates);
      r := Ok(());
    }

    /** The index entries move, then the row is stored. */
    method RewriteRow(key: Key, before: Row, row: Row, updates: map<string, Value>)
      requires Valid() && key in table && table[key] == before && |before| == |columns|
      requires Storable(columns, row) && row == UpdatedRow(updates, before)
      modifies this`rows, this`table, this`trees, this`changes
      ensures Valid() && (old(Clean()) ==> Clean())
      ensures table == old(table)[key := row] && changes == old(changes) + 1
    {
      AllShaped();
      MoveAll(trees, MovedIn(trees, key, before, row, updates), table, key, row, updates);
      ReplaceStored(columns, rows, table, key, row);
      MoveEntries(key, before, row, updates);
      SetRow(key, row);
    }

    /** The encoded row goes into the tree; the entries have moved. */
    method SetRow(key: Key, row: Row)
      requires Schema() && |trees| == |indexes| && Storable(columns, row)
      requires AllStored(columns, rows[key := Encoded(row)], table[key := row]) && AllComplete(trees, table[key := row])
      modifies this`rows, this`table, this`changes
      ensures Valid() && table == old(table)[key := row] && changes == old(changes) + 1
    {
      var encoded := EncodeRow(row);
      changes := changes + 1;
      rows := rows[key := encoded];
      table := table[key := row];
    }

    /** The loop over the updates, in any order. */
    method ApplyUpdates(updates: map<string, Value>, row: Row) returns (r: Result<Row>)
      requires Schema() && Storable(columns, row)
      requires UpdatesBounded(updates) && forall name :: name in updates ==> Lower(name) == name
      ensures r.Ok? <==> Acceptable(columns, updates, fl)
      ensures r.Ok? ==> r.value == UpdatedRow(updates, row) && Storable(columns, r.value)
    {
      var names := updates.Keys;
      var changed := row;
      while names != {}
        invariant OnUpdates(updates, row, changed, names)
        decreases |names|
      {
        var name :| name in names;
        var one := ApplyNamed(name, updates, changed, row, names);
        if one.Err? {
          return Err(one.error);
        }
        changed, names := one.value, names - {name};
      }
      HalfDone(updates, row, changed);
      r := Ok(changed);
    }

    /** The loop has the given names to go: the others are taken, and set. */
    ghost predicate OnUpdates(updates: map<string, Value>, row: Row, changed: Row, names: set<string>) {
      && names <= updates.Keys && Storable(columns, changed)
      && (forall name :: name in updates && name !in names ==> Takes(columns, name, updates[name], fl))
      && HalfUpdated(columns, updates, fl, row, changed, updates.Keys - names)
    }

    /** One turn of the loop. */
    method ApplyNamed(name: string, updates: map<string, Value>, changed: Row, ghost row: Row, ghost names: set<string>)
      returns (r: Result<Row>)
      requires Schema() && OnUpdates(updates, row, changed, names)
      requires UpdatesBounded(updates) && name in names && Lower(name) == name
      ensures r.Ok? <==> Takes(columns, name, updates[name], fl)
      ensures r.Ok? ==> OnUpdates(updates, row, r.value, names - {name})
    {
      r := ApplyUpdate(name, updates[name], changed);
      if r.Ok? {
        HalfStep(updates, row, changed, updates.Keys - names, name);
        assert updates.Keys - (names - {name}) == updates.Keys - names + {name};
      }
    }

    /** One column takes its value, or the update fails. */
    method ApplyUpdate(name: string, v: Value, row: Row) returns (r: Result<Row>)
      requires Schema() && Storable(columns, row) && Bounded(v)
      ensures r.Ok? <==> Takes(columns, name, v, fl)
      ensures r.Ok? ==>
                var c := ColumnIndex(columns, name);
                r.value == row[c := CoerceValue(v, columns[c].ctype, fl).value] && Storable(columns, r.value)
    {
      var c := ColumnIndex(columns, name);
      if c < 0 {
        return Err(UnknownColumn);
      }
      var coerced := CoerceValue(v, columns[c].ctype, fl);
      CoerceBounded(v, columns[c].ctype, fl);
      if coerced.Err? {
        return Err(coerced.error);
      }
      if columns[c].notNull && coerced.value == Null {
        return Err(NotNullFailed);
      }
      r := Ok(row[c := coerced.value]);
    }

    lemma UpdatedExact(updates: map<string, Value>, row: Row)
      requires |row| == |columns| && Acceptable(columns, updates, fl)
      ensures IsUpdated(columns, updates, fl, row, UpdatedRow(updates, row))
    {
      forall c | 0 <= c < |columns|
        ensures var name := Lower(columns[c].name);
                var after := UpdatedRow(updates, row)[c];
                if name in updates && IsNamed(columns, c)
                then CoerceValue(updates[name], columns[c].ctype, fl) == Ok(after)
                else after == row[c]
      {
        NamedExact(columns, c);
      }
    }

    lemma HalfDone(updates: map<string, Value>, row: Row, changed: Row)
      requires OnUpdates(updates, row, changed, {})
      ensures changed == UpdatedRow(updates, row)
    {
      assert updates.Keys - {} == updates.Keys;
    }

    lemma HalfStep(updates: map<string, Value>, row: Row, changed: Row, done: set<string>, name: string)
      requires HalfUpdated(columns, updates, fl, row, changed, done)
      requires name in updates && name !in done && Lower(name) == name && Takes(columns, name, updates[name], fl)
      ensures var c := ColumnIndex(columns, name);
              HalfUpdated(columns, updates, fl, row,
                          changed[c := CoerceValue(updates[name], columns[c].ctype, fl).value],
                          done + {name})
    {
      ColumnNamed(columns, name);
    }

    /** The trees after an UPDATE: where the indexed column is named, the old entry gives way to
        the new one. */
    ghost function MovedIn(trees: seq<map<Key, Key>>, key: Key, before: Row, after: Row,
                           updates: map<string, Value>): (r: seq<map<Key, Key>>)
      requires Schema() && |trees| == |indexes| && |before| == |after| == |columns|
      ensures |r| == |trees|
    {
      seq(|trees|, i requires 0 <= i < |trees| => MovedInOne(trees[i], i, key, before, after, updates))
    }

    ghost function MovedInOne(tree: map<Key, Key>, i: nat, key: Key, before: Row, after: Row,
                              updates: map<string, Value>): map<Key, Key>
      requires Schema() && i < |indexes| && |before| == |after| == |columns|
    {
      if Lower(indexes[i]) in updates then
        (tree - {IndexKey(String(before[Col(i)], fl), key)})[IndexKey(String(after[Col(i)], fl), key) := key]
      else tree
    }

    method MoveEntries(key: Key, before: Row, after: Row, updates: map<string, Value>)
      requires Schema() && |trees| == |indexes| && |before| == |after| == |columns|
      modifies this`trees
      ensures trees == MovedIn(old(trees), key, before, after, updates)
    {
      ghost var moved := MovedIn(trees, key, before, after, updates);
      for i := 0 to |indexes|
        invariant |trees| == |indexes|
        invariant forall j :: 0 <= j < i ==> trees[j] == moved[j]
        invariant forall j :: i <= j < |indexes| ==> trees[j] == old(trees)[j]
      {
        var c := ColumnIndex(columns, indexes[i]);
        assert moved[i] == MovedInOne(old(trees)[i], i, key, before, after, updates);
        if Lower(indexes[i]) in updates {
          var tree := trees[i] - {IndexKey(String(before[c], fl), key)};
          trees := trees[i := tree[IndexKey(String(after[c], fl), key) := key]];
        }
      }
    }

    lemma MoveAll(before: seq<map<Key, Key>>, now: seq<map<Key, Key>>, t: map<Key, Row>, key: Key, row: Row,
                  updates: map<string, Value>)
      requires Schema() && |before| == |indexes| && Shaped(t) && key in t && AllComplete(before, t)
      requires row == UpdatedRow(updates, t[key]) && now == MovedIn(before, key, t[key], row, updates)
      ensures AllComplete(now, t[key := row]) && (AllClean(before, t) ==> AllClean(now, t[key := row]))
    {
      forall i | 0 <= i < |indexes|
        ensures Complete(now[i], t[key := row], Col(i), fl)
        ensures NoStale(before[i], t, Col(i), fl) ==> NoStale(now[i], t[key := row], Col(i), fl)
      {
        assert now[i] == MovedInOne(before[i], i, key, t[key], row, updates);
        if Lower(indexes[i]) in updates {
          MoveIndexed(before[i], t, Col(i), fl, key, row);
        } else {
          assert row[Col(i)] == UpdatedValue(columns, updates, fl, t[key], Col(i));
          SameIndexed(before[i], t, Col(i), fl, key, row);
        }
      }
    }

    ghost function UpdatedRow(updates: map<string, Value>, row: Row): (r: Row)
      requires |row| == |columns|
      ensures |r| == |columns|
    {
      seq(|columns|, c requires 0 <= c < |columns| => UpdatedValue(columns, updates, fl, row, c))
    }
  }
}
