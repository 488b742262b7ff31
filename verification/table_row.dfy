/** The row that an INSERT or an UPDATE makes (table.go:43-103, 302-336; schema.go). */
module TableRows {
  import opened Bytes
  import opened Wrappers
  import opened Rows
  import opened TableIndex
  import opened Values

  datatype ColumnDef = ColumnDef(name: string, ctype: ColumnType, notNull: bool, primaryKey: bool, default: Bytes)

  datatype Conflict = Abort | Replace | Ignore | Fail | Rollback

  function LowerChar(c: char): char { if 'A' <= c <= 'Z' then c - 'A' + 'a' else c }

  /** strings.ToLower, for ASCII letters; names compare with strings.EqualFold. */
  function Lower(s: string): string {
    if s == "" then "" else [LowerChar(s[0])] + Lower(s[1..])
  }

  /** Letters of the English alphabet that differ in case, or one and the same character. */
  predicate SameLetter(a: char, b: char) {
    a == b || ('a' <= a <= 'z' && a as int - b as int == 32) || ('a' <= b <= 'z' && b as int - a as int == 32)
  }

  /** Names are the same letter by letter, case aside. */
  lemma {:induction false} SameName(s: string, t: string)
    ensures Lower(s) == Lower(t) <==> |s| == |t| && forall i :: 0 <= i < |s| ==> SameLetter(s[i], t[i])
  {
    if s == "" || t == "" {
    } else {
      SameName(s[1..], t[1..]);
      var a, b := Lower(s[1..]), Lower(t[1..]);
      assert Lower(s)[1..] == a && Lower(t)[1..] == b;
      assert (LowerChar(s[0]) == LowerChar(t[0])) == SameLetter(s[0], t[0]);
      if |s| == |t| && forall i :: 0 <= i < |s| ==> SameLetter(s[i], t[i]) {
        assert forall i :: 0 <= i < |s| - 1 ==> s[1..][i] == s[i + 1] && t[1..][i] == t[i + 1];
      }
      if Lower(s) == Lower(t) {
        forall i | 0 <= i < |s|
          ensures |s| == |t| && SameLetter(s[i], t[i])
        {
          assert i > 0 ==> s[1..][i - 1] == s[i] && t[1..][i - 1] == t[i];
        }
      }
    }
  }

  /** The name denotes column c: the first whose name it is, letter case aside. */
  ghost predicate Denotes(columns: seq<ColumnDef>, name: string, c: nat) {
    && c < |columns| && Lower(columns[c].name) == Lower(name)
    && forall d :: 0 <= d < c ==> Lower(columns[d].name) != Lower(name)
  }

  /** TableSchema.ColumnIndex */
  function ColumnIndex(columns: seq<ColumnDef>, name: string): (i: int)
    ensures -1 <= i < |columns|
    ensures i >= 0 ==> Denotes(columns, name, i)
    ensures i < 0 ==> forall d :: 0 <= d < |columns| ==> Lower(columns[d].name) != Lower(name)
  {
    if columns == [] then -1
    else if Lower(columns[0].name) == Lower(name) then 0
    else
      var i := ColumnIndex(columns[1..], name);
      if i < 0 then -1 else i + 1
  }

  /** TableSchema.PrimaryKeyColumn */
  function PrimaryKeyColumn(columns: seq<ColumnDef>): (i: int)
    ensures -1 <= i < |columns|
    ensures i >= 0 ==> columns[i].primaryKey && forall j :: 0 <= j < i ==> !columns[j].primaryKey
    ensures i < 0 ==> forall j :: 0 <= j < |columns| ==> !columns[j].primaryKey
  {
    if columns == [] then -1
    else if columns[0].primaryKey then 0
    else
      var i := PrimaryKeyColumn(columns[1..]);
      if i < 0 then -1 else i + 1
  }

  /** The value of a column nothing was given for. */
  function DefaultValue(c: ColumnDef): Value { if c.default != [] then Text(c.default) else Null }

  function Defaults(columns: seq<ColumnDef>): (r: Row)
    ensures |r| == |columns|
  {
    seq(|columns|, i requires 0 <= i < |columns| => DefaultValue(columns[i]))
  }

  /** values[i..] coerced into a row by position. */
  function ByPosition(columns: seq<ColumnDef>, values: seq<Value>, i: nat, row: Row, fl: Floats): (r: Result<Row>)
    requires i <= |values| <= |columns| == |row|
    ensures r.Ok? ==> |r.value| == |columns|
    decreases |values| - i
  {
    if i == |values| then Ok(row)
    else match CoerceValue(values[i], columns[i].ctype, fl)
      case Err(e) => Err(e)
      case Ok(v) => ByPosition(columns, values, i + 1, row[i := v], fl)
  }

  /** values[i..] coerced into a row by column name; a later value for a column wins. */
  function ByName(columns: seq<ColumnDef>, names: seq<string>, values: seq<Value>, i: nat, row: Row,
                  fl: Floats): (r: Result<Row>)
    requires i <= |names| == |values| && |columns| == |row|
    ensures r.Ok? ==> |r.value| == |columns|
    decreases |names| - i
  {
    if i == |names| then Ok(row)
    else
      var c := ColumnIndex(columns, names[i]);
      if c < 0 then Err(UnknownColumn)
      else match CoerceValue(values[i], columns[c].ctype, fl)
        case Err(e) => Err(e)
        case Ok(v) => ByName(columns, names, values, i + 1, row[c := v], fl)
  }

  /** Value number j is what column c gets: the value at its place, or the one of the last name that
      denotes it. */
  ghost predicate Given(columns: seq<ColumnDef>, names: seq<string>, values: seq<Value>, c: nat, j: nat) {
    && j < |values|
    && if names == [] then j == c
       else j < |names| && Denotes(columns, names[j], c)
            && forall k :: j < k < |names| ==> !Denotes(columns, names[k], c)
  }

  /** No name from number i on denotes column c. */
  ghost predicate Unnamed(columns: seq<ColumnDef>, names: seq<string>, i: nat, c: nat) {
    forall k :: i <= k < |names| ==> !Denotes(columns, names[k], c)
  }

  /** There are as many values as columns, or as names. */
  ghost predicate Counted(columns: seq<ColumnDef>, names: seq<string>, values: seq<Value>) {
    if names == [] then |values| == |columns| else |names| == |values|
  }

  /** There is a column for value number j, and it takes it. */
  ghost predicate HasColumn(columns: seq<ColumnDef>, names: seq<string>, values: seq<Value>, fl: Floats, j: nat) {
    && j < |values|
    && exists c: nat ::
         && c < |columns| && CoerceValue(values[j], columns[c].ctype, fl).Ok?
         && if names == [] then c == j else j < |names| && Denotes(columns, names[j], c)
  }

  /** Every column holds the value it is given, coerced to its type, and without one its default as
      a text, or NULL. */
  ghost predicate IsBuilt(columns: seq<ColumnDef>, names: seq<string>, values: seq<Value>, fl: Floats, row: Row) {
    && |row| == |columns|
    && forall c :: 0 <= c < |columns| ==>
         && (forall j: nat :: Given(columns, names, values, c, j) ==>
               CoerceValue(values[j], columns[c].ctype, fl) == Ok(row[c]))
         && (names != [] && Unnamed(columns, names, 0, c) ==>
               row[c] == if columns[c].default == [] then Null else Text(columns[c].default))
  }

  lemma {:induction false} PositionsBuilt(columns: seq<ColumnDef>, values: seq<Value>, i: nat, row: Row, fl: Floats)
    requires i <= |values| == |columns| == |row|
    ensures var r := ByPosition(columns, values, i, row, fl);
            && (r.Ok? <==> forall j :: i <= j < |values| ==> CoerceValue(values[j], columns[j].ctype, fl).Ok?)
            && (r.Err? ==> r.error == BadConversion)
            && (r.Ok? ==> forall c :: 0 <= c < |columns| ==>
                  if c < i then r.value[c] == row[c]
                  else CoerceValue(values[c], columns[c].ctype, fl) == Ok(r.value[c]))
    decreases |values| - i
  {
    if i < |values| {
      var v := CoerceValue(values[i], columns[i].ctype, fl);
      if v.Ok? {
        PositionsBuilt(columns, values, i + 1, row[i := v.value], fl);
      }
    }
  }

  /** Of the names from number i on, the last that denotes column c is number j. */
  ghost predicate LastNamed(columns: seq<ColumnDef>, names: seq<string>, i: nat, c: nat, j: nat) {
    && i <= j < |names| && Denotes(columns, names[j], c)
    && forall k :: j < k < |names| ==> !Denotes(columns, names[k], c)
  }

  lemma {:induction false} NamesBuilt(columns: seq<ColumnDef>, names: seq<string>, values: seq<Value>, i: nat,
                                      row: Row, fl: Floats)
    requires i <= |names| == |values| && |columns| == |row| && names != []
    ensures var r := ByName(columns, names, values, i, row, fl);
            && (r.Ok? <==> forall j :: i <= j < |values| ==> HasColumn(columns, names, values, fl, j))
            && (r.Err? ==> r.error == BadConversion || r.error == UnknownColumn)
            && (r.Ok? ==> forall c: nat, j: nat :: c < |columns| && LastNamed(columns, names, i, c, j) ==>
                  CoerceValue(values[j], columns[c].ctype, fl) == Ok(r.value[c]))
            && (r.Ok? ==> forall c :: 0 <= c < |columns| && Unnamed(columns, names, i, c) ==>
                  r.value[c] == row[c])
    decreases |names| - i
  {
    if i < |names| {
      var c := ColumnIndex(columns, names[i]);
      if c < 0 {
        assert !HasColumn(columns, names, values, fl, i);
      } else {
        DenotesOne(columns, names[i], c);
        var v := CoerceValue(values[i], columns[c].ctype, fl);
        if v.Err? {
          assert !HasColumn(columns, names, values, fl, i);
        } else {
          assert HasColumn(columns, names, values, fl, i);
          NamesBuilt(columns, names, values, i + 1, row[c := v.value], fl);
          forall d: nat, j: nat | d < |columns| && LastNamed(columns, names, i, d, j)
            ensures LastNamed(columns, names, i + 1, d, j) || (j == i && d == c && Unnamed(columns, names, i + 1, c))
          {
          }
        }
      }
    }
  }

  lemma DenotesOne(columns: seq<ColumnDef>, name: string, c: nat)
    requires Denotes(columns, name, c)
    ensures forall d :: Denotes(columns, name, d) ==> d == c
  {
  }

  predicate Missing(columns: seq<ColumnDef>, row: Row)
    requires |columns| == |row|
  {
    exists i :: 0 <= i < |columns| && columns[i].notNull && row[i] == Null && !columns[i].primaryKey
  }

  /** The row an INSERT builds, before its id is known. */
  function BuiltRow(columns: seq<ColumnDef>, names: seq<string>, values: seq<Value>, fl: Floats): (r: Result<Row>)
    ensures r.Ok? ==> |r.value| == |columns|
  {
    if names == [] then
      if |values| != |columns| then Err(CountMismatch) else ByPosition(columns, values, 0, Defaults(columns), fl)
    else
      if |names| != |values| then Err(CountMismatch) else ByName(columns, names, values, 0, Defaults(columns), fl)
  }

  /** Exactly when a row can be built, and what it holds. */
  lemma BuiltExact(columns: seq<ColumnDef>, names: seq<string>, values: seq<Value>, fl: Floats)
    ensures var r := BuiltRow(columns, names, values, fl);
            && (r == Err(CountMismatch) <==> !Counted(columns, names, values))
            && (r.Ok? <==> Counted(columns, names, values)
                           && forall j :: 0 <= j < |values| ==> HasColumn(columns, names, values, fl, j))
            && (r.Err? ==> r.error == CountMismatch || r.error == UnknownColumn || r.error == BadConversion)
            && (r.Ok? ==> IsBuilt(columns, names, values, fl, r.value))
  {
    if Counted(columns, names, values) {
      if names == [] {
        PositionsBuilt(columns, values, 0, Defaults(columns), fl);
        PositionsGiven(columns, values, fl);
      } else {
        NamesBuilt(columns, names, values, 0, Defaults(columns), fl);
        forall c: nat, j: nat
          ensures Given(columns, names, values, c, j) <==> LastNamed(columns, names, 0, c, j)
        {
        }
      }
    }
  }

  lemma PositionsGiven(columns: seq<ColumnDef>, values: seq<Value>, fl: Floats)
    requires |columns| == |values|
    ensures forall c: nat, j: nat :: Given(columns, [], values, c, j) <==> c == j < |values|
    ensures forall j :: 0 <= j < |values| ==>
              (HasColumn(columns, [], values, fl, j) <==> CoerceValue(values[j], columns[j].ctype, fl).Ok?)
  {
  }

  /** ts.NextAutoInc + 1, which wraps. */
  function NextId(id: int64): int64 { if id == MAX_ID then MIN_ID else id + 1 }

  const MAX_ID: int64 := 0x7FFF_FFFF_FFFF_FFFF
  const MIN_ID: int64 := -0x8000_0000_0000_0000

  /** The id a row brings along: its primary key, when that is an integer other than 0. Values of
      other types have the integer 0. */
  function GivenId(columns: seq<ColumnDef>, row: Row): Option<int64>
    requires |columns| == |row|
  {
    var pk := PrimaryKeyColumn(columns);
    if pk >= 0 && row[pk].Integer? && row[pk].i != 0 then Some(row[pk].i) else None
  }

  /** Where an INSERT puts a row: its id, the row with that id in it, and the counter from then on. */
  datatype Plan = Place(id: int64, row: Row, next: int64)

  /** The row goes under the integer it brings as its primary key, if that is not 0, and else under
      the next automatic id, which its primary key then holds; the counter moves past the id. */
  function PlaceRow(columns: seq<ColumnDef>, row: Row, next: int64): (p: Plan)
    requires |row| == |columns|
    ensures |p.row| == |columns|
    ensures var pk := PrimaryKeyColumn(columns);
            && (pk >= 0 && row[pk].Integer? && row[pk].i != 0 ==> p.id == row[pk].i && p.row == row)
            && (pk >= 0 && !(row[pk].Integer? && row[pk].i != 0) ==> p.id == next && p.row[pk] == Integer(next))
            && (pk < 0 ==> p.id == next && p.row == row)
            && forall c :: 0 <= c < |columns| && c != pk ==> p.row[c] == row[c]
    ensures p.next as int == if p.id < next then next
                             else if p.id < 0x7FFF_FFFF_FFFF_FFFF then p.id + 1
                             else -0x8000_0000_0000_0000
  {
    match GivenId(columns, row)
    case Some(id) => Place(id, row, if id >= next then NextId(id) else next)
    case None =>
      var pk := PrimaryKeyColumn(columns);
      Place(next, if pk >= 0 then row[pk := Integer(next)] else row, NextId(next))
  }

  /** Whatever was given for the primary key, the stored column is the id of the row; what was given
      is kept exactly when it is an integer other than 0, or happens to be the next id. */
  lemma KeyColumnIsId(columns: seq<ColumnDef>, row: Row, next: int64)
    requires |row| == |columns| && PrimaryKeyColumn(columns) >= 0
    ensures var pk, p := PrimaryKeyColumn(columns), PlaceRow(columns, row, next);
            && p.row[pk] == Integer(p.id)
            && (p.row == row <==> (row[pk].Integer? && (row[pk].i != 0 || next == 0)))
  {
    var pk, p := PrimaryKeyColumn(columns), PlaceRow(columns, row, next);
    if GivenId(columns, row).None? {
      assert p.row == row ==> row[pk] == Integer(next);
      assert row[pk] == Integer(next) ==> p.row == row;
    }
  }

  /** Every id in the table is below next. */
  ghost predicate IdsBelow(table: map<Key, Row>, next: int64) {
    forall id: int64 {:trigger RowKey(id)} :: RowKey(id) in table ==> id < next
  }

  /** The next automatic id stays above every id, the largest there is aside. So an automatic id
      is never taken. */
  lemma IdsStayBelow(columns: seq<ColumnDef>, row: Row, table: map<Key, Row>, next: int64)
    requires |row| == |columns| && IdsBelow(table, next)
    ensures var p := PlaceRow(columns, row, next);
            && (GivenId(columns, row).None? ==> RowKey(p.id) !in table)
            && (p.id != MAX_ID ==> IdsBelow(table, p.next) && IdsBelow(table[RowKey(p.id) := p.row], p.next))
  {
    var p := PlaceRow(columns, row, next);
    forall id: int64 | RowKey(id) in table[RowKey(p.id) := p.row]
      ensures p.id != MAX_ID ==> id < p.next
    {
      RowKeyRoundTrip(id);
      RowKeyRoundTrip(p.id);
    }
  }

  /** Every row's primary key column holds the id it is stored under. */
  ghost predicate KeysAreIds(columns: seq<ColumnDef>, table: map<Key, Row>) {
    var pk := PrimaryKeyColumn(columns);
    pk >= 0 ==> forall id: int64 {:trigger RowKey(id)} :: RowKey(id) in table ==>
                  pk < |table[RowKey(id)]| && table[RowKey(id)][pk] == Integer(id)
  }

  /** A row stored under an id keeps this exactly when its own key column holds that id. */
  lemma PutKeepsKeys(columns: seq<ColumnDef>, table: map<Key, Row>, id: int64, row: Row)
    requires |row| == |columns| && KeysAreIds(columns, table)
    ensures var pk := PrimaryKeyColumn(columns);
            KeysAreIds(columns, table[RowKey(id) := row]) <==> (pk >= 0 ==> row[pk] == Integer(id))
  {
    var pk := PrimaryKeyColumn(columns);
    if pk >= 0 && row[pk] == Integer(id) {
      forall x: int64 | RowKey(x) in table[RowKey(id) := row]
        ensures var r := table[RowKey(id) := row][RowKey(x)]; pk < |r| && r[pk] == Integer(x)
      {
        RowKeyRoundTrip(x);
        RowKeyRoundTrip(id);
      }
    }
  }

  // ----- Updates -----

  /** Column c after an UPDATE whose column names are in lower case, as the executor gives them. */
  function UpdatedValue(columns: seq<ColumnDef>, updates: map<string, Value>, fl: Floats, row: Row, c: nat): Value
    requires c < |columns| == |row|
  {
    var name := Lower(columns[c].name);
    if name in updates && ColumnIndex(columns, name) == c && CoerceValue(updates[name], columns[c].ctype, fl).Ok?
    then CoerceValue(updates[name], columns[c].ctype, fl).value
    else row[c]
  }

  /** The named column exists, and takes the value. */
  predicate Takes(columns: seq<ColumnDef>, name: string, v: Value, fl: Floats) {
    var c := ColumnIndex(columns, name);
    c >= 0 && CoerceValue(v, columns[c].ctype, fl).Ok?
    && !(columns[c].notNull && CoerceValue(v, columns[c].ctype, fl).value == Null)
  }

  ghost predicate Acceptable(columns: seq<ColumnDef>, updates: map<string, Value>, fl: Floats) {
    forall name :: name in updates ==> Takes(columns, name, updates[name], fl)
  }

  /** The columns that the names done so far set have their new values, the others their old. */
  ghost predicate HalfUpdated(columns: seq<ColumnDef>, updates: map<string, Value>, fl: Floats, old_: Row,
                              row: Row, done: set<string>) {
    && |row| == |old_| == |columns|
    && forall c :: 0 <= c < |columns| ==>
         row[c] == if Lower(columns[c].name) in done then UpdatedValue(columns, updates, fl, old_, c) else old_[c]
  }

  /** Column c is what its name denotes. */
  ghost predicate IsNamed(columns: seq<ColumnDef>, c: nat) {
    c < |columns| && Denotes(columns, columns[c].name, c)
  }

  /** The columns named in the updates hold the values given, coerced to their types, and every other
      column what it held. */
  ghost predicate IsUpdated(columns: seq<ColumnDef>, updates: map<string, Value>, fl: Floats, before: Row, after: Row) {
    && |before| == |after| == |columns|
    && forall c :: 0 <= c < |columns| ==>
         var name := Lower(columns[c].name);
         if name in updates && IsNamed(columns, c) then CoerceValue(updates[name], columns[c].ctype, fl) == Ok(after[c])
         else after[c] == before[c]
  }

  /** The name denotes a column that takes the value: it coerces to its type, and is not NULL where
      the column must not be. */
  ghost predicate Accepts(columns: seq<ColumnDef>, name: string, v: Value, fl: Floats) {
    exists c: nat ::
      && Denotes(columns, name, c) && CoerceValue(v, columns[c].ctype, fl).Ok?
      && (columns[c].notNull ==> CoerceValue(v, columns[c].ctype, fl).value != Null)
  }

  lemma TakesExact(columns: seq<ColumnDef>, name: string, v: Value, fl: Floats)
    ensures Takes(columns, name, v, fl) <==> Accepts(columns, name, v, fl)
  {
    var c := ColumnIndex(columns, name);
    if c >= 0 {
      DenotesOne(columns, name, c);
    }
  }

  /** A column is what its name in lower case denotes exactly when it is what its name denotes. */
  lemma NamedExact(columns: seq<ColumnDef>, c: nat)
    requires c < |columns|
    ensures IsNamed(columns, c) <==> ColumnIndex(columns, Lower(columns[c].name)) == c
  {
    LowerTwice(columns[c].name);
    var i := ColumnIndex(columns, Lower(columns[c].name));
    if i >= 0 {
      DenotesOne(columns, Lower(columns[c].name), i);
    }
  }

  lemma {:induction false} LowerTwice(s: string)
    ensures Lower(Lower(s)) == Lower(s)
  {
    if s != "" {
      LowerTwice(s[1..]);
      assert Lower(s)[1..] == Lower(s[1..]);
    }
  }

  lemma AcceptableExact(columns: seq<ColumnDef>, updates: map<string, Value>, fl: Floats)
    ensures Acceptable(columns, updates, fl) <==>
            forall name :: name in updates ==> Accepts(columns, name, updates[name], fl)
  {
    forall name | name in updates
      ensures Takes(columns, name, updates[name], fl) <==> Accepts(columns, name, updates[name], fl)
    {
      TakesExact(columns, name, updates[name], fl);
    }
  }

  lemma ColumnNamed(columns: seq<ColumnDef>, name: string)
    requires Lower(name) == name && ColumnIndex(columns, name) >= 0
    ensures Lower(columns[ColumnIndex(columns, name)].name) == name
  {
  }
}
