/** Row keys, index keys, and an index as the image of its table (table.go:33-37, 157-161). */
module TableIndex {
  import opened Bytes
  import opened Wrappers
  import opened Rows
  import opened Values

  type Row = seq<Value>
  type Key = Bytes

  /** rowKey: the unsigned form of the id, most significant byte first. */
  function RowKey(id: int64): (k: Key)
    ensures |k| == 8
  {
    EncodeBE(8, ToUint64(id))
  }

  /** binary.BigEndian.Uint64 of a row key, as a signed id. */
  function RowId(k: Key): int64
    requires |k| == 8
  {
    Pow256Widths();
    EncodeDecodeBE(k);
    ToInt64(DecodeBE(k))
  }

  lemma RowKeyRoundTrip(id: int64)
    ensures RowId(RowKey(id)) == id
  {
    Pow256Widths();
    DecodeEncodeBE(8, ToUint64(id));
  }

  /** Row keys compare as the unsigned forms of their ids: negative ids come last. */
  lemma RowKeyOrder(a: int64, b: int64)
    ensures Less(RowKey(a), RowKey(b)) <==> ToUint64(a) < ToUint64(b)
  {
    Pow256Widths();
    BigEndianOrder(8, ToUint64(a), ToUint64(b));
  }

  /** indexKey: the value's text, then the row key. */
  function IndexKey(text: Bytes, k: Key): Key { text + k }

  /** indexKey determines both the text and the row. */
  lemma IndexKeyInjective(t: Bytes, j: Key, u: Bytes, k: Key)
    requires |j| == 8 && |k| == 8 && IndexKey(t, j) == IndexKey(u, k)
    ensures t == u && j == k
  {
    var e := IndexKey(t, j);
    assert |t| == |u|;
    assert t == e[..|t|] && j == e[|t|..];
    assert u == e[..|u|] && k == e[|u|..];
  }

  /** The row an index entry belongs to. */
  function KeyOf(e: Key): Key { if |e| < 8 then e else e[|e| - 8..] }

  lemma KeyOfIndexKey(t: Bytes, k: Key)
    requires |k| == 8
    ensures KeyOf(IndexKey(t, k)) == k
  {
    assert IndexKey(t, k)[|t|..] == k;
  }

  // ----- An index against its table -----

  /** The row has its entry in the index on column col. */
  predicate Indexed(tree: map<Key, Key>, table: map<Key, Row>, col: nat, fl: Floats, k: Key) {
    k in table && col < |table[k]|
    && var e := IndexKey(String(table[k][col], fl), k); e in tree && tree[e] == k
  }

  /** Every row has its entry. */
  ghost predicate Complete(tree: map<Key, Key>, table: map<Key, Row>, col: nat, fl: Floats) {
    forall k {:trigger Indexed(tree, table, col, fl, k)} :: k in table ==> Indexed(tree, table, col, fl, k)
  }

  /** The entry is that of a row. */
  predicate Current(tree: map<Key, Key>, table: map<Key, Row>, col: nat, fl: Floats, e: Key) {
    var k := KeyOf(e);
    k in table && col < |table[k]| && e == IndexKey(String(table[k][col], fl), k)
  }

  /** No entry is left over from a row that is gone or has changed. */
  ghost predicate NoStale(tree: map<Key, Key>, table: map<Key, Row>, col: nat, fl: Floats) {
    forall e {:trigger Current(tree, table, col, fl, e)} :: e in tree ==> Current(tree, table, col, fl, e)
  }

  /** Keys have eight bytes, and every row has the column. */
  ghost predicate Keyed(table: map<Key, Row>, col: nat) {
    forall k :: k in table ==> |k| == 8 && col < |table[k]|
  }

  /** A complete index without stale entries is exactly the image of the table. */
  lemma ExactIndex(tree: map<Key, Key>, table: map<Key, Row>, col: nat, fl: Floats)
    requires Keyed(table, col) && Complete(tree, table, col, fl) && NoStale(tree, table, col, fl)
    ensures forall e, k :: e in tree && tree[e] == k <==> k in table && e == IndexKey(String(table[k][col], fl), k)
  {
    forall e, k
      ensures e in tree && tree[e] == k <==> k in table && e == IndexKey(String(table[k][col], fl), k)
    {
      if e in tree && tree[e] == k {
        assert Current(tree, table, col, fl, e);
        assert Indexed(tree, table, col, fl, KeyOf(e));
      }
      if k in table && e == IndexKey(String(table[k][col], fl), k) {
        assert Indexed(tree, table, col, fl, k);
      }
    }
  }

  /** A new row, or a row put in place of another, with its entry added. The index stays complete;
      it gains a stale entry exactly when a replaced row had another text. */
  lemma PutIndexed(tree: map<Key, Key>, table: map<Key, Row>, col: nat, fl: Floats, k: Key, row: Row)
    requires Keyed(table, col) && |k| == 8 && col < |row|
    requires Complete(tree, table, col, fl)
    ensures var t := tree[IndexKey(String(row[col], fl), k) := k];
            Complete(t, table[k := row], col, fl)
    ensures NoStale(tree, table, col, fl) ==>
              (NoStale(tree[IndexKey(String(row[col], fl), k) := k], table[k := row], col, fl)
               <==> (k in table ==> String(table[k][col], fl) == String(row[col], fl)))
  {
    var e0 := IndexKey(String(row[col], fl), k);
    var t, now := tree[e0 := k], table[k := row];
    KeyOfIndexKey(String(row[col], fl), k);
    forall j | j in now
      ensures Indexed(t, now, col, fl, j)
    {
      if j != k {
        assert Indexed(tree, table, col, fl, j);
        KeyOfIndexKey(String(table[j][col], fl), j);
      }
    }
    if NoStale(tree, table, col, fl) {
      if k in table && String(table[k][col], fl) != String(row[col], fl) {
        var e1 := IndexKey(String(table[k][col], fl), k);
        assert Indexed(tree, table, col, fl, k);
        KeyOfIndexKey(String(table[k][col], fl), k);
        if e1 == e0 {
          IndexKeyInjective(String(table[k][col], fl), k, String(row[col], fl), k);
        }
        assert !Current(t, now, col, fl, e1);
      } else {
        forall e | e in t
          ensures Current(t, now, col, fl, e)
        {
          if e != e0 {
            assert Current(tree, table, col, fl, e);
          }
        }
      }
    }
  }

  /** A row removed with its entry leaves the index complete, and without stale entries. */
  lemma RemoveIndexed(tree: map<Key, Key>, table: map<Key, Row>, col: nat, fl: Floats, k: Key)
    requires Keyed(table, col) && k in table && Complete(tree, table, col, fl)
    ensures var t := tree - {IndexKey(String(table[k][col], fl), k)};
            && Complete(t, table - {k}, col, fl)
            && (NoStale(tree, table, col, fl) ==> NoStale(t, table - {k}, col, fl))
  {
    var e0 := IndexKey(String(table[k][col], fl), k);
    var t, now := tree - {e0}, table - {k};
    KeyOfIndexKey(String(table[k][col], fl), k);
    forall j | j in now
      ensures Indexed(t, now, col, fl, j)
    {
      assert Indexed(tree, table, col, fl, j);
      KeyOfIndexKey(String(table[j][col], fl), j);
    }
    if NoStale(tree, table, col, fl) {
      forall e | e in t
        ensures Current(t, now, col, fl, e)
      {
        assert Current(tree, table, col, fl, e);
      }
    }
  }

  /** A row changed, its old entry dropped and the new one added. */
  lemma MoveIndexed(tree: map<Key, Key>, table: map<Key, Row>, col: nat, fl: Floats, k: Key, row: Row)
    requires Keyed(table, col) && k in table && col < |row| && Complete(tree, table, col, fl)
    ensures var t := (tree - {IndexKey(String(table[k][col], fl), k)})[IndexKey(String(row[col], fl), k) := k];
            && Complete(t, table[k := row], col, fl)
            && (NoStale(tree, table, col, fl) ==> NoStale(t, table[k := row], col, fl))
  {
    RemoveIndexed(tree, table, col, fl, k);
    PutIndexed(tree - {IndexKey(String(table[k][col], fl), k)}, table - {k}, col, fl, k, row);
    assert (table - {k})[k := row] == table[k := row];
  }

  /** A row changed, but not the text that is indexed: the index may stay as it is. */
  lemma SameIndexed(tree: map<Key, Key>, table: map<Key, Row>, col: nat, fl: Floats, k: Key, row: Row)
    requires Keyed(table, col) && k in table && col < |row| && Complete(tree, table, col, fl)
    requires String(table[k][col], fl) == String(row[col], fl)
    ensures Complete(tree, table[k := row], col, fl)
    ensures NoStale(tree, table, col, fl) ==> NoStale(tree, table[k := row], col, fl)
  {
    var now := table[k := row];
    forall j | j in now
      ensures Indexed(tree, now, col, fl, j)
    {
      assert Indexed(tree, table, col, fl, j);
    }
    if NoStale(tree, table, col, fl) {
      forall e | e in tree
        ensures Current(tree, now, col, fl, e)
      {
        assert Current(tree, table, col, fl, e);
      }
    }
  }

  /** A row changed, the index left alone: right exactly when the indexed text is the same. */
  lemma LeftIndexed(tree: map<Key, Key>, table: map<Key, Row>, col: nat, fl: Floats, k: Key, row: Row)
    requires Keyed(table, col) && k in table && col < |row| && Complete(tree, table, col, fl)
    requires NoStale(tree, table, col, fl)
    ensures Complete(tree, table[k := row], col, fl) <==> String(table[k][col], fl) == String(row[col], fl)
    ensures NoStale(tree, table[k := row], col, fl) <==> String(table[k][col], fl) == String(row[col], fl)
  {
    var now := table[k := row];
    var e0, e1 := IndexKey(String(table[k][col], fl), k), IndexKey(String(row[col], fl), k);
    KeyOfIndexKey(String(table[k][col], fl), k);
    KeyOfIndexKey(String(row[col], fl), k);
    assert Indexed(tree, table, col, fl, k);
    if String(table[k][col], fl) != String(row[col], fl) {
      if e0 == e1 {
        IndexKeyInjective(String(table[k][col], fl), k, String(row[col], fl), k);
      }
      assert !Current(tree, table, col, fl, e1);
      assert !Indexed(tree, now, col, fl, k);
      assert !Current(tree, now, col, fl, e0);
    } else {
      SameIndexed(tree, table, col, fl, k, row);
    }
  }
}
