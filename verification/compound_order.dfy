/** To which SELECT of a compound an ORDER BY, LIMIT or OFFSET belongs (parser.go:317-381). */
module CompoundOrder {
  import opened Wrappers
  import opened Syntax
  import opened Printing
  import opened SelectPrinting
  import opened Parsers

  /** q without its own ORDER BY, LIMIT and OFFSET, and also without its compound. */
  function Bare(q: Select): Select { q.(orderBy := [], limit := None, offset := None) }

  function Plain(q: Select): Select { Bare(q).(compound := None) }

  function Depth(q: Select): nat { if q.compound.None? then 0 else 1 + Depth(q.compound.value.right) }

  /** r with the ORDER BY, LIMIT and OFFSET that q has. */
  function Take(r: Select, q: Select): (t: Select)
    ensures t.compound == r.compound && Depth(t) == Depth(r)
  {
    r.(orderBy := if q.orderBy != [] then q.orderBy else r.orderBy,
       limit := if q.limit.Some? then q.limit else r.limit,
       offset := if q.offset.Some? then q.offset else r.offset)
  }

  function WithRight(q: Select, right: Select): Select
    requires q.compound.Some?
  {
    q.(compound := Some(q.compound.value.(right := right)))
  }

  /** The clauses of q go to its right side as long as that has not passed the first of them. */
  function Push(q: Select): Select
    decreases Depth(q)
  {
    if InOrder(q) then q else WithRight(Bare(q), Push(Take(q.compound.value.right, q)))
  }

  /** What parsing makes of the tokens of q. */
  function Settle(q: Select): Select
    decreases Depth(q)
  {
    if q.compound.None? then q else Push(WithRight(q, Settle(q.compound.value.right)))
  }

  /** Everything in q can be printed, whatever the order of its clauses. */
  predicate Parts(q: Select, sp: Spelling)
    decreases Depth(q), sp
  {
    && PrintableSelect(q.(compound := None), sp)
    && (q.compound.Some? ==> IsCompound(q.compound.value.op) && Parts(q.compound.value.right, sp))
  }

  predicate AllInOrder(q: Select)
    decreases Depth(q)
  {
    InOrder(q) && (q.compound.Some? ==> AllInOrder(q.compound.value.right))
  }

  lemma {:induction false} PrintableExact(q: Select, sp: Spelling)
    ensures PrintableSelect(q, sp) <==> Parts(q, sp) && AllInOrder(q)
    decreases Depth(q)
  {
    if q.compound.Some? {
      PrintableExact(q.compound.value.right, sp);
      assert PrintableCompound(q.compound.value, sp) <==>
             IsCompound(q.compound.value.op) && PrintableSelect(q.compound.value.right, sp);
    }
    OneSelect(q, sp);
  }

  lemma OneSelect(q: Select, sp: Spelling)
    ensures PrintableSelect(q, sp) <==>
            && PrintableSelect(q.(compound := None), sp)
            && (q.compound.Some? ==> PrintableCompound(q.compound.value, sp)) && InOrder(q)
  {
  }

  lemma TakeParts(r: Select, q: Select, sp: Spelling)
    requires PrintableSelect(r.(compound := None), sp) && PrintableSelect(q.(compound := None), sp)
    ensures PrintableSelect(Take(r, q).(compound := None), sp)
    ensures PrintableSelect(Bare(q).(compound := None), sp)
  {
  }

  // ----- The tokens stay the same -----

  lemma {:induction false} ClausesApart(j: nat, q: Select, sp: Spelling)
    requires j <= 4
    ensures Clauses(j, q, sp) == Clauses(j, Plain(q), sp) + (Clause(4, q, sp) + Clauses(5, q, sp))
    decreases 4 - j
  {
    if j == 4 {
      NoClausesLeft(Plain(q), sp);
    } else {
      ClausesApart(j + 1, q, sp);
      EarlyClause(j, q, sp);
      Associate(Clause(j, q, sp), Clauses(j + 1, Plain(q), sp), Clause(4, q, sp) + Clauses(5, q, sp));
    }
  }

  lemma EarlyClause(j: nat, q: Select, sp: Spelling)
    requires j < 4
    ensures Clause(j, q, sp) == Clause(j, Plain(q), sp)
  {
  }

  lemma NoClausesLeft(q: Select, sp: Spelling)
    requires q == Plain(q)
    ensures Clauses(4, q, sp) == [] && Clauses(5, q, sp) == []
  {
    LastClauses(q, sp);
    assert Clause(4, q, sp) == PrintCompound(q.compound, sp) == [];
    assert Clauses(4, q, sp) == Clause(4, q, sp) + Clauses(5, q, sp);
  }

  /** A SELECT is its plain part, then its compound, then its last clauses. */
  lemma SelectApart(q: Select, sp: Spelling)
    ensures PrintSelect(q, sp) ==
            PrintSelect(Plain(q), sp) + (PrintCompound(q.compound, sp) + Clauses(5, q, sp))
  {
    var d, cs := PrintDistinct(q.distinct, q.columns, sp), PrintColumns(q.columns, sp);
    var late := PrintCompound(q.compound, sp) + Clauses(5, q, sp);
    var early := Clauses(0, Plain(q), sp);
    assert Clause(4, q, sp) == PrintCompound(q.compound, sp);
    ClausesApart(0, q, sp);
    assert PrintSelect(q, sp) == [Word(KW_SELECT)] + (d + (cs + (early + late)));
    assert PrintSelect(Plain(q), sp) == [Word(KW_SELECT)] + (d + (cs + early));
    Nested([Word(KW_SELECT)], d, cs, early, late);
  }

  lemma Nested(a: seq<Symbol>, b: seq<Symbol>, c: seq<Symbol>, d: seq<Symbol>, e: seq<Symbol>)
    ensures a + (b + (c + (d + e))) == a + (b + (c + d)) + e
  {
  }

  /** What q's clauses print goes behind r, which has not passed them. */
  lemma TakePrints(r: Select, q: Select, sp: Spelling)
    requires FirstRank(q) > LastRank(r)
    ensures PrintSelect(Take(r, q), sp) == PrintSelect(r, sp) + Clauses(5, q, sp)
  {
    SelectApart(r, sp);
    SelectApart(Take(r, q), sp);
    TakeClauses(r, q, sp);
    var front, compound := PrintSelect(Plain(r), sp), PrintCompound(r.compound, sp);
    assert Plain(Take(r, q)) == Plain(r);
    Regrouped(front, compound, Clauses(5, r, sp), Clauses(5, q, sp));
  }

  lemma Regrouped(a: seq<Symbol>, b: seq<Symbol>, c: seq<Symbol>, d: seq<Symbol>)
    ensures a + (b + (c + d)) == a + (b + c) + d
  {
  }

  lemma TakeClauses(r: Select, q: Select, sp: Spelling)
    requires FirstRank(q) > LastRank(r)
    ensures Clauses(5, Take(r, q), sp) == Clauses(5, r, sp) + Clauses(5, q, sp)
  {
    LastClauses(r, sp);
    LastClauses(q, sp);
    LastClauses(Take(r, q), sp);
    Slots(PrintOrderBy(r.orderBy, sp), PrintOpt(KW_LIMIT, r.limit, sp), PrintOpt(KW_OFFSET, r.offset, sp),
          PrintOrderBy(q.orderBy, sp), PrintOpt(KW_LIMIT, q.limit, sp), PrintOpt(KW_OFFSET, q.offset, sp));
  }

  /** Three slots each, the second row filled only behind what the first row fills. */
  lemma Slots(a: seq<Symbol>, b: seq<Symbol>, c: seq<Symbol>, d: seq<Symbol>, e: seq<Symbol>, f: seq<Symbol>)
    requires d != [] ==> a == [] && b == [] && c == []
    requires e != [] ==> b == [] && c == []
    requires f != [] ==> c == []
    ensures (if d != [] then d else a) + ((if e != [] then e else b) + (if f != [] then f else c))
            == a + (b + c) + (d + (e + f))
  {
  }

  // ----- What parsing makes of it -----

  lemma {:induction false} PushSettles(q: Select, sp: Spelling)
    requires Parts(q, sp) && (q.compound.Some? ==> AllInOrder(q.compound.value.right))
    ensures Parts(Push(q), sp) && AllInOrder(Push(q)) && PrintSelect(Push(q), sp) == PrintSelect(q, sp)
    ensures Push(q) == q <==> InOrder(q)
    decreases Depth(q)
  {
    if !InOrder(q) {
      var right := Take(q.compound.value.right, q);
      TakeParts(q.compound.value.right, q, sp);
      assert Parts(right, sp);
      PushSettles(right, sp);
      TakePrints(q.compound.value.right, q, sp);
      var now := Push(q);
      assert now.(compound := None) == Bare(q).(compound := None);
      SelectApart(q, sp);
      SelectApart(now, sp);
      NoClausesOf(now, sp);
      CompoundGrows(q.compound.value, Push(right), Clauses(5, q, sp), sp);
      assert Plain(now) == Plain(q);
    }
  }

  lemma NoClausesOf(q: Select, sp: Spelling)
    requires FirstRank(q) == 9
    ensures Clauses(5, q, sp) == []
  {
    LastClauses(q, sp);
  }

  lemma CompoundGrows(c: Compound, right: Select, more: seq<Symbol>, sp: Spelling)
    requires PrintSelect(right, sp) == PrintSelect(c.right, sp) + more
    ensures PrintCompound(Some(c.(right := right)), sp) == PrintCompound(Some(c), sp) + more
  {
  }

  /** Settling keeps the tokens, gives a printable SELECT, and changes nothing exactly when all
      clauses are in order. */
  lemma {:induction false} SettleExact(q: Select, sp: Spelling)
    requires Parts(q, sp)
    ensures PrintableSelect(Settle(q), sp) && PrintSelect(Settle(q), sp) == PrintSelect(q, sp)
    ensures Settle(q) == q <==> PrintableSelect(q, sp)
    decreases Depth(q)
  {
    PrintableExact(q, sp);
    if q.compound.None? {
    } else {
      var right := Settle(q.compound.value.right);
      SettleExact(q.compound.value.right, sp);
      PrintableExact(q.compound.value.right, sp);
      PrintableExact(right, sp);
      var p := WithRight(q, right);
      assert p.(compound := None) == q.(compound := None);
      assert Parts(p, sp);
      PushSettles(p, sp);
      PrintableExact(Push(p), sp);
      SamePrint(q, right, sp);
      PushKeepsOuter(p);
    }
  }

  lemma SamePrint(q: Select, right: Select, sp: Spelling)
    requires q.compound.Some? && PrintSelect(right, sp) == PrintSelect(q.compound.value.right, sp)
    ensures PrintSelect(WithRight(q, right), sp) == PrintSelect(q, sp)
  {
    SelectApart(q, sp);
    SelectApart(WithRight(q, right), sp);
    LastClauses(q, sp);
    LastClauses(WithRight(q, right), sp);
    CompoundGrows(q.compound.value, right, [], sp);
    assert Plain(WithRight(q, right)) == Plain(q);
  }

  /** When the clauses of p move, p has none left. */
  lemma PushKeepsOuter(p: Select)
    ensures !InOrder(p) ==> FirstRank(Push(p)) == 9 && FirstRank(p) < 9
  {
  }

  /** Exactly how the tokens of any SELECT are parsed: a clause goes to the innermost right side that
      has not passed its place, so the SELECT comes back if and only if it is printable. */
  method ParseSpelledSelect(ts: seq<Token>, ghost q: Select, sp: Spelling) returns (r: Result<Select>, stopped: nat)
    requires Parts(q, sp) && Spells(ts, 0, PrintSelect(q, sp)) && EndsSelect(KindAt(ts, |PrintSelect(q, sp)|))
    ensures r == Ok(Settle(q)) && stopped == |PrintSelect(q, sp)|
    ensures r == Ok(q) <==> PrintableSelect(q, sp)
  {
    SettleExact(q, sp);
    r, stopped := ParsePrintedSelect(ts, Settle(q), sp);
  }
}
