// How the operators of the filter compiler relate to one another, on rows: each is
// compiled on its own, and whatever the database's comparisons are.
module FilterOperators {
  import opened Prelude
  import opened FilterCompiler

  // A property with scalar operators.
  predicate Scalar(p: Property) {
    !p.list && !p.relation
  }

  ghost predicate Passed(row: string -> Cell, p: Property, operator: Operator, value: Operand, s: Setting,
                         db: Database) {
    Meets(row, Element(p, operator, value), s, db)
  }

  // A compiled field clause is met when it holds of the property's cell.
  lemma PassedIsAsked(row: string -> Cell, p: Property, operator: Operator, value: Operand, s: Setting, db: Database)
    requires !p.relation && !operator.Empty? && !operator.Nempty? && !operator.Nco?
    ensures Passed(row, p, operator, value, s, db) <==>
      Passes(Element(p, operator, value)) || Asks(Element(p, operator, value), row(p.path), s, db)
  {
    hide BuildClause, HoldsClause, HoldsCondition, Asks, Passes;
    ClauseAsks(Element(p, operator, value), row(p.path), s, db);
  }

  // `neq` is the complement of `eq` among the rows that have a value.
  lemma NeqIsNotEq(row: string -> Cell, p: Property, value: Operand, s: Setting, db: Database)
    requires Scalar(p)
    ensures Passed(row, p, Neq, value, s, db) <==> row(p.path) != NullCell && !Passed(row, p, Eq, value, s, db)
  {
    hide Passed, Same;
    PassedIsAsked(row, p, Neq, value, s, db);
    PassedIsAsked(row, p, Eq, value, s, db);
  }

  // `nco` is the complement of `co` among those.
  lemma NcoIsNotCo(row: string -> Cell, p: Property, value: Operand, s: Setting, db: Database)
    requires Scalar(p) && AcceptsSubstringOps(p)
    ensures Passed(row, p, Nco, value, s, db) <==> row(p.path) != NullCell && !Passed(row, p, Co, value, s, db)
  {
    PassedIsAsked(row, p, Co, value, s, db);
    var c := Contribute(Element(p, Nco, value), s);
    assert c.top == [NotContains(p.path, s.coerce(value, p), s.insensitive)] && c.top[0] in c.top;
  }

  // Without an operator a string is looked for inside, and anything else compared.
  lemma ImplicitIs(row: string -> Cell, p: Property, value: Value, s: Setting, db: Database)
    requires !p.relation
    ensures Passed(row, p, Implicit, One(value), s, db) <==>
      Passed(row, p, if !p.list && p.text && IsText(s.coerce(One(value), p)) then Co else Eq, One(value), s, db)
  {
    hide Passed, Same;
    PassedIsAsked(row, p, Implicit, One(value), s, db);
    PassedIsAsked(row, p, Co, One(value), s, db);
    PassedIsAsked(row, p, Eq, One(value), s, db);
  }

  // A range is both of its sides.
  lemma BetweenIsBothSides(row: string -> Cell, p: Property, from: string, to: string, s: Setting, db: Database)
    requires !p.relation
    ensures Passed(row, p, Between, Bounds(from, to), s, db) <==>
      Passed(row, p, Between, Bounds(from, ""), s, db) && Passed(row, p, Between, Bounds("", to), s, db)
  {
    hide Passed;
    PassedIsAsked(row, p, Between, Bounds(from, to), s, db);
    PassedIsAsked(row, p, Between, Bounds(from, ""), s, db);
    PassedIsAsked(row, p, Between, Bounds("", to), s, db);
  }

  // The database orders cells, and compares nothing with a null.
  ghost predicate Orders(db: Database) {
    forall o, cell :: db.atLeast(o, cell) == (cell != NullCell && !db.below(o, cell))
      && db.atMost(o, cell) == (cell != NullCell && !db.above(o, cell))
  }

  // `between` is what is neither `lt` the lower bound nor above the upper one, which
  // for a mere date is the end of that day; without that, it is not `gt` the bound.
  lemma BetweenIsNeither(row: string -> Cell, p: Property, from: string, to: string, s: Setting, db: Database)
    requires Scalar(p) && from != "" && to != "" && Orders(db)
    ensures Passed(row, p, Between, Bounds(from, to), s, db) <==>
      row(p.path) != NullCell && !Passed(row, p, Lt, One(Text(from)), s, db) && !db.above(s.upper(to, p), row(p.path))
    ensures s.upper(to, p) == s.coerce(One(Text(to)), p) ==>
      (Passed(row, p, Gt, One(Text(to)), s, db) <==> db.above(s.upper(to, p), row(p.path)))
  {
    hide Passed;
    PassedIsAsked(row, p, Between, Bounds(from, to), s, db);
    PassedIsAsked(row, p, Lt, One(Text(from)), s, db);
    PassedIsAsked(row, p, Gt, One(Text(to)), s, db);
  }

  // ---- `in` and `eq` -------------------------------------------------------

  // `eq` compares this value without regard to case, and `in` with regard to it.
  predicate CaseMatters(p: Property, value: Value, s: Setting) {
    var o := s.coerce(One(value), p);
    Scalar(p) && p.text && s.insensitive && IsText(o) && o != BLANK()
  }

  ghost predicate AnyEq(row: string -> Cell, p: Property, values: seq<Value>, s: Setting, db: Database) {
    exists i :: 0 <= i < |values| && Passed(row, p, Eq, One(values[i]), s, db)
  }

  lemma EqIsEqual(row: string -> Cell, p: Property, value: Value, s: Setting, db: Database)
    requires !p.relation && !CaseMatters(p, value, s)
    ensures Passed(row, p, Eq, One(value), s, db) <==> Equal(s.coerce(One(value), p), p, row(p.path), db)
  {
    PassedIsAsked(row, p, Eq, One(value), s, db);
  }

  lemma InIsAnyEqual(row: string -> Cell, p: Property, values: seq<Value>, s: Setting, db: Database)
    requires !p.relation && values != []
    ensures Passed(row, p, In, Many(values), s, db) <==> AnyOf(values, p, s, row(p.path), db)
  {
    hide Passed, AnyOf;
    PassedIsAsked(row, p, In, Many(values), s, db);
  }

  // A database that compares texts as they are with regard to case, and folded
  // without it; no text is equal to another kind of value.
  ghost predicate Folds(db: Database, fold: string -> string) {
    && (forall t, cell :: db.same(One(Text(t)), false, cell) <==> cell == TextCell(t))
    && (forall t, cell :: db.same(One(Text(t)), true, cell) <==> cell.TextCell? && fold(cell.text) == fold(t))
    && (forall o, t :: !IsText(o) ==> !db.same(o, false, TextCell(t)))
  }

  function TextOf(o: Operand): string {
    if IsText(o) then o.value.text else ""
  }

  // Every text that folds like a value for which case matters is a value itself.
  ghost predicate VariantsListed(p: Property, values: seq<Value>, s: Setting, fold: string -> string) {
    forall i, t | 0 <= i < |values| && CaseMatters(p, values[i], s)
      && fold(t) == fold(TextOf(s.coerce(One(values[i]), p))) ::
      Listed(p, values, s, t)
  }

  ghost predicate Listed(p: Property, values: seq<Value>, s: Setting, t: string) {
    exists j :: 0 <= j < |values| && s.coerce(One(values[j]), p) == One(Text(t))
  }

  lemma EqIsFolded(row: string -> Cell, p: Property, value: Value, s: Setting, db: Database, fold: string -> string)
    requires CaseMatters(p, value, s) && Folds(db, fold)
    ensures Passed(row, p, Eq, One(value), s, db) <==>
      row(p.path).TextCell? && fold(row(p.path).text) == fold(TextOf(s.coerce(One(value), p)))
  {
    hide Passed;
    PassedIsAsked(row, p, Eq, One(value), s, db);
  }

  // A value of `in` is equal to a text when it is that text.
  lemma InIsListed(row: string -> Cell, p: Property, values: seq<Value>, s: Setting, db: Database,
                   fold: string -> string, t: string)
    requires Scalar(p) && values != [] && Folds(db, fold) && row(p.path) == TextCell(t)
    ensures Passed(row, p, In, Many(values), s, db) <==> Listed(p, values, s, t)
  {
    hide Passed;
    InIsAnyEqual(row, p, values, s, db);
    forall i | 0 <= i < |values|
      ensures Equal(s.coerce(One(values[i]), p), p, TextCell(t), db) <==> s.coerce(One(values[i]), p) == One(Text(t))
    {
      var o := s.coerce(One(values[i]), p);
      assert IsText(o) ==> o == One(Text(o.value.text));
    }
  }

  // In every such database, `in` is `eq` of any of its values, on all rows, exactly
  // when the values include their own case variants.
  lemma InIsAnyEqExactly(p: Property, values: seq<Value>, s: Setting, db: Database, fold: string -> string)
    requires !p.relation && values != [] && Folds(db, fold)
    ensures (forall row: string -> Cell :: Passed(row, p, In, Many(values), s, db) <==> AnyEq(row, p, values, s, db))
       <==> VariantsListed(p, values, s, fold)
  {
    hide Passed, CaseMatters, Equal, Folds;
    if VariantsListed(p, values, s, fold) {
      forall row: string -> Cell
        ensures Passed(row, p, In, Many(values), s, db) <==> AnyEq(row, p, values, s, db)
      {
        SameRows(row, p, values, s, db, fold);
      }
    } else {
      var i, t :| 0 <= i < |values| && CaseMatters(p, values[i], s)
        && fold(t) == fold(TextOf(s.coerce(One(values[i]), p)))
               && !Listed(p, values, s, t);
      var row: string -> Cell := _ => TextCell(t);
      EqIsFolded(row, p, values[i], s, db, fold);
      MattersInScalars(p, values[i], s);
      InIsListed(row, p, values, s, db, fold, t);
      assert AnyEq(row, p, values, s, db);
    }
  }

  lemma MattersInScalars(p: Property, value: Value, s: Setting)
    requires CaseMatters(p, value, s)
    ensures Scalar(p) && IsText(s.coerce(One(value), p))
  {
  }

  lemma SameRows(row: string -> Cell, p: Property, values: seq<Value>, s: Setting, db: Database, fold: string -> string)
    requires !p.relation && values != [] && Folds(db, fold) && VariantsListed(p, values, s, fold)
    ensures Passed(row, p, In, Many(values), s, db) <==> AnyEq(row, p, values, s, db)
  {
    hide Passed, CaseMatters, Equal, Folds;
    var cell := row(p.path);
    InIsAnyEqual(row, p, values, s, db);
    forall i | 0 <= i < |values|
      ensures Equal(s.coerce(One(values[i]), p), p, cell, db) ==> Passed(row, p, Eq, One(values[i]), s, db)
      ensures Passed(row, p, Eq, One(values[i]), s, db) ==>
        Equal(s.coerce(One(values[i]), p), p, cell, db) || Passed(row, p, In, Many(values), s, db)
    {
      if CaseMatters(p, values[i], s) {
        EqIsFolded(row, p, values[i], s, db, fold);
        MattersInScalars(p, values[i], s);
        EqualIsText(p, values[i], s, cell, db, fold);
        if cell.TextCell? {
          InIsListed(row, p, values, s, db, fold, cell.text);
        }
      } else {
        EqIsEqual(row, p, values[i], s, db);
      }
    }
  }

  lemma EqualIsText(p: Property, value: Value, s: Setting, cell: Cell, db: Database, fold: string -> string)
    requires CaseMatters(p, value, s) && Folds(db, fold)
    ensures Equal(s.coerce(One(value), p), p, cell, db) <==> cell == TextCell(TextOf(s.coerce(One(value), p)))
  {
    var o := s.coerce(One(value), p);
    assert o == One(Text(o.value.text));
  }

  // ---- a row that `in` misses ----------------------------------------------

  function Lower(t: string): string {
    seq(|t|, i requires 0 <= i < |t| => if 'A' <= t[i] <= 'Z' then t[i] + ('a' - 'A') else t[i])
  }

  function Lowering(): Database {
    Database((o, insensitive, cell) => Reads(o, insensitive, cell),
             (_, _, _) => false, (_, _, _) => false, (_, _, _) => false,
             (_, _) => false, (_, _) => false, (_, _) => false, (_, _) => false, (_, _) => false, (_, _) => false)
  }

  predicate Reads(o: Operand, insensitive: bool, cell: Cell) {
    IsText(o) && cell.TextCell?
    && if insensitive then Lower(cell.text) == Lower(o.value.text) else cell.text == o.value.text
  }

  lemma LoweringFolds()
    ensures Folds(Lowering(), Lower)
  {
    hide Lower;
    forall t, cell
      ensures Lowering().same(One(Text(t)), false, cell) <==> cell == TextCell(t)
      ensures Lowering().same(One(Text(t)), true, cell) <==> cell.TextCell? && Lower(cell.text) == Lower(t)
    {
      var o := One(Text(t));
      assert Lowering().same(o, false, cell) == Reads(o, false, cell);
      assert Lowering().same(o, true, cell) == Reads(o, true, cell);
    }
  }

  // `eq` of `abc` finds the row with `ABC`, and `in` with `abc` alone does not.
  lemma InMissesVariant(p: Property, s: Setting)
    requires Scalar(p) && p.text && s.insensitive && s.coerce(One(Text("abc")), p) == One(Text("abc"))
    ensures var row: string -> Cell := _ => TextCell("ABC");
            && Folds(Lowering(), Lower)
            && Passed(row, p, Eq, One(Text("abc")), s, Lowering())
            && !Passed(row, p, In, Many([Text("abc")]), s, Lowering())
  {
    hide Passed, Lowering, Folds;
    LoweringFolds();
    var row: string -> Cell := _ => TextCell("ABC");
    var value := Text("abc");
    assert "abc"[0] != "ABC"[0];
    assert Lower("ABC") == Lower("abc");
    EqIsFolded(row, p, value, s, Lowering(), Lower);
    InIsListed(row, p, [value], s, Lowering(), Lower, "ABC");
  }
}
