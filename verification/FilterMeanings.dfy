// What each operator finds, on databases that read texts, lists and numbers as one
// expects: the compiled clauses, by the cells alone.
module FilterMeanings {
  import opened Prelude
  import opened FilterCompiler
  import opened FilterOperators

  // ---- texts ---------------------------------------------------------------

  predicate Infix(a: string, b: string) {
    exists i | 0 <= i <= |b| :: Lies(a, b, i)
  }

  predicate Lies(a: string, b: string, i: nat) {
    i + |a| <= |b| && b[i..i + |a|] == a
  }

  predicate Suffix(a: string, b: string) {
    |a| <= |b| && b[|b| - |a|..] == a
  }

  // As `Folds`, and substrings are looked for in the same way.
  ghost predicate ReadsTexts(db: Database, fold: string -> string) {
    && Folds(db, fold) && (forall t :: fold(t) == "" <==> t == "")
    && (forall t, ins, cell :: db.contains(One(Text(t)), ins, cell) <==>
          cell.TextCell? && Infix(if ins then fold(t) else t, if ins then fold(cell.text) else cell.text))
    && (forall t, ins, cell :: db.starts(One(Text(t)), ins, cell) <==>
          cell.TextCell? && (if ins then fold(t) else t) <= (if ins then fold(cell.text) else cell.text))
    && (forall t, ins, cell :: db.ends(One(Text(t)), ins, cell) <==>
          cell.TextCell? && Suffix(if ins then fold(t) else t, if ins then fold(cell.text) else cell.text))
  }

  // What the operator finds of the text of a cell, both folded or not.
  predicate Finds(operator: Operator, value: string, text: string) {
    match operator
    case Eq => text == value
    case Neq => text != value
    case Co => Infix(value, text)
    case Nco => !Infix(value, text)
    case Sw => value <= text
    case Ew => Suffix(value, text)
    case _ => Infix(value, text)
  }

  // On a text property the operators compare texts, without regard to case where the
  // dialect can; a null is found by none of them.
  lemma TextOperators(row: string -> Cell, p: Property, operator: Operator, v: Value, t: string, s: Setting,
                      db: Database, fold: string -> string)
    requires Scalar(p) && p.text && s.coerce(One(v), p) == One(Text(t)) && ReadsTexts(db, fold)
    requires operator in {Eq, Neq, Co, Nco, Sw, Ew, Implicit} && (row(p.path).TextCell? || row(p.path).NullCell?)
    ensures Passed(row, p, operator, One(v), s, db) <==>
      row(p.path).TextCell?
      && Finds(operator, if s.insensitive then fold(t) else t, if s.insensitive then fold(row(p.path).text) else row(p.path).text)
  {
    hide Passed, Infix, Suffix;
    if operator == Nco {
      NcoIsNotCo(row, p, One(v), s, db);
      PassedIsAsked(row, p, Co, One(v), s, db);
    } else {
      PassedIsAsked(row, p, operator, One(v), s, db);
    }
  }

  // Substring operators on a property that holds no strings find every row.
  lemma SubstringsDropped(row: string -> Cell, p: Property, operator: Operator, value: Operand, s: Setting,
                          db: Database)
    requires Scalar(p) && !p.text && !p.column && operator in {Co, Nco, Sw, Ew}
    ensures Passed(row, p, operator, value, s, db)
  {
    if operator != Nco {
      PassedIsAsked(row, p, operator, value, s, db);
    }
  }

  // On a string column of another type they look for the text all the same.
  lemma ColumnSubstrings(row: string -> Cell, p: Property, v: Value, t: string, s: Setting, db: Database,
                         fold: string -> string)
    requires Scalar(p) && p.column && s.coerce(One(v), p) == One(Text(t)) && ReadsTexts(db, fold)
    ensures Passed(row, p, Co, One(v), s, db) <==> db.contains(One(Text(t)), s.insensitive, row(p.path))
    ensures Passed(row, p, Sw, One(v), s, db) <==> db.starts(One(Text(t)), s.insensitive, row(p.path))
    ensures Passed(row, p, Ew, One(v), s, db) <==> db.ends(One(Text(t)), s.insensitive, row(p.path))
  {
    hide Passed;
    PassedIsAsked(row, p, Co, One(v), s, db);
    PassedIsAsked(row, p, Sw, One(v), s, db);
    PassedIsAsked(row, p, Ew, One(v), s, db);
  }

  // ---- empty ---------------------------------------------------------------

  // `empty` finds empty lists, blank texts and nulls, each where the property can
  // have them; and `nempty` the others.
  lemma EmptyMeans(row: string -> Cell, p: Property, value: Operand, s: Setting, db: Database)
    requires Fits(row(p.path), p)
    ensures var cell := row(p.path);
            Passed(row, p, Empty, value, s, db) <==>
              (cell.ListCell? && cell.items == [] && p.list) || (cell == TextCell("") && p.text) || cell == NullCell
    ensures Passed(row, p, Nempty, value, s, db) <==> !Passed(row, p, Empty, value, s, db)
  {
    EmptyOrNot(row, p, value, s, db);
    var empty := Contribute(Element(p, Empty, value), s);
    assert !p.list && !p.required ==> empty.top[0] in empty.top;
  }

  // ---- lists ---------------------------------------------------------------

  ghost predicate ReadsLists(db: Database) {
    forall t, cell :: db.member(One(Text(t)), cell) <==> cell.ListCell? && t in cell.items
  }

  // On a list property `eq` and `in` look for members, and the operators that a list
  // does not have find every row.
  lemma ListOperators(row: string -> Cell, p: Property, v: Value, t: string, operator: Operator, value: Operand,
                      s: Setting, db: Database)
    requires p.list && !p.relation && s.coerce(One(v), p) == One(Text(t)) && ReadsLists(db) && row(p.path).ListCell?
    ensures Passed(row, p, Eq, One(v), s, db) <==> t in row(p.path).items
    ensures Passed(row, p, Implicit, One(v), s, db) <==> t in row(p.path).items
    ensures operator in {Neq, Co, Sw, Ew, Gt, Lt, Between} ==> Passed(row, p, operator, value, s, db)
  {
    hide Passed;
    PassedIsAsked(row, p, Eq, One(v), s, db);
    PassedIsAsked(row, p, Implicit, One(v), s, db);
    if operator in {Neq, Co, Sw, Ew, Gt, Lt, Between} {
      PassedIsAsked(row, p, operator, value, s, db);
    }
  }

  lemma ListIn(row: string -> Cell, p: Property, values: seq<Value>, texts: seq<string>, s: Setting, db: Database)
    requires p.list && !p.relation && ReadsLists(db) && row(p.path).ListCell? && |texts| == |values| > 0
    requires forall i | 0 <= i < |values| :: s.coerce(One(values[i]), p) == One(Text(texts[i]))
    ensures Passed(row, p, In, Many(values), s, db) <==> exists t :: t in texts && t in row(p.path).items
  {
    hide Passed;
    PassedIsAsked(row, p, In, Many(values), s, db);
    if t :| t in texts && t in row(p.path).items {
      var i :| 0 <= i < |texts| && texts[i] == t;
      assert Equal(s.coerce(One(values[i]), p), p, row(p.path), db);
    }
  }

  // An empty selection is no filter.
  lemma NothingSelected(row: string -> Cell, p: Property, s: Setting, db: Database)
    requires !p.relation
    ensures Passed(row, p, In, Many([]), s, db)
  {
    PassedIsAsked(row, p, In, Many([]), s, db);
  }

  // ---- numbers and dates ---------------------------------------------------

  // The database compares by `value`, and nothing with a null.
  ghost predicate ReadsNumbers(db: Database, value: Cell -> Option<real>, number: Operand -> real) {
    && (forall o, c :: db.above(o, c) <==> value(c).Some? && value(c).value > number(o))
    && (forall o, c :: db.below(o, c) <==> value(c).Some? && value(c).value < number(o))
    && (forall o, c :: db.atLeast(o, c) <==> value(c).Some? && value(c).value >= number(o))
    && (forall o, c :: db.atMost(o, c) <==> value(c).Some? && value(c).value <= number(o))
  }

  lemma OrderOperators(row: string -> Cell, p: Property, operand: Operand, s: Setting, db: Database,
                       value: Cell -> Option<real>, number: Operand -> real)
    requires Scalar(p) && ReadsNumbers(db, value, number)
    ensures var cell, n := value(row(p.path)), number(s.coerce(operand, p));
            && (Passed(row, p, Gt, operand, s, db) <==> cell.Some? && cell.value > n)
            && (Passed(row, p, Lt, operand, s, db) <==> cell.Some? && cell.value < n)
  {
    hide Passed;
    PassedIsAsked(row, p, Gt, operand, s, db);
    PassedIsAsked(row, p, Lt, operand, s, db);
  }

  // A range includes its bounds, `between` up to the end of the day and without an
  // operator up to the bound itself; a missing bound is none.
  lemma RangeOperators(row: string -> Cell, p: Property, from: string, to: string, s: Setting, db: Database,
                       value: Cell -> Option<real>, number: Operand -> real)
    requires Scalar(p) && ReadsNumbers(db, value, number) && value(row(p.path)).Some?
    ensures var n, low := value(row(p.path)).value, from == ""
      || value(row(p.path)).value >= number(s.coerce(One(Text(from)), p));
            && (Passed(row, p, Between, Bounds(from, to), s, db) <==> low && (to == "" || n <= number(s.upper(to, p))))
            && (Passed(row, p, Implicit, Bounds(from, to), s, db) <==> low && (to == "" || n <= number(s.coerce(One(Text(to)), p))))
  {
    hide Passed;
    PassedIsAsked(row, p, Between, Bounds(from, to), s, db);
    PassedIsAsked(row, p, Implicit, Bounds(from, to), s, db);
  }

  // Two bounds with a comma between them are a range too.
  lemma CommaIsBetween(row: string -> Cell, p: Property, from: string, to: string, s: Setting, db: Database)
    requires !p.relation && ',' !in from
    ensures Passed(row, p, Between, One(Text(from + "," + to)), s, db) <==>
      Passed(row, p, Between, Bounds(from, to), s, db)
    ensures Passed(row, p, Between, One(Text(from)), s, db) <==> Passed(row, p, Between, Bounds(from, ""), s, db)
  {
    hide Passed, InRange;
    CommaAt(from + "," + to, |from|);
    CommaAt(from, |from|);
    assert (from + "," + to)[..|from|] == from && (from + "," + to)[|from| + 1..] == to;
    PassedIsAsked(row, p, Between, One(Text(from + "," + to)), s, db);
    PassedIsAsked(row, p, Between, Bounds(from, to), s, db);
    PassedIsAsked(row, p, Between, One(Text(from)), s, db);
    PassedIsAsked(row, p, Between, Bounds(from, ""), s, db);
  }

  lemma CommaAt(s: string, n: nat)
    requires n <= |s| && (forall i | 0 <= i < n :: s[i] != ',') && (n < |s| ==> s[n] == ',')
    ensures IndexOfComma(s) == n
  {
    CommaFrom(s, 0, n);
  }

  lemma {:induction false} CommaFrom(s: string, from: nat, n: nat)
    requires from <= n <= |s| && (forall i | from <= i < n :: s[i] != ',') && (n < |s| ==> s[n] == ',')
    ensures IndexOfComma(s, from) == n
    decreases n - from
  {
    if from < n {
      CommaFrom(s, from + 1, n);
    }
  }

  // ---- relations -----------------------------------------------------------

  // A relation is compared as a whole, and a value that is missing or blank is no
  // filter.
  lemma RelationMeans(row: string -> Cell, p: Property, operator: Operator, value: Operand, s: Setting, db: Database)
    requires p.relation && !operator.Empty? && !operator.Nempty? && !operator.Nco?
    ensures Passed(row, p, operator, value, s, db) <==>
      value == Nothing || value == One(Text("")) || value == Bounds("", "") || db.related(value, row(p.path))
  {
  }
}
