// `filterToWhere`: filter elements compiled to a `where` object, through a map of
// clauses by field and a list of conditions that need the top level.
module FilterCompiler {
  import opened Prelude

  datatype Value = Text(text: string) | Other(text: string)

  // The value of a filter element. A missing bound is the empty string.
  datatype Operand = One(value: Value) | Many(values: seq<Value>) | Bounds(from: string, to: string) | Nothing

  datatype Operator = Implicit | Eq | Neq | Co | Nco | Sw | Ew | Empty | Nempty | In | Gt | Lt | Between

  // `text`: of the core type `string`. `column`: a scalar column of type String
  // underneath. `relation`: a field of kind `object`.
  datatype Property = Property(path: string, text: bool, column: bool, list: bool, required: bool, relation: bool)

  datatype Element = Element(property: Property, operator: Operator, value: Operand)

  datatype Clause =
    | Equals(operand: Operand, insensitive: bool)
    | Not(operand: Operand)
    | NotIn(operand: Operand, insensitive: bool)
    | Contains(operand: Operand, insensitive: bool)
    | StartsWith(operand: Operand, insensitive: bool)
    | EndsWith(operand: Operand, insensitive: bool)
    | OneOf(operands: seq<Operand>)
    | Has(operand: Operand)
    | HasSome(operands: seq<Operand>)
    | Above(operand: Operand)
    | Below(operand: Operand)
    | Within(from: Option<Operand>, to: Option<Operand>)
    | IsEmpty(empty: bool)
    | Is(operand: Operand)

  // A condition at the top level, each about one field.
  datatype Condition = Null(path: string) | NotNull(path: string) | NotBlank(path: string) | NullOrBlank(path: string)
                     | NotContains(path: string, operand: Operand, insensitive: bool)

  datatype Where = Where(fields: map<string, Clause>, top: seq<Condition>)

  const MATCH_NOTHING := OneOf([])

  function BLANK(): Operand {
    One(Text(""))
  }

  // What the compiler takes from elsewhere: coercion of a value to the type of a
  // property, of an upper bound with its end of day, and the dialect.
  datatype Setting = Setting(coerce: (Operand, Property) -> Operand, upper: (string, Property) -> Operand, insensitive: bool, primary: Option<string>)

  function Each(values: seq<Value>, p: Property, s: Setting): (coerced: seq<Operand>)
    ensures |coerced| == |values|
  {
    seq(|values|, i requires 0 <= i < |values| => s.coerce(One(values[i]), p))
  }

  predicate IsText(o: Operand) {
    o.One? && o.value.Text?
  }

  predicate AcceptsSubstringOps(p: Property) {
    p.text || (!p.relation && p.column)
  }

  function IndexOfComma(s: string, from: nat := 0): nat
    requires from <= |s|
    ensures from <= IndexOfComma(s, from) <= |s|
    decreases |s| - from
  {
    if from == |s| || s[from] == ',' then from else IndexOfComma(s, from + 1)
  }

  function ParseBetween(value: Operand): (string, string) {
    match value
    case Bounds(from, to) => (from, to)
    case One(Text(text)) =>
      var comma := IndexOfComma(text);
      if comma < |text| then (text[..comma], text[comma + 1..]) else (text, "")
    case _ => ("", "")
  }

  function Range(from: string, to: string, p: Property, s: Setting, upper: Operand): Option<Clause> {
    if from == "" && to == "" then None
    else Some(Within(if from == "" then None else Some(s.coerce(One(Text(from)), p)), if to == "" then None else Some(upper)))
  }

  function BuildOperatorClause(operator: Operator, value: Operand, p: Property, s: Setting): Option<Clause> {
    var coerced := s.coerce(value, p);
    if p.list then
      match operator
      case Eq => Some(Has(coerced))
      case In =>
        if value.Many? then if value.values == [] then None else Some(HasSome(Each(value.values, p, s)))
        else Some(HasSome([coerced]))
      case _ => None
    else
      match operator
      case Eq => Some(Equals(coerced, p.text && IsText(coerced) && s.insensitive))
      case Neq => Some(if p.text && IsText(coerced) then NotIn(coerced, s.insensitive) else Not(coerced))
      case Co => if AcceptsSubstringOps(p) then Some(Contains(coerced, s.insensitive)) else None
      case Sw => if AcceptsSubstringOps(p) then Some(StartsWith(coerced, s.insensitive)) else None
      case Ew => if AcceptsSubstringOps(p) then Some(EndsWith(coerced, s.insensitive)) else None
      case In =>
        if value.Many? then if value.values == [] then None else Some(OneOf(Each(value.values, p, s)))
        else Some(OneOf([coerced]))
      case Gt => Some(Above(coerced))
      case Lt => Some(Below(coerced))
      case Between =>
        var (from, to) := ParseBetween(value);
        Range(from, to, p, s, s.upper(to, p))
      case _ => None
  }

  function BuildClause(e: Element, s: Setting): Option<Clause> {
    var p := e.property;
    if e.operator != Implicit then BuildOperatorClause(e.operator, e.value, p, s)
    else match e.value
      case Many(values) => Some(if p.list then HasSome(Each(values, p, s)) else OneOf(Each(values, p, s)))
      case Bounds(from, to) => Range(from, to, p, s, s.coerce(One(Text(to)), p))
      case _ =>
        var coerced := s.coerce(e.value, p);
        Some(if p.list then Has(coerced) else if p.text && IsText(coerced) then Contains(coerced, s.insensitive) else Equals(coerced, false))
  }

  // What one element adds: at most one clause under some field, and conditions.
  datatype Contribution = Contribution(clause: Option<(string, Clause)>, top: seq<Condition>)

  predicate Required(p: Property) {
    p.required && !p.list
  }

  function Contribute(e: Element, s: Setting): Contribution {
    var p := e.property;
    match e.operator
    case Empty =>
      if p.list then Contribution(Some((p.path, IsEmpty(true))), [])
      else if Required(p) && p.text then Contribution(Some((p.path, Equals(BLANK(), s.insensitive))), [])
      else if Required(p) then Contribution(Some((if s.primary.Some? then s.primary.value else p.path, MATCH_NOTHING)), [])
      else Contribution(None, [if p.text then NullOrBlank(p.path) else Null(p.path)])
    case Nempty =>
      if p.list then Contribution(Some((p.path, IsEmpty(false))), [])
      else if Required(p) then Contribution(None, if p.text then [NotBlank(p.path)] else [])
      else Contribution(None, [NotNull(p.path)] + if p.text then [NotBlank(p.path)] else [])
    case Nco =>
      Contribution(None, if AcceptsSubstringOps(p) then [NotContains(p.path, s.coerce(e.value, p), s.insensitive)] else [])
    case _ =>
      var clause :=
        if p.relation then if e.value.Nothing? || e.value == BLANK() || e.value == Bounds("", "") then None else Some(Is(e.value))
        else BuildClause(e, s);
      Contribution(if clause.Some? then Some((p.path, clause.value)) else None, [])
  }

  function AllConditions(f: seq<Element>, s: Setting): seq<Condition> {
    if f == [] then [] else AllConditions(f[..|f| - 1], s) + Contribute(f[|f| - 1], s).top
  }

  // The clause that is written last under a field.
  function LastClause(f: seq<Element>, s: Setting, path: string): Option<Clause> {
    if f == [] then None
    else
      var c := Contribute(f[|f| - 1], s).clause;
      if c.Some? && c.value.0 == path then Some(c.value.1) else LastClause(f[..|f| - 1], s, path)
  }

  function Lookup(fields: map<string, Clause>, path: string): Option<Clause> {
    if path in fields then Some(fields[path]) else None
  }

  method FilterToWhere(f: seq<Element>, s: Setting) returns (w: Where)
    ensures forall path :: Lookup(w.fields, path) == LastClause(f, s, path)
    ensures w.top == AllConditions(f, s)
  {
    hide Contribute;
    var fields: map<string, Clause> := map[];
    var top: seq<Condition> := [];
    var i := 0;
    while i < |f|
      invariant 0 <= i <= |f|
      invariant forall path :: Lookup(fields, path) == LastClause(f[..i], s, path)
      invariant top == AllConditions(f[..i], s)
    {
      assert f[..i + 1][..i] == f[..i];
      var c := Contribute(f[i], s);
      if c.clause.Some? {
        fields := fields[c.clause.value.0 := c.clause.value.1];
      }
      top := top + c.top;
      i := i + 1;
    }
    assert f[..i] == f;
    w := Where(fields, top);
  }

  // ---- what a `where` object means -----------------------------------------

  datatype Cell = NullCell | TextCell(text: string) | ListCell(items: seq<string>) | OtherCell(text: string)

  // How the database compares a value with a cell. Nothing is assumed about it.
  datatype Database = Database(
    same: (Operand, bool, Cell) -> bool, contains: (Operand, bool, Cell) -> bool,
    starts: (Operand, bool, Cell) -> bool, ends: (Operand, bool, Cell) -> bool,
    above: (Operand, Cell) -> bool, below: (Operand, Cell) -> bool,
    atLeast: (Operand, Cell) -> bool, atMost: (Operand, Cell) -> bool,
    member: (Operand, Cell) -> bool, related: (Operand, Cell) -> bool)

  predicate Same(o: Operand, insensitive: bool, cell: Cell, db: Database) {
    if o == BLANK() then cell == TextCell("") else db.same(o, insensitive, cell)
  }

  predicate HoldsClause(c: Clause, cell: Cell, db: Database) {
    match c
    case Equals(o, insensitive) => Same(o, insensitive, cell, db)
    case Not(o) => cell != NullCell && !Same(o, false, cell, db)
    case NotIn(o, insensitive) => cell != NullCell && !Same(o, insensitive, cell, db)
    case Contains(o, insensitive) => db.contains(o, insensitive, cell)
    case StartsWith(o, insensitive) => db.starts(o, insensitive, cell)
    case EndsWith(o, insensitive) => db.ends(o, insensitive, cell)
    case OneOf(os) => exists i | 0 <= i < |os| :: Same(os[i], false, cell, db)
    case Has(o) => db.member(o, cell)
    case HasSome(os) => exists i | 0 <= i < |os| :: db.member(os[i], cell)
    case Above(o) => db.above(o, cell)
    case Below(o) => db.below(o, cell)
    case Within(from, to) => (from.Some? ==> db.atLeast(from.value, cell)) && (to.Some? ==> db.atMost(to.value, cell))
    case IsEmpty(empty) => cell.ListCell? && (cell.items == [] <==> empty)
    case Is(o) => db.related(o, cell)
  }

  // A negated comparison is not true of a null.
  predicate HoldsCondition(c: Condition, row: string -> Cell, db: Database) {
    var cell := row(c.path);
    match c
    case Null(_) => cell == NullCell
    case NotNull(_) => cell != NullCell
    case NotBlank(_) => cell != NullCell && cell != TextCell("")
    case NullOrBlank(_) => cell == NullCell || cell == TextCell("")
    case NotContains(_, operand, insensitive) => cell != NullCell && !db.contains(operand, insensitive, cell)
  }

  // ---- what an operator asks for -------------------------------------------

  // The bounds that a range gives, and whether a cell lies within them.
  predicate InRange(cell: Cell, from: string, to: string, p: Property, s: Setting, upper: Operand, db: Database) {
    (from != "" ==> db.atLeast(s.coerce(One(Text(from)), p), cell)) && (to != "" ==> db.atMost(upper, cell))
  }

  predicate Equal(o: Operand, p: Property, cell: Cell, db: Database) {
    if p.list then db.member(o, cell) else Same(o, false, cell, db)
  }

  predicate AnyOf(values: seq<Value>, p: Property, s: Setting, cell: Cell, db: Database) {
    exists i | 0 <= i < |values| :: Equal(s.coerce(One(values[i]), p), p, cell, db)
  }

  // Strings compare without regard to case where the dialect can, except in lists.
  predicate Asks(e: Element, cell: Cell, s: Setting, db: Database) {
    var p, value, insensitive := e.property, s.coerce(e.value, e.property), s.insensitive;
    match e.operator
    case Eq => if p.list then db.member(value, cell) else Same(value, p.text && IsText(value) && insensitive, cell, db)
    case Neq => cell != NullCell && !Same(value, p.text && IsText(value) && insensitive, cell, db)
    case Co => db.contains(value, insensitive, cell)
    case Sw => db.starts(value, insensitive, cell)
    case Ew => db.ends(value, insensitive, cell)
    case Gt => db.above(value, cell)
    case Lt => db.below(value, cell)
    case In => if e.value.Many? then AnyOf(e.value.values, p, s, cell, db) else Equal(value, p, cell, db)
    case Between => InRange(cell, ParseBetween(e.value).0, ParseBetween(e.value).1, p, s, s.upper(ParseBetween(e.value).1, p), db)
    case Implicit =>
      if e.value.Many? then AnyOf(e.value.values, p, s, cell, db)
      else if e.value.Bounds? then InRange(cell, e.value.from, e.value.to, p, s, s.coerce(One(Text(e.value.to)), p), db)
      else if p.list then db.member(value, cell)
      else if p.text && IsText(value) then db.contains(value, insensitive, cell)
      else Same(value, false, cell, db)
    case _ => true
  }

  // Elements for which no condition is made, so that every row passes.
  predicate Passes(e: Element) {
    var p := e.property;
    match e.operator
    case Eq => false
    case In => e.value == Many([])
    case Implicit => e.value == Bounds("", "")
    case Between => p.list || ParseBetween(e.value) == ("", "")
    case Co => p.list || !AcceptsSubstringOps(p)
    case Sw => p.list || !AcceptsSubstringOps(p)
    case Ew => p.list || !AcceptsSubstringOps(p)
    case _ => p.list
  }

  // The elements that make no field clause are exactly those.
  lemma PassesExactly(e: Element, s: Setting)
    requires !e.operator.Empty? && !e.operator.Nempty? && !e.operator.Nco?
    ensures BuildClause(e, s).None? <==> Passes(e)
  {
  }

  lemma ListAsks(e: Element, cell: Cell, s: Setting, db: Database)
    requires e.property.list && e.operator != Implicit && BuildClause(e, s).Some?
    ensures HoldsClause(BuildClause(e, s).value, cell, db) <==> Asks(e, cell, s, db)
  {
    hide Same, AnyOf, Each;
    if e.value.Many? {
      EachAsks(e.value.values, e.property, cell, s, db);
    } else if e.operator.In? {
      OneAsks(s.coerce(e.value, e.property), cell, db);
    }
  }

  lemma ScalarAsks(e: Element, cell: Cell, s: Setting, db: Database)
    requires !e.property.list && e.operator != Implicit && BuildClause(e, s).Some?
    ensures HoldsClause(BuildClause(e, s).value, cell, db) <==> Asks(e, cell, s, db)
  {
    hide Same, AnyOf, Each, ParseBetween, AcceptsSubstringOps;
    if e.operator.In? {
      if e.value.Many? {
        EachAsks(e.value.values, e.property, cell, s, db);
      } else {
        OneAsks(s.coerce(e.value, e.property), cell, db);
      }
    }
  }

  lemma ImplicitAsks(e: Element, cell: Cell, s: Setting, db: Database)
    requires e.operator == Implicit && BuildClause(e, s).Some?
    ensures HoldsClause(BuildClause(e, s).value, cell, db) <==> Asks(e, cell, s, db)
  {
    hide Same, AnyOf, Each;
    if e.value.Many? {
      EachAsks(e.value.values, e.property, cell, s, db);
    }
  }

  // Every operator that makes a field clause means what it asks for.
  lemma ClauseAsks(e: Element, cell: Cell, s: Setting, db: Database)
    requires !e.operator.Empty? && !e.operator.Nempty? && !e.operator.Nco?
    ensures if Passes(e) then BuildClause(e, s).None?
            else BuildClause(e, s).Some? && (HoldsClause(BuildClause(e, s).value, cell, db) <==> Asks(e, cell, s, db))
  {
    hide BuildClause, HoldsClause, Asks, Passes;
    PassesExactly(e, s);
    if !Passes(e) {
      if e.operator == Implicit {
        ImplicitAsks(e, cell, s, db);
      } else if e.property.list {
        ListAsks(e, cell, s, db);
      } else {
        ScalarAsks(e, cell, s, db);
      }
    }
  }

  lemma EachAsks(values: seq<Value>, p: Property, cell: Cell, s: Setting, db: Database)
    ensures HoldsClause(if p.list then HasSome(Each(values, p, s)) else OneOf(Each(values, p, s)), cell, db) <==>
      AnyOf(values, p, s, cell, db)
  {
    hide Same;
    var os := Each(values, p, s);
    assert forall i | 0 <= i < |values| :: os[i] == s.coerce(One(values[i]), p);
    if AnyOf(values, p, s, cell, db) {
      var i :| 0 <= i < |values| && Equal(s.coerce(One(values[i]), p), p, cell, db);
      assert if p.list then db.member(os[i], cell) else Same(os[i], false, cell, db);
    }
  }

  lemma OneAsks(o: Operand, cell: Cell, db: Database)
    ensures HoldsClause(OneOf([o]), cell, db) <==> Same(o, false, cell, db)
    ensures HoldsClause(HasSome([o]), cell, db) <==> db.member(o, cell)
  {
    assert [o][0] == o;
  }

  ghost predicate Satisfies(row: string -> Cell, w: Where, db: Database) {
    && (forall path | path in w.fields :: HoldsClause(w.fields[path], row(path), db))
    && (forall c | c in w.top :: HoldsCondition(c, row, db))
  }

  // The element on its own.
  ghost predicate Meets(row: string -> Cell, e: Element, s: Setting, db: Database) {
    var c := Contribute(e, s);
    && (c.clause.Some? ==> HoldsClause(c.clause.value.1, row(c.clause.value.0), db))
    && (forall t | t in c.top :: HoldsCondition(t, row, db))
  }

  ghost predicate IsCompiled(w: Where, f: seq<Element>, s: Setting) {
    w.top == AllConditions(f, s) && forall path :: Lookup(w.fields, path) == LastClause(f, s, path)
  }

  ghost predicate DistinctPaths(f: seq<Element>) {
    forall i, j | 0 <= i < j < |f| :: f[i].property.path != f[j].property.path
  }

  // `empty` on a required property that is no string: nothing can match, which is
  // said through the primary key.
  predicate Impossible(e: Element) {
    e.operator.Empty? && Required(e.property) && !e.property.text
  }

  lemma ClausePlace(e: Element, s: Setting)
    ensures var c := Contribute(e, s).clause;
            c.Some? ==> if Impossible(e) then c.value == (if s.primary.Some? then s.primary.value else e.property.path, MATCH_NOTHING)
                        else c.value.0 == e.property.path
    ensures Impossible(e) ==> Contribute(e, s).clause.Some?
  {
  }

  lemma {:induction false} LastIsSomeones(f: seq<Element>, s: Setting, path: string)
    ensures LastClause(f, s, path).Some? ==>
      exists i :: 0 <= i < |f| && Contribute(f[i], s).clause == Some((path, LastClause(f, s, path).value))
  {
    hide Contribute;
    if f != [] {
      var n := |f| - 1;
      LastIsSomeones(f[..n], s, path);
      var c := Contribute(f[n], s).clause;
      if c.Some? && c.value.0 == path {
        assert Contribute(f[n], s).clause == Some((path, LastClause(f, s, path).value));
      } else if LastClause(f, s, path).Some? {
        var i :| 0 <= i < n && Contribute(f[..n][i], s).clause == Some((path, LastClause(f[..n], s, path).value));
        assert Contribute(f[i], s).clause == Some((path, LastClause(f, s, path).value));
      }
    }
  }

  // The element that writes last under a field.
  lemma {:induction false} LastWriter(f: seq<Element>, s: Setting, path: string) returns (i: nat)
    requires LastClause(f, s, path).Some?
    ensures i < |f| && Contribute(f[i], s).clause == Some((path, LastClause(f, s, path).value))
    ensures forall k | i < k < |f| && Contribute(f[k], s).clause.Some? :: Contribute(f[k], s).clause.value.0 != path
  {
    hide Contribute;
    var n := |f| - 1;
    var c := Contribute(f[n], s).clause;
    if c.Some? && c.value.0 == path {
      i := n;
    } else {
      i := LastWriter(f[..n], s, path);
      assert f[..n][i] == f[i];
      forall k | i < k < |f| && Contribute(f[k], s).clause.Some?
        ensures Contribute(f[k], s).clause.value.0 != path
      {
        assert k < n ==> f[..n][k] == f[k];
      }
    }
  }

  lemma {:induction false} WrittenIsThere(f: seq<Element>, s: Setting, i: nat)
    requires i < |f| && Contribute(f[i], s).clause.Some?
    ensures LastClause(f, s, Contribute(f[i], s).clause.value.0).Some?
  {
    hide Contribute;
    var n := |f| - 1;
    if i < n {
      WrittenIsThere(f[..n], s, i);
    }
  }

  lemma {:induction false} ConditionsAreSomeones(f: seq<Element>, s: Setting, c: Condition)
    ensures c in AllConditions(f, s) <==> exists i :: 0 <= i < |f| && c in Contribute(f[i], s).top
  {
    hide Contribute;
    if f != [] {
      var n := |f| - 1;
      ConditionsAreSomeones(f[..n], s, c);
      assert forall i | 0 <= i < n :: f[..n][i] == f[i];
    }
  }

  // No row that meets every element is lost.
  lemma MeetsAllSatisfies(row: string -> Cell, w: Where, f: seq<Element>, s: Setting, db: Database)
    requires IsCompiled(w, f, s) && forall i | 0 <= i < |f| :: Meets(row, f[i], s, db)
    ensures Satisfies(row, w, db)
  {
    hide Contribute, HoldsClause, HoldsCondition;
    forall path | path in w.fields
      ensures HoldsClause(w.fields[path], row(path), db)
    {
      assert Lookup(w.fields, path) == LastClause(f, s, path);
      LastIsSomeones(f, s, path);
      var i :| 0 <= i < |f| && Contribute(f[i], s).clause == Some((path, w.fields[path]));
      assert Meets(row, f[i], s, db);
    }
    forall c | c in w.top
      ensures HoldsCondition(c, row, db)
    {
      ConditionsAreSomeones(f, s, c);
      var i :| 0 <= i < |f| && c in Contribute(f[i], s).top;
      assert Meets(row, f[i], s, db);
    }
  }

  // An impossible element has been overwritten under the primary key.
  ghost predicate Overwritten(f: seq<Element>, s: Setting) {
    s.primary.Some? && LastClause(f, s, s.primary.value) != Some(MATCH_NOTHING) && exists i ::
      0 <= i < |f| && Impossible(f[i])
  }

  // Unless that happens, a row that satisfies the whole meets every element.
  lemma SatisfiesMeetsAll(row: string -> Cell, w: Where, f: seq<Element>, s: Setting, db: Database, i: nat)
    requires IsCompiled(w, f, s) && DistinctPaths(f) && !Overwritten(f, s) && Satisfies(row, w, db) && i < |f|
    ensures Meets(row, f[i], s, db)
  {
    hide Contribute, HoldsClause, HoldsCondition, Impossible;
    var c := Contribute(f[i], s);
    forall t | t in c.top
      ensures HoldsCondition(t, row, db)
    {
      ConditionsAreSomeones(f, s, t);
    }
    if c.clause.Some? {
      var path := c.clause.value.0;
      WrittenIsThere(f, s, i);
      assert Lookup(w.fields, path) == LastClause(f, s, path);
      assert HoldsClause(w.fields[path], row(path), db);
      LastIsSomeones(f, s, path);
      var j :| 0 <= j < |f| && Contribute(f[j], s).clause == Some((path, w.fields[path]));
      ClausePlace(f[i], s);
      ClausePlace(f[j], s);
      NothingMatches(row(path), db);
    }
  }

  lemma NothingMatches(cell: Cell, db: Database)
    ensures !HoldsClause(MATCH_NOTHING, cell, db)
  {
  }

  lemma ImpossibleIsNeverMet(row: string -> Cell, e: Element, s: Setting, db: Database)
    requires Impossible(e)
    ensures !Meets(row, e, s, db)
  {
  }

  lemma {:induction false} LaterKeyOverwrites(f: seq<Element>, s: Setting, i: nat, j: nat)
    requires s.primary.Some? && DistinctPaths(f) && i < j < |f| && Impossible(f[i])
      && f[j].property.path == s.primary.value
    requires Contribute(f[j], s).clause.Some? && !Impossible(f[j])
      && Contribute(f[j], s).clause.value.1 != MATCH_NOTHING
    requires forall k | j < k < |f| :: !Impossible(f[k])
    ensures Overwritten(f, s)
  {
    hide Contribute, Impossible;
    var n := |f| - 1;
    ClausePlace(f[n], s);
    if j < n {
      LaterKeyOverwrites(f[..n], s, i, j);
    }
  }

  // ---- what the whole means, by the elements alone -------------------------

  // An element that restricts its own field: it makes a clause there that some
  // value could meet.
  predicate Restricts(e: Element) {
    var p := e.property;
    match e.operator
    case Empty => p.list || (p.required && p.text)
    case Nempty => p.list
    case Nco => false
    case _ =>
      if p.relation then !e.value.Nothing? && e.value != BLANK() && e.value != Bounds("", "")
      else !Passes(e) && !(e.operator.Implicit? && e.value == Many([]) && !p.list)
  }

  lemma RestrictsExactly(e: Element, s: Setting)
    ensures Restricts(e) <==>
      !Impossible(e) && Contribute(e, s).clause.Some? && Contribute(e, s).clause.value.1 != MATCH_NOTHING
  {
    hide BuildClause, Passes;
    if !e.operator.Empty? && !e.operator.Nempty? && !e.operator.Nco? {
      PassesExactly(e, s);
      NothingBuilt(e, s);
    }
  }

  lemma NothingBuilt(e: Element, s: Setting)
    requires !e.operator.Empty? && !e.operator.Nempty? && !e.operator.Nco?
    ensures BuildClause(e, s) == Some(MATCH_NOTHING) <==>
      e.operator.Implicit? && e.value == Many([]) && !e.property.list
  {
    hide ParseBetween, AcceptsSubstringOps;
  }

  // The element on the primary key stands behind all the impossible ones, and
  // there are some.
  ghost predicate KeyStandsBehind(f: seq<Element>, primary: Option<string>) {
    && primary.Some? && (exists i :: 0 <= i < |f| && Impossible(f[i]))
    && exists j :: 0 <= j < |f| && f[j].property.path == primary.value && Restricts(f[j]) && LastImpossibleBefore(f, j)
  }

  ghost predicate LastImpossibleBefore(f: seq<Element>, j: nat) {
    forall i | 0 <= i < |f| && Impossible(f[i]) :: i < j
  }

  lemma OverwrittenExactly(f: seq<Element>, s: Setting)
    requires DistinctPaths(f)
    ensures Overwritten(f, s) <==> KeyStandsBehind(f, s.primary)
  {
    hide Contribute, Impossible, Restricts;
    if Overwritten(f, s) {
      var key := s.primary.value;
      var i :| 0 <= i < |f| && Impossible(f[i]);
      ClausePlace(f[i], s);
      WrittenIsThere(f, s, i);
      var j := LastWriter(f, s, key);
      ClausePlace(f[j], s);
      RestrictsExactly(f[j], s);
      forall k | 0 <= k < |f| && Impossible(f[k])
        ensures k < j
      {
        ClausePlace(f[k], s);
      }
      assert LastImpossibleBefore(f, j);
    }
    if KeyStandsBehind(f, s.primary) {
      var i :| 0 <= i < |f| && Impossible(f[i]);
      var j :| 0 <= j < |f| && f[j].property.path == s.primary.value && Restricts(f[j]) && LastImpossibleBefore(f, j);
      RestrictsExactly(f[j], s);
      LaterKeyOverwrites(f, s, i, j);
    }
  }

  // Where it does, the others still have their say.
  lemma OthersMet(row: string -> Cell, w: Where, f: seq<Element>, s: Setting, db: Database, i: nat)
    requires IsCompiled(w, f, s) && DistinctPaths(f) && Overwritten(f, s) && Satisfies(row, w, db) && i < |f|
      && !Impossible(f[i])
    ensures Meets(row, f[i], s, db)
  {
    hide Contribute, HoldsClause, HoldsCondition, Impossible;
    var c := Contribute(f[i], s);
    forall t | t in c.top
      ensures HoldsCondition(t, row, db)
    {
      ConditionsAreSomeones(f, s, t);
    }
    if c.clause.Some? {
      var path := c.clause.value.0;
      WrittenIsThere(f, s, i);
      assert Lookup(w.fields, path) == LastClause(f, s, path);
      assert HoldsClause(w.fields[path], row(path), db);
      var j := LastWriter(f, s, path);
      ClausePlace(f[i], s);
      ClausePlace(f[j], s);
    }
  }

  lemma OthersSatisfy(row: string -> Cell, w: Where, f: seq<Element>, s: Setting, db: Database)
    requires IsCompiled(w, f, s) && Overwritten(f, s)
    requires forall i | 0 <= i < |f| && !Impossible(f[i]) :: Meets(row, f[i], s, db)
    ensures Satisfies(row, w, db)
  {
    hide Contribute, HoldsClause, HoldsCondition, Impossible;
    forall path | path in w.fields
      ensures HoldsClause(w.fields[path], row(path), db)
    {
      assert Lookup(w.fields, path) == LastClause(f, s, path);
      var i := LastWriter(f, s, path);
      ClausePlace(f[i], s);
      assert Meets(row, f[i], s, db);
    }
    forall c | c in w.top
      ensures HoldsCondition(c, row, db)
    {
      ConditionsAreSomeones(f, s, c);
      var i :| 0 <= i < |f| && c in Contribute(f[i], s).top;
      NoCondition(f[i], s);
      assert Meets(row, f[i], s, db);
    }
  }

  lemma NoCondition(e: Element, s: Setting)
    ensures Impossible(e) ==> Contribute(e, s).top == []
  {
  }

  // A row satisfies the compiled filter exactly when it meets every element on its
  // own, except that the impossible ones are forgotten when the element on the
  // primary key stands behind them.
  lemma CompiledExactly(row: string -> Cell, w: Where, f: seq<Element>, s: Setting, db: Database)
    requires IsCompiled(w, f, s) && DistinctPaths(f)
    ensures Satisfies(row, w, db) <==>
      forall i | 0 <= i < |f| && !(KeyStandsBehind(f, s.primary) && Impossible(f[i])) :: Meets(row, f[i], s, db)
  {
    hide Satisfies, Meets, Impossible, KeyStandsBehind, Overwritten;
    OverwrittenExactly(f, s);
    if KeyStandsBehind(f, s.primary) {
      if Satisfies(row, w, db) {
        forall i | 0 <= i < |f| && !Impossible(f[i])
          ensures Meets(row, f[i], s, db)
        {
          OthersMet(row, w, f, s, db, i);
        }
      } else if forall i | 0 <= i < |f| && !Impossible(f[i]) :: Meets(row, f[i], s, db) {
        OthersSatisfy(row, w, f, s, db);
      }
    } else {
      if Satisfies(row, w, db) {
        forall i | 0 <= i < |f|
          ensures Meets(row, f[i], s, db)
        {
          SatisfiesMeetsAll(row, w, f, s, db, i);
        }
      } else if forall i | 0 <= i < |f| :: Meets(row, f[i], s, db) {
        MeetsAllSatisfies(row, w, f, s, db);
      }
    }
  }

  // So it is the conjunction when the primary key is not filtered beside them; and
  // when it stands behind them, every row that satisfies is let through wrongly.
  lemma ConjunctionExactly(row: string -> Cell, w: Where, f: seq<Element>, s: Setting, db: Database)
    requires IsCompiled(w, f, s) && DistinctPaths(f)
    ensures KeyStandsBehind(f, s.primary) ==> exists i :: 0 <= i < |f| && !Meets(row, f[i], s, db)
    ensures !KeyStandsBehind(f, s.primary) ==>
      (Satisfies(row, w, db) <==> forall i | 0 <= i < |f| :: Meets(row, f[i], s, db))
  {
    hide Satisfies, Meets, Impossible;
    CompiledExactly(row, w, f, s, db);
    if KeyStandsBehind(f, s.primary) {
      var i :| 0 <= i < |f| && Impossible(f[i]);
      ImpossibleIsNeverMet(row, f[i], s, db);
    }
  }

  // A row that is let through: its key is the one asked for, and no value of the
  // required field is empty.
  lemma LetThrough(required: string, key: string, id: string, f: seq<Element>, w: Where, s: Setting, db: Database)
    requires required != key && s.primary == Some(key)
    requires f == [Element(Property(required, false, false, false, true, false), Empty, Nothing),
                   Element(Property(key, false, false, false, true, false), Eq, One(Other(id)))]
    requires s.coerce(f[1].value, f[1].property) == f[1].value && db.same(f[1].value, false, OtherCell(id))
    requires IsCompiled(w, f, s)
    ensures KeyStandsBehind(f, s.primary) && Satisfies(_ => OtherCell(id), w, db)
      && !Meets(_ => OtherCell(id), f[0], s, db)
  {
    var row: string -> Cell := _ => OtherCell(id);
    assert Impossible(f[0]) && !Impossible(f[1]) && Restricts(f[1]) && LastImpossibleBefore(f, 1);
    assert f[1].property.path == key;
    assert Meets(row, f[1], s, db);
    CompiledExactly(row, w, f, s, db);
    ImpossibleIsNeverMet(row, f[0], s, db);
  }

  // Cells that a column can hold.
  predicate Fits(cell: Cell, p: Property) {
    if p.list then cell.ListCell?
    else (p.required ==> cell != NullCell) && (p.text ==> cell.NullCell? || cell.TextCell?)
  }

  // Of every row, exactly one of `empty` and `nempty` holds.
  lemma EmptyOrNot(row: string -> Cell, p: Property, value: Operand, s: Setting, db: Database)
    requires Fits(row(p.path), p)
    ensures Meets(row, Element(p, Empty, value), s, db) <==> !Meets(row, Element(p, Nempty, value), s, db)
  {
    hide BuildClause;
    var nempty := Contribute(Element(p, Nempty, value), s);
    if !p.list && p.text && !p.required {
      assert nempty.top == [NotNull(p.path), NotBlank(p.path)];
      assert nempty.top[0] in nempty.top && nempty.top[1] in nempty.top;
    } else if !p.list && p.text {
      assert nempty.top[0] in nempty.top;
    } else if !p.list && !p.required {
      assert nempty.top[0] in nempty.top;
    }
    var empty := Contribute(Element(p, Empty, value), s);
    assert !p.list && !p.required ==> empty.top[0] in empty.top;
  }
}
