// What the search for a top-level property finds, by what the lexer meets: the
// search itself goes from identifier to identifier, the lexer character by
// character.
module PropertySearch {
  import opened Prelude
  import opened Scanner

  // An identifier that starts before `i` runs up to `i`.
  ghost predicate Inside(body: string, i: nat) {
    exists j | 0 <= j < i :: RunsTo(body, j, i)
  }

  predicate RunsTo(body: string, j: nat, i: nat) {
    j < i <= |body| && IsIdentStart(body[j]) && forall k | j <= k < i :: IsIdent(body[k])
  }

  // The bracket depth when the lexer comes to position `i`.
  ghost function DepthAt(body: string, c: Cursor, i: nat, depth: int): int
    decreases |body| + 2 - c.at
  {
    if c.at >= |body| || c.at >= i then depth else DepthAt(body, Next(body, c), i, depth + Bracket(body, c))
  }

  // At `i` stands, in code and outside all brackets, a whole identifier that is the
  // property, with a colon behind it.
  ghost predicate Spot(body: string, property: string, c: Cursor, depth: int, i: nat) {
    && Reaches(body, c, Cursor(i, Code)) && Plain(body, Cursor(i, Code)) && DepthAt(body, c, i, depth) == 0
    && IsIdentStart(body[i]) && !Inside(body, i) && Named(body, property, i, IdentEnd(body, i + 1))
  }

  lemma SpotUnfolds(body: string, property: string, c: Cursor, depth: int, i: nat)
    requires c.at < |body|
    ensures Spot(body, property, c, depth, i) <==>
      if c == Cursor(i, Code) then
        Plain(body, c) && depth == 0 && IsIdentStart(body[i]) && !Inside(body, i)
          && Named(body, property, i, IdentEnd(body, i + 1))
      else Spot(body, property, Next(body, c), depth + Bracket(body, c), i)
  {
    hide Inside, Named;
    ReachesGrows(body, c);
    ReachesGrows(body, Next(body, c));
    if c != Cursor(i, Code) && Reaches(body, Next(body, c), Cursor(i, Code)) {
      assert c.at < i;
      assert DepthAt(body, c, i, depth) == DepthAt(body, Next(body, c), i, depth + Bracket(body, c));
    }
  }

  lemma SpotIsAhead(body: string, property: string, c: Cursor, depth: int, i: nat)
    requires Spot(body, property, c, depth, i)
    ensures c.at <= i
  {
    ReachesGrows(body, c);
  }

  // Outside brackets the search never stands within an identifier.
  ghost predicate AtEdge(body: string, c: Cursor, depth: int) {
    c.state == Code && depth == 0 && c.at < |body| && IsIdent(body[c.at]) ==> !Inside(body, c.at)
  }

  lemma IdentIsPlain(body: string, i: nat)
    requires i < |body| && IsIdent(body[i])
    ensures Plain(body, Cursor(i, Code)) && Next(body, Cursor(i, Code)) == Cursor(i + 1, Code)
      && Bracket(body, Cursor(i, Code)) == 0
  {
  }

  // Nothing is missed within an identifier.
  lemma {:induction false} RunIsSkipped(body: string, property: string, start: nat, k: nat, i: nat)
    requires start < k <= |body| && RunsTo(body, start, k)
    ensures RunsTo(body, start, IdentEnd(body, k))
    ensures Spot(body, property, Cursor(k, Code), 0, i) <==> Spot(body, property, Cursor(IdentEnd(body, k), Code), 0, i)
    decreases |body| - k
  {
    hide Spot, Named;
    if k < |body| && IsIdent(body[k]) {
      IdentIsPlain(body, k);
      SpotUnfolds(body, property, Cursor(k, Code), 0, i);
      assert RunsTo(body, start, k + 1);
      RunIsSkipped(body, property, start, k + 1, i);
      assert Inside(body, k);
      if Spot(body, property, Cursor(k + 1, Code), 0, i) {
        SpotIsAhead(body, property, Cursor(k + 1, Code), 0, i);
      }
    }
  }

  lemma NextIsEdge(body: string, c: Cursor, depth: int)
    requires c.at < |body| && AtEdge(body, c, depth)
    requires !(Plain(body, c) && depth == 0 && IsIdentStart(body[c.at]))
    ensures AtEdge(body, Next(body, c), depth + Bracket(body, c))
  {
    var n := Next(body, c);
    if n.state == Code && depth + Bracket(body, c) == 0 && n.at < |body| && Inside(body, n.at) {
      var j :| 0 <= j < n.at && RunsTo(body, j, n.at);
      assert IsIdent(body[n.at - 1]);
      assert c.state == Code && Plain(body, c) && Bracket(body, c) == 0 && n.at == c.at + 1;
      assert j < c.at;
      assert RunsTo(body, j, c.at);
    }
  }

  // The result is the colon behind the first of these spots, and there is none
  // exactly when nothing is found.
  ghost predicate Finds(body: string, property: string, c: Cursor, depth: int, r: Option<nat>) {
    match r
    case Some(colon) =>
      exists i: nat :: Spot(body, property, c, depth, i) && colon == SkipSpace(body, IdentEnd(body, i + 1))
        && NoneBefore(body, property, c, depth, i)
    case None => forall i: nat :: !Spot(body, property, c, depth, i)
  }

  ghost predicate NoneBefore(body: string, property: string, c: Cursor, depth: int, i: nat) {
    forall j: nat | j < i :: !Spot(body, property, c, depth, j)
  }

  // Cursors with the same spots find the same.
  lemma FindsAlike(body: string, property: string, c: Cursor, depth: int, c': Cursor, depth': int, r: Option<nat>)
    requires forall i: nat :: Spot(body, property, c, depth, i) <==> Spot(body, property, c', depth', i)
    requires Finds(body, property, c', depth', r)
    ensures Finds(body, property, c, depth, r)
  {
    hide Spot, IdentEnd, SkipSpace;
    if r.Some? {
      var i: nat :| Spot(body, property, c', depth', i) && r.value == SkipSpace(body, IdentEnd(body, i + 1))
               && NoneBefore(body, property, c', depth', i);
      assert NoneBefore(body, property, c, depth, i);
    }
  }

  lemma {:induction false} ColonFrom(body: string, property: string, c: Cursor, depth: int)
    requires AtEdge(body, c, depth)
    ensures Finds(body, property, c, depth, Colon(body, property, c, depth))
    decreases |body| + 2 - c.at
  {
    hide Spot, Named, Finds, AtEdge;
    if c.at >= |body| {
      NothingBehind(body, property, c, depth);
    } else if Plain(body, c) && depth == 0 && IsIdentStart(body[c.at]) {
      var end := IdentEnd(body, c.at + 1);
      if Named(body, property, c.at, end) {
        FoundHere(body, property, c);
      } else {
        assert AtEdge(body, Cursor(end, Code), 0) by { EdgeBehind(body, c.at); }
        ColonFrom(body, property, Cursor(end, Code), depth);
        forall i: nat
          ensures Spot(body, property, c, depth, i) <==> Spot(body, property, Cursor(end, Code), depth, i)
        {
          IdentSkipped(body, property, c, i);
        }
        FindsAlike(body, property, c, depth, Cursor(end, Code), depth, Colon(body, property, c, depth));
      }
    } else {
      NextIsEdge(body, c, depth);
      ColonFrom(body, property, Next(body, c), depth + Bracket(body, c));
      forall i: nat
        ensures Spot(body, property, c, depth, i) <==> Spot(body, property, Next(body, c), depth + Bracket(body, c), i)
      {
        NotHere(body, property, c, depth, i);
      }
      FindsAlike(body, property, c, depth, Next(body, c), depth + Bracket(body, c), Colon(body, property, c, depth));
    }
  }

  lemma NothingBehind(body: string, property: string, c: Cursor, depth: int)
    requires c.at >= |body|
    ensures Finds(body, property, c, depth, None)
  {
  }

  lemma FoundHere(body: string, property: string, c: Cursor)
    requires Plain(body, c) && IsIdentStart(body[c.at]) && AtEdge(body, c, 0)
      && Named(body, property, c.at, IdentEnd(body, c.at + 1))
    ensures Finds(body, property, c, 0, Some(SkipSpace(body, IdentEnd(body, c.at + 1))))
  {
    hide Named;
    SpotUnfolds(body, property, c, 0, c.at);
    hide Spot;
    forall j: nat | j < c.at
      ensures !Spot(body, property, c, 0, j)
    {
      if Spot(body, property, c, 0, j) {
        SpotIsAhead(body, property, c, 0, j);
      }
    }
    assert NoneBefore(body, property, c, 0, c.at);
  }

  lemma EdgeBehind(body: string, i: nat)
    requires i < |body|
    ensures AtEdge(body, Cursor(IdentEnd(body, i + 1), Code), 0)
  {
  }

  lemma IdentSkipped(body: string, property: string, c: Cursor, i: nat)
    requires Plain(body, c) && IsIdentStart(body[c.at]) && !Named(body, property, c.at, IdentEnd(body, c.at + 1))
    ensures Spot(body, property, c, 0, i) <==> Spot(body, property, Cursor(IdentEnd(body, c.at + 1), Code), 0, i)
  {
    hide Spot, Named;
    IdentIsPlain(body, c.at);
    SpotUnfolds(body, property, c, 0, i);
    RunIsSkipped(body, property, c.at, c.at + 1, i);
    if Spot(body, property, Cursor(c.at + 1, Code), 0, i) {
      SpotIsAhead(body, property, Cursor(c.at + 1, Code), 0, i);
    }
  }

  lemma NotHere(body: string, property: string, c: Cursor, depth: int, i: nat)
    requires c.at < |body| && !(Plain(body, c) && depth == 0 && IsIdentStart(body[c.at]))
    ensures Spot(body, property, c, depth, i) <==> Spot(body, property, Next(body, c), depth + Bracket(body, c), i)
  {
    hide Spot, Named;
    SpotUnfolds(body, property, c, depth, i);
    if Spot(body, property, Next(body, c), depth + Bracket(body, c), i) {
      SpotIsAhead(body, property, Next(body, c), depth + Bracket(body, c), i);
    }
  }

  // What the search of a whole body finds: the first whole identifier, in code and
  // outside all brackets, that is the property and has a colon behind it.
  lemma ColonMeans(body: string, property: string)
    ensures match Colon(body, property, Cursor(0, Code), 0)
            case Some(r) =>
              exists i: nat ::
                && Spot(body, property, Cursor(0, Code), 0, i) && r == SkipSpace(body, IdentEnd(body, i + 1))
                && forall j: nat | j < i :: !Spot(body, property, Cursor(0, Code), 0, j)
            case None => forall i: nat :: !Spot(body, property, Cursor(0, Code), 0, i)
  {
    ColonFrom(body, property, Cursor(0, Code), 0);
    hide Spot, Colon;
  }
}
