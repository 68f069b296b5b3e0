// What the searches find in a module that is spelled out of comments, strings,
// plain characters and brackets that match.
module PrintedModules {
  import opened Prelude
  import opened Scanner
  import opened PrintedText
  import opened PropertySearch

  datatype Tree = Leaf(piece: Piece) | Nest(opening: char, inner: seq<Tree>)

  predicate IsOpening(c: char) {
    c == '{' || c == '[' || c == '('
  }

  function ClosingOf(opening: char): char {
    if opening == '{' then '}' else if opening == '[' then ']' else ')'
  }

  predicate IsBracket(c: char) {
    IsOpening(c) || c == '}' || c == ']' || c == ')'
  }

  function SpellTree(t: Tree): (text: string)
    decreases t
  {
    match t
    case Leaf(p) => Spell(p)
    case Nest(opening, inner) => [opening] + SpellAll(inner) + [ClosingOf(opening)]
  }

  function SpellAll(ts: seq<Tree>): string
    decreases ts
  {
    if ts == [] then "" else SpellTree(ts[0]) + SpellAll(ts[1..])
  }

  ghost predicate Matches(t: Tree)
    decreases t
  {
    match t
    case Leaf(p) => WellSpelled(p) && (p.Sign? || p.Slash? ==> !IsBracket(p.c))
    case Nest(opening, inner) => IsOpening(opening) && AllMatch(inner)
  }

  ghost predicate AllMatch(ts: seq<Tree>)
    decreases ts
  {
    ts == [] || (Matches(ts[0]) && AllMatch(ts[1..]))
  }

  // ---- one character, one piece --------------------------------------------

  lemma PlainSign(src: string, i: nat)
    requires i < |src| && Plain(src, Cursor(i, Code))
    ensures Next(src, Cursor(i, Code)) == Cursor(i + 1, Code)
    ensures !IsBracket(src[i]) ==> Brace(src, Cursor(i, Code)) == 0 && Bracket(src, Cursor(i, Code)) == 0
    ensures IsOpening(src[i]) ==>
      Brace(src, Cursor(i, Code)) == (if src[i] == '{' then 1 else 0) && Bracket(src, Cursor(i, Code)) == 1
    ensures IsBracket(src[i]) && !IsOpening(src[i]) ==>
      Brace(src, Cursor(i, Code)) == (if src[i] == '}' then -1 else 0) && Bracket(src, Cursor(i, Code)) == -1
  {
  }

  lemma BracketIsPlain(src: string, i: nat)
    requires i < |src| && IsBracket(src[i])
    ensures Plain(src, Cursor(i, Code))
  {
  }

  lemma SignOf(src: string, i: nat, p: Piece)
    requires Matches(Leaf(p)) && !IsHidden(p) && Stands(src, i, Spell(p))
    ensures i < |src| && Plain(src, Cursor(i, Code)) && !IsBracket(src[i])
    ensures p.Slash? ==> i + 1 < |src| && Plain(src, Cursor(i + 1, Code)) && !IsBracket(src[i + 1])
  {
    PieceReached(src, i, p);
    StandsAt(src, i, Spell(p), 0);
    if p.Slash? {
      StandsAt(src, i, Spell(p), 1);
    }
  }

  lemma NestParts(src: string, i: nat, opening: char, inner: seq<Tree>)
    requires Stands(src, i, SpellTree(Nest(opening, inner)))
    ensures var n := |SpellAll(inner)|;
            && |SpellTree(Nest(opening, inner))| == n + 2 && i + n + 1 < |src|
            && src[i] == opening && src[i + n + 1] == ClosingOf(opening) && Stands(src, i + 1, SpellAll(inner))
  {
    var text := SpellAll(inner);
    assert SpellTree(Nest(opening, inner)) == [opening] + (text + [ClosingOf(opening)]);
    StandsParts(src, i, [opening], text + [ClosingOf(opening)]);
    StandsParts(src, i + 1, text, [ClosingOf(opening)]);
    StandsAt(src, i, [opening], 0);
    StandsAt(src, i + 1 + |text|, [ClosingOf(opening)], 0);
  }

  // ---- the brace matcher ---------------------------------------------------

  lemma ClosingStep(src: string, i: nat, depth: int)
    requires i < |src| && Plain(src, Cursor(i, Code)) && !(src[i] == '}' && depth == 1)
    ensures Closing(src, Cursor(i, Code), depth) ==
      Closing(src, Cursor(i + 1, Code), depth + if src[i] == '{' then 1 else if src[i] == '}' then -1 else 0)
  {
  }

  lemma PiecePassed(src: string, i: nat, p: Piece, depth: int)
    requires Matches(Leaf(p)) && Stands(src, i, Spell(p))
    ensures Closing(src, Cursor(i, Code), depth) == Closing(src, Cursor(i + |Spell(p)|, Code), depth)
  {
    hide Closing, Hidden, Reaches, Stands;
    if IsHidden(p) {
      PieceHidden(src, i, p);
      PieceReached(src, i, p);
      SearchesPassHidden(src, Cursor(i, Code), Cursor(i + |Spell(p)|, Code), "", "", depth);
    } else {
      SignOf(src, i, p);
      ClosingStep(src, i, depth);
      if p.Slash? {
        ClosingStep(src, i + 1, depth);
      }
    }
  }

  lemma {:induction false} TreesPassed(src: string, i: nat, ts: seq<Tree>, depth: int)
    requires AllMatch(ts) && Stands(src, i, SpellAll(ts)) && depth >= 1
    ensures Closing(src, Cursor(i, Code), depth) == Closing(src, Cursor(i + |SpellAll(ts)|, Code), depth)
    decreases ts
  {
    hide Closing, Stands, Plain;
    if ts != [] {
      StandsParts(src, i, SpellTree(ts[0]), SpellAll(ts[1..]));
      TreePassed(src, i, ts[0], depth);
      TreesPassed(src, i + |SpellTree(ts[0])|, ts[1..], depth);
    }
  }

  lemma {:induction false} TreePassed(src: string, i: nat, t: Tree, depth: int)
    requires Matches(t) && Stands(src, i, SpellTree(t)) && depth >= 1
    ensures Closing(src, Cursor(i, Code), depth) == Closing(src, Cursor(i + |SpellTree(t)|, Code), depth)
    decreases t
  {
    hide Closing, Stands, Plain;
    match t
    case Leaf(p) => PiecePassed(src, i, p, depth);
    case Nest(opening, inner) =>
      NestParts(src, i, opening, inner);
      var more, n := if opening == '{' then 1 else 0, |SpellAll(inner)|;
      BracketIsPlain(src, i);
      ClosingStep(src, i, depth);
      TreesPassed(src, i + 1, inner, depth + more);
      BracketIsPlain(src, i + n + 1);
      ClosingStep(src, i + n + 1, depth + more);
  }

  // The brace that closes an object of matching brackets is the last of its text,
  // whatever its comments and strings hold.
  lemma ObjectCloses(src: string, i: nat, inner: seq<Tree>)
    requires AllMatch(inner) && Stands(src, i, SpellTree(Nest('{', inner)))
    ensures Closing(src, Cursor(i, Code), 0) == Some(i + |SpellAll(inner)| + 1)
  {
    hide Stands, Plain;
    var n := |SpellAll(inner)|;
    NestParts(src, i, '{', inner);
    BracketIsPlain(src, i);
    ClosingStep(src, i, 0);
    TreesPassed(src, i + 1, inner, 1);
    BracketIsPlain(src, i + n + 1);
    assert Closing(src, Cursor(i + n + 1, Code), 1) == Some(i + n + 1);
  }

  // ---- the search for the call ---------------------------------------------

  // The needle stands nowhere in these trees, outside of comments and strings.
  ghost predicate Free(src: string, i: nat, ts: seq<Tree>, needle: string)
    decreases ts
  {
    ts == [] || (TreeFree(src, i, ts[0], needle) && Free(src, i + |SpellTree(ts[0])|, ts[1..], needle))
  }

  ghost predicate TreeFree(src: string, i: nat, t: Tree, needle: string)
    decreases t
  {
    match t
    case Leaf(p) => IsHidden(p) || (!Stands(src, i, needle) && (p.Slash? ==> !Stands(src, i + 1, needle)))
    case Nest(_, inner) =>
      !Stands(src, i, needle) && Free(src, i + 1, inner, needle) && !Stands(src, i + 1 + |SpellAll(inner)|, needle)
  }

  lemma OccurrenceStep(src: string, needle: string, i: nat)
    requires i < |src| && Plain(src, Cursor(i, Code)) && !Stands(src, i, needle)
    ensures Occurrence(src, needle, Cursor(i, Code)) == Occurrence(src, needle, Cursor(i + 1, Code))
  {
  }

  lemma PieceSearched(src: string, i: nat, p: Piece, needle: string)
    requires Matches(Leaf(p)) && Stands(src, i, Spell(p)) && TreeFree(src, i, Leaf(p), needle)
    ensures Occurrence(src, needle, Cursor(i, Code)) == Occurrence(src, needle, Cursor(i + |Spell(p)|, Code))
  {
    hide Occurrence, Hidden, Reaches, Stands;
    if IsHidden(p) {
      PieceHidden(src, i, p);
      PieceReached(src, i, p);
      SearchesPassHidden(src, Cursor(i, Code), Cursor(i + |Spell(p)|, Code), needle, "", 0);
    } else {
      SignOf(src, i, p);
      OccurrenceStep(src, needle, i);
      if p.Slash? {
        OccurrenceStep(src, needle, i + 1);
      }
    }
  }

  lemma {:induction false} TreesSearched(src: string, i: nat, ts: seq<Tree>, needle: string)
    requires AllMatch(ts) && Stands(src, i, SpellAll(ts)) && Free(src, i, ts, needle)
    ensures Occurrence(src, needle, Cursor(i, Code)) == Occurrence(src, needle, Cursor(i + |SpellAll(ts)|, Code))
    decreases ts
  {
    hide Occurrence, Stands, Plain;
    if ts != [] {
      StandsParts(src, i, SpellTree(ts[0]), SpellAll(ts[1..]));
      TreeSearched(src, i, ts[0], needle);
      TreesSearched(src, i + |SpellTree(ts[0])|, ts[1..], needle);
    }
  }

  lemma {:induction false} TreeSearched(src: string, i: nat, t: Tree, needle: string)
    requires Matches(t) && Stands(src, i, SpellTree(t)) && TreeFree(src, i, t, needle)
    ensures Occurrence(src, needle, Cursor(i, Code)) == Occurrence(src, needle, Cursor(i + |SpellTree(t)|, Code))
    decreases t
  {
    hide Occurrence, Stands, Plain;
    match t
    case Leaf(p) => PieceSearched(src, i, p, needle);
    case Nest(opening, inner) =>
      NestParts(src, i, opening, inner);
      var n := |SpellAll(inner)|;
      BracketIsPlain(src, i);
      OccurrenceStep(src, needle, i);
      TreesSearched(src, i + 1, inner, needle);
      BracketIsPlain(src, i + n + 1);
      OccurrenceStep(src, needle, i + n + 1);
  }

  // The first occurrence in code is the one that stands behind such a text.
  lemma CallFound(src: string, pre: seq<Tree>, needle: string)
    requires AllMatch(pre) && Stands(src, 0, SpellAll(pre)) && Free(src, 0, pre, needle)
    requires Stands(src, |SpellAll(pre)|, needle) && needle != "" && WordStart(needle[0])
    ensures Occurrence(src, needle, Cursor(0, Code)) == Some(|SpellAll(pre)|)
  {
    TreesSearched(src, 0, pre, needle);
    StandsAt(src, |SpellAll(pre)|, needle, 0);
  }

  // ---- the search for a property -------------------------------------------

  predicate WordStart(c: char) {
    'a' <= c <= 'z' || 'A' <= c <= 'Z' || c == '_' || c == '$'
  }

  predicate WordPart(c: char) {
    WordStart(c) || '0' <= c <= '9'
  }

  predicate IsWord(s: string) {
    s != "" && WordStart(s[0]) && forall i | 0 <= i < |s| :: WordPart(s[i])
  }

  // The blanks of printed modules; there are more.
  predicate Blank(c: char) {
    c == ' ' || c == '\t' || c == '\r' || c == '\n'
  }

  lemma BlanksAndWords(c: char)
    ensures Blank(c) ==> IsSpace(c)
    ensures WordStart(c) <==> IsIdentStart(c)
    ensures WordPart(c) <==> IsIdent(c)
    ensures WordPart(c) ==> !IsSpace(c)
  {
  }

  // The property stands nowhere at the top of these trees.
  ghost predicate TopFree(src: string, i: nat, ts: seq<Tree>, property: string)
    decreases |ts|
  {
    ts == [] || (
      && (ts[0].Leaf? && !IsHidden(ts[0].piece) ==>
            !Stands(src, i, property) && (ts[0].piece.Slash? ==> !Stands(src, i + 1, property)))
      && TopFree(src, i + |SpellTree(ts[0])|, ts[1..], property))
  }

  ghost predicate SameSpots(src: string, property: string, a: Cursor, b: Cursor, depth: int) {
    forall k: nat :: Spot(src, property, a, depth, k) <==> Spot(src, property, b, depth, k)
  }

  lemma SpotStep(src: string, property: string, i: nat, depth: int) returns (depth': int)
    requires i < |src| && Plain(src, Cursor(i, Code))
      && (depth == 0 && !IsBracket(src[i]) ==> !Stands(src, i, property))
    ensures depth' == depth + if IsOpening(src[i]) then 1 else if IsBracket(src[i]) then -1 else 0
    ensures forall k: nat :: Spot(src, property, Cursor(i, Code), depth, k) <==>
      Spot(src, property, Cursor(i + 1, Code), depth', k)
  {
    hide Spot, Inside, IdentEnd, SkipSpace;
    PlainSign(src, i);
    depth' := depth + Bracket(src, Cursor(i, Code));
    forall k: nat
      ensures Spot(src, property, Cursor(i, Code), depth, k) <==> Spot(src, property, Cursor(i + 1, Code), depth', k)
    {
      SpotUnfolds(src, property, Cursor(i, Code), depth, k);
      if Spot(src, property, Cursor(i + 1, Code), depth', k) {
        SpotIsAhead(src, property, Cursor(i + 1, Code), depth', k);
      }
    }
  }

  lemma {:induction false} SpotsPassHidden(src: string, property: string, a: Cursor, b: Cursor, depth: int)
    requires Hidden(src, a, b) && !Plain(src, a)
    ensures SameSpots(src, property, a, b, depth)
    decreases |src| + 2 - a.at
  {
    hide Spot;
    var n := Next(src, a);
    if n != b {
      SpotsPassHidden(src, property, n, b, depth);
    }
    forall k: nat
      ensures Spot(src, property, a, depth, k) <==> Spot(src, property, n, depth, k)
    {
      SpotUnfolds(src, property, a, depth, k);
      if Spot(src, property, n, depth, k) {
        SpotIsAhead(src, property, n, depth, k);
      }
    }
  }

  lemma PieceSpots(src: string, i: nat, p: Piece, property: string, depth: int)
    requires Matches(Leaf(p)) && Stands(src, i, Spell(p))
    requires depth == 0 && !IsHidden(p) ==> !Stands(src, i, property) && (p.Slash? ==> !Stands(src, i + 1, property))
    ensures SameSpots(src, property, Cursor(i, Code), Cursor(i + |Spell(p)|, Code), depth)
  {
    hide Spot, Hidden, Reaches, Stands;
    if IsHidden(p) {
      PieceHidden(src, i, p);
      PieceReached(src, i, p);
      SpotsPassHidden(src, property, Cursor(i, Code), Cursor(i + |Spell(p)|, Code), depth);
    } else {
      SignOf(src, i, p);
      var d := SpotStep(src, property, i, depth);
      if p.Slash? {
        d := SpotStep(src, property, i + 1, depth);
      }
    }
  }

  lemma {:induction false} TreesSpots(src: string, i: nat, ts: seq<Tree>, property: string, depth: int)
    requires AllMatch(ts) && Stands(src, i, SpellAll(ts)) && depth >= 0
      && (depth == 0 ==> TopFree(src, i, ts, property))
    ensures SameSpots(src, property, Cursor(i, Code), Cursor(i + |SpellAll(ts)|, Code), depth)
    decreases ts
  {
    hide Spot, Stands, Plain;
    if ts != [] {
      StandsParts(src, i, SpellTree(ts[0]), SpellAll(ts[1..]));
      TreeSpots(src, i, ts[0], property, depth);
      TreesSpots(src, i + |SpellTree(ts[0])|, ts[1..], property, depth);
    }
  }

  lemma {:induction false} TreeSpots(src: string, i: nat, t: Tree, property: string, depth: int)
    requires Matches(t) && Stands(src, i, SpellTree(t)) && depth >= 0
    requires depth == 0 ==> TopFree(src, i, [t], property)
    ensures SameSpots(src, property, Cursor(i, Code), Cursor(i + |SpellTree(t)|, Code), depth)
    decreases t
  {
    hide Spot, Stands, Plain;
    match t
    case Leaf(p) => PieceSpots(src, i, p, property, depth);
    case Nest(opening, inner) =>
      NestParts(src, i, opening, inner);
      var n := |SpellAll(inner)|;
      BracketIsPlain(src, i);
      var within := SpotStep(src, property, i, depth);
      TreesSpots(src, i + 1, inner, property, within);
      BracketIsPlain(src, i + n + 1);
      var behind := SpotStep(src, property, i + n + 1, within);
      assert behind == depth;
  }

  // A property that stands nowhere at the top of an object is not found.
  lemma PropertyMissing(ts: seq<Tree>, property: string)
    requires AllMatch(ts) && TopFree(SpellAll(ts), 0, ts, property)
    ensures Colon(SpellAll(ts), property, Cursor(0, Code), 0) == None
  {
    hide Spot, Colon;
    var body := SpellAll(ts);
    TreesSpots(body, 0, ts, property, 0);
    ColonMeans(body, property);
    forall k: nat
      ensures !Spot(body, property, Cursor(|body|, Code), 0, k)
    {
      NoSpotBehind(body, property, k);
    }
  }

  lemma NoSpotBehind(body: string, property: string, k: nat)
    ensures !Spot(body, property, Cursor(|body|, Code), 0, k)
  {
  }
}
