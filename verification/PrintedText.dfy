// What the lexer reads in a text that is spelled out of comments, quoted strings
// and plain characters: by the text alone.
module PrintedText {
  import opened Prelude
  import opened Scanner
  import U = UiPatcher

  // One character of a quoted string, as it is or behind a backslash.
  datatype Mark = Bare(c: char) | Escaped(c: char)

  // `Slash` is a slash that begins no comment, with the character behind it.
  datatype Piece =
    | LineNote(text: string)
    | BlockNote(text: string)
    | Quoted(quote: char, marks: seq<Mark>)
    | Sign(c: char)
    | Slash(c: char)

  function SpellMarks(marks: seq<Mark>): string {
    if marks == [] then ""
    else SpellMark(marks[0]) + SpellMarks(marks[1..])
  }

  function Spell(p: Piece): string {
    match p
    case LineNote(text) => "//" + text + "\n"
    case BlockNote(text) => "/*" + text + "*/"
    case Quoted(quote, marks) => [quote] + SpellMarks(marks) + [quote]
    case Sign(c) => [c]
    case Slash(c) => ['/', c]
  }

  predicate IsQuote(c: char) {
    c == '\'' || c == '"' || c == '`'
  }

  ghost predicate WellSpelled(p: Piece) {
    match p
    case LineNote(text) => forall i | 0 <= i < |text| :: text[i] != '\n'
    case BlockNote(text) => forall i | 0 <= i < |text| - 1 :: !(text[i] == '*' && text[i + 1] == '/')
    case Quoted(quote, marks) => IsQuote(quote) && forall m | m in marks :: MarkFits(m, quote)
    case Sign(c) => !IsQuote(c) && c != '/'
    case Slash(c) => !IsQuote(c) && c != '/' && c != '*'
  }

  predicate Stands(src: string, i: nat, text: string) {
    i + |text| <= |src| && src[i..i + |text|] == text
  }

  lemma StandsAt(src: string, i: nat, text: string, k: nat)
    requires Stands(src, i, text) && k < |text|
    ensures i + k < |src| && src[i + k] == text[k]
  {
  }

  lemma StandsParts(src: string, i: nat, a: string, b: string)
    ensures Stands(src, i, a + b) <==> Stands(src, i, a) && Stands(src, i + |a|, b)
  {
    if Stands(src, i, a + b) {
      assert a == (a + b)[..|a|] && b == (a + b)[|a|..];
      assert src[i..i + |a|] == src[i..i + |a + b|][..|a|];
      assert src[i + |a|..i + |a + b|] == src[i..i + |a + b|][|a|..];
    }
    if Stands(src, i, a) && Stands(src, i + |a|, b) {
      assert src[i..i + |a + b|] == src[i..i + |a|] + src[i + |a|..i + |a| + |b|];
    }
  }

  // ---- what is hidden ------------------------------------------------------

  // The lexer goes from `a` to `b`, and is in code nowhere between.
  ghost predicate Hidden(src: string, a: Cursor, b: Cursor)
    decreases |src| + 2 - a.at
  {
    a.at < |src| && (Next(src, a) == b || (Next(src, a).state != Code && Hidden(src, Next(src, a), b)))
  }

  predicate IsHidden(p: Piece) {
    p.LineNote? || p.BlockNote? || p.Quoted?
  }

  lemma {:induction false} LineHidden(src: string, k: nat, end: nat)
    requires k <= end < |src| && src[end] == '\n' && forall j | k <= j < end :: src[j] != '\n'
    ensures Hidden(src, Cursor(k, LineComment), Cursor(end + 1, Code))
    decreases end - k
  {
    if k < end {
      LineHidden(src, k + 1, end);
    }
  }

  lemma {:induction false} BlockHidden(src: string, k: nat, end: nat)
    requires k <= end && end + 1 < |src| && src[end] == '*' && src[end + 1] == '/'
    requires forall j | k <= j < end :: !(src[j] == '*' && src[j + 1] == '/')
    ensures Hidden(src, Cursor(k, BlockComment), Cursor(end + 2, Code))
    decreases end - k
  {
    if k < end {
      BlockHidden(src, k + 1, end);
    }
  }

  function QuoteState(quote: char): ScanState {
    if quote == '\'' then Single else if quote == '"' then Double else Template
  }

  lemma QuotedStep(src: string, k: nat, quote: char, end: Cursor)
    requires IsQuote(quote) && k < |src|
    ensures var state := QuoteState(quote);
            && (src[k] == quote ==> Hidden(src, Cursor(k, state), Cursor(k + 1, Code)))
            && (src[k] == '\\' && Hidden(src, Cursor(k + 2, state), end) ==> Hidden(src, Cursor(k, state), end))
            && (src[k] != quote && src[k] != '\\' && Hidden(src, Cursor(k + 1, state), end) ==> Hidden(src, Cursor(k, state), end))
  {
  }

  function SpellMark(m: Mark): string {
    match m case Bare(c) => [c] case Escaped(c) => ['\\', c]
  }

  predicate MarkFits(m: Mark, quote: char) {
    m.Bare? ==> m.c != quote && m.c != '\\'
  }

  lemma {:induction false} MarksHidden(src: string, k: nat, quote: char, marks: seq<Mark>)
    requires IsQuote(quote) && (forall m | m in marks :: MarkFits(m, quote))
      && Stands(src, k, SpellMarks(marks) + [quote])
    ensures Hidden(src, Cursor(k, QuoteState(quote)), Cursor(k + |SpellMarks(marks)| + 1, Code))
    decreases marks
  {
    hide Hidden, QuoteState, Stands;
    StandsParts(src, k, SpellMarks(marks), [quote]);
    if marks == [] {
      StandsAt(src, k, [quote], 0);
      QuotedStep(src, k, quote, Cursor(k + 1, Code));
    } else {
      var text, rest := SpellMark(marks[0]), marks[1..];
      StandsParts(src, k, text, SpellMarks(rest));
      StandsParts(src, k + |text|, SpellMarks(rest), [quote]);
      StandsAt(src, k, text, 0);
      assert marks[0] in marks && forall n | n in rest :: n in marks;
      MarksHidden(src, k + |text|, quote, rest);
      QuotedStep(src, k, quote, Cursor(k + |SpellMarks(marks)| + 1, Code));
    }
  }

  lemma OpenerHides(src: string, i: nat, end: Cursor)
    requires i < |src|
    ensures src[i] == '/' && Is(src, i + 1, '/') && Hidden(src, Cursor(i + 2, LineComment), end) ==>
      Hidden(src, Cursor(i, Code), end)
    ensures src[i] == '/' && Is(src, i + 1, '*') && Hidden(src, Cursor(i + 2, BlockComment), end) ==>
      Hidden(src, Cursor(i, Code), end)
    ensures IsQuote(src[i]) && Hidden(src, Cursor(i + 1, QuoteState(src[i])), end) ==> Hidden(src, Cursor(i, Code), end)
  {
  }

  lemma LinePiece(src: string, i: nat, text: string)
    requires WellSpelled(LineNote(text)) && Stands(src, i, Spell(LineNote(text)))
    ensures Hidden(src, Cursor(i, Code), Cursor(i + |text| + 3, Code))
  {
    hide Hidden;
    var p := Spell(LineNote(text));
    assert p[0] == '/' && p[1] == '/' && p[|text| + 2] == '\n' && forall j | 0 <= j < |text| :: p[2 + j] == text[j];
    var end := i + |text| + 2;
    assert src[i] == p[0] && src[i + 1] == p[1] && src[end] == p[|text| + 2];
    forall j | i + 2 <= j < end
      ensures src[j] != '\n'
    {
      StandsAt(src, i, p, j - i);
      assert p[j - i] == text[j - i - 2];
    }
    LineHidden(src, i + 2, end);
    OpenerHides(src, i, Cursor(end + 1, Code));
  }

  lemma BlockPiece(src: string, i: nat, text: string)
    requires WellSpelled(BlockNote(text)) && Stands(src, i, Spell(BlockNote(text)))
    ensures Hidden(src, Cursor(i, Code), Cursor(i + |text| + 4, Code))
  {
    hide Hidden;
    var p := Spell(BlockNote(text));
    var end := i + |text| + 2;
    assert p[0] == '/' && p[1] == '*' && p[|text| + 2] == '*' && p[|text| + 3] == '/';
    assert forall j | 0 <= j < |text| :: p[2 + j] == text[j];
    assert src[i] == p[0] && src[i + 1] == p[1] && src[end] == p[|text| + 2] && src[end + 1] == p[|text| + 3];
    forall j | i + 2 <= j < end
      ensures !(src[j] == '*' && src[j + 1] == '/')
    {
      StandsAt(src, i, p, j - i);
      StandsAt(src, i, p, j - i + 1);
      assert p[j - i] == text[j - i - 2];
    }
    BlockHidden(src, i + 2, end);
    OpenerHides(src, i, Cursor(end + 2, Code));
  }

  lemma QuotedPiece(src: string, i: nat, quote: char, marks: seq<Mark>)
    requires WellSpelled(Quoted(quote, marks)) && Stands(src, i, Spell(Quoted(quote, marks)))
    ensures Hidden(src, Cursor(i, Code), Cursor(i + |SpellMarks(marks)| + 2, Code))
  {
    hide Hidden;
    assert Spell(Quoted(quote, marks)) == [quote] + (SpellMarks(marks) + [quote]);
    StandsParts(src, i, [quote], SpellMarks(marks) + [quote]);
    StandsAt(src, i, [quote], 0);
    MarksHidden(src, i + 1, quote, marks);
    OpenerHides(src, i, Cursor(i + |SpellMarks(marks)| + 2, Code));
  }

  // Comments and quoted strings are read to their end, and nothing in them is code.
  lemma PieceHidden(src: string, i: nat, p: Piece)
    requires WellSpelled(p) && IsHidden(p) && Stands(src, i, Spell(p))
    ensures Hidden(src, Cursor(i, Code), Cursor(i + |Spell(p)|, Code))
  {
    hide Hidden, WellSpelled, Stands;
    match p
    case LineNote(text) => LinePiece(src, i, text);
    case BlockNote(text) => BlockPiece(src, i, text);
    case Quoted(quote, marks) => QuotedPiece(src, i, quote, marks);
    case _ =>
  }

  // No position within such a piece is reached in code.
  lemma {:induction false} HiddenMeans(src: string, a: Cursor, b: Cursor)
    requires Hidden(src, a, b)
    ensures a.at < b.at && Reaches(src, a, b)
    ensures forall k: nat :: a.at < k < b.at ==> !Reaches(src, a, Cursor(k, Code))
    decreases |src| + 2 - a.at
  {
    var n := Next(src, a);
    ReachesGrows(src, b);
    if n != b {
      HiddenMeans(src, n, b);
      ReachesGrows(src, Next(src, n));
    }
    forall k: nat | a.at < k < b.at
      ensures !Reaches(src, a, Cursor(k, Code))
    {
      assert Reaches(src, a, Cursor(k, Code)) ==> Reaches(src, n, Cursor(k, Code));
      ReachesGrows(src, n);
    }
  }

  // The lexer over one piece: it is in code at the piece's beginning and behind it,
  // and between these only at the characters that are plain.
  lemma PieceReached(src: string, i: nat, p: Piece)
    requires WellSpelled(p) && Stands(src, i, Spell(p))
    ensures Reaches(src, Cursor(i, Code), Cursor(i + |Spell(p)|, Code))
    ensures IsHidden(p) ==> !Plain(src, Cursor(i, Code))
    ensures IsHidden(p) ==> forall k: nat :: i < k < i + |Spell(p)| ==> !Reaches(src, Cursor(i, Code), Cursor(k, Code))
    ensures !IsHidden(p) ==> forall k: nat :: i <= k < i + |Spell(p)| ==> Plain(src, Cursor(k, Code))
  {
    forall k | 0 <= k < |Spell(p)|
      ensures src[i + k] == Spell(p)[k]
    {
      StandsAt(src, i, Spell(p), k);
    }
    if IsHidden(p) {
      PieceHidden(src, i, p);
      HiddenMeans(src, Cursor(i, Code), Cursor(i + |Spell(p)|, Code));
    } else if p.Slash? {
      assert Spell(p)[1] == p.c;
      assert Next(src, Cursor(i, Code)) == Cursor(i + 1, Code) && Next(src, Cursor(i + 1, Code)) == Cursor(i + 2, Code);
    } else {
      assert Next(src, Cursor(i, Code)) == Cursor(i + 1, Code);
    }
  }

  // ---- the searches go past what is hidden ---------------------------------

  lemma {:induction false} SearchesPassHidden(src: string, a: Cursor, b: Cursor, needle: string, property: string,
                                              depth: int)
    requires Hidden(src, a, b) && !Plain(src, a)
    ensures Occurrence(src, needle, a) == Occurrence(src, needle, b)
    ensures Closing(src, a, depth) == Closing(src, b, depth)
    ensures Colon(src, property, a, depth) == Colon(src, property, b, depth)
    decreases |src| + 2 - a.at
  {
    if Next(src, a) != b {
      SearchesPassHidden(src, Next(src, a), b, needle, property, depth);
    }
  }

  function SpellPieces(pieces: seq<Piece>): string {
    if pieces == [] then "" else Spell(pieces[0]) + SpellPieces(pieces[1..])
  }

  // Where only comments and strings come first, the searches find behind them what
  // they find in the text itself.
  lemma {:induction false} SearchesPassPieces(src: string, i: nat, pieces: seq<Piece>, needle: string,
                                              property: string, depth: int)
    requires Stands(src, i, SpellPieces(pieces)) && forall p | p in pieces :: IsHidden(p) && WellSpelled(p)
    ensures var end := i + |SpellPieces(pieces)|;
            && Occurrence(src, needle, Cursor(i, Code)) == Occurrence(src, needle, Cursor(end, Code))
            && Closing(src, Cursor(i, Code), depth) == Closing(src, Cursor(end, Code), depth)
            && Colon(src, property, Cursor(i, Code), depth) == Colon(src, property, Cursor(end, Code), depth)
    decreases |pieces|
  {
    hide Occurrence, Closing, Colon, Spell, WellSpelled, Stands, Hidden, Reaches, Plain;
    if pieces != [] {
      var p, rest := pieces[0], pieces[1..];
      StandsParts(src, i, Spell(p), SpellPieces(rest));
      PieceHidden(src, i, p);
      PieceReached(src, i, p);
      SearchesPassHidden(src, Cursor(i, Code), Cursor(i + |Spell(p)|, Code), needle, property, depth);
      assert forall q | q in rest :: q in pieces;
      SearchesPassPieces(src, i + |Spell(p)|, rest, needle, property, depth);
    }
  }

  lemma NeedleShifts(src: string, src': string, needle: string, i: nat, i': nat)
    requires i <= |src| && i' <= |src'| && src[i..] == src'[i'..]
    ensures StartsWith(src, needle, i) <==> StartsWith(src', needle, i')
  {
    assert |src| - i == |src'| - i';
    if i + |needle| <= |src| {
      assert src[i..i + |needle|] == src[i..][..|needle|] == src'[i'..i' + |needle|];
    }
  }

  lemma PlainShifts(src: string, src': string, c: Cursor, at': nat)
    requires c.at < |src| && at' <= |src'| && src[c.at..] == src'[at'..]
    ensures Plain(src, c) <==> Plain(src', Cursor(at', c.state))
  {
    assert |src| - c.at == |src'| - at';
    assert src[c.at] == src[c.at..][0] && src'[at'] == src'[at'..][0];
    if c.at + 1 < |src| {
      assert src[c.at + 1] == src[c.at..][1] && src'[at' + 1] == src'[at'..][1];
    }
  }

  lemma {:induction false} OccurrenceShifts(src: string, src': string, needle: string, c: Cursor, at': nat)
    requires c.at <= |src| && at' <= |src'| && src[c.at..] == src'[at'..] && needle != ""
    ensures var r, r' := Occurrence(src, needle, c), Occurrence(src', needle, Cursor(at', c.state));
            if r.Some? then r' == Some(r.value - c.at + at') else r'.None?
    decreases |src| - c.at
  {
    hide Next, Plain, StartsWith;
    assert |src| - c.at == |src'| - at';
    if c.at < |src| {
      U.NextShifts(src, src', c, at');
      PlainShifts(src, src', c, at');
      NeedleShifts(src, src', needle, c.at, at');
      var n := Next(src, c);
      if n.at <= |src| {
        assert src[n.at..] == src[c.at..][n.at - c.at..] == src'[at'..][n.at - c.at..] == src'[n.at - c.at + at'..];
        OccurrenceShifts(src, src', needle, n, n.at - c.at + at');
      }
    }
  }

  lemma Behind(a: string, b: string)
    ensures Stands(a + b, 0, a) && (a + b)[|a|..] == b == b[0..]
  {
  }

  lemma ShiftedSearches(whole: string, n: nat, src: string, needle: string, depth: int)
    requires n <= |whole| && whole[n..] == src && needle != ""
    ensures var r := Occurrence(src, needle, Cursor(0, Code));
            Occurrence(whole, needle, Cursor(n, Code)) == if r.Some? then Some(r.value + n) else None
    ensures var r := Closing(src, Cursor(0, Code), depth);
            Closing(whole, Cursor(n, Code), depth) == if r.Some? then Some(r.value + n) else None
  {
    hide Occurrence, Closing;
    assert src[0..] == src;
    OccurrenceShifts(src, whole, needle, Cursor(0, Code), n);
    U.ClosingShifts(src, whole, Cursor(0, Code), n, depth);
  }

  // So what is found in a module behind comments and strings is what is found in the
  // module itself, shifted; and nothing exactly when nothing is found there.
  lemma SearchesBehind(pieces: seq<Piece>, src: string, needle: string, depth: int)
    requires needle != "" && forall p | p in pieces :: IsHidden(p) && WellSpelled(p)
    ensures var n, r := |SpellPieces(pieces)|, Occurrence(src, needle, Cursor(0, Code));
            Occurrence(SpellPieces(pieces) + src, needle, Cursor(0, Code))
              == if r.Some? then Some(r.value + n) else None
    ensures var n, r := |SpellPieces(pieces)|, Closing(src, Cursor(0, Code), depth);
            Closing(SpellPieces(pieces) + src, Cursor(0, Code), depth) == if r.Some? then Some(r.value + n) else None
  {
    hide *;
    var whole, n := SpellPieces(pieces) + src, |SpellPieces(pieces)|;
    Behind(SpellPieces(pieces), src);
    SearchesPassPieces(whole, 0, pieces, needle, "", depth);
    ShiftedSearches(whole, n, src, needle, depth);
  }
}
