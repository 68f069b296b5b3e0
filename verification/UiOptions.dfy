// Patching the UI package leaves every other option of the object as it reads.
module UiOptions {
  import opened Prelude
  import opened Scanner
  import opened UiPatcher

  // What the setup command reads for `property` in an options object's body.
  function Reading(body: string, property: string): Option<string> {
    var colon := Colon(body, property, Cursor(0, Code), 0);
    if colon.None? then None else ValueAt(body, colon.value)
  }

  function ValueAt(body: string, colon: nat): Option<string>
    requires colon < |body|
  {
    var l := LiteralAt(body, colon + 1);
    if l.None? then None else Some(l.value.value)
  }

  // ---- equal text behind some point ----------------------------------------

  ghost predicate Tail(a: string, i: nat, b: string, i': nat) {
    i <= |a| && i' <= |b| && a[i..] == b[i'..]
  }

  lemma TailLength(a: string, i: nat, b: string, i': nat)
    requires Tail(a, i, b, i')
    ensures i <= |a| && i' <= |b| && |a| - i == |b| - i'
  {
  }

  lemma SuffixAt(a: string, b: string, i: nat, i': nat, j: nat)
    requires i <= j <= |a| && Tail(a, i, b, i')
    ensures j - i + i' <= |b| && Tail(a, j, b, j - i + i')
    ensures j < |a| ==> a[j] == b[j - i + i']
  {
  }

  lemma SpaceShifts(a: string, b: string, i: nat, i': nat)
    requires Tail(a, i, b, i')
    ensures SkipSpace(b, i') == SkipSpace(a, i) - i + i'
  {
  }

  lemma IdentShifts(a: string, b: string, i: nat, i': nat)
    requires Tail(a, i, b, i')
    ensures IdentEnd(b, i') == IdentEnd(a, i) - i + i'
  {
  }

  lemma NamedShifts(a: string, b: string, property: string, i: nat, i': nat, end: nat)
    requires i <= end <= |a| && Tail(a, i, b, i')
    ensures end - i + i' <= |b| && Named(b, property, i', end - i + i') == Named(a, property, i, end)
  {
  }

  lemma StepShifts(a: string, b: string, c: Cursor, at': nat)
    requires c.at < |a| && Tail(a, c.at, b, at')
    ensures at' < |b| && a[c.at] == b[at']
    ensures Next(b, Cursor(at', c.state)) == Cursor(Next(a, c).at - c.at + at', Next(a, c).state)
    ensures Bracket(b, Cursor(at', c.state)) == Bracket(a, c) && Plain(b, Cursor(at', c.state)) == Plain(a, c)
  {
  }

  lemma WordShifts(a: string, b: string, property: string, i: nat, i': nat)
    requires i < |a| && i' < |b| && Tail(a, i, b, i')
    ensures var end := IdentEnd(a, i + 1);
            var end' := end - i + i';
            && IdentEnd(b, i' + 1) == end' && end' <= |b| && Tail(a, end, b, end')
            && Named(b, property, i', end') == Named(a, property, i, end)
            && SkipSpace(b, end') == SkipSpace(a, end) - i + i'
  {
    hide IdentEnd, SkipSpace, Named;
    SuffixAt(a, b, i, i', i + 1);
    IdentShifts(a, b, i + 1, i' + 1);
    WordEnd(a, i);
    var end := IdentEnd(a, i + 1);
    NamedShifts(a, b, property, i, i', end);
    SuffixAt(a, b, i, i', end);
    SpaceShifts(a, b, end, end - i + i');
  }

  lemma WordEnd(a: string, i: nat)
    requires i < |a|
    ensures i < IdentEnd(a, i + 1) <= |a|
  {
  }

  // One iteration of the search: an identifier, anything else, or the end.
  lemma ColonStep(body: string, property: string, c: Cursor, depth: int)
    ensures c.at >= |body| ==> Colon(body, property, c, depth).None?
    ensures c.at < |body| && Plain(body, c) && depth == 0 && IsIdentStart(body[c.at]) ==>
      var end := IdentEnd(body, c.at + 1);
      c.at < end <= |body| && Colon(body, property, c, depth)
        == if Named(body, property, c.at, end) then Some(SkipSpace(body, end)) else Colon(body, property, Cursor(end, Code), depth)
    ensures c.at < |body| && !(Plain(body, c) && depth == 0 && IsIdentStart(body[c.at])) ==>
      Colon(body, property, c, depth) == Colon(body, property, Next(body, c), depth + Bracket(body, c))
  {
  }

  function Shift(r: Option<nat>, from: nat, to: nat): (r': Option<int>)
    ensures r.None? ==> r'.None?
  {
    if r.None? then None else Some(r.value - from + to)
  }

  lemma {:induction false} ColonShifts(a: string, b: string, property: string, c: Cursor, at': nat, depth: int)
    requires Tail(a, c.at, b, at')
    ensures Shift(Colon(a, property, c, depth), c.at, at') == Colon(b, property, Cursor(at', c.state), depth)
    decreases |a| - c.at
  {
    hide Next, Bracket, Plain, Named, IdentEnd, SkipSpace, IsIdentStart, Tail, Colon;
    TailLength(a, c.at, b, at');
    ColonStep(a, property, c, depth);
    ColonStep(b, property, Cursor(at', c.state), depth);
    if c.at < |a| {
      StepShifts(a, b, c, at');
      if Plain(a, c) && depth == 0 && IsIdentStart(a[c.at]) {
        WordShifts(a, b, property, c.at, at');
        var end := IdentEnd(a, c.at + 1);
        ColonShifts(a, b, property, Cursor(end, Code), end - c.at + at', depth);
      } else {
        var n := Next(a, c);
        NextMoves(a, c);
        if n.at <= |a| {
          SuffixAt(a, b, c.at, at', n.at);
          ColonShifts(a, b, property, n, n.at - c.at + at', depth + Bracket(a, c));
        } else {
          ColonStep(a, property, n, depth + Bracket(a, c));
          ColonStep(b, property, Cursor(n.at - c.at + at', n.state), depth + Bracket(a, c));
        }
      }
    }
  }

  lemma NextMoves(a: string, c: Cursor)
    requires c.at < |a|
    ensures c.at < Next(a, c).at
  {
  }

  lemma {:induction false} UnquotedShifts(a: string, b: string, i: nat, i': nat, quote: char)
    requires Tail(a, i, b, i')
    ensures var r, r' := Unquoted(a, i, quote), Unquoted(b, i', quote);
            if r.Some? then r'.Some? && r'.value.0 == r.value.0 else r'.None?
    decreases |a| - i
  {
    assert |a| - i == |b| - i';
    if i < |a| {
      SuffixAt(a, b, i, i', i);
      SuffixAt(a, b, i, i', i + 1);
      if a[i] == '\\' && i + 1 < |a| {
        SuffixAt(a, b, i, i', i + 2);
        UnquotedShifts(a, b, i + 2, i' + 2, quote);
      } else if a[i] != '\\' && a[i] != quote {
        UnquotedShifts(a, b, i + 1, i' + 1, quote);
      }
    }
  }

  lemma SpaceEnds(a: string, i: nat)
    requires i <= |a|
    ensures i <= SkipSpace(a, i) <= |a|
  {
  }

  // The value of a literal at a character that is one of the quotes.
  function QuotedValue(body: string, cursor: nat): Option<string> {
    if cursor >= |body| || (body[cursor] != '\'' && body[cursor] != '"') then None
    else var r := Unquoted(body, cursor + 1, body[cursor]); if r.None? then None else Some(r.value.0)
  }

  lemma ValueIsQuoted(body: string, colon: nat)
    requires colon < |body|
    ensures ValueAt(body, colon) == QuotedValue(body, SkipSpace(body, colon + 1))
  {
  }

  lemma QuotedShifts(a: string, b: string, i: nat, i': nat)
    requires Tail(a, i, b, i')
    ensures QuotedValue(a, i) == QuotedValue(b, i')
  {
    hide Unquoted, Tail;
    TailLength(a, i, b, i');
    if i < |a| {
      SuffixAt(a, b, i, i', i + 1);
      SuffixAt(a, b, i, i', i);
      UnquotedShifts(a, b, i + 1, i' + 1, a[i]);
    }
  }

  lemma ValueShifts(a: string, b: string, colon: nat, colon': nat)
    requires colon < |a| && colon' < |b| && Tail(a, colon, b, colon')
    ensures ValueAt(a, colon) == ValueAt(b, colon')
  {
    hide QuotedValue, SkipSpace, Tail, ValueAt;
    SuffixAt(a, b, colon, colon', colon + 1);
    SpaceShifts(a, b, colon + 1, colon' + 1);
    SpaceEnds(a, colon + 1);
    SuffixAt(a, b, colon, colon', SkipSpace(a, colon + 1));
    ValueIsQuoted(a, colon);
    ValueIsQuoted(b, colon');
    QuotedShifts(a, b, SkipSpace(a, colon + 1), SkipSpace(b, colon' + 1));
  }

  // ---- literals that the search passes over --------------------------------

  lemma {:induction false} ColonSkipsLiteral(body: string, property: string, i: nat, quote: char, depth: int)
    requires quote == '\'' || quote == '"'
    ensures var r := Unquoted(body, i, quote);
            Colon(body, property, Cursor(i, StringState(quote)), depth)
            == if r.Some? then Colon(body, property, Cursor(r.value.1, Code), depth) else None
    decreases |body| + 1 - i
  {
    if i < |body| {
      if body[i] == '\\' {
        if i + 1 < |body| {
          ColonSkipsLiteral(body, property, i + 2, quote, depth);
        }
      } else if body[i] != quote {
        ColonSkipsLiteral(body, property, i + 1, quote, depth);
      }
    }
  }

  lemma ColonSkipsQuoted(body: string, property: string, at: nat, quote: char, depth: int)
    requires (quote == '\'' || quote == '"') && Is(body, at, quote)
    ensures var r := Unquoted(body, at + 1, quote);
            Colon(body, property, Cursor(at, Code), depth)
              == if r.Some? then Colon(body, property, Cursor(r.value.1, Code), depth) else None
  {
    ColonSkipsLiteral(body, property, at + 1, quote, depth);
    assert Next(body, Cursor(at, Code)) == Cursor(at + 1, StringState(quote));
  }

  // The search passes a colon and the space behind it.
  lemma ColonSkipsColon(body: string, property: string, colon: nat)
    requires Is(body, colon, ':')
    ensures Colon(body, property, Cursor(colon, Code), 0) ==
      Colon(body, property, Cursor(SkipSpace(body, colon + 1), Code), 0)
  {
    ColonSkipsSpace(body, property, colon + 1, SkipSpace(body, colon + 1));
  }

  // ---- the search for another property -------------------------------------

  // The search for `property` stops before `colon`, or gets there.
  ghost predicate StopsOrPasses(body: string, property: string, c: Cursor, depth: int, colon: nat, stop: Option<nat>) {
    if stop.Some? then Colon(body, property, c, depth) == stop && stop.value < colon
    else Colon(body, property, c, depth) == Colon(body, property, Cursor(colon, Code), 0)
  }

  // Where the search for `known` finds its colon, the search for another property
  // has stopped before, or comes by in code at the top level; and it does so in
  // every text that is the same up to there.
  lemma {:induction false} ColonPasses(body: string, body': string, known: string, property: string, c: Cursor,
                                       depth: int) returns (stop: Option<nat>)
    requires Colon(body, known, c, depth).Some? && property != known
    requires Same(body, body', Colon(body, known, c, depth).value + 1)
    ensures var colon := Colon(body, known, c, depth).value;
            && StopsOrPasses(body, property, c, depth, colon, stop)
            && StopsOrPasses(body', property, c, depth, colon, stop)
            && (stop.Some? ==> Colon(body, known, Cursor(stop.value, Code), 0) == Some(colon))
    decreases |body| + 2 - c.at
  {
    hide Next, Plain, Bracket, SkipSpace, IdentEnd, Brace, IsIdentStart, IsIdent, IsSpace, Is, Opener, Named, Colon;
    var colon := Colon(body, known, c, depth).value;
    ColonStep(body, known, c, depth);
    ColonStep(body, property, c, depth);
    ColonStep(body', property, c, depth);
    ColonLies(body, known, c, depth);
    NextAgrees(body, body', c, colon + 1);
    assert body[c.at] == body'[c.at];
    if Plain(body, c) && depth == 0 && IsIdentStart(body[c.at]) {
      ColonBound(body, known, c, depth);
      PropertyAgrees(body, body', property, c.at, colon + 1);
      var end := IdentEnd(body, c.at + 1);
      if Named(body, known, c.at, end) {
        OneName(body, known, property, c.at, end);
        ColonGoesOn(body, property, end);
        ColonGoesOn(body', property, end);
        stop := None;
      } else if Named(body, property, c.at, end) {
        stop := Some(SkipSpace(body, end));
        ColonGoesOn(body, known, end);
        ColonLies(body, known, Cursor(stop.value, Code), 0);
      } else {
        stop := ColonPasses(body, body', known, property, Cursor(end, Code), 0);
      }
    } else {
      stop := ColonPasses(body, body', known, property, Next(body, c), depth + Bracket(body, c));
    }
  }

  lemma ColonLies(body: string, property: string, c: Cursor, depth: int)
    requires Colon(body, property, c, depth).Some?
    ensures c.at < Colon(body, property, c, depth).value < |body| && body[Colon(body, property, c, depth).value] == ':'
  {
  }

  lemma OneName(body: string, known: string, property: string, i: nat, end: nat)
    requires i <= end <= |body| && Named(body, known, i, end) && property != known
    ensures !Named(body, property, i, end)
  {
  }

  lemma ColonGoesOn(body: string, property: string, end: nat)
    requires end <= |body|
    ensures Colon(body, property, Cursor(end, Code), 0) == Colon(body, property, Cursor(SkipSpace(body, end), Code), 0)
  {
    ColonSkipsSpace(body, property, end, SkipSpace(body, end));
  }

  // A value before the colon of another property is read alike.
  lemma ValueBefore(body: string, body': string, known: string, at: nat, colon: nat)
    requires Is(body, at, ':') && Colon(body, known, Cursor(at, Code), 0) == Some(colon) && Same(body, body', colon + 1)
    ensures at < |body'| && ValueAt(body', at) == ValueAt(body, at)
  {
    hide Colon, Unquoted, SkipSpace, IsSpace;
    ColonLies(body, known, Cursor(at, Code), 0);
    ColonSkipsColon(body, known, at);
    var cursor := SkipSpace(body, at + 1);
    ColonLies(body, known, Cursor(cursor, Code), 0);
    SkipSpaceAgrees(body, body', at + 1, colon + 1);
    if body[cursor] == '\'' || body[cursor] == '"' {
      ColonSkipsQuoted(body, known, cursor, body[cursor], 0);
      var r := Unquoted(body, cursor + 1, body[cursor]);
      ColonLies(body, known, Cursor(r.value.1, Code), 0);
      UnquotedAgrees(body, body', cursor + 1, body[cursor], colon + 1);
    }
  }

  lemma {:induction false} UnquotedAgrees(body: string, body': string, i: nat, quote: char, n: nat)
    requires Unquoted(body, i, quote).Some? && Unquoted(body, i, quote).value.1 <= n && Same(body, body', n)
    ensures Unquoted(body', i, quote) == Unquoted(body, i, quote)
    decreases |body| - i
  {
    if body[i] == '\\' {
      UnquotedAgrees(body, body', i + 2, quote, n);
    } else if body[i] != quote {
      UnquotedAgrees(body, body', i + 1, quote, n);
    }
  }

  // ---- the edits -----------------------------------------------------------

  lemma ShiftedReading(body: string, body': string, property: string, i: nat, i': nat)
    requires Tail(body, i, body', i')
    requires Colon(body, property, Cursor(0, Code), 0) == Colon(body, property, Cursor(i, Code), 0)
    requires Colon(body', property, Cursor(0, Code), 0) == Colon(body', property, Cursor(i', Code), 0)
    ensures Reading(body', property) == Reading(body, property)
  {
    hide Colon, ValueAt, Tail;
    ColonShifts(body, body', property, Cursor(i, Code), i', 0);
    var r := Colon(body, property, Cursor(i, Code), 0);
    if r.Some? {
      ColonLies(body, property, Cursor(i, Code), 0);
      ColonLies(body', property, Cursor(i', Code), 0);
      SuffixAt(body, body', i, i', r.value);
      ValueShifts(body, body', r.value, r.value - i + i');
    }
  }

  // Another literal in the place of the value of `known`.
  lemma ReplacedKeeps(body: string, body': string, known: string, property: string, colon: nat, l: Literal, end': nat)
    requires Colon(body, known, Cursor(0, Code), 0) == Some(colon) && LiteralAt(body, colon + 1) == Some(l)
      && property != known
    requires Quoted(body', l.start, l.quote, end') && Same(body, body', l.start + 1) && Tail(body, l.end, body', end')
    ensures Reading(body', property) == Reading(body, property)
  {
    hide Colon, ValueAt, LiteralAt, Unquoted, Tail, SkipSpace, IsSpace;
    LiteralStart(body, colon);
    ColonLies(body, known, Cursor(0, Code), 0);
    var stop := ColonPasses(body, body', known, property, Cursor(0, Code), 0);
    if stop.Some? {
      ColonLies(body, property, Cursor(0, Code), 0);
      ValueBefore(body, body', known, stop.value, colon);
    } else {
      ColonSkipsColon(body, property, colon);
      ColonSkipsColon(body', property, colon);
      SkipSpaceAgrees(body, body', colon + 1, l.start + 1);
      ColonSkipsQuoted(body, property, l.start, l.quote, 0);
      ColonSkipsQuoted(body', property, l.start, l.quote, 0);
      ShiftedReading(body, body', property, l.end, end');
    }
  }

  // The search passes a definition of the UI package and the character behind it.
  lemma PassesDefinition(body: string, property: string, spaces: string, value: string, tail: char)
    requires Defines(body, 0, spaces, value) && Unescaped(value) && Is(body, |spaces| + 14 + |value|, tail)
      && (tail == ',' || tail == ' ')
    requires property != PropertyName()
    ensures Colon(body, property, Cursor(0, Code), 0) == Colon(body, property, Cursor(|spaces| + 15 + |value|, Code), 0)
  {
    hide Colon, Unquoted, SkipSpace, IsSpace, PropertyName, IdentEnd, Unescaped;
    hide Plain, Named, IsIdentStart, Next, Bracket, Defines;
    var p := |spaces|;
    NameThere(body, spaces, value);
    ColonSkipsSpace(body, property, 0, p);
    ColonStep(body, property, Cursor(p, Code), 0);
    OneName(body, PropertyName(), property, p, p + 10);
    ColonSkipsColon(body, property, p + 10);
    QuoteIsNoSpace();
    SkipSpaceIs(body, p + 11, p + 12);
    DefinesLiteral(body, 0, spaces, value);
    ColonSkipsQuoted(body, property, p + 12, '\'', 0);
    ColonStep(body, property, Cursor(p + 14 + |value|, Code), 0);
    TailMeansNothing(body, p + 14 + |value|);
  }

  lemma QuoteIsNoSpace()
    ensures !IsSpace('\'')
  {
  }

  lemma TailMeansNothing(body: string, i: nat)
    requires Is(body, i, ',') || Is(body, i, ' ')
    ensures Next(body, Cursor(i, Code)) == Cursor(i + 1, Code) && Bracket(body, Cursor(i, Code)) == 0
      && !IsIdentStart(body[i])
  {
  }

  lemma NameThere(body: string, spaces: string, value: string)
    requires Defines(body, 0, spaces, value)
    ensures var p := |spaces|;
            && p + 14 + |value| <= |body| && Plain(body, Cursor(p, Code)) && IsIdentStart(body[p])
            && IdentEnd(body, p + 1) == p + 10 && Named(body, PropertyName(), p, p + 10) && Is(body, p + 10, ':')
            && (forall i | 0 <= i < p :: IsSpace(body[i])) && IsSpace(body[p + 11]) && Is(body, p + 12, '\'')
  {
  }

  // New text in front of the body.
  lemma InsertedKeeps(body: string, body': string, property: string, spaces: string, value: string, tail: char)
    requires Defines(body', 0, spaces, value) && Unescaped(value) && Is(body', |spaces| + 14 + |value|, tail)
      && (tail == ',' || tail == ' ')
    requires property != PropertyName() && Tail(body, 0, body', |spaces| + 15 + |value|)
    ensures Reading(body', property) == Reading(body, property)
  {
    hide Colon, Defines, Unescaped, Tail, Reading, PropertyName;
    PassesDefinition(body', property, spaces, value, tail);
    ShiftedReading(body, body', property, 0, |spaces| + 15 + |value|);
  }

  // A blank body has no options.
  lemma BlankReads(body: string, property: string)
    requires SkipSpace(body, 0) == |body|
    ensures Reading(body, property) == None
  {
  }

  // ---- the patch -----------------------------------------------------------

  lemma OptionIsReading(src: string, t: StaticUiObject, property: string)
    requires FindObject(src) == Ok(t)
    ensures t.openingBrace < t.closingBrace <= |src|
    ensures StringOption(src, property) == Ok(Reading(Body(src, t), property))
  {
    hide FindObject, Colon, LiteralAt;
    FoundObject(src, t);
  }

  // The body of the edited text, behind the edit.
  lemma BodyTail(src: string, out: string, a: nat, b: nat, at: nat, end: nat, text: string)
    requires a <= at <= end <= b <= |src| && |out| == |src| + |text| - end + at
    requires out[at + |text|..] == src[end..]
    ensures var b' := b - end + at + |text|;
            a <= b' <= |out| && Tail(src[a..b], end - a, out[a..b'], at - a + |text|)
  {
  }

  // One splice inside the options object: the object and its body afterwards.
  lemma SplicedBodies(src: string, t: StaticUiObject, at: nat, text: string, rest: nat, webPackage: string, out: string)
    returns (t': StaticUiObject, body': string)
    requires FindObject(src) == Ok(t) && t.openingBrace + 1 <= at <= rest <= t.closingBrace <= |src|
    requires out == Splice(src, at, text, rest) && Connected(src, out, webPackage)
    ensures FindObject(out) == Ok(t') && t'.openingBrace < t'.closingBrace <= |out| && body' == Body(out, t')
    ensures at - t.openingBrace - 1 <= |body'|
      && body'[..at - t.openingBrace - 1] == Body(src, t)[..at - t.openingBrace - 1]
    ensures Tail(Body(src, t), rest - t.openingBrace - 1, body', at - t.openingBrace - 1 + |text|)
    ensures at - t.openingBrace - 1 + |text| <= |body'|
      && body'[at - t.openingBrace - 1..at - t.openingBrace - 1 + |text|] == text
  {
    hide FindObject, OptionIs, PropertyName, Tail;
    var after, closing := t.openingBrace + 1, t.closingBrace - rest + at + |text|;
    ReplacedBody(src, out, after, t.closingBrace, at, rest, text);
    BodyTail(src, out, after, t.closingBrace, at, rest, text);
    t' := StaticUiObject(t.call, t.openingBrace, closing);
    body' := Body(out, t');
    TailLength(Body(src, t), rest - after, body', at - after + |text|);
  }

  lemma ReplacedReading(body: string, body': string, colon: nat, l: Literal, webPackage: string, property: string)
    requires Unescaped(webPackage) && property != PropertyName()
    requires Colon(body, PropertyName(), Cursor(0, Code), 0) == Some(colon) && LiteralAt(body, colon + 1) == Some(l)
    requires l.start <= |body| && l.start + 2 + |webPackage| <= |body'| && body'[..l.start] == body[..l.start]
    requires body'[l.start..l.start + 2 + |webPackage|] == [l.quote] + webPackage + [l.quote]
    requires Tail(body, l.end, body', l.start + 2 + |webPackage|)
    ensures Reading(body', property) == Reading(body, property)
  {
    hide *;
    LiteralStart(body, colon);
    QuotedPlain(body', l.start, l.quote, webPackage);
    SamePrefix(body, body', l.start);
    SameMore(body, body', l.start, l.quote);
    ReplacedKeeps(body, body', PropertyName(), property, colon, l, l.start + 2 + |webPackage|);
  }

  lemma ReplacedOption(src: string, t: StaticUiObject, colon: nat, l: Literal, webPackage: string, property: string,
                       text: string, out: string)
    requires FindObject(src) == Ok(t) && t.openingBrace < t.closingBrace <= |src| && Unescaped(webPackage)
      && property != PropertyName()
    requires Colon(Body(src, t), PropertyName(), Cursor(0, Code), 0) == Some(colon)
      && LiteralAt(Body(src, t), colon + 1) == Some(l)
    requires l.start <= l.end && t.openingBrace + 1 + l.end <= t.closingBrace
    requires text == [l.quote] + webPackage + [l.quote] && |text| == 2 + |webPackage|
    requires out == Splice(src, t.openingBrace + 1 + l.start, text, t.openingBrace + 1 + l.end)
      && Connected(src, out, webPackage)
    ensures StringOption(out, property) == StringOption(src, property)
  {
    hide FindObject, Colon, LiteralAt, Unescaped, Connected, Splice, PropertyName, Reading, StringOption, Tail;
    var after := t.openingBrace + 1;
    var t', body' := SplicedBodies(src, t, after + l.start, text, after + l.end, webPackage, out);
    ReplacedReading(Body(src, t), body', colon, l, webPackage, property);
    OptionIsReading(src, t, property);
    OptionIsReading(out, t', property);
  }

  lemma InsertedOption(src: string, t: StaticUiObject, spaces: string, tail: char, rest: nat, webPackage: string,
                       property: string, text: string, out: string)
    requires FindObject(src) == Ok(t) && t.openingBrace < t.closingBrace <= |src| && Unescaped(webPackage)
      && property != PropertyName()
    requires (forall i | 0 <= i < |spaces| :: IsSpace(spaces[i])) && (tail == ',' || tail == ' ')
    requires text == spaces + Property(webPackage) + [tail]
    requires rest == t.openingBrace + 1 || (rest == t.closingBrace && SkipSpace(Body(src, t), 0) == |Body(src, t)|)
    requires out == Splice(src, t.openingBrace + 1, text, rest) && Connected(src, out, webPackage)
    ensures StringOption(out, property) == StringOption(src, property)
  {
    hide FindObject, Colon, LiteralAt, Unescaped, Connected, Splice, PropertyName;
    hide Property, Reading, StringOption, Tail, SkipSpace, IsSpace;
    var after := t.openingBrace + 1;
    var t', body' := SplicedBodies(src, t, after, text, rest, webPackage, out);
    TextDefines(spaces, webPackage, tail);
    InsertedReading(Body(src, t), body', text, spaces, tail, rest - after, webPackage, property);
    OptionIsReading(src, t, property);
    OptionIsReading(out, t', property);
  }

  lemma InsertedReading(body: string, body': string, text: string, spaces: string, tail: char, rest: nat,
                        webPackage: string, property: string)
    requires Unescaped(webPackage) && property != PropertyName() && (tail == ',' || tail == ' ')
    requires Defines(text, 0, spaces, webPackage) && |text| == |spaces| + 15 + |webPackage| && text[|text| - 1] == tail
    requires |text| <= |body'| && body'[0..0 + |text|] == text && Tail(body, rest, body', |text|)
    requires rest == 0 || (rest == |body| && SkipSpace(body, 0) == |body|)
    ensures Reading(body', property) == Reading(body, property)
  {
    hide Colon, Unescaped, PropertyName, Reading, SkipSpace, Defines;
    DefinesWithin(text, body', 0, spaces, webPackage);
    assert body'[|text| - 1] == body'[0..0 + |text|][|text| - 1];
    if rest == 0 {
      InsertedKeeps(body, body', property, spaces, webPackage, tail);
    } else {
      BlankReads(body, property);
      PassesDefinition(body', property, spaces, webPackage, tail);
      TailLength(body, rest, body', |text|);
      NothingReads(body', property, |text|);
    }
  }

  lemma NothingReads(body: string, property: string, i: nat)
    requires Colon(body, property, Cursor(0, Code), 0) == Colon(body, property, Cursor(i, Code), 0) && i == |body|
    ensures Reading(body, property) == None
  {
  }

  lemma KeptWhenReplaced(src: string, t: StaticUiObject, colon: nat, webPackage: string, property: string)
    requires FindObject(src) == Ok(t) && t.openingBrace < t.closingBrace <= |src|
    requires Colon(Body(src, t), PropertyName(), Cursor(0, Code), 0) == Some(colon)
    requires Patch(src, webPackage).Ok? && Unescaped(webPackage) && property != PropertyName()
    requires Connected(src, Patch(src, webPackage).value.output, webPackage)
    ensures StringOption(Patch(src, webPackage).value.output, property) == StringOption(src, property)
  {
    hide Colon, LiteralAt, FindObject, Splice, Insertion, Property;
    hide SkipSpace, Connected, Unescaped, PropertyName, DefaultPackage, StringOption;
    var l := LiteralAt(Body(src, t), colon + 1).value;
    if l.value != webPackage {
      var after, text := t.openingBrace + 1, [l.quote] + webPackage + [l.quote];
      LiteralStart(Body(src, t), colon);
      var out := Splice(src, after + l.start, text, after + l.end);
      assert Patch(src, webPackage).value.output == out;
      ReplacedOption(src, t, colon, l, webPackage, property, text, out);
    }
  }

  // A patch leaves every other option of the object as it reads.
  lemma OtherOptionsKept(src: string, webPackage: string, property: string)
    requires Patch(src, webPackage).Ok? && Unescaped(webPackage) && property != PropertyName()
    ensures StringOption(Patch(src, webPackage).value.output, property) == StringOption(src, property)
  {
    hide Closing, Colon, LiteralAt, FindBrace, FindObject, Splice, Insertion, Property, SkipSpace;
    hide Connected, Unescaped, PropertyName, DefaultPackage, StringOption;
    PatchConnects(src, webPackage);
    var t := FindObject(src).value;
    FoundObject(src, t);
    var out := Patch(src, webPackage).value.output;
    var colon := Colon(Body(src, t), PropertyName(), Cursor(0, Code), 0);
    if colon.Some? {
      KeptWhenReplaced(src, t, colon.value, webPackage, property);
    } else if SkipSpace(Body(src, t), 0) == |Body(src, t)| {
      InsertedOption(src, t, " ", ' ', t.closingBrace, webPackage, property, " " + Property(webPackage) + " ", out);
    } else {
      var spaces := InsertionShape(src, t, webPackage);
      InsertedOption(src, t, spaces, ',', t.openingBrace + 1, webPackage, property, Insertion(src, t, webPackage), out);
    }
  }

  // Whether the output differs is what `changed` says.
  lemma ChangedExactly(src: string, webPackage: string)
    requires Patch(src, webPackage).Ok? && Unescaped(webPackage)
    ensures Patch(src, webPackage).value.changed <==> Patch(src, webPackage).value.output != src
  {
    hide Closing, Colon, LiteralAt, FindBrace, FindObject, Splice;
    hide Insertion, Property, SkipSpace, Unescaped, PropertyName, DefaultPackage;
    PatchConnects(src, webPackage);
    FoundObject(src, FindObject(src).value);
  }
}
