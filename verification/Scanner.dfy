// The hand-written TypeScript lexer of the UI setup command.  The source writes
// its branches out in three loops; here they are one method, Advance, that the
// three loops call, each proved against a recursive reading of the text.
module Scanner {
  import opened Prelude

  datatype ScanState = Code | LineComment | BlockComment | Single | Double | Template

  // A position of the scanning loop, between two iterations.
  datatype Cursor = Cursor(at: nat, state: ScanState)

  predicate Is(src: string, i: nat, c: char) {
    i < |src| && src[i] == c
  }

  predicate StartsWith(src: string, needle: string, i: nat) {
    i + |needle| <= |src| && src[i..i + |needle|] == needle
  }

  // White space and line terminators, as `\s` and `trim` have them.
  predicate IsSpace(c: char) {
    var n := c as int;
    9 <= n <= 13 || n == 0x20 || n == 0xA0 || n == 0x1680 || 0x2000 <= n <= 0x200A
    || n == 0x2028 || n == 0x2029 || n == 0x202F || n == 0x205F || n == 0x3000 || n == 0xFEFF
  }

  predicate IsIdentStart(c: char) {
    'a' <= c <= 'z' || 'A' <= c <= 'Z' || c == '_' || c == '$'
  }

  predicate IsIdent(c: char) {
    IsIdentStart(c) || '0' <= c <= '9'
  }

  // Opens a string or a comment when met in code.
  predicate Opener(src: string, i: nat)
    requires i < |src|
  {
    src[i] == '\'' || src[i] == '"' || src[i] == '`' || (src[i] == '/' && (Is(src, i + 1, '/') || Is(src, i + 1, '*')))
  }

  function Quote(state: ScanState): char
    requires state in {Single, Double, Template}
  {
    match state case Single => '\'' case Double => '"' case _ => '`'
  }

  // One iteration of the lexer.
  function Next(src: string, c: Cursor): (n: Cursor)
    requires c.at < |src|
    ensures c.at < n.at <= c.at + 2
  {
    var i := c.at;
    match c.state
    case LineComment => Cursor(i + 1, if src[i] == '\n' then Code else LineComment)
    case BlockComment => if src[i] == '*' && Is(src, i + 1, '/') then Cursor(i + 2, Code) else Cursor(i + 1, BlockComment)
    case Code =>
      if src[i] == '/' && Is(src, i + 1, '/') then Cursor(i + 2, LineComment)
      else if src[i] == '/' && Is(src, i + 1, '*') then Cursor(i + 2, BlockComment)
      else if src[i] == '\'' then Cursor(i + 1, Single)
      else if src[i] == '"' then Cursor(i + 1, Double)
      else if src[i] == '`' then Cursor(i + 1, Template)
      else Cursor(i + 1, Code)
    case _ =>
      if src[i] == '\\' then Cursor(i + 2, c.state)
      else if src[i] == Quote(c.state) then Cursor(i + 1, Code)
      else Cursor(i + 1, c.state)
  }

  // At `i` the lexer is in code and on no opener.
  predicate Plain(src: string, c: Cursor) {
    c.at < |src| && c.state == Code && !Opener(src, c.at)
  }

  // The lexer started at `a` comes by `b`.
  ghost predicate Reaches(src: string, a: Cursor, b: Cursor)
    decreases |src| + 2 - a.at
  {
    a == b || (a.at < |src| && Reaches(src, Next(src, a), b))
  }

  // The lexer's branches: where the loop stands after position `i`, and
  // whether `i` is plain code that the loop itself must look at.
  method Advance(src: string, i: nat, state: ScanState) returns (i': nat, state': ScanState, plain: bool)
    requires i < |src|
    ensures Cursor(i', state') == Next(src, Cursor(i, state))
    ensures plain == Plain(src, Cursor(i, state))
  {
    i', state', plain := i + 1, state, false;
    if state == LineComment {
      if src[i] == '\n' { state' := Code; }
    } else if state == BlockComment {
      if src[i] == '*' && Is(src, i + 1, '/') {
        i', state' := i + 2, Code;
      }
    } else if state != Code {
      if src[i] == '\\' {
        i' := i + 2;
      } else if (state == Single && src[i] == '\'') || (state == Double && src[i] == '"') || (state == Template && src[i] == '`') {
        state' := Code;
      }
    } else if src[i] == '/' && Is(src, i + 1, '/') {
      i', state' := i + 2, LineComment;
    } else if src[i] == '/' && Is(src, i + 1, '*') {
      i', state' := i + 2, BlockComment;
    } else if src[i] == '\'' {
      state' := Single;
    } else if src[i] == '"' {
      state' := Double;
    } else if src[i] == '`' {
      state' := Template;
    } else {
      plain := true;
    }
  }

  // ---- codeOccurrence ----------------------------------------------------

  function Occurrence(src: string, needle: string, c: Cursor): (r: Option<nat>)
    ensures r.Some? ==> c.at <= r.value && StartsWith(src, needle, r.value)
    decreases |src| + 2 - c.at
  {
    if c.at >= |src| then None
    else if Plain(src, c) && StartsWith(src, needle, c.at) then Some(c.at)
    else Occurrence(src, needle, Next(src, c))
  }

  // It is the first place, in code, where `needle` stands.
  lemma {:induction false} OccurrenceMeans(src: string, needle: string, c: Cursor)
    ensures match Occurrence(src, needle, c)
            case Some(r) =>
              && Reaches(src, c, Cursor(r, Code)) && Plain(src, Cursor(r, Code)) && StartsWith(src, needle, r)
              && (forall i: nat :: i < r && Reaches(src, c, Cursor(i, Code)) && Plain(src, Cursor(i, Code)) ==>
                    !StartsWith(src, needle, i))
            case None =>
              forall i: nat :: Reaches(src, c, Cursor(i, Code)) && Plain(src, Cursor(i, Code)) ==>
                !StartsWith(src, needle, i)
    decreases |src| + 2 - c.at
  {
    if c.at < |src| && !(Plain(src, c) && StartsWith(src, needle, c.at)) {
      OccurrenceMeans(src, needle, Next(src, c));
    }
    if Occurrence(src, needle, c).Some? {
      ReachesGrows(src, c);
    }
  }

  lemma {:induction false} ReachesGrows(src: string, a: Cursor)
    ensures forall b :: Reaches(src, a, b) ==> a.at <= b.at
    decreases |src| + 2 - a.at
  {
    if a.at < |src| {
      ReachesGrows(src, Next(src, a));
    }
  }

  method CodeOccurrence(src: string, needle: string) returns (found: Option<nat>)
    ensures found == Occurrence(src, needle, Cursor(0, Code))
  {
    var state := Code;
    var i := 0;
    while i < |src|
      invariant Occurrence(src, needle, Cursor(0, Code)) == Occurrence(src, needle, Cursor(i, state))
      decreases |src| + 2 - i
    {
      var i', state', plain := Advance(src, i, state);
      if plain && StartsWith(src, needle, i) {
        return Some(i);
      }
      i, state := i', state';
    }
    return None;
  }

  // ---- findClosingBrace --------------------------------------------------

  // What the character under the cursor does to the brace depth.
  function Brace(src: string, c: Cursor): int
    requires c.at < |src|
  {
    if !Plain(src, c) then 0 else if src[c.at] == '{' then 1 else if src[c.at] == '}' then -1 else 0
  }

  function Closing(src: string, c: Cursor, depth: int): (r: Option<nat>)
    ensures r.Some? ==> c.at <= r.value < |src| && src[r.value] == '}'
    decreases |src| + 2 - c.at
  {
    if c.at >= |src| then None
    else if Brace(src, c) == -1 && depth == 1 then Some(c.at)
    else Closing(src, Next(src, c), depth + Brace(src, c))
  }

  // The depth after the braces that the lexer meets from `c` through position `last`.
  ghost function DepthAfter(src: string, c: Cursor, last: nat, depth: int): int
    decreases |src| + 2 - c.at
  {
    if c.at >= |src| || c.at > last then depth
    else DepthAfter(src, Next(src, c), last, depth + Brace(src, c))
  }

  // It is the first closing brace, in code, after which as many braces have
  // closed as opened.
  lemma {:induction false} ClosingMeans(src: string, c: Cursor, depth: int)
    ensures match Closing(src, c, depth)
            case Some(r) =>
              && Reaches(src, c, Cursor(r, Code)) && Plain(src, Cursor(r, Code)) && src[r] == '}'
              && DepthAfter(src, c, r, depth) == 0
              && (forall q: nat :: q < r && Reaches(src, c, Cursor(q, Code)) && Brace'(src, q) == -1 ==>
                    DepthAfter(src, c, q, depth) != 0)
            case None =>
              forall q: nat :: Reaches(src, c, Cursor(q, Code)) && Brace'(src, q) == -1 ==>
                DepthAfter(src, c, q, depth) != 0
    decreases |src| + 2 - c.at
  {
    ReachesGrows(src, c);
    if c.at < |src| {
      ReachesGrows(src, Next(src, c));
      if Brace(src, c) == -1 && depth == 1 {
        assert DepthAfter(src, c, c.at, depth) == DepthAfter(src, Next(src, c), c.at, 0) == 0;
      } else {
        ClosingMeans(src, Next(src, c), depth + Brace(src, c));
        assert DepthAfter(src, c, c.at, depth) == DepthAfter(src, Next(src, c), c.at, depth + Brace(src, c)) ==
          depth + Brace(src, c);
        forall q: nat | Reaches(src, c, Cursor(q, Code)) && Brace'(src, q) == -1
          ensures Cursor(q, Code) == c || Reaches(src, Next(src, c), Cursor(q, Code))
        {
        }
      }
    }
  }

  ghost function Brace'(src: string, q: nat): int {
    if q < |src| then Brace(src, Cursor(q, Code)) else 0
  }

  method FindClosingBrace(src: string, opening: nat) returns (found: Option<nat>)
    ensures found == Closing(src, Cursor(opening, Code), 0)
  {
    var state := Code;
    var depth := 0;
    var i := opening;
    while i < |src|
      invariant Closing(src, Cursor(opening, Code), 0) == Closing(src, Cursor(i, state), depth)
      decreases |src| + 2 - i
    {
      var i', state', plain := Advance(src, i, state);
      if plain && src[i] == '{' {
        depth := depth + 1;
      } else if plain && src[i] == '}' {
        depth := depth - 1;
        if depth == 0 {
          return Some(i);
        }
      }
      i, state := i', state';
    }
    return None;
  }

  // ---- topLevelPropertyColon ---------------------------------------------

  function IdentEnd(src: string, i: nat): (end: nat)
    requires i <= |src|
    ensures i <= end <= |src|
    ensures forall j | i <= j < end :: IsIdent(src[j])
    ensures end < |src| ==> !IsIdent(src[end])
    decreases |src| - i
  {
    if i < |src| && IsIdent(src[i]) then IdentEnd(src, i + 1) else i
  }

  function SkipSpace(src: string, i: nat): (end: nat)
    requires i <= |src|
    ensures i <= end <= |src|
    ensures forall j | i <= j < end :: IsSpace(src[j])
    ensures end < |src| ==> !IsSpace(src[end])
    decreases |src| - i
  {
    if i < |src| && IsSpace(src[i]) then SkipSpace(src, i + 1) else i
  }

  function Bracket(src: string, c: Cursor): int
    requires c.at < |src|
  {
    if !Plain(src, c) then 0
    else if src[c.at] == '{' || src[c.at] == '[' || src[c.at] == '(' then 1
    else if src[c.at] == '}' || src[c.at] == ']' || src[c.at] == ')' then -1
    else 0
  }

  // The identifier from `i` to `end` is `property`, and a colon follows.
  predicate Named(body: string, property: string, i: nat, end: nat)
    requires i <= end <= |body|
  {
    body[i..end] == property && Is(body, SkipSpace(body, end), ':')
  }

  function Colon(body: string, property: string, c: Cursor, depth: int): (r: Option<nat>)
    ensures r.Some? ==> c.at < r.value < |body| && body[r.value] == ':'
    decreases |body| + 2 - c.at
  {
    if c.at >= |body| then None
    else if Plain(body, c) && depth == 0 && IsIdentStart(body[c.at]) then
      var end := IdentEnd(body, c.at + 1);
      if Named(body, property, c.at, end) then Some(SkipSpace(body, end))
      else Colon(body, property, Cursor(end, Code), depth)
    else Colon(body, property, Next(body, c), depth + Bracket(body, c))
  }

  // The end of the identifier at `i`, and the colon behind it when it is `property`.
  method PropertyAt(body: string, property: string, i: nat) returns (end: nat, found: Option<nat>)
    requires i < |body|
    ensures end == IdentEnd(body, i + 1)
    ensures found ==
      if Named(body, property, i, end) then Some(SkipSpace(body, end)) else None
  {
    end := i + 1;
    while end < |body| && IsIdent(body[end])
      invariant i < end <= |body|
      invariant IdentEnd(body, i + 1) == IdentEnd(body, end)
    {
      end := end + 1;
    }
    if body[i..end] == property {
      var colon := end;
      while colon < |body| && IsSpace(body[colon])
        invariant end <= colon <= |body|
        invariant SkipSpace(body, end) == SkipSpace(body, colon)
      {
        colon := colon + 1;
      }
      if Is(body, colon, ':') {
        return end, Some(colon);
      }
    }
    return end, None;
  }

  method TopLevelPropertyColon(body: string, property: string) returns (found: Option<nat>)
    ensures found == Colon(body, property, Cursor(0, Code), 0)
  {
    var state := Code;
    var depth := 0;
    var i := 0;
    while i < |body|
      invariant Colon(body, property, Cursor(0, Code), 0) == Colon(body, property, Cursor(i, state), depth)
      decreases |body| + 2 - i
    {
      var i', state', plain := Advance(body, i, state);
      if plain && (body[i] == '{' || body[i] == '[' || body[i] == '(') {
        depth := depth + 1;
      } else if plain && (body[i] == '}' || body[i] == ']' || body[i] == ')') {
        depth := depth - 1;
      } else if plain && depth == 0 && IsIdentStart(body[i]) {
        var end, colon := PropertyAt(body, property, i);
        if colon.Some? {
          return colon;
        }
        i' := end;
      }
      i, state := i', state';
    }
    return None;
  }

  // ---- stringLiteralAt ---------------------------------------------------

  datatype Literal = Literal(value: string, start: nat, end: nat, quote: char)

  // The characters up to the closing quote, escapes undone one character at a
  // time, and the position after the quote.
  function Unquoted(src: string, i: nat, quote: char): (r: Option<(string, nat)>)
    ensures r.Some? ==> i < r.value.1 <= |src| && src[r.value.1 - 1] == quote
    decreases |src| - i
  {
    if i >= |src| then None
    else if src[i] == '\\' then
      if i + 1 >= |src| then None else Prepend([src[i + 1]], Unquoted(src, i + 2, quote))
    else if src[i] == quote then Some(("", i + 1))
    else Prepend([src[i]], Unquoted(src, i + 1, quote))
  }

  function Prepend(head: string, tail: Option<(string, nat)>): Option<(string, nat)> {
    if tail.Some? then Some((head + tail.value.0, tail.value.1)) else None
  }

  lemma PrependTwice(a: string, b: string, tail: Option<(string, nat)>)
    ensures Prepend(a, Prepend(b, tail)) == Prepend(a + b, tail)
  {
    if tail.Some? {
      assert a + (b + tail.value.0) == a + b + tail.value.0;
    }
  }

  // The loop behind the opening quote.
  method Unquote(src: string, from: nat, quote: char) returns (r: Option<(string, nat)>)
    ensures r == Unquoted(src, from, quote)
  {
    hide Prepend;
    var value := "";
    var i := from;
    PrependNothing(Unquoted(src, from, quote));
    while i < |src|
      invariant Unquoted(src, from, quote) == Prepend(value, Unquoted(src, i, quote))
    {
      if src[i] == '\\' {
        if i + 1 >= |src| {
          PrependEnds(value, i);
          return None;
        }
        PrependTwice(value, [src[i + 1]], Unquoted(src, i + 2, quote));
        value := value + [src[i + 1]];
        i := i + 1;
      } else if src[i] == quote {
        PrependEnds(value, i + 1);
        return Some((value, i + 1));
      } else {
        PrependTwice(value, [src[i]], Unquoted(src, i + 1, quote));
        value := value + [src[i]];
      }
      i := i + 1;
    }
    PrependEnds(value, i);
    return None;
  }

  lemma PrependNothing(tail: Option<(string, nat)>)
    ensures Prepend("", tail) == tail
  {
    if tail.Some? {
      assert "" + tail.value.0 == tail.value.0;
    }
  }

  lemma PrependEnds(value: string, end: nat)
    ensures Prepend(value, None) == None
    ensures Prepend(value, Some(("", end))) == Some((value, end))
  {
    assert value + "" == value;
  }

  function LiteralAt(src: string, start: nat): Option<Literal>
    requires start <= |src|
  {
    var cursor := SkipSpace(src, start);
    if cursor >= |src| || (src[cursor] != '\'' && src[cursor] != '"') then None
    else
      var r := Unquoted(src, cursor + 1, src[cursor]);
      if r.Some? then Some(Literal(r.value.0, cursor, r.value.1, src[cursor])) else None
  }

  method StringLiteralAt(src: string, start: nat) returns (found: Option<Literal>)
    requires start <= |src|
    ensures found == LiteralAt(src, start)
    ensures found.Some? ==> start <= found.value.start < found.value.end <= |src|
  {
    var cursor := start;
    while cursor < |src| && IsSpace(src[cursor])
      invariant start <= cursor <= |src|
      invariant SkipSpace(src, start) == SkipSpace(src, cursor)
    {
      cursor := cursor + 1;
    }
    if cursor >= |src| || (src[cursor] != '\'' && src[cursor] != '"') {
      return None;
    }
    var r := Unquote(src, cursor + 1, src[cursor]);
    if r.None? {
      return None;
    }
    return Some(Literal(r.value.0, cursor, r.value.1, src[cursor]));
  }
}
