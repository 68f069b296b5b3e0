// `patchStaticUiModule`: connects a UI package to the options object of an
// existing call in a TypeScript module.
module UiPatcher {
  import opened Prelude
  import opened Scanner

  function CallName(): (name: string)
    ensures |name| >= 2 && name[0] == 'M'
  {
    "ModernAdminStaticUiModule.forRoot"
  }

  function PropertyName(): (name: string)
    ensures |name| == 10 && IsIdentStart(name[0]) && forall i | 0 <= i < 10 :: IsIdent(name[i])
  {
    "webPackage"
  }

  function DefaultPackage(): string {
    "@modern-admin/web"
  }

  datatype Error = NoCall | Unparsable | NotInline | NoClosingBrace | AlreadyDefined
  datatype Result<+T> = Ok(value: T) | Fail(error: Error)

  datatype StaticUiObject = StaticUiObject(call: nat, openingBrace: nat, closingBrace: nat)
  datatype ModulePatch = ModulePatch(output: string, changed: bool)

  function IndexOf(src: string, c: char, from: nat): (r: Option<nat>)
    ensures r.Some? ==> from <= r.value < |src| && src[r.value] == c
    decreases |src| - from
  {
    if from >= |src| then None else if src[from] == c then Some(from) else IndexOf(src, c, from + 1)
  }

  // The call and the opening brace of its inline options object.
  function FindBrace(src: string): (r: Result<(nat, nat)>)
    ensures r.Ok? ==> r.value.0 < r.value.1 < |src| && src[r.value.0] == 'M' && src[r.value.1] == '{'
  {
    var call := Occurrence(src, CallName(), Cursor(0, Code));
    if call.None? then Fail(NoCall)
    else
      var openingParen := IndexOf(src, '(', call.value + |CallName()|);
      if openingParen.None? then Fail(Unparsable)
      else
        var openingBrace := SkipSpace(src, openingParen.value + 1);
        if !Is(src, openingBrace, '{') then Fail(NotInline) else Ok((call.value, openingBrace))
  }

  function FindObject(src: string): (r: Result<StaticUiObject>)
    ensures r.Ok? ==>
      && r.value.call < r.value.openingBrace < r.value.closingBrace < |src|
      && src[r.value.call] == 'M' && src[r.value.openingBrace] == '{' && src[r.value.closingBrace] == '}'
  {
    var brace := FindBrace(src);
    if brace.Fail? then Fail(brace.error)
    else
      var (call, openingBrace) := brace.value;
      var closingBrace := Closing(src, Cursor(openingBrace, Code), 0);
      if closingBrace.None? then Fail(NoClosingBrace)
      else Ok(StaticUiObject(call, openingBrace, closingBrace.value))
  }

  // What stands between the braces.
  function Body(src: string, t: StaticUiObject): (body: string)
    requires t.openingBrace < t.closingBrace <= |src|
    ensures |body| == t.closingBrace - t.openingBrace - 1
    ensures body == src[t.openingBrace + 1..t.closingBrace]
  {
    src[t.openingBrace + 1..t.closingBrace]
  }

  // Where the line of position `i` starts: behind the last line feed up to `i`.
  function LineStart(src: string, i: nat): (start: nat)
    ensures start <= i + 1 && (start == i + 1 ==> Is(src, i, '\n'))
  {
    if Is(src, i, '\n') then i + 1 else if i == 0 then 0 else LineStart(src, i - 1)
  }

  function LeadingSpace(line: string): string {
    line[..SkipSpace(line, 0)]
  }

  predicate HasCrLf(src: string) {
    exists i | 0 <= i < |src| - 1 :: src[i] == '\r' && src[i + 1] == '\n'
  }

  function Property(webPackage: string): string {
    PropertyName() + ": '" + webPackage + "'"
  }

  // What goes behind the opening brace of an object that lacks the property.
  function Insertion(src: string, target: StaticUiObject, webPackage: string): string
    requires target.call < |src| && src[target.call] != '\n'
  {
    var indent := LeadingSpace(src[LineStart(src, target.call)..target.call]);
    var eol := if HasCrLf(src) then "\r\n" else "\n";
    if Is(src, target.openingBrace + 1, '\n') || Is(src, target.openingBrace + 1, '\r')
    then eol + indent + "  " + Property(webPackage) + ","
    else " " + Property(webPackage) + ","
  }

  // `text` in place of what stands between `at` and `rest`.
  function Splice(src: string, at: nat, text: string, rest: nat): (out: string)
    requires at <= rest <= |src|
    ensures |out| == |src| + |text| - rest + at
    ensures out[..at] == src[..at] && out[at..at + |text|] == text && out[at + |text|..] == src[rest..]
  {
    src[..at] + text + src[rest..]
  }

  function Patch(src: string, webPackage: string): Result<ModulePatch> {
    var found := FindObject(src);
    if found.Fail? then Fail(found.error)
    else
      var target := found.value;
      var after := target.openingBrace + 1;
      var colon := Colon(Body(src, target), PropertyName(), Cursor(0, Code), 0);
      if colon.Some? then
        var existing := LiteralAt(Body(src, target), colon.value + 1);
        if existing.Some? && existing.value.value == webPackage then Ok(ModulePatch(src, false))
        else if existing.Some? && existing.value.value == DefaultPackage() then
          var quote := [existing.value.quote];
          Ok(ModulePatch(Splice(src, after + existing.value.start, quote + webPackage + quote, after + existing.value.end), true))
        else Fail(AlreadyDefined)
      else if SkipSpace(Body(src, target), 0) == |Body(src, target)| then
        Ok(ModulePatch(Splice(src, after, " " + Property(webPackage) + " ", target.closingBrace), true))
      else Ok(ModulePatch(Splice(src, after, Insertion(src, target, webPackage), after), true))
  }

  // The same, by the scanning loops.
  method FindStaticUiObject(src: string) returns (r: Result<StaticUiObject>)
    ensures r == FindObject(src)
    ensures r.Ok? ==> r.value.call < r.value.openingBrace < r.value.closingBrace < |src| && src[r.value.call] == 'M'
  {
    hide Closing, Occurrence, IndexOf, SkipSpace, CallName;
    var call := CodeOccurrence(src, CallName());
    if call.None? {
      return Fail(NoCall);
    }
    var openingParen := IndexOf(src, '(', call.value + |CallName()|);
    if openingParen.None? {
      return Fail(Unparsable);
    }
    var openingBrace := SkipSpace(src, openingParen.value + 1);
    if !Is(src, openingBrace, '{') {
      return Fail(NotInline);
    }
    var closingBrace := FindClosingBrace(src, openingBrace);
    if closingBrace.None? {
      return Fail(NoClosingBrace);
    }
    return Ok(StaticUiObject(call.value, openingBrace, closingBrace.value));
  }

  method PatchStaticUiModule(src: string, webPackage: string) returns (r: Result<ModulePatch>)
    ensures r == Patch(src, webPackage)
  {
    hide FindBrace, Closing, Colon, LiteralAt, Insertion, Property, PropertyName, DefaultPackage, SkipSpace;
    var found := FindStaticUiObject(src);
    if found.Fail? {
      return Fail(found.error);
    }
    var target := found.value;
    var body := Body(src, target);
    var after := target.openingBrace + 1;
    var colon := TopLevelPropertyColon(body, PropertyName());
    if colon.Some? {
      var existing := StringLiteralAt(body, colon.value + 1);
      if existing.Some? && existing.value.value == webPackage {
        return Ok(ModulePatch(src, false));
      }
      if existing.Some? && existing.value.value == DefaultPackage() {
        var quote := [existing.value.quote];
        return Ok(ModulePatch(Splice(src, after + existing.value.start, quote + webPackage + quote, after + existing.value.end), true));
      }
      return Fail(AlreadyDefined);
    }
    if SkipSpace(body, 0) == |body| {
      return Ok(ModulePatch(Splice(src, after, " " + Property(webPackage) + " ", target.closingBrace), true));
    }
    return Ok(ModulePatch(Splice(src, after, Insertion(src, target, webPackage), after), true));
  }

  // `staticUiStringOption`: the string that the options object gives `property`.
  function StringOption(src: string, property: string): Result<Option<string>> {
    var found := FindObject(src);
    if found.Fail? then Fail(found.error)
    else
      var colon := Colon(Body(src, found.value), property, Cursor(0, Code), 0);
      if colon.None? then Ok(None)
      else
        var literal := LiteralAt(Body(src, found.value), colon.value + 1);
        Ok(if literal.None? then None else Some(literal.value.value))
  }

  // ---- the scanner over edited text ---------------------------------------

  lemma NextShifts(src: string, src': string, c: Cursor, at': nat)
    requires c.at < |src| && at' <= |src'| && src[c.at..] == src'[at'..]
    ensures at' < |src'| && Next(src', Cursor(at', c.state)) == Cursor(Next(src, c).at - c.at + at', Next(src, c).state)
    ensures Brace(src', Cursor(at', c.state)) == Brace(src, c)
  {
  }

  // Two texts that agree behind some point are read alike from there.
  lemma {:induction false} ClosingShifts(src: string, src': string, c: Cursor, at': nat, depth: int)
    requires c.at <= |src| && at' <= |src'| && src[c.at..] == src'[at'..]
    ensures var r, r' := Closing(src, c, depth), Closing(src', Cursor(at', c.state), depth);
            if r.Some? then r' == Some(r.value - c.at + at') else r'.None?
    decreases |src| - c.at
  {
    hide Next, Brace;
    assert |src| - c.at == |src'| - at';
    if c.at < |src| {
      NextShifts(src, src', c, at');
      var n := Next(src, c);
      if n.at <= |src| {
        assert src[n.at..] == src[c.at..][n.at - c.at..] == src'[at'..][n.at - c.at..] == src'[n.at - c.at + at'..];
        ClosingShifts(src, src', n, n.at - c.at + at', depth + Brace(src, c));
      }
    }
  }

  // The first `n` characters of the two texts are the same.
  ghost predicate Same(a: string, b: string, n: nat) {
    n <= |a| && n <= |b| && forall i | 0 <= i < n :: a[i] == b[i]
  }

  lemma SamePrefix(a: string, b: string, n: nat)
    requires n <= |a| && n <= |b| && a[..n] == b[..n]
    ensures Same(a, b, n)
  {
  }

  lemma SameLess(a: string, b: string, n: nat, m: nat)
    requires Same(a, b, n) && m <= n
    ensures Same(a, b, m)
  {
  }

  lemma SameMore(a: string, b: string, n: nat, c: char)
    requires Same(a, b, n) && Is(a, n, c) && Is(b, n, c)
    ensures Same(a, b, n + 1)
  {
  }

  // Two texts that agree up to and including `q` are read alike until `q`.
  lemma {:induction false} ClosingAgrees(src: string, src': string, c: Cursor, q: nat, depth: int) returns (depth': int)
    requires q < |src| && Same(src, src', q + 1)
    requires Reaches(src, c, Cursor(q, Code)) && c.at <= q
    requires Closing(src, c, depth).Some? && q <= Closing(src, c, depth).value
    ensures Closing(src, c, depth) == Closing(src, Cursor(q, Code), depth')
    ensures Closing(src', c, depth) == Closing(src', Cursor(q, Code), depth')
    decreases |src| - c.at
  {
    hide Next, Brace;
    if c == Cursor(q, Code) {
      return depth;
    }
    ReachesGrows(src, Next(src, c));
    NextAgrees(src, src', c, q + 1);
    depth' := ClosingAgrees(src, src', Next(src, c), q, depth + Brace(src, c));
  }

  // Characters that mean nothing to the scanner in code.
  predicate Inert(c: char) {
    c != '/' && c != '\'' && c != '"' && c != '`' && c != '{' && c != '}'
  }

  lemma {:induction false} ClosingSkipsInert(src: string, p: nat, q: nat, depth: int)
    requires p <= q <= |src| && forall i | p <= i < q :: Inert(src[i])
    ensures Closing(src, Cursor(p, Code), depth) == Closing(src, Cursor(q, Code), depth)
    decreases q - p
  {
    if p < q {
      ClosingSkipsInert(src, p + 1, q, depth);
    }
  }

  function StringState(quote: char): ScanState {
    if quote == '\'' then Single else Double
  }

  // A literal that the parser reads is one string to the scanner.
  lemma {:induction false} ClosingSkipsLiteral(src: string, i: nat, quote: char, depth: int)
    requires (quote == '\'' || quote == '"') && Unquoted(src, i, quote).Some?
    ensures Closing(src, Cursor(i, StringState(quote)), depth) ==
      Closing(src, Cursor(Unquoted(src, i, quote).value.1, Code), depth)
    decreases |src| - i
  {
    if src[i] == '\\' {
      ClosingSkipsLiteral(src, i + 2, quote, depth);
    } else if src[i] != quote {
      ClosingSkipsLiteral(src, i + 1, quote, depth);
    }
  }

  predicate Unescaped(s: string) {
    forall i | 0 <= i < |s| :: s[i] != '\\' && s[i] != '\'' && s[i] != '"'
  }

  lemma {:induction false} UnquotedPlain(src: string, i: nat, value: string, quote: char)
    requires (quote == '\'' || quote == '"') && Unescaped(value)
    requires i + |value| < |src| && src[i + |value|] == quote
    requires forall j | i <= j < i + |value| :: src[j] == value[j - i]
    ensures Unquoted(src, i, quote) == Some((value, i + |value| + 1))
    decreases |value|
  {
    if value != "" {
      assert src[i] == value[0];
      UnquotedPlain(src, i + 1, value[1..], quote);
      assert value == [value[0]] + value[1..];
    }
  }

  // ---- the parts of a patch -----------------------------------------------

  lemma {:induction false} OccurrenceAgrees(src: string, src': string, needle: string, c: Cursor, n: nat)
    requires Same(src, src', n) && |needle| >= 2
    requires Occurrence(src, needle, c).Some? && Occurrence(src, needle, c).value + |needle| <= n
    ensures Occurrence(src', needle, c) == Occurrence(src, needle, c)
    decreases |src| + 2 - c.at
  {
    hide Next, Plain, Brace, Bracket;
    assert c.at + 2 <= c.at + |needle| <= n;
    NextAgrees(src, src', c, n);
    assert src[c.at..c.at + |needle|] == src'[c.at..c.at + |needle|];
    if !(Plain(src, c) && StartsWith(src, needle, c.at)) {
      OccurrenceAgrees(src, src', needle, Next(src, c), n);
    }
  }

  lemma {:induction false} IndexOfAgrees(src: string, src': string, c: char, from: nat, n: nat)
    requires Same(src, src', n)
    requires IndexOf(src, c, from).Some? && IndexOf(src, c, from).value < n
    ensures IndexOf(src', c, from) == IndexOf(src, c, from)
    decreases |src| - from
  {
    if src[from] != c {
      IndexOfAgrees(src, src', c, from + 1, n);
    }
  }

  lemma {:induction false} SkipSpaceIs(src: string, i: nat, end: nat)
    requires i <= end <= |src| && (forall j | i <= j < end :: IsSpace(src[j])) && (end < |src| ==> !IsSpace(src[end]))
    ensures SkipSpace(src, i) == end
    decreases end - i
  {
  }

  lemma {:induction false} IdentEndIs(src: string, i: nat, end: nat)
    requires i <= end <= |src| && (forall j | i <= j < end :: IsIdent(src[j])) && (end < |src| ==> !IsIdent(src[end]))
    ensures IdentEnd(src, i) == end
    decreases end - i
  {
  }

  // Text that is unchanged through the opening brace holds the same call.
  lemma FindBraceAgrees(src: string, src': string)
    requires FindBrace(src).Ok?
    requires var n := FindBrace(src).value.1 + 1;
             Same(src, src', n)
    ensures FindBrace(src') == FindBrace(src)
  {
    hide CallName, Occurrence, IndexOf, SkipSpace, StartsWith;
    var (call, brace) := FindBrace(src).value;
    var paren := IndexOf(src, '(', call + |CallName()|).value;
    OccurrenceAgrees(src, src', CallName(), Cursor(0, Code), brace + 1);
    IndexOfAgrees(src, src', '(', call + |CallName()|, brace + 1);
    SkipSpaceAgrees(src, src', paren + 1, brace + 1);
  }

  lemma SkipSpaceAgrees(src: string, src': string, i: nat, n: nat)
    requires Same(src, src', n) && i <= |src| && SkipSpace(src, i) < n
    ensures SkipSpace(src', i) == SkipSpace(src, i)
  {
  }

  // One step of the scanner reads one character and the next.
  lemma NextAgrees(src: string, src': string, c: Cursor, n: nat)
    requires Same(src, src', n) && c.at + 2 <= n
    ensures Next(src', c) == Next(src, c) && Plain(src', c) == Plain(src, c)
    ensures Brace(src', c) == Brace(src, c) && Bracket(src', c) == Bracket(src, c)
  {
  }

  lemma {:induction false} ReachesInert(src: string, p: nat, q: nat, goal: Cursor)
    requires p <= q <= |src| && forall i | p <= i < q :: Inert(src[i])
    requires Reaches(src, Cursor(q, Code), goal)
    ensures Reaches(src, Cursor(p, Code), goal)
    decreases q - p
  {
    if p < q {
      ReachesInert(src, p + 1, q, goal);
      assert Next(src, Cursor(p, Code)) == Cursor(p + 1, Code);
    }
  }

  // The scanner of the whole text is in code where the property search of the
  // body found its colon.
  lemma {:induction false} ColonReached(body: string, property: string, c: Cursor, depth: int, goal: Cursor)
    requires Colon(body, property, c, depth).Some?
    requires Reaches(body, Cursor(Colon(body, property, c, depth).value, Code), goal)
    ensures Reaches(body, c, goal)
    decreases |body| + 2 - c.at
  {
    hide Reaches, Next, Bracket, Plain, IsSpace, IsIdent, Inert;
    SpaceAndIdentInert();
    if Plain(body, c) && depth == 0 && IsIdentStart(body[c.at]) {
      PlainIdent(body, c);
      var end := IdentEnd(body, c.at + 1);
      var colon := SkipSpace(body, end);
      if Named(body, property, c.at, end) {
        ReachesInert(body, c.at, colon, goal);
      } else {
        ColonReached(body, property, Cursor(end, Code), depth, goal);
        ReachesInert(body, c.at, end, goal);
      }
    } else {
      ColonReached(body, property, Next(body, c), depth + Bracket(body, c), goal);
      ReachesStep(body, c, goal);
    }
  }

  lemma PlainIdent(body: string, c: Cursor)
    requires c.at < |body| && Plain(body, c) && IsIdentStart(body[c.at])
    ensures c == Cursor(c.at, Code) && Inert(body[c.at])
  {
  }

  lemma ReachesStep(src: string, c: Cursor, goal: Cursor)
    requires c.at < |src| && Reaches(src, Next(src, c), goal)
    ensures Reaches(src, c, goal)
  {
  }

  lemma SpaceAndIdentInert()
    ensures forall c :: IsSpace(c) ==> Inert(c)
    ensures forall c :: IsIdent(c) ==> Inert(c)
  {
  }

  // What the scanner passes in a part of the text it passes in the whole.
  lemma {:induction false} ReachesLifts(src: string, a: nat, b: nat, c: Cursor, goal: Cursor)
    requires a <= b <= |src| && goal.at < b - a && c.at <= goal.at
    requires Reaches(src[a..b], c, goal)
    ensures Reaches(src, Cursor(a + c.at, c.state), Cursor(a + goal.at, goal.state))
    decreases b - a - c.at
  {
    hide Next;
    var body := src[a..b];
    if c != goal {
      ReachesGrows(body, Next(body, c));
      NextLifts(src, a, b, c);
      ReachesLifts(src, a, b, Next(body, c), goal);
    }
  }

  lemma NextLifts(src: string, a: nat, b: nat, c: Cursor)
    requires a <= b <= |src| && c.at + 1 < b - a
    ensures Next(src, Cursor(a + c.at, c.state)) == Cursor(a + Next(src[a..b], c).at, Next(src[a..b], c).state)
  {
  }

  // The property test at an identifier reads no further than `n`.
  lemma PropertyAgrees(body: string, body': string, property: string, i: nat, n: nat)
    requires Same(body, body', n) && i < n
    requires IdentEnd(body, i + 1) < n && SkipSpace(body, IdentEnd(body, i + 1)) < n
    ensures i < |body'| && i + 1 <= |body'|
    ensures IdentEnd(body', i + 1) == IdentEnd(body, i + 1)
    ensures SkipSpace(body', IdentEnd(body, i + 1)) == SkipSpace(body, IdentEnd(body, i + 1))
    ensures Named(body', property, i, IdentEnd(body, i + 1)) == Named(body, property, i, IdentEnd(body, i + 1))
  {
  }

  lemma {:induction false} ColonAgrees(body: string, body': string, property: string, c: Cursor, depth: int)
    requires Colon(body, property, c, depth).Some?
    requires var n := Colon(body, property, c, depth).value + 1;
             Same(body, body', n)
    ensures Colon(body', property, c, depth) == Colon(body, property, c, depth)
    decreases |body| + 2 - c.at
  {
    hide Next, Plain, Bracket, SkipSpace, IdentEnd, Brace, IsIdentStart, IsIdent, IsSpace, Is, Named;
    var n := Colon(body, property, c, depth).value + 1;
    NextAgrees(body, body', c, n);
    if Plain(body, c) && depth == 0 && IsIdentStart(body[c.at]) {
      ColonBound(body, property, c, depth);
      PropertyAgrees(body, body', property, c.at, n);
      var end := IdentEnd(body, c.at + 1);
      if !Named(body, property, c.at, end) {
        ColonAgrees(body, body', property, Cursor(end, Code), depth);
      }
    } else {
      ColonAgrees(body, body', property, Next(body, c), depth + Bracket(body, c));
    }
  }

  lemma ColonBound(body: string, property: string, c: Cursor, depth: int)
    requires Colon(body, property, c, depth).Some?
    requires Plain(body, c) && depth == 0 && IsIdentStart(body[c.at])
    ensures var k := Colon(body, property, c, depth).value;
            IdentEnd(body, c.at + 1) <= k && SkipSpace(body, IdentEnd(body, c.at + 1)) <= k
  {
  }

  lemma {:induction false} UnquotedLifts(src: string, a: nat, b: nat, i: nat, quote: char)
    requires a <= b <= |src| && Unquoted(src[a..b], i, quote).Some?
    ensures var (value, end) := Unquoted(src[a..b], i, quote).value;
            Unquoted(src, a + i, quote) == Some((value, a + end))
    decreases b - a - i
  {
    var body := src[a..b];
    assert body[i] == src[a + i];
    if body[i] == '\\' {
      assert body[i + 1] == src[a + i + 1];
      UnquotedLifts(src, a, b, i + 2, quote);
    } else if body[i] != quote {
      UnquotedLifts(src, a, b, i + 1, quote);
    }
  }

  // ---- the three edits -----------------------------------------------------

  // Text of the form `spaces` webPackage: 'value' `tail`, somewhere in a text.
  ghost predicate Defines(text: string, at: nat, spaces: string, value: string) {
    var p := at + |spaces|;
    && p + 14 + |value| <= |text|
    && (forall i | at <= i < p :: IsSpace(text[i]))
    && text[p..p + 10] == PropertyName()
    && text[p + 10] == ':' && text[p + 11] == ' ' && text[p + 12] == '\''
    && text[p + 13..p + 13 + |value|] == value
    && text[p + 13 + |value|] == '\''
  }

  lemma DefinesLiteral(text: string, at: nat, spaces: string, value: string)
    requires Defines(text, at, spaces, value) && Unescaped(value)
    ensures Unquoted(text, at + |spaces| + 13, '\'') == Some((value, at + |spaces| + 14 + |value|))
    ensures LiteralAt(text, at + |spaces| + 11)
         == Some(Literal(value, at + |spaces| + 12, at + |spaces| + 14 + |value|, '\''))
  {
    var p := at + |spaces|;
    forall j | p + 13 <= j < p + 13 + |value|
      ensures text[j] == value[j - p - 13]
    {
      assert text[j] == text[p + 13..p + 13 + |value|][j - p - 13];
    }
    UnquotedPlain(text, p + 13, value, '\'');
    SkipSpaceIs(text, p + 11, p + 12);
  }

  lemma DefinesClosing(text: string, at: nat, spaces: string, value: string, depth: int)
    requires Defines(text, at, spaces, value) && Unescaped(value)
    ensures Closing(text, Cursor(at, Code), depth) == Closing(text, Cursor(at + |spaces| + 14 + |value|, Code), depth)
  {
    hide Closing, IsSpace, IsIdent, Inert, PropertyName, Unquoted;
    var p := at + |spaces|;
    SpaceAndIdentInert();
    forall i | p <= i < p + 10
      ensures Inert(text[i])
    {
      assert text[i] == text[p..p + 10][i - p] == PropertyName()[i - p];
    }
    assert Inert(':') && Inert(' ') by { InertPunctuation(); }
    ClosingSkipsInert(text, at, p + 12, depth);
    DefinesLiteral(text, at, spaces, value);
    ClosingSkipsQuoted(text, p + 12, '\'', p + 14 + |value|, depth);
  }

  lemma InertPunctuation()
    ensures Inert(':') && Inert(' ') && Inert(',')
  {
  }

  lemma {:induction false} ColonSkipsSpace(body: string, property: string, p: nat, q: nat)
    requires p <= q <= |body| && forall i | p <= i < q :: IsSpace(body[i])
    ensures Colon(body, property, Cursor(p, Code), 0) == Colon(body, property, Cursor(q, Code), 0)
    decreases q - p
  {
    hide IsSpace, IsIdentStart, IsIdent, Plain, Bracket, Next, Named;
    if p < q {
      SpaceMeansNothing(body, p);
      ColonSkipsSpace(body, property, p + 1, q);
    }
  }

  lemma SpaceMeansNothing(body: string, p: nat)
    requires p < |body| && IsSpace(body[p])
    ensures Next(body, Cursor(p, Code)) == Cursor(p + 1, Code) && Bracket(body, Cursor(p, Code)) == 0
      && !IsIdentStart(body[p])
  {
  }

  lemma DefinesColon(text: string, spaces: string, value: string)
    requires Defines(text, 0, spaces, value)
    ensures Colon(text, PropertyName(), Cursor(0, Code), 0) == Some(|spaces| + 10)
  {
    hide IdentEnd, SkipSpace, PropertyName;
    var p := |spaces|;
    assert forall i | p <= i < p + 10 :: text[i] == text[p..p + 10][i - p] == PropertyName()[i - p];
    ColonSkipsSpace(text, PropertyName(), 0, p);
    IdentEndIs(text, p + 1, p + 10);
    SkipSpaceIs(text, p + 10, p + 10);
  }

  ghost predicate OptionIs(src: string, property: string, value: string) {
    StringOption(src, property).Ok? && StringOption(src, property).value.Some?
      && StringOption(src, property).value.value == value
  }

  // `out` is `src` with its options object's body edited so that it reads `value`.
  ghost predicate Connected(src: string, out: string, value: string)
    requires FindObject(src).Ok?
  {
    var t := FindObject(src).value;
    && |out| + t.closingBrace >= |src| + t.openingBrace + 1
    && var closing := t.closingBrace + |out| - |src|;
    && out[..t.openingBrace + 1] == src[..t.openingBrace + 1]
    && out[closing..] == src[t.closingBrace..]
    && FindObject(out) == Ok(StaticUiObject(t.call, t.openingBrace, closing))
    && OptionIs(out, PropertyName(), value)
  }

  lemma TextDefines(spaces: string, value: string, tail: char)
    requires forall i | 0 <= i < |spaces| :: IsSpace(spaces[i])
    ensures var text := spaces + Property(value) + [tail];
            Defines(text, 0, spaces, value) && |text| == |spaces| + 15 + |value| && text[|text| - 1] == tail
  {
  }

  lemma DefinesWithin(text: string, whole: string, at: nat, spaces: string, value: string)
    requires Defines(text, 0, spaces, value)
    requires at + |text| <= |whole| && whole[at..at + |text|] == text
    ensures Defines(whole, at, spaces, value)
  {
    var p := |spaces|;
    assert forall i | 0 <= i < |text| :: whole[at + i] == whole[at..at + |text|][i] == text[i];
    assert whole[at + p..at + p + 10] == text[p..p + 10];
    assert whole[at + p + 13..at + p + 13 + |value|] == text[p + 13..p + 13 + |value|];
  }

  lemma ClosingOpens(src: string, at: nat, depth: int)
    requires Is(src, at, '{')
    ensures Closing(src, Cursor(at, Code), depth) == Closing(src, Cursor(at + 1, Code), depth + 1)
  {
  }

  lemma ClosingCloses(src: string, at: nat)
    requires Is(src, at, '}')
    ensures Closing(src, Cursor(at, Code), 1) == Some(at)
  {
  }

  // Where the closing brace goes when text is put behind the opening brace.
  lemma InsertedClosing(src: string, out: string, open: nat, close: nat, text: string, spaces: string, value: string,
                        rest: nat)
    requires Is(src, open, '{') && Is(src, close, '}') && Closing(src, Cursor(open, Code), 0) == Some(close)
    requires Defines(text, 0, spaces, value) && Unescaped(value) && |text| == |spaces| + 15 + |value|
      && Inert(text[|text| - 1])
    requires rest == close || rest == open + 1
    requires Is(out, open, '{') && open + 1 + |text| <= |out|
    requires out[open + 1..open + 1 + |text|] == text && out[open + 1 + |text|..] == src[rest..]
    ensures Closing(out, Cursor(open, Code), 0) == Some(close - rest + open + 1 + |text|)
  {
    hide *;
    var at := open + 1;
    var q := at + |text|;
    DefinesWithin(text, out, at, spaces, value);
    DefinesClosing(out, at, spaces, value, 1);
    assert out[q - 1] == out[at..q][|text| - 1];
    ClosingSkipsInert(out, q - 1, q, 1);
    ClosingOpens(src, open, 0);
    ClosingOpens(out, open, 0);
    if rest == at {
      ClosingShifts(src, out, Cursor(at, Code), q, 1);
    } else {
      SuffixKeeps(src, out, close, q, '}');
      ClosingCloses(out, q);
    }
  }

  lemma SuffixKeeps(src: string, out: string, i: nat, i': nat, c: char)
    requires i <= |src| && i' <= |out| && src[i..] == out[i'..] && Is(src, i, c)
    ensures Is(out, i', c)
  {
  }

  lemma DefinesOption(text: string, spaces: string, value: string)
    requires Defines(text, 0, spaces, value) && Unescaped(value)
    ensures Reads(text, value)
  {
    DefinesColon(text, spaces, value);
    DefinesLiteral(text, 0, spaces, value);
  }

  // An edit behind the opening brace that keeps what the scanner sees.
  lemma EditConnects(src: string, t: StaticUiObject, out: string, value: string, closing: nat)
    requires FindObject(src) == Ok(t)
    requires closing == t.closingBrace + |out| - |src| && t.openingBrace < closing <= |out|
    requires out[..t.openingBrace + 1] == src[..t.openingBrace + 1] && out[closing..] == src[t.closingBrace..]
    requires Closing(out, Cursor(t.openingBrace, Code), 0) == Some(closing)
    requires Reads(out[t.openingBrace + 1..closing], value)
    ensures Connected(src, out, value)
  {
    hide *;
    FoundObject(src, t);
    ObjectAgrees(src, t, out, closing);
    OptionReads(out, StaticUiObject(t.call, t.openingBrace, closing), value);
    Assemble(src, t, out, value, closing);
  }

  lemma Assemble(src: string, t: StaticUiObject, out: string, value: string, closing: nat)
    requires FindObject(src) == Ok(t) && closing + |src| == t.closingBrace + |out|
    requires t.closingBrace <= |src| && t.openingBrace < closing <= |out| && t.openingBrace < |src|
    requires out[..t.openingBrace + 1] == src[..t.openingBrace + 1] && out[closing..] == src[t.closingBrace..]
    requires FindObject(out) == Ok(StaticUiObject(t.call, t.openingBrace, closing))
      && OptionIs(out, PropertyName(), value)
    ensures Connected(src, out, value)
  {
    hide FindObject, OptionIs, PropertyName;
  }

  lemma ObjectAgrees(src: string, t: StaticUiObject, out: string, closing: nat)
    requires FindObject(src) == Ok(t) && t.openingBrace < |out|
    requires out[..t.openingBrace + 1] == src[..t.openingBrace + 1]
    requires Closing(out, Cursor(t.openingBrace, Code), 0) == Some(closing)
    ensures t.openingBrace < closing < |out|
    ensures FindObject(out) == Ok(StaticUiObject(t.call, t.openingBrace, closing))
  {
    hide *;
    FoundObject(src, t);
    SamePrefix(src, out, t.openingBrace + 1);
    FindBraceAgrees(src, out);
    FindObjectIs(out, t.call, t.openingBrace, closing);
  }

  lemma FindObjectIs(src: string, call: nat, opening: nat, closing: nat)
    requires FindBrace(src) == Ok((call, opening)) && Closing(src, Cursor(opening, Code), 0) == Some(closing)
    ensures opening < closing < |src| && FindObject(src) == Ok(StaticUiObject(call, opening, closing))
  {
    hide FindBrace, Closing;
    assert FindObject(src).Ok?;
  }

  // What finding the object means for the scanner.
  lemma FoundObject(src: string, t: StaticUiObject)
    requires FindObject(src) == Ok(t)
    ensures FindBrace(src) == Ok((t.call, t.openingBrace))
    ensures Is(src, t.openingBrace, '{') && t.openingBrace < t.closingBrace < |src| && Is(src, t.closingBrace, '}')
    ensures Closing(src, Cursor(t.openingBrace, Code), 0) == Some(t.closingBrace)
  {
    hide FindBrace, Closing;
  }

  lemma OptionReads(out: string, t: StaticUiObject, value: string)
    requires FindObject(out) == Ok(t) && Reads(Body(out, t), value)
    ensures OptionIs(out, PropertyName(), value)
  {
    hide FindObject, Colon, LiteralAt, PropertyName;
  }

  // The property's value in an options object's body.
  ghost predicate Reads(body: string, value: string) {
    var colon := Colon(body, PropertyName(), Cursor(0, Code), 0);
    && colon.Some?
    && LiteralAt(body, colon.value + 1).Some? && LiteralAt(body, colon.value + 1).value.value == value
  }

  // New text behind the opening brace, the old body kept or, when blank, dropped.
  lemma InsertedConnects(src: string, t: StaticUiObject, spaces: string, tail: char, rest: nat, webPackage: string)
    requires FindObject(src) == Ok(t) && Unescaped(webPackage)
    requires forall i | 0 <= i < |spaces| :: IsSpace(spaces[i])
    requires Inert(tail)
    requires rest == t.closingBrace || rest == t.openingBrace + 1
    ensures Connected(src, Splice(src, t.openingBrace + 1, spaces + Property(webPackage) + [tail], rest), webPackage)
  {
    hide *;
    FoundObject(src, t);
    var at := t.openingBrace + 1;
    var text := spaces + Property(webPackage) + [tail];
    var out := Splice(src, at, text, rest);
    TextDefines(spaces, webPackage, tail);
    PrefixKeeps(src, out, at, t.openingBrace, '{');
    InsertedClosing(src, out, t.openingBrace, t.closingBrace, text, spaces, webPackage, rest);
    var closing := t.closingBrace - rest + at + |text|;
    ReplacedBody(src, out, at, t.closingBrace, at, rest, text);
    DefinesWithin(text, out[at..closing], 0, spaces, webPackage);
    DefinesOption(out[at..closing], spaces, webPackage);
    EditConnects(src, t, out, webPackage, closing);
  }

  // The scanner is in code at the value of the property.
  lemma ValueReached(body: string, property: string, colon: nat)
    requires Colon(body, property, Cursor(0, Code), 0) == Some(colon)
    requires LiteralAt(body, colon + 1).Some?
    ensures Reaches(body, Cursor(0, Code), Cursor(LiteralAt(body, colon + 1).value.start, Code))
  {
    hide Colon, Reaches, LiteralAt, Inert;
    var start := LiteralAt(body, colon + 1).value.start;
    LiteralStart(body, colon);
    ReachesSelf(body, Cursor(start, Code));
    ReachesInert(body, colon, start, Cursor(start, Code));
    ColonReached(body, property, Cursor(0, Code), 0, Cursor(start, Code));
  }

  lemma LiteralStart(body: string, colon: nat)
    requires Is(body, colon, ':') && LiteralAt(body, colon + 1).Some?
    ensures var literal := LiteralAt(body, colon + 1).value;
            && colon < literal.start < literal.end <= |body|
            && (forall i | colon <= i < literal.start :: Inert(body[i]))
            && Quoted(body, literal.start, literal.quote, literal.end)
            && SkipSpace(body, colon + 1) == literal.start && Is(body, literal.start, literal.quote)
            && (literal.quote == '\'' || literal.quote == '"')
  {
  }

  lemma ReachesSelf(src: string, c: Cursor)
    ensures Reaches(src, c, c)
  {
  }

  // A string literal that begins at `at` with the given value.
  ghost predicate Quoted(src: string, at: nat, quote: char, end: nat) {
    (quote == '\'' || quote == '"') && Is(src, at, quote)
    && Unquoted(src, at + 1, quote).Some? && Unquoted(src, at + 1, quote).value.1 == end
  }

  lemma ClosingSkipsQuoted(src: string, at: nat, quote: char, end: nat, depth: int)
    requires Quoted(src, at, quote, end)
    ensures Closing(src, Cursor(at, Code), depth) == Closing(src, Cursor(end, Code), depth)
  {
    ClosingSkipsLiteral(src, at + 1, quote, depth);
    assert Next(src, Cursor(at, Code)) == Cursor(at + 1, StringState(quote));
  }

  // Where the closing brace goes when one literal replaces another.
  lemma ReplacedClosing(src: string, out: string, open: nat, close: nat, at: nat, end: nat, end': nat, quote: char)
    requires Is(src, open, '{') && Is(out, open, '{') && Closing(src, Cursor(open, Code), 0) == Some(close)
    requires open < at <= close && Reaches(src, Cursor(open + 1, Code), Cursor(at, Code))
    requires Quoted(src, at, quote, end) && Quoted(out, at, quote, end')
    requires at < end <= |src| && at < end' <= |out| && Same(src, out, at + 1) && src[end..] == out[end'..]
    ensures Closing(out, Cursor(open, Code), 0) == Some(close - end + end')
  {
    hide Closing, Reaches, Quoted;
    ClosingOpens(src, open, 0);
    ClosingOpens(out, open, 0);
    var depth := ClosingAgrees(src, out, Cursor(open + 1, Code), at, 1);
    ClosingSkipsQuoted(src, at, quote, end, depth);
    ClosingSkipsQuoted(out, at, quote, end', depth);
    ClosingShifts(src, out, Cursor(end, Code), end', depth);
  }

  lemma QuotedPlain(out: string, at: nat, quote: char, webPackage: string)
    requires (quote == '\'' || quote == '"') && Unescaped(webPackage)
    requires at + 2 + |webPackage| <= |out| && out[at..at + 2 + |webPackage|] == [quote] + webPackage + [quote]
    ensures Unquoted(out, at + 1, quote) == Some((webPackage, at + 2 + |webPackage|)) && Is(out, at, quote)
    ensures Quoted(out, at, quote, at + 2 + |webPackage|)
  {
    hide Unquoted, Unescaped;
    var text := [quote] + webPackage + [quote];
    assert out[at] == out[at..at + 2 + |webPackage|][0] == text[0];
    assert out[at + 1 + |webPackage|] == out[at..at + 2 + |webPackage|][1 + |webPackage|] == text[1 + |webPackage|];
    forall j | at + 1 <= j < at + 1 + |webPackage|
      ensures out[j] == webPackage[j - at - 1]
    {
      assert out[j] == out[at..at + 2 + |webPackage|][j - at] == text[j - at];
    }
    UnquotedPlain(out, at + 1, webPackage, quote);
  }

  lemma LiteralIs(src: string, from: nat, start: nat, quote: char, value: string, end: nat)
    requires from <= |src| && SkipSpace(src, from) == start && Is(src, start, quote) && (quote == '\'' || quote == '"')
    requires Unquoted(src, start + 1, quote) == Some((value, end))
    ensures LiteralAt(src, from) == Some(Literal(value, start, end, quote))
  {
  }

  // A body that is unchanged through the quote of its property's value.
  lemma ReplacedReads(body: string, body': string, colon: nat, webPackage: string)
    requires Colon(body, PropertyName(), Cursor(0, Code), 0) == Some(colon)
    requires LiteralAt(body, colon + 1).Some? && Unescaped(webPackage)
    requires var old' := LiteralAt(body, colon + 1).value;
             && old'.start + 2 + |webPackage| <= |body'| && body'[..old'.start] == body[..old'.start]
             && body'[old'.start..old'.start + 2 + |webPackage|] == [old'.quote] + webPackage + [old'.quote]
    ensures Reads(body', webPackage)
  {
    hide Colon, Unescaped, SkipSpace, LiteralAt, Quoted, Unquoted;
    LiteralStart(body, colon);
    var old' := LiteralAt(body, colon + 1).value;
    QuotedPlain(body', old'.start, old'.quote, webPackage);
    SamePrefix(body, body', old'.start);
    SameLess(body, body', old'.start, colon + 1);
    ColonAgrees(body, body', PropertyName(), Cursor(0, Code), 0);
    SameMore(body, body', old'.start, old'.quote);
    SkipSpaceAgrees(body, body', colon + 1, old'.start + 1);
    LiteralIs(body', colon + 1, old'.start, old'.quote, webPackage, old'.start + 2 + |webPackage|);
  }

  lemma ReplacedCloses(src: string, out: string, open: nat, close: nat, body: string, property: string, colon: nat,
                       l: Literal, end': nat)
    requires Is(src, open, '{') && Is(out, open, '{') && open < close <= |src|
      && Closing(src, Cursor(open, Code), 0) == Some(close)
    requires body == src[open + 1..close] && Colon(body, property, Cursor(0, Code), 0) == Some(colon)
    requires LiteralAt(body, colon + 1) == Some(l)
    requires open + 1 + l.start < end' <= |out| && open + 1 + l.end <= |src|
    requires Quoted(out, open + 1 + l.start, l.quote, end')
    requires Same(src, out, open + 2 + l.start) && out[end'..] == src[open + 1 + l.end..]
    ensures Closing(out, Cursor(open, Code), 0) == Some(close - l.end + end' - open - 1)
  {
    hide *;
    LiteralStart(body, colon);
    ValueReached(body, property, colon);
    ReachesLifts(src, open + 1, close, Cursor(0, Code), Cursor(l.start, Code));
    QuotedLifts(src, open + 1, close, l.start, l.quote, l.end);
    ReplacedClosing(src, out, open, close, open + 1 + l.start, open + 1 + l.end, end', l.quote);
  }

  // A literal spliced in place of another that began with the same quote.
  lemma SplicedLiteral(src: string, at: nat, quote: char, value: string, end: nat)
    requires at < end <= |src| && Is(src, at, quote) && (quote == '\'' || quote == '"') && Unescaped(value)
    ensures var out := Splice(src, at, [quote] + value + [quote], end);
            Quoted(out, at, quote, at + 2 + |value|) && Same(src, out, at + 1)
  {
    hide *;
    var out := Splice(src, at, [quote] + value + [quote], end);
    QuotedPlain(out, at, quote, value);
    SamePrefix(src, out, at);
    SameMore(src, out, at, quote);
  }

  lemma PrefixKeeps(src: string, out: string, n: nat, i: nat, c: char)
    requires i < n <= |src| && n <= |out| && out[..n] == src[..n] && Is(src, i, c)
    ensures Is(out, i, c)
  {
  }

  // Another literal in place of the default package's.
  lemma ReplacedConnects(src: string, t: StaticUiObject, colon: nat, webPackage: string)
    requires FindObject(src) == Ok(t) && Colon(Body(src, t), PropertyName(), Cursor(0, Code), 0) == Some(colon)
    requires LiteralAt(Body(src, t), colon + 1).Some? && Unescaped(webPackage)
    ensures var l := LiteralAt(Body(src, t), colon + 1).value;
            var after := t.openingBrace + 1;
            && after + l.start <= after + l.end <= |src|
            && Connected(src, Splice(src, after + l.start, [l.quote] + webPackage + [l.quote], after + l.end), webPackage)
  {
    hide *;
    var l := LiteralAt(Body(src, t), colon + 1).value;
    LiteralStart(Body(src, t), colon);
    FoundObject(src, t);
    LiteralWithin(src, t.openingBrace + 1, t.closingBrace, l.start, l.quote);
    ReplacedPart(src, t, colon, l, webPackage);
    ReplacedRest(src, t, colon, l, webPackage);
  }

  lemma ReplacedPart(src: string, t: StaticUiObject, colon: nat, l: Literal, webPackage: string)
    requires FindObject(src) == Ok(t) && Colon(Body(src, t), PropertyName(), Cursor(0, Code), 0) == Some(colon)
    requires LiteralAt(Body(src, t), colon + 1) == Some(l) && Unescaped(webPackage)
      && colon < l.start < l.end <= |Body(src, t)|
    requires Is(src, t.openingBrace + 1 + l.start, l.quote) && (l.quote == '\'' || l.quote == '"')
    ensures var out := Splice(src, t.openingBrace + 1 + l.start, [l.quote] + webPackage + [l.quote], t.openingBrace + 1 + l.end);
            Closing(out, Cursor(t.openingBrace, Code), 0) == Some(t.closingBrace - l.end + l.start + 2 + |webPackage|)
  {
    hide *;
    FoundObject(src, t);
    var at, end := t.openingBrace + 1 + l.start, t.openingBrace + 1 + l.end;
    var text := [l.quote] + webPackage + [l.quote];
    assert |text| == 2 + |webPackage|;
    var out := Splice(src, at, text, end);
    SplicedLiteral(src, at, l.quote, webPackage, end);
    PrefixKeeps(src, out, at, t.openingBrace, '{');
    ReplacedCloses(src, out, t.openingBrace, t.closingBrace, Body(src, t), PropertyName(), colon, l, at + |text|);
  }

  lemma ReplacedRest(src: string, t: StaticUiObject, colon: nat, l: Literal, webPackage: string)
    requires FindObject(src) == Ok(t) && Colon(Body(src, t), PropertyName(), Cursor(0, Code), 0) == Some(colon)
    requires LiteralAt(Body(src, t), colon + 1) == Some(l) && Unescaped(webPackage)
      && colon < l.start < l.end <= |Body(src, t)|
    requires var out := Splice(src, t.openingBrace + 1 + l.start, [l.quote] + webPackage + [l.quote], t.openingBrace + 1 + l.end);
             Closing(out, Cursor(t.openingBrace, Code), 0) == Some(t.closingBrace - l.end + l.start + 2 + |webPackage|)
    ensures var out := Splice(src, t.openingBrace + 1 + l.start, [l.quote] + webPackage + [l.quote], t.openingBrace + 1 + l.end);
            Connected(src, out, webPackage)
  {
    hide *;
    FoundObject(src, t);
    var after := t.openingBrace + 1;
    var at, end := after + l.start, after + l.end;
    var text := [l.quote] + webPackage + [l.quote];
    var out := Splice(src, at, text, end);
    var closing := t.closingBrace - end + at + |text|;
    ReplacedBody(src, out, after, t.closingBrace, at, end, text);
    ReplacedReads(Body(src, t), out[after..closing], colon, webPackage);
    assert out[..after] == out[..at][..after] == src[..after];
    EditConnects(src, t, out, webPackage, closing);
  }

  lemma LiteralWithin(src: string, a: nat, b: nat, i: nat, c: char)
    requires a <= b <= |src| && Is(src[a..b], i, c)
    ensures Is(src, a + i, c)
  {
  }

  // The part of the text between `a` and `b`, after a splice inside it.
  lemma ReplacedBody(src: string, out: string, a: nat, b: nat, at: nat, end: nat, text: string)
    requires a <= at <= end <= b <= |src|
    requires |out| == |src| + |text| - end + at
    requires out[..at] == src[..at] && out[at..at + |text|] == text && out[at + |text|..] == src[end..]
    ensures var b' := b - end + at + |text|;
            && b' <= |out| && out[b'..] == src[b..]
            && out[a..b'][..at - a] == src[a..b][..at - a]
            && out[a..b'][at - a..at - a + |text|] == text
  {
    var b' := b - end + at + |text|;
    assert out[b'..] == out[at + |text|..][b - end..] == src[end..][b - end..];
    assert out[a..b'][..at - a] == out[..at][a..] == src[..at][a..];
    assert out[a..b'][at - a..at - a + |text|] == out[at..at + |text|];
  }

  lemma QuotedLifts(src: string, a: nat, b: nat, at: nat, quote: char, end: nat)
    requires a <= b <= |src| && Quoted(src[a..b], at, quote, end)
    ensures Quoted(src, a + at, quote, a + end)
  {
    UnquotedLifts(src, a, b, at + 1, quote);
  }

  // ---- main results ----------------------------------------------------------

  lemma InsertionShape(src: string, target: StaticUiObject, webPackage: string) returns (spaces: string)
    requires target.call < |src| && src[target.call] != '\n'
    ensures forall i | 0 <= i < |spaces| :: IsSpace(spaces[i])
    ensures Insertion(src, target, webPackage) == spaces + Property(webPackage) + [',']
  {
    hide Property;
    var indent := LeadingSpace(src[LineStart(src, target.call)..target.call]);
    var eol := if HasCrLf(src) then "\r\n" else "\n";
    if Is(src, target.openingBrace + 1, '\n') || Is(src, target.openingBrace + 1, '\r') {
      spaces := eol + indent + "  ";
    } else {
      spaces := " ";
    }
  }

  lemma UnchangedConnects(src: string, t: StaticUiObject, webPackage: string)
    requires FindObject(src) == Ok(t) && Reads(Body(src, t), webPackage)
    ensures Connected(src, src, webPackage)
  {
    hide *;
    FoundObject(src, t);
    EditConnects(src, t, src, webPackage, t.closingBrace);
  }

  // Patching keeps everything through the opening brace and from the closing
  // brace on; the scanner finds the same braces in the output, and the option
  // read back from it is the requested package.
  lemma PatchConnects(src: string, webPackage: string)
    requires Patch(src, webPackage).Ok? && Unescaped(webPackage)
    ensures Connected(src, Patch(src, webPackage).value.output, webPackage)
  {
    hide Closing, Colon, LiteralAt, FindBrace, FindObject, Splice, Insertion;
    hide Property, SkipSpace, Connected, Unescaped, PropertyName, DefaultPackage;
    var t := FindObject(src).value;
    var after := t.openingBrace + 1;
    var out := Patch(src, webPackage).value.output;
    var colon := Colon(Body(src, t), PropertyName(), Cursor(0, Code), 0);
    if colon.Some? {
      var l := LiteralAt(Body(src, t), colon.value + 1).value;
      if l.value == webPackage {
        UnchangedConnects(src, t, webPackage);
      } else {
        ReplacedConnects(src, t, colon.value, webPackage);
      }
    } else if SkipSpace(Body(src, t), 0) == |Body(src, t)| {
      InsertedConnects(src, t, " ", ' ', t.closingBrace, webPackage);
    } else {
      var spaces := InsertionShape(src, t, webPackage);
      InsertedConnects(src, t, spaces, ',', after, webPackage);
    }
  }

  // Patching the output again changes nothing.
  lemma PatchIsIdempotent(src: string, webPackage: string)
    requires Patch(src, webPackage).Ok? && Unescaped(webPackage)
    ensures Patch(Patch(src, webPackage).value.output, webPackage) ==
      Ok(ModulePatch(Patch(src, webPackage).value.output, false))
  {
    hide Closing, Colon, LiteralAt, FindBrace, FindObject, Splice;
    hide Insertion, Property, SkipSpace, PropertyName, DefaultPackage;
    PatchConnects(src, webPackage);
  }

  // The alphabet that the command accepts for a UI directory.
  predicate SafeUiDir(dir: string) {
    forall i | 0 <= i < |dir| ::
      'a' <= dir[i] <= 'z' || 'A' <= dir[i] <= 'Z' || '0' <= dir[i] <= '9' || dir[i] == '.' || dir[i] == '_'
        || dir[i] == '/' || dir[i] == '-'
  }

  lemma SafeUiDirPatches(src: string, dir: string)
    requires SafeUiDir(dir)
    ensures var webPackage := "./" + dir;
            var patch := Patch(src, webPackage);
            patch.Ok? ==>
              && FindObject(src).Ok? && Connected(src, patch.value.output, webPackage)
              && Patch(patch.value.output, webPackage) == Ok(ModulePatch(patch.value.output, false))
  {
    var webPackage := "./" + dir;
    hide Connected, Colon, LiteralAt, Splice, Insertion, FindObject;
    assert Unescaped(webPackage);
    if Patch(src, webPackage).Ok? {
      PatchConnects(src, webPackage);
      PatchIsIdempotent(src, webPackage);
    }
  }
}
