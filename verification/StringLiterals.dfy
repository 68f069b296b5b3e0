// `typescriptString`, the printer of string literals in generated code, against
// `stringLiteralAt`, the parser of string literals in existing code.
module StringLiterals {
  import opened Prelude
  import opened Scanner

  // `replaceAll` of one character.
  function ReplaceAll(s: string, c: char, sub: string): string {
    if s == "" then "" else (if s[0] == c then sub else [s[0]]) + ReplaceAll(s[1..], c, sub)
  }

  const LINE_SEPARATOR: char := '\U{2028}'
  const PARAGRAPH_SEPARATOR: char := '\U{2029}'

  // The six passes, one after the other.
  function Escape(s: string): string {
    var s1 := ReplaceAll(s, '\\', "\\\\");
    var s2 := ReplaceAll(s1, '\'', "\\'");
    var s3 := ReplaceAll(s2, '\r', "\\r");
    var s4 := ReplaceAll(s3, '\n', "\\n");
    var s5 := ReplaceAll(s4, LINE_SEPARATOR, "\\u2028");
    ReplaceAll(s5, PARAGRAPH_SEPARATOR, "\\u2029")
  }

  function TypescriptString(s: string): string {
    "'" + Escape(s) + "'"
  }

  // What one character becomes, and what the parser makes of that.
  function EscapeOne(c: char): string {
    if c == '\\' then "\\\\"
    else if c == '\'' then "\\'"
    else if c == '\r' then "\\r"
    else if c == '\n' then "\\n"
    else if c == LINE_SEPARATOR then "\\u2028"
    else if c == PARAGRAPH_SEPARATOR then "\\u2029"
    else [c]
  }

  function ReadBack(c: char): string {
    if c == '\r' then "r"
    else if c == '\n' then "n"
    else if c == LINE_SEPARATOR then "u2028"
    else if c == PARAGRAPH_SEPARATOR then "u2029"
    else [c]
  }

  function EachEscaped(s: string): string {
    if s == "" then "" else EscapeOne(s[0]) + EachEscaped(s[1..])
  }

  function EachReadBack(s: string): string {
    if s == "" then "" else ReadBack(s[0]) + EachReadBack(s[1..])
  }

  predicate NeedsEscapeSequence(c: char) {
    c == '\r' || c == '\n' || c == LINE_SEPARATOR || c == PARAGRAPH_SEPARATOR
  }

  lemma {:induction false} ReplaceAllConcat(a: string, b: string, c: char, sub: string)
    ensures ReplaceAll(a + b, c, sub) == ReplaceAll(a, c, sub) + ReplaceAll(b, c, sub)
  {
    if a == "" {
      assert a + b == b;
    } else {
      assert (a + b)[0] == a[0] && (a + b)[1..] == a[1..] + b;
      ReplaceAllConcat(a[1..], b, c, sub);
      var head := if a[0] == c then sub else [a[0]];
      assert head + (ReplaceAll(a[1..], c, sub) + ReplaceAll(b, c, sub)) ==
        head + ReplaceAll(a[1..], c, sub) + ReplaceAll(b, c, sub);
    }
  }

  lemma EscapeConcat(a: string, b: string)
    ensures Escape(a + b) == Escape(a) + Escape(b)
  {
    var a1, b1 := ReplaceAll(a, '\\', "\\\\"), ReplaceAll(b, '\\', "\\\\");
    var a2, b2 := ReplaceAll(a1, '\'', "\\'"), ReplaceAll(b1, '\'', "\\'");
    var a3, b3 := ReplaceAll(a2, '\r', "\\r"), ReplaceAll(b2, '\r', "\\r");
    var a4, b4 := ReplaceAll(a3, '\n', "\\n"), ReplaceAll(b3, '\n', "\\n");
    var a5, b5 := ReplaceAll(a4, LINE_SEPARATOR, "\\u2028"), ReplaceAll(b4, LINE_SEPARATOR, "\\u2028");
    ReplaceAllConcat(a, b, '\\', "\\\\");
    ReplaceAllConcat(a1, b1, '\'', "\\'");
    ReplaceAllConcat(a2, b2, '\r', "\\r");
    ReplaceAllConcat(a3, b3, '\n', "\\n");
    ReplaceAllConcat(a4, b4, LINE_SEPARATOR, "\\u2028");
    ReplaceAllConcat(a5, b5, PARAGRAPH_SEPARATOR, "\\u2029");
  }

  // A text without `c` is left alone.
  lemma {:induction false} ReplaceAllAbsent(s: string, c: char, sub: string)
    requires forall i | 0 <= i < |s| :: s[i] != c
    ensures ReplaceAll(s, c, sub) == s
  {
    if s != "" {
      ReplaceAllAbsent(s[1..], c, sub);
      assert s == [s[0]] + s[1..];
    }
  }

  lemma ReplaceOne(c: char, d: char, sub: string)
    ensures ReplaceAll([c], d, sub) == if c == d then sub else [c]
  {
  }

  lemma EscapeSingle(c: char)
    ensures Escape([c]) == EscapeOne(c)
  {
    hide ReplaceAll;
    var done := EscapeOne(c);
    ReplaceOne(c, '\\', "\\\\");
    ReplaceOne(c, '\'', "\\'");
    ReplaceOne(c, '\r', "\\r");
    ReplaceOne(c, '\n', "\\n");
    ReplaceOne(c, LINE_SEPARATOR, "\\u2028");
    ReplaceOne(c, PARAGRAPH_SEPARATOR, "\\u2029");
    if c == '\\' {
      ReplaceAllAbsent(done, '\'', "\\'");
    }
    if c == '\\' || c == '\'' {
      ReplaceAllAbsent(done, '\r', "\\r");
    }
    if c == '\\' || c == '\'' || c == '\r' {
      ReplaceAllAbsent(done, '\n', "\\n");
    }
    if c == '\\' || c == '\'' || c == '\r' || c == '\n' {
      ReplaceAllAbsent(done, LINE_SEPARATOR, "\\u2028");
    }
    if c == '\\' || c == '\'' || c == '\r' || c == '\n' || c == LINE_SEPARATOR {
      ReplaceAllAbsent(done, PARAGRAPH_SEPARATOR, "\\u2029");
    }
  }

  // The sequential passes are one pass.
  lemma {:induction false} EscapeIsOnePass(s: string)
    ensures Escape(s) == EachEscaped(s)
  {
    hide Escape;
    if s == "" {
      EscapeEmpty();
    } else {
      assert s == [s[0]] + s[1..];
      EscapeConcat([s[0]], s[1..]);
      EscapeSingle(s[0]);
      EscapeIsOnePass(s[1..]);
    }
  }

  lemma EscapeEmpty()
    ensures Escape("") == ""
  {
  }

  // ---- parsing the printed literal -----------------------------------------

  // Characters that stand for themselves.
  lemma {:induction false} UnquotedRun(src: string, i: nat, text: string)
    requires i + |text| <= |src|
    requires forall j | 0 <= j < |text| :: src[i + j] == text[j] && text[j] != '\\' && text[j] != '\''
    ensures Unquoted(src, i, '\'') == Prepend(text, Unquoted(src, i + |text|, '\''))
    decreases |text|
  {
    if text == "" {
      PrependNothing(Unquoted(src, i, '\''));
    } else {
      assert src[i + 0] == text[0];
      forall j | 0 <= j < |text[1..]|
        ensures src[i + 1 + j] == text[1..][j] && text[1..][j] != '\\' && text[1..][j] != '\''
      {
        assert src[i + (j + 1)] == text[j + 1];
      }
      UnquotedRun(src, i + 1, text[1..]);
      PrependTwice([text[0]], text[1..], Unquoted(src, i + |text|, '\''));
      assert text == [text[0]] + text[1..];
    }
  }

  lemma EscapeShape(c: char)
    ensures var e := EscapeOne(c);
            if |e| == 1 then e == ReadBack(c) == [c] && c != '\\' && c != '\''
            else |e| >= 2 && e[0] == '\\' && e[1..] == ReadBack(c) && forall j | 2 <= j < |e| ::
              e[j] != '\\' && e[j] != '\''
  {
  }

  // One escaped character, read back.
  lemma UnquotedOne(src: string, i: nat, c: char)
    requires i + |EscapeOne(c)| <= |src|
    requires forall j | 0 <= j < |EscapeOne(c)| :: src[i + j] == EscapeOne(c)[j]
    ensures Unquoted(src, i, '\'') == Prepend(ReadBack(c), Unquoted(src, i + |EscapeOne(c)|, '\''))
  {
    hide EscapeOne, ReadBack;
    var e := EscapeOne(c);
    EscapeShape(c);
    if |e| == 1 {
      UnquotedRun(src, i, e);
    } else {
      assert src[i + 0] == e[0] && src[i + 1] == e[1];
      forall j | 0 <= j < |e[2..]|
        ensures src[i + 2 + j] == e[2..][j] && e[2..][j] != '\\' && e[2..][j] != '\''
      {
        assert src[i + (j + 2)] == e[j + 2];
      }
      UnquotedRun(src, i + 2, e[2..]);
      PrependTwice([e[1]], e[2..], Unquoted(src, i + |e|, '\''));
      assert [e[1]] + e[2..] == e[1..];
    }
  }

  lemma SplitAt(src: string, i: nat, e: string, rest: string)
    requires i <= |src| && src[i..] == e + rest
    ensures i + |e| <= |src| && src[i + |e|..] == rest
    ensures forall j | 0 <= j < |e| :: src[i + j] == e[j]
  {
  }

  lemma {:induction false} UnquotedSteps(src: string, i: nat, s: string)
    requires i <= |src| && src[i..] == EachEscaped(s) + "'"
    ensures Unquoted(src, i, '\'') == Some((EachReadBack(s), |src|))
    decreases |s|
  {
    hide EscapeOne, ReadBack, Prepend;
    if s == "" {
      assert src[i] == src[i..][0] == '\'';
    } else {
      hide Unquoted;
      var e, rest := EscapeOne(s[0]), EachEscaped(s[1..]) + "'";
      assert e + EachEscaped(s[1..]) + "'" == e + rest;
      SplitAt(src, i, e, rest);
      UnquotedOne(src, i, s[0]);
      UnquotedSteps(src, i + |e|, s[1..]);
      PrependSome(ReadBack(s[0]), EachReadBack(s[1..]), |src|);
    }
  }

  lemma PrependSome(a: string, b: string, end: nat)
    ensures Prepend(a, Some((b, end))) == Some((a + b, end))
  {
  }

  // The parser reads a printed literal to its end and returns the string, with
  // each line terminator replaced by the letters of its escape sequence.
  lemma PrintThenParse(s: string)
    ensures LiteralAt(TypescriptString(s), 0) == Some(Literal(EachReadBack(s), 0, |TypescriptString(s)|, '\''))
  {
    EscapeIsOnePass(s);
    UnquotedSteps(TypescriptString(s), 1, s);
  }

  lemma {:induction false} ReadBackIsIdentity(s: string)
    ensures EachReadBack(s) == s <==> forall i | 0 <= i < |s| :: !NeedsEscapeSequence(s[i])
  {
    if s != "" {
      ReadBackIsIdentity(s[1..]);
      assert s == [s[0]] + s[1..];
      var head := ReadBack(s[0]);
      if NeedsEscapeSequence(s[0]) {
        assert EachReadBack(s)[0] == head[0] != s[0];
      } else {
        assert EachReadBack(s) == [s[0]] + EachReadBack(s[1..]);
        assert EachReadBack(s)[1..] == EachReadBack(s[1..]);
        assert (forall i | 0 <= i < |s| :: !NeedsEscapeSequence(s[i])) <==>
          (forall i | 0 <= i < |s[1..]| :: !NeedsEscapeSequence(s[1..][i]));
      }
    }
  }

  // Printing and parsing undo each other exactly on the strings without
  // carriage returns, line feeds and Unicode line or paragraph separators.
  lemma RoundTripExactly(s: string)
    ensures LiteralAt(TypescriptString(s), 0).Some?
    ensures LiteralAt(TypescriptString(s), 0).value.end == |TypescriptString(s)|
    ensures LiteralAt(TypescriptString(s), 0).value.value == s <==>
      forall i | 0 <= i < |s| :: !NeedsEscapeSequence(s[i])
  {
    PrintThenParse(s);
    ReadBackIsIdentity(s);
  }
}
