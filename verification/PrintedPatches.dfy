// What the patcher answers for a module of such a text, character by character.
module PrintedPatches {
  import opened Prelude
  import opened Scanner
  import opened PrintedText
  import opened PrintedModules
  import opened PropertySearch
  import opened UiPatcher

  predicate AllBlank(s: string) {
    forall i | 0 <= i < |s| :: Blank(s[i])
  }

  lemma BlanksEnd(src: string, i: nat, blanks: string)
    requires Stands(src, i, blanks) && AllBlank(blanks)
    requires i + |blanks| < |src| ==> !IsSpace(src[i + |blanks|])
    ensures SkipSpace(src, i) == i + |blanks|
  {
    forall j | i <= j < i + |blanks|
      ensures IsSpace(src[j])
    {
      StandsAt(src, i, blanks, j - i);
      BlanksAndWords(src[j]);
    }
    SkipSpaceIs(src, i, i + |blanks|);
  }

  // ---- a property that is there --------------------------------------------

  lemma WordStands(src: string, i: nat, word: string)
    requires IsWord(word) && Stands(src, i, word)
    requires i + |word| < |src| ==> !WordPart(src[i + |word|])
    ensures i < |src| && IsIdentStart(src[i]) && Plain(src, Cursor(i, Code)) && IdentEnd(src, i + 1) == i + |word|
  {
    forall j | i <= j < i + |word|
      ensures IsIdent(src[j])
    {
      StandsAt(src, i, word, j - i);
      BlanksAndWords(src[j]);
    }
    StandsAt(src, i, word, 0);
    BlanksAndWords(src[i]);
    if i + |word| < |src| {
      BlanksAndWords(src[i + |word|]);
    }
    IdentEndIs(src, i + 1, i + |word|);
    IdentIsPlain(src, i);
  }

  lemma NotInside(body: string, i: nat)
    requires i <= |body| && (i > 0 ==> !WordPart(body[i - 1]))
    ensures !Inside(body, i)
  {
    if i > 0 {
      BlanksAndWords(body[i - 1]);
    }
  }

  // A body whose first `property` outside brackets has a colon behind it.
  ghost predicate HasProperty(body: string, before: seq<Tree>, property: string, blanks: string) {
    && AllMatch(before) && IsWord(property) && AllBlank(blanks)
    && Stands(body, 0, SpellAll(before) + (property + (blanks + ":")))
    && TopFree(body, 0, before, property)
    && (SpellAll(before) != "" ==> !WordPart(SpellAll(before)[|SpellAll(before)| - 1]))
  }

  lemma ColonAfterBlanks(body: string, at: nat, property: string, blanks: string)
    requires IsWord(property) && AllBlank(blanks) && Stands(body, at, property + (blanks + ":"))
    ensures at < |body| && IsIdentStart(body[at]) && Plain(body, Cursor(at, Code))
    ensures IdentEnd(body, at + 1) == at + |property| && Named(body, property, at, at + |property|)
    ensures SkipSpace(body, at + |property|) == at + |property| + |blanks|
  {
    hide Stands, IdentEnd, SkipSpace, IsWord, AllBlank, WordPart;
    StandsParts(body, at, property, blanks + ":");
    StandsParts(body, at + |property|, blanks, ":");
    StandsAt(body, at + |property| + |blanks|, ":", 0);
    AfterWord(body, at, property, blanks);
  }

  lemma AfterWord(body: string, at: nat, property: string, blanks: string)
    requires IsWord(property) && AllBlank(blanks) && Stands(body, at, property)
    requires Stands(body, at + |property|, blanks) && Is(body, at + |property| + |blanks|, ':')
    ensures at < |body| && IsIdentStart(body[at]) && Plain(body, Cursor(at, Code))
    ensures IdentEnd(body, at + 1) == at + |property| && Named(body, property, at, at + |property|)
    ensures SkipSpace(body, at + |property|) == at + |property| + |blanks|
  {
    hide IdentEnd, SkipSpace;
    if blanks != "" {
      StandsAt(body, at + |property|, blanks, 0);
      BlanksAndWords(blanks[0]);
    }
    WordStands(body, at, property);
    BlanksEnd(body, at + |property|, blanks);
  }

  lemma PropertyFound(body: string, before: seq<Tree>, property: string, blanks: string)
    requires HasProperty(body, before, property, blanks)
    ensures Colon(body, property, Cursor(0, Code), 0) == Some(|SpellAll(before)| + |property| + |blanks|)
  {
    hide Colon, Spot, TopFree, AllMatch, Named, IdentEnd, SkipSpace, Inside, Stands, SpellAll, Plain, IsWord, AllBlank;
    var text, at := SpellAll(before), |SpellAll(before)|;
    StandsParts(body, 0, text, property + (blanks + ":"));
    ColonAfterBlanks(body, at, property, blanks);
    EdgeOfText(body, text);
    SpotHere(body, property, at, at + |property|);
    TreesSpots(body, 0, before, property, 0);
    forall j: nat | j < at
      ensures !Spot(body, property, Cursor(0, Code), 0, j)
    {
      if Spot(body, property, Cursor(at, Code), 0, j) {
        SpotIsAhead(body, property, Cursor(at, Code), 0, j);
      }
    }
    FirstIsUnique(body, property, at);
  }

  lemma EdgeOfText(body: string, text: string)
    requires Stands(body, 0, text) && (text != "" ==> !WordPart(text[|text| - 1]))
    ensures !Inside(body, |text|)
  {
    if text != "" {
      StandsAt(body, 0, text, |text| - 1);
    }
    NotInside(body, |text|);
  }

  lemma SpotHere(body: string, property: string, at: nat, end: nat)
    requires at < |body| && IsIdentStart(body[at]) && Plain(body, Cursor(at, Code)) && !Inside(body, at)
    requires IdentEnd(body, at + 1) == end && Named(body, property, at, end)
    ensures Spot(body, property, Cursor(at, Code), 0, at)
  {
    hide Inside, Named, IdentEnd, Plain;
  }

  lemma FirstIsUnique(body: string, property: string, at: nat)
    requires Spot(body, property, Cursor(0, Code), 0, at) && forall j: nat | j < at ::
      !Spot(body, property, Cursor(0, Code), 0, j)
    ensures Colon(body, property, Cursor(0, Code), 0) == Some(SkipSpace(body, IdentEnd(body, at + 1)))
  {
    hide Colon, Spot, IdentEnd, SkipSpace;
    ColonMeans(body, property);
    var i: nat :| Spot(body, property, Cursor(0, Code), 0, i)
      && Colon(body, property, Cursor(0, Code), 0) == Some(SkipSpace(body, IdentEnd(body, i + 1)))
      && forall j: nat | j < i :: !Spot(body, property, Cursor(0, Code), 0, j);
    assert i == at;
  }

  // ---- the call and its object ---------------------------------------------

  // The text of a module: what stands before the call, the call up to its
  // parenthesis, blanks, the object, and the rest.
  datatype Module = Module(pre: seq<Tree>, gap: string, blanks: string, inner: seq<Tree>, rest: string)

  const CALL := "ModernAdminStaticUiModule.forRoot"

  function Head(m: Module): string {
    SpellAll(m.pre) + (CALL + (m.gap + ("(" + (m.blanks + "{"))))
  }

  function Print(m: Module): string {
    Head(m) + (SpellAll(m.inner) + ("}" + m.rest))
  }

  ghost predicate IsModule(m: Module) {
    && AllMatch(m.pre) && AllMatch(m.inner) && AllBlank(m.blanks)
    && Free(Print(m), 0, m.pre, CALL) && forall i | 0 <= i < |m.gap| :: m.gap[i] != '('
  }

  lemma {:induction false} IndexOfIs(src: string, c: char, from: nat, k: nat)
    requires from <= k < |src| && src[k] == c && forall j | from <= j < k :: src[j] != c
    ensures IndexOf(src, c, from) == Some(k)
    decreases k - from
  {
    if from < k {
      IndexOfIs(src, c, from + 1, k);
    }
  }

  lemma HeadParts(src: string, m: Module)
    requires Stands(src, 0, Head(m))
    ensures var n := |SpellAll(m.pre)|;
            var paren := n + 33 + |m.gap|;
            var brace := paren + 1 + |m.blanks|;
            && |Head(m)| == brace + 1
            && Stands(src, 0, SpellAll(m.pre)) && Stands(src, n, CALL) && Stands(src, n + 33, m.gap)
            && Stands(src, paren, "(") && Stands(src, paren + 1, m.blanks) && Stands(src, brace, "{")
  {
    hide Stands, SpellAll;
    var n, k := |SpellAll(m.pre)|, |m.gap|;
    assert |CALL| == 33;
    StandsParts(src, 0, SpellAll(m.pre), CALL + (m.gap + ("(" + (m.blanks + "{"))));
    StandsParts(src, n, CALL, m.gap + ("(" + (m.blanks + "{")));
    StandsParts(src, n + 33, m.gap, "(" + (m.blanks + "{"));
    StandsParts(src, n + 33 + k, "(", m.blanks + "{");
    StandsParts(src, n + 34 + k, m.blanks, "{");
  }

  lemma ObjectStands(src: string, m: Module)
    requires Stands(src, 0, Head(m) + (SpellAll(m.inner) + ("}" + m.rest)))
    requires |Head(m)| > 0 && Stands(src, |Head(m)| - 1, "{")
    ensures Stands(src, 0, Head(m)) && Stands(src, |Head(m)|, SpellAll(m.inner))
    ensures Stands(src, |Head(m)| - 1, SpellTree(Nest('{', m.inner)))
  {
    hide Stands, Head, SpellAll;
    var n, text := |Head(m)|, SpellAll(m.inner);
    StandsParts(src, 0, Head(m), text + ("}" + m.rest));
    StandsParts(src, n, text, "}" + m.rest);
    StandsParts(src, n + |text|, "}", m.rest);
    StandsParts(src, n - 1, "{", text);
    StandsParts(src, n - 1, "{" + text, "}");
  }

  lemma PrintStands(m: Module)
    ensures Stands(Print(m), 0, Print(m)) && Stands(Print(m), 0, Head(m))
  {
    hide Head, SpellAll;
    var src := Print(m);
    assert src[0..|src|] == src;
    StandsParts(src, 0, Head(m), SpellAll(m.inner) + ("}" + m.rest));
  }

  // The patcher finds the call, its object and the object's end.
  lemma ObjectFound(m: Module)
    requires IsModule(m)
    ensures |Head(m)| > 0
    ensures FindObject(Print(m)) ==
      Ok(StaticUiObject(|SpellAll(m.pre)|, |Head(m)| - 1, |Head(m)| + |SpellAll(m.inner)|))
  {
    hide FindBrace, FindObject, Closing, Stands, AllMatch, Free, Head, Print, SpellAll, AllBlank;
    var src := Print(m);
    PrintStands(m);
    HeadParts(src, m);
    Together(m);
    ObjectStands(src, m);
    BraceFound(src, m);
    ObjectCloses(src, |Head(m)| - 1, m.inner);
    FindObjectIs(src, |SpellAll(m.pre)|, |Head(m)| - 1, |Head(m)| + |SpellAll(m.inner)|);
  }

  lemma BraceFound(src: string, m: Module)
    requires AllMatch(m.pre) && Free(src, 0, m.pre, CALL) && AllBlank(m.blanks)
    requires Stands(src, 0, Head(m)) && forall i | 0 <= i < |m.gap| :: m.gap[i] != '('
    ensures FindBrace(src) == Ok((|SpellAll(m.pre)|, |Head(m)| - 1))
  {
    hide Occurrence, IndexOf, SkipSpace, Stands, AllMatch, Free, Head, SpellAll, AllBlank;
    HeadParts(src, m);
    CallIsThere(src, m);
    BraceIsThere(src, m);
  }

  lemma Together(m: Module)
    ensures Print(m) == Head(m) + (SpellAll(m.inner) + ("}" + m.rest))
  {
  }

  lemma CallIsThere(src: string, m: Module)
    requires AllMatch(m.pre) && Stands(src, 0, SpellAll(m.pre)) && Free(src, 0, m.pre, CALL)
      && Stands(src, |SpellAll(m.pre)|, CALL)
    ensures Occurrence(src, CallName(), Cursor(0, Code)) == Some(|SpellAll(m.pre)|) && |CallName()| == 33
  {
    hide Occurrence, Stands, AllMatch, Free, SpellAll;
    assert CallName() == CALL && |CALL| == 33 && WordStart(CALL[0]);
    CallFound(src, m.pre, CALL);
  }

  lemma BraceIsThere(src: string, m: Module)
    requires var paren := |SpellAll(m.pre)| + 33 + |m.gap|;
             && Stands(src, |SpellAll(m.pre)| + 33, m.gap) && Stands(src, paren, "(")
             && Stands(src, paren + 1, m.blanks)
             && Stands(src, paren + 1 + |m.blanks|, "{")
    requires AllBlank(m.blanks) && forall i | 0 <= i < |m.gap| :: m.gap[i] != '('
    ensures var paren := |SpellAll(m.pre)| + 33 + |m.gap|;
            && IndexOf(src, '(', |SpellAll(m.pre)| + 33) == Some(paren)
            && paren + 1 <= |src| && SkipSpace(src, paren + 1) == paren + 1 + |m.blanks|
            && Is(src, paren + 1 + |m.blanks|, '{')
  {
    hide IndexOf, SkipSpace, Stands, SpellAll, AllBlank;
    var from := |SpellAll(m.pre)| + 33;
    var paren := from + |m.gap|;
    StandsAt(src, paren, "(", 0);
    StandsAt(src, paren + 1 + |m.blanks|, "{", 0);
    forall j | from <= j < paren
      ensures src[j] != '('
    {
      StandsAt(src, from, m.gap, j - from);
    }
    IndexOfIs(src, '(', from, paren);
    assert !IsSpace('{');
    BlanksEnd(src, paren + 1, m.blanks);
  }

  lemma PrintSlices(m: Module)
    ensures var src, h, b := Print(m), |Head(m)|, |SpellAll(m.inner)|;
            && h + b <= |src| && src[..h] == Head(m) && src[h..h + b] == SpellAll(m.inner)
            && src[h + b..] == "}" + m.rest
            && src[h..] == SpellAll(m.inner) + ("}" + m.rest)
  {
    hide Head, SpellAll;
  }

  // A module of such a text that calls it nowhere is refused.
  lemma NoCallRefused(ts: seq<Tree>, webPackage: string)
    requires AllMatch(ts) && Free(SpellAll(ts), 0, ts, CALL)
    ensures Patch(SpellAll(ts), webPackage) == Fail(NoCall)
  {
    hide AllMatch, Free, SpellAll, Stands;
    StandsWhole(SpellAll(ts));
    TreesSearched(SpellAll(ts), 0, ts, CALL);
    assert CallName() == CALL;
  }

  // ---- what is refused -----------------------------------------------------

  lemma CallAlone(src: string, pre: seq<Tree>, behind: string)
    requires AllMatch(pre) && src == SpellAll(pre) + (CALL + behind) && Free(src, 0, pre, CALL)
    ensures var n := |SpellAll(pre)|;
            && Occurrence(src, CallName(), Cursor(0, Code)) == Some(n) && |CallName()| == 33
            && |src| == n + 33 + |behind| && Stands(src, n + 33, behind)
  {
    hide Occurrence, Stands, AllMatch, Free, SpellAll;
    var n := |SpellAll(pre)|;
    StandsWhole(src);
    assert |CALL| == 33 && CallName() == CALL && WordStart(CALL[0]);
    StandsParts(src, 0, SpellAll(pre), CALL + behind);
    StandsParts(src, n, CALL, behind);
    CallFound(src, pre, CALL);
  }

  // A call that no parenthesis follows.
  lemma NoParenthesisRefused(src: string, pre: seq<Tree>, behind: string, webPackage: string)
    requires src == SpellAll(pre) + (CALL + behind) && AllMatch(pre) && Free(src, 0, pre, CALL)
    requires forall i | 0 <= i < |behind| :: behind[i] != '('
    ensures Patch(src, webPackage) == Fail(Unparsable)
  {
    hide Occurrence, IndexOf, Stands, AllMatch, Free, SpellAll;
    CallAlone(src, pre, behind);
    var from := |SpellAll(pre)| + 33;
    forall j | from <= j < |src|
      ensures src[j] != '('
    {
      StandsAt(src, from, behind, j - from);
    }
    NoIndex(src, '(', from);
  }

  lemma {:induction false} NoIndex(src: string, c: char, from: nat)
    requires from <= |src| && forall j | from <= j < |src| :: src[j] != c
    ensures IndexOf(src, c, from).None?
    decreases |src| - from
  {
    if from < |src| {
      NoIndex(src, c, from + 1);
    }
  }

  // What stands behind the call's name, when it is no object.
  function Argument(gap: string, blanks: string, behind: string): (text: string)
    ensures |text| == |gap| + 1 + |blanks| + |behind|
  {
    gap + ("(" + (blanks + behind))
  }

  lemma NoBraceThere(src: string, from: nat, gap: string, blanks: string, behind: string)
    requires |src| == from + |gap| + 1 + |blanks| + |behind| && Stands(src, from, Argument(gap, blanks, behind))
    requires AllBlank(blanks) && (behind != "" ==> behind[0] != '{' && !IsSpace(behind[0]))
    requires forall i | 0 <= i < |gap| :: gap[i] != '('
    ensures var paren := from + |gap|;
            && IndexOf(src, '(', from) == Some(paren) && paren + 1 <= |src|
            && !Is(src, SkipSpace(src, paren + 1), '{')
  {
    hide IndexOf, SkipSpace, Stands, AllBlank, IsSpace;
    var paren := from + |gap|;
    StandsParts(src, from, gap, "(" + (blanks + behind));
    StandsParts(src, paren, "(", blanks + behind);
    StandsParts(src, paren + 1, blanks, behind);
    StandsAt(src, paren, "(", 0);
    forall j | from <= j < paren
      ensures src[j] != '('
    {
      StandsAt(src, from, gap, j - from);
    }
    IndexOfIs(src, '(', from, paren);
    var at := paren + 1 + |blanks|;
    if behind != "" {
      StandsAt(src, at, behind, 0);
    }
    BlanksEnd(src, paren + 1, blanks);
  }

  // A call whose argument is no object.
  lemma NoObjectRefused(src: string, pre: seq<Tree>, gap: string, blanks: string, behind: string, webPackage: string)
    requires src == SpellAll(pre) + (CALL + Argument(gap, blanks, behind)) && AllMatch(pre) && Free(src, 0, pre, CALL)
    requires AllBlank(blanks) && (behind != "" ==> behind[0] != '{' && !IsSpace(behind[0]))
    requires forall i | 0 <= i < |gap| :: gap[i] != '('
    ensures Patch(src, webPackage) == Fail(NotInline)
  {
    hide *;
    CallAlone(src, pre, Argument(gap, blanks, behind));
    RefusedThere(src, |SpellAll(pre)|, gap, blanks, behind, webPackage);
  }

  lemma RefusedThere(src: string, call: nat, gap: string, blanks: string, behind: string, webPackage: string)
    requires Occurrence(src, CallName(), Cursor(0, Code)) == Some(call) && |CallName()| == 33
    requires |src| == call + 33 + |Argument(gap, blanks, behind)|
      && Stands(src, call + 33, Argument(gap, blanks, behind))
    requires AllBlank(blanks) && (behind != "" ==> behind[0] != '{' && !IsSpace(behind[0]))
    requires forall i | 0 <= i < |gap| :: gap[i] != '('
    ensures Patch(src, webPackage) == Fail(NotInline)
  {
    hide *;
    NoBraceThere(src, call + 33, gap, blanks, behind);
    NotInlineThere(src, call, call + 33 + |gap|, webPackage);
  }

  lemma NotInlineThere(src: string, call: nat, paren: nat, webPackage: string)
    requires Occurrence(src, CallName(), Cursor(0, Code)) == Some(call) && |CallName()| == 33
    requires IndexOf(src, '(', call + 33) == Some(paren) && paren + 1 <= |src|
      && !Is(src, SkipSpace(src, paren + 1), '{')
    ensures Patch(src, webPackage) == Fail(NotInline)
  {
    hide Occurrence, IndexOf, SkipSpace, CallName, Is, Closing, Body, Colon, LiteralAt, Insertion, Splice, Property;
    assert FindBrace(src) == Fail(NotInline);
    hide FindBrace;
    assert FindObject(src) == Fail(NotInline);
  }

  // An object that is never closed.
  lemma OpenObjectRefused(src: string, m: Module, webPackage: string)
    requires src == Head(m) + SpellAll(m.inner) && AllMatch(m.pre) && AllMatch(m.inner) && AllBlank(m.blanks)
    requires Free(src, 0, m.pre, CALL) && forall i | 0 <= i < |m.gap| :: m.gap[i] != '('
    ensures Patch(src, webPackage) == Fail(NoClosingBrace)
  {
    hide *;
    StandsWhole(src);
    StandsParts(src, 0, Head(m), SpellAll(m.inner));
    BraceFound(src, m);
    BraceEndsHead(src, m);
    NeverCloses(src, |Head(m)| - 1, m.inner);
    NotClosedThere(src, |SpellAll(m.pre)|, |Head(m)| - 1, webPackage);
  }

  lemma BraceEndsHead(src: string, m: Module)
    requires Stands(src, 0, Head(m))
    ensures |Head(m)| > 0 && Stands(src, |Head(m)| - 1, "{")
  {
    hide Stands, Head, SpellAll;
    HeadParts(src, m);
  }

  lemma NotClosedThere(src: string, call: nat, brace: nat, webPackage: string)
    requires FindBrace(src) == Ok((call, brace)) && Closing(src, Cursor(brace, Code), 0).None?
    ensures Patch(src, webPackage) == Fail(NoClosingBrace)
  {
    hide FindBrace, Closing, Body, Colon, LiteralAt, Insertion, Splice, Property, SkipSpace;
    assert FindObject(src) == Fail(NoClosingBrace);
  }

  lemma NeverCloses(src: string, open: nat, inner: seq<Tree>)
    requires AllMatch(inner) && Stands(src, open, "{") && Stands(src, open + 1, SpellAll(inner))
    requires open + 1 + |SpellAll(inner)| == |src|
    ensures Closing(src, Cursor(open, Code), 0).None?
  {
    hide Stands, Plain;
    StandsAt(src, open, "{", 0);
    BracketIsPlain(src, open);
    ClosingStep(src, open, 0);
    TreesPassed(src, open + 1, inner, 1);
  }

  // ---- what goes into an object without the property -----------------------

  // An object of blanks gets the property alone.
  lemma BlankObjectPatched(m: Module, webPackage: string)
    requires IsModule(m) && AllBlank(SpellAll(m.inner))
    ensures Patch(Print(m), webPackage) ==
      Ok(ModulePatch(Head(m) + (" webPackage: '" + webPackage + "' ") + ("}" + m.rest), true))
  {
    hide FindObject, Colon, SkipSpace, Head, Print, IsModule, AllBlank, SpellAll;
    var body := SpellAll(m.inner);
    ObjectFound(m);
    PrintSlices(m);
    assert Body(Print(m), StaticUiObject(|SpellAll(m.pre)|, |Head(m)| - 1, |Head(m)| + |body|)) == body;
    NothingInBlanks(body);
    BlankText(webPackage);
    hide Property;
  }

  lemma BlankText(webPackage: string)
    ensures " " + Property(webPackage) + " " == " webPackage: '" + webPackage + "' "
  {
  }

  lemma NothingInBlanks(body: string)
    requires AllBlank(body)
    ensures Colon(body, PropertyName(), Cursor(0, Code), 0).None? && SkipSpace(body, 0) == |body|
  {
    forall i | 0 <= i < |body|
      ensures IsSpace(body[i])
    {
      BlanksAndWords(body[i]);
    }
    ColonSkipsSpace(body, PropertyName(), 0, |body|);
    SkipSpaceIs(body, 0, |body|);
  }

  // The line of the call, and where it stands: what is above it ends a line.
  ghost predicate IsLine(m: Module, above: string, indent: string, more: string) {
    && SpellAll(m.pre) == above + indent + more && (above == "" || above[|above| - 1] == '\n')
    && (forall i | 0 <= i < |indent| :: IsSpace(indent[i]) && indent[i] != '\n')
    && (forall i | 0 <= i < |more| :: more[i] != '\n') && (more != "" ==> !IsSpace(more[0]))
  }

  ghost predicate HasCrLfLine(src: string) {
    exists a: string, b: string :: src == a + "\r\n" + b
  }

  lemma CrLfLines(src: string)
    ensures HasCrLf(src) <==> HasCrLfLine(src)
  {
    if HasCrLf(src) {
      var i :| 0 <= i < |src| - 1 && src[i] == '\r' && src[i + 1] == '\n';
      assert src == src[..i] + "\r\n" + src[i + 2..];
    }
    if HasCrLfLine(src) {
      var a: string, b: string :| src == a + "\r\n" + b;
      assert src[|a|] == '\r' && src[|a| + 1] == '\n';
    }
  }

  lemma {:induction false} LineStartIs(src: string, i: nat, start: nat)
    requires start <= i < |src| && (forall j | start <= j <= i :: src[j] != '\n')
      && (start > 0 ==> src[start - 1] == '\n')
    ensures LineStart(src, i) == start
    decreases i
  {
    if i > start {
      LineStartIs(src, i - 1, start);
    } else if i > 0 {
      assert LineStart(src, i - 1) == i;
    }
  }

  lemma IndentIs(src: string, m: Module, above: string, indent: string, more: string)
    requires IsLine(m, above, indent, more) && Stands(src, 0, SpellAll(m.pre)) && Is(src, |SpellAll(m.pre)|, 'M')
    ensures LeadingSpace(src[LineStart(src, |SpellAll(m.pre)|)..|SpellAll(m.pre)|]) == indent
  {
    hide SpellAll, LineStart, LeadingSpace, Stands, IsSpace;
    var line := indent + more;
    assert SpellAll(m.pre) == above + line;
    LineIs(src, |SpellAll(m.pre)|, above, line);
    IndentOf(indent, more);
  }

  lemma LineIs(src: string, n: nat, above: string, line: string)
    requires n == |above + line| && Stands(src, 0, above + line) && Is(src, n, 'M')
    requires (above == "" || above[|above| - 1] == '\n') && forall i | 0 <= i < |line| :: line[i] != '\n'
    ensures LineStart(src, n) == |above| && src[|above|..n] == line
  {
    var start := |above|;
    StandsParts(src, 0, above, line);
    hide Stands, LineStart;
    if above != "" {
      StandsAt(src, 0, above, start - 1);
    }
    forall j | start <= j < n
      ensures src[j] != '\n'
    {
      StandsAt(src, start, line, j - start);
    }
    LineStartIs(src, n, start);
  }

  lemma IndentOf(indent: string, more: string)
    requires (forall i | 0 <= i < |indent| :: IsSpace(indent[i])) && (more != "" ==> !IsSpace(more[0]))
    ensures LeadingSpace(indent + more) == indent
  {
    hide IsSpace;
    SkipSpaceIs(indent + more, 0, |indent|);
  }

  // What goes behind the opening brace of any other object: on a line of its own,
  // two blanks further in than the call's line, when the object begins with a line;
  // and lines end as they do in the module.
  lemma InsertedText(m: Module, webPackage: string, above: string, indent: string, more: string)
    requires IsModule(m) && TopFree(SpellAll(m.inner), 0, m.inner, "webPackage")
    requires IsLine(m, above, indent, more)
    requires exists i :: 0 <= i < |SpellAll(m.inner)| && !IsSpace(SpellAll(m.inner)[i])
    ensures var first := SpellAll(m.inner)[0];
            var eol := if HasCrLfLine(Print(m)) then "\r\n" else "\n";
            var text := (if first == '\n' || first == '\r' then eol + indent + "  " else " ") + ("webPackage: '" + webPackage + "',");
            Patch(Print(m), webPackage) == Ok(ModulePatch(Head(m) + text + (SpellAll(m.inner) + ("}" + m.rest)), true))
  {
    hide FindObject, Colon, SkipSpace, Head, Print, IsModule, SpellAll;
    hide IsLine, LeadingSpace, LineStart, HasCrLf, HasCrLfLine, TopFree, AllMatch;
    var src, body, h := Print(m), SpellAll(m.inner), |Head(m)|;
    ObjectFound(m);
    var t := StaticUiObject(|SpellAll(m.pre)|, h - 1, h + |body|);
    PrintSlices(m);
    assert Body(src, t) == body;
    NoWebPackage(m);
    NotBlank(body);
    CrLfLines(src);
    InsertedIs(src, m, webPackage, above, indent, more);
    assert Insertion(src, t, webPackage) ==
      (if Is(src, h, '\n') || Is(src, h, '\r') then (if HasCrLf(src) then "\r\n" else "\n") + indent + "  " else " ")
      + ("webPackage: '" + webPackage + "',");
    assert src[h] == src[h..h + |body|][0] == body[0];
  }

  lemma NoWebPackage(m: Module)
    requires IsModule(m) && TopFree(SpellAll(m.inner), 0, m.inner, "webPackage")
    ensures Colon(SpellAll(m.inner), PropertyName(), Cursor(0, Code), 0) == None
  {
    hide Colon, TopFree, AllMatch;
    assert PropertyName() == "webPackage";
    PropertyMissing(m.inner, "webPackage");
  }

  lemma NotBlank(body: string)
    requires exists i :: 0 <= i < |body| && !IsSpace(body[i])
    ensures SkipSpace(body, 0) != |body|
  {
  }

  lemma InsertedIs(src: string, m: Module, webPackage: string, above: string, indent: string, more: string)
    requires IsModule(m) && IsLine(m, above, indent, more) && src == Print(m)
    ensures |Head(m)| > 0 && |SpellAll(m.pre)| < |src| && src[|SpellAll(m.pre)|] == 'M'
    ensures var t := StaticUiObject(|SpellAll(m.pre)|, |Head(m)| - 1, |Head(m)| + |SpellAll(m.inner)|);
            Insertion(src, t, webPackage) ==
              (if Is(src, |Head(m)|, '\n') || Is(src, |Head(m)|, '\r') then (if HasCrLf(src) then "\r\n" else "\n") + indent + "  " else " ")
              + ("webPackage: '" + webPackage + "',")
  {
    hide Head, Print, SpellAll, IsLine, LeadingSpace, LineStart, HasCrLf, IsModule, Stands;
    PrintStands(m);
    HeadParts(src, m);
    StandsAt(src, |SpellAll(m.pre)|, CALL, 0);
    IndentIs(src, m, above, indent, more);
    PropertyText(webPackage);
    var start := if Is(src, |Head(m)|, '\n') || Is(src, |Head(m)|, '\r') then (if HasCrLf(src) then "\r\n" else "\n") + indent + "  " else " ";
    assert start + Property(webPackage) + "," == start + (Property(webPackage) + ",");
  }

  lemma PropertyText(webPackage: string)
    ensures Property(webPackage) + "," == "webPackage: '" + webPackage + "',"
  {
  }

  // ---- an object that has the property -------------------------------------

  function Value(marks: seq<Mark>): string {
    if marks == [] then "" else [marks[0].c] + Value(marks[1..])
  }

  lemma {:induction false} MarksRead(src: string, i: nat, quote: char, marks: seq<Mark>)
    requires (forall m | m in marks :: MarkFits(m, quote)) && quote != '\\'
      && Stands(src, i, SpellMarks(marks) + [quote])
    ensures Unquoted(src, i, quote) == Some((Value(marks), i + |SpellMarks(marks)| + 1))
    decreases marks
  {
    hide Stands;
    StandsParts(src, i, SpellMarks(marks), [quote]);
    if marks == [] {
      StandsAt(src, i, [quote], 0);
    } else {
      var text, rest := SpellMark(marks[0]), marks[1..];
      StandsParts(src, i, text, SpellMarks(rest));
      StandsParts(src, i + |text|, SpellMarks(rest), [quote]);
      StandsAt(src, i, text, |text| - 1);
      StandsAt(src, i, text, 0);
      assert marks[0] in marks && forall n | n in rest :: n in marks;
      MarksRead(src, i + |text|, quote, rest);
    }
  }

  // The text of an object that gives the property a string.
  function Given(before: seq<Tree>, blanks: string, blanks': string, quote: char, marks: seq<Mark>,
                 tail: string): string {
    SpellAll(before) + ("webPackage" + (blanks + (":" + (blanks' + ([quote] + (SpellMarks(marks) + ([quote] + tail)))))))
  }

  ghost predicate GivesProperty(m: Module, before: seq<Tree>, blanks: string, blanks': string, quote: char,
                                marks: seq<Mark>, tail: string) {
    && SpellAll(m.inner) == Given(before, blanks, blanks', quote, marks, tail)
    && HasProperty(SpellAll(m.inner), before, "webPackage", blanks) && AllBlank(blanks')
    && (quote == '\'' || quote == '"') && forall n | n in marks :: MarkFits(n, quote)
  }

  lemma GivenParts(body: string, before: seq<Tree>, blanks: string, blanks': string, quote: char, marks: seq<Mark>,
                   tail: string)
    requires Stands(body, 0, Given(before, blanks, blanks', quote, marks, tail))
    ensures var at := |SpellAll(before)| + 10 + |blanks| + 1;
            var start := at + |blanks'|;
            && Stands(body, at, blanks') && Stands(body, start, [quote])
            && Stands(body, start + 1, SpellMarks(marks) + [quote])
            && at <= |body|
  {
    hide Stands, SpellAll, SpellMarks;
    var n, spelled := |SpellAll(before)|, SpellMarks(marks);
    assert |"webPackage"| == 10;
    var at := n + 10 + |blanks| + 1;
    StandsParts(body, 0, SpellAll(before), "webPackage" + (blanks + (":" + (blanks' + ([quote] + (spelled + ([quote] + tail)))))));
    StandsParts(body, n, "webPackage", blanks + (":" + (blanks' + ([quote] + (spelled + ([quote] + tail))))));
    StandsParts(body, n + 10, blanks, ":" + (blanks' + ([quote] + (spelled + ([quote] + tail)))));
    StandsParts(body, n + 10 + |blanks|, ":", blanks' + ([quote] + (spelled + ([quote] + tail))));
    StandsParts(body, at, blanks', [quote] + (spelled + ([quote] + tail)));
    StandsParts(body, at + |blanks'|, [quote], spelled + ([quote] + tail));
    StandsParts(body, at + |blanks'| + 1, spelled, [quote] + tail);
    StandsParts(body, at + |blanks'| + 1 + |spelled|, [quote], tail);
    StandsParts(body, at + |blanks'| + 1, spelled, [quote]);
    StandsBound(body, at, blanks');
  }

  lemma StandsBound(src: string, i: nat, text: string)
    requires Stands(src, i, text)
    ensures i <= |src|
  {
  }

  lemma GivenRead(m: Module, before: seq<Tree>, blanks: string, blanks': string, quote: char, marks: seq<Mark>,
                  tail: string)
    requires GivesProperty(m, before, blanks, blanks', quote, marks, tail)
    ensures var body, colon := SpellAll(m.inner), |SpellAll(before)| + 10 + |blanks|;
            var start := colon + 1 + |blanks'|;
            && Colon(body, PropertyName(), Cursor(0, Code), 0) == Some(colon)
            && colon < |body| && LiteralAt(body, colon + 1) == Some(Literal(Value(marks), start, start + |SpellMarks(marks)| + 2, quote))
  {
    hide Colon, LiteralAt, SkipSpace, Unquoted, Stands, SpellAll, HasProperty, AllBlank, Given, SpellMarks;
    var body, colon := SpellAll(m.inner), |SpellAll(before)| + 10 + |blanks|;
    var start := colon + 1 + |blanks'|;
    assert PropertyName() == "webPackage" && |"webPackage"| == 10;
    StandsWhole(body);
    PropertyFound(body, before, "webPackage", blanks);
    GivenParts(body, before, blanks, blanks', quote, marks, tail);
    StandsAt(body, start, [quote], 0);
    assert !IsSpace(quote);
    BlanksEnd(body, colon + 1, blanks');
    MarksRead(body, start + 1, quote, marks);
    LiteralIs(body, colon + 1, start, quote, Value(marks), start + |SpellMarks(marks)| + 2);
  }

  lemma StandsWhole(src: string)
    ensures Stands(src, 0, src)
  {
    assert src[0..|src|] == src;
  }

  // It stays when it is the value asked for, is replaced between its quotes when it
  // is the default, and is refused otherwise.
  lemma GivenPatched(m: Module, webPackage: string, before: seq<Tree>, blanks: string, blanks': string, quote: char,
                     marks: seq<Mark>, tail: string)
    requires IsModule(m) && GivesProperty(m, before, blanks, blanks', quote, marks, tail)
    ensures Patch(Print(m), webPackage) ==
      if Value(marks) == webPackage then Ok(ModulePatch(Print(m), false))
      else if Value(marks) == "@modern-admin/web" then
        var start := |Head(m)| + |SpellAll(before)| + 10 + |blanks| + 1 + |blanks'|;
        Ok(ModulePatch(Print(m)[..start] + ([quote] + webPackage + [quote]) + Print(m)[start + |SpellMarks(marks)| + 2..], true))
      else Fail(AlreadyDefined)
  {
    hide FindObject, Colon, LiteralAt, SkipSpace, Head, Print, IsModule, SpellAll, GivesProperty, SpellMarks, Value;
    ObjectFound(m);
    PrintSlices(m);
    assert Body(Print(m), StaticUiObject(|SpellAll(m.pre)|, |Head(m)| - 1, |Head(m)| + |SpellAll(m.inner)|)) ==
      SpellAll(m.inner);
    GivenRead(m, before, blanks, blanks', quote, marks, tail);
    assert DefaultPackage() == "@modern-admin/web";
  }
}
