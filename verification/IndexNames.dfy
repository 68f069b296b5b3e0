// `fieldNamesFromIndex`: the name of a constraint split back into field names.
module IndexNames {
  import opened Prelude

  // `column` is the physical column, the field's own name unless it is mapped.
  datatype Field = Field(name: string, column: string)

  function NameFor(fields: seq<Field>, column: string): Option<string> {
    if fields == [] then None
    else if fields[0].column == column then if fields[0].name == "" then None else Some(fields[0].name)
    else NameFor(fields[1..], column)
  }

  // ---- segments ------------------------------------------------------------

  function Split(s: string): (segments: seq<string>)
    ensures |segments| >= 1
  {
    if s == "" then [""] else Before(s[0], Split(s[1..]))
  }

  // One character in front of a text that is split already.
  function Before(c: char, rest: seq<string>): (segments: seq<string>)
    requires |rest| >= 1
    ensures |segments| >= 1
  {
    if c == '_' then [""] + rest else [[c] + rest[0]] + rest[1..]
  }

  lemma BeforeMore(c: char, rest: seq<string>, more: seq<string>)
    requires |rest| >= 1
    ensures Before(c, rest + more) == Before(c, rest) + more
  {
  }

  function Join(segments: seq<string>): string {
    if segments == [] then "" else if |segments| == 1 then segments[0] else segments[0] + "_" + Join(segments[1..])
  }

  function Flatten(cuts: seq<seq<string>>): seq<string> {
    if cuts == [] then [] else cuts[0] + Flatten(cuts[1..])
  }

  function SplitEach(columns: seq<string>): (cuts: seq<seq<string>>)
    ensures |cuts| == |columns|
  {
    if columns == [] then [] else [Split(columns[0])] + SplitEach(columns[1..])
  }

  lemma {:induction false} JoinOfSplit(s: string)
    ensures Join(Split(s)) == s
  {
    if s != "" {
      JoinOfSplit(s[1..]);
      var rest := Split(s[1..]);
      var head := Before(s[0], rest);
      if s[0] == '_' {
        assert head[1..] == rest;
        assert s == "" + "_" + s[1..];
      } else {
        assert head[1..] == rest[1..];
        assert s == [s[0]] + s[1..];
      }
    }
  }

  lemma {:induction false} SplitAtUnderscore(a: string, b: string)
    ensures Split(a + "_" + b) == Split(a) + Split(b)
  {
    var s := a + "_" + b;
    if a == "" {
      assert s[0] == '_' && s[1..] == b;
    } else {
      hide Before;
      assert s[0] == a[0] && s[1..] == a[1..] + "_" + b;
      SplitAtUnderscore(a[1..], b);
      BeforeMore(a[0], Split(a[1..]), Split(b));
    }
  }

  lemma {:induction false} SplitOfJoin(columns: seq<string>)
    requires columns != []
    ensures Split(Join(columns)) == Flatten(SplitEach(columns))
  {
    if |columns| == 1 {
      assert SplitEach(columns)[1..] == [] && Flatten([]) == [];
      assert Split(columns[0]) + [] == Split(columns[0]);
    } else {
      SplitAtUnderscore(columns[0], Join(columns[1..]));
      SplitOfJoin(columns[1..]);
      assert SplitEach(columns)[1..] == SplitEach(columns[1..]);
    }
  }

  predicate Plain(segment: string) {
    forall i | 0 <= i < |segment| :: segment[i] != '_'
  }

  lemma {:induction false} SegmentsArePlain(s: string)
    ensures forall i | 0 <= i < |Split(s)| :: Plain(Split(s)[i])
  {
    if s != "" {
      SegmentsArePlain(s[1..]);
    }
  }

  lemma {:induction false} SplitOfPlain(segment: string)
    requires Plain(segment)
    ensures Split(segment) == [segment]
  {
    if segment != "" {
      SplitOfPlain(segment[1..]);
      assert segment == [segment[0]] + segment[1..];
    }
  }

  // Joining segments and splitting again gives them back.
  lemma {:induction false} SplitEachOfPlain(segments: seq<string>)
    requires forall i | 0 <= i < |segments| :: Plain(segments[i])
    ensures Flatten(SplitEach(segments)) == segments
  {
    if segments != [] {
      SplitOfPlain(segments[0]);
      SplitEachOfPlain(segments[1..]);
      assert SplitEach(segments)[1..] == SplitEach(segments[1..]);
    }
  }

  lemma SplitOfSlice(segments: seq<string>, i: nat, j: nat)
    requires i < j <= |segments| && forall i | 0 <= i < |segments| :: Plain(segments[i])
    ensures Split(Join(segments[i..j])) == segments[i..j]
  {
    SplitOfJoin(segments[i..j]);
    SplitEachOfPlain(segments[i..j]);
  }

  // ---- the walk ------------------------------------------------------------

  // The longest run of segments from `i`, ending at most at `j`, that is a column.
  function Longest(fields: seq<Field>, segments: seq<string>, i: nat, j: nat): (end: Option<nat>)
    requires i <= j <= |segments|
    ensures end.Some? ==> i < end.value <= j && NameFor(fields, Join(segments[i..end.value])).Some?
    ensures forall k | (if end.Some? then end.value else i) < k <= j :: NameFor(fields, Join(segments[i..k])).None?
    decreases j
  {
    if j == i then None
    else if NameFor(fields, Join(segments[i..j])).Some? then Some(j)
    else Longest(fields, segments, i, j - 1)
  }

  // The columns that the walk takes from segment `i` on.
  function Walk(fields: seq<Field>, segments: seq<string>, i: nat): (columns: Option<seq<string>>)
    requires i <= |segments|
    decreases |segments| - i
  {
    if i == |segments| then Some([])
    else
      var end := Longest(fields, segments, i, |segments|);
      if end.None? then None
      else
        var rest := Walk(fields, segments, end.value);
        if rest.None? then None else Some([Join(segments[i..end.value])] + rest.value)
  }

  // The columns found for the body of a constraint name.
  function Columns(fields: seq<Field>, body: string): Option<seq<string>> {
    if NameFor(fields, body).Some? then Some([body]) else Walk(fields, Split(body), 0)
  }

  // Columns of fields that make up `body` when they are joined.
  ghost predicate IsSegmentation(fields: seq<Field>, columns: seq<string>, body: string) {
    columns != [] && Join(columns) == body && forall c | c in columns :: NameFor(fields, c).Some?
  }

  ghost predicate Names(fields: seq<Field>, columns: seq<string>, names: seq<string>) {
    |names| == |columns| && forall i | 0 <= i < |columns| :: NameFor(fields, columns[i]) == Some(names[i])
  }

  lemma {:induction false} WalkIsSound(fields: seq<Field>, segments: seq<string>, i: nat)
    requires i < |segments| && Walk(fields, segments, i).Some?
    ensures IsSegmentation(fields, Walk(fields, segments, i).value, Join(segments[i..]))
    decreases |segments| - i
  {
    var j := Longest(fields, segments, i, |segments|).value;
    var columns := Walk(fields, segments, i).value;
    if j == |segments| {
      assert segments[i..j] == segments[i..];
    } else {
      WalkIsSound(fields, segments, j);
      assert columns[1..] == Walk(fields, segments, j).value;
      JoinSplits(segments[i..], j - i);
      assert segments[i..][..j - i] == segments[i..j] && segments[i..][j - i..] == segments[j..];
    }
  }

  lemma {:induction false} JoinSplits(segments: seq<string>, k: nat)
    requires 0 < k < |segments|
    ensures Join(segments) == Join(segments[..k]) + "_" + Join(segments[k..])
  {
    if k > 1 {
      JoinSplits(segments[1..], k - 1);
      assert segments[1..][..k - 1] == segments[..k][1..] && segments[1..][k - 1..] == segments[k..];
      var a, b, c := segments[0], Join(segments[..k][1..]), Join(segments[k..]);
      assert a + "_" + (b + "_" + c) == (a + "_" + b) + "_" + c;
    }
  }

  // A result names columns that make up the body.
  lemma ColumnsAreSound(fields: seq<Field>, body: string)
    requires Columns(fields, body).Some?
    ensures IsSegmentation(fields, Columns(fields, body).value, body)
  {
    if NameFor(fields, body).None? {
      WalkIsSound(fields, Split(body), 0);
      assert Split(body)[0..] == Split(body);
      JoinOfSplit(body);
    }
  }

  // Column `d` runs along a list of columns, beyond the first of them.
  ghost predicate Overtakes(fields: seq<Field>, d: string, columns: seq<string>) {
    && NameFor(fields, d).Some? && columns != [] && (forall c | c in columns :: NameFor(fields, c).Some?)
    && Split(d) <= Flatten(SplitEach(columns)) && |Split(d)| > |Split(columns[0])|
  }

  ghost predicate NoneOvertakes(fields: seq<Field>) {
    forall d, columns :: !Overtakes(fields, d, columns)
  }

  // No column starts with all the segments of another one.
  ghost predicate PrefixFree(fields: seq<Field>) {
    forall c, d: string | NameFor(fields, c).Some? && NameFor(fields, d).Some? :: Split(c) <= Split(d) ==> c == d
  }

  lemma TwoPrefixes(c: seq<string>, d: seq<string>, whole: seq<string>)
    requires c <= whole && d <= whole && |c| <= |d|
    ensures c <= d
  {
  }

  lemma PrefixFreeSuffices(fields: seq<Field>)
    requires PrefixFree(fields)
    ensures NoneOvertakes(fields)
  {
    hide Split, NameFor, Flatten, SplitEach;
    forall d, columns
      ensures !Overtakes(fields, d, columns)
    {
      if Overtakes(fields, d, columns) {
        FlattenFirst(columns);
        TwoPrefixes(Split(columns[0]), Split(d), Flatten(SplitEach(columns)));
      }
    }
  }

  lemma ColumnAt(segments: seq<string>, i: nat, cut: seq<string>, rest: seq<string>)
    requires i <= |segments| && segments[i..] == cut + rest
    ensures i + |cut| <= |segments| && segments[i..i + |cut|] == cut && segments[i + |cut|..] == rest
  {
  }

  lemma {:induction false} LongestAtLeast(fields: seq<Field>, segments: seq<string>, i: nat, j: nat, k: nat)
    requires i < k <= j <= |segments| && NameFor(fields, Join(segments[i..k])).Some?
    ensures Longest(fields, segments, i, j).Some? && k <= Longest(fields, segments, i, j).value
  {
    hide NameFor, Join;
    if NameFor(fields, Join(segments[i..j])).None? {
      LongestAtLeast(fields, segments, i, j - 1, k);
    }
  }

  lemma NoLonger(fields: seq<Field>, segments: seq<string>, i: nat, j: nat, columns: seq<string>)
    requires NoneOvertakes(fields) && i < j <= |segments| && forall k | 0 <= k < |segments| :: Plain(segments[k])
    requires columns != [] && Flatten(SplitEach(columns)) == segments[i..] && forall c | c in columns ::
      NameFor(fields, c).Some?
    requires NameFor(fields, Join(segments[i..j])).Some?
    ensures j <= i + |Split(columns[0])|
  {
    hide Split, Join, NameFor, Plain, Flatten, SplitEach;
    SplitOfSlice(segments, i, j);
    assert segments[i..][..j - i] == segments[i..j];
    assert !Overtakes(fields, Join(segments[i..j]), columns);
  }

  // The walk takes the column that stands here.
  lemma TakesColumn(fields: seq<Field>, segments: seq<string>, i: nat, columns: seq<string>)
    requires NoneOvertakes(fields) && i <= |segments| && forall k | 0 <= k < |segments| :: Plain(segments[k])
    requires columns != [] && Flatten(SplitEach(columns)) == segments[i..] && forall c | c in columns ::
      NameFor(fields, c).Some?
    ensures Longest(fields, segments, i, |segments|) == Some(i + |Split(columns[0])|)
  {
    hide Split, Join, NameFor, Plain, Flatten, SplitEach, NoneOvertakes;
    var c := columns[0];
    FlattenFirst(columns);
    SplitNotEmpty(c);
    ColumnAt(segments, i, Split(c), Flatten(SplitEach(columns[1..])));
    JoinOfSplit(c);
    var e := i + |Split(c)|;
    LongestAtLeast(fields, segments, i, |segments|, e);
    NoLonger(fields, segments, i, Longest(fields, segments, i, |segments|).value, columns);
  }

  lemma SplitNotEmpty(s: string)
    ensures |Split(s)| >= 1
  {
  }

  lemma {:induction false} WalkIsComplete(fields: seq<Field>, segments: seq<string>, i: nat, columns: seq<string>)
    requires NoneOvertakes(fields) && i <= |segments| && forall k | 0 <= k < |segments| :: Plain(segments[k])
    requires Flatten(SplitEach(columns)) == segments[i..] && forall c | c in columns :: NameFor(fields, c).Some?
    ensures Walk(fields, segments, i) == Some(columns)
    decreases |columns|
  {
    hide Split, Join, NameFor, Plain, NoneOvertakes, Longest;
    if columns != [] {
      var c, rest := columns[0], Flatten(SplitEach(columns[1..]));
      FlattenFirst(columns);
      TakesColumn(fields, segments, i, columns);
      ColumnAt(segments, i, Split(c), rest);
      SplitNotEmpty(c);
      JoinOfSplit(c);
      WalkIsComplete(fields, segments, i + |Split(c)|, columns[1..]);
      assert columns == [c] + columns[1..];
    }
  }

  lemma FlattenFirst(columns: seq<string>)
    requires columns != []
    ensures Flatten(SplitEach(columns)) == Split(columns[0]) + Flatten(SplitEach(columns[1..]))
  {
  }

  // Then the segmentation of a body is found whenever there is one, and there is
  // no other.
  lemma ColumnsAreComplete(fields: seq<Field>, body: string, columns: seq<string>)
    requires NoneOvertakes(fields) && IsSegmentation(fields, columns, body)
    ensures Columns(fields, body) == Some(columns)
  {
    SplitOfJoin(columns);
    SegmentsArePlain(body);
    assert Split(body)[0..] == Split(body);
    WalkIsComplete(fields, Split(body), 0, columns);
    if NameFor(fields, body).Some? {
      WholeColumn(fields, body, columns);
    }
  }

  lemma WholeColumn(fields: seq<Field>, body: string, columns: seq<string>)
    requires NoneOvertakes(fields) && IsSegmentation(fields, columns, body) && NameFor(fields, body).Some?
    ensures columns == [body]
  {
    SplitOfJoin(columns);
    SplitOfJoin([body]);
    SegmentsArePlain(body);
    assert SplitEach([body])[1..] == [];
    assert Flatten(SplitEach([body])) == Split(body)[0..];
    assert Split(body)[0..] == Split(body);
    WalkIsComplete(fields, Split(body), 0, columns);
    WalkIsComplete(fields, Split(body), 0, [body]);
  }

  // A column that overtakes hides the segmentation it runs along.
  lemma OvertakenIsMissed(fields: seq<Field>, d: string, columns: seq<string>)
    requires Overtakes(fields, d, columns)
    ensures IsSegmentation(fields, columns, Join(columns)) && Columns(fields, Join(columns)) != Some(columns)
  {
    hide Split, Join, NameFor, Longest;
    var body := Join(columns);
    var segments := Split(body);
    SplitOfJoin(columns);
    SegmentsArePlain(body);
    if NameFor(fields, body).Some? {
      SplitOfJoin([body]);
    } else if Walk(fields, segments, 0).Some? {
      SplitNotEmpty(d);
      var k := |Split(d)|;
      assert segments[0..k] == Split(d);
      JoinOfSplit(d);
      LongestAtLeast(fields, segments, 0, |segments|, k);
      var j := Longest(fields, segments, 0, |segments|).value;
      SplitOfSlice(segments, 0, j);
      assert Walk(fields, segments, 0).value[0] == Join(segments[0..j]);
    }
  }

  // Every segmentation of every body is found, and is the only one, exactly when
  // no column overtakes.
  lemma FoundExactly(fields: seq<Field>)
    ensures (forall body, columns | IsSegmentation(fields, columns, body) :: Columns(fields, body) == Some(columns)) <==> NoneOvertakes(fields)
  {
    hide Columns, IsSegmentation, Overtakes, Join;
    if NoneOvertakes(fields) {
      forall body, columns | IsSegmentation(fields, columns, body)
        ensures Columns(fields, body) == Some(columns)
      {
        ColumnsAreComplete(fields, body, columns);
      }
    } else {
      var d, columns :| Overtakes(fields, d, columns);
      OvertakenIsMissed(fields, d, columns);
    }
  }

  // Three fields, one of whose columns starts with another.
  function Ambiguous(): seq<Field> {
    [Field("x", "a"), Field("y", "a_b"), Field("z", "b_c")]
  }

  lemma AmbiguousNames()
    ensures NameFor(Ambiguous(), "a").Some? && NameFor(Ambiguous(), "b_c").Some? && NameFor(Ambiguous(), "a_b").Some?
    ensures NameFor(Ambiguous(), "a_b_c").None? && NameFor(Ambiguous(), "c").None?
  {
  }

  lemma AmbiguousSegments()
    ensures Split("a_b_c") == ["a", "b", "c"]
    ensures Join(["a", "b", "c"][0..3]) == "a_b_c" && Join(["a", "b", "c"][0..2]) == "a_b"
      && Join(["a", "b", "c"][2..3]) == "c"
    ensures Join(["a", "b_c"]) == "a_b_c"
  {
    SplitOfPlain("a");
    SplitOfPlain("b");
    SplitOfPlain("c");
    SplitAtUnderscore("b", "c");
    SplitAtUnderscore("a", "b_c");
    var s := ["a", "b", "c"];
    assert s[0..3] == s && s[1..] == ["b", "c"] && s[0..2] == ["a", "b"] && s[2..3] == ["c"];
    assert ["b", "c"][1..] == ["c"] && ["a", "b"][1..] == ["b"] && ["a", "b_c"][1..] == ["b_c"];
  }

  // The longest match can miss: of `a_b_c` the walk takes `a_b` and is left with
  // `c`, although `a` and `b_c` make up the whole.
  lemma LongestMatchMisses()
    ensures IsSegmentation(Ambiguous(), ["a", "b_c"], "a_b_c") && Columns(Ambiguous(), "a_b_c").None?
  {
    hide Split, Join, NameFor, Ambiguous;
    AmbiguousNames();
    AmbiguousSegments();
    var segments := ["a", "b", "c"];
    assert Longest(Ambiguous(), segments, 0, 3) == Some(2);
    assert Longest(Ambiguous(), segments, 2, 2) == None;
    assert Longest(Ambiguous(), segments, 2, 3) == None;
    assert Walk(Ambiguous(), segments, 2).None?;
  }

  // ---- the method ----------------------------------------------------------

  predicate EndsWith(s: string, suffix: string) {
    |suffix| <= |s| && s[|s| - |suffix|..] == suffix
  }

  // `body.replace(/_(fkey|key|pkey|idx)$/, '')`.
  function StripSuffix(body: string): string {
    if EndsWith(body, "_fkey") || EndsWith(body, "_pkey") then body[..|body| - 5]
    else if EndsWith(body, "_key") || EndsWith(body, "_idx") then body[..|body| - 4]
    else body
  }

  function BodyOf(table: string, index: string): string {
    if table + "_" <= index then StripSuffix(index[|table| + 1..]) else ""
  }

  predicate IsSuffix(suffix: string) {
    suffix == "_fkey" || suffix == "_pkey" || suffix == "_key" || suffix == "_idx"
  }

  lemma EndsWithIt(body: string, suffix: string)
    ensures EndsWith(body + suffix, suffix) && (body + suffix)[..|body|] == body
  {
    assert (body + suffix)[|body|..] == suffix;
  }

  lemma StripsIt(body: string, suffix: string)
    requires IsSuffix(suffix) || (suffix == "" && forall s | IsSuffix(s) :: !EndsWith(body, s))
    ensures StripSuffix(body + suffix) == body
  {
    hide EndsWith;
    var text := body + suffix;
    EndsWithIt(body, suffix);
    assert IsSuffix("_fkey") && IsSuffix("_pkey") && IsSuffix("_key") && IsSuffix("_idx");
    if suffix == "" {
      assert text == body;
    } else {
      SuffixesDiffer(text, suffix);
      assert |"_fkey"| == 5 && |"_key"| == 4 && "_fkey" != "_key" && "_pkey" != "_key";
    }
  }

  // A constraint of the table is named for what stands between the table and one of
  // the suffixes, or the end when there is none.
  lemma BodyIsBetween(table: string, body: string, suffix: string)
    requires IsSuffix(suffix) || (suffix == "" && forall s | IsSuffix(s) :: !EndsWith(body, s))
    ensures BodyOf(table, table + "_" + (body + suffix)) == body
  {
    hide StripSuffix, EndsWith;
    var index := table + "_" + (body + suffix);
    StripsIt(body, suffix);
    assert |table + "_"| == |table| + 1 && index[|table| + 1..] == body + suffix;
  }

  lemma SuffixChars(text: string, s: string)
    requires IsSuffix(s) && EndsWith(text, s)
    ensures |text| >= 4
    ensures text[|text| - 4] == (if s == "_fkey" then 'f' else if s == "_pkey" then 'p' else '_')
    ensures text[|text| - 1] == (if s == "_idx" then 'x' else 'y')
  {
    var n := |text| - |s|;
    assert text[n + |s| - 4] == text[n..][|s| - 4] && text[n + |s| - 1] == text[n..][|s| - 1];
  }

  lemma SuffixesDiffer(text: string, suffix: string)
    requires IsSuffix(suffix) && EndsWith(text, suffix)
    ensures forall s | IsSuffix(s) && EndsWith(text, s) :: s == suffix
  {
    hide EndsWith;
    SuffixChars(text, suffix);
    forall s | IsSuffix(s) && EndsWith(text, s)
      ensures s == suffix
    {
      SuffixChars(text, s);
    }
  }

  // The field is the first with the column, and has this name.
  ghost predicate FirstAt(fields: seq<Field>, i: nat, column: string, name: string) {
    i < |fields| && fields[i].column == column && fields[i].name == name && name != ""
    && forall j | 0 <= j < i :: fields[j].column != column
  }

  lemma {:induction false} NameIsFirst(fields: seq<Field>, column: string, name: string)
    ensures NameFor(fields, column) == Some(name) <==>
      exists i: nat :: FirstAt(fields, i, column, name)
  {
    if fields != [] {
      NameIsFirst(fields[1..], column, name);
      if fields[0].column != column {
        NameFurther(fields, column, name);
      } else if fields[0].name == name && name != "" {
        assert FirstAt(fields, 0, column, name);
      }
    }
  }

  lemma NameFurther(fields: seq<Field>, column: string, name: string)
    requires fields != [] && fields[0].column != column
    ensures (exists i: nat :: FirstAt(fields, i, column, name)) <==>
      exists i: nat :: FirstAt(fields[1..], i, column, name)
  {
    if i: nat :| FirstAt(fields, i, column, name) {
      assert FirstAt(fields[1..], i - 1, column, name);
    }
    if i: nat :| FirstAt(fields[1..], i, column, name) {
      assert FirstAt(fields, i + 1, column, name);
    }
  }

  // The loops over the segments.
  method WalkSegments(fields: seq<Field>, segments: seq<string>) returns (names: seq<string>)
    requires |segments| > 0
    ensures var columns := Walk(fields, segments, 0);
            if columns.None? then names == [] else Names(fields, columns.value, names)
  {
    hide NameFor, Join;
    names := [];
    ghost var columns: seq<string> := [];
    OntoNothing(Walk(fields, segments, 0));
    var i := 0;
    while i < |segments|
      invariant 0 <= i <= |segments|
      invariant Names(fields, columns, names)
      invariant Walk(fields, segments, 0) == Onto(columns, Walk(fields, segments, i))
    {
      var matched, j := false, |segments|;
      while j > i
        invariant i <= j <= |segments| && !matched
        invariant Longest(fields, segments, i, |segments|) == Longest(fields, segments, i, j)
      {
        var name := NameFor(fields, Join(segments[i..j]));
        if name.Some? {
          OntoMore(columns, Join(segments[i..j]), Walk(fields, segments, j));
          names := names + [name.value];
          columns := columns + [Join(segments[i..j])];
          i := j;
          matched := true;
          break;
        }
        j := j - 1;
      }
      if !matched {
        return [];
      }
    }
  }

  // Columns in front of what the rest of a walk gives.
  function Onto(columns: seq<string>, rest: Option<seq<string>>): Option<seq<string>> {
    if rest.None? then None else Some(columns + rest.value)
  }

  lemma OntoNothing(rest: Option<seq<string>>)
    ensures Onto([], rest) == rest
  {
    if rest.Some? {
      assert [] + rest.value == rest.value;
    }
  }

  lemma OntoMore(columns: seq<string>, c: string, rest: Option<seq<string>>)
    ensures Onto(columns + [c], rest) == Onto(columns, if rest.None? then None else Some([c] + rest.value))
  {
    if rest.Some? {
      assert columns + [c] + rest.value == columns + ([c] + rest.value);
    }
  }

  // A result names the fields of columns that make up the body; and where no
  // column starts with another one, there is a result exactly when such columns
  // exist, and they are the only ones.
  method FieldNamesFromIndex(table: string, fields: seq<Field>, index: string) returns (names: seq<string>)
    ensures table + "_" <= index && BodyOf(table, index) != "" ==>
      var columns := Columns(fields, BodyOf(table, index));
      if columns.None? then names == [] else Names(fields, columns.value, names)
    ensures !(table + "_" <= index) || BodyOf(table, index) == "" ==> names == []
    ensures names != [] ==> exists columns ::
      IsSegmentation(fields, columns, BodyOf(table, index)) && Names(fields, columns, names)
    ensures NoneOvertakes(fields) && BodyOf(table, index) != "" ==>
      forall columns | IsSegmentation(fields, columns, BodyOf(table, index)) :: Names(fields, columns, names)
  {
    hide Walk, Split, Join, NameFor, IsSegmentation, NoneOvertakes, EndsWith;
    if !(table + "_" <= index) {
      return [];
    }
    var body := StripSuffix(index[|table| + 1..]);
    if body == "" {
      return [];
    }
    forall columns | NoneOvertakes(fields) && IsSegmentation(fields, columns, body)
      ensures Columns(fields, body) == Some(columns)
    {
      ColumnsAreComplete(fields, body, columns);
    }
    if Columns(fields, body).Some? {
      ColumnsAreSound(fields, body);
    }
    var direct := NameFor(fields, body);
    if direct.Some? {
      assert Names(fields, [body], [direct.value]);
      return [direct.value];
    }
    SplitNotEmpty(body);
    names := WalkSegments(fields, Split(body));
  }
}
