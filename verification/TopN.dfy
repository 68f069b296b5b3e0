// Ranking series by their totals: what both adapters do before they collapse the
// series beyond the top N.
module TopN {
  import opened Prelude

  function SumOver(keys: seq<string>, value: map<string, real>): real
    requires forall k | k in keys :: k in value
  {
    if keys == [] then 0.0 else SumOver(keys[..|keys| - 1], value) + value[keys[|keys| - 1]]
  }

  ghost predicate Distinct<T>(s: seq<T>) {
    forall i, j | 0 <= i < j < |s| :: s[i] != s[j]
  }

  lemma {:induction false} DistinctCount(s: seq<string>)
    requires Distinct(s)
    ensures |Elems(s)| == |s|
  {
    if s != [] {
      var n := |s| - 1;
      DistinctCount(s[..n]);
      assert s[..n + 1] == s;
      ElemsSnoc(s, n);
    }
  }

  // ---- a sum does not depend on the order of its keys ----------------------

  lemma {:induction false} SumWithout(keys: seq<string>, i: nat, value: map<string, real>)
    requires i < |keys| && forall k | k in keys :: k in value
    ensures forall k | k in keys[..i] + keys[i + 1..] :: k in value
    ensures SumOver(keys, value) == SumOver(keys[..i] + keys[i + 1..], value) + value[keys[i]]
  {
    var n := |keys| - 1;
    if i == n {
      assert keys[..i] + keys[i + 1..] == keys[..n];
    } else {
      var head := keys[..n];
      assert head[i] == keys[i] && forall k | k in head :: k in keys;
      SumWithout(head, i, value);
      var rest := keys[..i] + keys[i + 1..];
      assert rest[..n - 1] == head[..i] + head[i + 1..] && rest[n - 1] == keys[n];
      assert forall k | k in rest :: k in keys;
    }
  }

  lemma {:induction false} SumOfPermuted(a: seq<string>, b: seq<string>, value: map<string, real>)
    requires Distinct(a) && Distinct(b) && Elems(a) == Elems(b) && forall k | k in a :: k in value
    ensures forall k | k in b :: k in Elems(b) && k in value
    ensures SumOver(a, value) == SumOver(b, value)
    decreases |a|
  {
    forall k | k in b
      ensures k in a
    {
      assert k in Elems(b);
    }
    if a == [] {
      DistinctCount(a);
      DistinctCount(b);
    } else {
      var n := |a| - 1;
      assert a[n] in Elems(b);
      var i :| 0 <= i < |b| && b[i] == a[n];
      var b' := b[..i] + b[i + 1..];
      SumWithout(b, i, value);
      ElemsWithout(b, i);
      ElemsWithout(a, n);
      assert a[..n] + a[n + 1..] == a[..n];
      SumOfPermuted(a[..n], b', value);
    }
  }

  lemma ElemsWithout(s: seq<string>, i: nat)
    requires Distinct(s) && i < |s|
    ensures Distinct(s[..i] + s[i + 1..]) && Elems(s[..i] + s[i + 1..]) == Elems(s) - {s[i]}
  {
  }

  // ---- ranking -------------------------------------------------------------

  // One entry into a list that descends, behind all that are at least as large.
  function Insert(ranked: seq<(string, real)>, x: (string, real)): seq<(string, real)> {
    if ranked == [] || ranked[|ranked| - 1].1 >= x.1 then ranked + [x]
    else
      var n := |ranked| - 1;
      Insert(ranked[..n], x) + [ranked[n]]
  }

  // The stable descending sort.
  function Ranked(totals: seq<(string, real)>): seq<(string, real)> {
    if totals == [] then [] else Insert(Ranked(totals[..|totals| - 1]), totals[|totals| - 1])
  }

  lemma {:induction false} InsertAdds(ranked: seq<(string, real)>, x: (string, real))
    ensures multiset(Insert(ranked, x)) == multiset(ranked) + multiset{x}
  {
    if ranked != [] && ranked[|ranked| - 1].1 < x.1 {
      var n := |ranked| - 1;
      assert ranked == ranked[..n] + [ranked[n]];
      InsertAdds(ranked[..n], x);
    }
  }

  lemma {:induction false} RankedPermutes(totals: seq<(string, real)>)
    ensures multiset(Ranked(totals)) == multiset(totals)
  {
    if totals != [] {
      var n := |totals| - 1;
      assert totals == totals[..n] + [totals[n]];
      RankedPermutes(totals[..n]);
      InsertAdds(Ranked(totals[..n]), totals[n]);
    }
  }

  ghost predicate Descending(s: seq<(string, real)>) {
    forall i, j | 0 <= i < j < |s| :: s[i].1 >= s[j].1
  }

  lemma {:induction false} InsertDescends(ranked: seq<(string, real)>, x: (string, real))
    requires Descending(ranked)
    ensures Descending(Insert(ranked, x))
    ensures forall y | y in Insert(ranked, x) :: y in ranked || y == x
  {
    if ranked != [] && ranked[|ranked| - 1].1 < x.1 {
      var n := |ranked| - 1;
      InsertDescends(ranked[..n], x);
      var r := Insert(ranked[..n], x);
      forall i | 0 <= i < |r|
        ensures r[i].1 >= ranked[n].1
      {
        assert r[i] in r;
      }
    }
  }

  lemma {:induction false} RankedDescends(totals: seq<(string, real)>)
    ensures Descending(Ranked(totals))
  {
    if totals != [] {
      RankedDescends(totals[..|totals| - 1]);
      InsertDescends(Ranked(totals[..|totals| - 1]), totals[|totals| - 1]);
    }
  }

  function Keys(s: seq<(string, real)>): (keys: seq<string>)
    ensures |keys| == |s| && forall i | 0 <= i < |s| :: keys[i] == s[i].0
  {
    seq(|s|, i requires 0 <= i < |s| => s[i].0)
  }

  // `totals.slice(0, topN)`, as a set of keys.
  function Kept(totals: seq<(string, real)>, topN: nat): set<string> {
    var ranked := Ranked(totals);
    Elems(Keys(ranked[..if topN < |ranked| then topN else |ranked|]))
  }

  // ---- the totals of a table -----------------------------------------------

  ghost predicate Proper<V>(t: Table<Table<V>>) {
    Ordered(t) && forall key | key in t.at :: Ordered(t.at[key]) && t.at[key].order != []
  }

  function TotalOf(t: Table<Table<real>>, key: string): real
    requires key in t.at && forall b | b in t.at[key].order :: b in t.at[key].at
  {
    SumOver(t.at[key].order, t.at[key].at)
  }

  // `keep` holds as many keys as fit, and none outside has a larger total.
  ghost predicate IsTop(keep: set<string>, t: Table<Table<real>>, topN: nat)
    requires Proper(t)
  {
    && keep <= t.at.Keys
    && |keep| == (if topN < |t.order| then topN else |t.order|)
    && forall k, d | k in keep && d in t.at.Keys - keep :: TotalOf(t, k) >= TotalOf(t, d)
  }

  lemma {:induction false} InsertKeys(ranked: seq<(string, real)>, x: (string, real))
    requires Distinct(Keys(ranked)) && x.0 !in Keys(ranked)
    ensures Distinct(Keys(Insert(ranked, x)))
    ensures forall k :: k in Keys(Insert(ranked, x)) <==> k in Keys(ranked) || k == x.0
  {
    if ranked == [] || ranked[|ranked| - 1].1 >= x.1 {
      assert Keys(ranked + [x]) == Keys(ranked) + [x.0];
      assert forall k :: k in Keys(ranked) + [x.0] <==> k in Keys(ranked) || k == x.0;
    } else {
      var n := |ranked| - 1;
      var r := Insert(ranked[..n], x);
      assert Keys(ranked) == Keys(ranked[..n]) + [ranked[n].0];
      assert Distinct(Keys(ranked[..n])) && ranked[n].0 !in Keys(ranked[..n]) by {
        assert forall i | 0 <= i < n :: Keys(ranked[..n])[i] == Keys(ranked)[i];
      }
      InsertKeys(ranked[..n], x);
      assert Keys(r + [ranked[n]]) == Keys(r) + [ranked[n].0];
    }
  }

  lemma {:induction false} RankedKeys(totals: seq<(string, real)>)
    requires Distinct(Keys(totals))
    ensures Distinct(Keys(Ranked(totals)))
    ensures forall k :: k in Keys(Ranked(totals)) <==> k in Keys(totals)
  {
    if totals != [] {
      var n := |totals| - 1;
      assert Keys(totals) == Keys(totals[..n]) + [totals[n].0];
      assert Distinct(Keys(totals[..n])) && totals[n].0 !in Keys(totals[..n]) by {
        assert forall i | 0 <= i < n :: Keys(totals[..n])[i] == Keys(totals)[i];
      }
      RankedKeys(totals[..n]);
      InsertKeys(Ranked(totals[..n]), totals[n]);
    }
  }

  ghost predicate AreTotals(totals: seq<(string, real)>, t: Table<Table<real>>)
    requires Proper(t)
  {
    Keys(totals) == t.order && forall x | x in totals :: x.0 in t.at && x.1 == TotalOf(t, x.0)
  }

  lemma RankedMembers(totals: seq<(string, real)>)
    ensures |Ranked(totals)| == |totals| && forall x :: x in Ranked(totals) <==> x in totals
  {
    hide Ranked;
    var r := Ranked(totals);
    RankedPermutes(totals);
    assert |r| == |multiset(r)| == |multiset(totals)| == |totals|;
    forall x
      ensures x in r <==> x in totals
    {
      assert x in multiset(r) <==> x in multiset(totals);
    }
  }

  lemma KeptCount(totals: seq<(string, real)>, topN: nat)
    requires Distinct(Keys(totals))
    ensures |Kept(totals, topN)| == if topN < |totals| then topN else |totals|
  {
    hide Ranked;
    var ranked := Ranked(totals);
    var m := if topN < |ranked| then topN else |ranked|;
    RankedMembers(totals);
    RankedKeys(totals);
    assert Keys(ranked[..m]) == Keys(ranked)[..m];
    DistinctCount(Keys(ranked)[..m]);
  }

  lemma SameKey(s: seq<(string, real)>, x: (string, real), y: (string, real))
    requires Distinct(Keys(s)) && x in s && y in s && x.0 == y.0
    ensures x == y
  {
  }

  lemma KeptIs(totals: seq<(string, real)>, topN: nat, k: string) returns (i: nat)
    requires k in Kept(totals, topN)
    ensures i < topN && i < |Ranked(totals)| && Ranked(totals)[i].0 == k
  {
    hide Ranked;
    var ranked := Ranked(totals);
    var m := if topN < |ranked| then topN else |ranked|;
    i :| 0 <= i < m && Keys(ranked[..m])[i] == k;
  }

  lemma IsKept(totals: seq<(string, real)>, topN: nat, i: nat)
    requires i < topN && i < |Ranked(totals)|
    ensures Ranked(totals)[i].0 in Kept(totals, topN)
  {
    hide Ranked;
    var ranked := Ranked(totals);
    var m := if topN < |ranked| then topN else |ranked|;
    assert Keys(ranked[..m])[i] == ranked[i].0;
  }

  lemma KeptRanks(totals: seq<(string, real)>, topN: nat, x: (string, real), y: (string, real))
    requires Distinct(Keys(totals)) && x in totals && y in totals
    requires x.0 in Kept(totals, topN) && y.0 !in Kept(totals, topN)
    ensures x.1 >= y.1
  {
    hide Ranked, Kept, Keys;
    var ranked := Ranked(totals);
    RankedMembers(totals);
    RankedDescends(totals);
    RankedKeys(totals);
    var i := KeptIs(totals, topN, x.0);
    SameKey(ranked, ranked[i], x);
    var j :| 0 <= j < |ranked| && ranked[j] == y;
    if j < topN {
      IsKept(totals, topN, j);
    }
  }

  lemma KeptIsTop(totals: seq<(string, real)>, t: Table<Table<real>>, topN: nat)
    requires Proper(t) && AreTotals(totals, t)
    ensures IsTop(Kept(totals, topN), t, topN)
  {
    hide TotalOf, Kept;
    KeptCount(totals, topN);
    forall k | k in Kept(totals, topN)
      ensures k in t.at && (k, TotalOf(t, k)) in totals
    {
      var i := KeptIs(totals, topN, k);
      RankedMembers(totals);
      assert Ranked(totals)[i] in totals;
    }
    forall k, d | k in Kept(totals, topN) && d in t.at.Keys - Kept(totals, topN)
      ensures TotalOf(t, k) >= TotalOf(t, d)
    {
      var j :| 0 <= j < |t.order| && t.order[j] == d;
      assert totals[j] in totals && totals[j].0 == Keys(totals)[j];
      KeptRanks(totals, topN, (k, TotalOf(t, k)), totals[j]);
    }
  }

  // ---- the top is unique when the totals differ ----------------------------

  lemma SmallerMisses(a: set<string>, b: set<string>, x: string) returns (y: string)
    requires |a| == |b| && x in a && x !in b
    ensures y in b && y !in a
  {
    if b <= a {
      assert b <= a - {x};
      SubsetCount(b, a - {x});
      assert false;
    }
    y :| y in b && y !in a;
  }

  lemma {:induction false} SubsetCount(a: set<string>, b: set<string>)
    requires a <= b
    ensures |a| <= |b|
  {
    if a != {} {
      var x :| x in a;
      SubsetCount(a - {x}, b - {x});
    }
  }

  // No kept total is that of a dropped series; so it is when nothing is dropped.
  ghost predicate NoTie(keep: set<string>, t: Table<Table<real>>)
    requires Proper(t) && keep <= t.at.Keys
  {
    forall k, d | k in keep && d in t.at.Keys - keep :: TotalOf(t, k) != TotalOf(t, d)
  }

  lemma TopIsUnique(keep: set<string>, keep': set<string>, t: Table<Table<real>>, t': Table<Table<real>>, topN: nat)
    requires Proper(t) && Proper(t') && IsTop(keep, t, topN) && IsTop(keep', t', topN)
    requires t.at.Keys == t'.at.Keys && |t.order| == |t'.order|
    requires forall k | k in t.at :: TotalOf(t, k) == TotalOf(t', k)
    requires NoTie(keep, t)
    ensures keep == keep'
  {
    hide TotalOf, Proper;
    if x :| x in keep && x !in keep' {
      var y := SmallerMisses(keep, keep', x);
      assert false;
    }
    if x :| x in keep' && x !in keep {
      var y := SmallerMisses(keep', keep, x);
      assert false;
    }
  }

  // Without a tie at the cut there is one top, and with a tie there is another.
  lemma TopIsUniqueExactly(keep: set<string>, t: Table<Table<real>>, topN: nat)
    requires Proper(t) && IsTop(keep, t, topN)
    ensures (forall keep' :: IsTop(keep', t, topN) ==> keep' == keep) <==> NoTie(keep, t)
  {
    hide TotalOf;
    if NoTie(keep, t) {
      forall keep' | IsTop(keep', t, topN)
        ensures keep' == keep
      {
        TopIsUnique(keep, keep', t, t, topN);
      }
    } else {
      var k, d :| k in keep && d in t.at.Keys - keep && TotalOf(t, k) == TotalOf(t, d);
      var keep' := keep - {k} + {d};
      assert |keep'| == |keep|;
      assert IsTop(keep', t, topN) && d in keep';
    }
  }

  // Where all series fit, they are all kept.
  lemma AllFit(keep: set<string>, t: Table<Table<real>>, topN: nat)
    requires Proper(t) && IsTop(keep, t, topN) && |t.order| <= topN
    ensures keep == t.at.Keys && NoTie(keep, t)
  {
    DistinctCount(t.order);
    assert Elems(t.order) == t.at.Keys;
    if x :| x in t.at.Keys && x !in keep {
      SubsetCount(keep, t.at.Keys - {x});
    }
  }
}
