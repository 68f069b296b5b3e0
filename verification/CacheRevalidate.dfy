// `revalidate`, the forced refresh of a cache entry: it checks after its load
// that no epoch has moved, and when the value differs from the previous one it
// announces that and notes the epochs again before it stores. Epochs are read one
// tag at a time, the second time too.
module CacheRevalidate {
  import opened Prelude
  import opened RedisStore
  import opened CacheIndex
  import opened CacheCoherence

  // How far a reader has come that revalidates its entry: what was cached before,
  // for which tags the check after the load has passed, and whether the change has
  // been announced.
  datatype Progress = Progress(previous: Option<string>, checked: set<Tag>, announced: bool)

  const NOTHING := Progress(None, {}, false)

  datatype Refreshing = Refreshing(sys: System, progress: map<nat, Progress>)

  // The captures before the load, the load and the store are those of any reader.
  datatype Step =
    | Ordinary(action: Action)
    | ReadPrevious(reader: nat)
    | Check(reader: nat, tag: Tag)
    | Announced(reader: nat, tags: seq<Tag>)
    | NoteAgain(reader: nat, tag: Tag)

  function ProgressOf(s: Refreshing, r: nat): Progress {
    if r in s.progress then s.progress[r] else NOTHING
  }

  ghost predicate Possible(scheme: map<Key, set<Tag>>, s: Refreshing, step: Step) {
    && s.sys.source.Keys == scheme.Keys
    && (forall r | r in s.sys.readers :: s.sys.readers[r].key in scheme)
    && match step
       case Ordinary(a) => Enabled(scheme, s.sys, a)
       case ReadPrevious(r) => r in s.sys.readers && s.sys.readers[r].loaded.None?
       case Check(r, t) =>
         && r in s.sys.readers && s.sys.readers[r].loaded.Some?
         && EpochOf(s.sys.cache.db.epochs, t) == EpochOf(s.sys.readers[r].noted, t)
       case Announced(r, _) =>
         var p := ProgressOf(s, r);
         r in s.sys.readers && scheme[s.sys.readers[r].key] <= p.checked && p.previous.Some?
           && p.previous != s.sys.readers[r].loaded
       case NoteAgain(r, t) =>
         && r in s.sys.readers && s.sys.readers[r].loaded.Some? && t in scheme[s.sys.readers[r].key]
         && ProgressOf(s, r).announced
  }

  function After(scheme: map<Key, set<Tag>>, s: Refreshing, step: Step): Refreshing
    requires Possible(scheme, s, step)
  {
    match step
    case Ordinary(a) =>
      Refreshing(Perform(scheme, s.sys, a), if a.Start? then s.progress[a.reader := NOTHING] else s.progress)
    case ReadPrevious(r) =>
      var k, values := s.sys.readers[r].key, s.sys.cache.db.values;
      s.(progress := s.progress[r := Progress(if k in values then Some(values[k].payload) else None, {}, false)])
    case Check(r, t) =>
      s.(progress := s.progress[r := ProgressOf(s, r).(checked := ProgressOf(s, r).checked + {t})])
    case Announced(r, tags) =>
      Refreshing(Perform(scheme, s.sys, Foreign(Invalidate(tags))), s.progress[r := ProgressOf(s, r).(announced := true)])
    case NoteAgain(r, t) =>
      var reader := s.sys.readers[r];
      s.(sys := s.sys.(readers := s.sys.readers[r := reader.(noted := reader.noted[t := EpochOf(s.sys.cache.db.epochs, t)])]))
  }

  // ---- when noting again is safe -------------------------------------------

  // What was loaded is still current, or a tag of its key still awaits
  // invalidation.
  ghost predicate StillGood(scheme: map<Key, set<Tag>>, s: Refreshing, r: nat) {
    && r in s.sys.readers && s.sys.readers[r].loaded.Some?
    && s.sys.readers[r].key in scheme && s.sys.readers[r].key in s.sys.source
    && Excused(scheme, s.sys, s.sys.readers[r].key, s.sys.readers[r].loaded.value)
  }

  // Another tag of its key has moved since it was noted.
  ghost predicate OtherMoved(scheme: map<Key, set<Tag>>, s: Refreshing, r: nat, t: Tag) {
    && r in s.sys.readers && s.sys.readers[r].key in scheme
    && exists t' :: t' in scheme[s.sys.readers[r].key] && t' != t
         && EpochOf(s.sys.readers[r].noted, t') < EpochOf(s.sys.cache.db.epochs, t')
  }

  // Noting an epoch again keeps the cache coherent exactly when one of these holds.
  lemma NoteAgainExactly(scheme: map<Key, set<Tag>>, s: Refreshing, r: nat, t: Tag)
    requires Coherent(scheme, s.sys) && Possible(scheme, s, NoteAgain(r, t))
    ensures Coherent(scheme, After(scheme, s, NoteAgain(r, t)).sys) <==>
      StillGood(scheme, s, r) || OtherMoved(scheme, s, r, t)
  {
    var after := After(scheme, s, NoteAgain(r, t)).sys;
    var reader := after.readers[r];
    assert forall q | q in s.sys.readers :: ReaderOk(scheme, s.sys, s.sys.readers[q]);
    assert Fenced(scheme, after, reader) <==> OtherMoved(scheme, s, r, t);
    assert ReaderOk(scheme, after, reader) <==> StillGood(scheme, s, r) || OtherMoved(scheme, s, r, t);
    forall q | q in after.readers && q != r
      ensures ReaderOk(scheme, after, after.readers[q])
    {
      assert Fenced(scheme, s.sys, s.sys.readers[q]) ==> Fenced(scheme, after, after.readers[q]);
    }
    forall k | k in after.cache.db.values && k in scheme
      ensures EntryOk(scheme, after, k)
    {
      assert EntryOk(scheme, s.sys, k);
    }
  }

  // Stored at once after the last epoch, the value is refused when another tag has
  // moved; otherwise it is in the cache, and there it is current or awaits
  // invalidation exactly when that held as the epoch was noted.
  lemma StoredAgain(scheme: map<Key, set<Tag>>, s: Refreshing, r: nat, t: Tag, ttl: int, tagTtl: int)
    requires Coherent(scheme, s.sys) && Possible(scheme, s, NoteAgain(r, t))
    ensures Possible(scheme, After(scheme, s, NoteAgain(r, t)), Ordinary(Store(r, ttl, tagTtl)))
    ensures var k := s.sys.readers[r].key;
            var after := After(scheme, After(scheme, s, NoteAgain(r, t)), Ordinary(Store(r, ttl, tagTtl))).sys;
            if OtherMoved(scheme, s, r, t) then after.cache == s.sys.cache
            else
              && k in after.cache.db.values && after.cache.db.values[k].payload == s.sys.readers[r].loaded.value
              && (Excused(scheme, after, k, after.cache.db.values[k].payload) <==> StillGood(scheme, s, r))
  {
    var again := After(scheme, s, NoteAgain(r, t)).sys;
    var reader := again.readers[r];
    assert ReaderOk(scheme, s.sys, s.sys.readers[r]);
    assert Fenced(scheme, again, reader) <==> OtherMoved(scheme, s, r, t);
    assert EpochsMatch(again.cache.db.epochs, scheme[reader.key], reader.noted) <==> !Fenced(scheme, again, reader);
  }

  lemma StepKeepsCoherent(scheme: map<Key, set<Tag>>, s: Refreshing, step: Step)
    requires Coherent(scheme, s.sys) && Possible(scheme, s, step) && !step.NoteAgain?
    ensures Coherent(scheme, After(scheme, s, step).sys)
  {
    hide Coherent;
    match step
    case Ordinary(a) => ActionKeepsCoherent(scheme, s.sys, a);
    case Announced(_, tags) => ActionKeepsCoherent(scheme, s.sys, Foreign(Invalidate(tags)));
    case _ =>
  }

  // ---- over whole interleavings --------------------------------------------

  ghost predicate Begins(scheme: map<Key, set<Tag>>, s: Refreshing) {
    s.sys.source.Keys == scheme.Keys && s.sys.cache == START && s.sys.readers == map[] && s.sys.pending == {}
      && s.progress == map[]
  }

  ghost predicate Refreshes(scheme: map<Key, set<Tag>>, trace: seq<Refreshing>, steps: seq<Step>) {
    && |trace| == |steps| + 1 && Begins(scheme, trace[0])
    && forall i | 0 <= i < |steps| ::
         Possible(scheme, trace[i], steps[i]) && trace[i + 1] == After(scheme, trace[i], steps[i])
  }

  ghost predicate GoodSoFar(scheme: map<Key, set<Tag>>, trace: seq<Refreshing>, steps: seq<Step>, n: nat)
    requires Refreshes(scheme, trace, steps) && n <= |steps|
  {
    forall i | 0 <= i < n && steps[i].NoteAgain? ::
      StillGood(scheme, trace[i], steps[i].reader) || OtherMoved(scheme, trace[i], steps[i].reader, steps[i].tag)
  }

  // An interleaving stays coherent exactly as long as every epoch that is noted
  // again finds its value still good, or another tag that has moved.
  lemma {:induction false} CoherentExactly(scheme: map<Key, set<Tag>>, trace: seq<Refreshing>, steps: seq<Step>, n: nat)
    requires Refreshes(scheme, trace, steps) && n < |trace|
    ensures (forall i | 0 <= i <= n :: Coherent(scheme, trace[i].sys)) <==> GoodSoFar(scheme, trace, steps, n)
  {
    hide Coherent, StillGood, OtherMoved, Possible;
    if n == 0 {
      StartsCoherent(scheme, trace[0]);
    } else {
      var m := n - 1;
      CoherentExactly(scheme, trace, steps, m);
      assert Possible(scheme, trace[m], steps[m]) && trace[m + 1] == After(scheme, trace[m], steps[m]);
      if Coherent(scheme, trace[m].sys) {
        if steps[m].NoteAgain? {
          assert steps[m] == NoteAgain(steps[m].reader, steps[m].tag);
          NoteAgainExactly(scheme, trace[m], steps[m].reader, steps[m].tag);
        } else {
          StepKeepsCoherent(scheme, trace[m], steps[m]);
        }
      }
      assert GoodSoFar(scheme, trace, steps, n) <==>
        GoodSoFar(scheme, trace, steps, m)
          && (steps[m].NoteAgain? ==> StillGood(scheme, trace[m], steps[m].reader) || OtherMoved(scheme, trace[m], steps[m].reader, steps[m].tag));
    }
  }

  lemma StartsCoherent(scheme: map<Key, set<Tag>>, s: Refreshing)
    requires Begins(scheme, s)
    ensures Coherent(scheme, s.sys)
  {
  }

  // ---- an interleaving that fails ------------------------------------------

  // What a sequence of steps leads to, when each is possible in its turn.
  ghost function Run(scheme: map<Key, set<Tag>>, s: Refreshing, steps: seq<Step>): Option<Refreshing>
    decreases |steps|
  {
    if steps == [] then Some(s)
    else if !Possible(scheme, s, steps[0]) then None
    else Run(scheme, After(scheme, s, steps[0]), steps[1..])
  }

  lemma RunStep(scheme: map<Key, set<Tag>>, s: Refreshing, steps: seq<Step>, i: nat)
    requires i < |steps| && Possible(scheme, s, steps[i])
    ensures Run(scheme, s, steps[i..]) == Run(scheme, After(scheme, s, steps[i]), steps[i + 1..])
  {
    assert steps[i..][0] == steps[i] && steps[i..][1..] == steps[i + 1..];
  }

  // Every such run is one of the interleavings above.
  lemma {:induction false} RunIsTrace(scheme: map<Key, set<Tag>>, s: Refreshing, steps: seq<Step>)
    returns (trace: seq<Refreshing>)
    requires Run(scheme, s, steps).Some?
    ensures |trace| == |steps| + 1 && trace[0] == s && trace[|steps|] == Run(scheme, s, steps).value
    ensures forall i | 0 <= i < |steps| ::
      Possible(scheme, trace[i], steps[i]) && trace[i + 1] == After(scheme, trace[i], steps[i])
    decreases |steps|
  {
    hide Possible, After;
    if steps == [] {
      trace := [s];
    } else {
      var rest := RunIsTrace(scheme, After(scheme, s, steps[0]), steps[1..]);
      trace := [s] + rest;
      forall i | 0 <= i < |steps|
        ensures Possible(scheme, trace[i], steps[i]) && trace[i + 1] == After(scheme, trace[i], steps[i])
      {
        if i > 0 {
          assert steps[i] == steps[1..][i - 1] && trace[i] == rest[i - 1] && trace[i + 1] == rest[i];
        }
      }
    }
  }

  // A value is cached and changes; a refresh loads the new one and passes its
  // check; the value changes again, and that is announced; only then does the
  // refresh announce its own change and note the epochs again.
  function Late(k: Key, t: Tag, b: string, c: string, ttl: int, tagTtl: int): seq<Step> {
    [Ordinary(Start(0, k)), Ordinary(Note(0, t)), Ordinary(Load(0)), Ordinary(Store(0, ttl, tagTtl)),
     Ordinary(Mutate(map[k := b], {t})), Ordinary(Start(1, k)), Ordinary(Note(1, t)), ReadPrevious(1), Ordinary(Load(1)), Check(1, t),
     Ordinary(Mutate(map[k := c], {t})), Ordinary(Announce([t])), Announced(1, [t]), NoteAgain(1, t), Ordinary(Store(1, ttl, tagTtl))]
  }

  ghost predicate Stands(s: Refreshing, k: Key, source: string, pending: set<Tag>) {
    s.sys.source == map[k := source] && s.sys.pending == pending
  }

  lemma LateSteps(k: Key, t: Tag, b: string, c: string, ttl: int, tagTtl: int)
    ensures var steps := Late(k, t, b, c, ttl, tagTtl);
            && |steps| == 15 && steps[0..] == steps
            && steps[0] == Ordinary(Start(0, k)) && steps[1] == Ordinary(Note(0, t)) && steps[2] == Ordinary(Load(0))
            && steps[3] == Ordinary(Store(0, ttl, tagTtl))
            && steps[4] == Ordinary(Mutate(map[k := b], {t})) && steps[5] == Ordinary(Start(1, k))
            && steps[6] == Ordinary(Note(1, t))
            && steps[7] == ReadPrevious(1) && steps[8] == Ordinary(Load(1)) && steps[9] == Check(1, t)
            && steps[10] == Ordinary(Mutate(map[k := c], {t})) && steps[11] == Ordinary(Announce([t]))
            && steps[12] == Announced(1, [t])
            && steps[13] == NoteAgain(1, t) && steps[14] == Ordinary(Store(1, ttl, tagTtl))
  {
  }

  lemma LoadedFirst(k: Key, t: Tag, a: string, b: string, c: string, ttl: int, tagTtl: int) returns (s: Refreshing)
    ensures var start := Refreshing(System(START, map[k := a], {}, map[]), map[]);
            Run(map[k := {t}], start, Late(k, t, b, c, ttl, tagTtl)) == Run(map[k := {t}], s, Late(k, t, b, c, ttl, tagTtl)[3..])
    ensures Stands(s, k, a, {}) && s.sys.cache == START && s.sys.readers == map[0 := Reader(k, map[t := 0], Some(a))]
  {
    hide Run, Late;
    LateSteps(k, t, b, c, ttl, tagTtl);
    var scheme, steps := map[k := {t}], Late(k, t, b, c, ttl, tagTtl);
    s := Refreshing(System(START, map[k := a], {}, map[]), map[]);
    RunStep(scheme, s, steps, 0);
    s := After(scheme, s, steps[0]);
    RunStep(scheme, s, steps, 1);
    s := After(scheme, s, steps[1]);
    RunStep(scheme, s, steps, 2);
    s := After(scheme, s, steps[2]);
  }

  lemma CachedFirst(s0: Refreshing, k: Key, t: Tag, a: string, b: string, c: string, ttl: int, tagTtl: int)
    returns (s: Refreshing)
    requires ttl > 0
    requires Stands(s0, k, a, {}) && s0.sys.cache == START
      && s0.sys.readers == map[0 := Reader(k, map[t := 0], Some(a))]
    ensures Run(map[k := {t}], s0, Late(k, t, b, c, ttl, tagTtl)[3..]) ==
      Run(map[k := {t}], s, Late(k, t, b, c, ttl, tagTtl)[4..])
    ensures Stands(s, k, a, {}) && s.sys.readers == map[] && EpochOf(s.sys.cache.db.epochs, t) == 0
    ensures k in s.sys.cache.db.values && s.sys.cache.db.values[k].payload == a
  {
    hide Run, Late, Unlinked, Linked, Links;
    LateSteps(k, t, b, c, ttl, tagTtl);
    var scheme, steps := map[k := {t}], Late(k, t, b, c, ttl, tagTtl);
    s := s0;
    RunStep(scheme, s, steps, 3);
    s := After(scheme, s, steps[3]);
  }

  lemma ChangedOnce(s0: Refreshing, k: Key, t: Tag, a: string, b: string, c: string, ttl: int, tagTtl: int)
    returns (s: Refreshing)
    requires Stands(s0, k, a, {}) && s0.sys.readers == map[] && EpochOf(s0.sys.cache.db.epochs, t) == 0
    requires k in s0.sys.cache.db.values && s0.sys.cache.db.values[k].payload == a
    ensures Run(map[k := {t}], s0, Late(k, t, b, c, ttl, tagTtl)[4..]) ==
      Run(map[k := {t}], s, Late(k, t, b, c, ttl, tagTtl)[7..])
    ensures Stands(s, k, b, {t}) && s.sys.readers == map[1 := Reader(k, map[t := 0], None)]
      && EpochOf(s.sys.cache.db.epochs, t) == 0
    ensures k in s.sys.cache.db.values && s.sys.cache.db.values[k].payload == a
  {
    hide Run, Late;
    LateSteps(k, t, b, c, ttl, tagTtl);
    var scheme, steps := map[k := {t}], Late(k, t, b, c, ttl, tagTtl);
    s := s0;
    RunStep(scheme, s, steps, 4);
    s := After(scheme, s, steps[4]);
    assert s.sys.source == map[k := b];
    RunStep(scheme, s, steps, 5);
    s := After(scheme, s, steps[5]);
    RunStep(scheme, s, steps, 6);
    s := After(scheme, s, steps[6]);
  }

  lemma LoadedThen(s0: Refreshing, k: Key, t: Tag, a: string, b: string, c: string, ttl: int, tagTtl: int)
    returns (s: Refreshing)
    requires Stands(s0, k, b, {t}) && s0.sys.readers == map[1 := Reader(k, map[t := 0], None)]
      && EpochOf(s0.sys.cache.db.epochs, t) == 0
    requires k in s0.sys.cache.db.values && s0.sys.cache.db.values[k].payload == a
    ensures Run(map[k := {t}], s0, Late(k, t, b, c, ttl, tagTtl)[7..]) ==
      Run(map[k := {t}], s, Late(k, t, b, c, ttl, tagTtl)[10..])
    ensures Stands(s, k, b, {t}) && s.sys.readers == map[1 := Reader(k, map[t := 0], Some(b))]
    ensures ProgressOf(s, 1) == Progress(Some(a), {t}, false)
  {
    hide Run, Late;
    LateSteps(k, t, b, c, ttl, tagTtl);
    var scheme, steps := map[k := {t}], Late(k, t, b, c, ttl, tagTtl);
    s := s0;
    RunStep(scheme, s, steps, 7);
    s := After(scheme, s, steps[7]);
    RunStep(scheme, s, steps, 8);
    s := After(scheme, s, steps[8]);
    RunStep(scheme, s, steps, 9);
    s := After(scheme, s, steps[9]);
  }

  lemma ChangedAgain(s0: Refreshing, k: Key, t: Tag, a: string, b: string, c: string, ttl: int, tagTtl: int)
    returns (s: Refreshing)
    requires Stands(s0, k, b, {t}) && s0.sys.readers == map[1 := Reader(k, map[t := 0], Some(b))]
    requires ProgressOf(s0, 1) == Progress(Some(a), {t}, false)
    ensures Run(map[k := {t}], s0, Late(k, t, b, c, ttl, tagTtl)[10..]) ==
      Run(map[k := {t}], s, Late(k, t, b, c, ttl, tagTtl)[12..])
    ensures Stands(s, k, c, {}) && s.sys.readers == map[1 := Reader(k, map[t := 0], Some(b))]
    ensures ProgressOf(s, 1) == Progress(Some(a), {t}, false)
  {
    hide Run, Late, AfterInvalidate;
    LateSteps(k, t, b, c, ttl, tagTtl);
    var scheme, steps := map[k := {t}], Late(k, t, b, c, ttl, tagTtl);
    s := s0;
    RunStep(scheme, s, steps, 10);
    s := After(scheme, s, steps[10]);
    assert s.sys.source == map[k := c];
    RunStep(scheme, s, steps, 11);
    s := After(scheme, s, steps[11]);
    assert s.sys.pending == {};
  }

  lemma NotedAgain(s0: Refreshing, k: Key, t: Tag, a: string, b: string, c: string, ttl: int, tagTtl: int)
    returns (s: Refreshing)
    requires a != b
    requires Stands(s0, k, c, {}) && s0.sys.readers == map[1 := Reader(k, map[t := 0], Some(b))]
    requires ProgressOf(s0, 1) == Progress(Some(a), {t}, false)
    ensures Run(map[k := {t}], s0, Late(k, t, b, c, ttl, tagTtl)[12..]) ==
      Run(map[k := {t}], s, Late(k, t, b, c, ttl, tagTtl)[14..])
    ensures Stands(s, k, c, {}) && s.sys.readers ==
      map[1 := Reader(k, map[t := EpochOf(s.sys.cache.db.epochs, t)], Some(b))]
  {
    hide Run, Late, AfterInvalidate;
    LateSteps(k, t, b, c, ttl, tagTtl);
    var scheme, steps := map[k := {t}], Late(k, t, b, c, ttl, tagTtl);
    s := s0;
    RunStep(scheme, s, steps, 12);
    s := After(scheme, s, steps[12]);
    RunStep(scheme, s, steps, 13);
    var e := EpochOf(s.sys.cache.db.epochs, t);
    assert map[t := 0][t := e] == map[t := e];
    s := After(scheme, s, steps[13]);
  }

  lemma StoredLate(s0: Refreshing, k: Key, t: Tag, a: string, b: string, c: string, ttl: int, tagTtl: int)
    returns (s: Refreshing)
    requires ttl > 0
    requires Stands(s0, k, c, {})
      && s0.sys.readers == map[1 := Reader(k, map[t := EpochOf(s0.sys.cache.db.epochs, t)], Some(b))]
    ensures Run(map[k := {t}], s0, Late(k, t, b, c, ttl, tagTtl)[14..]) == Some(s)
    ensures Stands(s, k, c, {}) && k in s.sys.cache.db.values && s.sys.cache.db.values[k].payload == b
  {
    hide Run, Late, Unlinked, Linked, Links;
    LateSteps(k, t, b, c, ttl, tagTtl);
    var scheme, steps := map[k := {t}], Late(k, t, b, c, ttl, tagTtl);
    s := s0;
    RunStep(scheme, s, steps, 14);
    s := After(scheme, s, steps[14]);
    RunNothing(scheme, s, steps);
  }

  lemma RunNothing(scheme: map<Key, set<Tag>>, s: Refreshing, steps: seq<Step>)
    ensures Run(scheme, s, steps[|steps|..]) == Some(s)
  {
  }

  // It is an interleaving that ends with the outdated value in the cache, and nothing pending that would
  // remove it.
  lemma LateNotingStoresOutdated(k: Key, t: Tag, a: string, b: string, c: string, ttl: int, tagTtl: int)
    returns (trace: seq<Refreshing>, s: Refreshing)
    requires a != b && b != c && ttl > 0
    ensures Refreshes(map[k := {t}], trace, Late(k, t, b, c, ttl, tagTtl)) && s == trace[|trace| - 1]
    ensures trace[0].sys.source == map[k := a]
    ensures k in s.sys.cache.db.values && k in s.sys.source && s.sys.cache.db.values[k].payload != s.sys.source[k]
      && s.sys.pending == {}
  {
    hide Run, Late;
    var s1 := LoadedFirst(k, t, a, b, c, ttl, tagTtl);
    var s2 := CachedFirst(s1, k, t, a, b, c, ttl, tagTtl);
    var s3 := ChangedOnce(s2, k, t, a, b, c, ttl, tagTtl);
    var s4 := LoadedThen(s3, k, t, a, b, c, ttl, tagTtl);
    var s5 := ChangedAgain(s4, k, t, a, b, c, ttl, tagTtl);
    var s6 := NotedAgain(s5, k, t, a, b, c, ttl, tagTtl);
    s := StoredLate(s6, k, t, a, b, c, ttl, tagTtl);
    assert map[k := a].Keys == map[k := {t}].Keys;
    trace := RunIsTrace(map[k := {t}], Refreshing(System(START, map[k := a], {}, map[]), map[]),
                        Late(k, t, b, c, ttl, tagTtl));
  }
}
