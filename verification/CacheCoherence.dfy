// Readers that fence their cache writes with tag epochs, writers that announce
// what they changed, and the proof that the cache agrees with the source.
//
// A reader notes the epochs of its tags one at a time, loads its value from
// the source, and later stores it on the condition that no epoch has moved.  A
// writer changes the source at once and invalidates later; until then the tags
// it owes are pending.  Everything else about the interleaving is free: any
// number of readers and writers, other traffic on other keys, deletes, spare
// invalidations, and time passing.
module CacheCoherence {
  import opened Prelude
  import opened RedisStore
  import opened CacheIndex

  datatype Reader = Reader(key: Key, noted: map<Tag, nat>, loaded: Option<string>)

  datatype System = System(
    cache: Tracked,
    source: map<Key, string>,
    pending: set<Tag>,
    readers: map<nat, Reader>)

  datatype Action =
    | Start(reader: nat, key: Key)
    | Note(reader: nat, tag: Tag)
    | Load(reader: nat)
    | Store(reader: nat, ttl: int, tagTtl: int)
    | Mutate(changes: map<Key, string>, announced: set<Tag>)
    | Announce(tags: seq<Tag>)
    | Foreign(op: Op)

  // `scheme` gives the tags of every key that readers maintain.
  ghost predicate Enabled(scheme: map<Key, set<Tag>>, s: System, a: Action) {
    match a
    case Start(r, k) => r !in s.readers && k in scheme
    case Note(r, t) =>
      r in s.readers && s.readers[r].key in scheme && s.readers[r].loaded.None? && t in scheme[s.readers[r].key]
    case Load(r) => r in s.readers
    case Store(r, _, _) => r in s.readers && s.readers[r].loaded.Some?
    case Mutate(changes, announced) =>
      changes.Keys <= scheme.Keys && forall k | k in changes :: !(scheme[k] !! announced)
    case Announce(_) => true
    case Foreign(op) => op.Set? ==> op.key !in scheme
  }

  function Perform(scheme: map<Key, set<Tag>>, s: System, a: Action): System
    requires s.source.Keys == scheme.Keys
    requires forall r | r in s.readers :: s.readers[r].key in scheme
    requires Enabled(scheme, s, a)
  {
    match a
    case Start(r, k) => s.(readers := s.readers[r := Reader(k, map[], None)])
    case Note(r, t) =>
      s.(readers := s.readers[r := s.readers[r].(noted := s.readers[r].noted[t := EpochOf(s.cache.db.epochs, t)])])
    case Load(r) =>
      s.(readers := s.readers[r := s.readers[r].(loaded := Some(s.source[s.readers[r].key]))])
    case Store(r, ttl, tagTtl) =>
      var reader := s.readers[r];
      s.(cache := CacheIndex.Step(s.cache,
           Set(reader.key, reader.loaded.value, scheme[reader.key], ttl, tagTtl, Some(reader.noted))),
         readers := s.readers - {r})
    case Mutate(changes, announced) => s.(source := s.source + changes, pending := s.pending + announced)
    case Announce(tags) =>
      s.(cache := CacheIndex.Step(s.cache, Invalidate(tags)), pending := s.pending - Elems(tags))
    case Foreign(op) => s.(cache := CacheIndex.Step(s.cache, op))
  }

  // A value for `k` is right, or one of its tags still awaits invalidation.
  ghost predicate Excused(scheme: map<Key, set<Tag>>, s: System, k: Key, value: string)
    requires k in scheme && k in s.source
  {
    value == s.source[k] || !(scheme[k] !! s.pending)
  }

  // The conditional write of a reader would fail.
  ghost predicate Fenced(scheme: map<Key, set<Tag>>, s: System, reader: Reader)
    requires reader.key in scheme
  {
    exists t :: t in scheme[reader.key] && EpochOf(reader.noted, t) < EpochOf(s.cache.db.epochs, t)
  }

  ghost predicate ReaderOk(scheme: map<Key, set<Tag>>, s: System, reader: Reader) {
    && reader.key in scheme && reader.key in s.source
    && (forall t | t in reader.noted :: reader.noted[t] <= EpochOf(s.cache.db.epochs, t))
    && (reader.loaded.Some? ==>
          Excused(scheme, s, reader.key, reader.loaded.value) || Fenced(scheme, s, reader))
  }

  ghost predicate EntryOk(scheme: map<Key, set<Tag>>, s: System, k: Key)
    requires k in s.cache.db.values && k in scheme && k in s.source
  {
    && k in s.cache.tagsOf && s.cache.tagsOf[k] == scheme[k]
    && (Findable(s.cache, k, scheme[k]) ==> Excused(scheme, s, k, s.cache.db.values[k].payload))
  }

  // Every one of these tags finds the value for as long as it lives.
  ghost predicate Findable(cache: Tracked, k: Key, tags: set<Tag>)
    requires k in cache.db.values
  {
    forall t | t in tags :: Found(cache, k, t)
  }

  // A value that is findable after a step was so before, or has just been set.
  lemma FindableBefore(cache: Tracked, op: Op, k: Key)
    requires Indexed(cache) && k in CacheIndex.Step(cache, op).db.values && k in cache.tagsOf
    requires op.Set? && op.key == k ==> !Takes(cache, op)
    requires Findable(CacheIndex.Step(cache, op), k, cache.tagsOf[k])
    ensures k in cache.db.values && CacheIndex.Step(cache, op).db.values[k] == cache.db.values[k]
    ensures Findable(cache, k, cache.tagsOf[k])
  {
    hide Found;
    forall t | t in cache.tagsOf[k]
      ensures Found(cache, k, t)
    {
      FoundBefore(cache, op, k, t);
    }
  }

  ghost predicate Coherent(scheme: map<Key, set<Tag>>, s: System) {
    && s.source.Keys == scheme.Keys
    && Indexed(s.cache)
    && (forall r | r in s.readers :: ReaderOk(scheme, s, s.readers[r]))
    && (forall k | k in s.cache.db.values && k in scheme :: EntryOk(scheme, s, k))
  }

  // An entry stays in order across a step that does not set it, unless the step
  // settles a tag that excused it.
  lemma EntryStays(scheme: map<Key, set<Tag>>, s: System, after: System, op: Op, k: Key)
    requires Coherent(scheme, s) && after.cache == CacheIndex.Step(s.cache, op) && after.source == s.source
    requires k in scheme && k in after.cache.db.values && (op.Set? && op.key == k ==> !Takes(s.cache, op))
    requires forall t | t in scheme[k] && t in s.pending && t !in after.pending :: op.Invalidate? && t in op.named
    ensures EntryOk(scheme, after, k)
  {
    hide Found, AfterSet, AfterDelete, AfterInvalidate, AfterTick, ReverseExact, ExpiringFound, ReaderOk, Takes;
    StillThere(s.cache, op, k);
    assert EntryOk(scheme, s, k);
    if Findable(after.cache, k, scheme[k]) {
      FindableBefore(s.cache, op, k);
      if op.Invalidate? {
        forall t | t in scheme[k] && t in op.named
          ensures false
        {
          assert Found(s.cache, k, t);
          InvalidationFinds(s.cache, op.named, k, t);
        }
      }
    }
  }

  lemma StillThere(cache: Tracked, op: Op, k: Key)
    requires k in CacheIndex.Step(cache, op).db.values && (op.Set? && op.key == k ==> !Takes(cache, op))
    ensures k in cache.db.values
    ensures k in cache.tagsOf ==>
      k in CacheIndex.Step(cache, op).tagsOf && CacheIndex.Step(cache, op).tagsOf[k] == cache.tagsOf[k]
  {
  }

  lemma StoreKeepsCoherent(scheme: map<Key, set<Tag>>, s: System, a: Action)
    requires Coherent(scheme, s) && a.Store? && Enabled(scheme, s, a)
    ensures Coherent(scheme, Perform(scheme, s, a))
  {
    var reader := s.readers[a.reader];
    var op := Set(reader.key, reader.loaded.value, scheme[reader.key], a.ttl, a.tagTtl, Some(reader.noted));
    StepKeepsIndexed(s.cache, op);
    assert Takes(s.cache, op) ==> !Fenced(scheme, s, reader);
    var after := Perform(scheme, s, a);
    forall k | k in after.cache.db.values && k in scheme
      ensures EntryOk(scheme, after, k)
    {
      if k != reader.key || !Takes(s.cache, op) {
        EntryStays(scheme, s, after, op, k);
      }
    }
    forall r | r in after.readers
      ensures ReaderOk(scheme, after, after.readers[r])
    {
      assert ReaderOk(scheme, s, s.readers[r]);
      assert Fenced(scheme, s, s.readers[r]) ==> Fenced(scheme, after, after.readers[r]);
    }
  }

  lemma MutateKeepsCoherent(scheme: map<Key, set<Tag>>, s: System, a: Action)
    requires Coherent(scheme, s) && a.Mutate? && Enabled(scheme, s, a)
    ensures Coherent(scheme, Perform(scheme, s, a))
  {
  }

  lemma ReaderAfterInvalidate(scheme: map<Key, set<Tag>>, s: System, after: System, tags: seq<Tag>, reader: Reader)
    requires ReaderOk(scheme, s, reader)
    requires after.source == s.source && after.cache.db.epochs == Raised(s.cache.db.epochs, tags)
    requires s.pending - Elems(tags) <= after.pending
    ensures ReaderOk(scheme, after, reader)
  {
  }

  // Invalidation: the entries that lose their excuse are exactly those it drops.
  lemma InvalidateKeepsCoherent(scheme: map<Key, set<Tag>>, s: System, after: System, tags: seq<Tag>)
    requires Coherent(scheme, s)
    requires after.cache == CacheIndex.Step(s.cache, Invalidate(tags))
    requires after.source == s.source && after.readers == s.readers
    requires s.pending - Elems(tags) <= after.pending
    ensures Coherent(scheme, after)
  {
    hide EntryOk, ReaderOk, CacheIndex.Indexed;
    StepKeepsIndexed(s.cache, Invalidate(tags));
    forall r | r in after.readers
      ensures ReaderOk(scheme, after, after.readers[r])
    {
      ReaderAfterInvalidate(scheme, s, after, tags, s.readers[r]);
    }
    forall k | k in after.cache.db.values && k in scheme
      ensures EntryOk(scheme, after, k)
    {
      EntryStays(scheme, s, after, Invalidate(tags), k);
    }
  }

  lemma ForeignKeepsCoherent(scheme: map<Key, set<Tag>>, s: System, op: Op)
    requires Coherent(scheme, s) && !op.Invalidate? && (op.Set? ==> op.key !in scheme)
    ensures Coherent(scheme, s.(cache := CacheIndex.Step(s.cache, op)))
  {
    StepKeepsIndexed(s.cache, op);
    var after := s.(cache := CacheIndex.Step(s.cache, op));
    assert after.cache.db.epochs == s.cache.db.epochs;
    forall k | k in after.cache.db.values && k in scheme
      ensures EntryOk(scheme, after, k)
    {
      EntryStays(scheme, s, after, op, k);
    }
    forall r | r in after.readers
      ensures ReaderOk(scheme, after, after.readers[r])
    {
      assert ReaderOk(scheme, s, s.readers[r]);
      assert Fenced(scheme, s, s.readers[r]) ==> Fenced(scheme, after, after.readers[r]);
    }
  }

  lemma ReadKeepsCoherent(scheme: map<Key, set<Tag>>, s: System, a: Action)
    requires Coherent(scheme, s) && (a.Start? || a.Note? || a.Load?) && Enabled(scheme, s, a)
    ensures Coherent(scheme, Perform(scheme, s, a))
  {
    var after := Perform(scheme, s, a);
    forall k | k in after.cache.db.values && k in scheme
      ensures EntryOk(scheme, after, k)
    {
      assert EntryOk(scheme, s, k);
    }
    forall r | r in after.readers
      ensures ReaderOk(scheme, after, after.readers[r])
    {
      if r in s.readers {
        assert ReaderOk(scheme, s, s.readers[r]);
        assert r != a.reader && Fenced(scheme, s, s.readers[r]) ==> Fenced(scheme, after, after.readers[r]);
      }
    }
  }

  lemma ActionKeepsCoherent(scheme: map<Key, set<Tag>>, s: System, a: Action)
    requires Coherent(scheme, s) && Enabled(scheme, s, a)
    ensures Coherent(scheme, Perform(scheme, s, a))
  {
    match a
    case Store(_, _, _) => StoreKeepsCoherent(scheme, s, a);
    case Mutate(_, _) => MutateKeepsCoherent(scheme, s, a);
    case Announce(tags) => InvalidateKeepsCoherent(scheme, s, Perform(scheme, s, a), tags);
    case Foreign(op) =>
      if op.Invalidate? {
        InvalidateKeepsCoherent(scheme, s, Perform(scheme, s, a), op.named);
      } else {
        ForeignKeepsCoherent(scheme, s, op);
      }
    case _ => ReadKeepsCoherent(scheme, s, a);
  }

  // `trace` is an interleaving that starts with an empty cache and no readers.
  ghost predicate Interleaving(scheme: map<Key, set<Tag>>, trace: seq<System>, actions: seq<Action>) {
    && |trace| == |actions| + 1
    && trace[0].source.Keys == scheme.Keys && trace[0].cache == START
    && trace[0].readers == map[] && trace[0].pending == {}
    && forall i | 0 <= i < |actions| ::
         && trace[i].source.Keys == scheme.Keys
         && (forall r | r in trace[i].readers :: trace[i].readers[r].key in scheme)
         && Enabled(scheme, trace[i], actions[i])
         && trace[i + 1] == Perform(scheme, trace[i], actions[i])
  }

  lemma {:induction false} AlwaysCoherent(scheme: map<Key, set<Tag>>, trace: seq<System>, actions: seq<Action>, i: nat)
    requires Interleaving(scheme, trace, actions) && i < |trace|
    ensures Coherent(scheme, trace[i])
  {
    if i > 0 {
      AlwaysCoherent(scheme, trace, actions, i - 1);
      ActionKeepsCoherent(scheme, trace[i - 1], actions[i - 1]);
    }
  }

  // At every moment of every interleaving, a cached value of a maintained key
  // that expires, or that its tags can find, is the source's current one, unless
  // one of its tags awaits invalidation; so once no tag does, it agrees with the
  // source.
  lemma CacheAgreesWithSource(scheme: map<Key, set<Tag>>, trace: seq<System>, actions: seq<Action>, i: nat, k: Key)
    requires Interleaving(scheme, trace, actions) && i < |trace|
    requires k in scheme && k in trace[i].cache.db.values
    requires trace[i].cache.db.values[k].expiry.At? || Findable(trace[i].cache, k, scheme[k])
    ensures k in trace[i].source
    ensures trace[i].cache.db.values[k].payload == trace[i].source[k] || !(scheme[k] !! trace[i].pending)
    ensures trace[i].pending == {} ==> trace[i].cache.db.values[k].payload == trace[i].source[k]
  {
    AlwaysCoherent(scheme, trace, actions, i);
    assert EntryOk(scheme, trace[i], k);
    assert trace[i].cache.db.values[k].expiry.At? ==> forall t | t in scheme[k] :: Found(trace[i].cache, k, t);
  }

  // The cache operation that an action makes.
  function Operation(scheme: map<Key, set<Tag>>, s: System, a: Action): Option<Op>
    requires (forall r | r in s.readers :: s.readers[r].key in scheme) && Enabled(scheme, s, a)
  {
    match a
    case Store(r, ttl, tagTtl) =>
      Some(Set(s.readers[r].key, s.readers[r].loaded.value, scheme[s.readers[r].key], ttl, tagTtl, Some(s.readers[r].noted)))
    case Announce(tags) => Some(Invalidate(tags))
    case Foreign(op) => Some(op)
    case _ => None
  }

  // Every set passes the check under which persistent values stay findable.
  ghost predicate Careful(scheme: map<Key, set<Tag>>, trace: seq<System>, actions: seq<Action>)
    requires Interleaving(scheme, trace, actions)
  {
    forall i | 0 <= i < |actions| ::
      var op := Operation(scheme, trace[i], actions[i]);
      op.Some? ==> KeepsPersistent(trace[i].cache, op.value)
  }

  lemma {:induction false} AlwaysFindable(scheme: map<Key, set<Tag>>, trace: seq<System>, actions: seq<Action>, i: nat)
    requires Interleaving(scheme, trace, actions) && Careful(scheme, trace, actions) && i < |trace|
    ensures Indexed(trace[i].cache) && PersistentFound(trace[i].cache)
  {
    hide KeepsPersistent, PersistentFound, WellFormed, ExpiringFound;
    if i == 0 {
      NothingToFind();
    } else {
      AlwaysFindable(scheme, trace, actions, i - 1);
      var op := Operation(scheme, trace[i - 1], actions[i - 1]);
      if op.Some? {
        PersistentKeptExactly(trace[i - 1].cache, op.value);
      }
    }
  }

  lemma NothingToFind()
    ensures Indexed(START) && PersistentFound(START)
  {
  }

  // So with careful sets the whole cache agrees, persistent values included.
  lemma CarefulCacheAgrees(scheme: map<Key, set<Tag>>, trace: seq<System>, actions: seq<Action>, i: nat, k: Key)
    requires Interleaving(scheme, trace, actions) && Careful(scheme, trace, actions) && i < |trace|
    requires k in scheme && k in trace[i].cache.db.values
    ensures k in trace[i].source
    ensures trace[i].cache.db.values[k].payload == trace[i].source[k] || !(scheme[k] !! trace[i].pending)
  {
    AlwaysCoherent(scheme, trace, actions, i);
    AlwaysFindable(scheme, trace, actions, i);
    assert EntryOk(scheme, trace[i], k);
    assert forall t | t in scheme[k] :: Found(trace[i].cache, k, t);
    CacheAgreesWithSource(scheme, trace, actions, i, k);
  }
}
