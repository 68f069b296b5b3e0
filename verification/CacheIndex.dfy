// The tag index over whole runs of the cache provider: what every script keeps,
// and exactly when a value can outlive the tag sets that should find it.
module CacheIndex {
  import opened Prelude
  import opened RedisStore

  lemma UnlinkedMembers(tagSets: map<Tag, TagSet>, gone: set<(Tag, Key)>, t: Tag, k: Key)
    ensures k in MembersOf(Unlinked(tagSets, gone), t) <==> k in MembersOf(tagSets, t) && (t, k) !in gone
    ensures t in Unlinked(tagSets, gone) ==> t in tagSets && Unlinked(tagSets, gone)[t].expiry == tagSets[t].expiry
  {
  }

  lemma DeleteMembers(db: Db, dead: set<Key>, t: Tag, k: Key)
    ensures k in MembersOf(AfterDelete(db, dead).tagSets, t) <==>
              k in MembersOf(db.tagSets, t) && !(k in dead && t in OldTags(db.reverse, k))
    ensures t in AfterDelete(db, dead).tagSets ==>
              t in db.tagSets && AfterDelete(db, dead).tagSets[t].expiry == db.tagSets[t].expiry
  {
  }

  lemma InvalidateMembers(db: Db, tags: seq<Tag>, t: Tag, k: Key)
    ensures var dead := Covered(db.tagSets, Elems(tags));
            k in MembersOf(AfterInvalidate(db, tags).tagSets, t) <==>
              t !in tags && k in MembersOf(db.tagSets, t) && !(k in dead && t in OldTags(db.reverse, k))
    ensures t in AfterInvalidate(db, tags).tagSets ==>
              t in db.tagSets && AfterInvalidate(db, tags).tagSets[t].expiry == db.tagSets[t].expiry
  {
  }

  lemma StoredMembers(db: Db, k: Key, payload: string, tags: set<Tag>, ttlMs: nat, tagTtlMs: nat, t: Tag, m: Key)
    ensures m in MembersOf(Stored(db, k, payload, tags, ttlMs, tagTtlMs).tagSets, t) <==>
              (m == k && t in tags) || (m in MembersOf(db.tagSets, t) && !(m == k && t in OldTags(db.reverse, k)))
  {
  }

  // ---- without the clock: the two indexes mirror each other -------------

  ghost predicate Mirrored(db: Db) {
    forall t, k :: k in MembersOf(db.tagSets, t) <==> t in OldTags(db.reverse, k)
  }

  lemma SetKeepsMirror(db: Db, k: Key, payload: string, tags: set<Tag>, ttlMs: nat, tagTtlMs: nat,
                       expected: Option<map<Tag, nat>>)
    requires Mirrored(db)
    ensures Mirrored(AfterSet(db, k, payload, tags, ttlMs, tagTtlMs, expected).0)
  {
    var after := Stored(db, k, payload, tags, ttlMs, tagTtlMs);
    forall t, m
      ensures m in MembersOf(after.tagSets, t) <==> t in OldTags(after.reverse, m)
    {
      StoredMembers(db, k, payload, tags, ttlMs, tagTtlMs, t, m);
      assert m in MembersOf(db.tagSets, t) <==> t in OldTags(db.reverse, m);
    }
  }

  lemma DeleteKeepsMirror(db: Db, dead: set<Key>)
    requires Mirrored(db)
    ensures Mirrored(AfterDelete(db, dead))
  {
    var after := AfterDelete(db, dead);
    forall t, m
      ensures m in MembersOf(after.tagSets, t) <==> t in OldTags(after.reverse, m)
    {
      DeleteMembers(db, dead, t, m);
      assert m in MembersOf(db.tagSets, t) <==> t in OldTags(db.reverse, m);
    }
  }

  lemma InCovered(db: Db, tags: seq<Tag>, k: Key)
    requires Mirrored(db)
    ensures k in Covered(db.tagSets, Elems(tags)) <==> !(OldTags(db.reverse, k) !! Elems(tags))
  {
    assert forall t | t in tags :: k in MembersOf(db.tagSets, t) <==> t in OldTags(db.reverse, k);
  }

  lemma InvalidatedParts(db: Db, tags: seq<Tag>)
    ensures var after, dead := AfterInvalidate(db, tags), Covered(db.tagSets, Elems(tags));
            && after.values == db.values - dead
            && forall k :: OldTags(after.reverse, k) == if k in dead then {} else OldTags(db.reverse, k)
  {
    hide Unlinked, Links, Raised, Covered;
  }

  // Invalidation keeps the mirror; it removes exactly the values that carry
  // one of the tags, and every other key keeps its value and memberships.
  lemma InvalidateIsExact(db: Db, tags: seq<Tag>)
    requires Mirrored(db)
    ensures Mirrored(AfterInvalidate(db, tags))
    ensures var after := AfterInvalidate(db, tags);
            forall k :: if OldTags(db.reverse, k) !! Elems(tags)
              then (k in after.values <==> k in db.values)
                && (k in db.values ==> after.values[k] == db.values[k])
                && OldTags(after.reverse, k) == OldTags(db.reverse, k)
                && (forall t :: k in MembersOf(after.tagSets, t) <==> k in MembersOf(db.tagSets, t))
              else k !in after.values && (forall t :: k !in MembersOf(after.tagSets, t))
  {
    hide AfterInvalidate, Covered, OldTags, MembersOf;
    var after := AfterInvalidate(db, tags);
    var dead := Covered(db.tagSets, Elems(tags));
    InvalidatedParts(db, tags);
    forall k
      ensures k in dead <==> !(OldTags(db.reverse, k) !! Elems(tags))
    {
      InCovered(db, tags, k);
    }
    forall t, m
      ensures m in MembersOf(after.tagSets, t) <==> m !in dead && m in MembersOf(db.tagSets, t)
      ensures m in MembersOf(after.tagSets, t) <==> t in OldTags(after.reverse, m)
    {
      InvalidateMembers(db, tags, t, m);
      assert m in MembersOf(db.tagSets, t) <==> t in OldTags(db.reverse, m);
    }
  }

  // ---- with the clock: runs of the provider's operations ----------------

  // Times are in seconds, as the provider's callers give them; a time to live
  // that is absent or not positive asks for a persistent value.
  datatype Op =
    | Set(key: Key, payload: string, tags: set<Tag>, ttl: int, tagTtl: int, expected: Option<map<Tag, nat>>)
    | Delete(keys: set<Key>)
    | Invalidate(named: seq<Tag>)
    | Tick(ms: nat)

  function ValueTtlMs(ttl: int): nat {
    if ttl > 0 then ttl * 1000 else 0
  }

  function TagTtlMs(ttl: int, tagTtl: int): nat {
    if ttl > 0 then (if tagTtl > ttl then tagTtl else ttl) * 1000 else 0
  }

  // The database, and for every key the tags its value was last stored with.
  datatype Tracked = Tracked(db: Db, tagsOf: map<Key, set<Tag>>)

  function Step(s: Tracked, op: Op): Tracked {
    match op
    case Set(k, payload, tags, ttl, tagTtl, expected) =>
      var (db', stored) := AfterSet(s.db, k, payload, tags, ValueTtlMs(ttl), TagTtlMs(ttl, tagTtl), expected);
      Tracked(db', if stored then s.tagsOf[k := tags] else s.tagsOf)
    case Delete(keys) => s.(db := AfterDelete(s.db, keys))
    case Invalidate(tags) => s.(db := AfterInvalidate(s.db, tags))
    case Tick(ms) => s.(db := AfterTick(s.db, ms))
  }

  function Run(s: Tracked, ops: seq<Op>): Tracked
    decreases |ops|
  {
    if ops == [] then s else Run(Step(s, ops[0]), ops[1..])
  }

  // Value `k` was stored with tag `t`, and the tag's set will find it for as
  // long as it lives.
  ghost predicate Found(s: Tracked, k: Key, t: Tag)
    requires k in s.db.values
  {
    k in MembersOf(s.db.tagSets, t) && NoLaterThan(s.db.values[k].expiry, s.db.tagSets[t].expiry)
  }

  ghost predicate ReverseExact(s: Tracked) {
    && (forall k | k in s.db.reverse :: k in s.db.values)
    && (forall k | k in s.db.values :: k in s.tagsOf && OldTags(s.db.reverse, k) == s.tagsOf[k])
    && (forall k | k in s.db.reverse :: s.db.reverse[k].expiry == s.db.values[k].expiry)
  }

  // Every expiring value is found under each of its tags, whose sets expire too.
  ghost predicate ExpiringFound(s: Tracked)
    requires ReverseExact(s)
  {
    forall k, t | k in s.db.values && t in s.tagsOf[k] && s.db.values[k].expiry.At? ::
      Found(s, k, t) && s.db.tagSets[t].expiry.At?
  }

  ghost predicate PersistentFound(s: Tracked)
    requires ReverseExact(s)
  {
    forall k, t | k in s.db.values && t in s.tagsOf[k] && s.db.values[k].expiry.Never? :: Found(s, k, t)
  }

  ghost predicate Indexed(s: Tracked) {
    WellFormed(s.db) && ReverseExact(s) && ExpiringFound(s)
  }

  lemma SetWellFormed(db: Db, k: Key, payload: string, tags: set<Tag>, ttlMs: nat, tagTtlMs: nat)
    requires WellFormed(db)
    ensures WellFormed(Stored(db, k, payload, tags, ttlMs, tagTtlMs))
  {
    var after := Stored(db, k, payload, tags, ttlMs, tagTtlMs);
    forall t | t in after.tagSets
      ensures after.tagSets[t].members != {} && Live(after.tagSets[t].expiry, after.now)
    {
      UnlinkedMembers(db.tagSets, Links(db.reverse, {k}), t, k);
      if t in tags {
        assert k in after.tagSets[t].members;
      }
    }
  }

  lemma SetKeepsFound(s: Tracked, op: Op, m: Key, t: Tag)
    requires Indexed(s) && op.Set?
      && AfterSet(s.db, op.key, op.payload, op.tags, ValueTtlMs(op.ttl), TagTtlMs(op.ttl, op.tagTtl), op.expected).1
    requires m in Step(s, op).db.values && t in Step(s, op).tagsOf[m]
    requires m != op.key ==> Found(s, m, t)
    requires Step(s, op).db.values[m].expiry.At?
    requires m != op.key ==> s.db.tagSets[t].expiry.At?
    ensures Found(Step(s, op), m, t) && Step(s, op).db.tagSets[t].expiry.At?
  {
    StoredMembers(s.db, op.key, op.payload, op.tags, ValueTtlMs(op.ttl), TagTtlMs(op.ttl, op.tagTtl), t, m);
    UnlinkedMembers(s.db.tagSets, Links(s.db.reverse, {op.key}), t, m);
    assert (t, m) in Links(s.db.reverse, {op.key}) ==> m == op.key;
  }

  lemma SetKeepsExpiring(s: Tracked, op: Op, m: Key, t: Tag)
    requires Indexed(s) && op.Set?
      && AfterSet(s.db, op.key, op.payload, op.tags, ValueTtlMs(op.ttl), TagTtlMs(op.ttl, op.tagTtl), op.expected).1
    requires m in Step(s, op).db.values && m in Step(s, op).tagsOf && t in Step(s, op).tagsOf[m]
    requires Step(s, op).db.values[m].expiry.At?
    ensures Found(Step(s, op), m, t) && Step(s, op).db.tagSets[t].expiry.At?
  {
    assert m != op.key ==> m in s.db.values && t in s.tagsOf[m] && s.db.values[m].expiry.At? && Found(s, m, t);
    SetKeepsFound(s, op, m, t);
  }

  lemma SetKeepsIndexed(s: Tracked, op: Op)
    requires Indexed(s) && op.Set?
    ensures Indexed(Step(s, op))
  {
    if AfterSet(s.db, op.key, op.payload, op.tags, ValueTtlMs(op.ttl), TagTtlMs(op.ttl, op.tagTtl), op.expected).1 {
      SetWellFormed(s.db, op.key, op.payload, op.tags, ValueTtlMs(op.ttl), TagTtlMs(op.ttl, op.tagTtl));
      assert ReverseExact(Step(s, op));
      hide Found;
      forall m, t | m in Step(s, op).db.values && t in Step(s, op).tagsOf[m] && Step(s, op).db.values[m].expiry.At?
        ensures Found(Step(s, op), m, t) && t in Step(s, op).db.tagSets && Step(s, op).db.tagSets[t].expiry.At?
      {
        SetKeepsExpiring(s, op, m, t);
      }
    }
  }

  lemma DeleteKeepsIndexed(s: Tracked, dead: set<Key>)
    requires Indexed(s)
    ensures Indexed(s.(db := AfterDelete(s.db, dead)))
  {
    var after := s.(db := AfterDelete(s.db, dead));
    forall k, t | k in after.db.values && t in after.tagsOf[k] && after.db.values[k].expiry.At?
      ensures Found(after, k, t) && after.db.tagSets[t].expiry.At?
    {
      DeleteMembers(s.db, dead, t, k);
    }
  }

  // A key that invalidation spares carries none of the named tags, as far as
  // its tag sets know.
  lemma InvalidateKeepsIndexed(s: Tracked, tags: seq<Tag>)
    requires Indexed(s)
    ensures Indexed(s.(db := AfterInvalidate(s.db, tags)))
  {
    var dead := Covered(s.db.tagSets, Elems(tags));
    DeleteKeepsIndexed(s, dead);
    var after := s.(db := AfterInvalidate(s.db, tags));
    assert ReverseExact(after);
    forall k, t | k in after.db.values && t in after.tagsOf[k] && after.db.values[k].expiry.At?
      ensures Found(after, k, t) && after.db.tagSets[t].expiry.At?
    {
      assert k in s.db.values && Found(s, k, t);
      assert t in tags ==> k in dead;
      InvalidateMembers(s.db, tags, t, k);
    }
  }

  lemma TickKeepsIndexed(s: Tracked, ms: nat)
    requires Indexed(s)
    ensures Indexed(s.(db := AfterTick(s.db, ms)))
  {
    var after := s.(db := AfterTick(s.db, ms));
    assert ReverseExact(after);
    forall k, t | k in after.db.values && t in after.tagsOf[k] && after.db.values[k].expiry.At?
      ensures Found(after, k, t) && after.db.tagSets[t].expiry.At?
    {
      assert Found(s, k, t);
    }
  }

  lemma StepKeepsIndexed(s: Tracked, op: Op)
    requires Indexed(s)
    ensures Indexed(Step(s, op))
  {
    match op
    case Set(_, _, _, _, _, _) => SetKeepsIndexed(s, op);
    case Delete(keys) => DeleteKeepsIndexed(s, keys);
    case Invalidate(tags) => InvalidateKeepsIndexed(s, tags);
    case Tick(ms) => TickKeepsIndexed(s, ms);
  }

  // Over any run of sets, deletes, invalidations and ticks the index outlives
  // every expiring value.
  lemma {:induction false} IndexOutlivesMembers(s: Tracked, ops: seq<Op>)
    requires Indexed(s)
    ensures Indexed(Run(s, ops))
    decreases |ops|
  {
    if ops != [] {
      StepKeepsIndexed(s, ops[0]);
      IndexOutlivesMembers(Step(s, ops[0]), ops[1..]);
    }
  }

  // ---- persistent values -------------------------------------------------

  // The set is unconditional, or its condition holds.
  ghost predicate Takes(s: Tracked, op: Op) {
    op.Set? && (op.expected.Some? ==> EpochsMatch(s.db.epochs, op.tags, op.expected.value))
  }

  // Tag set `t` still has a member once `k` has left its old tags.
  ghost predicate Survives(db: Db, k: Key, t: Tag) {
    t in db.tagSets && !(db.tagSets[t].members == {k} && t in OldTags(db.reverse, k))
  }

  // What a caller must check before a set to leave every persistent value
  // findable: an expiring value may not join a tag of another persistent
  // value, and a persistent value may not join a tag set that already expires
  // and has other members.
  ghost predicate KeepsPersistent(s: Tracked, op: Op) {
    Takes(s, op) ==>
      forall t | t in op.tags ::
        if op.ttl > 0
        then forall m | m in s.db.values && m != op.key && s.db.values[m].expiry.Never? ::
          t !in OldTags(s.db.reverse, m)
        else Survives(s.db, op.key, t) ==> s.db.tagSets[t].expiry.Never?
  }

  lemma ExpiryAfterSet(s: Tracked, op: Op, t: Tag)
    requires WellFormed(s.db) && Takes(s, op) && t in Step(s, op).db.tagSets
    ensures t in op.tags && op.ttl > 0 ==> Step(s, op).db.tagSets[t].expiry.At?
    ensures t in op.tags && op.ttl <= 0 ==>
      Step(s, op).db.tagSets[t].expiry == if Survives(s.db, op.key, t) then s.db.tagSets[t].expiry else Never
    ensures t !in op.tags ==> t in s.db.tagSets && Step(s, op).db.tagSets[t].expiry == s.db.tagSets[t].expiry
  {
  }

  // `tagTtl: 0` is documented to keep tag sets persistent. A tag set ends
  // persistent exactly when the value is persistent too and the set was new, or
  // persistent already.
  lemma ZeroTagTtlExactly(s: Tracked, op: Op, t: Tag)
    requires WellFormed(s.db) && Takes(s, op) && op.tagTtl == 0 && t in op.tags
    ensures t in Step(s, op).db.tagSets
    ensures Step(s, op).db.tagSets[t].expiry.Never? <==>
      op.ttl <= 0 && (Survives(s.db, op.key, t) ==> s.db.tagSets[t].expiry.Never?)
  {
    StoredMembers(s.db, op.key, op.payload, op.tags, ValueTtlMs(op.ttl), TagTtlMs(op.ttl, op.tagTtl), t, op.key);
    ExpiryAfterSet(s, op, t);
  }

  lemma SetKeepsPersistent(s: Tracked, op: Op, m: Key, t: Tag)
    requires Indexed(s) && PersistentFound(s) && Takes(s, op) && KeepsPersistent(s, op)
    requires m in Step(s, op).db.values && t in Step(s, op).tagsOf[m] && Step(s, op).db.values[m].expiry.Never?
    ensures Found(Step(s, op), m, t)
  {
  }

  lemma SetLosesPersistent(s: Tracked, op: Op)
    requires Indexed(s) && PersistentFound(s) && Takes(s, op) && !KeepsPersistent(s, op)
    requires ReverseExact(Step(s, op))
    ensures !PersistentFound(Step(s, op))
  {
    var after := Step(s, op);
    if op.ttl > 0 {
      var t, m :| t in op.tags && m in s.db.values && m != op.key && s.db.values[m].expiry.Never?
        && t in OldTags(s.db.reverse, m);
      assert t in after.tagsOf[m] && after.db.values[m].expiry.Never?;
      ExpiryAfterSet(s, op, t);
      assert !Found(after, m, t);
    } else {
      var t :| t in op.tags && Survives(s.db, op.key, t) && s.db.tagSets[t].expiry.At?;
      assert t in after.tagsOf[op.key] && after.db.values[op.key].expiry.Never?;
      ExpiryAfterSet(s, op, t);
      assert !Found(after, op.key, t);
    }
  }

  lemma RemovalKeepsPersistent(s: Tracked, op: Op)
    requires Indexed(s) && PersistentFound(s) && (op.Delete? || op.Invalidate? || op.Tick?)
    requires ReverseExact(Step(s, op))
    ensures PersistentFound(Step(s, op))
  {
    var after := Step(s, op);
    forall k, t | k in after.db.values && t in after.tagsOf[k] && after.db.values[k].expiry.Never?
      ensures Found(after, k, t)
    {
      assert k in s.db.values && Found(s, k, t);
      match op
      case Delete(keys) => DeleteMembers(s.db, keys, t, k);
      case Invalidate(tags) =>
        assert t in tags ==> k in Covered(s.db.tagSets, Elems(tags));
        InvalidateMembers(s.db, tags, t, k);
      case Tick(_) =>
      case _ =>
    }
  }

  // The provider's comment promises that persistent values stay findable; they
  // do across a step exactly when the step passes the check above.
  lemma PersistentKeptExactly(s: Tracked, op: Op)
    requires Indexed(s) && PersistentFound(s)
    ensures Indexed(Step(s, op))
    ensures PersistentFound(Step(s, op)) <==> KeepsPersistent(s, op)
  {
    StepKeepsIndexed(s, op);
    if op.Set? {
      if Takes(s, op) {
        if KeepsPersistent(s, op) {
          var after := Step(s, op);
          forall m, t | m in after.db.values && t in after.tagsOf[m] && after.db.values[m].expiry.Never?
            ensures Found(after, m, t)
          {
            SetKeepsPersistent(s, op, m, t);
          }
        } else {
          SetLosesPersistent(s, op);
        }
      }
    } else {
      RemovalKeepsPersistent(s, op);
    }
  }

  // A value is found after a step only if it was before, or has just been set.
  lemma FoundBefore(s: Tracked, op: Op, k: Key, t: Tag)
    requires Indexed(s) && k in Step(s, op).db.values && k in s.tagsOf && t in s.tagsOf[k]
    requires op.Set? && op.key == k ==> !Takes(s, op)
    requires Found(Step(s, op), k, t)
    ensures k in s.db.values && Step(s, op).db.values[k] == s.db.values[k] && Found(s, k, t)
  {
    match op
    case Set(_, _, _, _, _, _) =>
      if Takes(s, op) {
        StoredMembers(s.db, op.key, op.payload, op.tags, ValueTtlMs(op.ttl), TagTtlMs(op.ttl, op.tagTtl), t, k);
        ExpiryAfterSet(s, op, t);
      }
    case Delete(keys) => DeleteMembers(s.db, keys, t, k);
    case Invalidate(tags) => InvalidateMembers(s.db, tags, t, k);
    case Tick(_) =>
  }

  // Naming a tag removes every value that was stored with it and is found there.
  lemma InvalidationFinds(s: Tracked, tags: seq<Tag>, k: Key, t: Tag)
    requires Indexed(s) && k in s.db.values && t in s.tagsOf[k] && t in tags
    requires s.db.values[k].expiry.At? || PersistentFound(s) || Found(s, k, t)
    ensures k !in AfterInvalidate(s.db, tags).values
  {
    assert Found(s, k, t);
    assert k in Covered(s.db.tagSets, Elems(tags));
  }

  lemma RunOfThree(s: Tracked, a: Op, b: Op, c: Op)
    ensures Run(s, [a, b, c]) == Step(Step(Step(s, a), b), c)
  {
    assert [a, b, c][1..] == [b, c] && [b, c][1..] == [c];
    assert Run(Step(Step(s, a), b), [c]) == Run(Step(Step(Step(s, a), b), c), []);
  }

  // Whenever an expiring value joins a tag of a persistent one, the tag set
  // expires; from then on invalidating the tag leaves the persistent value.
  lemma PersistentValueStranded(s: Tracked, m: Key, t: Tag, op: Op, ms: nat)
    requires Indexed(s) && m in s.db.values && s.db.values[m].expiry.Never? && t in s.tagsOf[m]
    requires Takes(s, op) && op.key != m && op.ttl > 0 && t in op.tags
    requires t in Step(s, op).db.tagSets ==> !Live(Step(s, op).db.tagSets[t].expiry, s.db.now + ms)
    ensures var after := Run(s, [op, Tick(ms), Invalidate([t])]);
            m in after.db.values && after.db.values[m] == s.db.values[m]
  {
    RunOfThree(s, op, Tick(ms), Invalidate([t]));
    var s1 := Step(s, op);
    var s2 := Step(s1, Tick(ms));
    assert s1.db.values[m] == s.db.values[m] && t !in s2.db.tagSets;
    assert Covered(s2.db.tagSets, Elems([t])) == {};
  }

  const START: Tracked := Tracked(EMPTY, map[])

  // One expiring set into the empty database makes its tag set expire.
  lemma ZeroTagTtlExample(k: Key, payload: string, t: Tag, ttl: int)
    requires ttl > 0
    ensures var s := Step(START, Set(k, payload, {t}, ttl, 0, None));
            t in s.db.tagSets && s.db.tagSets[t].expiry == At(ttl * 1000)
  {
    StoredMembers(START.db, k, payload, {t}, ValueTtlMs(ttl), TagTtlMs(ttl, 0), t, k);
  }

  // Such a state is one set away from the empty database.
  lemma PersistentValueExample()
    ensures Indexed(START)
    ensures var m, t := Key("m"), Tag("t");
            var s := Step(START, Set(m, "old", {t}, 0, 60, None));
            && Indexed(s) && m in s.db.values && s.db.values[m].expiry.Never? && t in s.tagsOf[m]
            && !KeepsPersistent(s, Set(Key("b"), "new", {t}, 1, 60, None))
  {
    var m, t := Key("m"), Tag("t");
    var s := Step(START, Set(m, "old", {t}, 0, 60, None));
    SetKeepsIndexed(START, Set(m, "old", {t}, 0, 60, None));
    assert "m"[0] != "b"[0];
    assert m in s.db.values && m != Key("b") && t in OldTags(s.db.reverse, m);
  }
}
