// The Lua scripts of the Redis cache provider, command by command, on a server
// whose fields they update, and the proof that each does the set algebra of
// RedisStore.  SMEMBERS answers in any order, so the loops over a set pick
// their next element freely.
module RedisScripts {
  import opened Prelude
  import opened RedisStore

  // ---- one SREM, SADD or INCR more -------------------------------------

  lemma UnlinkOneMore(tagSets: map<Tag, TagSet>, gone: set<(Tag, Key)>, t: Tag, k: Key)
    ensures SRem(Unlinked(tagSets, gone), t, k) == Unlinked(tagSets, gone + {(t, k)})
  {
    hide Left;
    var before, after := Unlinked(tagSets, gone), Unlinked(tagSets, gone + {(t, k)});
    forall u | u in tagSets
      ensures Left(tagSets, u, gone + {(t, k)})
        == if u == t then Left(tagSets, u, gone) - {k} else Left(tagSets, u, gone)
    {
      LeftOneMore(tagSets, gone, t, k, u);
    }
    assert forall u :: u in SRem(before, t, k) <==> u in after;
  }

  lemma LeftOneMore(tagSets: map<Tag, TagSet>, gone: set<(Tag, Key)>, t: Tag, k: Key, u: Tag)
    requires u in tagSets
    ensures Left(tagSets, u, gone + {(t, k)})
      == if u == t then Left(tagSets, u, gone) - {k} else Left(tagSets, u, gone)
  {
  }

  lemma UnlinkNothing(tagSets: map<Tag, TagSet>)
    requires forall t | t in tagSets :: tagSets[t].members != {}
    ensures Unlinked(tagSets, {}) == tagSets
  {
    assert forall t | t in tagSets :: Left(tagSets, t, {}) == tagSets[t].members;
  }

  lemma LinkNothing(tagSets: map<Tag, TagSet>, k: Key, now: nat, tagTtlMs: nat)
    ensures Linked(tagSets, k, {}, now, tagTtlMs) == tagSets
  {
  }

  lemma LinkOneMore(tagSets: map<Tag, TagSet>, k: Key, done: set<Tag>, t: Tag, now: nat, tagTtlMs: nat)
    ensures var linked := SAdd(Linked(tagSets, k, done, now, tagTtlMs), t, k);
            (if tagTtlMs > 0
             then PExpireGt(PExpireNx(linked, t, now + tagTtlMs), t, now + tagTtlMs)
             else linked) == Linked(tagSets, k, done + {t}, now, tagTtlMs)
  {
    var before := Linked(tagSets, k, done, now, tagTtlMs);
    var linked := SAdd(before, t, k);
    var after := Linked(tagSets, k, done + {t}, now, tagTtlMs);
    assert linked[t].members == after[t].members;
    assert forall u | u in before && u != t :: before[u] == after[u];
    assert linked.Keys == after.Keys;
  }

  lemma RaiseNothing(epochs: map<Tag, nat>)
    ensures Raised(epochs, []) == epochs
  {
  }

  lemma RaiseOneMore(epochs: map<Tag, nat>, tags: seq<Tag>, t: Tag)
    ensures Raised(epochs, tags)[t := EpochOf(Raised(epochs, tags), t) + 1] == Raised(epochs, tags + [t])
  {
    assert multiset(tags + [t]) == multiset(tags) + multiset{t};
    assert Elems(tags + [t]) == Elems(tags) + {t};
  }

  // The memberships of `k` in the sets of `tags`.
  ghost function Pairs(tags: set<Tag>, k: Key): set<(Tag, Key)> {
    set t | t in tags :: (t, k)
  }

  lemma LinksOneMore(reverse: map<Key, ReverseSet>, dead: set<Key>, k: Key)
    ensures Links(reverse, dead) + Pairs(OldTags(reverse - dead, k), k) == Links(reverse, dead + {k})
  {
  }

  lemma NothingGone(db: Db)
    requires WellFormed(db)
    ensures db.values - {} == db.values && db.reverse - {} == db.reverse
    ensures Unlinked(db.tagSets, Links(db.reverse, {})) - {} == db.tagSets
    ensures Covered(db.tagSets, {}) == {}
  {
    UnlinkNothing(db.tagSets);
    assert Links(db.reverse, {}) == {};
  }

  lemma DropNothing(db: Db, dead: set<Key>)
    ensures AfterDelete(db, dead).(tagSets := AfterDelete(db, dead).tagSets - {}, epochs := db.epochs) ==
      AfterDelete(db, dead)
  {
  }

  // What a tag set still lists after some keys were forgotten.
  lemma MembersLeft(db: Db, tag: Tag, dead: set<Key>, dropped: set<Tag>)
    requires dead == Covered(db.tagSets, dropped)
    ensures var members := MembersOf(Unlinked(db.tagSets, Links(db.reverse, dead)) - dropped, tag);
            dead + members == Covered(db.tagSets, dropped + {tag})
  {
  }

  // How many values go when the keys in `dead` go.
  ghost function Count(db: Db, dead: set<Key>): nat {
    |db.values.Keys * dead|
  }

  // The number that an invalidation returns is the number of values that are gone
  // afterwards.
  lemma CountIsLoss(db: Db, tags: seq<Tag>)
    ensures Count(db, Covered(db.tagSets, Elems(tags))) == |db.values| - |AfterInvalidate(db, tags).values|
  {
    hide Covered, Unlinked, Links, Raised;
    Loss(db.values, Covered(db.tagSets, Elems(tags)));
  }

  lemma Loss(values: map<Key, Value>, dead: set<Key>)
    ensures |values.Keys * dead| == |values| - |values - dead|
  {
    assert (values - dead).Keys == values.Keys - dead;
    assert |values| == |values.Keys| && |values - dead| == |(values - dead).Keys|;
  }

  lemma CountOneMore(db: Db, dead: set<Key>, k: Key)
    ensures Count(db, dead + {k}) == Count(db, dead) + (if k in db.values && k !in dead then 1 else 0)
  {
    var keys := db.values.Keys;
    if k in keys && k !in dead {
      assert keys * (dead + {k}) == keys * dead + {k};
    } else {
      assert keys * (dead + {k}) == keys * dead;
    }
  }

  class RedisServer {
    var now: nat
    var values: map<Key, Value>
    var tagSets: map<Tag, TagSet>
    var reverse: map<Key, ReverseSet>
    var epochs: map<Tag, nat>

    ghost function State(): Db
      reads this
    {
      Db(now, values, tagSets, reverse, epochs)
    }

    constructor ()
      ensures State() == EMPTY
    {
      now, values, tagSets, reverse, epochs := 0, map[], map[], map[], map[];
    }

    // SREM `k` from every set in `from`.
    method Unlink(from: set<Tag>, k: Key, ghost base: map<Tag, TagSet>, ghost gone: set<(Tag, Key)>,
                  ghost dropped: set<Tag>)
      requires tagSets == Unlinked(base, gone) - dropped
      modifies this`tagSets
      ensures tagSets == Unlinked(base, gone + Pairs(from, k)) - dropped
    {
      var todo := from;
      ghost var done := gone;
      while todo != {}
        invariant todo <= from
        invariant done == gone + Pairs(from - todo, k)
        invariant tagSets == Unlinked(base, done) - dropped
      {
        var t :| t in todo;
        UnlinkOneMore(base, done, t, k);
        assert SRem(Unlinked(base, done) - dropped, t, k) == SRem(Unlinked(base, done), t, k) - dropped;
        tagSets := SRem(tagSets, t, k);
        todo := todo - {t};
        done := done + {(t, k)};
      }
      assert done == gone + Pairs(from, k);
    }

    // `db` without the keys in `dead` and without the tag sets in `dropped`.
    ghost predicate Forgot(db: Db, dead: set<Key>, dropped: set<Tag>)
      reads this
    {
      && values == db.values - dead && reverse == db.reverse - dead
      && tagSets == Unlinked(db.tagSets, Links(db.reverse, dead)) - dropped
      && now == db.now
    }

    // The three commands both removal scripts spend on one key; DEL answers
    // how many values it removed.
    method ForgetKey(k: Key, ghost db: Db, ghost dead: set<Key>, ghost dropped: set<Tag>)
      returns (deleted: nat)
      requires Forgot(db, dead, dropped)
      modifies this`values, this`tagSets, this`reverse
      ensures Forgot(db, dead + {k}, dropped)
      ensures deleted == if k in db.values && k !in dead then 1 else 0
    {
      hide Unlinked, Links;
      var memberTags := OldTags(reverse, k);
      Unlink(memberTags, k, db.tagSets, Links(db.reverse, dead), dropped);
      LinksOneMore(db.reverse, dead, k);
      deleted := if k in values then 1 else 0;
      values := values - {k};
      reverse := reverse - {k};
    }

    method EpochsMatchLoop(tags: seq<Tag>, expected: map<Tag, nat>) returns (ok: bool)
      ensures ok == EpochsMatch(epochs, Elems(tags), expected)
    {
      for i := 0 to |tags|
        invariant forall j | 0 <= j < i :: EpochOf(epochs, tags[j]) == EpochOf(expected, tags[j])
      {
        if EpochOf(epochs, tags[i]) != EpochOf(expected, tags[i]) {
          return false;
        }
      }
      return true;
    }

    // The SADD and PEXPIRE loop of SET_WITH_TAGS_SCRIPT.
    method Register(k: Key, tags: seq<Tag>, tagTtlMs: nat)
      requires k !in reverse
      modifies this`tagSets, this`reverse
      ensures tagSets == Linked(old(tagSets), k, Elems(tags), now, tagTtlMs)
      ensures reverse == if |tags| == 0 then old(reverse) else old(reverse)[k := ReverseSet(Elems(tags), Never)]
    {
      hide Linked;
      ghost var base := tagSets;
      LinkNothing(base, k, now, tagTtlMs);
      assert Elems(tags[..0]) == {};
      for i := 0 to |tags|
        invariant tagSets == Linked(base, k, Elems(tags[..i]), now, tagTtlMs)
        invariant reverse == if i == 0 then old(reverse) else old(reverse)[k := ReverseSet(Elems(tags[..i]), Never)]
      {
        LinkOneMore(base, k, Elems(tags[..i]), tags[i], now, tagTtlMs);
        ElemsSnoc(tags, i);
        assert i == 0 ==> Elems(tags[..i + 1]) == {tags[i]};
        assert i > 0 ==> reverse == old(reverse)[k := ReverseSet(Elems(tags[..i]), Never)];
        tagSets := SAdd(tagSets, tags[i], k);
        reverse := reverse[k := if k in reverse then reverse[k].(tags := reverse[k].tags + {tags[i]}) else ReverseSet({tags[i]}, Never)];
        assert reverse == old(reverse)[k := ReverseSet(Elems(tags[..i + 1]), Never)];
        if tagTtlMs > 0 {
          tagSets := PExpireNx(tagSets, tags[i], now + tagTtlMs);
          tagSets := PExpireGt(tagSets, tags[i], now + tagTtlMs);
        }
      }
      assert tags[..|tags|] == tags;
    }

    // SET_WITH_TAGS_SCRIPT
    method SetWithTags(k: Key, payload: string, tags: seq<Tag>, ttlMs: nat, tagTtlMs: nat,
                       expected: Option<map<Tag, nat>>)
      returns (stored: bool)
      requires WellFormed(State())
      modifies this
      ensures (State(), stored) == AfterSet(old(State()), k, payload, Elems(tags), ttlMs, tagTtlMs, expected)
    {
      hide Linked, Unlinked, Links, EpochsMatch;
      if expected.Some? {
        var ok := EpochsMatchLoop(tags, expected.value);
        if !ok {
          return false;
        }
      }
      ghost var db := State();
      NothingGone(db);
      Unlink(OldTags(reverse, k), k, db.tagSets, Links(db.reverse, {}), {});
      LinksOneMore(db.reverse, {}, k);
      reverse := reverse - {k};
      assert {} + {k} == {k};
      assert tagSets - {} == tagSets;
      assert tagSets == Unlinked(db.tagSets, Links(db.reverse, {k}));
      values := values[k := Value(payload, ExpiryIn(now, ttlMs))];
      Register(k, tags, tagTtlMs);
      if |tags| > 0 && ttlMs > 0 {
        reverse := reverse[k := reverse[k].(expiry := At(now + ttlMs))];
      }
      if |tags| > 0 {
        assert tags[0] in Elems(tags);
        assert reverse == db.reverse[k := ReverseSet(Elems(tags), ExpiryIn(now, ttlMs))];
      }
      assert State() == Stored(db, k, payload, Elems(tags), ttlMs, tagTtlMs);
      return true;
    }

    lemma ForgotNothing(db: Db)
      requires State() == db.(epochs := epochs) && WellFormed(db)
      ensures Forgot(db, {}, {}) && Covered(db.tagSets, {}) == {}
    {
      NothingGone(db);
    }

    lemma ForgotMeans(db: Db, dead: set<Key>, dropped: set<Tag>)
      requires Forgot(db, dead, dropped)
      ensures State() == AfterDelete(db, dead).(tagSets := AfterDelete(db, dead).tagSets - dropped, epochs := epochs)
    {
    }

    // DELETE_WITH_TAGS_SCRIPT
    method DeleteWithTags(keys: seq<Key>)
      requires WellFormed(State())
      modifies this
      ensures State() == AfterDelete(old(State()), Elems(keys))
    {
      hide Forgot, AfterDelete;
      ghost var db := State();
      ForgotNothing(db);
      assert Elems(keys[..0]) == {};
      for i := 0 to |keys|
        invariant Forgot(db, Elems(keys[..i]), {})
        invariant epochs == db.epochs
      {
        ElemsSnoc(keys, i);
        var _ := ForgetKey(keys[i], db, Elems(keys[..i]), {});
      }
      assert keys[..|keys|] == keys;
      ForgotMeans(db, Elems(keys), {});
      DropNothing(db, Elems(keys));
    }

    // The first loop of INVALIDATE_TAG_SCRIPT.
    method RaiseEpochs(tags: seq<Tag>)
      modifies this`epochs
      ensures epochs == Raised(old(epochs), tags)
    {
      hide Raised, EpochOf;
      RaiseNothing(epochs);
      for i := 0 to |tags|
        invariant epochs == Raised(old(epochs), tags[..i])
      {
        RaiseOneMore(old(epochs), tags[..i], tags[i]);
        assert tags[..i + 1] == tags[..i] + [tags[i]];
        epochs := epochs[tags[i] := EpochOf(epochs, tags[i]) + 1];
      }
      assert tags[..|tags|] == tags;
    }

    // The inner loop of its second loop: forget every key in `members`.
    method ForgetMembers(members: set<Key>, ghost db: Db, ghost dead: set<Key>, ghost dropped: set<Tag>)
      returns (removed: nat)
      requires Forgot(db, dead, dropped)
      modifies this`values, this`tagSets, this`reverse
      ensures Forgot(db, dead + members, dropped)
      ensures Count(db, dead) + removed == Count(db, dead + members)
    {
      hide Forgot, Count;
      removed := 0;
      var todo := members;
      ghost var gone := dead;
      while todo != {}
        invariant gone == dead + (members - todo) && todo <= members
        invariant Forgot(db, gone, dropped)
        invariant Count(db, dead) + removed == Count(db, gone)
      {
        var m :| m in todo;
        CountOneMore(db, gone, m);
        var deleted := ForgetKey(m, db, gone, dropped);
        removed := removed + deleted;
        gone := gone + {m};
        todo := todo - {m};
      }
      assert gone == dead + members;
    }

    // The body of its second loop: forget the members of one tag, then the tag.
    method InvalidateOne(tag: Tag, ghost db: Db, ghost dropped: set<Tag>)
      returns (removed: nat)
      requires Forgot(db, Covered(db.tagSets, dropped), dropped)
      modifies this`values, this`tagSets, this`reverse
      ensures Forgot(db, Covered(db.tagSets, dropped + {tag}), dropped + {tag})
      ensures Count(db, Covered(db.tagSets, dropped)) + removed == Count(db, Covered(db.tagSets, dropped + {tag}))
    {
      hide Unlinked, Links, Covered, Count;
      var members := MembersOf(tagSets, tag);
      MembersLeft(db, tag, Covered(db.tagSets, dropped), dropped);
      removed := ForgetMembers(members, db, Covered(db.tagSets, dropped), dropped);
      tagSets := tagSets - {tag};
    }

    // INVALIDATE_TAG_SCRIPT
    method InvalidateTags(tags: seq<Tag>) returns (removed: nat)
      requires WellFormed(State())
      modifies this
      ensures State() == AfterInvalidate(old(State()), tags)
      ensures removed == Count(old(State()), Covered(old(tagSets), Elems(tags)))
    {
      hide Forgot, Covered, Raised, AfterDelete, WellFormed;
      ghost var db := State();
      RaiseEpochs(tags);
      removed := 0;
      ForgotNothing(db);
      assert Elems(tags[..0]) == {};
      assert db.values.Keys * {} == {};
      for i := 0 to |tags|
        invariant Forgot(db, Covered(db.tagSets, Elems(tags[..i])), Elems(tags[..i]))
        invariant epochs == Raised(db.epochs, tags)
        invariant removed == Count(db, Covered(db.tagSets, Elems(tags[..i])))
      {
        var n := InvalidateOne(tags[i], db, Elems(tags[..i]));
        removed := removed + n;
        ElemsSnoc(tags, i);
      }
      assert tags[..|tags|] == tags;
      ForgotMeans(db, Covered(db.tagSets, Elems(tags)), Elems(tags));
    }

    // Time passes.
    method Tick(ms: nat)
      modifies this
      ensures State() == AfterTick(old(State()), ms)
    {
      hide LiveValues, LiveTagSets, LiveReverse;
      now := now + ms;
      values := LiveValues(values, now);
      tagSets := LiveTagSets(tagSets, now);
      reverse := LiveReverse(reverse, now);
    }
  }
}
