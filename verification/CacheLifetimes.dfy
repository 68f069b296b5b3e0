// How long what one set stores lives, in the seconds that its caller gave.
module CacheLifetimes {
  import opened Prelude
  import opened RedisStore
  import opened CacheIndex

  // After `ms` milliseconds the value is there exactly while its time to live is
  // not over, with the payload that was given, and for ever without one.
  lemma ValueLives(s: Tracked, op: Op, ms: nat)
    requires Takes(s, op)
    ensures var values := Step(Step(s, op), Tick(ms)).db.values;
            && (op.key in values <==> op.ttl <= 0 || ms < op.ttl * 1000)
            && (op.key in values ==> values[op.key].payload == op.payload)
  {
  }

  // Other keys live as if there had been no set, and no epoch moves; a set that
  // does not take changes nothing.
  lemma OthersLive(s: Tracked, op: Op, ms: nat)
    requires op.Set?
    ensures Step(Step(s, op), Tick(ms)).db.values - {op.key} == Step(s, Tick(ms)).db.values - {op.key}
    ensures Step(s, op).db.epochs == s.db.epochs && Step(s, op).db.now == s.db.now
    ensures !Takes(s, op) ==> Step(s, op) == s
  {
  }

  // Deleting removes exactly the values of the keys, and moves no epoch.
  lemma DeletedGo(s: Tracked, keys: set<Key>, k: Key)
    ensures var after := Step(s, Delete(keys)).db;
            && (k in after.values <==> k in s.db.values && k !in keys)
            && (k in after.values ==> after.values[k] == s.db.values[k]) && after.epochs == s.db.epochs
  {
  }

  // Naming tags raises their epochs, once for each time that a tag is named.
  lemma NamedEpochsRise(s: Tracked, tags: seq<Tag>, t: Tag)
    ensures EpochOf(Step(s, Invalidate(tags)).db.epochs, t) == EpochOf(s.db.epochs, t) + multiset(tags)[t]
  {
  }

  // The set of a tag of an expiring value is there until the longer of the two
  // times to live is over, or later when it was to expire later already.
  lemma TagSetLives(s: Tracked, op: Op, t: Tag, ms: nat)
    requires WellFormed(s.db) && Takes(s, op) && t in op.tags && op.ttl > 0
    ensures t in Step(Step(s, op), Tick(ms)).db.tagSets <==>
      || ms < op.ttl * 1000 || ms < op.tagTtl * 1000
      || (Survives(s.db, op.key, t) && s.db.tagSets[t].expiry.At? && s.db.now + ms < s.db.tagSets[t].expiry.ms)
  {
    hide Unlinked, Links, Survives;
    TagSetExpires(s, op, t);
  }

  lemma TagSetExpires(s: Tracked, op: Op, t: Tag)
    requires WellFormed(s.db) && Takes(s, op) && t in op.tags
    ensures t in Step(s, op).db.tagSets
    ensures Step(s, op).db.tagSets[t].expiry ==
      TagExpiry(if Survives(s.db, op.key, t) then s.db.tagSets[t].expiry else Never, s.db.now, TagTtlMs(op.ttl, op.tagTtl))
  {
  }
}
