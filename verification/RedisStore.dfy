// The part of a Redis database that the cache provider uses, and what each of
// its Lua scripts does to it, stated as set algebra.
//
// User keys, `tag:` sets, `key-tags:` sets and `tag-epoch:` counters live in
// four maps: the provider relies on their name spaces not overlapping.  A key
// is in a map exactly while Redis would still answer for it, so expiry removes
// it from the map, and a set that loses its last member is gone.
module RedisStore {
  import opened Prelude

  datatype Key = Key(text: string)
  datatype Tag = Tag(text: string)

  // When Redis forgets a key, in milliseconds.
  datatype Expiry = Never | At(ms: nat)

  predicate NoLaterThan(a: Expiry, b: Expiry) {
    b.Never? || (a.At? && a.ms <= b.ms)
  }

  predicate Live(e: Expiry, now: nat) {
    e.At? ==> now < e.ms
  }

  datatype Value = Value(payload: string, expiry: Expiry)
  datatype TagSet = TagSet(members: set<Key>, expiry: Expiry)
  datatype ReverseSet = ReverseSet(tags: set<Tag>, expiry: Expiry)

  datatype Db = Db(
    now: nat,
    values: map<Key, Value>,
    tagSets: map<Tag, TagSet>,
    reverse: map<Key, ReverseSet>,
    epochs: map<Tag, nat>)

  const EMPTY: Db := Db(0, map[], map[], map[], map[])

  // Redis never stores an empty set and never answers for an expired key.
  ghost predicate WellFormed(db: Db) {
    && (forall t | t in db.tagSets :: db.tagSets[t].members != {} && Live(db.tagSets[t].expiry, db.now))
    && (forall k | k in db.reverse :: db.reverse[k].tags != {} && Live(db.reverse[k].expiry, db.now))
    && (forall k | k in db.values :: Live(db.values[k].expiry, db.now))
  }

  // ---- single commands -------------------------------------------------

  function SRem(tagSets: map<Tag, TagSet>, t: Tag, k: Key): map<Tag, TagSet> {
    if t !in tagSets then tagSets
    else
      var left := tagSets[t].members - {k};
      if left == {} then tagSets - {t} else tagSets[t := tagSets[t].(members := left)]
  }

  function SAdd(tagSets: map<Tag, TagSet>, t: Tag, k: Key): map<Tag, TagSet> {
    tagSets[t := if t in tagSets then tagSets[t].(members := tagSets[t].members + {k}) else TagSet({k}, Never)]
  }

  // PEXPIRE with NX acts only on a key without an expiry.
  function PExpireNx(tagSets: map<Tag, TagSet>, t: Tag, at: nat): map<Tag, TagSet> {
    if t in tagSets && tagSets[t].expiry.Never? then tagSets[t := tagSets[t].(expiry := At(at))] else tagSets
  }

  // PEXPIRE with GT acts only on a key that would expire earlier.
  function PExpireGt(tagSets: map<Tag, TagSet>, t: Tag, at: nat): map<Tag, TagSet> {
    if t in tagSets && tagSets[t].expiry.At? && tagSets[t].expiry.ms < at
    then tagSets[t := tagSets[t].(expiry := At(at))] else tagSets
  }

  function EpochOf(epochs: map<Tag, nat>, t: Tag): nat {
    if t in epochs then epochs[t] else 0
  }

  function OldTags(reverse: map<Key, ReverseSet>, k: Key): set<Tag> {
    if k in reverse then reverse[k].tags else {}
  }

  // ---- whole scripts, as set algebra -----------------------------------

  // The memberships that the reverse index records for the keys in `dead`.
  function Links(reverse: map<Key, ReverseSet>, dead: set<Key>): set<(Tag, Key)> {
    set k, t | k in dead && k in reverse && t in reverse[k].tags :: (t, k)
  }

  function Left(tagSets: map<Tag, TagSet>, t: Tag, gone: set<(Tag, Key)>): set<Key>
    requires t in tagSets
  {
    set k | k in tagSets[t].members && (t, k) !in gone
  }

  // The tag sets without the memberships in `gone`.
  function Unlinked(tagSets: map<Tag, TagSet>, gone: set<(Tag, Key)>): map<Tag, TagSet> {
    map t | t in tagSets && Left(tagSets, t, gone) != {} :: TagSet(Left(tagSets, t, gone), tagSets[t].expiry)
  }

  function MembersOf(tagSets: map<Tag, TagSet>, t: Tag): set<Key> {
    if t in tagSets then tagSets[t].members else {}
  }

  function Covered(tagSets: map<Tag, TagSet>, tags: set<Tag>): set<Key> {
    set t, k | t in tags && t in tagSets && k in tagSets[t].members :: k
  }

  function TagExpiry(before: Expiry, now: nat, tagTtlMs: nat): Expiry {
    if tagTtlMs == 0 then before
    else if before.Never? then At(now + tagTtlMs)
    else if before.ms < now + tagTtlMs then At(now + tagTtlMs)
    else before
  }

  function ExpiryIn(now: nat, ttlMs: nat): Expiry {
    if ttlMs > 0 then At(now + ttlMs) else Never
  }

  // `k` added to the sets of `tags`; a set that did not exist starts without expiry.
  function Linked(tagSets: map<Tag, TagSet>, k: Key, tags: set<Tag>, now: nat, tagTtlMs: nat): map<Tag, TagSet> {
    map t | t in tagSets.Keys + tags ::
      if t in tags then
        TagSet(MembersOf(tagSets, t) + {k},
               TagExpiry(if t in tagSets then tagSets[t].expiry else Never, now, tagTtlMs))
      else tagSets[t]
  }

  predicate EpochsMatch(epochs: map<Tag, nat>, tags: set<Tag>, expected: map<Tag, nat>) {
    forall t | t in tags :: EpochOf(epochs, t) == EpochOf(expected, t)
  }

  function Stored(db: Db, k: Key, payload: string, tags: set<Tag>, ttlMs: nat, tagTtlMs: nat): Db {
    Db(db.now,
       db.values[k := Value(payload, ExpiryIn(db.now, ttlMs))],
       Linked(Unlinked(db.tagSets, Links(db.reverse, {k})), k, tags, db.now, tagTtlMs),
       if tags == {} then db.reverse - {k} else db.reverse[k := ReverseSet(tags, ExpiryIn(db.now, ttlMs))],
       db.epochs)
  }

  // A set conditional on `expected` epochs, or unconditional.
  function AfterSet(db: Db, k: Key, payload: string, tags: set<Tag>, ttlMs: nat, tagTtlMs: nat,
                    expected: Option<map<Tag, nat>>): (Db, bool)
  {
    if expected.Some? && !EpochsMatch(db.epochs, tags, expected.value) then (db, false)
    else (Stored(db, k, payload, tags, ttlMs, tagTtlMs), true)
  }

  function AfterDelete(db: Db, dead: set<Key>): Db {
    db.(values := db.values - dead,
        tagSets := Unlinked(db.tagSets, Links(db.reverse, dead)),
        reverse := db.reverse - dead)
  }

  // Every epoch goes up by the number of times its tag is named.
  function Raised(epochs: map<Tag, nat>, tags: seq<Tag>): map<Tag, nat> {
    map t | t in epochs.Keys + Elems(tags) :: EpochOf(epochs, t) + multiset(tags)[t]
  }

  function AfterInvalidate(db: Db, tags: seq<Tag>): Db {
    var named := Elems(tags);
    var cleared := AfterDelete(db, Covered(db.tagSets, named));
    cleared.(tagSets := cleared.tagSets - named, epochs := Raised(db.epochs, tags))
  }

  function LiveValues(values: map<Key, Value>, now: nat): map<Key, Value> {
    map k | k in values && Live(values[k].expiry, now) :: values[k]
  }

  function LiveTagSets(tagSets: map<Tag, TagSet>, now: nat): map<Tag, TagSet> {
    map t | t in tagSets && Live(tagSets[t].expiry, now) :: tagSets[t]
  }

  function LiveReverse(reverse: map<Key, ReverseSet>, now: nat): map<Key, ReverseSet> {
    map k | k in reverse && Live(reverse[k].expiry, now) :: reverse[k]
  }

  // `ms` milliseconds pass: what expires in between is forgotten.
  function AfterTick(db: Db, ms: nat): Db {
    var now := db.now + ms;
    Db(now, LiveValues(db.values, now), LiveTagSets(db.tagSets, now), LiveReverse(db.reverse, now), db.epochs)
  }
}
