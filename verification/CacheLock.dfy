// The cross-replica lock: `acquireLock` sets a token unless one is there, and
// `releaseLock` deletes it only while it is the caller's.
module CacheLock {
  import opened Prelude

  datatype Lock = Lock(token: string, expiry: nat)
  datatype Locks = Locks(now: nat, held: map<string, Lock>)

  datatype Action =
    | Acquire(key: string, token: string, ttlMs: nat)
    | Release(key: string, token: string)
    | Tick(ms: nat)

  // The locks afterwards, and whether the caller got what it asked for.
  function Perform(s: Locks, a: Action): (Locks, bool) {
    match a
    case Acquire(key, token, ttlMs) =>
      if key in s.held then (s, false) else (s.(held := s.held[key := Lock(token, s.now + ttlMs)]), true)
    case Release(key, token) =>
      if key in s.held && s.held[key].token == token then (s.(held := s.held - {key}), true) else (s, false)
    case Tick(ms) =>
      (Locks(s.now + ms, map k | k in s.held && s.now + ms < s.held[k].expiry :: s.held[k]), true)
  }

  // The commands on the server. PX refuses a time to live of zero.
  class LockServer {
    var locks: Locks

    constructor ()
      ensures locks == Locks(0, map[])
    {
      locks := Locks(0, map[]);
    }

    method SetNxPx(key: string, token: string, ttlMs: nat) returns (ok: bool)
      requires ttlMs > 0
      modifies this
      ensures (locks, ok) == Perform(old(locks), Acquire(key, token, ttlMs))
      ensures ok <==> key !in old(locks).held
      ensures !ok ==> locks == old(locks)
      ensures ok ==> HeldFor(locks, key, token, ttlMs) && OthersKept(old(locks), locks, {key})
      ensures ok ==> Perform(locks, Release(key, token)) == (old(locks), true)
    {
      ok := key !in locks.held;
      if ok {
        locks := locks.(held := locks.held[key := Lock(token, locks.now + ttlMs)]);
        HeldUntilReleased(locks, key, token, ttlMs);
      }
      assert ok ==> locks.held - {key} == old(locks).held;
    }

    method ReleaseScript(key: string, token: string) returns (deleted: nat)
      modifies this
      ensures (locks, deleted == 1) == Perform(old(locks), Release(key, token)) && deleted <= 1
      ensures deleted == 1 <==> key in old(locks).held && old(locks).held[key].token == token
      ensures key in locks.held ==>
        key in old(locks).held && locks.held[key] == old(locks).held[key] && locks.held[key].token != token
      ensures OthersKept(old(locks), locks, if deleted == 1 then {key} else {})
    {
      if key in locks.held && locks.held[key].token == token {
        locks := locks.(held := locks.held - {key});
        return 1;
      }
      return 0;
    }
  }

  // What the caller of a successful acquisition has: until `ms` are over or it
  // releases, the lock is its own, whatever the others do.
  ghost predicate HeldFor(s: Locks, key: string, token: string, ms: nat) {
    forall actions :: Elapsed(actions) < ms && Release(key, token) !in actions ==>
      var after := Run(s, actions);
      && key in after.held && after.held[key].token == token
      && forall other, ttlMs :: !Perform(after, Acquire(key, other, ttlMs)).1
  }

  ghost predicate OthersKept(s: Locks, s': Locks, keys: set<string>) {
    s'.now == s.now && s'.held - keys == s.held - keys
  }

  lemma HeldUntilReleased(s: Locks, key: string, token: string, ms: nat)
    requires key in s.held && s.held[key] == Lock(token, s.now + ms)
    ensures HeldFor(s, key, token, ms)
  {
    forall actions | Elapsed(actions) < ms && Release(key, token) !in actions
      ensures key in Run(s, actions).held && Run(s, actions).held[key].token == token
      ensures forall other, ttlMs :: !Perform(Run(s, actions), Acquire(key, other, ttlMs)).1
    {
      HolderKeepsLock(s, key, s.held[key], actions);
    }
  }

  function Run(s: Locks, actions: seq<Action>): Locks
    decreases |actions|
  {
    if actions == [] then s else Run(Perform(s, actions[0]).0, actions[1..])
  }

  function Elapsed(actions: seq<Action>): nat {
    if actions == [] then 0 else (if actions[0].Tick? then actions[0].ms else 0) + Elapsed(actions[1..])
  }

  // Whatever others do, a lock stays with its holder until the holder releases it
  // or its time is over; until then nobody else gets it, not even a former holder
  // who releases late.
  lemma {:induction false} HolderKeepsLock(s: Locks, key: string, lock: Lock, actions: seq<Action>)
    requires key in s.held && s.held[key] == lock && s.now + Elapsed(actions) < lock.expiry
    requires Release(key, lock.token) !in actions
    ensures key in Run(s, actions).held && Run(s, actions).held[key] == lock
    ensures forall token, ttlMs :: !Perform(Run(s, actions), Acquire(key, token, ttlMs)).1
    decreases |actions|
  {
    if actions != [] {
      assert actions[0] in actions;
      HolderKeepsLock(Perform(s, actions[0]).0, key, lock, actions[1..]);
    }
  }

  // And an abandoned lock is free once its time is over, whatever happens to
  // other keys in the meantime.
  lemma {:induction false} AbandonedLockIsFreed(s: Locks, key: string, actions: seq<Action>)
    requires key in s.held && s.held[key].expiry <= s.now + Elapsed(actions)
    requires s.now < s.held[key].expiry
    requires forall a | a in actions :: a.Acquire? ==> a.key != key
    ensures key !in Run(s, actions).held
    decreases |actions|
  {
    if actions != [] {
      assert actions[0] in actions;
      var s' := Perform(s, actions[0]).0;
      if key in s'.held {
        AbandonedLockIsFreed(s', key, actions[1..]);
      } else {
        StaysFree(s', key, actions[1..]);
      }
    }
  }

  lemma {:induction false} StaysFree(s: Locks, key: string, actions: seq<Action>)
    requires key !in s.held && forall a | a in actions :: a.Acquire? ==> a.key != key
    ensures key !in Run(s, actions).held
    decreases |actions|
  {
    if actions != [] {
      assert actions[0] in actions;
      StaysFree(Perform(s, actions[0]).0, key, actions[1..]);
    }
  }
}
