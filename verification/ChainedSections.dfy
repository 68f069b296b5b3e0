// What the promise chains are for: critical sections of several steps over a
// shared state for each key act as if the calls had been made one by one.
module ChainedSections {
  import opened Prelude
  import opened PromiseChain

  // `world` is what the sections work on, one state for each key.
  datatype System<S> = System(calls: Calls, world: map<string, S>)

  function Read<S>(world: map<string, S>, key: string, initial: S): S {
    if key in world then world[key] else initial
  }

  // `step(key, call, pc, state)` is what step `pc` of the section of `call` does.
  function Perform<S>(s: System<S>, a: Action, length: nat, step: (string, nat, nat, S) -> S, initial: S): System<S>
    requires Enabled(s.calls, a, length)
  {
    System(
      After(s.calls, a, length),
      if a.Advance? then
        var key := s.calls.keys[a.call];
        s.world[key := step(key, a.call, s.calls.stages[a.call].pc, Read(s.world, key, initial))]
      else s.world)
  }

  function Run<S>(s: System<S>, actions: seq<Action>, length: nat, step: (string, nat, nat, S) -> S,
                  initial: S): Option<System<S>>
    decreases |actions|
  {
    if actions == [] then Some(s)
    else if !Enabled(s.calls, actions[0], length) then None
    else Run(Perform(s, actions[0], length, step, initial), actions[1..], length, step, initial)
  }

  // The first `pc` steps of one section, without interruption.
  function Section<S>(key: string, call: nat, pc: nat, step: (string, nat, nat, S) -> S, s: S): S {
    if pc == 0 then s else step(key, call, pc - 1, Section(key, call, pc - 1, step, s))
  }

  // The first `n` calls one by one, as far as they concern `key`.
  function OneByOne<S>(keys: seq<string>, key: string, n: nat, length: nat, step: (string, nat, nat, S) -> S,
                       initial: S): S
    requires n <= |keys|
  {
    if n == 0 then initial
    else
      var before := OneByOne(keys, key, n - 1, length, step, initial);
      if keys[n - 1] == key then Section(key, n - 1, length, step, before) else before
  }

  lemma {:induction false} OneByOnePrefix<S>(keys: seq<string>, more: string, key: string, n: nat, length: nat,
                                             step: (string, nat, nat, S) -> S, initial: S)
    requires n <= |keys|
    ensures OneByOne(keys + [more], key, n, length, step, initial) == OneByOne(keys, key, n, length, step, initial)
  {
    hide Section;
    if n != 0 {
      OneByOnePrefix(keys, more, key, n - 1, length, step, initial);
    }
  }

  lemma {:induction false} OneByOneSkips<S>(keys: seq<string>, key: string, from: nat, n: nat, length: nat,
                                            step: (string, nat, nat, S) -> S, initial: S)
    requires from <= n <= |keys| && forall j | from <= j < n :: keys[j] != key
    ensures OneByOne(keys, key, n, length, step, initial) == OneByOne(keys, key, from, length, step, initial)
  {
    hide Section;
    if n != from {
      OneByOneSkips(keys, key, from, n - 1, length, step, initial);
    }
  }

  // The first `n` calls of `key` have finished and the others have not started.
  ghost predicate Between(c: Calls, key: string, n: nat)
    requires |c.stages| == |c.keys| && n <= |c.keys|
  {
    AllFinished(c.keys, c.stages, key, n) && forall j | n <= j < |c.keys| && c.keys[j] == key :: c.stages[j].Waiting?
  }

  ghost predicate InsideCurrent<S>(s: System<S>, i: nat, length: nat, step: (string, nat, nat, S) -> S, initial: S)
    requires i < |s.calls.keys| && |s.calls.stages| == |s.calls.keys| && s.calls.stages[i].Inside?
  {
    var key := s.calls.keys[i];
    Read(s.world, key, initial) == Section(key, i, s.calls.stages[i].pc, step, OneByOne(s.calls.keys, key, i, length, step, initial))
  }

  ghost predicate BetweenCurrent<S>(s: System<S>, key: string, n: nat, length: nat, step: (string, nat, nat, S) -> S,
                                    initial: S)
    requires n <= |s.calls.keys|
  {
    Read(s.world, key, initial) == OneByOne(s.calls.keys, key, n, length, step, initial)
  }

  ghost predicate Serial<S>(s: System<S>, length: nat, step: (string, nat, nat, S) -> S, initial: S) {
    && Sound(s.calls)
    && (forall i | 0 <= i < |s.calls.keys| && s.calls.stages[i].Inside? ::
          InsideCurrent(s, i, length, step, initial) && s.calls.stages[i].pc <= length)
    && (forall key, n: nat | n <= |s.calls.keys| && Between(s.calls, key, n) ::
          BetweenCurrent(s, key, n, length, step, initial))
  }

  lemma ArriveKeepsSerial<S>(s: System<S>, a: Action, length: nat, step: (string, nat, nat, S) -> S, initial: S)
    requires Serial(s, length, step, initial) && a.Arrive?
    ensures Serial(Perform(s, a, length, step, initial), length, step, initial)
  {
    hide Sound, Section;
    var s' := Perform(s, a, length, step, initial);
    var keys := s.calls.keys;
    assert Sound(s'.calls) && |s.calls.stages| == |keys| && |s.calls.priors| == |keys| by {
      Sizes(s.calls);
      ActionKeepsSound(s.calls, a, length);
    }
    forall i | 0 <= i < |s'.calls.keys| && s'.calls.stages[i].Inside?
      ensures InsideCurrent(s', i, length, step, initial) && s'.calls.stages[i].pc <= length
    {
      assert InsideCurrent(s, i, length, step, initial);
      OneByOnePrefix(keys, a.key, keys[i], i, length, step, initial);
    }
    forall key, n: nat | n <= |s'.calls.keys| && Between(s'.calls, key, n)
      ensures BetweenCurrent(s', key, n, length, step, initial)
    {
      var m := if n <= |keys| then n else |keys|;
      BetweenBefore(s.calls, a.key, key, n);
      assert BetweenCurrent(s, key, m, length, step, initial);
      OneByOnePrefix(keys, a.key, key, m, length, step, initial);
    }
  }

  lemma Sizes(c: Calls)
    requires Sound(c)
    ensures |c.stages| == |c.keys| && |c.priors| == |c.keys|
  {
  }

  lemma BetweenBefore(c: Calls, more: string, key: string, n: nat)
    requires |c.stages| == |c.keys| && n <= |c.keys| + 1
    requires Between(After(c, Arrive(more), 0), key, n)
    ensures n <= |c.keys| ==> Between(c, key, n)
    ensures n == |c.keys| + 1 ==> more != key && Between(c, key, |c.keys|)
  {
    var c' := After(c, Arrive(more), 0);
    assert AllFinished(c'.keys, c'.stages, key, n);
    assert forall j | 0 <= j < |c.keys| :: c'.keys[j] == c.keys[j] && c'.stages[j] == c.stages[j];
    if n == |c.keys| + 1 {
      assert c'.keys[|c.keys|] == more && c'.stages[|c.keys|] == Waiting;
    }
  }

  // No other section of the same key is inside, so that `key` is between no calls.
  lemma InsideIsNotBetween(c: Calls, i: nat, n: nat)
    requires Sound(c) && i < |c.keys| && c.stages[i].Inside? && n <= |c.keys|
    ensures !Between(c, c.keys[i], n)
  {
  }

  lemma StartIsBetween(c: Calls, i: nat, length: nat)
    requires Sound(c) && Enabled(c, Start(i), length)
    ensures Between(c, c.keys[i], i)
  {
  }

  // Setting one stage says nothing about the calls of other keys.
  lemma BetweenOthers(c: Calls, c': Calls, i: nat, key: string, n: nat)
    requires |c.stages| == |c.keys| && c'.keys == c.keys && i < |c.keys| && n <= |c.keys|
    requires |c'.stages| == |c.stages| && forall j | 0 <= j < |c.stages| && j != i :: c'.stages[j] == c.stages[j]
    requires c.keys[i] != key && Between(c', key, n)
    ensures Between(c, key, n)
  {
  }

  // The call has only moved, without finishing.
  lemma MoveKeepsSerial<S>(s: System<S>, a: Action, length: nat, step: (string, nat, nat, S) -> S, initial: S)
    requires Serial(s, length, step, initial) && (a.Start? || a.Advance?) && Enabled(s.calls, a, length)
    ensures Serial(Perform(s, a, length, step, initial), length, step, initial)
  {
    hide Sound, Section, OneByOne, Between;
    var s' := Perform(s, a, length, step, initial);
    var key := s.calls.keys[a.call];
    Sizes(s.calls);
    ActionKeepsSound(s.calls, a, length);
    assert InsideCurrent(s', a.call, length, step, initial) by {
      if a.Start? {
        StartIsBetween(s.calls, a.call, length);
        assert BetweenCurrent(s, key, a.call, length, step, initial);
        NoStep(key, a.call, step, Read(s.world, key, initial));
      } else {
        assert InsideCurrent(s, a.call, length, step, initial);
        OneStep(key, a.call, s.calls.stages[a.call].pc, step,
                OneByOne(s.calls.keys, key, a.call, length, step, initial));
      }
    }
    forall i | 0 <= i < |s'.calls.keys| && s'.calls.stages[i].Inside?
      ensures InsideCurrent(s', i, length, step, initial) && s'.calls.stages[i].pc <= length
    {
      if i != a.call {
        assert InsideCurrent(s, i, length, step, initial);
        InsideAlone(s'.calls, a.call, i);
      }
    }
    forall k, n: nat | n <= |s'.calls.keys| && Between(s'.calls, k, n)
      ensures BetweenCurrent(s', k, n, length, step, initial)
    {
      if k == key {
        InsideIsNotBetween(s'.calls, a.call, n);
      } else {
        BetweenOthers(s.calls, s'.calls, a.call, k, n);
        assert BetweenCurrent(s, k, n, length, step, initial);
      }
    }
  }

  lemma NoStep<S>(key: string, call: nat, step: (string, nat, nat, S) -> S, s: S)
    ensures Section(key, call, 0, step, s) == s
  {
  }

  lemma OneStep<S>(key: string, call: nat, pc: nat, step: (string, nat, nat, S) -> S, s: S)
    ensures Section(key, call, pc + 1, step, s) == step(key, call, pc, Section(key, call, pc, step, s))
  {
  }

  lemma InsideAlone(c: Calls, i: nat, j: nat)
    requires Sound(c) && i < |c.keys| && j < |c.keys| && i != j && c.stages[i].Inside? && c.stages[j].Inside?
    ensures c.keys[i] != c.keys[j]
  {
  }

  // When a section ends, its key is between calls again.
  lemma SettledIsNext<S>(s: System<S>, i: nat, n: nat, length: nat, step: (string, nat, nat, S) -> S, initial: S)
    requires Sound(s.calls) && Enabled(s.calls, Settle(i), length) && n <= |s.calls.keys|
    requires InsideCurrent(s, i, length, step, initial)
    requires Between(After(s.calls, Settle(i), length), s.calls.keys[i], n)
    ensures BetweenCurrent(s, s.calls.keys[i], n, length, step, initial)
  {
    hide Section, Linked, Tails;
    var c, c', key := s.calls, After(s.calls, Settle(i), length), s.calls.keys[i];
    assert i < n && AllFinished(c'.keys, c'.stages, key, n);
    forall j | i < j < n
      ensures c.keys[j] != key
    {
      assert c.keys[j] == key ==> Finished(c'.stages[j]);
    }
    OneByOneSkips(c.keys, key, i + 1, n, length, step, initial);
  }

  lemma EndKeepsSerial<S>(s: System<S>, a: Action, length: nat, step: (string, nat, nat, S) -> S, initial: S)
    requires Serial(s, length, step, initial) && (a.Settle? || a.Leave?) && Enabled(s.calls, a, length)
    ensures Serial(Perform(s, a, length, step, initial), length, step, initial)
  {
    hide Sound, Section, OneByOne, Between;
    var s' := Perform(s, a, length, step, initial);
    Sizes(s.calls);
    ActionKeepsSound(s.calls, a, length);
    forall i | 0 <= i < |s'.calls.keys| && s'.calls.stages[i].Inside?
      ensures InsideCurrent(s', i, length, step, initial) && s'.calls.stages[i].pc <= length
    {
      assert InsideCurrent(s, i, length, step, initial);
    }
    forall k, n: nat | n <= |s'.calls.keys| && Between(s'.calls, k, n)
      ensures BetweenCurrent(s', k, n, length, step, initial)
    {
      if k != s.calls.keys[a.call] {
        BetweenOthers(s.calls, s'.calls, a.call, k, n);
        assert BetweenCurrent(s, k, n, length, step, initial);
      } else if a.Settle? {
        assert InsideCurrent(s, a.call, length, step, initial);
        SettledIsNext(s, a.call, n, length, step, initial);
      } else {
        LeavingIsNothing(s.calls, a.call, length, k, n);
        assert BetweenCurrent(s, k, n, length, step, initial);
      }
    }
  }

  lemma LeavingIsNothing(c: Calls, i: nat, length: nat, key: string, n: nat)
    requires |c.stages| == |c.keys| && n <= |c.keys| && Enabled(c, Leave(i), length)
    requires Between(After(c, Leave(i), length), key, n)
    ensures Between(c, key, n)
  {
  }

  lemma {:induction false} RunKeepsSerial<S>(s: System<S>, actions: seq<Action>, length: nat,
                                             step: (string, nat, nat, S) -> S, initial: S)
    requires Serial(s, length, step, initial) && Run(s, actions, length, step, initial).Some?
    ensures Serial(Run(s, actions, length, step, initial).value, length, step, initial)
    decreases |actions|
  {
    hide Serial, Perform, Enabled;
    if actions != [] {
      var a := actions[0];
      if a.Arrive? {
        ArriveKeepsSerial(s, a, length, step, initial);
      } else if a.Start? || a.Advance? {
        MoveKeepsSerial(s, a, length, step, initial);
      } else {
        EndKeepsSerial(s, a, length, step, initial);
      }
      RunKeepsSerial(Perform(s, a, length, step, initial), actions[1..], length, step, initial);
    }
  }

  lemma StartIsSerial<S>(length: nat, step: (string, nat, nat, S) -> S, initial: S)
    ensures Serial(System(IDLE, map[]), length, step, initial)
  {
  }

  // The state of a key at any moment: what a number of its calls lead to one by
  // one, and the steps that the next one has made so far, if it is inside.
  ghost predicate InTurn<S>(s: System<S>, key: string, length: nat, step: (string, nat, nat, S) -> S, initial: S) {
    && |s.calls.stages| == |s.calls.keys|
    && ((exists i | 0 <= i < |s.calls.keys| && s.calls.keys[i] == key ::
           s.calls.stages[i].Inside? && s.calls.stages[i].pc <= length && InsideCurrent(s, i, length, step, initial))
        || (exists n: nat | n <= |s.calls.keys| ::
             Between(s.calls, key, n) && BetweenCurrent(s, key, n, length, step, initial)))
  }

  // The first of the calls from `n` on that is still waiting, if none of the key is
  // inside.
  lemma {:induction false} SomeoneIsNext(c: Calls, key: string, n: nat) returns (next: nat)
    requires Sound(c) && n <= |c.keys| && forall j | 0 <= j < |c.keys| && c.keys[j] == key :: !c.stages[j].Inside?
    requires forall j | 0 <= j < n && c.keys[j] == key :: !c.stages[j].Waiting?
    ensures next <= |c.keys| && Between(c, key, next)
    decreases |c.keys| - n
  {
    hide Linked, Tails;
    if n == |c.keys| || (c.keys[n] == key && c.stages[n].Waiting?) {
      next := n;
    } else {
      next := SomeoneIsNext(c, key, n + 1);
    }
  }

  lemma SerialIsInTurn<S>(s: System<S>, key: string, length: nat, step: (string, nat, nat, S) -> S, initial: S)
    requires Serial(s, length, step, initial)
    ensures InTurn(s, key, length, step, initial)
  {
    hide Sound, Between, InsideCurrent, BetweenCurrent;
    Sizes(s.calls);
    if forall j | 0 <= j < |s.calls.keys| && s.calls.keys[j] == key :: !s.calls.stages[j].Inside? {
      var n := SomeoneIsNext(s.calls, key, 0);
      assert BetweenCurrent(s, key, n, length, step, initial);
    }
  }

  // In every run: sections of one key exclude each other and run in arrival
  // order; at every moment the state of a key is what its calls lead to one by one;
  // and whenever all of them have finished, it is what all of them lead to.
  lemma RunsAreSerial<S>(actions: seq<Action>, length: nat, step: (string, nat, nat, S) -> S, initial: S)
    requires Run(System(IDLE, map[]), actions, length, step, initial).Some?
    ensures var s := Run(System(IDLE, map[]), actions, length, step, initial).value;
            && Exclusive(s.calls) && (forall key :: InTurn(s, key, length, step, initial))
            && (forall key | AllDone(s.calls, key) ::
                  Read(s.world, key, initial) == OneByOne(s.calls.keys, key, |s.calls.keys|, length, step, initial))
            && ((forall i | 0 <= i < |s.calls.keys| :: s.calls.stages[i].Left?) ==> s.calls.chains == map[])
  {
    hide Run, OneByOne;
    StartIsSerial(length, step, initial);
    RunKeepsSerial(System(IDLE, map[]), actions, length, step, initial);
    var s := Run(System(IDLE, map[]), actions, length, step, initial).value;
    SoundIsExclusive(s.calls);
    forall key
      ensures InTurn(s, key, length, step, initial)
    {
      SerialIsInTurn(s, key, length, step, initial);
    }
    if forall i | 0 <= i < |s.calls.keys| :: s.calls.stages[i].Left? {
      QuietMapIsEmpty(s.calls);
    }
    forall key | AllDone(s.calls, key)
      ensures Read(s.world, key, initial) == OneByOne(s.calls.keys, key, |s.calls.keys|, length, step, initial)
    {
      assert Between(s.calls, key, |s.calls.keys|);
      assert BetweenCurrent(s, key, |s.calls.keys|, length, step, initial);
    }
  }
}
