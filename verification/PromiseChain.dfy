// The promise chains of the media generation service: calls with one key wait
// for the tail that the map holds for that key, replace it, and remove the entry
// when they are still the tail at their end.
module PromiseChain {
  import opened Prelude

  // `Inside(pc)`: the critical section has made `pc` of its steps. A call is
  // `Settled` when its promise is, fulfilled or rejected, and has `Left` when its
  // clean-up has run.
  datatype Stage = Waiting | Inside(pc: nat) | Settled | Left

  // One entry of `keys`, `priors` and `stages` for each call, in arrival order.
  datatype Calls = Calls(keys: seq<string>, priors: seq<Option<nat>>, stages: seq<Stage>, chains: map<string, nat>)

  const IDLE := Calls([], [], [], map[])

  datatype Action = Arrive(key: string) | Start(call: nat) | Advance(call: nat) | Settle(call: nat) | Leave(call: nat)

  predicate Finished(stage: Stage) {
    stage.Settled? || stage.Left?
  }

  // A critical section has `length` steps. Nothing else makes a call wait.
  predicate Enabled(c: Calls, a: Action, length: nat) {
    if a.Arrive? then true
    else if a.call >= |c.stages| || a.call >= |c.priors| || a.call >= |c.keys| then false
    else match a
      case Start(i) => c.stages[i].Waiting?
        && (c.priors[i].None? || (c.priors[i].value < |c.stages| && Finished(c.stages[c.priors[i].value])))
      case Advance(i) => c.stages[i].Inside? && c.stages[i].pc < length
      case Settle(i) => c.stages[i].Inside? && c.stages[i].pc == length
      case Leave(i) => c.stages[i].Settled?
  }

  function Tail(chains: map<string, nat>, key: string): Option<nat> {
    if key in chains then Some(chains[key]) else None
  }

  function After(c: Calls, a: Action, length: nat): Calls
    requires Enabled(c, a, length)
  {
    match a
    case Arrive(key) =>
      Calls(c.keys + [key], c.priors + [Tail(c.chains, key)], c.stages + [Waiting], c.chains[key := |c.keys|])
    case Start(i) => c.(stages := c.stages[i := Inside(0)])
    case Advance(i) => c.(stages := c.stages[i := Inside(c.stages[i].pc + 1)])
    case Settle(i) => c.(stages := c.stages[i := Settled])
    case Leave(i) =>
      c.(stages := c.stages[i := Left], chains := if Tail(c.chains, c.keys[i]) == Some(i) then c.chains - {c.keys[i]} else c.chains)
  }

  // The service's side: the map, and the calls that hold promises in it.
  class Chains {
    var chains: map<string, nat>
    var keys: seq<string>
    var priors: seq<Option<nat>>
    var stages: seq<Stage>

    function State(): Calls
      reads this
    {
      Calls(keys, priors, stages, chains)
    }

    constructor ()
      ensures State() == IDLE
    {
      chains, keys, priors, stages := map[], [], [], [];
    }

    method Arrive(key: string) returns (call: nat)
      modifies this
      ensures State() == After(old(State()), Action.Arrive(key), 0)
      ensures call == |old(keys)|
      ensures old(Sound(State())) ==> Sound(State()) && WaitsForAll(State(), call)
    {
      ghost var before := State();
      call := |keys|;
      var prior := if key in chains then Some(chains[key]) else None;
      keys, priors, stages := keys + [key], priors + [prior], stages + [Waiting];
      chains := chains[key := call];
      if Sound(before) {
        ActionKeepsSound(before, Action.Arrive(key), 0);
        ArrivalWaits(before, key);
      }
    }

    method Leave(call: nat)
      requires Enabled(State(), Action.Leave(call), 0)
      modifies this
      ensures State() == After(old(State()), Action.Leave(call), 0)
      ensures old(Sound(State())) ==> Sound(State()) && Covered(State())
    {
      ghost var before := State();
      stages := stages[call := Left];
      if keys[call] in chains && chains[keys[call]] == call {
        chains := chains - {keys[call]};
      }
      if Sound(before) {
        ActionKeepsSound(before, Action.Leave(call), 0);
        SoundIsCovered(State());
      }
    }
  }

  // ---- mutual exclusion ----------------------------------------------------

  ghost predicate InOrder(keys: seq<string>, stages: seq<Stage>)
    requires |stages| == |keys|
  {
    forall i, j | 0 <= j < i < |keys| && keys[j] == keys[i] && !stages[i].Waiting? :: Finished(stages[j])
  }

  ghost predicate AllFinished(keys: seq<string>, stages: seq<Stage>, key: string, upto: nat)
    requires |stages| == |keys| && upto <= |keys|
  {
    forall j | 0 <= j < upto && keys[j] == key :: Finished(stages[j])
  }

  ghost predicate AllDone(c: Calls, key: string) {
    |c.stages| == |c.keys| && AllFinished(c.keys, c.stages, key, |c.keys|)
  }

  // A call waits for the one just before it, unless all before it are finished.
  ghost predicate Linked(keys: seq<string>, priors: seq<Option<nat>>, stages: seq<Stage>)
    requires |stages| == |priors| == |keys|
  {
    forall i | 0 <= i < |keys| ::
      if priors[i].None? then AllFinished(keys, stages, keys[i], i)
      else priors[i].value < i && keys[priors[i].value] == keys[i] && LastBefore(keys, priors[i].value, i)
  }

  ghost predicate LastBefore(keys: seq<string>, p: nat, end: nat)
    requires p < |keys| && end <= |keys|
  {
    forall j | p < j < end :: keys[j] != keys[p]
  }

  // The map holds the last call of each key, while that has not left.
  ghost predicate Tails(keys: seq<string>, stages: seq<Stage>, chains: map<string, nat>)
    requires |stages| == |keys|
  {
    && (forall key | key in chains ::
          && chains[key] < |keys| && keys[chains[key]] == key && !stages[chains[key]].Left?
          && LastBefore(keys, chains[key], |keys|))
    && (forall i | 0 <= i < |keys| && keys[i] !in chains :: Finished(stages[i]))
  }

  ghost predicate Sound(c: Calls) {
    && |c.priors| == |c.keys| && |c.stages| == |c.keys|
    && InOrder(c.keys, c.stages) && Linked(c.keys, c.priors, c.stages) && Tails(c.keys, c.stages, c.chains)
  }

  predicate Progress(before: Stage, after: Stage) {
    (Finished(before) ==> Finished(after)) && (after.Waiting? ==> before.Waiting?)
  }

  lemma SetKeepsOrdered(keys: seq<string>, stages: seq<Stage>, i: nat, stage: Stage)
    requires |stages| == |keys| && i < |keys| && InOrder(keys, stages) && Progress(stages[i], stage)
    requires AllFinished(keys, stages, keys[i], i)
    ensures InOrder(keys, stages[i := stage])
  {
  }

  lemma SetKeepsLinked(keys: seq<string>, priors: seq<Option<nat>>, stages: seq<Stage>, i: nat, stage: Stage)
    requires |stages| == |priors| == |keys| && i < |keys| && Linked(keys, priors, stages) && Progress(stages[i], stage)
    ensures Linked(keys, priors, stages[i := stage])
  {
  }

  lemma SetKeepsTails(keys: seq<string>, stages: seq<Stage>, chains: map<string, nat>, i: nat, stage: Stage)
    requires |stages| == |keys| && i < |keys| && Tails(keys, stages, chains) && Progress(stages[i], stage)
      && !stage.Left?
    ensures Tails(keys, stages[i := stage], chains)
  {
  }

  lemma LeaveKeepsTails(keys: seq<string>, stages: seq<Stage>, chains: map<string, nat>, i: nat)
    requires |stages| == |keys| && i < |keys| && Tails(keys, stages, chains) && stages[i].Settled?
    requires InOrder(keys, stages)
    ensures Tails(keys, stages[i := Left], if Tail(chains, keys[i]) == Some(i) then chains - {keys[i]} else chains)
  {
  }

  lemma StartIsOrdered(keys: seq<string>, priors: seq<Option<nat>>, stages: seq<Stage>, i: nat)
    requires |stages| == |priors| == |keys| && i < |keys| && Linked(keys, priors, stages) && InOrder(keys, stages)
    requires priors[i].Some? ==> priors[i].value < |keys| && Finished(stages[priors[i].value])
    ensures AllFinished(keys, stages, keys[i], i)
  {
  }

  lemma ArriveKeepsLinked(keys: seq<string>, priors: seq<Option<nat>>, stages: seq<Stage>, chains: map<string, nat>,
                          key: string)
    requires |stages| == |priors| == |keys| && Linked(keys, priors, stages) && Tails(keys, stages, chains)
    ensures Linked(keys + [key], priors + [Tail(chains, key)], stages + [Waiting])
  {
  }

  lemma ArriveKeepsTails(keys: seq<string>, stages: seq<Stage>, chains: map<string, nat>, key: string)
    requires |stages| == |keys| && Tails(keys, stages, chains)
    ensures Tails(keys + [key], stages + [Waiting], chains[key := |keys|])
  {
  }

  lemma ArriveKeepsSound(c: Calls, key: string)
    requires Sound(c)
    ensures Sound(After(c, Arrive(key), 0))
  {
    hide Linked, Tails;
    ArriveKeepsLinked(c.keys, c.priors, c.stages, c.chains, key);
    ArriveKeepsTails(c.keys, c.stages, c.chains, key);
  }

  lemma ActionKeepsSound(c: Calls, a: Action, length: nat)
    requires Sound(c) && Enabled(c, a, length)
    ensures Sound(After(c, a, length))
  {
    hide InOrder, Linked, Tails, AllFinished;
    if a.Arrive? {
      ArriveKeepsSound(c, a.key);
    } else {
      var stage := After(c, a, length).stages[a.call];
      if a.Start? {
        StartIsOrdered(c.keys, c.priors, c.stages, a.call);
      } else {
        StartedIsOrdered(c.keys, c.stages, a.call);
      }
      SetKeepsOrdered(c.keys, c.stages, a.call, stage);
      SetKeepsLinked(c.keys, c.priors, c.stages, a.call, stage);
      if a.Leave? {
        LeaveKeepsTails(c.keys, c.stages, c.chains, a.call);
      } else {
        SetKeepsTails(c.keys, c.stages, c.chains, a.call, stage);
      }
    }
  }

  // A new call waits for a call of its key with no unfinished one behind it.
  ghost predicate WaitsForAll(c: Calls, call: nat) {
    && |c.keys| == |c.priors| == |c.stages| && call < |c.keys|
    && forall j | 0 <= j < call && c.keys[j] == c.keys[call] && !Finished(c.stages[j]) ::
         c.priors[call].Some? && j <= c.priors[call].value < call && c.keys[c.priors[call].value] == c.keys[call]
  }

  // Whoever arrives next with the key of an unfinished call finds an entry there.
  ghost predicate Covered(c: Calls) {
    && |c.keys| == |c.stages|
    && forall j | 0 <= j < |c.keys| && !Finished(c.stages[j]) :: c.keys[j] in c.chains && j <= c.chains[c.keys[j]]
  }

  lemma SoundIsCovered(c: Calls)
    requires Sound(c)
    ensures Covered(c)
  {
  }

  lemma ArrivalWaits(c: Calls, key: string)
    requires Sound(c)
    ensures WaitsForAll(After(c, Arrive(key), 0), |c.keys|)
  {
    SoundIsCovered(c);
  }

  lemma StartedIsOrdered(keys: seq<string>, stages: seq<Stage>, i: nat)
    requires |stages| == |keys| && i < |keys| && InOrder(keys, stages) && !stages[i].Waiting?
    ensures AllFinished(keys, stages, keys[i], i)
  {
  }

  // ---- what it means -------------------------------------------------------

  // Sections of one key never overlap, and start in arrival order.
  ghost predicate Exclusive(c: Calls) {
    |c.stages| == |c.keys| && forall i, j | 0 <= i < j < |c.keys| && c.keys[i] == c.keys[j] ::
      (c.stages[i].Inside? ==> c.stages[j].Waiting?) && (!c.stages[j].Waiting? ==> Finished(c.stages[i]))
  }

  // Whenever some call has not finished, one of the unfinished calls can move:
  // nobody waits for a call that comes later or that will never settle.
  lemma {:induction false} SomeoneCanMove(c: Calls, length: nat, i: nat) returns (a: Action)
    requires Sound(c) && i < |c.keys| && !Finished(c.stages[i])
    requires forall j | 0 <= j < |c.keys| && c.stages[j].Inside? :: c.stages[j].pc <= length
    ensures !a.Arrive? && a.call <= i && Enabled(c, a, length)
  {
    hide InOrder, Tails, AllFinished, LastBefore;
    if c.stages[i].Inside? {
      a := if c.stages[i].pc < length then Advance(i) else Settle(i);
    } else if c.priors[i].None? || Finished(c.stages[c.priors[i].value]) {
      a := Start(i);
    } else {
      a := SomeoneCanMove(c, length, c.priors[i].value);
    }
  }

  // Nothing is left in the map when all calls have left.
  lemma QuietMapIsEmpty(c: Calls)
    requires Sound(c) && forall i | 0 <= i < |c.keys| :: c.stages[i].Left?
    ensures c.chains == map[]
  {
  }

  lemma SoundIsExclusive(c: Calls)
    requires Sound(c)
    ensures Exclusive(c)
  {
  }
}
