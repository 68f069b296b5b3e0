// The two users of the promise chains: reservations of one user, and applying
// the result of one task.
module MediaChains {
  import opened Prelude
  import opened PromiseChain
  import opened ChainedSections
  import B = Budget

  lemma ThreeSteps<S>(key: string, call: nat, step: (string, nat, nat, S) -> S, s: S)
    ensures Section(key, call, 3, step, s) == step(key, call, 2, step(key, call, 1, step(key, call, 0, s)))
  {
    assert Section(key, call, 1, step, s) == step(key, call, 0, s);
    assert Section(key, call, 2, step, s) == step(key, call, 1, Section(key, call, 1, step, s));
  }

  // ---- `budgetChains` ------------------------------------------------------

  datatype Request = Request(requestId: string, estimate: Option<real>)

  // `reserve`: enqueue, check, and mark failed what the check refuses. One
  // user's tasks are all that the check sums, so each user has its own state.
  function Reserve(budget: B.Budget, user: string, request: Request, call: nat, pc: nat, s: B.State): B.State {
    var a :=
      if pc == 0 then B.Enqueue(call, user, request.requestId, request.estimate)
      else if pc == 1 then B.Check(call)
      else B.MarkFailed(call);
    if B.Enabled(s, a) then B.Perform(budget, s, a) else s
  }

  function Reserving(budget: B.Budget, request: nat -> Request): (string, nat, nat, B.State) -> B.State {
    (user: string, call: nat, pc: nat, s) => Reserve(budget, user, request(call), call, pc, s)
  }

  lemma SpentOfMore(tasks: seq<B.Task>, t: B.Task)
    ensures B.Spent(tasks + [t], t.user) == B.Spent(tasks, t.user) + B.Counted(t)
  {
  }

  lemma FailLast(tasks: seq<B.Task>, t: B.Task)
    ensures B.Spent((tasks + [t])[|tasks| := t.(status := B.Failed)], t.user) == B.Spent(tasks, t.user)
  {
  }

  // The three steps of one reservation, without interruption.
  function Reserved(budget: B.Budget, user: string, request: Request, call: nat, s: B.State): B.State {
    Reserve(budget, user, request, call, 2, Reserve(budget, user, request, call, 1, Reserve(budget, user, request, call, 0, s)))
  }

  function CostOf(estimate: Option<real>): real {
    if estimate.Some? && estimate.value > 0.0 then estimate.value else 0.0
  }

  // A new request that runs alone is admitted exactly when no budget is configured,
  // or it has a price, a user, and a finite positive budget in which it fits beside
  // what is spent; and it costs nothing when it is rejected.
  lemma AloneAdmitsWhatFits(budget: B.Budget, user: string, request: Request, call: nat, s: B.State)
    requires call !in s.calls && B.Find(s.tasks, user, request.requestId).None?
    ensures var s', cost := Reserved(budget, user, request, call, s), CostOf(request.estimate);
            var fits := budget.Unlimited? || (budget.Amount? && budget.usd > 0.0 && user != "" && request.estimate.Some?
                          && B.Spent(s.tasks, user) + cost <= budget.usd);
            && s'.calls == s.calls[call := if fits then B.Admitted(|s.tasks|) else B.Rejected(|s.tasks|)]
            && B.Spent(s'.tasks, user) == B.Spent(s.tasks, user) + if fits then cost else 0.0
  {
    hide B.Spent, B.Find;
    var t := B.Task(user, request.requestId, request.estimate, B.Pending);
    SpentOfMore(s.tasks, t);
    FailLast(s.tasks, t);
    var s1 := Reserve(budget, user, request, call, 0, s);
    assert s1.tasks == s.tasks + [t];
    var s2 := Reserve(budget, user, request, call, 1, s1);
    var s3 := Reserve(budget, user, request, call, 2, s2);
  }

  // In one process, when the reservations of a user have finished, whatever the
  // interleaving, the tasks and verdicts are those of one reservation after the
  // other in arrival order.
  lemma ReservationsRunOneByOne(budget: B.Budget, request: nat -> Request, actions: seq<Action>)
    requires Run(System(IDLE, map[]), actions, 3, Reserving(budget, request), B.EMPTY).Some?
    ensures var s := Run(System(IDLE, map[]), actions, 3, Reserving(budget, request), B.EMPTY).value;
            forall u | AllDone(s.calls, u) ::
              Read(s.world, u, B.EMPTY) == Reservations(s.calls.keys, u, |s.calls.keys|, budget, request)
  {
    hide Run, AllDone;
    RunsAreSerial(actions, 3, Reserving(budget, request), B.EMPTY);
    var s := Run(System(IDLE, map[]), actions, 3, Reserving(budget, request), B.EMPTY).value;
    forall u | AllDone(s.calls, u)
      ensures Read(s.world, u, B.EMPTY) == Reservations(s.calls.keys, u, |s.calls.keys|, budget, request)
    {
      ReservationsOneByOne(s.calls.keys, u, |s.calls.keys|, budget, request);
    }
  }

  // The reservations among the first `n` calls that are for `u`, in turn.
  function Reservations(keys: seq<string>, u: string, n: nat, budget: B.Budget, request: nat -> Request): B.State
    requires n <= |keys|
  {
    if n == 0 then B.EMPTY
    else
      var before := Reservations(keys, u, n - 1, budget, request);
      if keys[n - 1] == u then Reserved(budget, u, request(n - 1), n - 1, before) else before
  }

  lemma {:induction false} ReservationsOneByOne(keys: seq<string>, u: string, n: nat, budget: B.Budget,
                                                request: nat -> Request)
    requires n <= |keys|
    ensures OneByOne(keys, u, n, 3, Reserving(budget, request), B.EMPTY) == Reservations(keys, u, n, budget, request)
  {
    hide Reserve;
    if n != 0 {
      ReservationsOneByOne(keys, u, n - 1, budget, request);
      var step, before := Reserving(budget, request), Reservations(keys, u, n - 1, budget, request);
      ThreeSteps(u, n - 1, step, before);
    }
  }

  // ---- `applyChains` -------------------------------------------------------

  // A succeeded task: its `applied` marker, the edits its results have made to
  // the record, the edits whose marker could not be written, and the calls that
  // have found the task not yet applied.
  datatype Outcome = Outcome(applied: bool, edits: nat, unmarked: nat, going: set<nat>)

  const FRESH := Outcome(false, 0, 0, {})

  // What happens to a call: everything up to the edit can fail, and so can what
  // follows the edit up to the marker.
  datatype Fate = Fate(edited: bool, marked: bool)

  // `applyResultLocked`: read the task, edit the record, write the marker.
  function Apply(fate: Fate, call: nat, pc: nat, o: Outcome): Outcome {
    if pc == 0 then if o.applied then o else o.(going := o.going + {call})
    else if call !in o.going then o
    else if pc == 1 then if fate.edited then o.(edits := o.edits + 1) else o.(going := o.going - {call})
    else if fate.marked then o.(applied := true) else o.(unmarked := o.unmarked + 1)
  }

  function Applying(fate: nat -> Fate): (string, nat, nat, Outcome) -> Outcome {
    (task: string, call: nat, pc: nat, o) => Apply(fate(call), call, pc, o)
  }

  ghost predicate Accounted(o: Outcome, n: nat) {
    o.edits == o.unmarked + (if o.applied then 1 else 0) && forall call | call in o.going :: call < n
  }

  lemma {:induction false} OneByOneAccounted(keys: seq<string>, task: string, n: nat, fate: nat -> Fate)
    requires n <= |keys|
    ensures Accounted(OneByOne(keys, task, n, 3, Applying(fate), FRESH), n)
  {
    if n != 0 {
      OneByOneAccounted(keys, task, n - 1, fate);
      var before := OneByOne(keys, task, n - 1, 3, Applying(fate), FRESH);
      AloneAccounted(task, n - 1, fate, before);
    }
  }

  lemma AloneAccounted(task: string, call: nat, fate: nat -> Fate, o: Outcome)
    requires Accounted(o, call)
    ensures Accounted(Section(task, call, 3, Applying(fate), o), call + 1)
  {
    ThreeSteps(task, call, Applying(fate), o);
    var o1 := Apply(fate(call), call, 0, o);
    var o2 := Apply(fate(call), call, 1, o1);
    assert Section(task, call, 3, Applying(fate), o) == Apply(fate(call), call, 2, o2);
  }

  // A call that runs alone edits a task that is not applied, and marks it applied
  // when nothing fails; a task that is applied stays as it is.
  lemma AloneApplies(task: string, call: nat, fate: nat -> Fate, o: Outcome)
    requires call !in o.going
    ensures var after, f := Section(task, call, 3, Applying(fate), o), fate(call);
            if o.applied then after == o
            else
              && after.edits == o.edits + (if f.edited then 1 else 0)
              && after.applied == (f.edited && f.marked)
              && after.unmarked == o.unmarked + (if f.edited && !f.marked then 1 else 0)
  {
    ThreeSteps(task, call, Applying(fate), o);
    var o1 := Apply(fate(call), call, 0, o);
    var o2 := Apply(fate(call), call, 1, o1);
    assert Section(task, call, 3, Applying(fate), o) == Apply(fate(call), call, 2, o2);
  }

  // A call that is inside has made the edit, and the marker is still to come.
  ghost predicate Editing(c: Calls, task: string, o: Outcome) {
    exists i | 0 <= i < |c.keys| && i < |c.stages| && c.keys[i] == task :: c.stages[i] == Inside(2) && i in o.going
  }

  // The outcome when `pc` steps of a call are made.
  ghost predicate PartlyAccounted(o: Outcome, call: nat, pc: nat) {
    && o.edits == o.unmarked + (if o.applied || (pc == 2 && call in o.going) then 1 else 0)
    && (pc == 2 && call in o.going ==> !o.applied)
  }

  lemma PartAccounted(task: string, call: nat, pc: nat, fate: nat -> Fate, o: Outcome)
    requires Accounted(o, call) && pc <= 3
    ensures PartlyAccounted(Section(task, call, pc, Applying(fate), o), call, pc)
  {
    ThreeSteps(task, call, Applying(fate), o);
    var o1 := Apply(fate(call), call, 0, o);
    var o2 := Apply(fate(call), call, 1, o1);
    assert Section(task, call, 1, Applying(fate), o) == o1 && Section(task, call, 2, Applying(fate), o) == o2;
    assert Section(task, call, 3, Applying(fate), o) == Apply(fate(call), call, 2, o2);
  }

  lemma OneIsEditing<S>(s: System<S>, i: nat, task: string, o: Outcome)
    requires Exclusive(s.calls) && i < |s.calls.keys| && s.calls.keys[i] == task && s.calls.stages[i].Inside?
    ensures Editing(s.calls, task, o) <==> s.calls.stages[i] == Inside(2) && i in o.going
  {
    forall j | 0 <= j < |s.calls.keys| && s.calls.keys[j] == task && s.calls.stages[j].Inside?
      ensures j == i
    {
    }
  }

  // At every moment, however the calls for a task interleave: each edit of the
  // record is the one that the marker stands for, or the one whose marker a call is
  // about to write, never both, or one whose marker could not be written.
  lemma EditsAreMarked(fate: nat -> Fate, actions: seq<Action>)
    requires Run(System(IDLE, map[]), actions, 3, Applying(fate), FRESH).Some?
    ensures var s := Run(System(IDLE, map[]), actions, 3, Applying(fate), FRESH).value;
            forall task ::
              var o := Read(s.world, task, FRESH);
              && o.edits == o.unmarked + (if o.applied || Editing(s.calls, task, o) then 1 else 0)
              && !(o.applied && Editing(s.calls, task, o))
  {
    hide Run, AllDone, OneByOne, Section, Editing, Accounted, PartlyAccounted;
    RunsAreSerial(actions, 3, Applying(fate), FRESH);
    var s := Run(System(IDLE, map[]), actions, 3, Applying(fate), FRESH).value;
    forall task
      ensures var o := Read(s.world, task, FRESH);
              && o.edits == o.unmarked + (if o.applied || Editing(s.calls, task, o) then 1 else 0)
              && !(o.applied && Editing(s.calls, task, o))
    {
      MomentAccounted(s, task, fate);
    }
  }

  lemma MomentAccounted(s: System<Outcome>, task: string, fate: nat -> Fate)
    requires Exclusive(s.calls) && InTurn(s, task, 3, Applying(fate), FRESH)
    ensures var o := Read(s.world, task, FRESH);
            && o.edits == o.unmarked + (if o.applied || Editing(s.calls, task, o) then 1 else 0)
            && !(o.applied && Editing(s.calls, task, o))
  {
    hide OneByOne, Section, Exclusive, AllFinished;
    var o, keys := Read(s.world, task, FRESH), s.calls.keys;
    if i :| 0 <= i < |keys| && keys[i] == task && s.calls.stages[i].Inside? && s.calls.stages[i].pc <= 3
            && InsideCurrent(s, i, 3, Applying(fate), FRESH) {
      OneByOneAccounted(keys, task, i, fate);
      PartAccounted(task, i, s.calls.stages[i].pc, fate, OneByOne(keys, task, i, 3, Applying(fate), FRESH));
      OneIsEditing(s, i, task, o);
    } else {
      var n: nat :| n <= |keys| && Between(s.calls, task, n) && BetweenCurrent(s, task, n, 3, Applying(fate), FRESH);
      OneByOneAccounted(keys, task, n, fate);
      NoneIsEditing(s.calls, task, n, o);
    }
  }

  lemma NoneIsEditing(c: Calls, task: string, n: nat, o: Outcome)
    requires |c.stages| == |c.keys| && n <= |c.keys| && Between(c, task, n)
    ensures !Editing(c, task, o)
  {
  }
}
