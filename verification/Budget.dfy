// `reserveWithinBudget` and `assertMonthlyBudget`: a reservation is recorded
// first and the sum of all reservations is checked afterwards, by any number of
// processes that share one task store.
module Budget {
  import opened Prelude

  datatype Status = Pending | Running | Succeeded | Failed | Cancelled

  // A task of the current month. The store holds one task for each user and
  // request identifier, whatever the number of times it is submitted.
  datatype Task = Task(user: string, requestId: string, cost: Option<real>, status: Status)

  // The configured amount: absent, not a finite number, or a number.
  datatype Budget = Unlimited | NotFinite | Amount(usd: real)

  datatype Refusal = InvalidBudget | NotAuthenticated | NoPrice | WouldExceed

  function Counted(t: Task): (c: real)
    ensures c >= 0.0
  {
    if t.status == Failed || t.cost.None? || t.cost.value <= 0.0 then 0.0 else t.cost.value
  }

  // The part of the tasks in `among` in the spending of `user`.
  function Share(tasks: seq<Task>, user: string, among: set<nat>): (total: real)
    ensures total >= 0.0
  {
    if tasks == [] then 0.0
    else
      var last := |tasks| - 1;
      Share(tasks[..last], user, among) + if last in among && tasks[last].user == user then Counted(tasks[last]) else 0.0
  }

  function Spent(tasks: seq<Task>, user: string): (total: real)
    ensures total >= 0.0
  {
    if tasks == [] then 0.0
    else
      var last := |tasks| - 1;
      Spent(tasks[..last], user) + if tasks[last].user == user then Counted(tasks[last]) else 0.0
  }

  predicate Listed(tasks: seq<Task>, user: string, id: nat) {
    id < |tasks| && tasks[id].user == user
  }

  function Verdict(budget: Budget, tasks: seq<Task>, user: string, estimate: Option<real>,
                   reservation: nat): Option<Refusal> {
    if budget.Unlimited? then None
    else if budget.NotFinite? || budget.usd <= 0.0 then Some(InvalidBudget)
    else if user == "" then Some(NotAuthenticated)
    else if estimate.None? then Some(NoPrice)
    else
      var projected := Spent(tasks, user) + if Listed(tasks, user, reservation) then 0.0 else estimate.value;
      if projected > budget.usd then Some(WouldExceed) else None
  }

  // `assertMonthlyBudget`, by the loops over the listed tasks.
  method AssertMonthlyBudget(budget: Budget, tasks: seq<Task>, user: string, estimate: Option<real>, reservation: nat)
    returns (refusal: Option<Refusal>)
    ensures refusal == Verdict(budget, tasks, user, estimate, reservation)
  {
    if budget.Unlimited? {
      return None;
    }
    if budget.NotFinite? || budget.usd <= 0.0 {
      return Some(InvalidBudget);
    }
    if user == "" {
      return Some(NotAuthenticated);
    }
    if estimate.None? {
      return Some(NoPrice);
    }
    var spent, reservationCounted, i := 0.0, false, 0;
    while i < |tasks|
      invariant 0 <= i <= |tasks|
      invariant spent == Spent(tasks[..i], user)
      invariant reservationCounted <==> reservation < i && tasks[reservation].user == user
    {
      assert tasks[..i + 1][..i] == tasks[..i];
      if tasks[i].user == user {
        if tasks[i].status != Failed && tasks[i].cost.Some? && tasks[i].cost.value > 0.0 {
          spent := spent + tasks[i].cost.value;
        }
        reservationCounted := reservationCounted || i == reservation;
      }
      i := i + 1;
    }
    assert tasks[..i] == tasks;
    var projected := if reservationCounted then spent else spent + estimate.value;
    return if projected > budget.usd then Some(WouldExceed) else None;
  }

  // ---- the protocol --------------------------------------------------------

  // Where one call of `reserveWithinBudget` stands: recorded, refused by the
  // check but not yet marked failed, or finished one way or the other.
  datatype Phase =
    | Reserved(task: nat, estimate: Option<real>)
    | Refused(task: nat)
    | Rejected(task: nat)
    | Admitted(task: nat)

  // `admitted` and `revived` are history: the tasks that some call admitted, and
  // the tasks that some write has taken out of `failed` again.
  datatype State = State(tasks: seq<Task>, calls: map<nat, Phase>, admitted: set<nat>, revived: set<nat>)

  const EMPTY := State([], map[], {}, {})

  // The store's operations as the calls interleave. `Write` stands for every
  // status write outside the protocol: claim, submission, provider result,
  // cancellation, polling timeout, applying a result. `expected` is the guard of
  // a write that carries one.
  datatype Action =
    | Enqueue(call: nat, user: string, requestId: string, estimate: Option<real>)
    | Check(call: nat)
    | MarkFailed(call: nat)
    | Write(task: nat, status: Status, expected: Option<set<Status>>)

  predicate Enabled(s: State, a: Action) {
    match a
    case Enqueue(call, _, _, _) => call !in s.calls
    case Check(call) => call in s.calls && s.calls[call].Reserved? && s.calls[call].task < |s.tasks|
    case MarkFailed(call) => call in s.calls && s.calls[call].Refused? && s.calls[call].task < |s.tasks|
    case Write(task, _, _) => task < |s.tasks|
  }

  function Find(tasks: seq<Task>, user: string, requestId: string, from: nat := 0): (id: Option<nat>)
    requires from <= |tasks|
    ensures id.Some? ==> from <= id.value < |tasks| && tasks[id.value].user == user
    decreases |tasks| - from
  {
    if from == |tasks| then None
    else if tasks[from].user == user && tasks[from].requestId == requestId then Some(from)
    else Find(tasks, user, requestId, from + 1)
  }

  function SetStatus(s: State, task: nat, status: Status): State
    requires task < |s.tasks|
  {
    var revives := s.tasks[task].status == Failed && status != Failed;
    s.(tasks := s.tasks[task := s.tasks[task].(status := status)], revived := if revives then s.revived + {task} else s.revived)
  }

  function Perform(budget: Budget, s: State, a: Action): State
    requires Enabled(s, a)
  {
    match a
    case Enqueue(call, user, requestId, estimate) =>
      var existing := Find(s.tasks, user, requestId);
      if existing.Some? then s.(calls := s.calls[call := Reserved(existing.value, estimate)])
      else s.(tasks := s.tasks + [Task(user, requestId, estimate, Pending)], calls := s.calls[call := Reserved(|s.tasks|, estimate)])
    case Check(call) =>
      var task, estimate := s.calls[call].task, s.calls[call].estimate;
      if Verdict(budget, s.tasks, s.tasks[task].user, estimate, task).Some? then s.(calls := s.calls[call := Refused(task)])
      else s.(calls := s.calls[call := Admitted(task)], admitted := s.admitted + {task})
    case MarkFailed(call) =>
      var task := s.calls[call].task;
      var s' := SetStatus(s, task, Failed);
      s'.(calls := s'.calls[call := Rejected(task)])
    case Write(task, status, expected) =>
      if expected.None? || s.tasks[task].status in expected.value then SetStatus(s, task, status) else s
  }

  // What a sequence of actions leads to, when each is possible in its turn.
  function Run(budget: Budget, s: State, actions: seq<Action>): Option<State>
    decreases |actions|
  {
    if actions == [] then Some(s)
    else if !Enabled(s, actions[0]) then None
    else Run(budget, Perform(budget, s, actions[0]), actions[1..])
  }

  // ---- sums ----------------------------------------------------------------

  predicate Below(tasks: seq<Task>, among: set<nat>, tasks': seq<Task>, among': set<nat>)
    requires |tasks| == |tasks'|
  {
    forall i: nat | i < |tasks| && i in among ::
      i in among' && tasks[i].user == tasks'[i].user && Counted(tasks[i]) <= Counted(tasks'[i])
  }

  lemma {:induction false} ShareBelow(tasks: seq<Task>, among: set<nat>, tasks': seq<Task>, among': set<nat>,
                                      user: string)
    requires |tasks| == |tasks'| && Below(tasks, among, tasks', among')
    ensures Share(tasks, user, among) <= Share(tasks', user, among')
  {
    hide Counted;
    if tasks != [] {
      var last := |tasks| - 1;
      ShareBelow(tasks[..last], among, tasks'[..last], among', user);
    }
  }

  lemma {:induction false} ShareOfAll(tasks: seq<Task>, among: set<nat>, user: string)
    ensures Share(tasks, user, among) <= Spent(tasks, user)
  {
    hide Counted;
    if tasks != [] {
      ShareOfAll(tasks[..|tasks| - 1], among, user);
    }
  }

  // ---- safety --------------------------------------------------------------

  function Cap(budget: Budget): real
    requires !budget.Unlimited?
  {
    if budget.Amount? && budget.usd > 0.0 then budget.usd else 0.0
  }

  ghost predicate WithinBudget(budget: Budget, tasks: seq<Task>, among: set<nat>)
    requires !budget.Unlimited?
  {
    forall user :: Share(tasks, user, among) <= Cap(budget)
  }

  ghost predicate RejectedAreFailed(s: State) {
    forall call | call in s.calls && s.calls[call].Rejected? ::
      s.calls[call].task < |s.tasks|
        && (s.tasks[s.calls[call].task].status == Failed || s.calls[call].task in s.revived)
  }

  ghost predicate WellFormed(s: State) {
    && (forall id | id in s.admitted :: id < |s.tasks|)
    && (forall call | call in s.calls :: s.calls[call].task < |s.tasks|)
  }

  ghost predicate Safe(budget: Budget, s: State)
    requires !budget.Unlimited?
  {
    WellFormed(s) && RejectedAreFailed(s) && WithinBudget(budget, s.tasks, s.admitted - s.revived)
  }

  lemma {:induction false} ShareOfOthers(tasks: seq<Task>, among: set<nat>, task: nat, user: string)
    requires task < |tasks| ==> tasks[task].user != user
    ensures Share(tasks, user, among + {task}) == Share(tasks, user, among)
  {
    hide Counted;
    if tasks != [] {
      ShareOfOthers(tasks[..|tasks| - 1], among, task, user);
    }
  }

  // The heart of the protocol: the reservation is in the store when its owner's
  // tasks are summed.
  lemma AdmittedWithinBudget(budget: Budget, tasks: seq<Task>, task: nat, estimate: Option<real>, among: set<nat>)
    requires !budget.Unlimited? && WithinBudget(budget, tasks, among) && task < |tasks|
    requires Verdict(budget, tasks, tasks[task].user, estimate, task).None?
    ensures WithinBudget(budget, tasks, among + {task})
  {
    hide Share, Spent;
    forall user
      ensures Share(tasks, user, among + {task}) <= Cap(budget)
    {
      if user == tasks[task].user {
        ShareOfAll(tasks, among + {task}, user);
      } else {
        ShareOfOthers(tasks, among, task, user);
      }
    }
  }

  lemma LessWithinBudget(budget: Budget, tasks: seq<Task>, among: set<nat>, tasks': seq<Task>, among': set<nat>)
    requires !budget.Unlimited? && WithinBudget(budget, tasks, among)
    requires |tasks'| == |tasks| && Below(tasks', among', tasks, among)
    ensures WithinBudget(budget, tasks', among')
  {
    hide Share, Cap, Below;
    forall user
      ensures Share(tasks', user, among') <= Cap(budget)
    {
      ShareBelow(tasks', among', tasks, among, user);
    }
  }

  lemma SetStatusKeepsSafe(budget: Budget, s: State, task: nat, status: Status)
    requires !budget.Unlimited? && Safe(budget, s) && task < |s.tasks|
    ensures Safe(budget, SetStatus(s, task, status))
  {
    hide WithinBudget;
    var s' := SetStatus(s, task, status);
    LessWithinBudget(budget, s.tasks, s.admitted - s.revived, s'.tasks, s'.admitted - s'.revived);
  }

  lemma EnqueueKeepsSafe(budget: Budget, s: State, a: Action)
    requires !budget.Unlimited? && a.Enqueue? && Enabled(s, a) && Safe(budget, s)
    ensures Safe(budget, Perform(budget, s, a))
  {
    hide WithinBudget;
    if Find(s.tasks, a.user, a.requestId).None? {
      ReservedWithinBudget(budget, s.tasks, Task(a.user, a.requestId, a.estimate, Pending), s.admitted - s.revived);
    }
  }

  // A reservation that nobody has admitted yet does not count.
  lemma ReservedWithinBudget(budget: Budget, tasks: seq<Task>, t: Task, among: set<nat>)
    requires !budget.Unlimited? && WithinBudget(budget, tasks, among) && |tasks| !in among
    ensures WithinBudget(budget, tasks + [t], among)
  {
    hide Cap;
    forall user
      ensures Share(tasks + [t], user, among) == Share(tasks, user, among)
    {
      assert (tasks + [t])[..|tasks|] == tasks;
    }
  }

  lemma CheckKeepsSafe(budget: Budget, s: State, a: Action)
    requires !budget.Unlimited? && a.Check? && Enabled(s, a) && Safe(budget, s)
    ensures Safe(budget, Perform(budget, s, a))
  {
    hide WithinBudget, Verdict;
    var s' := Perform(budget, s, a);
    var task, estimate, counting := s.calls[a.call].task, s.calls[a.call].estimate, s.admitted - s.revived;
    if Verdict(budget, s.tasks, s.tasks[task].user, estimate, task).None? {
      AdmittedWithinBudget(budget, s.tasks, task, estimate, counting);
      if task in s.revived {
        assert s'.admitted - s'.revived == counting;
      } else {
        assert s'.admitted - s'.revived == counting + {task};
      }
    }
  }

  lemma ActionKeepsSafe(budget: Budget, s: State, a: Action)
    requires !budget.Unlimited? && Enabled(s, a) && Safe(budget, s)
    ensures Safe(budget, Perform(budget, s, a))
  {
    hide WithinBudget;
    match a
    case Enqueue(_, _, _, _) => EnqueueKeepsSafe(budget, s, a);
    case Check(_) => CheckKeepsSafe(budget, s, a);
    case MarkFailed(call) => SetStatusKeepsSafe(budget, s, s.calls[call].task, Failed);
    case Write(task, status, _) => SetStatusKeepsSafe(budget, s, task, status);
  }

  lemma {:induction false} RunKeepsSafe(budget: Budget, s: State, actions: seq<Action>)
    requires !budget.Unlimited? && Safe(budget, s) && Run(budget, s, actions).Some?
    ensures Safe(budget, Run(budget, s, actions).value)
    decreases |actions|
  {
    hide Safe, Perform, Enabled;
    if actions != [] {
      ActionKeepsSafe(budget, s, actions[0]);
      RunKeepsSafe(budget, Perform(budget, s, actions[0]), actions[1..]);
    }
  }

  lemma StartIsSafe(budget: Budget)
    requires !budget.Unlimited?
    ensures Safe(budget, EMPTY)
  {
  }

  // In every interleaving, the admitted tasks of a user that have not failed
  // stay within the budget, and what was rejected is failed, except for tasks
  // that a write from outside has taken out of `failed`.
  lemma AlwaysWithinBudget(budget: Budget, actions: seq<Action>)
    requires !budget.Unlimited? && Run(budget, EMPTY, actions).Some?
    ensures var s := Run(budget, EMPTY, actions).value;
            && (forall user :: Share(s.tasks, user, s.admitted - s.revived) <= Cap(budget))
            && (forall call | call in s.calls && s.calls[call].Rejected? ::
                  var task := s.calls[call].task;
                  task < |s.tasks| && (s.tasks[task].status == Failed || task in s.revived))
  {
    hide Run, Cap;
    StartIsSafe(budget);
    RunKeepsSafe(budget, EMPTY, actions);
  }

  // ---- what an admitted call has shown --------------------------------------

  // The call was made with a price, for somebody, whose task it reserves.
  ghost predicate Priced(s: State, call: nat, made: seq<Action>) {
    call in s.calls && exists a :: a in made && MadeFor(s, call, a) && a.user != "" && a.estimate.Some?
  }

  // This action has made the call, for the user who owns its task.
  predicate MadeFor(s: State, call: nat, a: Action) {
    a.Enqueue? && a.call == call && call in s.calls && Listed(s.tasks, a.user, s.calls[call].task)
  }

  ghost predicate AsMade(s: State, made: seq<Action>) {
    && (forall call | call in s.calls :: s.calls[call].task < |s.tasks|)
    && (forall call | call in s.calls && s.calls[call].Reserved? ::
          exists a :: a in made && MadeFor(s, call, a) && a.estimate == s.calls[call].estimate)
    && (forall call | call in s.calls && s.calls[call].Admitted? :: Priced(s, call, made))
  }

  lemma ActionKeepsMade(budget: Budget, s: State, a: Action, made: seq<Action>)
    requires !budget.Unlimited? && AsMade(s, made) && Enabled(s, a)
    ensures AsMade(Perform(budget, s, a), made + [a])
  {
    hide Spent;
    var s' := Perform(budget, s, a);
    assert forall b :: b in made + [a] <==> b in made || b == a;
    forall id: nat | id < |s.tasks|
      ensures id < |s'.tasks| && s'.tasks[id].user == s.tasks[id].user
    {
    }
    forall call | call in s'.calls && s'.calls[call].Admitted?
      ensures Priced(s', call, made + [a])
    {
      if a.Check? && a.call == call {
        var b :| b in made && MadeFor(s, call, b) && b.estimate == s.calls[call].estimate;
        assert b in made + [a] && MadeFor(s', call, b);
      } else {
        assert Priced(s, call, made);
      }
    }
  }

  lemma {:induction false} RunKeepsMade(budget: Budget, s: State, actions: seq<Action>, made: seq<Action>)
    requires !budget.Unlimited? && AsMade(s, made) && Run(budget, s, actions).Some?
    ensures AsMade(Run(budget, s, actions).value, made + actions)
    decreases |actions|
  {
    hide AsMade, Perform, Enabled;
    if actions == [] {
      assert made + actions == made;
    } else {
      ActionKeepsMade(budget, s, actions[0], made);
      RunKeepsMade(budget, Perform(budget, s, actions[0]), actions[1..], made + [actions[0]]);
      assert made + [actions[0]] + actions[1..] == made + actions;
    }
  }

  lemma {:induction false} NoneAdmitted(budget: Budget, s: State, actions: seq<Action>)
    requires !budget.Unlimited? && (budget.NotFinite? || budget.usd <= 0.0) && Run(budget, s, actions).Some?
    requires forall call | call in s.calls :: !s.calls[call].Admitted?
    ensures forall call | call in Run(budget, s, actions).value.calls ::
      !Run(budget, s, actions).value.calls[call].Admitted?
    decreases |actions|
  {
    if actions != [] {
      NoneAdmitted(budget, Perform(budget, s, actions[0]), actions[1..]);
    }
  }

  // In every run with a configured budget, a call that ends admitted was made with a
  // price, for a user who is named and owns the task, under a finite positive budget.
  lemma AdmittedWasPriced(budget: Budget, actions: seq<Action>, call: nat)
    requires !budget.Unlimited? && Run(budget, EMPTY, actions).Some?
    requires var s := Run(budget, EMPTY, actions).value;
             call in s.calls && s.calls[call].Admitted?
    ensures budget.Amount? && budget.usd > 0.0
    ensures var s := Run(budget, EMPTY, actions).value;
            exists a :: a in actions && MadeFor(s, call, a) && a.user != "" && a.estimate.Some?
  {
    hide Run;
    RunKeepsMade(budget, EMPTY, actions, []);
    assert [] + actions == actions;
    if budget.NotFinite? || budget.usd <= 0.0 {
      NoneAdmitted(budget, EMPTY, actions);
    }
  }

  // A check before the task is recorded decides what a check behind that does.
  lemma CheckedBeforeOrBehind(budget: Budget, tasks: seq<Task>, user: string, requestId: string, cost: real)
    requires cost >= 0.0
    ensures var t := Task(user, requestId, Some(cost), Pending);
            Verdict(budget, tasks, user, Some(cost), |tasks|) == Verdict(budget, tasks + [t], user, Some(cost), |tasks|)
  {
    var t := Task(user, requestId, Some(cost), Pending);
    assert (tasks + [t])[..|tasks|] == tasks;
  }

  // A write that leaves failed tasks alone, as the guard of
  // `applyProviderResult` does, or that only fails tasks.
  predicate Careful(a: Action) {
    a.Write? ==> a.status == Failed || (a.expected.Some? && Failed !in a.expected.value)
  }

  lemma {:induction false} CarefulRunsReviveNothing(budget: Budget, s: State, actions: seq<Action>)
    requires Run(budget, s, actions).Some? && forall a | a in actions :: Careful(a)
    ensures Run(budget, s, actions).value.revived == s.revived
    decreases |actions|
  {
    hide Verdict, Find;
    if actions != [] {
      assert Careful(actions[0]);
      CarefulRunsReviveNothing(budget, Perform(budget, s, actions[0]), actions[1..]);
    }
  }

  // With careful writes the bound has no exception.
  lemma CarefulRunsStayWithinBudget(budget: Budget, actions: seq<Action>)
    requires !budget.Unlimited? && Run(budget, EMPTY, actions).Some? && forall a | a in actions :: Careful(a)
    ensures var s := Run(budget, EMPTY, actions).value;
            && (forall user :: Share(s.tasks, user, s.admitted) <= Cap(budget))
            && (forall call | call in s.calls && s.calls[call].Rejected? ::
                  s.calls[call].task < |s.tasks| && s.tasks[s.calls[call].task].status == Failed)
  {
    hide Run, Cap;
    AlwaysWithinBudget(budget, actions);
    CarefulRunsReviveNothing(budget, EMPTY, actions);
    var s := Run(budget, EMPTY, actions).value;
    assert s.admitted - s.revived == s.admitted;
  }

  // ---- which writes are safe ------------------------------------------------

  // Of the writes that are not careful, only those of one shape.
  predicate OnlyWrites(actions: seq<Action>, status: Status, expected: Option<set<Status>>) {
    forall a | a in actions :: Careful(a) || (a.status == status && a.expected == expected)
  }

  ghost predicate AlwaysKept(budget: Budget, status: Status, expected: Option<set<Status>>)
    requires !budget.Unlimited?
  {
    forall actions | Run(budget, EMPTY, actions).Some? && OnlyWrites(actions, status, expected) ::
      var s := Run(budget, EMPTY, actions).value;
      WithinBudget(budget, s.tasks, s.admitted)
  }

  // A budget that is not positive admits nothing.
  lemma {:induction false} NothingAdmitted(budget: Budget, s: State, actions: seq<Action>)
    requires !budget.Unlimited? && (budget.NotFinite? || budget.usd <= 0.0) && Run(budget, s, actions).Some?
    ensures Run(budget, s, actions).value.admitted == s.admitted
    decreases |actions|
  {
    if actions != [] {
      NothingAdmitted(budget, Perform(budget, s, actions[0]), actions[1..]);
    }
  }

  lemma {:induction false} ShareOfNone(tasks: seq<Task>, user: string)
    ensures Share(tasks, user, {}) == 0.0
  {
    if tasks != [] {
      ShareOfNone(tasks[..|tasks| - 1], user);
    }
  }

  // Writes of one shape, by whatever call and to whatever task, keep every run
  // within the budget exactly when the shape is careful; or when the budget admits
  // nothing at all. `running` after the submission and `cancelled` carry no guard.
  lemma WritesAreSafeExactly(budget: Budget, status: Status, expected: Option<set<Status>>)
    requires !budget.Unlimited?
    ensures AlwaysKept(budget, status, expected) <==>
      Careful(Write(0, status, expected)) || budget.NotFinite? || budget.usd <= 0.0
  {
    hide Run;
    if Careful(Write(0, status, expected)) {
      forall actions | Run(budget, EMPTY, actions).Some? && OnlyWrites(actions, status, expected)
        ensures var s := Run(budget, EMPTY, actions).value; WithinBudget(budget, s.tasks, s.admitted)
      {
        CarefulRunsStayWithinBudget(budget, actions);
      }
    } else if budget.NotFinite? || budget.usd <= 0.0 {
      forall actions | Run(budget, EMPTY, actions).Some? && OnlyWrites(actions, status, expected)
        ensures var s := Run(budget, EMPTY, actions).value; WithinBudget(budget, s.tasks, s.admitted)
      {
        NothingAdmitted(budget, EMPTY, actions);
        NoShare(budget, Run(budget, EMPTY, actions).value.tasks);
      }
    } else {
      var usd, w := budget.usd, Write(0, status, expected);
      UnguardedWriteOverspends(usd, "u", "a", "b", usd, usd, w);
      var actions := Overspending("u", "a", "b", usd, usd, w);
      assert OnlyWrites(actions, status, expected);
      assert Cap(budget) == usd;
    }
  }

  lemma NoShare(budget: Budget, tasks: seq<Task>)
    requires !budget.Unlimited?
    ensures WithinBudget(budget, tasks, {})
  {
    forall user
      ensures Share(tasks, user, {}) <= Cap(budget)
    {
      ShareOfNone(tasks, user);
    }
  }

  // Two processes submit the same request; the second one's check finds the
  // budget taken and fails the task that the first one is already submitting.
  // A third request is admitted, and then a write without a guard against
  // `failed` comes to the first task: the first process writes `running`, or the
  // user's cancellation arrives.
  function Overspending(user: string, r0: string, r1: string, c0: real, c1: real, last: Action): seq<Action> {
    [Enqueue(1, user, r0, Some(c0)), Enqueue(2, user, r0, Some(c0)), Check(1), Write(0, Running, Some({Pending})),
     Enqueue(3, user, r1, Some(c1)), Check(2), MarkFailed(2), Check(3), last]
  }

  lemma OneTask(t: Task, requestId: string)
    ensures Find([t], t.user, requestId) == if t.requestId == requestId then Some(0) else None
    ensures Spent([t], t.user) == Counted(t)
  {
  }

  lemma TwoTasks(a: Task, b: Task)
    requires a.user == b.user
    ensures Spent([a, b], a.user) == Share([a, b], a.user, {0, 1}) == Counted(a) + Counted(b)
  {
    assert [a, b][..1] == [a] && [a][..0] == [];
    assert Share([a], a.user, {0, 1}) == Counted(a) && Spent([a], a.user) == Counted(a);
  }

  lemma RunStep(budget: Budget, s: State, actions: seq<Action>, i: nat)
    requires i < |actions| && Enabled(s, actions[i])
    ensures Run(budget, s, actions[i..]) == Run(budget, Perform(budget, s, actions[i]), actions[i + 1..])
  {
  }

  // The first half: one request admitted and claimed, the same request and
  // another one reserved.
  lemma OverspendingStarts(usd: real, user: string, r0: string, r1: string, c0: real, c1: real, last: Action)
    returns (s: State)
    requires user != "" && r0 != r1 && 0.0 < c0 <= usd
    ensures Run(Amount(usd), EMPTY, Overspending(user, r0, r1, c0, c1, last)) ==
      Run(Amount(usd), s, Overspending(user, r0, r1, c0, c1, last)[5..])
    ensures s.tasks == [Task(user, r0, Some(c0), Running), Task(user, r1, Some(c1), Pending)]
    ensures s.calls.Keys == {1, 2, 3} && s.calls[2] == Reserved(0, Some(c0)) && s.calls[3] == Reserved(1, Some(c1))
    ensures s.admitted == {0}
  {
    hide Run, Find, Spent, Share;
    var b, a, t := Amount(usd), Overspending(user, r0, r1, c0, c1, last), Task(user, r0, Some(c0), Pending);
    assert Find([], user, r0).None? by { EmptyStore(user, r0); }
    OneTask(t, r0);
    OneTask(t.(status := Running), r1);
    assert a[0..] == a;
    s := EMPTY;
    RunStep(b, s, a, 0);
    s := Perform(b, s, a[0]);
    assert s.tasks == [t];
    RunStep(b, s, a, 1);
    s := Perform(b, s, a[1]);
    RunStep(b, s, a, 2);
    s := Perform(b, s, a[2]);
    RunStep(b, s, a, 3);
    s := Perform(b, s, a[3]);
    assert s.tasks == [t.(status := Running)];
    RunStep(b, s, a, 4);
    s := Perform(b, s, a[4]);
  }

  lemma EmptyStore(user: string, requestId: string)
    ensures Find([], user, requestId).None?
  {
  }

  lemma OverspendingEnds(usd: real, user: string, r0: string, r1: string, c0: real, c1: real, last: Action, s: State)
    returns (end: State)
    requires user != "" && 0.0 < c0 && 0.0 < c1 <= usd && c0 + c1 > usd
    requires s.tasks == [Task(user, r0, Some(c0), Running), Task(user, r1, Some(c1), Pending)]
    requires s.calls.Keys == {1, 2, 3} && s.calls[2] == Reserved(0, Some(c0)) && s.calls[3] == Reserved(1, Some(c1))
    requires s.admitted == {0} && last.Write? && last.task == 0 && !Careful(last)
    ensures Run(Amount(usd), s, Overspending(user, r0, r1, c0, c1, last)[5..]) == Some(end)
    ensures end.tasks == s.tasks[0 := s.tasks[0].(status := last.status)] && end.admitted == {0, 1}
  {
    hide Spent, Share, Find;
    var b, a := Amount(usd), Overspending(user, r0, r1, c0, c1, last);
    var t0, t1 := s.tasks[0], s.tasks[1];
    TwoTasks(t0, t1);
    TwoTasks(t0.(status := Failed), t1);
    end := s;
    RunStep(b, end, a, 5);
    end := Perform(b, end, a[5]);
    RunStep(b, end, a, 6);
    end := Perform(b, end, a[6]);
    assert end.tasks == [t0.(status := Failed), t1];
    RunStep(b, end, a, 7);
    end := Perform(b, end, a[7]);
    RunStep(b, end, a, 8);
    end := Perform(b, end, a[8]);
    assert end.tasks == [t0.(status := last.status), t1];
  }

  // Whenever two requests fit one by one but not together, this run admits both,
  // with any write that is not careful.
  lemma UnguardedWriteOverspends(usd: real, user: string, r0: string, r1: string, c0: real, c1: real, last: Action)
    requires last.Write? && last.task == 0 && !Careful(last)
    requires user != "" && r0 != r1 && 0.0 < c0 <= usd && 0.0 < c1 <= usd && c0 + c1 > usd
    ensures var r := Run(Amount(usd), EMPTY, Overspending(user, r0, r1, c0, c1, last));
            r.Some? && r.value.admitted == {0, 1} && Share(r.value.tasks, user, r.value.admitted) == c0 + c1
  {
    hide Run, Overspending;
    var s := OverspendingStarts(usd, user, r0, r1, c0, c1, last);
    var end := OverspendingEnds(usd, user, r0, r1, c0, c1, last, s);
    TwoTasks(end.tasks[0], end.tasks[1]);
  }
}
