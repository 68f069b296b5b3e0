// The task store that the reservations of all users share, as one user sees it:
// what the service does for one user there is what it does on that user's tasks.
module SharedStore {
  import opened Prelude
  import opened PromiseChain
  import opened ChainedSections
  import opened MediaChains
  import B = Budget

  // ---- the tasks of one user -----------------------------------------------

  function Own(tasks: seq<B.Task>, user: string): (own: seq<B.Task>)
    ensures |own| <= |tasks|
  {
    if tasks == [] then []
    else
      var last := |tasks| - 1;
      Own(tasks[..last], user) + if tasks[last].user == user then [tasks[last]] else []
  }

  // The number of a task among its user's.
  function Rank(tasks: seq<B.Task>, user: string, id: nat): nat
    requires id <= |tasks|
  {
    |Own(tasks[..id], user)|
  }

  predicate Of(tasks: seq<B.Task>, user: string, id: nat) {
    id < |tasks| && tasks[id].user == user
  }

  lemma {:induction false} OwnAt(tasks: seq<B.Task>, user: string, id: nat)
    requires Of(tasks, user, id)
    ensures Rank(tasks, user, id) < |Own(tasks, user)| && Own(tasks, user)[Rank(tasks, user, id)] == tasks[id]
  {
    var last := |tasks| - 1;
    if id < last {
      assert tasks[..last][..id] == tasks[..id];
      OwnAt(tasks[..last], user, id);
    }
  }

  lemma RankGrows(tasks: seq<B.Task>, user: string, i: nat, j: nat)
    requires Of(tasks, user, i) && i < j <= |tasks|
    ensures Rank(tasks, user, i) < Rank(tasks, user, j)
  {
    assert tasks[..j][..i] == tasks[..i];
    OwnAt(tasks[..j], user, i);
  }

  lemma {:induction false} Ranked(tasks: seq<B.Task>, user: string, k: nat) returns (id: nat)
    requires k < |Own(tasks, user)|
    ensures Of(tasks, user, id) && Rank(tasks, user, id) == k
  {
    var last := |tasks| - 1;
    if k < |Own(tasks[..last], user)| {
      id := Ranked(tasks[..last], user, k);
      assert tasks[..last][..id] == tasks[..id];
    } else {
      id := last;
    }
  }

  // A new task, and a task whose status is set.
  lemma OwnMore(tasks: seq<B.Task>, t: B.Task, user: string)
    ensures Own(tasks + [t], user) == Own(tasks, user) + if t.user == user then [t] else []
    ensures forall id: nat | id <= |tasks| :: Rank(tasks + [t], user, id) == Rank(tasks, user, id)
  {
    assert (tasks + [t])[..|tasks|] == tasks;
    forall id: nat | id <= |tasks|
      ensures (tasks + [t])[..id] == tasks[..id]
    {
    }
  }

  lemma {:induction false} OwnSet(tasks: seq<B.Task>, id: nat, t: B.Task, user: string)
    requires id < |tasks| && t.user == tasks[id].user
    ensures |Own(tasks[id := t], user)| == |Own(tasks, user)|
    ensures t.user == user ==> Rank(tasks, user, id) < |Own(tasks, user)|
    ensures Own(tasks[id := t], user)
      == if t.user == user then Own(tasks, user)[Rank(tasks, user, id) := t] else Own(tasks, user)
  {
    hide Own, Rank;
    var last := |tasks| - 1;
    var before, x := tasks[..last], tasks[last];
    assert tasks == before + [x];
    OwnMore(before, x, user);
    if id < last {
      assert tasks[id := t] == before[id := t] + [x];
      OwnMore(before[id := t], x, user);
      OwnSet(before, id, t, user);
      if t.user == user {
        SetBefore(Own(before, user), Rank(before, user, id), t, Own(tasks, user));
      }
    } else {
      assert tasks[id := t] == before + [t];
      OwnMore(before, t, user);
      RankOfAll(before, user);
    }
  }

  lemma SetBefore<T>(a: seq<T>, k: nat, t: T, whole: seq<T>)
    requires |a| <= |whole| && whole[..|a|] == a && k < |a|
    ensures whole[k := t] == a[k := t] + whole[|a|..]
  {
  }

  lemma RankSet(tasks: seq<B.Task>, id: nat, t: B.Task, user: string, i: nat)
    requires id < |tasks| && t.user == tasks[id].user && i <= |tasks|
    ensures Rank(tasks[id := t], user, i) == Rank(tasks, user, i)
  {
    if id < i {
      assert tasks[id := t][..i] == tasks[..i][id := t];
      OwnSet(tasks[..i], id, t, user);
    } else {
      assert tasks[id := t][..i] == tasks[..i];
    }
  }

  lemma {:induction false} SpentOfOwn(tasks: seq<B.Task>, user: string)
    ensures B.Spent(Own(tasks, user), user) == B.Spent(tasks, user)
  {
    hide B.Counted;
    if tasks != [] {
      var last := |tasks| - 1;
      var own := Own(tasks[..last], user);
      SpentOfOwn(tasks[..last], user);
      if tasks[last].user == user {
        SpentOfMore(own, tasks[last]);
      } else {
        assert Own(tasks, user) == own;
      }
    }
  }

  // ---- looking a task up ---------------------------------------------------

  predicate Fits(t: B.Task, user: string, requestId: string) {
    t.user == user && t.requestId == requestId
  }

  lemma {:induction false} FindMeans(tasks: seq<B.Task>, user: string, requestId: string, from: nat)
    requires from <= |tasks|
    ensures match B.Find(tasks, user, requestId, from)
            case Some(i) => i < |tasks| && Fits(tasks[i], user, requestId) && forall j | from <= j < i ::
              !Fits(tasks[j], user, requestId)
            case None => forall j | from <= j < |tasks| :: !Fits(tasks[j], user, requestId)
    decreases |tasks| - from
  {
    if from < |tasks| && !Fits(tasks[from], user, requestId) {
      FindMeans(tasks, user, requestId, from + 1);
    }
  }

  lemma FindOwn(tasks: seq<B.Task>, user: string, requestId: string)
    ensures match B.Find(tasks, user, requestId)
            case Some(i) => Of(tasks, user, i)
              && B.Find(Own(tasks, user), user, requestId) == Some(Rank(tasks, user, i))
            case None => B.Find(Own(tasks, user), user, requestId).None?
  {
    hide Own, Rank, B.Find;
    var own := Own(tasks, user);
    FindMeans(tasks, user, requestId, 0);
    FindMeans(own, user, requestId, 0);
    var found, mine := B.Find(tasks, user, requestId), B.Find(own, user, requestId);
    if found.Some? {
      OwnAt(tasks, user, found.value);
    }
    if mine.Some? {
      var id := Ranked(tasks, user, mine.value);
      OwnAt(tasks, user, id);
      if found.Some? && found.value < id {
        RankGrows(tasks, user, found.value, id);
      }
    }
  }

  lemma VerdictOfOwn(budget: B.Budget, tasks: seq<B.Task>, user: string, estimate: Option<real>, id: nat)
    requires Of(tasks, user, id)
    ensures B.Verdict(budget, Own(tasks, user), user, estimate, Rank(tasks, user, id)) ==
      B.Verdict(budget, tasks, user, estimate, id)
  {
    OwnAt(tasks, user, id);
    SpentOfOwn(tasks, user);
    hide Own, Rank, B.Spent;
  }

  // ---- the store as one user sees it ---------------------------------------

  function Ranks(tasks: seq<B.Task>, user: string, ids: set<nat>): set<nat> {
    set id | id in ids && Of(tasks, user, id) :: Rank(tasks, user, id)
  }

  predicate Owned(s: B.State) {
    forall call | call in s.calls :: s.calls[call].task < |s.tasks|
  }

  function Seen(s: B.State, user: string): B.State
    requires Owned(s)
  {
    B.State(Own(s.tasks, user), SeenCalls(s, user), Ranks(s.tasks, user, s.admitted), Ranks(s.tasks, user, s.revived))
  }

  function SeenCalls(s: B.State, user: string): map<nat, B.Phase>
    requires Owned(s)
  {
    map call | call in s.calls && Of(s.tasks, user, s.calls[call].task) ::
      s.calls[call].(task := Rank(s.tasks, user, s.calls[call].task))
  }

  predicate Below(s: B.State) {
    Owned(s) && (forall id | id in s.admitted :: id < |s.tasks|) && (forall id | id in s.revived :: id < |s.tasks|)
  }

  lemma RanksSet(tasks: seq<B.Task>, id: nat, t: B.Task, user: string, ids: set<nat>)
    requires id < |tasks| && t.user == tasks[id].user
    ensures Ranks(tasks[id := t], user, ids) == Ranks(tasks, user, ids)
  {
    hide Rank;
    forall i: nat | i <= |tasks|
      ensures Rank(tasks[id := t], user, i) == Rank(tasks, user, i)
    {
      RankSet(tasks, id, t, user, i);
    }
    assert forall i :: Of(tasks[id := t], user, i) <==> Of(tasks, user, i);
  }

  lemma RanksMore(tasks: seq<B.Task>, t: B.Task, user: string, ids: set<nat>)
    requires forall id | id in ids :: id < |tasks|
    ensures Ranks(tasks + [t], user, ids) == Ranks(tasks, user, ids)
  {
    OwnMore(tasks, t, user);
    hide Rank;
    assert forall i | i in ids :: Of(tasks + [t], user, i) <==> Of(tasks, user, i);
  }

  lemma RanksAdd(tasks: seq<B.Task>, user: string, ids: set<nat>, id: nat)
    requires id < |tasks|
    ensures Ranks(tasks, user, ids + {id}) == Ranks(tasks, user, ids) + if Of(tasks, user, id) then {Rank(tasks, user, id)} else {}
  {
    hide Rank;
  }

  // One more call, or another phase of a call, without a change of the tasks.
  lemma SeenCall(s: B.State, call: nat, phase: B.Phase, user: string)
    requires Owned(s) && phase.task < |s.tasks|
    requires call in s.calls ==> s.tasks[s.calls[call].task].user == s.tasks[phase.task].user
    ensures SeenCalls(s.(calls := s.calls[call := phase]), user)
         == if Of(s.tasks, user, phase.task) then SeenCalls(s, user)[call := phase.(task := Rank(s.tasks, user, phase.task))] else SeenCalls(s, user)
  {
    hide Rank;
  }

  // Calls look the same when other tasks do.
  lemma SameCallsSeen(s: B.State, s': B.State, user: string)
    requires Owned(s) && Owned(s') && s'.calls == s.calls && |s.tasks| <= |s'.tasks|
    requires forall id: nat | id < |s.tasks| :: Of(s'.tasks, user, id) <==> Of(s.tasks, user, id)
    requires forall id: nat | id < |s.tasks| :: Rank(s'.tasks, user, id) == Rank(s.tasks, user, id)
    ensures SeenCalls(s', user) == SeenCalls(s, user)
  {
    hide Rank, Of;
  }

  lemma RankOfAll(tasks: seq<B.Task>, user: string)
    ensures Rank(tasks, user, |tasks|) == |Own(tasks, user)|
  {
    assert tasks[..|tasks|] == tasks;
  }

  lemma SeenMore(s: B.State, t: B.Task, user: string)
    requires Below(s)
    ensures var s' := s.(tasks := s.tasks + [t]);
            Seen(s', user) == Seen(s, user).(tasks := Own(s.tasks, user) + if t.user == user then [t] else [])
  {
    hide Rank, Own, Ranks, SeenCalls;
    OwnMore(s.tasks, t, user);
    RanksMore(s.tasks, t, user, s.admitted);
    RanksMore(s.tasks, t, user, s.revived);
    SameCallsSeen(s, s.(tasks := s.tasks + [t]), user);
  }

  lemma SeenSet(s: B.State, id: nat, status: B.Status, user: string)
    requires Below(s) && id < |s.tasks|
    ensures Seen(B.SetStatus(s, id, status), user)
         == if Of(s.tasks, user, id) then SetSeen(s, id, status, user) else Seen(s, user)
  {
    hide Rank, Own, Ranks, SeenCalls;
    var t := s.tasks[id].(status := status);
    OwnSet(s.tasks, id, t, user);
    if Of(s.tasks, user, id) {
      OwnAt(s.tasks, user, id);
    }
    RanksSet(s.tasks, id, t, user, s.admitted);
    RanksSet(s.tasks, id, t, user, B.SetStatus(s, id, status).revived);
    RanksAdd(s.tasks, user, s.revived, id);
    forall i: nat | i <= |s.tasks|
      ensures Rank(s.tasks[id := t], user, i) == Rank(s.tasks, user, i)
    {
      RankSet(s.tasks, id, t, user, i);
    }
    SameCallsSeen(s, B.SetStatus(s, id, status), user);
  }

  function SetSeen(s: B.State, id: nat, status: B.Status, user: string): B.State
    requires Below(s) && Of(s.tasks, user, id)
  {
    OwnAt(s.tasks, user, id);
    B.SetStatus(Seen(s, user), Rank(s.tasks, user, id), status)
  }

  // ---- one step of a reservation -------------------------------------------

  predicate CallIsOf(s: B.State, call: nat, user: string) {
    call in s.calls ==> Of(s.tasks, user, s.calls[call].task)
  }

  lemma CallSeen(s: B.State, call: nat, user: string)
    requires Owned(s) && CallIsOf(s, call, user)
    ensures call in SeenCalls(s, user) <==> call in s.calls
    ensures call in s.calls ==>
      SeenCalls(s, user)[call] == s.calls[call].(task := Rank(s.tasks, user, s.calls[call].task))
  {
    hide Rank;
  }

  lemma EnqueueSeen(budget: B.Budget, s: B.State, call: nat, owner: string, requestId: string, estimate: Option<real>,
                    user: string)
    requires Below(s) && call !in s.calls
    ensures var a := B.Enqueue(call, owner, requestId, estimate);
            var s' := B.Perform(budget, s, a);
            && Below(s') && call !in SeenCalls(s, user)
            && Seen(s', user) == if user == owner then B.Perform(budget, Seen(s, user), a) else Seen(s, user)
  {
    hide Rank, Own, Ranks, B.Find;
    FindOwn(s.tasks, owner, requestId);
    var t := B.Task(owner, requestId, estimate, B.Pending);
    var found := B.Find(s.tasks, owner, requestId);
    if found.Some? {
      SeenCall(s, call, B.Reserved(found.value, estimate), user);
    } else {
      var more := s.(tasks := s.tasks + [t]);
      SeenMore(s, t, user);
      SeenCall(more, call, B.Reserved(|s.tasks|, estimate), user);
      OwnMore(s.tasks, t, user);
      RankOfAll(s.tasks, user);
    }
  }

  lemma CheckSeen(budget: B.Budget, s: B.State, call: nat, owner: string, user: string)
    requires Below(s) && CallIsOf(s, call, owner) && B.Enabled(s, B.Check(call))
    ensures var a := B.Check(call);
            var s' := B.Perform(budget, s, a);
            && Below(s') && (user == owner ==> B.Enabled(Seen(s, user), a))
            && Seen(s', user) == if user == owner then B.Perform(budget, Seen(s, user), a) else Seen(s, user)
  {
    hide Rank, Own, Ranks, B.Verdict;
    var task, estimate := s.calls[call].task, s.calls[call].estimate;
    OwnAt(s.tasks, owner, task);
    VerdictOfOwn(budget, s.tasks, owner, estimate, task);
    CallSeen(s, call, owner);
    SeenCall(s, call, B.Refused(task), user);
    SeenCall(s, call, B.Admitted(task), user);
    RanksAdd(s.tasks, user, s.admitted, task);
  }

  lemma MarkFailedSeen(budget: B.Budget, s: B.State, call: nat, owner: string, user: string)
    requires Below(s) && CallIsOf(s, call, owner) && B.Enabled(s, B.MarkFailed(call))
    ensures var a := B.MarkFailed(call);
            var s' := B.Perform(budget, s, a);
            && Below(s') && (user == owner ==> B.Enabled(Seen(s, user), a))
            && Seen(s', user) == if user == owner then B.Perform(budget, Seen(s, user), a) else Seen(s, user)
  {
    hide Rank, Own, Ranks;
    var task := s.calls[call].task;
    OwnAt(s.tasks, owner, task);
    CallSeen(s, call, owner);
    SeenSet(s, task, B.Failed, user);
    var set' := B.SetStatus(s, task, B.Failed);
    SeenCall(set', call, B.Rejected(task), user);
    RankSet(s.tasks, task, s.tasks[task].(status := B.Failed), user, task);
  }

  // What the service does for `owner` in the shared store is, for the owner, what it
  // does on the owner's tasks, and for everybody else nothing.
  lemma ReserveSeen(budget: B.Budget, owner: string, request: Request, call: nat, pc: nat, s: B.State, user: string)
    requires Below(s) && CallIsOf(s, call, owner)
    ensures var s' := Reserve(budget, owner, request, call, pc, s);
            && Below(s') && CallIsOf(s', call, owner)
            && Seen(s', user) == if user == owner then Reserve(budget, owner, request, call, pc, Seen(s, user)) else Seen(s, user)
  {
    hide Rank, Own, Ranks, B.Find, B.Verdict;
    CallSeen(s, call, owner);
    if pc == 0 {
      if call !in s.calls {
        EnqueueSeen(budget, s, call, owner, request.requestId, request.estimate, user);
        FindOwn(s.tasks, owner, request.requestId);
      }
    } else if pc == 1 {
      if B.Enabled(s, B.Check(call)) {
        CheckSeen(budget, s, call, owner, user);
      }
    } else {
      if B.Enabled(s, B.MarkFailed(call)) {
        MarkFailedSeen(budget, s, call, owner, user);
      }
    }
  }

  // ---- every run -----------------------------------------------------------

  datatype Service = Service(calls: Calls, store: B.State)

  // The sections of all users work on the one store.
  function PerformShared(s: Service, a: Action, budget: B.Budget, request: nat -> Request): Service
    requires Enabled(s.calls, a, 3)
  {
    Service(
      After(s.calls, a, 3),
      if a.Advance? then Reserve(budget, s.calls.keys[a.call], request(a.call), a.call, s.calls.stages[a.call].pc, s.store)
      else s.store)
  }

  function RunShared(s: Service, actions: seq<Action>, budget: B.Budget, request: nat -> Request): Option<Service>
    decreases |actions|
  {
    if actions == [] then Some(s)
    else if !Enabled(s.calls, actions[0], 3) then None
    else RunShared(PerformShared(s, actions[0], budget, request), actions[1..], budget, request)
  }

  // Calls belong to the users who made them, and have a phase once they have made
  // their first step.
  ghost predicate Kept(s: Service) {
    Below(s.store) && forall call | call in s.store.calls ::
      call < |s.calls.keys| && CallIsOf(s.store, call, s.calls.keys[call])
  }

  // Each user's part of the store is that of a system with a store for each user.
  ghost predicate SeenAs(s: Service, w: System<B.State>) {
    Kept(s) && w.calls == s.calls && forall user :: Read(w.world, user, B.EMPTY) == Seen(s.store, user)
  }

  lemma OthersStay(budget: B.Budget, owner: string, request: Request, call: nat, pc: nat, s: B.State, other: nat,
                   user: string)
    requires Below(s) && other != call && CallIsOf(s, other, user)
    ensures var s' := Reserve(budget, owner, request, call, pc, s);
            (other in s'.calls <==> other in s.calls) && CallIsOf(s', other, user)
  {
    hide B.Find, B.Verdict;
  }

  lemma StepSeen(s: Service, w: System<B.State>, a: Action, budget: B.Budget, request: nat -> Request)
    requires SeenAs(s, w) && Enabled(s.calls, a, 3)
    ensures SeenAs(PerformShared(s, a, budget, request), Perform(w, a, 3, Reserving(budget, request), B.EMPTY))
  {
    hide Reserve, Seen, Owned;
    var s', w' := PerformShared(s, a, budget, request), Perform(w, a, 3, Reserving(budget, request), B.EMPTY);
    if a.Advance? {
      var owner, pc := s.calls.keys[a.call], s.calls.stages[a.call].pc;
      assert CallIsOf(s.store, a.call, owner);
      ReserveSeen(budget, owner, request(a.call), a.call, pc, s.store, owner);
      forall user
        ensures Read(w'.world, user, B.EMPTY) == Seen(s'.store, user)
      {
        ReserveSeen(budget, owner, request(a.call), a.call, pc, s.store, user);
      }
      forall call | call in s'.store.calls
        ensures call < |s'.calls.keys| && CallIsOf(s'.store, call, s'.calls.keys[call])
      {
        if call != a.call {
          StaysKept(s, a, budget, request, call);
        }
      }
    }
  }

  lemma StaysKept(s: Service, a: Action, budget: B.Budget, request: nat -> Request, call: nat)
    requires Kept(s) && a.Advance? && Enabled(s.calls, a, 3) && call != a.call
    requires call in PerformShared(s, a, budget, request).store.calls
    ensures call < |s.calls.keys| && CallIsOf(PerformShared(s, a, budget, request).store, call, s.calls.keys[call])
  {
    hide Reserve;
    var owner, pc := s.calls.keys[a.call], s.calls.stages[a.call].pc;
    var user := if call < |s.calls.keys| then s.calls.keys[call] else "";
    OthersStay(budget, owner, request(a.call), a.call, pc, s.store, call, user);
  }

  lemma {:induction false} RunSeen(s: Service, w: System<B.State>, actions: seq<Action>, budget: B.Budget,
                                   request: nat -> Request)
    requires SeenAs(s, w) && RunShared(s, actions, budget, request).Some?
    ensures Run(w, actions, 3, Reserving(budget, request), B.EMPTY).Some?
    ensures SeenAs(RunShared(s, actions, budget, request).value, Run(w, actions, 3, Reserving(budget, request), B.EMPTY).value)
    decreases |actions|
  {
    hide PerformShared, Perform, Enabled, Kept;
    if actions != [] {
      StepSeen(s, w, actions[0], budget, request);
      var step := Reserving(budget, request);
      RunSeen(PerformShared(s, actions[0], budget, request), Perform(w, actions[0], 3, step, B.EMPTY), actions[1..],
              budget, request);
    }
  }

  // In one process, whatever the interleaving of all users' reservations in the
  // shared store: when those of a user have finished, the user's tasks and verdicts
  // are those of one reservation after the other in arrival order.
  lemma SharedReservationsRunOneByOne(budget: B.Budget, request: nat -> Request, actions: seq<Action>)
    requires RunShared(Service(IDLE, B.EMPTY), actions, budget, request).Some?
    ensures var s := RunShared(Service(IDLE, B.EMPTY), actions, budget, request).value;
            Owned(s.store) && forall user | AllDone(s.calls, user) ::
              Seen(s.store, user) == Reservations(s.calls.keys, user, |s.calls.keys|, budget, request)
  {
    hide RunShared, Run, AllDone, Reservations;
    var start := Service(IDLE, B.EMPTY);
    var w: System<B.State> := System(IDLE, map[]);
    NothingSeen();
    assert SeenAs(start, w);
    RunSeen(start, w, actions, budget, request);
    ReservationsRunOneByOne(budget, request, actions);
  }

  lemma NothingSeen()
    ensures forall user :: Seen(B.EMPTY, user) == B.EMPTY
  {
  }
}
