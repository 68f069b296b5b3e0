// `createRealtimeAsyncIterator`: events pushed by a bus, pulled by calls of
// `next`. Each call of `next` is a ticket, numbered in the order of the calls.
module SubscriptionIterator {
  import opened Prelude

  datatype Event = Event(resourceId: string, kind: string, payload: int)
  datatype Filter = Filter(resourceId: string, kind: Option<string>)

  datatype Answer = Value(event: Event) | Done

  // Where the asynchronous call of `bus.subscribe` stands.
  datatype Subscription = Subscribing | Subscribed | Failed

  // The iterator, what it has answered to which ticket, how often it has called
  // the bus's unsubscribe function, and the events it has accepted so far.
  datatype State = State(
    queue: seq<Event>, pending: seq<nat>, closed: bool, unsubscribe: bool,
    subscription: Subscription, answers: map<nat, Answer>, tickets: nat, unsubscribed: nat, accepted: seq<Event>)

  const START := State([], [], false, false, Subscribing, map[], 0, 0, [])

  datatype Action = Publish(event: Event) | Next | Close | SubscribeSucceeds | SubscribeFails

  predicate Matches(e: Event, f: Filter) {
    e.resourceId == f.resourceId && (f.kind.None? || f.kind.value == "" || e.kind == f.kind.value)
  }

  predicate Enabled(s: State, a: Action) {
    a.SubscribeSucceeds? || a.SubscribeFails? ==> s.subscription.Subscribing?
  }

  function AllDone(pending: seq<nat>): map<nat, Answer> {
    map t | t in pending :: Done
  }

  // The answers when the first `n` of those waiting have been told the end.
  function Released(answers: map<nat, Answer>, waiting: seq<nat>, n: nat): map<nat, Answer>
    requires n <= |waiting|
  {
    answers + AllDone(waiting[..n])
  }

  lemma NoneDone(answers: map<nat, Answer>, waiting: seq<nat>)
    ensures Released(answers, waiting, 0) == answers
  {
  }

  lemma OneMoreDone(answers: map<nat, Answer>, waiting: seq<nat>, n: nat)
    requires n < |waiting|
    ensures Released(answers, waiting, n + 1) == Released(answers, waiting, n)[waiting[n] := Done]
  {
    assert waiting[..n + 1] == waiting[..n] + [waiting[n]];
  }

  function Perform(s: State, a: Action, f: Filter): State {
    match a
    case Publish(e) =>
      if s.closed || !Matches(e, f) then s
      else if s.pending != [] then
        s.(pending := s.pending[1..], answers := s.answers[s.pending[0] := Value(e)], accepted := s.accepted + [e])
      else s.(queue := s.queue + [e], accepted := s.accepted + [e])
    case Next =>
      if s.queue != [] then s.(queue := s.queue[1..], answers := s.answers[s.tickets := Value(s.queue[0])], tickets := s.tickets + 1)
      else if s.closed then s.(answers := s.answers[s.tickets := Done], tickets := s.tickets + 1)
      else s.(pending := s.pending + [s.tickets], tickets := s.tickets + 1)
    case Close =>
      if s.closed then s
      else s.(closed := true, unsubscribed := s.unsubscribed + (if s.unsubscribe then 1 else 0),
              pending := [], answers := s.answers + AllDone(s.pending))
    case SubscribeSucceeds =>
      if s.closed then s.(subscription := Subscribed, unsubscribed := s.unsubscribed + 1)
      else s.(subscription := Subscribed, unsubscribe := true)
    case SubscribeFails =>
      s.(subscription := Failed, closed := true,
         pending := if s.pending == [] then [] else s.pending[1..],
         answers := if s.pending == [] then s.answers else s.answers[s.pending[0] := Done])
  }

  // The closures of the source, over the variables they share.
  class RealtimeIterator {
    const filter: Filter
    var queue: seq<Event>
    var pending: seq<nat>
    var closed: bool
    var unsubscribe: bool
    var subscription: Subscription
    var answers: map<nat, Answer>
    var tickets: nat
    var unsubscribed: nat
    ghost var accepted: seq<Event>

    ghost function View(): State
      reads this
    {
      State(queue, pending, closed, unsubscribe, subscription, answers, tickets, unsubscribed, accepted)
    }

    constructor (filter: Filter)
      ensures this.filter == filter && View() == START
    {
      this.filter := filter;
      queue, pending, closed, unsubscribe, subscription := [], [], false, false, Subscribing;
      answers, tickets, unsubscribed, accepted := map[], 0, 0, [];
    }

    method Settle(answer: Answer)
      requires pending != []
      modifies this`pending, this`answers
      ensures pending == old(pending)[1..] && answers == old(answers)[old(pending)[0] := answer]
    {
      answers := answers[pending[0] := answer];
      pending := pending[1..];
    }

    method OnEvent(e: Event)
      modifies this
      ensures View() == Perform(old(View()), Publish(e), filter)
      ensures accepted == old(accepted) + if !old(closed) && Matches(e, filter) then [e] else []
      ensures old(Sound(View())) ==> Follows(old(View()), View())
      ensures old(Sound(View())) && |old(accepted)| < |accepted| && |old(accepted)| < tickets ==>
                Answered(old(View()), |old(accepted)|).None? && Answered(View(), |old(accepted)|) == Some(Value(e))
    {
      hide Sound, Follows;
      ghost var before := View();
      if Sound(before) {
        StepFollows(before, Publish(e), filter);
        EventFindsItsTicket(before, e, filter);
      }
      if closed || e.resourceId != filter.resourceId {
        return;
      }
      if filter.kind.Some? && filter.kind.value != "" && e.kind != filter.kind.value {
        return;
      }
      if pending != [] {
        Settle(Value(e));
      } else {
        queue := queue + [e];
      }
      accepted := accepted + [e];
    }

    method OnSubscribed()
      requires Enabled(View(), SubscribeSucceeds)
      modifies this
      ensures View() == Perform(old(View()), SubscribeSucceeds, filter)
      ensures old(Sound(View())) ==> Follows(old(View()), View()) && unsubscribed == if closed then 1 else 0
    {
      hide Sound, Follows;
      ghost var before := View();
      if Sound(before) {
        StepFollows(before, SubscribeSucceeds, filter);
        UnsubscribedOnce(Perform(before, SubscribeSucceeds, filter));
      }
      subscription := Subscribed;
      if closed {
        unsubscribed := unsubscribed + 1;
      } else {
        unsubscribe := true;
      }
    }

    method OnSubscribeFailed()
      requires Enabled(View(), SubscribeFails)
      modifies this
      ensures View() == Perform(old(View()), SubscribeFails, filter)
      ensures old(Sound(View())) ==> Follows(old(View()), View()) && closed && unsubscribed == 0
      ensures pending == [] <==> |old(pending)| <= 1
      ensures old(Sound(View())) ==>
        forall t | t in old(pending) :: Answered(View(), t) == if t == old(pending)[0] then Some(Done) else None
    {
      hide Sound, Follows;
      ghost var before := View();
      if Sound(before) {
        StepFollows(before, SubscribeFails, filter);
        UnsubscribedOnce(Perform(before, SubscribeFails, filter));
        OneIsReleased(before, filter);
      }
      subscription := Failed;
      if pending != [] {
        Settle(Done);
      }
      closed := true;
    }

    method Teardown()
      modifies this
      ensures View() == Perform(old(View()), Close, filter)
      ensures old(Sound(View())) ==> Follows(old(View()), View())
      ensures old(Sound(View())) ==> unsubscribed == if subscription.Subscribed? then 1 else 0
    {
      hide Sound, Follows, AllDone;
      ghost var before := View();
      if Sound(before) {
        StepFollows(before, Close, filter);
        UnsubscribedOnce(Perform(before, Close, filter));
      }
      if closed {
        return;
      }
      closed := true;
      if unsubscribe {
        unsubscribed := unsubscribed + 1;
      }
      ghost var waiting := pending;
      var i := 0;
      NoneDone(answers, pending);
      while |pending| > 0
        invariant 0 <= i <= |waiting| && pending == waiting[i..]
        invariant answers == Released(old(answers), waiting, i)
        invariant queue == old(queue) && closed && unsubscribe == old(unsubscribe) && subscription == old(subscription)
        invariant tickets == old(tickets) && accepted == old(accepted)
        invariant unsubscribed == old(unsubscribed) + if unsubscribe then 1 else 0
        decreases |pending|
      {
        OneMoreDone(old(answers), waiting, i);
        Settle(Done);
        i := i + 1;
      }
      assert waiting[..i] == waiting;
    }

    method Pull() returns (ticket: nat)
      modifies this
      ensures View() == Perform(old(View()), Next, filter)
      ensures ticket == old(tickets) && tickets == ticket + 1
      ensures old(Sound(View())) ==> Follows(old(View()), View()) && (ticket in pending <==> Due(View(), ticket).None?)
      ensures old(Sound(View())) ==> Answered(View(), ticket) == Due(View(), ticket)
    {
      hide Sound, Follows;
      ghost var before := View();
      if Sound(before) {
        StepFollows(before, Next, filter);
        TicketGetsItsDue(before, filter);
      }
      ticket := tickets;
      tickets := tickets + 1;
      if |queue| > 0 {
        answers := answers[ticket := Value(queue[0])];
        queue := queue[1..];
      } else if closed {
        answers := answers[ticket := Done];
      } else {
        pending := pending + [ticket];
      }
    }
  }

  // ---- every run -----------------------------------------------------------

  function Run(s: State, actions: seq<Action>, f: Filter): Option<State>
    decreases |actions|
  {
    if actions == [] then Some(s)
    else if !Enabled(s, actions[0]) then None
    else Run(Perform(s, actions[0], f), actions[1..], f)
  }

  // What a ticket must be answered: the event of its own number, if there is one,
  // and the end of the iteration once that is certain.
  function Due(s: State, ticket: nat): Option<Answer> {
    if ticket < |s.accepted| then Some(Value(s.accepted[ticket])) else if s.closed then Some(Done) else None
  }

  function Answered(s: State, ticket: nat): Option<Answer> {
    if ticket in s.answers then Some(s.answers[ticket]) else None
  }

  ghost predicate Delivers(s: State) {
    forall t: nat | t < s.tickets :: Answered(s, t) == if t in s.pending then None else Due(s, t)
  }

  // The queue holds what no ticket has asked for yet; or tickets wait, in order.
  ghost predicate Aligned(s: State) {
    && s.queue == (if s.tickets < |s.accepted| then s.accepted[s.tickets..] else [])
    && (forall i | 0 <= i < |s.pending| :: |s.accepted| <= s.pending[i] < s.tickets)
    && (forall i, j | 0 <= i < j < |s.pending| :: s.pending[i] < s.pending[j])
    && (!s.closed && |s.accepted| <= s.tickets ==>
          |s.pending| == s.tickets - |s.accepted| && forall i | 0 <= i < |s.pending| ::
            s.pending[i] == |s.accepted| + i)
    && (!s.closed && |s.accepted| > s.tickets ==> s.pending == [])
  }

  ghost predicate Unsubscribes(s: State) {
    && s.unsubscribed == (if s.subscription.Subscribed? && s.closed then 1 else 0)
    && (!s.closed ==> s.unsubscribe == s.subscription.Subscribed?)
    && (s.closed && s.subscription.Subscribing? ==> !s.unsubscribe)
    && (s.closed && s.pending != [] ==> s.subscription.Failed?)
  }

  ghost predicate Sound(s: State) {
    Delivers(s) && Aligned(s) && Unsubscribes(s) && forall t | t in s.answers :: t < s.tickets
  }

  lemma PublishKeepsSound(s: State, e: Event, f: Filter)
    requires Sound(s)
    ensures Sound(Perform(s, Publish(e), f))
  {
    var s' := Perform(s, Publish(e), f);
    if !s.closed && Matches(e, f) {
      if s.pending == [] {
        assert s.tickets <= |s.accepted|;
        assert s'.queue == s'.accepted[s'.tickets..];
      } else {
        assert s.pending[0] == |s.accepted|;
        forall t: nat | t < s.tickets
          ensures Answered(s', t) == if t in s'.pending then None else Due(s', t)
        {
          assert Answered(s, t) == if t in s.pending then None else Due(s, t);
          InTail(s.pending, t);
        }
      }
    }
  }

  lemma InTail(pending: seq<nat>, t: nat)
    requires pending != [] && forall i, j | 0 <= i < j < |pending| :: pending[i] < pending[j]
    ensures t in pending[1..] <==> t in pending && t != pending[0]
  {
  }

  // While the iterator is open, the tickets beyond the accepted events wait.
  lemma BeyondIsWaiting(s: State, t: nat)
    requires Aligned(s) && !s.closed && t < s.tickets
    ensures t in s.pending <==> |s.accepted| <= t
  {
    if |s.accepted| <= t {
      assert s.pending[t - |s.accepted|] == t;
    }
  }

  lemma NextKeepsAligned(s: State, f: Filter)
    requires Aligned(s)
    ensures Aligned(Perform(s, Next, f))
    ensures s.queue != [] ==> s.tickets < |s.accepted| && s.queue[0] == s.accepted[s.tickets]
    ensures s.queue == [] ==> s.tickets >= |s.accepted|
  {
  }

  lemma NextKeepsSound(s: State, f: Filter)
    requires Sound(s)
    ensures Sound(Perform(s, Next, f))
  {
    NextKeepsAligned(s, f);
    assert s.tickets !in s.pending;
    hide Aligned;
    var s' := Perform(s, Next, f);
    forall t: nat | t < s'.tickets
      ensures Answered(s', t) == if t in s'.pending then None else Due(s', t)
    {
      assert t < s.tickets ==> Answered(s, t) == if t in s.pending then None else Due(s, t);
      InSnoc(s.pending, s.tickets, t);
    }
  }

  lemma InSnoc(pending: seq<nat>, last: nat, t: nat)
    ensures t in pending + [last] <==> t in pending || t == last
  {
  }

  lemma CloseKeepsSound(s: State, a: Action, f: Filter)
    requires Sound(s) && (a.Close? || a.SubscribeFails?) && Enabled(s, a)
    ensures Sound(Perform(s, a, f))
  {
    CloseDelivers(s, a, f);
    CloseKeepsAligned(s, a, f);
    hide Aligned, Delivers;
  }

  lemma CloseKeepsAligned(s: State, a: Action, f: Filter)
    requires Aligned(s) && (a.Close? || a.SubscribeFails?)
    ensures Aligned(Perform(s, a, f))
  {
  }

  lemma CloseDelivers(s: State, a: Action, f: Filter)
    requires Sound(s) && (a.Close? || a.SubscribeFails?) && Enabled(s, a)
    ensures Delivers(Perform(s, a, f))
  {
    hide Aligned;
    var s' := Perform(s, a, f);
    forall t: nat | t < s'.tickets
      ensures Answered(s', t) == if t in s'.pending then None else Due(s', t)
    {
      assert Answered(s, t) == if t in s.pending then None else Due(s, t);
      if !s.closed {
        BeyondIsWaiting(s, t);
      }
      if s.pending != [] {
        Ascending(s);
        InTail(s.pending, t);
      }
    }
  }

  lemma Ascending(s: State)
    requires Aligned(s)
    ensures forall i, j | 0 <= i < j < |s.pending| :: s.pending[i] < s.pending[j]
  {
  }

  lemma ActionKeepsSound(s: State, a: Action, f: Filter)
    requires Sound(s) && Enabled(s, a)
    ensures Sound(Perform(s, a, f))
  {
    hide Aligned;
    match a
    case Publish(e) => PublishKeepsSound(s, e, f);
    case Next => NextKeepsSound(s, f);
    case SubscribeSucceeds => SubscribeKeepsSound(s, f);
    case _ => CloseKeepsSound(s, a, f);
  }

  // A state that comes after another: no answer is taken back or changed.
  ghost predicate Follows(s: State, s': State) {
    Sound(s') && forall t | t in s.answers :: t in s'.answers && s'.answers[t] == s.answers[t]
  }

  lemma StepFollows(s: State, a: Action, f: Filter)
    requires Sound(s) && Enabled(s, a)
    ensures Sound(Perform(s, a, f)) && Follows(s, Perform(s, a, f))
  {
    ActionKeepsSound(s, a, f);
    forall t | t in s.answers
      ensures t != s.tickets && t !in s.pending
    {
      assert Answered(s, t) == if t in s.pending then None else Due(s, t);
    }
  }

  lemma UnsubscribedOnce(s: State)
    requires Sound(s)
    ensures s.unsubscribed == if s.subscription.Subscribed? && s.closed then 1 else 0
  {
  }

  // An accepted event answers the call of its own number, if that waits.
  lemma EventFindsItsTicket(s: State, e: Event, f: Filter)
    requires Sound(s)
    ensures var s', n := Perform(s, Publish(e), f), |s.accepted|;
            |s'.accepted| > n && n < s.tickets ==> Answered(s, n).None? && Answered(s', n) == Some(Value(e))
  {
    if !s.closed && |s.accepted| < s.tickets {
      BeyondIsWaiting(s, |s.accepted|);
      assert s.pending[0] == |s.accepted|;
    }
  }

  // A call of `next` is answered at once exactly with what it is due.
  lemma TicketGetsItsDue(s: State, f: Filter)
    requires Sound(s)
    ensures var s' := Perform(s, Next, f);
            Answered(s', s.tickets) == Due(s', s.tickets) && (s.tickets in s'.pending <==> Due(s', s.tickets).None?)
  {
    NextKeepsAligned(s, f);
    assert s.tickets !in s.answers && s.tickets !in s.pending;
  }

  lemma OneIsReleased(s: State, f: Filter)
    requires Sound(s) && s.subscription.Subscribing?
    ensures forall t | t in s.pending ::
      Answered(Perform(s, SubscribeFails, f), t) == if t == s.pending[0] then Some(Done) else None
  {
    forall t | t in s.pending
      ensures t < s.tickets && Answered(s, t).None?
    {
    }
  }

  lemma SubscribeKeepsSound(s: State, f: Filter)
    requires Sound(s) && s.subscription.Subscribing?
    ensures Sound(Perform(s, SubscribeSucceeds, f))
  {
  }

  lemma {:induction false} RunKeepsSound(s: State, actions: seq<Action>, f: Filter)
    requires Sound(s) && Run(s, actions, f).Some?
    ensures Sound(Run(s, actions, f).value)
    decreases |actions|
  {
    hide Sound, Perform, Enabled;
    if actions != [] {
      ActionKeepsSound(s, actions[0], f);
      RunKeepsSound(Perform(s, actions[0], f), actions[1..], f);
    }
  }

  function Offered(a: Action, f: Filter): seq<Event> {
    if a.Publish? && a.event.resourceId == f.resourceId && f.kind in {None, Some(""), Some(a.event.kind)} then [a.event]
    else []
  }

  // The events of the resource, and of the kind when one is asked for, that are
  // published before the iterator is closed or its subscription fails.
  function Accepted(actions: seq<Action>, f: Filter): seq<Event> {
    if actions == [] || actions[0].Close? || actions[0].SubscribeFails? then []
    else Offered(actions[0], f) + Accepted(actions[1..], f)
  }

  lemma StepAccepts(s: State, a: Action, f: Filter)
    ensures var s' := Perform(s, a, f);
            && s'.accepted == s.accepted + (if s.closed then [] else Offered(a, f))
            && s'.closed == (s.closed || a.Close? || a.SubscribeFails?)
  {
  }

  lemma NothingOffered(a: Action, f: Filter)
    requires a.Close? || a.SubscribeFails?
    ensures Offered(a, f) == []
  {
  }

  lemma {:induction false} RunAccepts(s: State, actions: seq<Action>, f: Filter)
    requires Run(s, actions, f).Some?
    ensures Run(s, actions, f).value.accepted == s.accepted + if s.closed then [] else Accepted(actions, f)
    decreases |actions|
  {
    hide Offered, Perform, Enabled;
    if actions != [] {
      var a, rest := actions[0], actions[1..];
      StepAccepts(s, a, f);
      RunAccepts(Perform(s, a, f), rest, f);
      assert (s.accepted + Offered(a, f)) + Accepted(rest, f) == s.accepted + (Offered(a, f) + Accepted(rest, f));
      if a.Close? || a.SubscribeFails? {
        NothingOffered(a, f);
      }
    }
  }

  // In every interleaving: the n-th call of `next` gets the n-th accepted event,
  // or the end of the iteration once closed; never does an event wait while a
  // call waits; and the bus is unsubscribed exactly once, when the subscription
  // has come about and the iterator is closed. Only a failed subscription can
  // leave a closed iterator with calls that wait.
  lemma DeliversInOrder(actions: seq<Action>, f: Filter)
    requires Run(START, actions, f).Some?
    ensures var s := Run(START, actions, f).value;
            && s.accepted == Accepted(actions, f)
            && s.queue == (if s.tickets < |s.accepted| then s.accepted[s.tickets..] else [])
            && (s.queue == [] || s.pending == [])
            && (forall t: nat | t < s.tickets && t !in s.pending :: Answered(s, t) == Due(s, t))
            && (forall t | t in s.pending :: Answered(s, t).None? && |s.accepted| <= t)
            && s.unsubscribed == (if s.subscription.Subscribed? && s.closed then 1 else 0)
            && (s.closed && !s.subscription.Failed? ==> s.pending == [])
  {
    hide Run;
    assert Sound(START);
    RunKeepsSound(START, actions, f);
    RunAccepts(START, actions, f);
    var s := Run(START, actions, f).value;
    if s.pending != [] {
      assert |s.accepted| <= s.pending[0] < s.tickets;
    }
  }

  // A failed subscription releases one waiting call, so that none is left exactly
  // when at most one was waiting.
  lemma FailureReleasesOne(s: State, f: Filter)
    requires s.subscription.Subscribing?
    ensures Perform(s, SubscribeFails, f).pending == [] <==> |s.pending| <= 1
  {
  }

  // In every continuation, what a call was answered stays its answer, and the
  // calls keep their numbers.
  lemma {:induction false} RunFollows(s: State, actions: seq<Action>, f: Filter)
    requires Sound(s) && Run(s, actions, f).Some?
    ensures Follows(s, Run(s, actions, f).value) && s.tickets <= Run(s, actions, f).value.tickets
    decreases |actions|
  {
    hide Sound, Enabled;
    if actions != [] {
      StepFollows(s, actions[0], f);
      RunFollows(Perform(s, actions[0], f), actions[1..], f);
    }
  }

  // And a call that waits when the iterator is closed waits for ever.
  lemma {:induction false} ClosedLeavesWaiting(s: State, actions: seq<Action>, f: Filter)
    requires Sound(s) && s.closed && s.pending != [] && Run(s, actions, f).Some?
    ensures Run(s, actions, f).value.pending == s.pending && Run(s, actions, f).value.closed
    decreases |actions|
  {
    if actions != [] {
      ActionKeepsSound(s, actions[0], f);
      ClosedLeavesWaiting(Perform(s, actions[0], f), actions[1..], f);
    }
  }

  lemma RunStep(s: State, a: Action, rest: seq<Action>, f: Filter)
    requires Enabled(s, a)
    ensures Run(s, [a] + rest, f) == Run(Perform(s, a, f), rest, f)
  {
    assert ([a] + rest)[1..] == rest;
  }

  lemma FirstSteps(actions: seq<Action>, f: Filter)
    ensures var s := Perform(Perform(Perform(START, Next, f), Next, f), SubscribeFails, f);
            && s == State([], [1], true, false, Failed, map[0 := Done], 2, 0, [])
            && Run(START, [Next, Next, SubscribeFails] + actions, f) == Run(s, actions, f)
  {
    RunStep(START, Next, [Next, SubscribeFails] + actions, f);
    RunStep(Perform(START, Next, f), Next, [SubscribeFails] + actions, f);
    RunStep(Perform(Perform(START, Next, f), Next, f), SubscribeFails, actions, f);
    assert [Next, Next, SubscribeFails] + actions == [Next] + ([Next, SubscribeFails] + actions);
    assert [Next, SubscribeFails] + actions == [Next] + ([SubscribeFails] + actions);
  }

  // Two calls of `next` and a subscription that fails: the second call is never
  // answered, whatever comes afterwards.
  lemma WaitsForEver(actions: seq<Action>, f: Filter)
    requires Run(START, [Next, Next, SubscribeFails] + actions, f).Some?
    ensures var s := Run(START, [Next, Next, SubscribeFails] + actions, f).value;
            s.pending == [1] && s.closed && 1 < s.tickets && Answered(s, 0) == Some(Done) && Answered(s, 1).None?
  {
    hide Perform, Run;
    FirstSteps(actions, f);
    var s := State([], [1], true, false, Failed, map[0 := Done], 2, 0, []);
    assert Sound(s);
    ClosedLeavesWaiting(s, actions, f);
    RunFollows(s, actions, f);
  }
}
