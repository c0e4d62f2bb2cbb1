/** What the callers of the blocking queue can rely on: their calls behave like operations on a plain queue that are
    done one at a time, every call returns at most once and in order, and nobody sleeps without a reason. */
module QueueHistory {
  import opened Options
  import opened BlockingQueue

  /** A queue without threads: at most `max` items, and a flag that refuses further ones. */
  datatype Plain<T> = Plain(items: seq<T>, closed: bool)

  /** One finished operation on the plain queue; nothing when it may not have that result. */
  ghost function Does<T>(q: Plain<T>, e: Event<T>, max: nat): Option<Plain<T>>
  {
    match e
    case Pushed(_, v, true) => if !q.closed && |q.items| < max then Some(Plain(q.items + [v], false)) else None
    case Pushed(_, _, false) => if q.closed then Some(q) else None
    case Popped(_, Some(v)) => if q.items != [] && q.items[0] == v then Some(q.(items := q.items[1..])) else None
    case Popped(_, None) => if q.closed && q.items == [] then Some(q) else None
    case Closed(_) => Some(q.(closed := true))
    case Closing(_) => Some(q.(closed := true))
    case Drained(_) => if q.closed && q.items == [] then Some(q) else None
  }

  /** The operations one after the other, from the empty open queue. */
  ghost function Replay<T>(log: seq<Event<T>>, max: nat): Option<Plain<T>>
  {
    if log == [] then Some(Plain([], false))
    else
      match Replay(log[..|log| - 1], max)
      case None => None
      case Some(q) => Does(q, log[|log| - 1], max)
  }

  lemma ReplayNext<T>(log: seq<Event<T>>, e: Event<T>, max: nat)
    ensures Replay(log + [e], max) == if Replay(log, max).None? then None else Does(Replay(log, max).value, e, max)
  {
    assert (log + [e])[..|log|] == log;
  }

  ghost predicate Explained<T>(s: State<T>)
  {
    Replay(s.log, s.max) == Some(Plain(s.queue, s.closed))
  }

  lemma PushExplained<T>(s: State<T>, t: Tid, v: T, woken: Tid)
    requires Explained(s) && ChoosesPopper(s, woken)
    ensures Explained(PushBody(s, t, v, woken))
  {
    ReplayNext(s.log, Pushed(t, v, !s.closed), s.max);
  }

  lemma PopExplained<T>(s: State<T>, t: Tid, woken: Tid)
    requires Explained(s) && ChoosesSpace(s, woken)
    ensures Explained(PopBody(s, t, woken))
  {
    ReplayNext(s.log, Popped(t, if s.queue == [] then None else Some(s.queue[0])), s.max);
  }

  lemma CloseExplained<T>(s: State<T>, t: Tid)
    requires Explained(s) && s.closed
    ensures Explained(CloseBody(s, t))
  {
    ReplayNext(s.log, Drained(t), s.max);
  }

  lemma StepExplained<T>(s: State<T>, a: Action<T>)
    requires Inv(s) && Explained(s) && Enabled(s, a)
    ensures Explained(Apply(s, a))
  {
    hide Replay, PushBody, PopBody, CloseBody;
    match a
    case Push(t, v, woken) => PushExplained(s, t, v, woken);
    case PushResume(t, woken) => PushExplained(s.(pushReady := s.pushReady - {t}), t, s.pushReady[t], woken);
    case Pop(t, woken) => PopExplained(s, t, woken);
    case PopResume(t, woken) => PopExplained(s.(popReady := s.popReady - {t}), t, woken);
    case Close(t, wait) =>
      var s' := NotifyAllSpace(NotifyAllData(s.(closed := true)));
      ReplayNext(s.log, if wait then Closing(t) else Closed(t), s.max);
      if wait { CloseExplained(s'.(log := s'.log + [Closing(t)]), t); }
    case CloseResume(t) => CloseExplained(s.(closeReady := s.closeReady - {t}), t);
    case Spurious(t) =>
  }

  /** Whatever the interleaving, the results of the calls are those of a plain queue that does them one at a time in
      the order of the log, and that queue holds what the real one holds. */
  lemma {:induction false} Linearizable<T>(states: seq<State<T>>, actions: seq<Action<T>>, i: nat)
    requires Run(states, actions) && i < |states|
    ensures Replay(states[i].log, states[0].max) == Some(Plain(states[i].queue, states[i].closed))
  {
    hide Replay, Inv, Enabled, Apply;
    RunKeeps(states, actions, i);
    if i == 0 {
      EmptyReplay<T>(states[0].max);
    } else {
      Linearizable(states, actions, i - 1);
      RunKeeps(states, actions, i - 1);
      StepExplained(states[i - 1], actions[i - 1]);
    }
  }

  lemma EmptyReplay<T>(max: nat)
    ensures Replay<T>([], max) == Some(Plain([], false))
  {
  }

  /** The values of the pushes that returned true, and of the pops that did, in order. */
  ghost function Accepted<T>(log: seq<Event<T>>): seq<T>
  {
    if log == [] then []
    else
      var e := log[|log| - 1];
      Accepted(log[..|log| - 1]) + if e.Pushed? && e.ok then [e.v] else []
  }

  ghost function HandedOut<T>(log: seq<Event<T>>): seq<T>
  {
    if log == [] then []
    else
      var e := log[|log| - 1];
      HandedOut(log[..|log| - 1]) + if e.Popped? && e.got.Some? then [e.got.value] else []
  }

  /** On the plain queue, what was accepted is what was handed out followed by what is left. */
  lemma {:induction false} NothingLost<T>(log: seq<Event<T>>, max: nat)
    requires Replay(log, max).Some?
    ensures Accepted(log) == HandedOut(log) + Replay(log, max).value.items
    ensures |Replay(log, max).value.items| <= max
  {
    if log != [] { NothingLost(log[..|log| - 1], max); }
  }

  lemma AcceptedNext<T>(log: seq<Event<T>>, e: Event<T>)
    ensures Accepted(log + [e]) == Accepted(log) + if e.Pushed? && e.ok then [e.v] else []
    ensures HandedOut(log + [e]) == HandedOut(log) + if e.Popped? && e.got.Some? then [e.got.value] else []
  {
    assert (log + [e])[..|log|] == log;
  }

  ghost predicate Recorded<T>(s: State<T>)
  {
    s.pushed == Accepted(s.log) && s.popped == HandedOut(s.log)
  }

  lemma PushRecorded<T>(s: State<T>, t: Tid, v: T, woken: Tid)
    requires Recorded(s) && ChoosesPopper(s, woken)
    ensures Recorded(PushBody(s, t, v, woken))
  {
    hide Accepted, HandedOut;
    AcceptedNext(s.log, Pushed(t, v, !s.closed));
  }

  lemma PopRecorded<T>(s: State<T>, t: Tid, woken: Tid)
    requires Recorded(s) && ChoosesSpace(s, woken)
    ensures Recorded(PopBody(s, t, woken))
  {
    hide Accepted, HandedOut;
    AcceptedNext(s.log, Popped(t, if s.queue == [] then None else Some(s.queue[0])));
  }

  lemma StepRecorded<T>(s: State<T>, a: Action<T>)
    requires Recorded(s) && Enabled(s, a)
    ensures Recorded(Apply(s, a))
  {
    hide Accepted, HandedOut, PushBody, PopBody;
    match a
    case Push(t, v, woken) => PushRecorded(s, t, v, woken);
    case PushResume(t, woken) => PushRecorded(s.(pushReady := s.pushReady - {t}), t, s.pushReady[t], woken);
    case Pop(t, woken) => PopRecorded(s, t, woken);
    case PopResume(t, woken) => PopRecorded(s.(popReady := s.popReady - {t}), t, woken);
    case Close(t, wait) =>
      AcceptedNext(s.log, Closed(t));
      AcceptedNext(s.log, Closing(t));
      AcceptedNext(s.log + [Closing(t)], Drained(t));
    case CloseResume(t) => AcceptedNext(s.log, Drained(t));
    case Spurious(t) =>
  }

  /** `pushed` is exactly the values of the pushes that returned true, and `popped` those of the pops. */
  lemma {:induction false} HistoriesAreResults<T>(states: seq<State<T>>, actions: seq<Action<T>>, i: nat)
    requires Run(states, actions) && i < |states|
    ensures states[i].pushed == Accepted(states[i].log) && states[i].popped == HandedOut(states[i].log)
  {
    hide Enabled, Apply;
    if i > 0 {
      HistoriesAreResults(states, actions, i - 1);
      StepRecorded(states[i - 1], actions[i - 1]);
    }
  }

  datatype Call<T> = CallPush(v: T) | CallPop | CallClose(wait: bool)

  /** The call thread `u` makes in a step. */
  function Called<T>(a: Action<T>, u: Tid): seq<Call<T>>
  {
    match a
    case Push(t, v, _) => if t == u then [CallPush(v)] else []
    case Pop(t, _) => if t == u then [CallPop] else []
    case Close(t, wait) => if t == u then [CallClose(wait)] else []
    case _ => []
  }

  /** The call of thread `u` that an event ends. */
  function Ended<T>(e: Event<T>, u: Tid): seq<Call<T>>
  {
    match e
    case Pushed(t, v, _) => if t == u then [CallPush(v)] else []
    case Popped(t, _) => if t == u then [CallPop] else []
    case Closed(t) => if t == u then [CallClose(false)] else []
    case Closing(_) => []
    case Drained(t) => if t == u then [CallClose(true)] else []
  }

  function CallsOf<T>(actions: seq<Action<T>>, u: Tid): seq<Call<T>>
  {
    if actions == [] then [] else CallsOf(actions[..|actions| - 1], u) + Called(actions[|actions| - 1], u)
  }

  function ReturnsOf<T>(log: seq<Event<T>>, u: Tid): seq<Call<T>>
  {
    if log == [] then [] else ReturnsOf(log[..|log| - 1], u) + Ended(log[|log| - 1], u)
  }

  lemma ReturnsNext<T>(log: seq<Event<T>>, e: Event<T>, u: Tid)
    ensures ReturnsOf(log + [e], u) == ReturnsOf(log, u) + Ended(e, u)
  {
    assert (log + [e])[..|log|] == log;
  }

  /** The call thread `u` is inside of. */
  function InProgress<T>(s: State<T>, u: Tid): seq<Call<T>>
  {
    if u in s.pushWait then [CallPush(s.pushWait[u])]
    else if u in s.pushReady then [CallPush(s.pushReady[u])]
    else if u in s.popWait || u in s.popReady then [CallPop]
    else if u in s.closeWait || u in s.closeReady then [CallClose(true)]
    else []
  }

  /** A thread is in one place at a time. */
  predicate Once<T>(s: State<T>, u: Tid)
  {
    && (u in s.pushWait ==> u !in s.pushReady)
    && (u in s.pushWait || u in s.pushReady ==> u !in s.popWait && u !in s.popReady)
    && (u in s.popWait ==> u !in s.popReady)
    && (u in s.closeWait || u in s.closeReady ==>
      u !in s.pushWait && u !in s.pushReady && u !in s.popWait && u !in s.popReady)
    && (u in s.closeWait ==> u !in s.closeReady)
  }

  /** Thread `u` has made the calls `calls` so far: they have returned in order, but for one it may be inside of. */
  ghost predicate Accounts<T>(s: State<T>, u: Tid, calls: seq<Call<T>>)
  {
    Once(s, u) && calls == ReturnsOf(s.log, u) + InProgress(s, u)
  }

  lemma PushAccounts<T>(s: State<T>, t: Tid, v: T, woken: Tid, u: Tid, calls: seq<Call<T>>)
    requires Accounts(s, u, calls) && Idle(s, t) && ChoosesPopper(s, woken)
    ensures Accounts(PushBody(s, t, v, woken), u, if t == u then calls + [CallPush(v)] else calls)
  {
    hide ReturnsOf;
    ReturnsNext(s.log, Pushed(t, v, !s.closed), u);
  }

  lemma PopAccounts<T>(s: State<T>, t: Tid, woken: Tid, u: Tid, calls: seq<Call<T>>)
    requires Accounts(s, u, calls) && Idle(s, t) && ChoosesSpace(s, woken)
    ensures Accounts(PopBody(s, t, woken), u, if t == u then calls + [CallPop] else calls)
  {
    hide ReturnsOf, Accounts, NotifySpace, NotifyAllSpace;
    var e := Popped(t, if s.queue == [] then None else Some(s.queue[0]));
    if s.queue == [] && !s.closed {
      SleepingPopAccounts(s, t, u, calls);
    } else {
      var s' := if s.queue == [] then s.(log := s.log + [e])
        else s.(queue := s.queue[1..], popped := s.popped + [s.queue[0]], log := s.log + [e]);
      ReturnAccounts(s, s', e, u, calls);
      assert calls + [] == calls;
      if s.queue != [] { WakingAccounts(s', woken, u, if t == u then calls + [CallPop] else calls); }
    }
  }

  lemma SleepingPopAccounts<T>(s: State<T>, t: Tid, u: Tid, calls: seq<Call<T>>)
    requires Accounts(s, u, calls) && Idle(s, t)
    ensures Accounts(s.(popWait := s.popWait + {t}), u, if t == u then calls + [CallPop] else calls)
  {
    hide ReturnsOf;
  }

  /** An event with which an idle thread's call returns. */
  lemma ReturnAccounts<T>(s: State<T>, s': State<T>, e: Event<T>, u: Tid, calls: seq<Call<T>>)
    requires Accounts(s, u, calls) && Idle(s, e.t) && s'.log == s.log + [e]
    requires s' == s.(queue := s'.queue, pushed := s'.pushed, popped := s'.popped, log := s'.log)
    ensures Accounts(s', u, calls + Ended(e, u))
  {
    hide ReturnsOf;
    ReturnsNext(s.log, e, u);
    if e.t == u { assert InProgress(s, u) == []; }
  }

  /** Being woken does not end a call. */
  lemma WakingAccounts<T>(s: State<T>, woken: Tid, u: Tid, calls: seq<Call<T>>)
    requires Accounts(s, u, calls)
    ensures Accounts(NotifyAllSpace(s), u, calls)
    ensures ChoosesSpace(s, woken) ==> Accounts(NotifySpace(s, woken), u, calls)
  {
    hide ReturnsOf;
  }

  lemma CloseAccounts<T>(s: State<T>, t: Tid, u: Tid, calls: seq<Call<T>>)
    requires Accounts(s, u, calls) && Idle(s, t)
    ensures Accounts(CloseBody(s, t), u, if t == u then calls + [CallClose(true)] else calls)
  {
    hide ReturnsOf;
    ReturnsNext(s.log, Drained(t), u);
  }

  /** Taking a woken thread out of its set, and putting its call back at the end, changes nothing. */
  lemma Resumed<T>(s: State<T>, s': State<T>, t: Tid, u: Tid, calls: seq<Call<T>>)
    requires Accounts(s, u, calls) && Once(s, t) && s'.log == s.log
    requires
      || (t in s.pushReady && s' == s.(pushReady := s.pushReady - {t}))
      || (t in s.popReady && s' == s.(popReady := s.popReady - {t}))
      || (t in s.closeReady && s' == s.(closeReady := s.closeReady - {t}))
    ensures Idle(s', t)
    ensures Accounts(s', u, if t == u then ReturnsOf(s.log, u) else calls)
  {
    hide ReturnsOf;
  }

  lemma StepAccounts<T>(s: State<T>, a: Action<T>, u: Tid, calls: seq<Call<T>>)
    requires Accounts(s, u, calls) && Enabled(s, a) && Once(s, a.t)
    ensures Accounts(Apply(s, a), u, calls + Called(a, u))
  {
    hide ReturnsOf, PushBody, PopBody, CloseBody, NotifyAllSpace, NotifyAllData;
    var before := if a.t == u then ReturnsOf(s.log, u) else calls;
    match a
    case Push(t, v, woken) => PushAccounts(s, t, v, woken, u, calls);
    case PushResume(t, woken) =>
      var s' := s.(pushReady := s.pushReady - {t});
      Resumed(s, s', t, u, calls);
      PushAccounts(s', t, s.pushReady[t], woken, u, before);
    case Pop(t, woken) => PopAccounts(s, t, woken, u, calls);
    case PopResume(t, woken) =>
      var s' := s.(popReady := s.popReady - {t});
      Resumed(s, s', t, u, calls);
      PopAccounts(s', t, woken, u, before);
    case Close(t, wait) => CallsClose(s, t, wait, u, calls);
    case CloseResume(t) =>
      var s' := s.(closeReady := s.closeReady - {t});
      Resumed(s, s', t, u, calls);
      CloseAccounts(s', t, u, before);
    case Spurious(t) =>
  }

  lemma CallsClose<T>(s: State<T>, t: Tid, wait: bool, u: Tid, calls: seq<Call<T>>)
    requires Accounts(s, u, calls) && Idle(s, t)
    ensures Accounts(Apply(s, Close(t, wait)), u, if t == u then calls + [CallClose(wait)] else calls)
  {
    hide ReturnsOf, CloseBody;
    var s' := NotifyAllSpace(NotifyAllData(s.(closed := true)));
    ReturnsNext(s.log, Closed(t), u);
    ReturnsNext(s.log, Closing(t), u);
    if wait { CloseAccounts(s'.(log := s'.log + [Closing(t)]), t, u, calls); }
  }

  /** Every thread's calls, in the order it makes them and with the values it passes, are the calls that have
      returned to it, followed by the one it is still inside of, if any: no call returns twice or is dropped. */
  lemma {:induction false} CallsReturnOnce<T>(states: seq<State<T>>, actions: seq<Action<T>>, i: nat, u: Tid)
    requires Run(states, actions) && i < |states|
    ensures Once(states[i], u)
    ensures CallsOf(actions[..i], u) == ReturnsOf(states[i].log, u) + InProgress(states[i], u)
  {
    hide ReturnsOf, Enabled, Apply;
    if i == 0 {
      assert ReturnsOf(states[0].log, u) == [] by { EmptyReturns<T>(u); }
    } else {
      var a := actions[i - 1];
      CallsReturnOnce(states, actions, i - 1, u);
      CallsReturnOnce(states, actions, i - 1, a.t);
      StepAccounts(states[i - 1], a, u, CallsOf(actions[..i - 1], u));
      assert actions[..i][..i - 1] == actions[..i - 1];
    }
  }

  lemma EmptyReturns<T>(u: Tid)
    ensures ReturnsOf<T>([], u) == []
  {
  }

  /** A thread goes to sleep only for a reason: a pusher on a full open queue, a popper on an empty open one, a closer
      on one that is not drained. And its call returns at once otherwise, with the result that the queue decides. */
  lemma SleepsForAReason<T>(s: State<T>, a: Action<T>)
    requires Enabled(s, a) && Once(s, a.t)
    ensures var s' := Apply(s, a);
      && (a.Push? || a.PushResume? ==>
        var v := if a.Push? then a.v else s.pushReady[a.t];
        if !s.closed && |s.queue| >= s.max then a.t in s'.pushWait && s'.pushWait[a.t] == v && s'.log == s.log
        else Idle(s', a.t) && s'.log == s.log + [Pushed(a.t, v, !s.closed)])
      && (a.Pop? || a.PopResume? ==>
        if !s.closed && s.queue == [] then a.t in s'.popWait && s'.log == s.log
        else Idle(s', a.t) && s'.log == s.log + [Popped(a.t, if s.queue == [] then None else Some(s.queue[0]))])
      && (a.Close? ==> s'.closed && (Idle(s', a.t) <==> !a.wait || s.queue == []))
      && (a.CloseResume? ==> (Idle(s', a.t) <==> s.queue == []))
      && (a.Spurious? ==> s'.log == s.log && s'.queue == s.queue)
  {
  }
}
