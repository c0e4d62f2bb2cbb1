/** The bounded closable queue as a step machine. A step is what one thread does while it holds the mutex:
    from a call or a wake-up to the next wait or return. Notifications pick any waiter; wake-ups may be spurious. */
module BlockingQueue {
  import opened Options
  import opened Positional

  type Tid = nat

  /** Threads inside push() and close(true) sleep on m_haveSpace and are then woken (`Ready`) before they are back;
      threads inside pop() sleep on m_haveData. `pushed` and `popped` are everything accepted and handed out so far,
      in order, and `log` what the calls returned. */
  datatype State<T> = State(
    max: nat, queue: seq<T>, closed: bool,
    pushWait: map<Tid, T>, pushReady: map<Tid, T>,
    popWait: set<Tid>, popReady: set<Tid>,
    closeWait: set<Tid>, closeReady: set<Tid>,
    pushed: seq<T>, popped: seq<T>, log: seq<Event<T>>)

  /** What the threads observe, in the order of the steps. `Pushed` and `Popped`: push() and pop() return, with their
      result. `Closed`: close(false) returns. `Closing`, `Drained`: close(true) sets the flag, and returns. */
  datatype Event<T> =
    | Pushed(t: Tid, v: T, ok: bool)
    | Popped(t: Tid, got: Option<T>)
    | Closed(t: Tid)
    | Closing(t: Tid)
    | Drained(t: Tid)

  datatype Action<T> =
    | Push(t: Tid, v: T, woken: Tid)
    | PushResume(t: Tid, woken: Tid)
    | Pop(t: Tid, woken: Tid)
    | PopResume(t: Tid, woken: Tid)
    | Close(t: Tid, wait: bool)
    | CloseResume(t: Tid)
    | Spurious(t: Tid)

  function Initial<T>(max: nat): State<T>
  {
    State(max, [], false, map[], map[], {}, {}, {}, {}, [], [], [])
  }

  predicate Idle<T>(s: State<T>, t: Tid)
  {
    && t !in s.pushWait && t !in s.pushReady && t !in s.popWait && t !in s.popReady
    && t !in s.closeWait && t !in s.closeReady
  }

  /** m_haveData.notify_one(): one sleeping popper, if there is any. */
  predicate ChoosesPopper<T>(s: State<T>, woken: Tid)
  {
    s.popWait != {} ==> woken in s.popWait
  }

  /** m_haveSpace.notify_one(): one sleeping pusher or closer, if there is any. */
  predicate ChoosesSpace<T>(s: State<T>, woken: Tid)
  {
    s.pushWait != map[] || s.closeWait != {} ==> woken in s.pushWait || woken in s.closeWait
  }

  function NotifyData<T>(s: State<T>, woken: Tid): State<T>
    requires ChoosesPopper(s, woken)
  {
    if s.popWait == {} then s else s.(popWait := s.popWait - {woken}, popReady := s.popReady + {woken})
  }

  function NotifySpace<T>(s: State<T>, woken: Tid): State<T>
    requires ChoosesSpace(s, woken)
  {
    if woken in s.pushWait
    then s.(pushWait := s.pushWait - {woken}, pushReady := s.pushReady[woken := s.pushWait[woken]])
    else if woken in s.closeWait then s.(closeWait := s.closeWait - {woken}, closeReady := s.closeReady + {woken})
    else s
  }

  function NotifyAllSpace<T>(s: State<T>): State<T>
  {
    s.(pushWait := map[], pushReady := s.pushReady + s.pushWait,
       closeWait := {}, closeReady := s.closeReady + s.closeWait)
  }

  function NotifyAllData<T>(s: State<T>): State<T>
  {
    s.(popWait := {}, popReady := s.popReady + s.popWait)
  }

  /** The body of push() from the loop test on. */
  function PushBody<T>(s: State<T>, t: Tid, v: T, woken: Tid): State<T>
    requires ChoosesPopper(s, woken)
  {
    if !s.closed && |s.queue| >= s.max then s.(pushWait := s.pushWait[t := v])
    else if s.closed then s.(log := s.log + [Pushed(t, v, false)])
    else
      NotifyData(s.(queue := s.queue + [v], pushed := s.pushed + [v], log := s.log + [Pushed(t, v, true)]), woken)
  }

  /** The body of pop() from the loop test on. */
  function PopBody<T>(s: State<T>, t: Tid, woken: Tid): State<T>
    requires ChoosesSpace(s, woken)
  {
    if s.queue == [] then
      if s.closed then s.(log := s.log + [Popped(t, None)]) else s.(popWait := s.popWait + {t})
    else
      var v := s.queue[0];
      var s' := s.(queue := s.queue[1..], popped := s.popped + [v], log := s.log + [Popped(t, Some(v))]);
      if s'.closed && s'.queue == [] then NotifyAllSpace(s') else NotifySpace(s', woken)
  }

  /** The waiting loop of close(true). */
  function CloseBody<T>(s: State<T>, t: Tid): State<T>
  {
    if s.queue != [] then s.(closeWait := s.closeWait + {t}) else s.(log := s.log + [Drained(t)])
  }

  predicate Enabled<T>(s: State<T>, a: Action<T>)
  {
    match a
    case Push(t, v, woken) => Idle(s, t) && ChoosesPopper(s, woken)
    case PushResume(t, woken) => t in s.pushReady && ChoosesPopper(s, woken)
    case Pop(t, woken) => Idle(s, t) && ChoosesSpace(s, woken)
    case PopResume(t, woken) => t in s.popReady && ChoosesSpace(s, woken)
    case Close(t, wait) => Idle(s, t)
    case CloseResume(t) => t in s.closeReady
    case Spurious(t) => t in s.pushWait || t in s.popWait || t in s.closeWait
  }

  function Apply<T>(s: State<T>, a: Action<T>): State<T>
    requires Enabled(s, a)
  {
    match a
    case Push(t, v, woken) => PushBody(s, t, v, woken)
    case PushResume(t, woken) => PushBody(s.(pushReady := s.pushReady - {t}), t, s.pushReady[t], woken)
    case Pop(t, woken) => PopBody(s, t, woken)
    case PopResume(t, woken) => PopBody(s.(popReady := s.popReady - {t}), t, woken)
    case Close(t, wait) =>
      var s' := NotifyAllSpace(NotifyAllData(s.(closed := true)));
      if wait then CloseBody(s'.(log := s'.log + [Closing(t)]), t) else s'.(log := s'.log + [Closed(t)])
    case CloseResume(t) => CloseBody(s.(closeReady := s.closeReady - {t}), t)
    case Spurious(t) =>
      if t in s.pushWait then s.(pushWait := s.pushWait - {t}, pushReady := s.pushReady[t := s.pushWait[t]])
      else if t in s.popWait then s.(popWait := s.popWait - {t}, popReady := s.popReady + {t})
      else s.(closeWait := s.closeWait - {t}, closeReady := s.closeReady + {t})
  }

  /** No wake-up is ever lost. */
  ghost predicate NoLostWakeups<T>(s: State<T>)
  {
    if s.closed then
      s.pushWait == map[] && s.popWait == {} && (s.closeWait != {} ==> s.queue != [])
    else
      && s.closeWait == {} && s.closeReady == {}
      && (s.pushWait != map[] ==> |s.queue| + |s.pushReady| >= s.max)
      && (s.popWait != {} ==> |s.queue| <= |s.popReady|)
  }

  /** Nobody is asleep and awake at once. */
  ghost predicate Separate<T>(s: State<T>)
  {
    s.pushWait.Keys !! s.pushReady.Keys && s.popWait !! s.popReady && s.closeWait !! s.closeReady
  }

  /** Bounded, and first in first out: what went in is what came out followed by what is inside. */
  ghost predicate Fifo<T>(s: State<T>)
  {
    |s.queue| <= s.max && s.pushed == s.popped + s.queue
  }

  ghost predicate Inv<T>(s: State<T>)
  {
    NoLostWakeups(s) && Separate(s) && Fifo(s)
  }

  /** The wake-up condition while a woken pusher (`p` = 1) or popper (`c` = 1) holds the mutex. */
  ghost predicate Pending<T>(s: State<T>, p: nat, c: nat)
  {
    if s.closed then
      s.pushWait == map[] && s.popWait == {} && (s.closeWait != {} ==> s.queue != [])
    else
      && s.closeWait == {} && s.closeReady == {}
      && (s.pushWait != map[] ==> |s.queue| + |s.pushReady| + p >= s.max)
      && (s.popWait != {} ==> |s.queue| <= |s.popReady| + c)
  }

  lemma PushBodyFifo<T>(s: State<T>, t: Tid, v: T, woken: Tid)
    requires Fifo(s) && ChoosesPopper(s, woken)
    ensures Fifo(PushBody(s, t, v, woken))
  {
    assert s.popped + (s.queue + [v]) == (s.popped + s.queue) + [v];
  }

  lemma PushBodyWakes<T>(s: State<T>, t: Tid, v: T, woken: Tid)
    requires Pending(s, 1, 0) && Separate(s) && t !in s.pushReady && ChoosesPopper(s, woken)
    ensures NoLostWakeups(PushBody(s, t, v, woken)) && Separate(PushBody(s, t, v, woken))
  {
    if !s.closed && |s.queue| >= s.max {
      assert s.pushWait[t := v].Keys == s.pushWait.Keys + {t};
    } else if !s.closed {
      assert s.popWait != {} ==> |s.popReady + {woken}| == |s.popReady| + 1;
    }
  }

  lemma NotifySpaceReady<T>(s: State<T>, woken: Tid)
    requires ChoosesSpace(s, woken) && Separate(s)
    ensures var s' := NotifySpace(s, woken);
      Separate(s') && (s.closeWait == {} && s'.pushWait != map[] ==> |s'.pushReady| == |s.pushReady| + 1)
  {
    if woken in s.pushWait {
      assert s.pushReady[woken := s.pushWait[woken]].Keys == s.pushReady.Keys + {woken};
      assert (s.pushWait - {woken}).Keys == s.pushWait.Keys - {woken};
    }
  }

  lemma PopBodyFifo<T>(s: State<T>, t: Tid, woken: Tid)
    requires Fifo(s) && ChoosesSpace(s, woken)
    ensures Fifo(PopBody(s, t, woken))
  {
    if s.queue != [] {
      assert s.popped + s.queue == (s.popped + [s.queue[0]]) + s.queue[1..];
    }
  }

  lemma PopBodyWakes<T>(s: State<T>, t: Tid, woken: Tid)
    requires Pending(s, 0, 1) && Separate(s) && t !in s.popReady && ChoosesSpace(s, woken)
    ensures NoLostWakeups(PopBody(s, t, woken)) && Separate(PopBody(s, t, woken))
  {
    if s.queue != [] {
      var v := s.queue[0];
      var mid := s.(queue := s.queue[1..], popped := s.popped + [v], log := s.log + [Popped(t, Some(v))]);
      NotifySpaceReady(mid, woken);
      if s.closed { assert (mid.pushReady + mid.pushWait).Keys == mid.pushReady.Keys; }
    }
  }

  lemma CloseKeeps<T>(s: State<T>, t: Tid, wait: bool)
    requires Inv(s) && Idle(s, t)
    ensures Inv(Apply(s, Close(t, wait)))
  {
    assert (s.pushReady + s.pushWait).Keys == s.pushReady.Keys + s.pushWait.Keys;
  }

  lemma SpuriousKeeps<T>(s: State<T>, t: Tid)
    requires Inv(s) && Enabled(s, Spurious(t))
    ensures Inv(Apply(s, Spurious(t)))
  {
    if t in s.pushWait {
      assert s.pushReady[t := s.pushWait[t]].Keys == s.pushReady.Keys + {t};
      assert (s.pushWait - {t}).Keys == s.pushWait.Keys - {t};
    } else if t in s.popWait {
      assert |s.popReady + {t}| == |s.popReady| + 1;
    }
  }

  lemma PushKeeps<T>(s: State<T>, t: Tid, v: T, woken: Tid)
    requires Pending(s, 1, 0) && Separate(s) && Fifo(s) && t !in s.pushReady && ChoosesPopper(s, woken)
    ensures Inv(PushBody(s, t, v, woken))
  {
    hide *;
    PushBodyFifo(s, t, v, woken);
    PushBodyWakes(s, t, v, woken);
    InvParts(PushBody(s, t, v, woken));
  }

  lemma PopKeeps<T>(s: State<T>, t: Tid, woken: Tid)
    requires Pending(s, 0, 1) && Separate(s) && Fifo(s) && t !in s.popReady && ChoosesSpace(s, woken)
    ensures Inv(PopBody(s, t, woken))
  {
    hide *;
    PopBodyFifo(s, t, woken);
    PopBodyWakes(s, t, woken);
    InvParts(PopBody(s, t, woken));
  }

  lemma InvParts<T>(s: State<T>)
    ensures Inv(s) <==> NoLostWakeups(s) && Separate(s) && Fifo(s)
  {
  }

  lemma PushResumeKeeps<T>(s: State<T>, t: Tid, woken: Tid)
    requires Inv(s) && Enabled(s, PushResume(t, woken))
    ensures Inv(Apply(s, PushResume(t, woken)))
  {
    hide PushBody;
    var s' := s.(pushReady := s.pushReady - {t});
    assert s'.pushReady.Keys == s.pushReady.Keys - {t};
    PushKeeps(s', t, s.pushReady[t], woken);
  }

  lemma PopResumeKeeps<T>(s: State<T>, t: Tid, woken: Tid)
    requires Inv(s) && Enabled(s, PopResume(t, woken))
    ensures Inv(Apply(s, PopResume(t, woken)))
  {
    hide PopBody;
    PopKeeps(s.(popReady := s.popReady - {t}), t, woken);
  }

  /** Every step keeps the invariant. */
  lemma StepKeeps<T>(s: State<T>, a: Action<T>)
    requires Inv(s) && Enabled(s, a)
    ensures Inv(Apply(s, a))
  {
    hide PushBody, PopBody;
    match a
    case Push(t, v, woken) => PushKeeps(s, t, v, woken);
    case PushResume(t, woken) => PushResumeKeeps(s, t, woken);
    case Pop(t, woken) => PopKeeps(s, t, woken);
    case PopResume(t, woken) => PopResumeKeeps(s, t, woken);
    case Close(t, wait) => CloseKeeps(s, t, wait);
    case CloseResume(t) =>
    case Spurious(t) => SpuriousKeeps(s, t);
  }

  /** A run: any number of enabled steps from the initial state, in any interleaving. */
  ghost predicate Run<T>(states: seq<State<T>>, actions: seq<Action<T>>)
  {
    && |states| == |actions| + 1
    && states[0] == Initial(states[0].max)
    && forall i :: 0 <= i < |actions| ==>
      Enabled(states[i], actions[i]) && states[i + 1] == Apply(states[i], actions[i])
  }

  lemma InitialInv<T>(max: nat)
    ensures Inv(Initial<T>(max))
  {
  }

  /** What a step can do to the histories and the closed flag. */
  lemma StepProgress<T>(s: State<T>, a: Action<T>)
    requires Enabled(s, a)
    ensures var s' := Apply(s, a);
      && s'.max == s.max && s.popped <= s'.popped && s.pushed <= s'.pushed
      && (s.closed ==> s'.closed && s'.pushed == s.pushed)
  {
  }

  lemma {:induction false} RunKeeps<T>(states: seq<State<T>>, actions: seq<Action<T>>, i: nat)
    requires Run(states, actions) && i < |states|
    ensures Inv(states[i]) && states[i].max == states[0].max
  {
    hide Inv, Enabled, Apply;
    if i == 0 {
      InitialInv<T>(states[0].max);
    } else {
      RunKeeps(states, actions, i - 1);
      StepKeeps(states[i - 1], actions[i - 1]);
      StepProgress(states[i - 1], actions[i - 1]);
    }
  }

  /** Values come out in the order they went in, each once, and closing is final. */
  lemma {:induction false} RunIsFifo<T>(states: seq<State<T>>, actions: seq<Action<T>>, i: nat, j: nat)
    requires Run(states, actions) && i <= j < |states|
    ensures states[i].popped <= states[j].popped <= states[j].pushed && states[i].pushed <= states[j].pushed
    ensures |states[j].pushed| - |states[j].popped| <= states[0].max
    ensures states[i].closed ==> states[j].closed && states[j].pushed == states[i].pushed
    decreases j
  {
    hide Enabled, Apply, NoLostWakeups, Separate;
    RunKeeps(states, actions, j);
    if i < j {
      RunIsFifo(states, actions, i, j - 1);
      StepProgress(states[j - 1], actions[j - 1]);
    }
  }

  /** When nobody has been woken, whoever still sleeps has a reason to: pushers a full queue, poppers an empty
      one; never both, unless the capacity is zero. After closing only a closer sleeps, and only until drained. */
  lemma QuietMeansJustified<T>(states: seq<State<T>>, actions: seq<Action<T>>, i: nat)
    requires Run(states, actions) && i < |states|
    requires states[i].pushReady == map[] && states[i].popReady == {} && states[i].closeReady == {}
    ensures var s := states[i];
      && (s.pushWait != map[] ==> !s.closed && |s.queue| == s.max)
      && (s.popWait != {} ==> !s.closed && s.queue == [])
      && (s.pushWait != map[] && s.popWait != {} ==> s.max == 0)
      && (s.closeWait != {} ==> s.closed && s.queue != [])
  {
    RunKeeps(states, actions, i);
  }

  /** GroupClose: the shared countdown, the callers between its zero test and its decrement, and how often
      the queue has been closed. */
  datatype Group = Group(count: nat, inside: nat, entered: nat, done: nat, closes: nat)

  datatype GroupAction = Test | Decrement

  ghost predicate GroupEnabled(g: Group, a: GroupAction)
  {
    a.Decrement? ==> g.inside > 0
  }

  /** The zero test and the atomic decrement are separate steps; the count is an unsigned 64-bit integer. */
  function GroupStep(g: Group, a: GroupAction): Group
    requires a.Decrement? ==> g.inside > 0
  {
    match a
    case Test => if g.count == 0 then g else g.(inside := g.inside + 1, entered := g.entered + 1)
    case Decrement =>
      g.(count := (g.count - 1) % TWO64, inside := g.inside - 1, done := g.done + 1,
         closes := g.closes + if g.count == 1 then 1 else 0)
  }

  ghost predicate GroupRun(size: nat, states: seq<Group>, actions: seq<GroupAction>)
  {
    && |states| == |actions| + 1
    && states[0] == Group(size, 0, 0, 0, 0)
    && forall i :: 0 <= i < |actions| ==>
      GroupEnabled(states[i], actions[i]) && states[i + 1] == GroupStep(states[i], actions[i])
  }

  /** The queue is closed once, by the decrement that completes the group, and not before. The count goes on
      being the callers still missing exactly until the group is complete; a surplus caller wraps it around. */
  lemma {:induction false} GroupClosesOnce(size: nat, states: seq<Group>, actions: seq<GroupAction>, i: nat)
    requires GroupRun(size, states, actions) && i < |states| && 0 < size < TWO64 && states[i].done < TWO64
    ensures var g := states[i];
      && g.entered == g.inside + g.done
      && g.closes == (if g.done >= size then 1 else 0)
      && (g.count == size - g.done <==> g.done <= size)
      && (g.done > size ==> g.count == TWO64 + size - g.done)
  {
    if i > 0 {
      GroupClosesOnce(size, states, actions, i - 1);
    }
  }

  lemma OverrunSteps()
    ensures GroupStep(Group(1, 0, 0, 0, 0), Test) == Group(1, 1, 1, 0, 0)
    ensures GroupStep(Group(1, 1, 1, 0, 0), Test) == Group(1, 2, 2, 0, 0)
    ensures GroupStep(Group(1, 2, 2, 0, 0), Decrement) == Group(0, 1, 2, 1, 1)
    ensures GroupStep(Group(0, 1, 2, 1, 1), Decrement) == Group(TWO64 - 1, 0, 2, 2, 1)
  {
  }

  /** Two callers that both pass the test of a group of one wrap the count around. */
  lemma GroupOverrun()
    ensures exists states: seq<Group>, actions: seq<GroupAction> ::
      GroupRun(1, states, actions) && states[|actions|].done == 2 && states[|actions|].count == TWO64 - 1
  {
    hide GroupStep;
    var a := [Test, Test, Decrement, Decrement];
    var g := [Group(1, 0, 0, 0, 0), Group(1, 1, 1, 0, 0), Group(1, 2, 2, 0, 0), Group(0, 1, 2, 1, 1),
      Group(TWO64 - 1, 0, 2, 2, 1)];
    OverrunSteps();
    assert GroupRun(1, g, a);
  }
}
