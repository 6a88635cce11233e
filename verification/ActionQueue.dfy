/**
 IOHIDActionQueue: any number of threads append actions under a lock, and a
 single work-loop handler drains them. The interrupt that wakes the handler is
 raised outside the lock, and only by the thread that made the count 1.
 */
module ActionQueue {
  import opened Options

  /** The `number`-th block dispatched by a thread, or the block made by cancel(). */
  datatype Action = Dispatched(thread: nat, number: nat) | CancelBlock

  /** The fields of the queue object; `enqueued` and `ran` are its history. */
  datatype Queue = Queue(
    actions: seq<Action>,      // _actionArray
    activated: bool,           // kIOHIDActionQueueStateActivated
    cancelled: bool,           // kIOHIDActionQueueStateCancelled
    attached: bool,            // _actionInterrupt is on the work loop
    interrupt: bool,           // an interrupt is waiting for the handler
    enqueued: seq<Action>,
    ran: seq<Action>,
    cancelHandlerCalls: nat)

  const EMPTY := Queue([], false, false, false, false, [], [], 0)

  // The regions that run atomically: under the lock, or as one atomic operation.

  function Append(q: Queue, a: Action): Queue {
    q.(actions := q.actions + [a], enqueued := q.enqueued + [a])
  }

  function RemoveFirst(q: Queue): Queue {
    if q.actions == [] then q else q.(actions := q.actions[1..])
  }

  function RunAction(q: Queue, a: Action): Queue {
    match a
    case Dispatched(_, _) => q.(ran := q.ran + [a])
    case CancelBlock => q.(ran := q.ran + [a], attached := false, cancelHandlerCalls := q.cancelHandlerCalls + 1)
  }

  /** After some actions have run: they are in the history, in order; each cancel
      block has called the cancel handler, and has taken the interrupt off the
      work loop. */
  function AfterActions(q: Queue, log: seq<Action>): Queue {
    q.(ran := q.ran + log, attached := q.attached && CancelBlock !in log,
       cancelHandlerCalls := q.cancelHandlerCalls + CancelCount(log))
  }

  /** The handler has run `k` actions and is about to take the next. */
  function Midway(q: Queue, k: nat): (m: Queue)
    requires k <= |q.actions|
    ensures m.actions == q.actions[k..]
  {
    AfterActions(q, q.actions[..k]).(actions := q.actions[k..])
  }

  lemma StartOfRun(q: Queue)
    ensures Midway(q, 0) == q
  {
    assert q.actions[..0] == [] && q.actions[0..] == q.actions;
  }

  lemma NextRun(q: Queue, k: nat)
    requires k < |q.actions|
    ensures RunAction(RemoveFirst(Midway(q, k)), q.actions[k]) == Midway(q, k + 1)
  {
    assert q.actions[..k + 1] == q.actions[..k] + [q.actions[k]];
    assert q.ran + q.actions[..k] + [q.actions[k]] == q.ran + q.actions[..k + 1];
  }

  lemma EndOfRun(q: Queue)
    ensures RemoveFirst(Midway(q, |q.actions|)) == AfterActions(q, q.actions).(actions := [])
  {
    assert q.actions[..|q.actions|] == q.actions;
  }

  class IOHIDActionQueue {
    var actions: seq<Action>
    var activated: bool
    var cancelled: bool
    var attached: bool
    var interrupt: bool
    ghost var enqueued: seq<Action>
    ghost var ran: seq<Action>
    ghost var cancelHandlerCalls: nat

    ghost function View(): Queue
      reads this
    {
      Queue(actions, activated, cancelled, attached, interrupt, enqueued, ran, cancelHandlerCalls)
    }

    constructor ()
      ensures View() == EMPTY
    {
      actions, activated, cancelled, attached, interrupt := [], false, false, false, false;
      enqueued, ran, cancelHandlerCalls := [], [], 0;
    }

    /** The locked part of enqueueing; the caller raises the interrupt afterwards. */
    method AppendLocked(a: Action) returns (count: nat)
      modifies this
      ensures View() == Append(old(View()), a) && count == |actions|
    {
      actions := actions + [a];
      enqueued := enqueued + [a];
      count := |actions|;
    }

    method EnqueueIOHIDAction(a: Action)
      modifies this
      ensures View() == (if old(actions) == [] then Append(old(View()), a).(interrupt := true) else Append(old(View()), a))
    {
      var count := AppendLocked(a);
      if count == 1 {
        interrupt := true;
      }
    }

    method DequeueIOHIDAction() returns (action: Option<Action>)
      modifies this
      ensures View() == RemoveFirst(old(View()))
      ensures action == (if old(actions) == [] then None else Some(old(actions)[0]))
    {
      action := None;
      if |actions| > 0 {
        action := Some(actions[0]);
        actions := actions[1..];
      }
    }

    method Run(a: Action)
      modifies this
      ensures View() == RunAction(old(View()), a)
    {
      ran := ran + [a];
      if a.CancelBlock? {
        attached := false;
        cancelHandlerCalls := cancelHandlerCalls + 1;
      }
    }

    /** The handler, when no other thread interferes: every queued action runs
        once, in order, and the queue ends empty. */
    method HandleIOHIDAction()
      modifies this
      ensures View() == AfterActions(old(View()), old(actions)).(actions := [])
    {
      hide Midway, AfterActions, RunAction, RemoveFirst, Append;
      ghost var q, k := View(), 0;
      StartOfRun(q);
      var action := DequeueIOHIDAction();
      while action.Some?
        invariant k <= |q.actions| && action == (if k < |q.actions| then Some(q.actions[k]) else None)
        invariant View() == RemoveFirst(Midway(q, k))
        decreases |q.actions| - k
      {
        NextRun(q, k);
        Run(action.value);
        k := k + 1;
        assert View() == Midway(q, k);
        action := DequeueIOHIDAction();
      }
      EndOfRun(q);
    }

    method Activate()
      modifies this
      ensures View() == old(View()).(activated := true, attached := old(attached || !activated))
    {
      if activated {
        return;
      }
      activated := true;
      attached := true;
    }

    method Cancel()
      modifies this
      ensures old(cancelled) ==> View() == old(View())
      ensures !old(cancelled) ==>
                View() == Append(old(View()), CancelBlock).(cancelled := true, interrupt := old(interrupt || actions == []))
    {
      if cancelled {
        return;
      }
      cancelled := true;
      EnqueueIOHIDAction(CancelBlock);
    }
  }

  // ------------------------------------------------ all interleavings

  /** Where the handler is between two of its atomic regions. */
  datatype Handler = Idle | Dequeuing | Holding(action: Action)

  datatype System = System(
    q: Queue,
    signalling: set<nat>,  // threads between unlocking and interruptOccurred
    cancelling: set<nat>,  // threads between setting the cancelled bit and enqueueing
    handler: Handler)

  const START := System(EMPTY, {}, {}, Idle)

  datatype Step =
    | Activate
    | Dispatch(thread: nat)
    | SetCancelled(thread: nat)
    | EnqueueCancel(thread: nat)
    | Signal(thread: nat)
    | HandlerStarts
    | HandlerDequeues
    | HandlerRuns

  /** Dispatches of one thread in a log. */
  function Count(log: seq<Action>, thread: nat): nat {
    if log == [] then 0
    else Count(log[..|log| - 1], thread)
         + (var a := log[|log| - 1]; if a.Dispatched? && a.thread == thread then 1 else 0)
  }

  predicate Busy(s: System, thread: nat) {
    thread in s.signalling || thread in s.cancelling
  }

  function Enqueue(s: System, thread: nat, a: Action): System {
    var q := Append(s.q, a);
    s.(q := q, signalling := if |q.actions| == 1 then s.signalling + {thread} else s.signalling)
  }

  /** One atomic step; a step that is not possible changes nothing. */
  function Apply(s: System, step: Step): System {
    match step
    case Activate =>
      s.(q := s.q.(activated := true, attached := s.q.attached || !s.q.activated))
    case Dispatch(t) =>
      if Busy(s, t) then s else Enqueue(s, t, Dispatched(t, Count(s.q.enqueued, t)))
    case SetCancelled(t) =>
      if Busy(s, t) || s.q.cancelled then s
      else s.(q := s.q.(cancelled := true), cancelling := s.cancelling + {t})
    case EnqueueCancel(t) =>
      if t !in s.cancelling then s
      else Enqueue(s.(cancelling := s.cancelling - {t}), t, CancelBlock)
    case Signal(t) =>
      if t !in s.signalling then s
      else s.(q := s.q.(interrupt := true), signalling := s.signalling - {t})
    case HandlerStarts =>
      if s.handler.Idle? && s.q.attached && s.q.interrupt
      then s.(q := s.q.(interrupt := false), handler := Dequeuing) else s
    case HandlerDequeues =>
      if !s.handler.Dequeuing? then s
      else if s.q.actions == [] then s.(handler := Idle)
      else s.(q := RemoveFirst(s.q), handler := Holding(s.q.actions[0]))
    case HandlerRuns =>
      if !s.handler.Holding? then s
      else s.(q := RunAction(s.q, s.handler.action), handler := Dequeuing)
  }

  function Exec(s: System, steps: seq<Step>): System
    decreases |steps|
  {
    if steps == [] then s else Exec(Apply(s, steps[0]), steps[1..])
  }

  function InHand(s: System): seq<Action> {
    if s.handler.Holding? then [s.handler.action] else []
  }

  /** A nonempty queue always has somebody who will look at it. */
  predicate SomebodyWillLook(s: System) {
    s.q.actions != [] ==> s.q.interrupt || s.signalling != {} || !s.handler.Idle?
  }

  function CancelCount(log: seq<Action>): nat {
    if log == [] then 0
    else CancelCount(log[..|log| - 1]) + (if log[|log| - 1] == CancelBlock then 1 else 0)
  }

  /** The k-th action of each thread carries number k. */
  predicate Numbered(log: seq<Action>) {
    forall i :: 0 <= i < |log| && log[i].Dispatched? ==> log[i].number == Count(log[..i], log[i].thread)
  }

  ghost predicate Inv(s: System) {
    && SomebodyWillLook(s)
    && s.q.enqueued == s.q.ran + InHand(s) + s.q.actions
    && Numbered(s.q.enqueued)
    && CancelCount(s.q.enqueued) + |s.cancelling| == (if s.q.cancelled then 1 else 0)
    && s.q.cancelHandlerCalls == CancelCount(s.q.ran)
  }

  lemma CountPush(log: seq<Action>, a: Action)
    ensures CancelCount(log + [a]) == CancelCount(log) + (if a == CancelBlock then 1 else 0)
  {
    assert (log + [a])[..|log|] == log;
  }

  lemma NumberedPush(log: seq<Action>, a: Action)
    requires Numbered(log) && (a.Dispatched? ==> a.number == Count(log, a.thread))
    ensures Numbered(log + [a])
  {
    forall i | 0 <= i < |log| + 1 && (log + [a])[i].Dispatched?
      ensures (log + [a])[i].number == Count((log + [a])[..i], (log + [a])[i].thread)
    {
      assert (log + [a])[..i] == log[..i];
      assert log[..|log|] == log;
    }
  }

  lemma EnqueueKeepsInv(s: System, thread: nat, a: Action)
    requires SomebodyWillLook(s) && s.q.enqueued == s.q.ran + InHand(s) + s.q.actions
    requires Numbered(s.q.enqueued) && (a.Dispatched? ==> a.number == Count(s.q.enqueued, a.thread))
    ensures var t := Enqueue(s, thread, a);
      && SomebodyWillLook(t) && t.q.enqueued == t.q.ran + InHand(t) + t.q.actions
      && Numbered(t.q.enqueued)
      && CancelCount(t.q.enqueued) == CancelCount(s.q.enqueued) + (if a == CancelBlock then 1 else 0)
  {
    hide Numbered, Count, CancelCount;
    NumberedPush(s.q.enqueued, a);
    CountPush(s.q.enqueued, a);
    var t := Enqueue(s, thread, a);
    if |t.q.actions| == 1 {
      assert thread in t.signalling;
    }
  }

  lemma DispatchKeepsInv(s: System, th: nat)
    requires Inv(s)
    ensures Inv(Apply(s, Dispatch(th)))
  {
    if !Busy(s, th) {
      var a := Dispatched(th, Count(s.q.enqueued, th));
      EnqueueKeepsInv(s, th, a);
      assert Apply(s, Dispatch(th)) == Enqueue(s, th, a);
    }
  }

  lemma CancelKeepsInv(s: System, th: nat)
    requires Inv(s)
    ensures Inv(Apply(s, SetCancelled(th))) && Inv(Apply(s, EnqueueCancel(th)))
  {
    if th in s.cancelling {
      var t := s.(cancelling := s.cancelling - {th});
      assert |t.cancelling| == |s.cancelling| - 1;
      EnqueueKeepsInv(t, th, CancelBlock);
    } else if !Busy(s, th) {
      assert |s.cancelling + {th}| == |s.cancelling| + 1;
    }
  }

  lemma Regroup<T>(ran: seq<T>, x: T, rest: seq<T>)
    ensures ran + [] + ([x] + rest) == ran + [x] + rest
    ensures (ran + [x]) + [] + rest == ran + [x] + rest
  {
  }

  lemma DequeueKeepsInv(s: System)
    requires Inv(s)
    ensures Inv(Apply(s, HandlerDequeues))
  {
    if s.handler.Dequeuing? && s.q.actions != [] {
      var t := Apply(s, HandlerDequeues);
      Regroup(s.q.ran, s.q.actions[0], s.q.actions[1..]);
      assert s.q.actions == [s.q.actions[0]] + s.q.actions[1..];
      assert InHand(t) == [s.q.actions[0]] && InHand(s) == [];
      assert t.q.enqueued == s.q.enqueued && t.q.ran == s.q.ran && t.cancelling == s.cancelling;
    }
  }

  lemma RunKeepsInv(s: System)
    requires Inv(s)
    ensures Inv(Apply(s, HandlerRuns))
  {
    if s.handler.Holding? {
      var t := Apply(s, HandlerRuns);
      CountPush(s.q.ran, s.handler.action);
      Regroup(s.q.ran, s.handler.action, s.q.actions);
      assert InHand(s) == [s.handler.action] && InHand(t) == [];
      assert t.q.enqueued == s.q.enqueued && t.q.actions == s.q.actions && t.cancelling == s.cancelling;
    }
  }

  lemma SameLogsKeepInv(s: System, t: System)
    requires Inv(s) && SomebodyWillLook(t) && t.cancelling == s.cancelling
    requires t.q == s.q.(activated := t.q.activated, attached := t.q.attached, interrupt := t.q.interrupt)
    requires InHand(t) == InHand(s)
    ensures Inv(t)
  {
  }

  lemma StepKeepsInv(s: System, step: Step)
    requires Inv(s)
    ensures Inv(Apply(s, step))
  {
    match step
    case Activate => SameLogsKeepInv(s, Apply(s, step));
    case Dispatch(th) => DispatchKeepsInv(s, th);
    case SetCancelled(th) => CancelKeepsInv(s, th);
    case EnqueueCancel(th) => CancelKeepsInv(s, th);
    case Signal(th) => SameLogsKeepInv(s, Apply(s, step));
    case HandlerStarts => SameLogsKeepInv(s, Apply(s, step));
    case HandlerDequeues => DequeueKeepsInv(s);
    case HandlerRuns => RunKeepsInv(s);
  }

  /** No lost wakeup, and the rest of the invariant, in every interleaving. */
  lemma {:induction false} EveryRunKeepsInv(s: System, steps: seq<Step>)
    requires Inv(s)
    ensures Inv(Exec(s, steps))
    decreases |steps|
  {
    if steps != [] {
      StepKeepsInv(s, steps[0]);
      EveryRunKeepsInv(Apply(s, steps[0]), steps[1..]);
    }
  }

  lemma StartInv()
    ensures Inv(START)
  {
  }

  /** When every thread has come to rest, nothing is left in the queue. */
  lemma NoLostWakeup(steps: seq<Step>)
    ensures var s := Exec(START, steps);
      s.signalling == {} && s.handler.Idle? && !s.q.interrupt ==> s.q.actions == [] && s.q.ran == s.q.enqueued
  {
    StartInv();
    EveryRunKeepsInv(START, steps);
  }

  /** Actions run in the order of the queue, none lost, none repeated; each
      thread's actions run in the order in which it dispatched them. */
  lemma RunsInOrder(steps: seq<Step>)
    ensures var s := Exec(START, steps);
      && s.q.ran + InHand(s) + s.q.actions == s.q.enqueued
      && Numbered(s.q.ran)
  {
    StartInv();
    EveryRunKeepsInv(START, steps);
    var s := Exec(START, steps);
    forall i | 0 <= i < |s.q.ran| && s.q.ran[i].Dispatched?
      ensures s.q.ran[i].number == Count(s.q.ran[..i], s.q.ran[i].thread)
    {
      assert s.q.enqueued[i] == s.q.ran[i] && s.q.enqueued[..i] == s.q.ran[..i];
    }
  }

  lemma {:induction false} CancelPresent(log: seq<Action>, i: nat)
    requires i < |log| && log[i] == CancelBlock
    ensures CancelCount(log) >= 1
    decreases |log|
  {
    if i < |log| - 1 {
      CancelPresent(log[..|log| - 1], i);
    }
  }

  lemma {:induction false} CancelSplit(a: seq<Action>, b: seq<Action>)
    ensures CancelCount(a + b) == CancelCount(a) + CancelCount(b)
    decreases |b|
  {
    if b == [] {
      assert a + b == a;
    } else {
      CancelSplit(a, b[..|b| - 1]);
      assert (a + b)[..|a + b| - 1] == a + b[..|b| - 1];
    }
  }

  /** The cancel handler runs at most once, and only after everything that was
      enqueued before the cancel block. */
  lemma CancelLast(steps: seq<Step>)
    ensures var s := Exec(START, steps);
      && s.q.cancelHandlerCalls <= 1
      && (s.q.cancelHandlerCalls == 1 <==> CancelBlock in s.q.ran)
      && forall i :: 0 <= i < |s.q.enqueued| && s.q.enqueued[i] == CancelBlock && s.q.cancelHandlerCalls == 1
           ==> i < |s.q.ran| && s.q.ran[..i] == s.q.enqueued[..i]
  {
    hide Exec, CancelCount;
    StartInv();
    EveryRunKeepsInv(START, steps);
    var s := Exec(START, steps);
    var rest := InHand(s) + s.q.actions;
    assert s.q.enqueued == s.q.ran + rest;
    CancelSplit(s.q.ran, rest);
    CancelPresence(s.q.ran);
    forall i | 0 <= i < |s.q.enqueued| && s.q.enqueued[i] == CancelBlock && s.q.cancelHandlerCalls == 1
      ensures i < |s.q.ran| && s.q.ran[..i] == s.q.enqueued[..i]
    {
      BeforeCancel(s.q.ran, rest, i);
    }
  }

  lemma BeforeCancel(ran: seq<Action>, rest: seq<Action>, i: nat)
    requires i < |ran + rest| && (ran + rest)[i] == CancelBlock
    requires CancelCount(rest) == 0
    ensures i < |ran| && ran[..i] == (ran + rest)[..i]
  {
    CancelPresence(rest);
  }

  lemma CancelPresence(log: seq<Action>)
    ensures CancelCount(log) >= 1 <==> CancelBlock in log
  {
    if CancelBlock in log {
      var i :| 0 <= i < |log| && log[i] == CancelBlock;
      CancelPresent(log, i);
    } else {
      NoCancel(log);
    }
  }

  lemma {:induction false} NoCancel(log: seq<Action>)
    requires CancelBlock !in log
    ensures CancelCount(log) == 0
    decreases |log|
  {
    if log != [] {
      assert log[|log| - 1] in log;
      NoCancel(log[..|log| - 1]);
    }
  }

  /** Left alone, a handler that has started runs everything enqueued and stops. */
  lemma {:induction false} HandlerDrains(s: System) returns (steps: seq<Step>)
    requires !s.handler.Idle?
    requires s.q.enqueued == s.q.ran + InHand(s) + s.q.actions
    ensures forall step <- steps :: step == HandlerDequeues || step == HandlerRuns
    ensures Exec(s, steps).handler.Idle? && Exec(s, steps).q.ran == s.q.enqueued && Exec(s, steps).q.enqueued == s.q.enqueued
    decreases |s.q.actions|, s.handler.Holding?
  {
    if s.handler.Dequeuing? && s.q.actions == [] {
      steps := [HandlerDequeues];
      assert Exec(s, steps) == Exec(Apply(s, HandlerDequeues), []);
    } else {
      var step := if s.handler.Holding? then HandlerRuns else HandlerDequeues;
      var rest := HandlerDrains(Apply(s, step));
      steps := [step] + rest;
      assert steps[1..] == rest;
    }
  }

  /** The interrupt is on the work loop from activation until a cancel block runs,
      and nothing runs before activation. */
  ghost predicate AttachedInv(s: System) {
    && (s.q.attached <==> s.q.activated && CancelBlock !in s.q.ran)
    && (s.q.ran != [] || !s.handler.Idle? ==> s.q.activated)
  }

  lemma {:induction false} RunKeepsAttached(s: System, steps: seq<Step>)
    requires AttachedInv(s)
    ensures AttachedInv(Exec(s, steps))
    ensures Exec(s, steps).q.activated <==> s.q.activated || Activate in steps
    decreases |steps|
  {
    if steps != [] {
      var t := Apply(s, steps[0]);
      assert AttachedInv(t) && (t.q.activated <==> s.q.activated || steps[0] == Activate);
      RunKeepsAttached(t, steps[1..]);
      assert steps == [steps[0]] + steps[1..];
    }
  }

  /** In every run the queue is attached exactly if it has been activated, before or
      after it was cancelled, and no cancel block has run yet. */
  lemma AttachedIff(steps: seq<Step>)
    ensures Exec(START, steps).q.attached <==> Activate in steps && CancelBlock !in Exec(START, steps).q.ran
  {
    RunKeepsAttached(START, steps);
  }

  /** So in every reachable state of a queue that has been activated and whose cancel
      block has not run, once the interrupts about to be raised are raised, the
      handler alone can finish all the work. */
  lemma EverythingGetsRun(before: seq<Step>) returns (after: seq<Step>)
    requires var s := Exec(START, before); Activate in before && CancelBlock !in s.q.ran && s.signalling == {}
    ensures forall step <- after :: step.HandlerStarts? || step.HandlerDequeues? || step.HandlerRuns?
    ensures var s, t := Exec(START, before), Exec(Exec(START, before), after);
      t.q.ran == s.q.enqueued == t.q.enqueued && t.handler.Idle?
  {
    StartInv();
    EveryRunKeepsInv(START, before);
    AttachedIff(before);
    var s := Exec(START, before);
    if !s.handler.Idle? {
      after := HandlerDrains(s);
    } else if s.q.actions == [] {
      after := [];
    } else {
      var rest := HandlerDrains(Apply(s, HandlerStarts));
      after := [HandlerStarts] + rest;
      assert after[1..] == rest;
    }
  }
}
