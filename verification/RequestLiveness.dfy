/** Whether a request can complete (xhci.rs): from any reachable state of RequestStack with a
    request under way, some steps of the task itself, the controller and the poll task complete
    it, unless the controller has already passed over the TRB awaited. */
module RequestLiveness {
  import opened Results
  import opened Trbs
  import opened RequestStack
  import Ring = CommandRings
  import Events = EventRings
  import Dispatch
  import Requests = ControlTransfers

  /** The controller has posted an event for TRB number k, or is about to publish one. */
  predicate PostedFor(s: State, k: nat)
  {
    || (exists j :: 0 <= j < |s.core.hist| && s.core.hist[j].origin == Requests.Of(k))
    || (s.pending.Some? && s.pending.value.origin == Requests.Of(k))
  }

  /** The request's own event has not been posted but one of a later TRB has; events come in
      TRB order, so now it never will be. */
  ghost predicate Overtaken(s: State)
    requires !s.core.task.Idle?
  {
    && !PostedFor(s, s.core.task.target)
    && exists k :: s.core.task.target < k && PostedFor(s, k)
  }

  /** The request under way in s ends with these steps, and receives an event of its TRB. */
  ghost predicate Completes(s: State, base: nat, evBase: nat, steps: seq<Step>)
    requires Wf(s) && !s.core.task.Idle?
  {
    var s' := Run(s, base, evBase, steps);
    && s'.core.task.Idle? && |s'.received| == |s.received| + 1 && s.received <= s'.received
    && s'.received[|s.received|].0 == s.core.task.target
    && EventOf(s', s.core.task.target, s'.received[|s.received|].1)
  }

  // ----- finishing the pushes -----

  /** Sub-steps left of a push. */
  function StepsLeft(w: Ring.Writer): (n: nat)
  {
    match w
    case Idle => 0
    case AtLink => 1
    case Writing(_, data, option, control) =>
      2 + (if data then 0 else 1) + (if option then 0 else 1) + (if control then 0 else 1)
  }

  /** The next step of a task that is pushing. */
  function NextPush(core: Requests.State): (step: Step)
    requires core.task.Submitting?
  {
    match core.ring.w
    case Idle => if core.task.rest == [] then Register else Own(Requests.Drive(Ring.Begin(core.task.rest[0])))
    case AtLink => Own(Requests.Drive(Ring.FlipLink))
    case Writing(_, data, option, control) =>
      Own(Requests.Drive(
        if !data then Ring.StoreData else if !option then Ring.StoreOption
        else if !control then Ring.StoreControl else Ring.Publish))
  }

  /** TRBs begun and still to begin. */
  function Planned(core: Requests.State): (n: nat)
  {
    Requests.Begun(core.ring) + if core.task.Submitting? then |core.task.rest| else 0
  }

  lemma NextPushEnabled(s: State, base: nat, evBase: nat)
    requires Inv(s, base, evBase) && s.core.task.Submitting?
    ensures Enabled(s, base, evBase, NextPush(s.core))
  {
    hide Events.Inv;
    if s.core.ring.w.Idle? && s.core.task.rest != [] {
      Requests.PushNeverBlocked(s.core, base);
    }
  }

  lemma NextPushEffect(core: Requests.State, base: nat, step: Requests.Step)
    requires Requests.Wf(core) && core.task.Submitting? && step.Drive?
    requires NextPush(core) == Own(step) && Requests.Enabled(core, base, step)
    ensures var core' := Requests.Apply(core, base, step);
            && core'.task.Submitting? && core'.task.target == core.task.target
            && core'.hist == core.hist && core'.popped == core.popped && core'.ring.consumed == core.ring.consumed
            && Planned(core') == Planned(core)
            && |core'.task.rest| <= |core.task.rest|
            && (|core'.task.rest| < |core.task.rest| || StepsLeft(core'.ring.w) < StepsLeft(core.ring.w))
  {
  }

  /** A task that is pushing comes to wait, by steps of its own. */
  lemma {:induction false} PushesFinish(s: State, base: nat, evBase: nat) returns (steps: seq<Step>)
    requires Inv(s, base, evBase) && s.core.task.Submitting?
    ensures Inv(Run(s, base, evBase, steps), base, evBase)
    ensures var s' := Run(s, base, evBase, steps);
            && s'.core.task == Requests.Waiting(s.core.task.target, s.core.popped)
            && s'.core.hist == s.core.hist && s'.pending == s.pending && s'.received == s.received && s'.ev == s.ev
            && Planned(s'.core) == Planned(s.core) && s'.core.ring.consumed == s.core.ring.consumed
    decreases |s.core.task.rest|, StepsLeft(s.core.ring.w)
  {
    var step := NextPush(s.core);
    NextPushEnabled(s, base, evBase);
    StepKeepsInv(s, base, evBase, step);
    var s1 := Apply(s, base, evBase, step);
    if step.Register? {
      steps := [step];
      RunFirst(s, base, evBase, step, []);
      assert [step] + [] == steps;
    } else {
      NextPushEffect(s.core, base, step.step);
      hide Inv, Apply, Enabled, NextPush, Planned;
      var rest := PushesFinish(s1, base, evBase);
      steps := [step] + rest;
      RunFirst(s, base, evBase, step, rest);
    }
  }

  // ----- bringing the event -----

  /** Where the poll task is, counted down to the delivery. */
  function PopLeft(pc: Events.Popper): (n: nat)
  {
    match pc
    case Idle => 3
    case Checked => 2
    case Holding(_) => 1
    case Moved(_) => 0
  }

  function Owed(s: State): (n: nat)
    requires !s.core.task.Idle?
  {
    if PostedFor(s, s.core.task.target) then 0 else 1
  }

  function Unconsumed(s: State): (n: int) { |s.core.ring.pushed| - |s.core.ring.consumed| }

  function Unread(s: State): (n: int) { |s.ev.posted| - |s.ev.popped| }

  function PendingCount(s: State): (n: nat) { if s.pending.Some? then 1 else 0 }

  /** One state is nearer to completion than another. */
  ghost predicate Nearer(s': State, s: State)
    requires !s'.core.task.Idle? && !s.core.task.Idle?
  {
    (Owed(s), Unconsumed(s), s.core.ring.at, PendingCount(s), Unread(s), PopLeft(s.ev.pc) decreases to
     Owed(s'), Unconsumed(s'), s'.core.ring.at, PendingCount(s'), Unread(s'), PopLeft(s'.ev.pc))
  }

  /** A step that leaves the request waiting for the same TRB, not overtaken, nearer to
      completion. */
  ghost predicate Helps(s: State, s': State)
    requires s.core.task.Waiting?
  {
    s'.core.task == s.core.task && s'.received == s.received && !Overtaken(s') && Nearer(s', s)
  }

  /** A sub-step of the poll task. */
  function NextPop(pc: Events.Popper): (step: Step)
  {
    match pc
    case Idle => Check
    case Checked => Read
    case Holding(_) => Move
    case Moved(_) => Deliver
  }

  lemma SamePosted(s: State, s': State)
    requires s'.core.hist == s.core.hist && s'.pending == s.pending
    ensures forall k: nat :: PostedFor(s', k) == PostedFor(s, k)
  {
  }

  lemma PopEnabled(s: State, base: nat, evBase: nat)
    requires Inv(s, base, evBase) && s.core.task.Waiting? && (!s.ev.pc.Idle? || Unread(s) > 0)
    ensures Enabled(s, base, evBase, NextPop(s.ev.pc))
  {
    FullRingDrains(s, base, evBase, Trb(0, 0, 0));
    hide Inv, Enabled;
  }

  lemma PopEffect(s: State, base: nat, evBase: nat)
    requires Wf(s) && s.core.task.Waiting? && Enabled(s, base, evBase, NextPop(s.ev.pc))
    ensures var s' := Apply(s, base, evBase, NextPop(s.ev.pc));
            && s'.core == s.core.(popped := s'.core.popped) && s'.pending == s.pending && s'.received == s.received
            && if s.ev.pc.Moved? then Unread(s') == Unread(s) - 1
               else Unread(s') == Unread(s) && PopLeft(s'.ev.pc) < PopLeft(s.ev.pc)
  {
  }

  lemma PopHelps(s: State, base: nat, evBase: nat)
    requires Inv(s, base, evBase) && s.core.task.Waiting? && !Overtaken(s)
    requires !s.ev.pc.Idle? || Unread(s) > 0
    ensures Enabled(s, base, evBase, NextPop(s.ev.pc))
    ensures Helps(s, Apply(s, base, evBase, NextPop(s.ev.pc)))
  {
    PopEnabled(s, base, evBase);
    PopEffect(s, base, evBase);
    CountsFacts(s, base, evBase);
    var s' := Apply(s, base, evBase, NextPop(s.ev.pc));
    SamePosted(s, s');
    hide Inv, Apply, Enabled, PostedFor, NextPop;
  }

  lemma PublishHelps(s: State, base: nat, evBase: nat)
    requires Inv(s, base, evBase) && s.core.task.Waiting? && !Overtaken(s) && s.pending.Some?
    ensures Enabled(s, base, evBase, Publish)
    ensures Helps(s, Apply(s, base, evBase, Publish))
  {
    hide Requests.Inv, Events.Inv;
    var s' := Apply(s, base, evBase, Publish);
    PublishedFor(s, s');
    hide PostedFor;
  }

  lemma PublishedFor(s: State, s': State)
    requires s.pending.Some? && s'.core.hist == s.core.hist + [s.pending.value] && s'.pending.None?
    ensures forall k: nat :: PostedFor(s', k) == PostedFor(s, k)
  {
    var n := |s.core.hist|;
    forall k: nat
      ensures PostedFor(s', k) == PostedFor(s, k)
    {
      if j :| 0 <= j < n && s.core.hist[j].origin == Requests.Of(k) {
        assert s'.core.hist[j].origin == Requests.Of(k);
      }
      assert s'.core.hist[n] == s.pending.value;
    }
  }

  lemma ConsumeHelps(s: State, base: nat, evBase: nat)
    requires Inv(s, base, evBase) && s.core.task.Waiting? && !Overtaken(s) && Unconsumed(s) > 0
    ensures Enabled(s, base, evBase, Consume)
    ensures Helps(s, Apply(s, base, evBase, Consume))
  {
    hide Events.Inv;
    RingReads(s.core.ring, base);
    var s' := Apply(s, base, evBase, Consume);
    SamePosted(s, s');
    hide PostedFor;
  }

  /** With four outstanding at most, the controller can read the next TRB, or pass the Link. */
  lemma RingReads(r: Ring.State, base: nat)
    requires Ring.Inv(r, base, Requests.LIMIT) && r.w.Idle? && |r.consumed| < |r.pushed|
    ensures Ring.Enabled(r, base, |r.pushed| + 1, Ring.Consume)
    ensures var r' := Ring.Apply(r, base, |r.pushed| + 1, Ring.Consume);
            && r'.pushed == r.pushed
            && (if r.at < Ring.SLOTS then |r'.consumed| == |r.consumed| + 1
                else r'.consumed == r.consumed && r'.at < r.at)
  {
    if r.at < Ring.SLOTS {
      Ring.SlotOwned(r, base, Requests.LIMIT);
      Ring.ConsumeSlot(r, base, Requests.LIMIT);
    } else {
      Ring.LinkOwned(r, base, Requests.LIMIT);
      Ring.ConsumeLink(r, base, Requests.LIMIT);
    }
    assert Ring.Apply(r, base, Requests.LIMIT, Ring.Consume) == Ring.Apply(r, base, |r.pushed| + 1, Ring.Consume);
  }

  /** The event that the controller posts for the awaited TRB. */
  function OwnEvent(s: State, base: nat): (e: Requests.Event)
    requires !s.core.task.Idle?
  {
    Requests.Event(Trb(Requests.Addr(base, s.core.task.target), 0, 0), Requests.Of(s.core.task.target))
  }

  lemma PostHelps(s: State, base: nat, evBase: nat)
    requires Inv(s, base, evBase) && s.core.task.Waiting? && !Overtaken(s)
    requires s.pending.None? && Owed(s) == 1 && Unconsumed(s) == 0 && Unread(s) == 0
    ensures Enabled(s, base, evBase, Post(OwnEvent(s, base)))
    ensures Helps(s, Apply(s, base, evBase, Post(OwnEvent(s, base))))
  {
    hide Events.Inv;
    var e := OwnEvent(s, base);
    OwnMayFollow(s, base);
    RoomWhenRead(s.ev, evBase, e.trb);
    assert Enabled(s, base, evBase, Post(e));
    assert PostedFor(Apply(s, base, evBase, Post(e)), s.core.task.target);
  }

  lemma OwnMayFollow(s: State, base: nat)
    requires Requests.Inv(s.core, base) && s.core.task.Waiting? && !Overtaken(s)
    requires Owed(s) == 1 && Unconsumed(s) == 0
    ensures MayAppend(s.core, base, OwnEvent(s, base))
  {
    forall i | 0 <= i < |s.core.hist| && s.core.hist[i].origin.Of?
      ensures s.core.hist[i].origin.k <= s.core.task.target
    {
      assert PostedFor(s, s.core.hist[i].origin.k);
    }
  }

  /** The controller and the poll task. */
  predicate ByOthers(step: Step)
  {
    step.Consume? || step.Post? || step.Publish? || step.Check? || step.Read? || step.Move? || step.Deliver?
  }

  /** As long as a waiting request cannot complete at once, a step of the controller or the
      poll task brings it nearer. */
  lemma SomeStepHelps(s: State, base: nat, evBase: nat) returns (step: Step)
    requires Inv(s, base, evBase) && s.core.task.Waiting? && !Overtaken(s)
    requires !Enabled(s, base, evBase, Complete)
    ensures ByOthers(step) && Enabled(s, base, evBase, step) && Helps(s, Apply(s, base, evBase, step))
  {
    hide Apply, Helps, Overtaken;
    CountsFacts(s, base, evBase);
    if !s.ev.pc.Idle? || Unread(s) > 0 {
      PopHelps(s, base, evBase);
      step := NextPop(s.ev.pc);
    } else if s.pending.Some? {
      PublishHelps(s, base, evBase);
      step := Publish;
    } else if Unconsumed(s) > 0 {
      ConsumeHelps(s, base, evBase);
      step := Consume;
    } else {
      if Owed(s) == 0 {
        var j :| 0 <= j < |s.core.hist| && s.core.hist[j].origin == Requests.Of(s.core.task.target);
        var i := PoppedCompletes(s, base, evBase, j);
        assert false;
      }
      PostHelps(s, base, evBase);
      step := Post(OwnEvent(s, base));
    }
  }

  lemma InvWf(s: State, base: nat, evBase: nat)
    requires Inv(s, base, evBase)
    ensures Wf(s)
  {
  }

  lemma CountsFacts(s: State, base: nat, evBase: nat)
    requires Inv(s, base, evBase)
    ensures Unread(s) >= 0 && Unconsumed(s) >= 0 && |s.ev.posted| == |s.core.hist|
  {
  }

  /** A waiting request that is not overtaken completes by finitely many steps of the controller
      and the poll task. */
  lemma {:induction false} WaitingCompletes(s: State, base: nat, evBase: nat) returns (steps: seq<Step>)
    requires Inv(s, base, evBase) && s.core.task.Waiting? && !Overtaken(s)
    ensures forall i :: 0 <= i < |steps| - 1 ==> ByOthers(steps[i])
    ensures steps != [] && steps[|steps| - 1] == Complete && Completes(s, base, evBase, steps)
    decreases Owed(s), Unconsumed(s), s.core.ring.at, PendingCount(s), Unread(s), PopLeft(s.ev.pc)
  {
    hide Inv, Apply, Overtaken, Completes, Owed, Unconsumed, PendingCount, Unread, PopLeft;
    InvWf(s, base, evBase);
    if Enabled(s, base, evBase, Complete) {
      steps := [Complete];
      CompletesNow(s, base, evBase);
    } else {
      var step := SomeStepHelps(s, base, evBase);
      StepKeepsInv(s, base, evBase, step);
      var s1 := Apply(s, base, evBase, step);
      CountsFacts(s, base, evBase);
      CountsFacts(s1, base, evBase);
      var rest := WaitingCompletes(s1, base, evBase);
      steps := [step] + rest;
      CompletesAfter(s, base, evBase, step, rest);
    }
  }

  lemma CompletesAfter(s: State, base: nat, evBase: nat, step: Step, rest: seq<Step>)
    requires Wf(s) && !s.core.task.Idle? && Enabled(s, base, evBase, step)
    requires var s1 := Apply(s, base, evBase, step);
             && !s1.core.task.Idle? && s1.core.task.target == s.core.task.target && s1.received == s.received
             && Completes(s1, base, evBase, rest)
    ensures Completes(s, base, evBase, [step] + rest)
  {
    hide Apply, Enabled, EventOf, Run;
    RunFirst(s, base, evBase, step, rest);
  }

  lemma RunFirst(s: State, base: nat, evBase: nat, step: Step, rest: seq<Step>)
    requires Wf(s) && Enabled(s, base, evBase, step)
    ensures Run(s, base, evBase, [step] + rest) == Run(Apply(s, base, evBase, step), base, evBase, rest)
  {
    hide Apply, Enabled;
    assert ([step] + rest)[1..] == rest;
  }

  lemma CompletesNow(s: State, base: nat, evBase: nat)
    requires Inv(s, base, evBase) && s.core.task.Waiting? && Enabled(s, base, evBase, Complete)
    ensures Completes(s, base, evBase, [Complete])
  {
    hide Requests.Inv, Events.Inv, Dispatch.Inv, EventOf, Dispatch.Apply;
    var i: nat :| Ready(s, i) && Apply(s, base, evBase, Complete) == Completed(s, base, i);
    FrontIsOwn(s, base, evBase, i);
    CompleteEffect(s.core, base);
    EventStays(s, Completed(s, base, i));
    RunFirst(s, base, evBase, Complete, []);
    assert [Complete] + [] == [Complete];
  }

  // ----- when the controller passes over the awaited TRB -----

  /** The same request is under way, still without its event and with a later TRB's posted. */
  ghost predicate StaysOvertaken(s: State, s': State)
    requires !s.core.task.Idle?
  {
    && !s'.core.task.Idle? && s'.core.task.target == s.core.task.target
    && s'.received == s.received && Overtaken(s')
  }

  /** Once overtaken a request stays so: whatever anyone does, it never completes. */
  lemma OvertakenStays(s: State, base: nat, evBase: nat, step: Step)
    requires Inv(s, base, evBase) && !s.core.task.Idle? && Overtaken(s) && Enabled(s, base, evBase, step)
    ensures StaysOvertaken(s, Apply(s, base, evBase, step))
  {
    hide Inv, Apply, Enabled, Overtaken;
    match step
    case Post(e) => LaterStays(s, base, evBase, e);
    case Complete => NothingToTake(s, base, evBase);
    case _ => QuietStays(s, base, evBase, step);
  }

  lemma QuietStays(s: State, base: nat, evBase: nat, step: Step)
    requires Inv(s, base, evBase) && !s.core.task.Idle? && Overtaken(s) && Enabled(s, base, evBase, step)
    requires !step.Post? && !step.Complete?
    ensures StaysOvertaken(s, Apply(s, base, evBase, step))
  {
    QuietEffect(s, base, evBase, step);
    hide Inv, Apply, Enabled;
    if step.Publish? {
      PublishedFor(s, Apply(s, base, evBase, step));
    } else {
      SamePosted(s, Apply(s, base, evBase, step));
    }
    hide PostedFor;
  }

  lemma QuietEffect(s: State, base: nat, evBase: nat, step: Step)
    requires Wf(s) && !s.core.task.Idle? && Enabled(s, base, evBase, step) && !step.Post? && !step.Complete?
    ensures var s' := Apply(s, base, evBase, step);
            && !s'.core.task.Idle? && s'.core.task.target == s.core.task.target && s'.received == s.received
            && if step.Publish? then
                 s.pending.Some? && s'.core.hist == s.core.hist + [s.pending.value] && s'.pending.None?
               else s'.core.hist == s.core.hist && s'.pending == s.pending
  {
  }

  /** What a waiter finds in its queue is an event of its own TRB, of which there is none. */
  lemma NothingToTake(s: State, base: nat, evBase: nat)
    requires Inv(s, base, evBase) && !s.core.task.Idle? && Overtaken(s)
    ensures !Enabled(s, base, evBase, Complete)
  {
    hide Inv;
    InvWf(s, base, evBase);
    if Enabled(s, base, evBase, Complete) {
      var i: nat :| Ready(s, i);
      FrontIsOwn(s, base, evBase, i);
      assert false;
    }
  }

  /** No event for the awaited TRB can follow one of a later TRB. */
  lemma LaterStays(s: State, base: nat, evBase: nat, e: Requests.Event)
    requires Inv(s, base, evBase) && !s.core.task.Idle? && Overtaken(s) && Enabled(s, base, evBase, Post(e))
    ensures var s' := Apply(s, base, evBase, Post(e));
            s'.core == s.core && s'.received == s.received && Overtaken(s')
  {
    hide Requests.Inv, Events.Inv;
    var s' := Apply(s, base, evBase, Post(e));
    var k :| s.core.task.target < k && PostedFor(s, k);
    assert PostedFor(s', k);
  }

  lemma {:induction false} OvertakenForEver(s: State, base: nat, evBase: nat, steps: seq<Step>)
    requires Inv(s, base, evBase) && !s.core.task.Idle? && Overtaken(s)
    ensures StaysOvertaken(s, Run(s, base, evBase, steps))
    decreases |steps|
  {
    if steps != [] {
      if Enabled(s, base, evBase, steps[0]) {
        StepKeepsInv(s, base, evBase, steps[0]);
        OvertakenStays(s, base, evBase, steps[0]);
        hide Inv, Apply, Enabled, Overtaken;
        OvertakenForEver(Apply(s, base, evBase, steps[0]), base, evBase, steps[1..]);
      } else {
        hide Inv, Apply, Enabled, Overtaken;
        OvertakenForEver(s, base, evBase, steps[1..]);
      }
    }
  }

  /** A request under way that is not overtaken: its pushes finish, then it completes. */
  lemma UnderWayCompletes(s: State, base: nat, evBase: nat) returns (steps: seq<Step>)
    requires Inv(s, base, evBase) && !s.core.task.Idle? && !Overtaken(s)
    ensures Completes(s, base, evBase, steps)
  {
    InvWf(s, base, evBase);
    hide Inv, Overtaken, Completes;
    if s.core.task.Waiting? {
      steps := WaitingCompletes(s, base, evBase);
    } else {
      var pushes := PushesFinish(s, base, evBase);
      var s1 := Run(s, base, evBase, pushes);
      SameOvertaken(s, s1);
      var rest := WaitingCompletes(s1, base, evBase);
      steps := pushes + rest;
      CompletesAfterAll(s, base, evBase, pushes, rest);
    }
  }

  lemma SameOvertaken(s: State, s': State)
    requires !s.core.task.Idle? && !s'.core.task.Idle? && s'.core.task.target == s.core.task.target
    requires s'.core.hist == s.core.hist && s'.pending == s.pending
    ensures Overtaken(s') == Overtaken(s)
  {
    SamePosted(s, s');
  }

  lemma CompletesAfterAll(s: State, base: nat, evBase: nat, steps: seq<Step>, rest: seq<Step>)
    requires Wf(s) && !s.core.task.Idle?
    requires var s1 := Run(s, base, evBase, steps);
             && !s1.core.task.Idle? && s1.core.task.target == s.core.task.target && s1.received == s.received
             && Completes(s1, base, evBase, rest)
    ensures Completes(s, base, evBase, steps + rest)
  {
    hide EventOf, Run;
    RunAppend(s, base, evBase, steps, rest);
  }

  lemma {:induction false} RunAppend(s: State, base: nat, evBase: nat, a: seq<Step>, b: seq<Step>)
    requires Wf(s)
    ensures Run(s, base, evBase, a + b) == Run(Run(s, base, evBase, a), base, evBase, b)
    decreases |a|
  {
    hide Apply, Enabled;
    if a == [] {
      assert a + b == b;
    } else {
      var next := if Enabled(s, base, evBase, a[0]) then Apply(s, base, evBase, a[0]) else s;
      assert (a + b)[1..] == a[1..] + b;
      RunAppend(next, base, evBase, a[1..], b);
    }
  }

  /** Progress, exactly: in every state that any interleaving reaches with a request under way,
      some steps complete it if and only if the controller has not passed over its TRB. */
  lemma UnderWayCompletesIff(base: nat, evBase: nat, steps: seq<Step>)
    requires evBase % 16 == 0 && !Run(Init(base, evBase), base, evBase, steps).core.task.Idle?
    ensures var s := Run(Init(base, evBase), base, evBase, steps);
            (exists more :: Completes(s, base, evBase, more)) <==> !Overtaken(s)
  {
    InitInv(base, evBase);
    RunKeepsInv(Init(base, evBase), base, evBase, steps);
    var s := Run(Init(base, evBase), base, evBase, steps);
    hide Inv, Overtaken, Run;
    if !Overtaken(s) {
      var more := UnderWayCompletes(s, base, evBase);
    } else {
      forall more: seq<Step>
        ensures !Completes(s, base, evBase, more)
      {
        OvertakenForEver(s, base, evBase, more);
      }
    }
  }

  /** A request whose awaited TRB is its last, a command or one without data, is never
      overtaken: no later TRB is there to be answered first. */
  lemma LastTrbNotOvertaken(s: State, base: nat, evBase: nat)
    requires Inv(s, base, evBase) && !s.core.task.Idle? && s.core.task.target + 1 == Planned(s.core)
    ensures !Overtaken(s)
  {
    hide Events.Inv;
  }

  lemma AwaitedLastIff(s: State, base: nat, evBase: nat, r: Requests.Request)
    requires Inv(s, base, evBase) && Enabled(s, base, evBase, Own(Requests.Submit(r)))
    ensures var s' := Apply(s, base, evBase, Own(Requests.Submit(r)));
            s'.core.task.target + 1 == Planned(s'.core) <==> !r.DataIn?
  {
    hide Events.Inv;
  }

  /** A controller that answers the status stage of a request for
      data before its data stage leaves the request waiting for ever. */
  lemma OvertakenReachable(base: nat, evBase: nat) returns (steps: seq<Step>)
    requires evBase % 16 == 0
    ensures var s := Run(Init(base, evBase), base, evBase, steps); s.core.task.Waiting? && Overtaken(s)
  {
    var r := Requests.DataIn(Trb(0, 0, 0), Trb(0, 0, 0), Trb(0, 0, 0));
    var s0 := DataRequestBegins(base, evBase, r);
    hide Inv, Run, Apply, Enabled, Fresh, Overtaken;
    var rest := PassedOver(s0, base, evBase);
    steps := [Own(Requests.Submit(r))] + rest;
    RunFirst(Init(base, evBase), base, evBase, Own(Requests.Submit(r)), rest);
  }

  /** A request for data just submitted on unused rings. */
  predicate Fresh(s: State)
  {
    && s.core.task.Submitting? && s.core.task.target == 1 && Planned(s.core) == 3
    && s.core.hist == [] && s.core.popped == 0 && s.pending.None? && s.ev.popped == s.ev.posted
  }

  lemma DataRequestBegins(base: nat, evBase: nat, r: Requests.Request) returns (s: State)
    requires evBase % 16 == 0 && r == Requests.DataIn(Trb(0, 0, 0), Trb(0, 0, 0), Trb(0, 0, 0))
    ensures Enabled(Init(base, evBase), base, evBase, Own(Requests.Submit(r)))
    ensures s == Apply(Init(base, evBase), base, evBase, Own(Requests.Submit(r)))
    ensures Inv(s, base, evBase) && Fresh(s)
  {
    InitInv(base, evBase);
    assert TrbType(Trb(0, 0, 0)) == 0;
    StepKeepsInv(Init(base, evBase), base, evBase, Own(Requests.Submit(r)));
    s := Apply(Init(base, evBase), base, evBase, Own(Requests.Submit(r)));
    hide Inv;
  }

  /** The pushes, the controller's reads, and an event for the third TRB. */
  lemma PassedOver(s: State, base: nat, evBase: nat) returns (steps: seq<Step>)
    requires Inv(s, base, evBase) && Fresh(s)
    ensures var s' := Run(s, base, evBase, steps); s'.core.task.Waiting? && Overtaken(s')
  {
    InvWf(s, base, evBase);
    hide Inv, Run, Apply, Enabled, Overtaken;
    var pushes := PushesFinish(s, base, evBase);
    var s1 := Run(s, base, evBase, pushes);
    InvWf(s1, base, evBase);
    var rest := ReadAndPost(s1, base, evBase);
    steps := pushes + rest;
    RunAppend(s, base, evBase, pushes, rest);
  }

  lemma ReadAndPost(s: State, base: nat, evBase: nat) returns (steps: seq<Step>)
    requires Inv(s, base, evBase) && s.core.task == Requests.Waiting(1, 0) && s.core.hist == [] && s.pending.None?
    requires Planned(s.core) == 3 && s.ev.popped == s.ev.posted
    ensures var s' := Run(s, base, evBase, steps); s'.core.task.Waiting? && Overtaken(s')
  {
    AllBegun(s, base, evBase);
    hide Inv, Run, Apply, Enabled, Overtaken;
    var rest := ReadsAll(s, base, evBase);
    var s1 := Run(s, base, evBase, rest);
    RunKeepsInv(s, base, evBase, rest);
    var e := Requests.Event(Trb(Requests.Addr(base, 2), 0, 0), Requests.Of(2));
    ThreeConsumed(s1, base, evBase, e);
    steps := rest + [Post(e)];
    RunFirst(s1, base, evBase, Post(e), []);
    RunAppend(s, base, evBase, rest, [Post(e)]);
    assert [Post(e)] + [] == [Post(e)];
    RunNothing(Apply(s1, base, evBase, Post(e)), base, evBase);
  }

  lemma RunNothing(s: State, base: nat, evBase: nat)
    requires Wf(s)
    ensures Run(s, base, evBase, []) == s
  {
  }

  lemma AllBegun(s: State, base: nat, evBase: nat)
    requires Inv(s, base, evBase) && s.core.task.Waiting?
    ensures Wf(s) && |s.core.ring.pushed| == Planned(s.core)
  {
  }

  /** The controller alone reads all that was pushed. */
  lemma {:induction false} ReadsAll(s: State, base: nat, evBase: nat) returns (steps: seq<Step>)
    requires Inv(s, base, evBase) && s.core.task.Waiting?
    ensures var s' := Run(s, base, evBase, steps);
            && s'.core == s.core.(ring := s'.core.ring) && s'.core.ring.pushed == s.core.ring.pushed
            && |s'.core.ring.consumed| == |s.core.ring.pushed|
            && s'.ev == s.ev && s'.pending == s.pending && s'.received == s.received
    decreases Unconsumed(s), s.core.ring.at
  {
    CountsFacts(s, base, evBase);
    if Unconsumed(s) == 0 {
      steps := [];
    } else {
      RingReads(s.core.ring, base);
      StepKeepsInv(s, base, evBase, Consume);
      var s1 := Apply(s, base, evBase, Consume);
      CountsFacts(s1, base, evBase);
      assert s1.core == s.core.(ring := s1.core.ring);
      hide Inv, Apply, Enabled;
      var rest := ReadsAll(s1, base, evBase);
      steps := [Consume] + rest;
      RunFirst(s, base, evBase, Consume, rest);
    }
  }

  lemma ThreeConsumed(s: State, base: nat, evBase: nat, e: Requests.Event)
    requires Inv(s, base, evBase) && s.core.task == Requests.Waiting(1, 0) && s.core.hist == [] && s.pending.None?
    requires |s.core.ring.consumed| == 3 && s.ev.popped == s.ev.posted
    requires e == Requests.Event(Trb(Requests.Addr(base, 2), 0, 0), Requests.Of(2))
    ensures Enabled(s, base, evBase, Post(e))
    ensures var s' := Apply(s, base, evBase, Post(e)); s'.core == s.core && Overtaken(s')
  {
    RoomWhenRead(s.ev, evBase, e.trb);
    hide Requests.Inv, Events.Inv;
    assert PostedFor(Apply(s, base, evBase, Post(e)), 2);
  }
}
