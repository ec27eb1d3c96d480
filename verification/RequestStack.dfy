/** The driver's request path as one machine (xhci.rs): requests of ControlTransfers over the
    word-by-word command ring, completions through the real event ring with its sixteen slots
    and trailing ERDP, and the dispatcher's wait list.  Other waiters come and go freely.

    Tasks are cooperative: while a request is pushing, or the poll task is inside `pop`, no
    other task moves.  The controller moves at any time. */
module RequestStack {
  import opened Results
  import opened Trbs
  import Ring = CommandRings
  import Events = EventRings
  import Dispatch
  import Requests = ControlTransfers

  /** `core` holds the ring, the requesting task and, as history, where every event came from;
      `mine` is the registration number of the request's waiter, `pending` the event being
      posted, and `received` what each completed request took from its queue. */
  datatype State = State(core: Requests.State, ev: Events.State, disp: Dispatch.State, mine: nat,
                         pending: Option<Requests.Event>, received: seq<(nat, Trb)>)

  datatype Step =
    | Own(step: Requests.Step)           // the requesting task: submit, or a sub-step of push
    | Register
    | Complete
    | Consume                            // the controller
    | Post(e: Requests.Event)
    | Publish
    | Low(bits: nat)
    | Check                              // the poll task
    | Read
    | Move
    | Deliver
    | Other(other: Dispatch.Step)        // other futures

  function Init(base: nat, evBase: nat): (s: State)
  {
    State(Requests.Init(base), Events.Init(evBase), Dispatch.START, 0, None, [])
  }

  predicate Wf(s: State) { Requests.Wf(s.core) && Events.Wf(s.ev) }

  /** The controller posts for consumed TRBs in TRB order, or something foreign to the ring. */
  predicate MayAppend(core: Requests.State, base: nat, e: Requests.Event)
  {
    match e.origin
    case Of(k) => Requests.MayPost(core, k) && e.trb.data == Requests.Addr(base, k)
    case Foreign => !Requests.InRing(base, e.trb.data)
  }

  /** Position i of the wait list is the request's waiter and has an event queued. */
  predicate Ready(s: State, i: nat)
  {
    && i < |s.disp.waiters|
    && var w := s.disp.waiters[i]; w.id == s.mine && w.alive && w.queue != []
  }

  /** What another future may do to the wait list: not touch the request's waiter. */
  predicate Elsewhere(s: State, step: Dispatch.Step)
  {
    match step
    case Event(_) => false
    case Register(_) => true
    case Take(i) => i < |s.disp.waiters| && s.disp.waiters[i].id != s.mine
    case Release(i) => i < |s.disp.waiters| && s.disp.waiters[i].id != s.mine
  }

  ghost predicate Enabled(s: State, base: nat, evBase: nat, step: Step)
    requires Wf(s)
  {
    match step
    case Own(step) => s.ev.pc.Idle? && (step.Submit? || step.Drive?) && Requests.Enabled(s.core, base, step)
    case Register => s.ev.pc.Idle? && Requests.Enabled(s.core, base, Requests.Register)
    case Complete => s.ev.pc.Idle? && s.core.task.Waiting? && exists i: nat :: Ready(s, i)
    case Consume => Requests.Enabled(s.core, base, Requests.Consume)
    case Post(e) => s.pending.None? && MayAppend(s.core, base, e) && Events.Enabled(s.ev, evBase, Events.Post(e.trb))
    case Publish => s.pending.Some? && Events.Enabled(s.ev, evBase, Events.Publish)
    case Low(bits) => Events.Enabled(s.ev, evBase, Events.Low(bits))
    case Check => !s.core.task.Submitting? && Events.Enabled(s.ev, evBase, Events.Check)
    case Read => Events.Enabled(s.ev, evBase, Events.Read)
    case Move => Events.Enabled(s.ev, evBase, Events.Move)
    case Deliver => Events.Enabled(s.ev, evBase, Events.Ack)
    case Other(step) => s.ev.pc.Idle? && !s.core.task.Submitting? && Elsewhere(s, step)
  }

  ghost function Apply(s: State, base: nat, evBase: nat, step: Step): (s': State)
    requires Wf(s) && Enabled(s, base, evBase, step)
    ensures Wf(s')
  {
    match step
    case Own(step) => s.(core := Requests.Apply(s.core, base, step))
    case Register => Registered(s, base)
    case Complete =>
      var i: nat :| Ready(s, i);
      Completed(s, base, i)
    case Consume => s.(core := Requests.Apply(s.core, base, Requests.Consume))
    case Post(e) => s.(ev := Events.Apply(s.ev, evBase, Events.Post(e.trb)), pending := Some(e))
    case Publish =>
      s.(ev := Events.Apply(s.ev, evBase, Events.Publish), pending := None,
         core := s.core.(hist := s.core.hist + [s.pending.value]))
    case Low(bits) => s.(ev := Events.Apply(s.ev, evBase, Events.Low(bits)))
    case Check => s.(ev := Events.Apply(s.ev, evBase, Events.Check))
    case Read => s.(ev := Events.Apply(s.ev, evBase, Events.Read))
    case Move => s.(ev := Events.Apply(s.ev, evBase, Events.Move))
    case Deliver =>
      s.(ev := Events.Apply(s.ev, evBase, Events.Ack),
         disp := Dispatch.Apply(s.disp, Dispatch.Event(s.ev.pc.e)),
         core := Noted(s.core, base, Requests.Poll))
    case Other(step) => s.(disp := Dispatch.Apply(s.disp, step))
  }

  /** The history of a step that the rings and the dispatcher have already made. */
  ghost function Noted(core: Requests.State, base: nat, step: Requests.Step): (core': Requests.State)
    requires Requests.Wf(core)
    ensures Requests.Wf(core')
  {
    if Requests.Enabled(core, base, step) then Requests.Apply(core, base, step) else core
  }

  /** The waiter for the awaited address joins the list. */
  ghost function Registered(s: State, base: nat): (s': State)
    requires Wf(s) && Requests.Enabled(s.core, base, Requests.Register)
    ensures Wf(s')
  {
    var addr := Requests.Addr(base, s.core.task.target);
    s.(core := Requests.Apply(s.core, base, Requests.Register),
       disp := Dispatch.Apply(s.disp, Dispatch.Register(Dispatch.ForTrb(addr))), mine := |s.disp.roster|)
  }

  /** The future takes the front of its queue and is dropped. */
  ghost function Completed(s: State, base: nat, i: nat): (s': State)
    requires Wf(s) && s.core.task.Waiting? && Ready(s, i)
    ensures Wf(s')
  {
    s.(core := Noted(s.core, base, Requests.Complete),
       disp := Dispatch.Apply(Dispatch.Apply(s.disp, Dispatch.Take(i)), Dispatch.Release(i)),
       received := s.received + [(s.core.task.target, s.disp.waiters[i].queue[0])])
  }

  ghost function Run(s: State, base: nat, evBase: nat, steps: seq<Step>): (s': State)
    requires Wf(s)
    ensures Wf(s')
    decreases |steps|
  {
    if steps == [] then s
    else
      var next := if Enabled(s, base, evBase, steps[0]) then Apply(s, base, evBase, steps[0]) else s;
      Run(next, base, evBase, steps[1..])
  }

  // ----- the invariant -----

  /** The three components speak of the same events. */
  predicate Joined(s: State)
  {
    && s.ev.posted == Requests.TrbLog(s.core.hist)
    && |s.ev.popped| == s.core.popped
    && s.disp.log == s.ev.popped
  }

  predicate PendingInv(s: State, base: nat)
  {
    match s.pending
    case None => s.ev.posting.None?
    case Some(e) => s.ev.posting == Some(e.trb) && MayAppend(s.core, base, e)
  }

  /** While a request waits, its waiter is the one registered under `mine`, has taken nothing
      and is not released. */
  predicate WaiterInv(s: State, base: nat)
  {
    s.core.task.Waiting? ==>
      && s.mine < |s.disp.roster|
      && s.disp.roster[s.mine]
         == Dispatch.Registration(Dispatch.ForTrb(Requests.Addr(base, s.core.task.target)), s.core.task.since, false)
      && Untaken(s.disp.waiters, s.mine)
  }

  predicate Untaken(ws: seq<Dispatch.Waiter>, id: nat) { forall w :: w in ws && w.id == id ==> w.taken == [] }

  /** t is an event that the controller posted for TRB number k. */
  predicate EventOf(s: State, k: nat, t: Trb)
  {
    exists j :: 0 <= j < |s.core.hist| && j < |s.ev.posted|
                && s.core.hist[j].origin == Requests.Of(k) && t == Events.Posted(s.ev.posted, j)
  }

  predicate ReceivedInv(s: State) { forall i :: 0 <= i < |s.received| ==> EventOf(s, s.received[i].0, s.received[i].1) }

  predicate Inv(s: State, base: nat, evBase: nat)
  {
    && Wf(s)
    && Requests.Inv(s.core, base) && Events.Inv(s.ev, evBase) && Dispatch.Inv(s.disp)
    && Joined(s) && PendingInv(s, base) && WaiterInv(s, base) && ReceivedInv(s)
    && (!s.ev.pc.Idle? ==> !s.core.task.Submitting?)
  }

  lemma InitInv(base: nat, evBase: nat)
    requires evBase % 16 == 0
    ensures Inv(Init(base, evBase), base, evBase)
  {
    Ring.InitInv(base, Requests.LIMIT);
    Events.InitInv(evBase);
  }

  // ----- steps of the requesting task and the controller's reads -----

  /** These touch neither the event history nor the ring's past. */
  predicate CoreOnly(step: Requests.Step) { step.Submit? || step.Drive? || step.Consume? || step.Register? }

  lemma CoreEffect(core: Requests.State, base: nat, step: Requests.Step)
    requires Requests.Wf(core) && CoreOnly(step) && Requests.Enabled(core, base, step)
    ensures var core' := Requests.Apply(core, base, step);
            && core'.hist == core.hist && core'.popped == core.popped
            && |core.ring.consumed| <= |core'.ring.consumed|
            && (core'.task.Waiting? && !step.Register? ==> core'.task == core.task)
            && (step.Register? ==> core'.task == Requests.Waiting(core.task.target, core.popped))
            && (core'.task.Submitting? ==> core.task.Submitting? || step.Submit?)
  {
  }

  lemma MayAppendStays(core: Requests.State, core': Requests.State, base: nat, e: Requests.Event)
    requires MayAppend(core, base, e) && core'.hist == core.hist && |core.ring.consumed| <= |core'.ring.consumed|
    ensures MayAppend(core', base, e)
  {
  }

  lemma CoreKeepsInv(s: State, base: nat, evBase: nat, step: Requests.Step)
    requires Inv(s, base, evBase) && CoreOnly(step) && !step.Register? && Requests.Enabled(s.core, base, step)
    requires s.ev.pc.Idle? || step.Consume?
    ensures Inv(s.(core := Requests.Apply(s.core, base, step)), base, evBase)
  {
    hide Requests.Inv, Requests.Apply, Requests.Enabled, Events.Inv, Dispatch.Inv, MayAppend, Untaken;
    Requests.StepKeepsInv(s.core, base, step);
    CoreEffect(s.core, base, step);
    if s.pending.Some? {
      MayAppendStays(s.core, Requests.Apply(s.core, base, step), base, s.pending.value);
    }
  }

  // ----- registration -----

  lemma RegisterKeepsInv(s: State, base: nat, evBase: nat)
    requires Inv(s, base, evBase) && Enabled(s, base, evBase, Register)
    ensures Inv(Registered(s, base), base, evBase)
  {
    hide Requests.Inv, Events.Inv, Dispatch.Inv, MayAppend, Untaken, EventOf, ReceivedInv;
    hide Requests.Apply;
    var s' := Registered(s, base);
    var cond := Dispatch.ForTrb(Requests.Addr(base, s.core.task.target));
    NewWaiterUntaken(s.disp, cond);
    Requests.StepKeepsInv(s.core, base, Requests.Register);
    CoreEffect(s.core, base, Requests.Register);
    Dispatch.StepKeepsInv(s.disp, Dispatch.Register(cond));
    if s.pending.Some? {
      MayAppendStays(s.core, s'.core, base, s.pending.value);
    }
    ReceivedStays(s, s');
  }

  lemma NewWaiterUntaken(d: Dispatch.State, cond: Dispatch.Cond)
    requires Dispatch.Inv(d)
    ensures Untaken(Dispatch.Apply(d, Dispatch.Register(cond)).waiters, |d.roster|)
  {
    forall w | w in d.waiters
      ensures w.id != |d.roster|
    {
      assert Dispatch.Enrolled(w, d.roster);
    }
  }

  // ----- the controller's posting -----

  lemma PostKeepsInv(s: State, base: nat, evBase: nat, e: Requests.Event)
    requires Inv(s, base, evBase) && Enabled(s, base, evBase, Post(e))
    ensures Inv(Apply(s, base, evBase, Post(e)), base, evBase)
  {
    Events.StepKeepsInv(s.ev, evBase, Events.Post(e.trb));
    hide Requests.Inv, Events.Inv, Dispatch.Inv, MayAppend, Untaken;
  }

  lemma PublishKeepsInv(s: State, base: nat, evBase: nat)
    requires Inv(s, base, evBase) && Enabled(s, base, evBase, Publish)
    ensures Inv(Apply(s, base, evBase, Publish), base, evBase)
  {
    var s' := Apply(s, base, evBase, Publish);
    PublishedCore(s.core, base, s.pending.value);
    hide Requests.Inv, Dispatch.Inv, MayAppend, Untaken;
    Events.StepKeepsInv(s.ev, evBase, Events.Publish);
    PublishJoined(s, evBase);
    ReceivedStays(s, s');
  }

  lemma PublishedCore(core: Requests.State, base: nat, e: Requests.Event)
    requires Requests.Inv(core, base) && MayAppend(core, base, e)
    ensures Requests.Inv(core.(hist := core.hist + [e]), base)
  {
    hide Requests.Inv;
    match e.origin
    case Of(k) => Requests.StepKeepsInv(core, base, Requests.Post(k, e.trb));
    case Foreign => Requests.StepKeepsInv(core, base, Requests.PostForeign(e.trb));
  }

  lemma PublishJoined(s: State, evBase: nat)
    requires Wf(s) && Joined(s) && s.pending.Some? && s.ev.posting == Some(s.pending.value.trb)
    ensures Events.Apply(s.ev, evBase, Events.Publish).posted == Requests.TrbLog(s.core.hist + [s.pending.value])
  {
  }

  /** What was received stays received while the histories only grow. */
  lemma ReceivedStays(s: State, s': State)
    requires ReceivedInv(s) && s'.received == s.received
    requires s.core.hist <= s'.core.hist && s.ev.posted <= s'.ev.posted
    ensures ReceivedInv(s')
  {
    forall i | 0 <= i < |s.received|
      ensures EventOf(s', s.received[i].0, s.received[i].1)
    {
      var k, t := s.received[i].0, s.received[i].1;
      assert EventOf(s, k, t);
      var j :| 0 <= j < |s.core.hist| && j < |s.ev.posted|
               && s.core.hist[j].origin == Requests.Of(k) && t == Events.Posted(s.ev.posted, j);
      assert s'.core.hist[j] == s.core.hist[j] && s'.ev.posted[j] == s.ev.posted[j];
    }
  }

  // ----- the poll task -----

  /** The sub-steps before the acknowledgement, and the hardware's low bits. */
  lemma QuietKeepsInv(s: State, base: nat, evBase: nat, step: Step, e: Events.Step)
    requires Inv(s, base, evBase) && Enabled(s, base, evBase, step)
    requires (step.Low? && e == Events.Low(step.bits)) || (step.Check? && e == Events.Check)
             || (step.Read? && e == Events.Read) || (step.Move? && e == Events.Move)
    ensures Inv(Apply(s, base, evBase, step), base, evBase)
  {
    hide Requests.Inv, Events.Inv, Dispatch.Inv, MayAppend, Untaken;
    Events.StepKeepsInv(s.ev, evBase, e);
    var s' := Apply(s, base, evBase, step);
    assert s' == s.(ev := Events.Apply(s.ev, evBase, e));
    ReceivedStays(s, s');
  }

  lemma DeliverKeepsInv(s: State, base: nat, evBase: nat)
    requires Inv(s, base, evBase) && Enabled(s, base, evBase, Deliver)
    ensures Inv(Apply(s, base, evBase, Deliver), base, evBase)
  {
    hide Requests.Inv, Events.Inv, Dispatch.Inv, MayAppend, Untaken, EventOf, ReceivedInv;
    hide Events.Apply, Dispatch.Apply, Requests.Apply, Events.Enabled;
    UnreadAhead(s, evBase);
    var s' := Apply(s, base, evBase, Deliver);
    DeliverEffect(s, base, evBase);
    Requests.StepKeepsInv(s.core, base, Requests.Poll);
    Events.StepKeepsInv(s.ev, evBase, Events.Ack);
    Dispatch.StepKeepsInv(s.disp, Dispatch.Event(s.ev.pc.e));
    if s.core.task.Waiting? {
      DeliverUntaken(s.disp, s.ev.pc.e, s.mine);
    }
    if s.pending.Some? {
      MayAppendStays(s.core, s'.core, base, s.pending.value);
    }
    ReceivedStays(s, s');
  }

  lemma DeliverEffect(s: State, base: nat, evBase: nat)
    requires Wf(s) && Events.Enabled(s.ev, evBase, Events.Ack) && Requests.Enabled(s.core, base, Requests.Poll)
    ensures var ev := Events.Apply(s.ev, evBase, Events.Ack);
            && ev.popped == s.ev.popped + [s.ev.pc.e] && ev.posted == s.ev.posted && ev.posting == s.ev.posting
            && ev.pc.Idle?
    ensures var disp := Dispatch.Apply(s.disp, Dispatch.Event(s.ev.pc.e));
            disp.log == s.disp.log + [s.ev.pc.e] && disp.roster == s.disp.roster
    ensures Requests.Apply(s.core, base, Requests.Poll) == s.core.(popped := s.core.popped + 1)
  {
    hide Dispatch.Deliver;
  }

  lemma UnreadAhead(s: State, evBase: nat)
    requires Events.Inv(s.ev, evBase) && Joined(s) && Events.Enabled(s.ev, evBase, Events.Ack)
    ensures s.ev.pc.Moved? && s.core.popped < |s.core.hist|
  {
  }

  lemma DeliverUntaken(d: Dispatch.State, e: Trb, id: nat)
    requires Untaken(d.waiters, id)
    ensures Untaken(Dispatch.Apply(d, Dispatch.Event(e)).waiters, id)
  {
    Dispatch.DeliverMembers(d.waiters, e);
  }

  // ----- completion -----

  /** What the request's waiter finds: if its queue is not empty, the front is an event of the
      awaited TRB, and the request may complete. */
  lemma FrontIsOwn(s: State, base: nat, evBase: nat, i: nat)
    requires Inv(s, base, evBase) && s.core.task.Waiting? && Ready(s, i)
    ensures Requests.Enabled(s.core, base, Requests.Complete)
    ensures EventOf(s, s.core.task.target, s.disp.waiters[i].queue[0])
  {
    hide Requests.Inv, Events.Inv, Dispatch.Inv, Dispatch.Matching, MayAppend, ReceivedInv;
    var since, cond := s.core.task.since, Dispatch.ForTrb(Requests.Addr(base, s.core.task.target));
    QueueIsMatching(s, base, evBase, i);
    var k := FirstMatching(cond, s.disp.log[since..]);
    var j := since + k;
    PoppedIsPosted(s, evBase, j);
    Requests.OnlyOwnEventsMatch(s.core, base, j);
    NoEarlierMatch(s, base, evBase, j);
  }

  lemma QueueIsMatching(s: State, base: nat, evBase: nat, i: nat)
    requires Inv(s, base, evBase) && s.core.task.Waiting? && Ready(s, i)
    ensures s.core.task.since <= |s.disp.log|
    ensures s.disp.waiters[i].queue
         == Dispatch.Matching(Dispatch.ForTrb(Requests.Addr(base, s.core.task.target)), s.disp.log[s.core.task.since..])
  {
    hide Requests.Inv, Events.Inv, Dispatch.Inv, Dispatch.Matching;
    var n := Dispatch.Served(s.disp, s.mine);
    assert n == i;
    assert s.disp.waiters[i] in s.disp.waiters;
  }

  /** The first event of a log that matches, when one does. */
  lemma {:induction false} FirstMatching(cond: Dispatch.Cond, log: seq<Trb>) returns (k: nat)
    requires Dispatch.Matching(cond, log) != []
    ensures k < |log| && Dispatch.Matches(cond, log[k]) && Dispatch.Matching(cond, log)[0] == log[k]
    ensures forall j :: 0 <= j < k ==> !Dispatch.Matches(cond, log[j])
    decreases |log|
  {
    var front := log[..|log| - 1];
    if Dispatch.Matching(cond, front) != [] {
      k := FirstMatching(cond, front);
    } else {
      k := |log| - 1;
      NoneBefore(cond, front);
      assert forall j :: 0 <= j < k ==> log[j] == front[j];
    }
  }

  lemma {:induction false} NoneBefore(cond: Dispatch.Cond, log: seq<Trb>)
    requires Dispatch.Matching(cond, log) == []
    ensures forall j :: 0 <= j < |log| ==> !Dispatch.Matches(cond, log[j])
    decreases |log|
  {
    if log != [] {
      NoneBefore(cond, log[..|log| - 1]);
    }
  }

  /** A popped event is the posted one, and carries its address. */
  lemma PoppedIsPosted(s: State, evBase: nat, j: nat)
    requires Events.Inv(s.ev, evBase) && Joined(s) && j < |s.ev.popped|
    ensures j < s.core.popped <= |s.core.hist| && j < |s.ev.posted|
    ensures s.disp.log[j] == Events.Posted(s.ev.posted, j) && s.disp.log[j].data == s.core.hist[j].trb.data
  {
  }

  /** The first match in the log is the first match of the history. */
  lemma NoEarlierMatch(s: State, base: nat, evBase: nat, j: nat)
    requires Events.Inv(s.ev, evBase) && Joined(s) && s.core.task.Waiting? && s.core.task.since <= j < s.core.popped
    requires var cond := Dispatch.ForTrb(Requests.Addr(base, s.core.task.target));
             && Dispatch.Matches(cond, s.disp.log[j])
             && forall k :: 0 <= k < j - s.core.task.since ==>
                  !Dispatch.Matches(cond, s.disp.log[s.core.task.since..][k])
    ensures s.core.popped <= |s.core.hist| && Requests.FirstMatch(s.core, base, j)
  {
    hide Events.Inv;
    var since := s.core.task.since;
    PoppedIsPosted(s, evBase, j);
    forall k | since <= k < j
      ensures s.core.hist[k].trb.data != Requests.Addr(base, s.core.task.target)
    {
      PoppedIsPosted(s, evBase, k);
      assert s.disp.log[since..][k - since] == s.disp.log[k];
    }
  }

  lemma CompleteKeepsInv(s: State, base: nat, evBase: nat, i: nat)
    requires Inv(s, base, evBase) && s.ev.pc.Idle? && s.core.task.Waiting? && Ready(s, i)
    ensures Inv(Completed(s, base, i), base, evBase)
  {
    hide Requests.Inv, Events.Inv, Dispatch.Inv, MayAppend, Untaken, EventOf;
    hide Dispatch.Apply, Requests.Apply, Requests.Enabled;
    var s' := Completed(s, base, i);
    FrontIsOwn(s, base, evBase, i);
    CompleteEffect(s.core, base);
    TakeReleaseEffect(s.disp, i);
    Requests.StepKeepsInv(s.core, base, Requests.Complete);
    Dispatch.StepKeepsInv(s.disp, Dispatch.Take(i));
    Dispatch.StepKeepsInv(Dispatch.Apply(s.disp, Dispatch.Take(i)), Dispatch.Release(i));
    if s.pending.Some? {
      MayAppendStays(s.core, s'.core, base, s.pending.value);
    }
    EventStays(s, s');
  }

  lemma CompleteEffect(core: Requests.State, base: nat)
    requires Requests.Wf(core) && Requests.Enabled(core, base, Requests.Complete)
    ensures var core' := Requests.Apply(core, base, Requests.Complete);
            core'.hist == core.hist && core'.popped == core.popped && core'.ring == core.ring && core'.task.Idle?
  {
  }

  lemma TakeReleaseEffect(d: Dispatch.State, i: nat)
    ensures Dispatch.Apply(Dispatch.Apply(d, Dispatch.Take(i)), Dispatch.Release(i)).log == d.log
  {
  }

  /** What counts as an event of a TRB does not depend on the task or the wait list. */
  lemma EventStays(s: State, s': State)
    requires s'.core.hist == s.core.hist && s'.ev == s.ev
    ensures forall k: nat, t :: EventOf(s, k, t) ==> EventOf(s', k, t)
  {
  }

  // ----- other futures -----

  lemma OtherKeepsInv(s: State, base: nat, evBase: nat, step: Dispatch.Step)
    requires Inv(s, base, evBase) && Enabled(s, base, evBase, Other(step))
    ensures Inv(s.(disp := Dispatch.Apply(s.disp, step)), base, evBase)
  {
    if s.core.task.Waiting? {
      OtherKeepsMine(s.disp, step, s.mine);
    }
    hide Requests.Inv, Events.Inv, Dispatch.Inv, MayAppend, Untaken;
    Dispatch.StepKeepsInv(s.disp, step);
    ReceivedStays(s, s.(disp := Dispatch.Apply(s.disp, step)));
  }

  lemma OtherKeepsMine(d: Dispatch.State, step: Dispatch.Step, id: nat)
    requires Dispatch.Inv(d) && id < |d.roster| && Untaken(d.waiters, id)
    requires step.Register? || ((step.Take? || step.Release?) && step.i < |d.waiters| && d.waiters[step.i].id != id)
    ensures var d' := Dispatch.Apply(d, step);
            id < |d'.roster| && d'.roster[id] == d.roster[id] && Untaken(d'.waiters, id) && d'.log == d.log
  {
    if !step.Register? {
      assert d.waiters[step.i] in d.waiters;
    }
  }

  // ----- every run -----

  lemma StepKeepsInv(s: State, base: nat, evBase: nat, step: Step)
    requires Wf(s) && Inv(s, base, evBase) && Enabled(s, base, evBase, step)
    ensures Inv(Apply(s, base, evBase, step), base, evBase)
  {
    hide Inv;
    match step
    case Own(own) => CoreKeepsInv(s, base, evBase, own);
    case Register => RegisterKeepsInv(s, base, evBase);
    case Complete =>
      var i: nat :| Ready(s, i) && Apply(s, base, evBase, step) == Completed(s, base, i);
      CompleteKeepsInv(s, base, evBase, i);
    case Consume => CoreKeepsInv(s, base, evBase, Requests.Consume);
    case Post(e) => PostKeepsInv(s, base, evBase, e);
    case Publish => PublishKeepsInv(s, base, evBase);
    case Low(bits) => QuietKeepsInv(s, base, evBase, step, Events.Low(bits));
    case Check => QuietKeepsInv(s, base, evBase, step, Events.Check);
    case Read => QuietKeepsInv(s, base, evBase, step, Events.Read);
    case Move => QuietKeepsInv(s, base, evBase, step, Events.Move);
    case Deliver => DeliverKeepsInv(s, base, evBase);
    case Other(other) => OtherKeepsInv(s, base, evBase, other);
  }

  lemma {:induction false} RunKeepsInv(s: State, base: nat, evBase: nat, steps: seq<Step>)
    requires Inv(s, base, evBase)
    ensures Inv(Run(s, base, evBase, steps), base, evBase)
    decreases |steps|
  {
    if steps != [] {
      if Enabled(s, base, evBase, steps[0]) {
        StepKeepsInv(s, base, evBase, steps[0]);
        hide Inv, Apply, Enabled;
        RunKeepsInv(Apply(s, base, evBase, steps[0]), base, evBase, steps[1..]);
      } else {
        RunKeepsInv(s, base, evBase, steps[1..]);
      }
    }
  }

  /** Event number j is one of the awaited TRB. */
  predicate Awaited(s: State, j: nat)
    requires s.core.task.Waiting?
  {
    j < |s.core.hist| && s.core.hist[j].origin == Requests.Of(s.core.task.target)
  }

  // ----- whose stages the events are -----

  /** The requests that were submitted in a run, in order. */
  ghost function Asked(s: State, base: nat, evBase: nat, steps: seq<Step>): (rs: seq<Requests.Request>)
    requires Wf(s)
    decreases |steps|
  {
    if steps == [] then []
    else if !Enabled(s, base, evBase, steps[0]) then Asked(s, base, evBase, steps[1..])
    else Submitted(steps[0]) + Asked(Apply(s, base, evBase, steps[0]), base, evBase, steps[1..])
  }

  function Submitted(step: Step): (rs: seq<Requests.Request>)
  {
    if step.Own? && step.step.Submit? then [step.step.r] else []
  }

  /** The record of completed requests and what they received go together. */
  predicate Paired(s: State)
  {
    |s.received| == |s.core.done| && forall i :: 0 <= i < |s.received| ==> s.received[i].0 == s.core.done[i].0
  }

  predicate StageInv(s: State, rs: seq<Requests.Request>) { Requests.StageInv(s.core, rs) && Paired(s) }

  /** Apart from a completion, each step makes one step of the requests or none. */
  lemma CoreStep(s: State, base: nat, evBase: nat, step: Step) returns (made: bool, own: Requests.Step)
    requires Wf(s) && Enabled(s, base, evBase, step) && !step.Complete?
    ensures var s' := Apply(s, base, evBase, step);
            && s'.received == s.received && s'.core.done == s.core.done
            && (made ==> Requests.Enabled(s.core, base, own) && s'.core == Requests.Apply(s.core, base, own)
                         && Submitted(step) == if own.Submit? then [own.r] else [])
            && (!made ==> Submitted(step) == [] && s'.core == s.core.(hist := s'.core.hist))
  {
    hide Dispatch.Apply, Events.Apply, Ring.Apply, Ring.Enabled;
    made, own := true, Requests.Consume;
    match step
    case Own(o) => own := o;
    case Register => own := Requests.Register;
    case Consume => own := Requests.Consume;
    case Deliver => made, own := Requests.Enabled(s.core, base, Requests.Poll), Requests.Poll;
    case _ => made := false;
  }

  lemma HistoryStages(core: Requests.State, core': Requests.State, rs: seq<Requests.Request>)
    requires Requests.StageInv(core, rs) && core' == core.(hist := core'.hist)
    ensures Requests.StageInv(core', rs)
  {
    assert Requests.Sent(core') == Requests.Sent(core);
  }

  lemma CompletedStages(s: State, base: nat, evBase: nat, i: nat, rs: seq<Requests.Request>)
    requires Inv(s, base, evBase) && s.core.task.Waiting? && Ready(s, i) && StageInv(s, rs)
    ensures StageInv(Completed(s, base, i), rs)
  {
    hide Requests.StageInv, Requests.Apply, Requests.Enabled, Dispatch.Apply;
    FrontIsOwn(s, base, evBase, i);
    Requests.CompleteSent(s.core, base);
    Requests.StepKeepsStages(s.core, base, rs, Requests.Complete);
    hide Inv;
    assert rs + [] == rs;
    ghost var core' := Requests.Apply(s.core, base, Requests.Complete);
    assert forall j :: 0 <= j < |s.core.done| ==> core'.done[j] == core'.done[..|s.core.done|][j];
  }

  lemma StepKeepsStages(s: State, base: nat, evBase: nat, rs: seq<Requests.Request>, step: Step)
    requires Inv(s, base, evBase) && Enabled(s, base, evBase, step) && StageInv(s, rs)
    ensures StageInv(Apply(s, base, evBase, step), rs + Submitted(step))
  {
    hide Requests.StageInv, Requests.Inv, Requests.Apply, Requests.Enabled, Events.Inv, Dispatch.Inv;
    hide Joined, PendingInv;
    assert rs + [] == rs;
    if step.Complete? {
      var i: nat :| Ready(s, i) && Apply(s, base, evBase, step) == Completed(s, base, i);
      CompletedStages(s, base, evBase, i, rs);
    } else {
      var made, own := CoreStep(s, base, evBase, step);
      if made {
        Requests.StepKeepsStages(s.core, base, rs, own);
      } else {
        HistoryStages(s.core, Apply(s, base, evBase, step).core, rs);
      }
    }
  }

  lemma {:induction false} RunKeepsStages(s: State, base: nat, evBase: nat, rs: seq<Requests.Request>, steps: seq<Step>)
    requires Inv(s, base, evBase) && StageInv(s, rs)
    ensures StageInv(Run(s, base, evBase, steps), rs + Asked(s, base, evBase, steps))
    decreases |steps|
  {
    hide Requests.Inv, Events.Inv, Dispatch.Inv, StageInv, Apply, Enabled, Joined, PendingInv, WaiterInv, ReceivedInv;
    if steps == [] {
      assert rs + [] == rs;
    } else if Enabled(s, base, evBase, steps[0]) {
      StepKeepsInv(s, base, evBase, steps[0]);
      StepKeepsStages(s, base, evBase, rs, steps[0]);
      var s', new' := Apply(s, base, evBase, steps[0]), Submitted(steps[0]);
      RunKeepsStages(s', base, evBase, rs + new', steps[1..]);
      assert rs + new' + Asked(s', base, evBase, steps[1..]) == rs + Asked(s, base, evBase, steps);
    } else {
      RunKeepsStages(s, base, evBase, rs, steps[1..]);
    }
  }

  lemma StartStaged(base: nat, evBase: nat)
    ensures StageInv(Init(base, evBase), [])
  {
  }

  lemma StagesServed(s: State, base: nat, evBase: nat, rs: seq<Requests.Request>)
    requires Inv(s, base, evBase) && StageInv(s, rs)
    ensures Requests.Staged(s.core, rs)
    ensures |rs| == |s.received| + (if s.core.task.Idle? then 0 else 1)
    ensures forall i :: 0 <= i < |s.received| ==>
              EventOf(s, Requests.StageAwaited(rs[i], Requests.First(rs, i)), s.received[i].1)
  {
    hide EventOf, Requests.Inv, Events.Inv, Dispatch.Inv, Joined, PendingInv, WaiterInv, Requests.StageInv;
    Requests.StagesPushed(s.core, base, rs);
    hide Requests.Laid, Requests.First, Requests.StageAwaited;
    forall i | 0 <= i < |s.received|
      ensures EventOf(s, Requests.StageAwaited(rs[i], Requests.First(rs, i)), s.received[i].1)
    {
      assert EventOf(s, s.received[i].0, s.received[i].1);
    }
  }

  /** In every interleaving, the submitted requests rs are on the ring stage by stage: each one
      that is no longer being pushed has exactly its command, or setup and status, or setup,
      data and status, in this order and with nothing between requests.  The current request
      awaits the number of its command, status or data stage, and what completed request i
      received is an event posted for that stage of rs[i]. */
  lemma EveryRunPushesTheStages(base: nat, evBase: nat, steps: seq<Step>)
    requires evBase % 16 == 0
    ensures var start := Init(base, evBase);
            var s, rs := Run(start, base, evBase, steps), Asked(start, base, evBase, steps);
            && Requests.Staged(s.core, rs)
            && |rs| == |s.received| + (if s.core.task.Idle? then 0 else 1)
            && forall i :: 0 <= i < |s.received| ==>
                 EventOf(s, Requests.StageAwaited(rs[i], Requests.First(rs, i)), s.received[i].1)
  {
    hide Inv, StageInv, Run, Asked, EventOf, Requests.Staged, Requests.First, Requests.StageAwaited;
    var start := Init(base, evBase);
    InitInv(base, evBase);
    StartStaged(base, evBase);
    RunKeepsInv(start, base, evBase, steps);
    RunKeepsStages(start, base, evBase, [], steps);
    var s, rs := Run(start, base, evBase, steps), Asked(start, base, evBase, steps);
    assert [] + rs == rs;
    StagesServed(s, base, evBase, rs);
  }

  /** In every interleaving of requester, controller, poll task and other futures: the ring holds
      the submitted requests stage by stage and every completed request received an event posted
      for its command, its status stage or its data stage; a waiting request
      whose event has been popped finds it queued; both rings deliver in order; at most four
      TRBs are outstanding, one between requests. */
  lemma EveryRunServesRequests(base: nat, evBase: nat, steps: seq<Step>)
    requires evBase % 16 == 0
    ensures var start := Init(base, evBase);
            var s, rs := Run(start, base, evBase, steps), Asked(start, base, evBase, steps);
            && Requests.Staged(s.core, rs) && |s.received| <= |rs|
            && (forall i :: 0 <= i < |s.received| ==>
                  EventOf(s, Requests.StageAwaited(rs[i], Requests.First(rs, i)), s.received[i].1))
            && (forall j :: 0 <= j < |s.ev.popped| && s.core.task.Waiting? && Awaited(s, j) ==>
                  exists i: nat :: Ready(s, i))
            && Ring.FifoSoFar(s.core.ring) && Events.FifoSoFar(s.ev)
            && Requests.Begun(s.core.ring) <= |s.core.ring.consumed| + Requests.LIMIT
            && (s.core.task.Idle? ==> Requests.Begun(s.core.ring) <= |s.core.ring.consumed| + 1)
  {
    InitInv(base, evBase);
    RunKeepsInv(Init(base, evBase), base, evBase, steps);
    EveryRunPushesTheStages(base, evBase, steps);
    var s := Run(Init(base, evBase), base, evBase, steps);
    hide Run, Asked, Ready, Awaited, EventOf, Requests.Staged, Requests.StageAwaited, Requests.First;
    forall j | 0 <= j < |s.ev.popped| && s.core.task.Waiting? && Awaited(s, j)
      ensures exists i: nat :: Ready(s, i)
    {
      var i := PoppedCompletes(s, base, evBase, j);
    }
  }

  /** No completion is missed: once an event of the awaited TRB has been popped, the request's
      waiter has it queued and the request can complete as soon as the poll task is done. */
  lemma PoppedCompletes(s: State, base: nat, evBase: nat, j: nat) returns (i: nat)
    requires Inv(s, base, evBase) && s.core.task.Waiting?
    requires j < |s.ev.popped| && Awaited(s, j)
    ensures Ready(s, i)
    ensures s.ev.pc.Idle? ==> Enabled(s, base, evBase, Complete)
  {
    var since, cond := s.core.task.since, Dispatch.ForTrb(Requests.Addr(base, s.core.task.target));
    SeenSince(s.core, base, j);
    PoppedIsPosted(s, evBase, j);
    hide Requests.Inv, Events.Inv, Dispatch.Inv, Dispatch.Matching;
    Requests.OnlyOwnEventsMatch(s.core, base, j);
    i := Dispatch.Served(s.disp, s.mine);
    assert s.disp.waiters[i] in s.disp.waiters;
    assert s.disp.log[since..][j - since] == s.disp.log[j];
    SomeMatch(cond, s.disp.log[since..], j - since);
  }

  /** An event of the awaited TRB is never popped before the registration. */
  lemma SeenSince(core: Requests.State, base: nat, j: nat)
    requires Requests.Inv(core, base) && core.task.Waiting? && j < |core.hist|
    requires core.hist[j].origin == Requests.Of(core.task.target)
    ensures core.task.since <= j
  {
  }

  lemma SomeMatch(cond: Dispatch.Cond, log: seq<Trb>, k: nat)
    requires k < |log| && Dispatch.Matches(cond, log[k])
    ensures Dispatch.Matching(cond, log) != []
  {
    if Dispatch.Matching(cond, log) == [] {
      NoneBefore(cond, log);
    }
  }

  /** The event ring never wedges: whenever the controller has no room to post, an event is
      unread; and whenever one is unread and no request is pushing, the poll task can pop it. */
  lemma FullRingDrains(s: State, base: nat, evBase: nat, e: Trb)
    requires Inv(s, base, evBase)
    ensures s.ev.posting.None? && !Events.Enabled(s.ev, evBase, Events.Post(e)) ==> |s.ev.popped| < |s.ev.posted|
    ensures |s.ev.popped| < |s.ev.posted| && s.ev.pc.Idle? && !s.core.task.Submitting? ==>
              Enabled(s, base, evBase, Check)
    ensures s.ev.pc.Checked? ==> Enabled(s, base, evBase, Read)
    ensures s.ev.pc.Holding? ==> Enabled(s, base, evBase, Move)
    ensures s.ev.pc.Moved? ==> Enabled(s, base, evBase, Deliver)
  {
    hide Requests.Inv, Dispatch.Inv, Requests.Enabled;
    if !s.ev.pc.Moved? {
      Events.SlotOwned(s.ev, evBase);
    }
    RoomWhenRead(s.ev, evBase, e);
  }

  lemma RoomWhenRead(ev: Events.State, evBase: nat, e: Trb)
    requires Events.Inv(ev, evBase)
    ensures ev.posting.None? && |ev.popped| == |ev.posted| ==> Events.Enabled(ev, evBase, Events.Post(e))
  {
    Events.PostRoom(|ev.posted|, |ev.popped|);
  }
}
