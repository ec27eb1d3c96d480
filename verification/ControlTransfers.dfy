/** Requests on one ring (xhci.rs, `send_command` and `request_*`): a task pushes the TRBs of
    a request, registers a waiter for one of them and awaits it, while the controller consumes
    the ring and posts events, and the poll task pops them.  The executor is cooperative, so
    the poll task never runs between the first push and the registration. */
module ControlTransfers {
  import opened Results
  import opened Trbs
  import Dispatch
  import Ring = CommandRings

  /** The three shapes of request, by the TRBs pushed. */
  datatype Request =
    | Command(cmd: Trb)
    | NoData(setup: Trb, statusIn: Trb)
    | DataIn(setup: Trb, data: Trb, statusOut: Trb)

  function TrbsOf(r: Request): (ts: seq<Trb>)
    ensures 1 <= |ts| <= 3
  {
    match r
    case Command(cmd) => [cmd]
    case NoData(setup, status) => [setup, status]
    case DataIn(setup, data, status) => [setup, data, status]
  }

  /** Which of them is awaited: the command, the status stage, the data stage. */
  function Awaited(r: Request): (i: nat)
    ensures i < |TrbsOf(r)| <= i + 2
  {
    if r.Command? then 0 else 1
  }

  /** Where an event came from: TRB number k of this ring, or elsewhere.  The driver sees only
      the event TRB; the tag is what the theorems speak about. */
  datatype Origin = Of(k: nat) | Foreign
  datatype Event = Event(trb: Trb, origin: Origin)

  datatype Task = Idle | Submitting(rest: seq<Trb>, target: nat) | Waiting(target: nat, since: nat)

  /** `hist` is every event posted, the first `popped` of them delivered by the poll task;
      `done` pairs each completed request's TRB number with the event it received. */
  datatype State = State(ring: Ring.State, hist: seq<Event>, popped: nat, task: Task, done: seq<(nat, Event)>)

  datatype Step =
    | Submit(r: Request)
    | Drive(step: Ring.Step)
    | Consume
    | Post(k: nat, e: Trb)
    | PostForeign(e: Trb)
    | Poll
    | Register
    | Complete

  function Addr(base: nat, k: nat): (a: nat) { base + 16 * (k % Ring.SLOTS) }

  /** It is the address that push number k returns, and the one the controller reads TRB k at. */
  lemma AddrIsPushed(d: Ring.Driver, base: nat, k: nat, src: Trb)
    requires Ring.Phased(d, base, k) && TrbType(src) != LINK
    ensures Ring.IsRing(d) && Ring.Pushed(d, base, src).Ok? && Ring.Pushed(d, base, src).value.1 == Addr(base, k)
  {
    hide Ring.Phased, Ring.Pushed;
    Ring.PushPhased(d, base, k, src);
  }

  lemma AddrIsRead(r: Ring.State, base: nat, limit: nat)
    requires Ring.Inv(r, base, limit) && Ring.Enabled(r, base, limit, Ring.Consume) && r.at != Ring.SLOTS
    ensures base + 16 * r.at == Addr(base, |r.consumed|)
    ensures TrbType(r.d.trb[r.at]) != LINK
            && Ring.Apply(r, base, limit, Ring.Consume).consumed == r.consumed + [r.d.trb[r.at]]
  {
  }

  predicate InRing(base: nat, a: nat) { base <= a < base + 16 * Ring.NUM_TRB }

  function Init(base: nat): (s: State) { State(Ring.Init(base), [], 0, Idle, []) }

  predicate Wf(s: State) { Ring.Wf(s.ring) && s.popped <= |s.hist| }

  function TrbLog(hist: seq<Event>): (r: seq<Trb>)
    ensures |r| == |hist| && forall i :: 0 <= i < |hist| ==> r[i] == hist[i].trb
  {
    seq(|hist|, i requires 0 <= i < |hist| => hist[i].trb)
  }

  /** The index of the event the awaiting future takes: the first one delivered since its
      registration that names the TRB's address. */
  predicate FirstMatch(s: State, base: nat, i: nat)
    requires s.task.Waiting? && s.popped <= |s.hist|
  {
    && s.task.since <= i < s.popped
    && s.hist[i].trb.data == Addr(base, s.task.target)
    && forall j :: s.task.since <= j < i ==> s.hist[j].trb.data != Addr(base, s.task.target)
  }

  /** Events are posted for consumed TRBs, in TRB order. */
  predicate MayPost(s: State, k: nat)
  {
    k < |s.ring.consumed| && forall i :: 0 <= i < |s.hist| && s.hist[i].origin.Of? ==> s.hist[i].origin.k <= k
  }

  ghost predicate Enabled(s: State, base: nat, step: Step)
    requires Wf(s)
  {
    match step
    case Submit(r) => s.task.Idle? && forall t :: t in TrbsOf(r) ==> TrbType(t) != LINK
    case Drive(step) =>
      && s.task.Submitting? && !step.Consume?
      && (step.Begin? ==> s.task.rest != [] && step.src == s.task.rest[0])
      && Ring.Enabled(s.ring, base, |s.ring.pushed| + 1, step)
    case Consume => Ring.Enabled(s.ring, base, |s.ring.pushed| + 1, Ring.Consume)
    case Post(k, e) => MayPost(s, k) && e.data == Addr(base, k)
    case PostForeign(e) => !InRing(base, e.data)
    case Poll => !s.task.Submitting? && s.popped < |s.hist|
    case Register => s.task.Submitting? && s.task.rest == [] && s.ring.w.Idle?
    case Complete => s.task.Waiting? && exists i: nat :: FirstMatch(s, base, i)
  }

  ghost function Apply(s: State, base: nat, step: Step): (s': State)
    requires Wf(s) && Enabled(s, base, step)
    ensures Wf(s')
  {
    match step
    case Submit(r) => s.(task := Submitting(TrbsOf(r), |s.ring.pushed| + Awaited(r)))
    case Drive(step) =>
      s.(ring := Ring.Apply(s.ring, base, |s.ring.pushed| + 1, step),
         task := if step.Begin? then s.task.(rest := s.task.rest[1..]) else s.task)
    case Consume => s.(ring := Ring.Apply(s.ring, base, |s.ring.pushed| + 1, Ring.Consume))
    case Post(k, e) => s.(hist := s.hist + [Event(e, Of(k))])
    case PostForeign(e) => s.(hist := s.hist + [Event(e, Foreign)])
    case Poll => s.(popped := s.popped + 1)
    case Register => s.(task := Waiting(s.task.target, s.popped))
    case Complete =>
      var i: nat :| FirstMatch(s, base, i);
      s.(task := Idle, done := s.done + [(s.task.target, s.hist[i])])
  }

  ghost function Run(s: State, base: nat, steps: seq<Step>): (s': State)
    requires Wf(s)
    ensures Wf(s')
    decreases |steps|
  {
    if steps == [] then s
    else Run(if Enabled(s, base, steps[0]) then Apply(s, base, steps[0]) else s, base, steps[1..])
  }

  // ----- the invariant -----

  const LIMIT: nat := 4     // TRBs a task can have outstanding

  function Last(done: seq<(nat, Event)>): (k: nat) { if done == [] then 0 else done[|done| - 1].0 }

  /** Pushes begun. */
  function Begun(r: Ring.State): (n: nat) { |r.pushed| + if r.w.Writing? then 1 else 0 }

  /** How far the requester is, against the TRBs begun and consumed. */
  predicate TaskInv(s: State)
  {
    var n, m, last := Begun(s.ring), |s.ring.consumed|, Last(s.done);
    match s.task
    case Idle => s.ring.w.Idle? && n <= m + 1 && n <= last + 2
    case Submitting(rest, target) =>
      && n + |rest| <= m + LIMIT
      && target < n + |rest| <= target + 2
      && target <= last + 3
      && forall t :: t in rest ==> TrbType(t) != LINK
    case Waiting(target, since) =>
      && s.ring.w.Idle? && n <= m + LIMIT
      && target < n <= target + 2
      && target <= last + 3
      && since <= s.popped
  }

  /** Events carry the address of the TRB they are for, and come in TRB order. */
  predicate HistInv(s: State, base: nat)
  {
    && (forall i :: 0 <= i < |s.hist| ==>
          match s.hist[i].origin
          case Of(k) => k < |s.ring.consumed| && s.hist[i].trb.data == Addr(base, k)
          case Foreign => !InRing(base, s.hist[i].trb.data))
    && (forall i, j :: 0 <= i < j < |s.hist| && s.hist[i].origin.Of? && s.hist[j].origin.Of? ==>
          s.hist[i].origin.k <= s.hist[j].origin.k)
  }

  /** Where the events still of interest to the requester begin. */
  function From(s: State): (i: nat) { if s.task.Waiting? then s.task.since else s.popped }

  /** What the current request may still see is not older than the last awaited TRB; what was
      delivered before its registration is older than the TRB it awaits. */
  predicate FreshInv(s: State)
    requires s.popped <= |s.hist|
  {
    && From(s) <= |s.hist|
    && (forall i :: From(s) <= i < |s.hist| && s.hist[i].origin.Of? ==> Last(s.done) <= s.hist[i].origin.k)
    && (!s.task.Idle? ==> forall i :: 0 <= i < From(s) && s.hist[i].origin.Of? ==> s.hist[i].origin.k < s.task.target)
  }

  /** Every completed request received its own TRB's event; the last one is on record. */
  predicate DoneInv(s: State)
  {
    && (forall i :: 0 <= i < |s.done| ==> s.done[i].1.origin == Of(s.done[i].0))
    && (s.done != [] ==> exists i :: 0 <= i < |s.hist| && s.hist[i].origin == Of(Last(s.done)))
  }

  predicate Inv(s: State, base: nat)
  {
    && Wf(s) && Ring.Inv(s.ring, base, LIMIT)
    && TaskInv(s) && HistInv(s, base) && FreshInv(s) && DoneInv(s)
  }

  /** The awaited address is unambiguous: among the events the waiter can see, only the
      awaited TRB's own carry it. */
  lemma OnlyOwnEventsMatch(s: State, base: nat, i: nat)
    requires Inv(s, base) && s.task.Waiting? && s.task.since <= i < |s.hist|
    ensures s.hist[i].trb.data == Addr(base, s.task.target) <==> s.hist[i].origin == Of(s.task.target)
  {
    var e, k := s.hist[i], s.task.target;
    if e.origin.Of? {
      assert Last(s.done) <= e.origin.k < |s.ring.consumed| <= |s.ring.pushed| <= k + 2;
      SameSlotNearby(e.origin.k, k);
    }
  }

  lemma SameSlotNearby(j: nat, k: nat)
    requires k <= j + 3 && j <= k + 1
    ensures j % Ring.SLOTS == k % Ring.SLOTS <==> j == k
  {
  }

  /** The bound the ring needs is discharged: a push can always begin. */
  lemma PushNeverBlocked(s: State, base: nat)
    requires Inv(s, base) && s.task.Submitting? && s.task.rest != [] && s.ring.w.Idle?
    ensures Ring.Enabled(s.ring, base, LIMIT, Ring.Begin(s.task.rest[0]))
  {
    assert s.task.rest[0] in s.task.rest;
  }

  lemma DriveKeepsInv(s: State, base: nat, step: Ring.Step)
    requires Inv(s, base) && Enabled(s, base, Drive(step))
    ensures Inv(Apply(s, base, Drive(step)), base)
  {
    if step.Begin? {
      PushNeverBlocked(s, base);
    }
    assert Ring.Enabled(s.ring, base, LIMIT, step);
    Ring.StepKeepsInv(s.ring, base, LIMIT, step);
    var ring' := Ring.Apply(s.ring, base, LIMIT, step);
    assert ring' == Ring.Apply(s.ring, base, |s.ring.pushed| + 1, step);
    DriveCounts(s.ring, base, step);
    var s' := Apply(s, base, Drive(step));
    assert TaskInv(s');
  }

  lemma DriveCounts(r: Ring.State, base: nat, step: Ring.Step)
    requires Ring.Wf(r) && Ring.Enabled(r, base, LIMIT, step) && !step.Consume?
    ensures var r' := Ring.Apply(r, base, LIMIT, step);
            Begun(r') == Begun(r) + (if step.Begin? then 1 else 0) && r'.consumed == r.consumed
  {
  }

  lemma ConsumeKeepsInv(s: State, base: nat)
    requires Inv(s, base) && Enabled(s, base, Consume)
    ensures Inv(Apply(s, base, Consume), base)
  {
    assert Ring.Enabled(s.ring, base, LIMIT, Ring.Consume);
    Ring.StepKeepsInv(s.ring, base, LIMIT, Ring.Consume);
    var ring' := Ring.Apply(s.ring, base, LIMIT, Ring.Consume);
    assert ring' == Ring.Apply(s.ring, base, |s.ring.pushed| + 1, Ring.Consume);
    assert Begun(ring') == Begun(s.ring) && |s.ring.consumed| <= |ring'.consumed|;
  }

  lemma PostKeepsInv(s: State, base: nat, step: Step)
    requires Inv(s, base) && Enabled(s, base, step) && (step.Post? || step.PostForeign?)
    ensures Inv(Apply(s, base, step), base)
  {
    var s' := Apply(s, base, step);
    assert forall i :: 0 <= i < |s.hist| ==> s'.hist[i] == s.hist[i];
    if step.Post? {
      PostIsFresh(s, base, step.k);
    }
  }

  /** A newly posted TRB is not older than the last completed one, whose event is on record. */
  lemma PostIsFresh(s: State, base: nat, k: nat)
    requires Inv(s, base) && MayPost(s, k)
    ensures Last(s.done) <= k
  {
    if s.done != [] {
      var i :| 0 <= i < |s.hist| && s.hist[i].origin == Of(Last(s.done));
    }
  }

  lemma TaskStepKeepsInv(s: State, base: nat, step: Step)
    requires Inv(s, base) && Enabled(s, base, step) && (step.Submit? || step.Poll? || step.Register?)
    ensures Inv(Apply(s, base, step), base)
  {
  }

  lemma CompleteKeepsInv(s: State, base: nat)
    requires Inv(s, base) && Enabled(s, base, Complete)
    ensures Inv(Apply(s, base, Complete), base)
  {
    var s' := Apply(s, base, Complete);
    var i: nat :| FirstMatch(s, base, i) && s'.done == s.done + [(s.task.target, s.hist[i])];
    CompleteWith(s, base, i);
  }

  lemma CompleteWith(s: State, base: nat, i: nat)
    requires Inv(s, base) && s.task.Waiting? && FirstMatch(s, base, i)
    ensures Inv(s.(task := Idle, done := s.done + [(s.task.target, s.hist[i])]), base)
  {
    OnlyOwnEventsMatch(s, base, i);
    var s' := s.(task := Idle, done := s.done + [(s.task.target, s.hist[i])]);
    assert s.hist[i].origin == Of(Last(s'.done));
    assert TaskInv(s') && HistInv(s', base) && FreshInv(s');
  }

  lemma StepKeepsInv(s: State, base: nat, step: Step)
    requires Inv(s, base) && Enabled(s, base, step)
    ensures Inv(Apply(s, base, step), base)
  {
    match step
    case Drive(d) => DriveKeepsInv(s, base, d);
    case Consume => ConsumeKeepsInv(s, base);
    case Complete => CompleteKeepsInv(s, base);
    case Post(_, _) => PostKeepsInv(s, base, step);
    case PostForeign(_) => PostKeepsInv(s, base, step);
    case _ => TaskStepKeepsInv(s, base, step);
  }

  lemma {:induction false} RunKeepsInv(s: State, base: nat, steps: seq<Step>)
    requires Inv(s, base)
    ensures Inv(Run(s, base, steps), base)
    decreases |steps|
  {
    if steps != [] {
      if Enabled(s, base, steps[0]) {
        StepKeepsInv(s, base, steps[0]);
        RunKeepsInv(Apply(s, base, steps[0]), base, steps[1..]);
      } else {
        RunKeepsInv(s, base, steps[1..]);
      }
    }
  }

  // ----- which TRB of a request is pushed when, and which is awaited -----

  /** The same TRB up to the cycle bit, which a push sets. */
  predicate SameTrb(a: Trb, b: Trb) { a.data == b.data && a.option == b.option && a.control / 2 == b.control / 2 }

  function Length(r: Request): (n: nat)
  {
    match r
    case Command(_) => 1
    case NoData(_, _) => 2
    case DataIn(_, _, _) => 3
  }

  /** From number k on, the TRBs are the request's: its command; setup, then status; setup,
      then data, then status. */
  predicate StagesAt(ts: seq<Trb>, k: nat, r: Request)
  {
    match r
    case Command(cmd) => k < |ts| && SameTrb(ts[k], cmd)
    case NoData(setup, status) => k + 1 < |ts| && SameTrb(ts[k], setup) && SameTrb(ts[k + 1], status)
    case DataIn(setup, data, status) =>
      k + 2 < |ts| && SameTrb(ts[k], setup) && SameTrb(ts[k + 1], data) && SameTrb(ts[k + 2], status)
  }

  /** The number of the command, the status stage, the data stage, when the first is number k. */
  function StageAwaited(r: Request, k: nat): (n: nat)
  {
    match r
    case Command(_) => k
    case NoData(_, _) => k + 1
    case DataIn(_, _, _) => k + 1
  }

  /** The number of the first TRB of request i, when requests are pushed whole and in order. */
  function First(rs: seq<Request>, i: nat): (k: nat)
    requires i <= |rs|
  {
    if i == 0 then 0 else First(rs, i - 1) + Length(rs[i - 1])
  }

  /** The TRBs are the requests', whole and in order with nothing between them. */
  predicate Laid(ts: seq<Trb>, rs: seq<Request>)
  {
    |ts| == First(rs, |rs|) && forall i :: 0 <= i < |rs| ==> StagesAt(ts, First(rs, i), rs[i])
  }

  /** Each completed request is on record under the stage it awaits, and the current one
      awaits that stage. */
  predicate Recorded(done: seq<(nat, Event)>, task: Task, rs: seq<Request>)
  {
    && |rs| == |done| + (if task.Idle? then 0 else 1)
    && (forall i :: 0 <= i < |done| ==> done[i].0 == StageAwaited(rs[i], First(rs, i)))
    && (!task.Idle? ==> task.target == StageAwaited(rs[|done|], First(rs, |done|)))
  }

  /** The requests rs, submitted in this order, are what is on the ring, but for a last one
      still being pushed. */
  predicate Staged(s: State, rs: seq<Request>)
  {
    && Recorded(s.done, s.task, rs)
    && (!s.task.Submitting? ==> Laid(s.ring.pushed, rs))
    && (s.task.Submitting? ==>
          First(rs, |s.done|) <= |s.ring.pushed| && Laid(s.ring.pushed[..First(rs, |s.done|)], rs[..|s.done|]))
  }

  /** The requests that were submitted in a run, in order. */
  ghost function Asked(s: State, base: nat, steps: seq<Step>): (rs: seq<Request>)
    requires Wf(s)
    decreases |steps|
  {
    if steps == [] then []
    else if !Enabled(s, base, steps[0]) then Asked(s, base, steps[1..])
    else
      (if steps[0].Submit? then [steps[0].r] else []) + Asked(Apply(s, base, steps[0]), base, steps[1..])
  }

  /** What is pushed, being written or still to be pushed. */
  function Sent(s: State): (ts: seq<Trb>)
  {
    s.ring.pushed
    + (if s.ring.w.Writing? then [s.ring.w.src] else [])
    + (if s.task.Submitting? then s.task.rest else [])
  }

  predicate StageInv(s: State, rs: seq<Request>)
  {
    && Recorded(s.done, s.task, rs) && Laid(Sent(s), rs)
    && (s.task.Submitting? ==> First(rs, |s.done|) <= |s.ring.pushed|)
  }

  lemma {:induction false} FirstOfPrefix(rs: seq<Request>, rs': seq<Request>, i: nat)
    requires i <= |rs| && rs <= rs'
    ensures First(rs', i) == First(rs, i)
    decreases i
  {
    if i > 0 {
      FirstOfPrefix(rs, rs', i - 1);
    }
  }

  lemma {:induction false} FirstInside(rs: seq<Request>, i: nat, j: nat)
    requires i < j <= |rs|
    ensures First(rs, i) + Length(rs[i]) <= First(rs, j)
    decreases j
  {
    if i + 1 < j {
      FirstInside(rs, i, j - 1);
    }
  }

  /** Another request laid behind the others. */
  lemma LaidAppend(ts: seq<Trb>, rs: seq<Request>, r: Request)
    requires Laid(ts, rs)
    ensures Laid(ts + TrbsOf(r), rs + [r])
  {
    NewStages(ts, r);
    hide TrbsOf, StagesAt, SameTrb, Length;
    var ts', rs', n := ts + TrbsOf(r), rs + [r], |rs|;
    FirstOfPrefix(rs, rs', n);
    assert First(rs', |rs'|) == First(rs', n) + Length(r);
    hide First;
    forall i | 0 <= i < |rs'|
      ensures StagesAt(ts', First(rs', i), rs'[i])
    {
      FirstOfPrefix(rs, rs', i);
      if i < n {
        SameFront(ts, ts');
        StagesKept(ts, ts', First(rs, i), rs[i]);
      }
    }
  }

  lemma NewStages(ts: seq<Trb>, r: Request)
    ensures StagesAt(ts + TrbsOf(r), |ts|, r) && |TrbsOf(r)| == Length(r)
  {
  }

  lemma SameFront(ts: seq<Trb>, ts': seq<Trb>)
    requires ts <= ts'
    ensures forall i :: 0 <= i < |ts| ==> SameTrb(ts'[i], ts[i])
  {
  }

  /** Stages stay where only cycle bits change and more TRBs follow. */
  lemma StagesKept(ts: seq<Trb>, ts': seq<Trb>, k: nat, r: Request)
    requires StagesAt(ts, k, r) && |ts| <= |ts'| && forall i :: 0 <= i < |ts| ==> SameTrb(ts'[i], ts[i])
    ensures StagesAt(ts', k, r)
  {
  }

  lemma LaidSame(ts: seq<Trb>, ts': seq<Trb>, rs: seq<Request>)
    requires Laid(ts, rs) && |ts'| == |ts| && forall i :: 0 <= i < |ts| ==> SameTrb(ts'[i], ts[i])
    ensures Laid(ts', rs)
  {
    hide SameTrb, First;
    forall i | 0 <= i < |rs|
      ensures StagesAt(ts', First(rs, i), rs[i])
    {
      StagesKept(ts, ts', First(rs, i), rs[i]);
    }
  }

  /** The requests before request n lie in front of its first TRB. */
  lemma LaidPrefix(ts: seq<Trb>, rs: seq<Request>, n: nat)
    requires Laid(ts, rs) && n < |rs|
    ensures First(rs, n) <= |ts| && Laid(ts[..First(rs, n)], rs[..n])
  {
    var front := rs[..n];
    FirstInside(rs, n, |rs|);
    FirstOfPrefix(front, rs, n);
    forall i | 0 <= i < n
      ensures StagesAt(ts[..First(rs, n)], First(front, i), front[i])
    {
      FirstInside(rs, i, n);
      FirstOfPrefix(front, rs, i);
      assert StagesAt(ts, First(rs, i), rs[i]);
    }
  }

  lemma RecordSubmit(done: seq<(nat, Event)>, rs: seq<Request>, r: Request, task: Task)
    requires Recorded(done, Idle, rs) && task.Submitting? && task.target == First(rs, |rs|) + Awaited(r)
    ensures Recorded(done, task, rs + [r]) && First(rs + [r], |rs|) == First(rs, |rs|)
  {
    hide First;
    forall i | 0 <= i <= |rs|
      ensures First(rs + [r], i) == First(rs, i)
    {
      FirstOfPrefix(rs, rs + [r], i);
    }
  }

  lemma SubmitStages(s: State, base: nat, rs: seq<Request>, r: Request)
    requires Wf(s) && s.ring.w.Idle? && Enabled(s, base, Submit(r)) && StageInv(s, rs)
    ensures StageInv(Apply(s, base, Submit(r)), rs + [r])
  {
    hide First, Laid, TrbsOf, Recorded;
    var s' := Apply(s, base, Submit(r));
    assert Sent(s) == s.ring.pushed && Sent(s') == Sent(s) + TrbsOf(r);
    LaidAppend(Sent(s), rs, r);
    LaidLength(Sent(s), rs);
    RecordSubmit(s.done, rs, r, s'.task);
    RecordedLength(s.done, s.task, rs);
  }

  lemma LaidLength(ts: seq<Trb>, rs: seq<Request>)
    requires Laid(ts, rs)
    ensures |ts| == First(rs, |rs|)
  {
  }

  lemma RecordedLength(done: seq<(nat, Event)>, task: Task, rs: seq<Request>)
    requires Recorded(done, task, rs)
    ensures |rs| == |done| + if task.Idle? then 0 else 1
  {
  }

  /** A sub-step of a push changes the TRBs under way in their cycle bits only. */
  lemma DriveStages(s: State, base: nat, rs: seq<Request>, step: Ring.Step)
    requires Wf(s) && Enabled(s, base, Drive(step)) && StageInv(s, rs)
    ensures StageInv(Apply(s, base, Drive(step)), rs)
  {
    DriveSent(s, base, step);
    hide First, Laid, SameTrb, Sent, Apply, Enabled;
    LaidSame(Sent(s), Sent(Apply(s, base, Drive(step))), rs);
  }

  lemma DriveSent(s: State, base: nat, step: Ring.Step)
    requires Wf(s) && Enabled(s, base, Drive(step))
    ensures var s' := Apply(s, base, Drive(step));
            && |Sent(s')| == |Sent(s)| && (forall k :: 0 <= k < |Sent(s)| ==> SameTrb(Sent(s')[k], Sent(s)[k]))
            && |s.ring.pushed| <= |s'.ring.pushed|
            && s.task.Submitting? && s'.task.Submitting? && s'.task.target == s.task.target && s'.done == s.done
  {
    var s' := Apply(s, base, Drive(step));
    if step.Begin? {
      var k := |s.ring.pushed|;
      assert Sent(s') == Sent(s)[k := s'.ring.w.src];
    } else {
      assert Sent(s') == Sent(s);
    }
  }

  lemma StepKeepsStages(s: State, base: nat, rs: seq<Request>, step: Step)
    requires Inv(s, base) && Enabled(s, base, step) && StageInv(s, rs)
    ensures StageInv(Apply(s, base, step), rs + if step.Submit? then [step.r] else [])
  {
    hide Ring.Inv, HistInv, FreshInv, DoneInv, StageInv, Apply, Enabled;
    assert rs + [] == rs;
    IdleWriter(s, base);
    match step
    case Submit(r) => SubmitTask(s, base, r); SubmitStages(s, base, rs, r);
    case Drive(d) => DriveStages(s, base, rs, d);
    case Complete => CompleteStages(s, base, rs);
    case _ => QuietStages(s, base, rs, step);
  }

  lemma SubmitTask(s: State, base: nat, r: Request)
    requires Wf(s) && Enabled(s, base, Submit(r))
    ensures s.task.Idle?
  {
  }

  lemma IdleWriter(s: State, base: nat)
    requires Inv(s, base)
    ensures !s.task.Submitting? ==> s.ring.w.Idle?
    ensures s.task.Submitting? && s.task.rest == [] && s.ring.w.Idle? ==> Sent(s) == s.ring.pushed
  {
  }

  lemma QuietStages(s: State, base: nat, rs: seq<Request>, step: Step)
    requires Wf(s) && Enabled(s, base, step) && StageInv(s, rs)
    requires !step.Submit? && !step.Drive? && !step.Complete?
    ensures StageInv(Apply(s, base, step), rs)
  {
    QuietSent(s, base, step);
    hide First, Laid, Sent, Apply, Enabled;
  }

  lemma QuietSent(s: State, base: nat, step: Step)
    requires Wf(s) && Enabled(s, base, step) && !step.Submit? && !step.Drive? && !step.Complete?
    ensures var s' := Apply(s, base, step);
            && Sent(s') == Sent(s) && s'.done == s.done && s'.ring.pushed == s.ring.pushed
            && (s'.task == s.task || (s.task.Submitting? && s'.task.Waiting? && s'.task.target == s.task.target))
  {
  }

  lemma CompleteStages(s: State, base: nat, rs: seq<Request>)
    requires Wf(s) && Enabled(s, base, Complete) && StageInv(s, rs)
    ensures StageInv(Apply(s, base, Complete), rs)
  {
    CompleteSent(s, base);
    var s' := Apply(s, base, Complete);
    hide First, Laid, Sent, Apply, Enabled, Recorded, StageAwaited;
    RecordComplete(s.done, s'.done, s.task, rs);
  }

  lemma RecordComplete(done: seq<(nat, Event)>, done': seq<(nat, Event)>, task: Task, rs: seq<Request>)
    requires Recorded(done, task, rs) && !task.Idle? && |done'| == |done| + 1
    requires done'[..|done|] == done && done'[|done|].0 == task.target
    ensures Recorded(done', Idle, rs)
  {
    hide First, StageAwaited;
    assert forall i :: 0 <= i < |done| ==> done'[i] == done'[..|done|][i];
  }

  lemma CompleteSent(s: State, base: nat)
    requires Wf(s) && Enabled(s, base, Complete)
    ensures var s' := Apply(s, base, Complete);
            && s.task.Waiting? && s'.task.Idle? && Sent(s') == Sent(s)
            && |s'.done| == |s.done| + 1 && s'.done[..|s.done|] == s.done && s'.done[|s.done|].0 == s.task.target
  {
  }

  /** With nothing half pushed, what was sent is what was pushed. */
  lemma StagesPushed(s: State, base: nat, rs: seq<Request>)
    requires Inv(s, base) && StageInv(s, rs)
    ensures Staged(s, rs)
  {
    IdleWriter(s, base);
    hide Inv, First, Laid;
    if s.task.Submitting? {
      LaidPrefix(Sent(s), rs, |s.done|);
      assert s.ring.pushed[..First(rs, |s.done|)] == Sent(s)[..First(rs, |s.done|)];
    } else {
      assert Sent(s) == s.ring.pushed;
    }
  }

  lemma {:induction false} RunKeepsStages(s: State, base: nat, rs: seq<Request>, steps: seq<Step>)
    requires Inv(s, base) && StageInv(s, rs)
    ensures StageInv(Run(s, base, steps), rs + Asked(s, base, steps))
    decreases |steps|
  {
    hide Ring.Inv, TaskInv, HistInv, FreshInv, DoneInv, StageInv, Apply, Enabled;
    if steps == [] {
      assert rs + [] == rs;
    } else if Enabled(s, base, steps[0]) {
      StepKeepsInv(s, base, steps[0]);
      StepKeepsStages(s, base, rs, steps[0]);
      var new' := if steps[0].Submit? then [steps[0].r] else [];
      RunKeepsStages(Apply(s, base, steps[0]), base, rs + new', steps[1..]);
      assert rs + new' + Asked(Apply(s, base, steps[0]), base, steps[1..]) == rs + Asked(s, base, steps);
    } else {
      RunKeepsStages(s, base, rs, steps[1..]);
    }
  }

  // ----- what every run guarantees -----

  /** At most four TRBs are outstanding during a request and at most one between requests;
      so the ring stays a FIFO and the controller can always read all that was pushed. */
  lemma OutstandingBound(base: nat, steps: seq<Step>)
    ensures var s := Run(Init(base), base, steps);
            && Begun(s.ring) <= |s.ring.consumed| + LIMIT
            && (s.task.Idle? ==> Begun(s.ring) <= |s.ring.consumed| + 1)
            && Ring.FifoSoFar(s.ring)
            && (s.ring.w.Idle? ==> exists k: nat :: Ring.Drained(s.ring, base, k))
  {
    Ring.InitInv(base, LIMIT);
    RunKeepsInv(Init(base), base, steps);
    var s := Run(Init(base), base, steps);
    if s.ring.w.Idle? {
      Ring.DrainsIffNotBehindLink(s.ring, base, LIMIT);
    }
  }

  /** In every interleaving the TRBs on the ring are the submitted requests' stages in order,
      and every completed request was completed by an event of the stage it awaits. */
  lemma EveryRequestGetsItsOwnEvent(base: nat, steps: seq<Step>)
    ensures var s := Run(Init(base), base, steps);
            && Staged(s, Asked(Init(base), base, steps))
            && forall i :: 0 <= i < |s.done| ==> s.done[i].1.origin == Of(s.done[i].0)
  {
    Ring.InitInv(base, LIMIT);
    RunKeepsInv(Init(base), base, steps);
    RunKeepsStages(Init(base), base, [], steps);
    assert [] + Asked(Init(base), base, steps) == Asked(Init(base), base, steps);
    StagesPushed(Run(Init(base), base, steps), base, Asked(Init(base), base, steps));
  }

  /** No completion is missed: an event of the awaited TRB is never delivered before the
      waiter registers, so once delivered it lets the request complete. */
  lemma NoCompletionMissed(base: nat, steps: seq<Step>, i: nat)
    requires var s := Run(Init(base), base, steps);
             s.task.Waiting? && i < s.popped && s.hist[i].origin == Of(s.task.target)
    ensures var s := Run(Init(base), base, steps);
            s.task.since <= i && Enabled(s, base, Complete)
  {
    Ring.InitInv(base, LIMIT);
    RunKeepsInv(Init(base), base, steps);
    var s := Run(Init(base), base, steps);
    OnlyOwnEventsMatch(s, base, i);
    FirstMatchExists(s, base, i);
  }

  lemma {:induction false} FirstMatchExists(s: State, base: nat, i: nat)
    requires s.task.Waiting? && s.popped <= |s.hist| && s.task.since <= i < s.popped
    requires s.hist[i].trb.data == Addr(base, s.task.target)
    ensures exists j: nat :: FirstMatch(s, base, j)
    decreases i
  {
    if j :| s.task.since <= j < i && s.hist[j].trb.data == Addr(base, s.task.target) {
      FirstMatchExists(s, base, j);
    } else {
      assert FirstMatch(s, base, i);
    }
  }

  /** The event a request takes is the front of its waiter's queue as the dispatcher fills it. */
  lemma FirstMatchIsQueueFront(s: State, base: nat, i: nat)
    requires s.task.Waiting? && s.popped <= |s.hist| && FirstMatch(s, base, i)
    ensures var cond := Dispatch.ForTrb(Addr(base, s.task.target));
            var queue := Dispatch.Matching(cond, TrbLog(s.hist[s.task.since..s.popped]));
            queue != [] && queue[0] == s.hist[i].trb
  {
    var seen := s.hist[s.task.since..s.popped];
    FrontOfMatching(Dispatch.ForTrb(Addr(base, s.task.target)), TrbLog(seen), i - s.task.since);
  }

  lemma {:induction false} FrontOfMatching(cond: Dispatch.Cond, log: seq<Trb>, i: nat)
    requires i < |log| && Dispatch.Matches(cond, log[i]) && forall j :: 0 <= j < i ==> !Dispatch.Matches(cond, log[j])
    ensures Dispatch.Matching(cond, log) != [] && Dispatch.Matching(cond, log)[0] == log[i]
    decreases |log|
  {
    var n := |log| - 1;
    if i < n {
      FrontOfMatching(cond, log[..n], i);
    } else {
      NoneMatching(cond, log[..n]);
    }
  }

  lemma {:induction false} NoneMatching(cond: Dispatch.Cond, log: seq<Trb>)
    requires forall j :: 0 <= j < |log| ==> !Dispatch.Matches(cond, log[j])
    ensures Dispatch.Matching(cond, log) == []
    decreases |log|
  {
    if log != [] {
      NoneMatching(cond, log[..|log| - 1]);
    }
  }
}
