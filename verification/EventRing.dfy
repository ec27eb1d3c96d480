/** The event ring of xhci.rs: `EventRing::pop` as values, and its protocol with the
    controller, which posts events while the driver is at any point inside `pop`; then the
    driver's object, with the waiters of Dispatch. */
module EventRings {
  import opened Results
  import opened Trbs
  import Bits
  import Dispatch

  const NUM_TRB: nat := 16
  const CAPACITY: nat := 15

  /** What `EventRing` works on: ring memory, dequeue index, expected cycle bit, and the
      ERDP register, whose low four bits belong to the hardware. */
  datatype Driver = Driver(trb: seq<Trb>, index: nat, ours: bool, erdp: nat)

  predicate IsRing(d: Driver) { |d.trb| == NUM_TRB && d.index < NUM_TRB }

  /** The register write of `pop`: the slot's address with the hardware's low bits kept. */
  function Acknowledge(erdp: nat, eptr: nat): (r: nat)
  {
    eptr + erdp % 16
  }

  /** It is `eptr | (erdp & 0b1111)`, since slots are 16 bytes apart. */
  lemma AcknowledgeIsBits(erdp: nat, eptr: nat)
    requires eptr % 16 == 0
    ensures Acknowledge(erdp, eptr) == Bits.BitOr(eptr, Bits.BitAnd(erdp, 0xF))
  {
    assert Bits.Pow2(4) == 16;
    hide Bits.BitAnd, Bits.BitOr, Bits.Pow2, Bits.Low, Bits.Shr;
    Bits.AndMask(erdp, 4);
    Bits.ShrLowAreDivMod(erdp, 4);
    Bits.ShrLowAreDivMod(eptr, 4);
    Bits.OrDisjoint(erdp % 16, eptr, 4);
  }

  /** `TrbRing::advance_index_notoggle`: move on, if the slot is still owned. */
  function AdvancedNoToggle(d: Driver): (r: Result<Driver>)
    requires IsRing(d)
    ensures r.Ok? ==> IsRing(r.value)
  {
    if CycleState(d.trb[d.index]) != d.ours then Err("cycle state mismatch")
    else Ok(d.(index := (d.index + 1) % NUM_TRB))
  }

  /** `EventRing::pop`: nothing when the slot is not ours yet, otherwise the event. */
  function Popped(d: Driver, base: nat): (r: Result<Option<(Trb, Driver)>>)
    requires IsRing(d)
    ensures r.Ok? && r.value.Some? ==> IsRing(r.value.value.1)
  {
    var e := d.trb[d.index];
    if CycleState(e) != d.ours then Ok(None)
    else
      match AdvancedNoToggle(d)
      case Err(error) => Err(error)
      case Ok(d') =>
        Ok(Some((e, d'.(erdp := Acknowledge(d.erdp, base + 16 * d.index),
                        ours := if d'.index == 0 then !d.ours else d.ours))))
  }

  // ----- the protocol with the controller -----

  /** Where the driver is inside `pop`: after the ownership test, holding the event read,
      and with the index moved but ERDP not yet written. */
  datatype Popper = Idle | Checked | Holding(e: Trb) | Moved(e: Trb)

  datatype State = State(d: Driver, pc: Popper, enq: nat, pcs: bool, posting: Option<Trb>,
                         posted: seq<Trb>, popped: seq<Trb>)

  /** Post stores an event with the stale cycle bit, Publish flips it; Low is the hardware
      changing ERDP's low bits; the rest are the driver's sub-steps of `pop`. */
  datatype Step = Post(e: Trb) | Publish | Low(bits: nat) | Check | Read | Move | Ack

  function Init(base: nat): (s: State)
  {
    State(Driver(seq(NUM_TRB, i => Trb(0, 0, 0)), 0, true, base), Idle, 0, true, None, [], [])
  }

  predicate Wf(s: State) { IsRing(s.d) && s.enq < NUM_TRB }

  /** The slot the ERDP register names. */
  function ErdpSlot(erdp: nat, base: nat): (r: int)
  {
    erdp / 16 - base / 16
  }

  predicate Enabled(s: State, base: nat, step: Step)
    requires Wf(s)
  {
    match step
    case Post(e) => s.posting.None? && (s.enq + 1) % NUM_TRB != ErdpSlot(s.d.erdp, base)
    case Publish => s.posting.Some?
    case Low(bits) => bits < 16
    case Check => s.pc.Idle? && CycleState(s.d.trb[s.d.index]) == s.d.ours
    case Read => s.pc.Checked?
    case Move => s.pc.Holding? && AdvancedNoToggle(s.d).Ok?
    case Ack => s.pc.Moved?
  }

  function Apply(s: State, base: nat, step: Step): (s': State)
    requires Wf(s) && Enabled(s, base, step)
    ensures Wf(s')
  {
    match step
    case Post(e) =>
      s.(d := s.d.(trb := s.d.trb[s.enq := SetCycleState(e, !s.pcs)]), posting := Some(e))
    case Publish =>
      var enq := (s.enq + 1) % NUM_TRB;
      s.(d := s.d.(trb := s.d.trb[s.enq := SetCycleState(s.d.trb[s.enq], s.pcs)]),
         enq := enq, pcs := if enq == 0 then !s.pcs else s.pcs,
         posting := None, posted := s.posted + [s.posting.value])
    case Low(bits) => s.(d := s.d.(erdp := s.d.erdp / 16 * 16 + bits))
    case Check => s.(pc := Checked)
    case Read => s.(pc := Holding(s.d.trb[s.d.index]))
    case Move => s.(d := AdvancedNoToggle(s.d).value, pc := Moved(s.pc.e))
    case Ack =>
      var eptr := base + 16 * ((s.d.index + NUM_TRB - 1) % NUM_TRB);
      s.(d := s.d.(erdp := Acknowledge(s.d.erdp, eptr), ours := if s.d.index == 0 then !s.d.ours else s.d.ours),
         pc := Idle, popped := s.popped + [s.pc.e])
  }

  function Run(s: State, base: nat, steps: seq<Step>): (s': State)
    requires Wf(s)
    ensures Wf(s')
    decreases |steps|
  {
    if steps == [] then s
    else Run(if Enabled(s, base, steps[0]) then Apply(s, base, steps[0]) else s, base, steps[1..])
  }

  // ----- the invariant -----

  function Posted(posted: seq<Trb>, k: nat): (t: Trb)
    requires k < |posted|
  {
    SetCycleState(posted[k], Phase(k / NUM_TRB))
  }

  /** The controller's half after n events: cycle bits by round, enqueue slot and state. */
  predicate ProducerInv(s: State)
  {
    var n := |s.posted|;
    && |s.d.trb| == NUM_TRB
    && s.enq == n % NUM_TRB && s.pcs == Phase(n / NUM_TRB)
    && (forall j :: 0 <= j < NUM_TRB ==> CycleState(s.d.trb[j]) == ((j < n % NUM_TRB) == Phase(n / NUM_TRB)))
    && (s.posting.Some? ==> s.d.trb[s.enq] == SetCycleState(s.posting.value, !s.pcs))
  }

  /** ERDP names the slot popped last, one behind the dequeue index. */
  predicate ErdpTrails(s: State, base: nat)
  {
    var m := |s.popped|;
    ErdpSlot(s.d.erdp, base) == if m == 0 then 0 else (m - 1) % NUM_TRB
  }

  predicate DriverInv(s: State, base: nat)
  {
    var m := |s.popped|;
    && s.d.index == (m + if s.pc.Moved? then 1 else 0) % NUM_TRB
    && s.d.ours == Phase(m / NUM_TRB)
    && ErdpTrails(s, base)
    && (!s.pc.Idle? ==> m < |s.posted|)
    && (s.pc.Holding? || s.pc.Moved? ==> m < |s.posted| && s.pc.e == Posted(s.posted, m))
  }

  /** Unread events; once ERDP lags, one slot fewer can be in use. */
  predicate Bounded(s: State)
  {
    var n, m := |s.posted| + (if s.posting.Some? then 1 else 0), |s.popped|;
    m <= |s.posted| && n <= CAPACITY + (if m == 0 then 0 else m - 1)
  }

  predicate Unread(trb: seq<Trb>, posted: seq<Trb>, m: nat)
  {
    |trb| == NUM_TRB && forall k :: m <= k < |posted| ==> trb[k % NUM_TRB] == Posted(posted, k)
  }

  /** Every event popped so far is, in order, the next one posted. */
  predicate FifoSoFar(s: State)
  {
    && |s.popped| <= |s.posted|
    && forall k :: 0 <= k < |s.popped| ==> s.popped[k] == Posted(s.posted, k)
  }

  predicate Inv(s: State, base: nat)
  {
    && base % 16 == 0 && Wf(s)
    && ProducerInv(s) && DriverInv(s, base) && Bounded(s)
    && Unread(s.d.trb, s.posted, |s.popped|) && FifoSoFar(s)
  }

  lemma InitInv(base: nat)
    requires base % 16 == 0
    ensures Inv(Init(base), base)
  {
  }

  lemma SlotsDiffer(m: nat, n: nat)
    requires n < m + NUM_TRB
    ensures forall k :: m <= k < n ==> k % NUM_TRB != n % NUM_TRB
  {
  }

  lemma PostKeepsInv(s: State, base: nat, e: Trb)
    requires Inv(s, base) && Enabled(s, base, Post(e))
    ensures Inv(Apply(s, base, Post(e)), base)
  {
    PostRoom(|s.posted|, |s.popped|);
    SetCycleFacts(e, !s.pcs);
    SlotsDiffer(|s.popped|, |s.posted|);
    var trb' := s.d.trb[s.enq := SetCycleState(e, !s.pcs)];
    assert Unread(trb', s.posted, |s.popped|);
  }

  lemma PublishKeepsInv(s: State, base: nat)
    requires Inv(s, base) && Enabled(s, base, Publish)
    ensures Inv(Apply(s, base, Publish), base)
  {
    var n, e := |s.posted|, s.posting.value;
    SetCycleFacts(e, s.pcs);
    SlotsDiffer(|s.popped|, n);
    PublishProducer(s, base);
    PublishUnread(s.d.trb, s.posted, |s.popped|, e);
  }

  lemma PublishProducer(s: State, base: nat)
    requires Wf(s) && ProducerInv(s) && Enabled(s, base, Publish)
    ensures ProducerInv(Apply(s, base, Publish))
    ensures var n := |s.posted|;
            Apply(s, base, Publish).d.trb == s.d.trb[n % NUM_TRB := SetCycleState(s.posting.value, Phase(n / NUM_TRB))]
  {
    var n := |s.posted|;
    SetCycleFacts(s.posting.value, s.pcs);
    if n % NUM_TRB < NUM_TRB - 1 {
      assert (n + 1) % NUM_TRB == n % NUM_TRB + 1 && (n + 1) / NUM_TRB == n / NUM_TRB;
    } else {
      assert (n + 1) % NUM_TRB == 0 && (n + 1) / NUM_TRB == n / NUM_TRB + 1;
    }
  }

  lemma PublishUnread(trb: seq<Trb>, posted: seq<Trb>, m: nat, e: Trb)
    requires Unread(trb, posted, m) && |posted| < m + NUM_TRB
    ensures Unread(trb[|posted| % NUM_TRB := SetCycleState(e, Phase(|posted| / NUM_TRB))], posted + [e], m)
  {
    SlotsDiffer(m, |posted|);
  }

  /** The dequeue slot looks owned exactly when an event is unread, and then holds it. */
  lemma SlotOwned(s: State, base: nat)
    requires Inv(s, base) && !s.pc.Moved?
    ensures CycleState(s.d.trb[s.d.index]) == s.d.ours <==> |s.popped| < |s.posted|
    ensures |s.popped| < |s.posted| ==> s.d.trb[s.d.index] == Posted(s.posted, |s.popped|)
  {
    var n, m := |s.posted|, |s.popped|;
    if m < n {
      SetCycleFacts(s.posted[m], Phase(m / NUM_TRB));
    }
  }

  lemma AckSlot(erdp: nat, base: nat, i: nat)
    requires base % 16 == 0
    ensures ErdpSlot(Acknowledge(erdp, base + 16 * i), base) == i
  {
  }

  /** The controller's room test, in event counts. */
  lemma PostRoom(n: nat, m: nat)
    requires m <= n <= CAPACITY + (if m == 0 then 0 else m - 1)
    ensures (n % NUM_TRB + 1) % NUM_TRB != (if m == 0 then 0 else (m - 1) % NUM_TRB)
       <==> n + 1 <= CAPACITY + (if m == 0 then 0 else m - 1)
  {
  }

  /** One slot on, and one slot back; the phase changes when the index wraps. */
  lemma NextRound(m: nat)
    ensures ((m + 1) % NUM_TRB + NUM_TRB - 1) % NUM_TRB == m % NUM_TRB
    ensures Phase((m + 1) / NUM_TRB) == (if (m + 1) % NUM_TRB == 0 then !Phase(m / NUM_TRB) else Phase(m / NUM_TRB))
  {
  }

  lemma AckKeepsInv(s: State, base: nat)
    requires Inv(s, base) && Enabled(s, base, Ack)
    ensures Inv(Apply(s, base, Ack), base)
  {
    hide ErdpSlot, CycleState, SetCycleState, Posted, Phase;
    var m := |s.popped|;
    NextRound(m);
    AckSlot(s.d.erdp, base, m % NUM_TRB);
  }

  lemma LowBitsKeepSlot(erdp: nat, base: nat, bits: nat)
    requires bits < 16
    ensures ErdpSlot(erdp / 16 * 16 + bits, base) == ErdpSlot(erdp, base)
  {
  }

  /** The hardware's low bits. */
  lemma LowKeepsInv(s: State, base: nat, bits: nat)
    requires Inv(s, base) && Enabled(s, base, Low(bits))
    ensures Inv(Apply(s, base, Low(bits)), base)
  {
    hide ErdpSlot, Unread, Phase, CycleState, SetCycleState, Posted;
    LowBitsKeepSlot(s.d.erdp, base, bits);
  }

  /** The driver's look at the slot. */
  lemma LookKeepsInv(s: State, base: nat, step: Step)
    requires Inv(s, base) && Enabled(s, base, step) && (step.Check? || step.Read?)
    ensures Inv(Apply(s, base, step), base)
  {
    SlotOwned(s, base);
    hide ErdpSlot, Unread, Phase, CycleState, SetCycleState, Posted;
  }

  lemma MoveKeepsInv(s: State, base: nat)
    requires Inv(s, base) && Enabled(s, base, Move)
    ensures Inv(Apply(s, base, Move), base)
  {
    hide ErdpSlot, Unread, Phase, CycleState, SetCycleState, Posted;
    var m := |s.popped|;
    NextSlot(m);
    assert DriverInv(Apply(s, base, Move), base);
  }

  lemma NextSlot(m: nat)
    ensures (m % NUM_TRB + 1) % NUM_TRB == (m + 1) % NUM_TRB
  {
  }

  lemma StepKeepsInv(s: State, base: nat, step: Step)
    requires Inv(s, base) && Enabled(s, base, step)
    ensures Inv(Apply(s, base, step), base)
  {
    match step
    case Post(e) => PostKeepsInv(s, base, e);
    case Publish => PublishKeepsInv(s, base);
    case Low(bits) => LowKeepsInv(s, base, bits);
    case Ack => AckKeepsInv(s, base);
    case Move => MoveKeepsInv(s, base);
    case _ => LookKeepsInv(s, base, step);
  }

  lemma {:induction false} RunKeepsInv(s: State, base: nat, steps: seq<Step>)
    requires Inv(s, base)
    ensures Inv(Run(s, base, steps), base)
    decreases |steps|
  {
    if steps != [] {
      if Enabled(s, base, steps[0]) {
        StepKeepsInv(s, base, steps[0]);
        RunKeepsInv(Apply(s, base, steps[0]), base, steps[1..]);
      } else {
        RunKeepsInv(s, base, steps[1..]);
      }
    }
  }

  /** In every interleaving with a controller that stops one slot before ERDP: the events
      popped are the events posted, in order, none stale and none skipped; ERDP trails the
      dequeue index by one; while nothing is being popped the driver sees an event exactly
      when one is unread; and a pop once begun is never refused by the index advance. */
  lemma EveryRunDelivers(base: nat, steps: seq<Step>)
    requires base % 16 == 0
    ensures var s := Run(Init(base), base, steps);
            && FifoSoFar(s) && ErdpTrails(s, base) && Bounded(s)
            && (s.pc.Idle? ==> (Enabled(s, base, Check) <==> |s.popped| < |s.posted|))
            && (s.pc.Holding? ==> Enabled(s, base, Move))
  {
    InitInv(base);
    RunKeepsInv(Init(base), base, steps);
    var s := Run(Init(base), base, steps);
    if s.pc.Idle? || s.pc.Holding? {
      SlotOwned(s, base);
    }
  }

  /** The price of the trailing ERDP: from the first pop on, the controller stops with 14
      unread events, and exactly then. */
  lemma FourteenUnreadBlock(s: State, base: nat, e: Trb)
    requires Inv(s, base) && s.posting.None? && |s.popped| > 0
    ensures Enabled(s, base, Post(e)) <==> |s.posted| < |s.popped| + CAPACITY - 1
  {
    PostRoom(|s.posted|, |s.popped|);
  }

  /** The four sub-steps with no step of the controller between them are one call of `pop`. */
  lemma PopIsFourSteps(s: State, base: nat)
    requires Wf(s) && s.pc.Idle? && Enabled(s, base, Check)
    ensures Popped(s.d, base).Ok? && Popped(s.d, base).value.Some?
    ensures var (e, d) := Popped(s.d, base).value.value;
            Run(s, base, [Check, Read, Move, Ack]) == s.(d := d, popped := s.popped + [e])
  {
    var s1 := Apply(s, base, Check);
    var s2 := Apply(s1, base, Read);
    var s3 := Apply(s2, base, Move);
    var s4 := Apply(s3, base, Ack);
    assert (s3.d.index + NUM_TRB - 1) % NUM_TRB == s.d.index;
    var steps := [Check, Read, Move, Ack];
    assert steps[1..] == [Read, Move, Ack];
    assert steps[1..][1..] == [Move, Ack];
    assert steps[1..][1..][1..] == [Ack];
    assert steps[1..][1..][1..][1..] == [];
    assert Run(s4, base, []) == s4;
    assert Run(s3, base, [Ack]) == s4;
    assert Run(s2, base, [Move, Ack]) == s4;
    assert Run(s1, base, [Read, Move, Ack]) == s4;
  }

  /** In every reachable state `pop` returns an event exactly when one is unread, and it is
      the oldest unread one. */
  lemma PopReturnsOldest(s: State, base: nat)
    requires Inv(s, base) && s.pc.Idle?
    ensures Popped(s.d, base).Ok?
    ensures Popped(s.d, base).value.Some? <==> |s.popped| < |s.posted|
    ensures |s.popped| < |s.posted| ==> Popped(s.d, base).value.value.0 == Posted(s.posted, |s.popped|)
  {
    SlotOwned(s, base);
  }

  // ----- the driver's object -----

  /** `EventRing`: ring memory shared with the controller, the ERDP register, and the list of
      waiters; `registered` is every waiter there ever was and `log` every event popped. */
  class EventRing {
    const base: nat
    const trb: array<Trb>
    var currentIndex: nat
    var cycleStateOurs: bool
    var erdp: nat
    var waitList: seq<Dispatch.EventWaitInfo>
    ghost var registered: seq<Dispatch.EventWaitInfo>
    ghost var log: seq<Trb>

    ghost function View(): (d: Driver)
      reads this, trb
    {
      Driver(trb[..], currentIndex, cycleStateOurs, erdp)
    }

    /** The dispatcher's state. */
    ghost function Waiters(): (s: Dispatch.State)
      reads this, waitList, registered
    {
      Dispatch.State(Dispatch.Views(waitList), Dispatch.Roster(registered), log)
    }

    ghost predicate Valid()
      reads this, trb, waitList, registered
    {
      IsRing(View()) && Distinct(waitList) && Dispatch.Inv(Waiters())
    }

    constructor (base: nat)
      ensures Valid() && this.base == base && Waiters() == Dispatch.START && fresh(trb)
      ensures View() == Init(base).d
    {
      this.base := base;
      trb := new Trb[NUM_TRB](_ => Trb(0, 0, 0));
      currentIndex, cycleStateOurs, erdp := 0, true, base;
      waitList, registered, log := [], [], [];
      new;
      assert trb[..] == Init(base).d.trb;
    }

    /** `advance_index_notoggle`. */
    method AdvanceIndexNoToggle() returns (ok: bool)
      requires IsRing(View())
      modifies this`currentIndex
      ensures ok == AdvancedNoToggle(old(View())).Ok?
      ensures View() == if ok then AdvancedNoToggle(old(View())).value else old(View())
    {
      if CycleState(trb[currentIndex]) != cycleStateOurs {
        return false;
      }
      currentIndex := (currentIndex + 1) % trb.Length;
      return true;
    }

    method Pop() returns (r: Result<Option<Trb>>)
      requires IsRing(View())
      modifies this`currentIndex, this`cycleStateOurs, this`erdp
      ensures match Popped(old(View()), base)
              case Ok(Some((e, d))) => r == Ok(Some(e)) && View() == d
              case Ok(None) => r == Ok(None) && View() == old(View())
              case Err(_) => r.Err? && View() == old(View())
    {
      if CycleState(trb[currentIndex]) != cycleStateOurs {
        return Ok(None);
      }
      var e := trb[currentIndex];
      var eptr := base + 16 * currentIndex;
      var ok := AdvanceIndexNoToggle();
      if !ok {
        return Err("cycle state mismatch");
      }
      erdp := Acknowledge(erdp, eptr);
      if currentIndex == 0 {
        cycleStateOurs := !cycleStateOurs;
      }
      return Ok(Some(e));
    }

    method RegisterWaiter(w: Dispatch.EventWaitInfo)
      requires Valid() && w !in waitList && w !in registered && w.trbs == [] && w.taken == [] && w.strong > 0
      modifies this`waitList, this`registered, w`since, w`id
      ensures Valid() && waitList == old(waitList) + [w] && registered == old(registered) + [w]
      ensures w.View() == old(w.View()).(id := |old(registered)|, since := |log|)
      ensures Waiters() == Dispatch.Apply(old(Waiters()), Dispatch.Register(w.cond))
    {
      ghost var s := Waiters();
      w.since, w.id := |log|, |registered|;
      waitList, registered := waitList + [w], registered + [w];
      assert s.waiters == Dispatch.Views(old(waitList)) && s.roster == Dispatch.Roster(old(registered));
      assert Dispatch.Views(waitList) == s.waiters + [w.View()];
      assert Dispatch.Roster(registered) == s.roster + [Dispatch.Registration(w.cond, w.since, false)];
      hide Dispatch.Inv;
      Dispatch.StepKeepsInv(s, Dispatch.Register(w.cond));
    }

    /** The fan-out loop of `poll`. */
    method Resolve(e: Trb)
      requires Distinct(waitList)
      modifies waitList`trbs
      ensures Dispatch.Views(waitList) == Dispatch.OfferAll(old(Dispatch.Views(waitList)), e)
    {
      for i := 0 to |waitList|
        invariant forall j :: 0 <= j < i ==> waitList[j].View() == Dispatch.Offer(old(waitList[j].View()), e)
        invariant forall j :: i <= j < |waitList| ==> waitList[j].View() == old(waitList[j].View())
      {
        var w := waitList[i];
        if w.strong > 0 && Dispatch.Matches(w.cond, e) {
          w.trbs := w.trbs + [e];
        }
      }
    }

    /** First half of the cleanup: the dead indices, from the back. */
    method CollectStale() returns (stale: seq<nat>)
      ensures stale == Dispatch.StaleIndices(Dispatch.Views(waitList))
    {
      ghost var views := Dispatch.Views(waitList);
      stale := [];
      assert views[..|waitList|] == views;
      for i := |waitList| downto 0
        invariant Dispatch.StaleIndices(views) == stale + Dispatch.StaleIndices(views[..i])
      {
        Dispatch.StaleStep(views, stale, i);
        if waitList[i].strong == 0 {
          stale := stale + [i];
        }
      }
    }

    /** Second half: remove each of them. */
    method RemoveEach(stale: seq<nat>)
      requires Distinct(waitList)
      modifies this`waitList
      ensures waitList == Dispatch.RemoveAll(old(waitList), stale) && Distinct(waitList)
      ensures forall w :: w in waitList ==> w in old(waitList)
    {
      assert stale[0..] == stale;
      for j := 0 to |stale|
        invariant Dispatch.RemoveAll(waitList, stale[j..]) == Dispatch.RemoveAll(old(waitList), stale)
        invariant Distinct(waitList)
        invariant forall w :: w in waitList ==> w in old(waitList)
      {
        var k := stale[j];
        assert stale[j..][1..] == stale[j + 1..];
        if k < |waitList| {
          waitList := waitList[..k] + waitList[k + 1..];
        }
      }
    }

    /** The fan-out and cleanup of `poll`. */
    method FanOut(e: Trb)
      requires Distinct(waitList)
      modifies this`waitList, waitList`trbs
      ensures Dispatch.Views(waitList) == Dispatch.Deliver(old(Dispatch.Views(waitList)), e) && Distinct(waitList)
    {
      Resolve(e);
      ghost var list, views := waitList, Dispatch.Views(waitList);
      var stale := CollectStale();
      RemoveEach(stale);
      assert Dispatch.Views(list) == views;
      Dispatch.ViewsRemoveAll(list, stale);
      Dispatch.CleanupKeepsSurvivors(views);
    }

    /** `EventRing::poll`: one event, if any, goes to exactly the live matching waiters, and
        only dead waiters leave the list. */
    method Poll() returns (ok: bool)
      requires Valid()
      modifies this, waitList`trbs
      ensures Valid()
      ensures match Popped(old(View()), base)
              case Err(_) => !ok && Waiters() == old(Waiters()) && View() == old(View())
              case Ok(None) => ok && Waiters() == old(Waiters()) && View() == old(View())
              case Ok(Some((e, d))) =>
                ok && View() == d && Waiters() == Dispatch.Apply(old(Waiters()), Dispatch.Event(e))
    {
      hide Dispatch.Inv, Dispatch.Deliver, Popped;
      ghost var s := Waiters();
      var popped := Pop();
      assert Dispatch.Views(waitList) == s.waiters && Dispatch.Roster(registered) == s.roster;
      if popped.Err? {
        return false;
      }
      if popped.value.Some? {
        var e := popped.value.value;
        Dispatch.StepKeepsInv(s, Dispatch.Event(e));
        FanOut(e);
        log := log + [e];
        assert Dispatch.Roster(registered) == s.roster;
        assert Waiters() == Dispatch.Apply(s, Dispatch.Event(e));
      }
      return true;
    }
  }
}
