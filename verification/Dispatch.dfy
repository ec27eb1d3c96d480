/** Fan-out of popped events to waiters (xhci.rs): the wait list as values and its behaviour
    over every run, then the waiter's object. */
module Dispatch {
  import opened Results
  import opened Trbs
  import Bits

  /** `EventWaitCond`: each field, when present, must agree with the event. */
  datatype Cond = Cond(trbType: Option<nat>, trbAddr: Option<nat>, slot: Option<nat>)

  /** `EventWaitInfo::matches`. */
  predicate Matches(cond: Cond, e: Trb)
  {
    && (cond.trbType.Some? ==> TrbType(e) == cond.trbType.value)
    && (cond.slot.Some? ==> SlotId(e) == cond.slot.value)
    && (cond.trbAddr.Some? ==> e.data == cond.trbAddr.value)
  }

  /** `EventFuture::new_for_trb`: wait for an event that names a TRB's address. */
  function ForTrb(addr: nat): (c: Cond) { Cond(None, Some(addr), None) }

  /** The events of a log that match, in order. */
  function Matching(cond: Cond, log: seq<Trb>): (r: seq<Trb>)
  {
    if log == [] then []
    else
      var e := log[|log| - 1];
      Matching(cond, log[..|log| - 1]) + if Matches(cond, e) then [e] else []
  }

  lemma MatchingAppend(cond: Cond, log: seq<Trb>, e: Trb)
    ensures Matching(cond, log + [e]) == Matching(cond, log) + if Matches(cond, e) then [e] else []
  {
    assert (log + [e])[..|log|] == log;
  }

  /** An event matches if and only if each field waited for is the event's: the type in bits 10
      to 15 of its control word, the slot in bits 24 to 31, the TRB address in its data word. */
  lemma MatchesFields(cond: Cond, e: Trb)
    ensures Matches(cond, e) <==>
              && (cond.trbType == None || cond.trbType == Some(Bits.ReadBits(e.control, 10, 6)))
              && (cond.slot == None || cond.slot == Some(Bits.ReadBits(e.control, 24, 8)))
              && (cond.trbAddr == None || cond.trbAddr == Some(e.data))
  {
    hide TrbType, SlotId, Bits.ReadBits;
    FieldsAreBits(e);
  }

  /** What matches, by place: the events at rising places of the log, which are all the places
      of matching events. */
  lemma {:induction false} MatchingPlaces(cond: Cond, log: seq<Trb>) returns (places: seq<nat>)
    ensures |places| == |Matching(cond, log)|
    ensures forall j :: 0 <= j < |places| ==> places[j] < |log| && Matching(cond, log)[j] == log[places[j]]
    ensures forall i, j :: 0 <= i < j < |places| ==> places[i] < places[j]
    ensures forall i :: 0 <= i < |log| ==> (i in places <==> Matches(cond, log[i]))
    decreases |log|
  {
    hide Matches;
    if log == [] {
      places := [];
    } else {
      var n := |log| - 1;
      places := MatchingPlaces(cond, log[..n]);
      if Matches(cond, log[n]) {
        places := places + [n];
      }
    }
  }

  // ----- the wait list -----

  /** A waiter: its registration number, what it waits for, its queue, whether a strong
      reference is left, how many events had been popped when it registered, and what its
      future has taken. */
  datatype Waiter = Waiter(id: nat, cond: Cond, queue: seq<Trb>, alive: bool, since: nat, taken: seq<Trb>)

  function Offer(w: Waiter, e: Trb): (w': Waiter)
  {
    if w.alive && Matches(w.cond, e) then w.(queue := w.queue + [e]) else w
  }

  function OfferAll(ws: seq<Waiter>, e: Trb): (r: seq<Waiter>)
    ensures |r| == |ws| && forall i :: 0 <= i < |ws| ==> r[i] == Offer(ws[i], e)
  {
    if ws == [] then [] else OfferAll(ws[..|ws| - 1], e) + [Offer(ws[|ws| - 1], e)]
  }

  function Survivors(ws: seq<Waiter>): (r: seq<Waiter>)
  {
    if ws == [] then []
    else Survivors(ws[..|ws| - 1]) + if ws[|ws| - 1].alive then [ws[|ws| - 1]] else []
  }

  lemma {:induction false} SurvivorsAreTheLiving(ws: seq<Waiter>)
    ensures forall w :: w in Survivors(ws) <==> w in ws && w.alive
    decreases |ws|
  {
    if ws != [] {
      SurvivorsAreTheLiving(ws[..|ws| - 1]);
      assert ws == ws[..|ws| - 1] + [ws[|ws| - 1]];
    }
  }

  /** `enumerate().rev()` filtered: the indices of dead waiters, highest first. */
  function StaleIndices(ws: seq<Waiter>): (ks: seq<nat>)
  {
    if ws == [] then []
    else if ws[|ws| - 1].alive then StaleIndices(ws[..|ws| - 1])
    else [|ws| - 1] + StaleIndices(ws[..|ws| - 1])
  }

  lemma StaleStep(ws: seq<Waiter>, found: seq<nat>, i: nat)
    requires i < |ws|
    ensures found + StaleIndices(ws[..i + 1])
         == (if ws[i].alive then found else found + [i]) + StaleIndices(ws[..i])
  {
    assert ws[..i + 1][..i] == ws[..i];
  }

  /** `VecDeque::remove` of each index in turn; an index out of range removes nothing. */
  function RemoveAll<T>(s: seq<T>, ks: seq<nat>): (r: seq<T>)
    decreases |ks|
  {
    if ks == [] then s
    else RemoveAll(if ks[0] < |s| then s[..ks[0]] + s[ks[0] + 1..] else s, ks[1..])
  }

  lemma {:induction false} RemoveStaleFrom(ws: seq<Waiter>, tail: seq<Waiter>)
    ensures RemoveAll(ws + tail, StaleIndices(ws)) == Survivors(ws) + tail
    decreases |ws|
  {
    if ws == [] {
      assert ws + tail == tail;
    } else {
      var n := |ws| - 1;
      var front, last := ws[..n], ws[n];
      if last.alive {
        RemoveStaleFrom(front, [last] + tail);
        assert ws + tail == front + ([last] + tail);
        assert Survivors(ws) + tail == Survivors(front) + ([last] + tail);
      } else {
        RemoveStaleFrom(front, tail);
        RemoveLastDead(ws, tail);
      }
    }
  }

  lemma RemoveLastDead(ws: seq<Waiter>, tail: seq<Waiter>)
    requires ws != [] && !ws[|ws| - 1].alive
    ensures RemoveAll(ws + tail, StaleIndices(ws)) == RemoveAll(ws[..|ws| - 1] + tail, StaleIndices(ws[..|ws| - 1]))
    ensures Survivors(ws) == Survivors(ws[..|ws| - 1])
  {
    var n, ks := |ws| - 1, StaleIndices(ws);
    assert ks[0] == n && ks[1..] == StaleIndices(ws[..n]);
    assert (ws + tail)[..n] + (ws + tail)[n + 1..] == ws[..n] + tail;
  }

  /** Removing dead waiters by descending index removes exactly them and keeps the order. */
  lemma CleanupKeepsSurvivors(ws: seq<Waiter>)
    ensures RemoveAll(ws, StaleIndices(ws)) == Survivors(ws)
  {
    RemoveStaleFrom(ws, []);
    assert ws + [] == ws && Survivors(ws) + [] == Survivors(ws);
  }

  /** One popped event: offer it to every live waiter, then drop the dead ones. */
  function Deliver(ws: seq<Waiter>, e: Trb): (r: seq<Waiter>) { Survivors(OfferAll(ws, e)) }

  // ----- every run of the dispatcher -----

  /** What was registered, when, and whether its last reference is gone. */
  datatype Registration = Registration(cond: Cond, since: nat, released: bool)

  /** The wait list, every registration ever made, and every event popped. */
  datatype State = State(waiters: seq<Waiter>, roster: seq<Registration>, log: seq<Trb>)

  const START: State := State([], [], [])

  /** An event popped and fanned out; a registration; a future's poll; a last reference gone. */
  datatype Step = Event(e: Trb) | Register(cond: Cond) | Take(i: nat) | Release(i: nat)

  function Apply(s: State, step: Step): (s': State)
  {
    match step
    case Event(e) => s.(waiters := Deliver(s.waiters, e), log := s.log + [e])
    case Register(cond) =>
      s.(waiters := s.waiters + [Waiter(|s.roster|, cond, [], true, |s.log|, [])],
         roster := s.roster + [Registration(cond, |s.log|, false)])
    case Take(i) =>
      if i < |s.waiters| && s.waiters[i].alive && s.waiters[i].queue != [] then
        s.(waiters := s.waiters[i := Taken(s.waiters[i])])
      else s
    case Release(i) =>
      if i < |s.waiters| && s.waiters[i].id < |s.roster| then
        var w := s.waiters[i];
        s.(waiters := s.waiters[i := w.(alive := false)],
           roster := s.roster[w.id := s.roster[w.id].(released := true)])
      else s
  }

  /** A waiter whose future took the front of its queue. */
  function Taken(w: Waiter): (w': Waiter)
    requires w.queue != []
  {
    w.(queue := w.queue[1..], taken := w.taken + [w.queue[0]])
  }

  function Run(s: State, steps: seq<Step>): (s': State)
    decreases |steps|
  {
    if steps == [] then s else Run(Apply(s, steps[0]), steps[1..])
  }

  /** Taken and queued events together are exactly the matching ones popped since
      registration. */
  predicate UpToDate(w: Waiter, log: seq<Trb>)
  {
    w.alive ==> w.since <= |log| && w.taken + w.queue == Matching(w.cond, log[w.since..])
  }

  /** A waiter is the one that was registered under its number, alive while not released. */
  predicate Enrolled(w: Waiter, roster: seq<Registration>)
  {
    w.id < |roster| && roster[w.id] == Registration(w.cond, w.since, !w.alive)
  }

  predicate Ordered(ws: seq<Waiter>) { forall i, j :: 0 <= i < j < |ws| ==> ws[i].id < ws[j].id }

  predicate Listed(ws: seq<Waiter>, id: nat) { exists w :: w in ws && w.id == id }

  /** Nobody is forgotten: every registration not released is in the list. */
  predicate AllListed(s: State)
  {
    forall id {:trigger s.roster[id]} :: 0 <= id < |s.roster| && !s.roster[id].released ==> Listed(s.waiters, id)
  }

  predicate Inv(s: State)
  {
    && Ordered(s.waiters) && AllListed(s)
    && forall w :: w in s.waiters ==> Enrolled(w, s.roster) && UpToDate(w, s.log)
  }

  lemma OfferKeepsUpToDate(w: Waiter, log: seq<Trb>, e: Trb)
    requires UpToDate(w, log)
    ensures UpToDate(Offer(w, e), log + [e])
  {
    if w.alive {
      MatchingAppend(w.cond, log[w.since..], e);
      assert (log + [e])[w.since..] == log[w.since..] + [e];
      assert w.taken + (w.queue + [e]) == w.taken + w.queue + [e];
    }
  }

  lemma {:induction false} SurvivorsOrdered(ws: seq<Waiter>)
    requires Ordered(ws)
    ensures Ordered(Survivors(ws))
    decreases |ws|
  {
    if ws != [] {
      var front := ws[..|ws| - 1];
      SurvivorsOrdered(front);
      SurvivorsAreTheLiving(front);
      assert forall w :: w in Survivors(front) ==> w in front;
    }
  }

  /** A delivery: every waiter kept is an old one that was offered the event, the living stay. */
  lemma DeliverMembers(ws: seq<Waiter>, e: Trb)
    ensures forall w :: w in Deliver(ws, e) ==> exists v :: v in ws && w == Offer(v, e)
    ensures forall v :: v in ws && v.alive ==> Offer(v, e) in Deliver(ws, e)
  {
    var offered := OfferAll(ws, e);
    SurvivorsAreTheLiving(offered);
    forall w | w in Deliver(ws, e)
      ensures exists v :: v in ws && w == Offer(v, e)
    {
      var i :| 0 <= i < |ws| && w == offered[i];
      assert ws[i] in ws && w == Offer(ws[i], e);
    }
    forall v | v in ws && v.alive
      ensures Offer(v, e) in Deliver(ws, e)
    {
      var i :| 0 <= i < |ws| && v == ws[i];
      assert offered[i] == Offer(v, e) && offered[i] in offered;
    }
  }

  lemma EventKeepsInv(s: State, e: Trb)
    requires Inv(s)
    ensures Inv(Apply(s, Event(e)))
  {
    hide Survivors;
    var s' := Apply(s, Event(e));
    DeliverMembers(s.waiters, e);
    SurvivorsOrdered(OfferAll(s.waiters, e));
    forall w | w in s'.waiters
      ensures Enrolled(w, s'.roster) && UpToDate(w, s'.log)
    {
      var v :| v in s.waiters && w == Offer(v, e);
      OfferKeepsUpToDate(v, s.log, e);
    }
    forall id | 0 <= id < |s'.roster| && !s'.roster[id].released
      ensures Listed(s'.waiters, id)
    {
      assert Listed(s.waiters, id);
      var v :| v in s.waiters && v.id == id;
      assert Offer(v, e) in s'.waiters && Offer(v, e).id == id;
    }
  }

  lemma RegisterKeepsInv(s: State, cond: Cond)
    requires Inv(s)
    ensures Inv(Apply(s, Register(cond)))
  {
    var s' := Apply(s, Register(cond));
    var last := s'.waiters[|s.waiters|];
    assert s.log[|s.log|..] == [];
    forall i | 0 <= i < |s.waiters|
      ensures s.waiters[i].id < |s.roster|
    {
      assert s.waiters[i] in s.waiters;
      assert Enrolled(s.waiters[i], s.roster);
    }
    assert last in s'.waiters && last.id == |s.roster|;
    forall id | 0 <= id < |s'.roster| && !s'.roster[id].released
      ensures Listed(s'.waiters, id)
    {
      if id < |s.roster| {
        assert s.roster[id] == s'.roster[id] && Listed(s.waiters, id);
        var v :| v in s.waiters && v.id == id;
        assert v in s'.waiters;
      }
    }
  }

  /** Replacing a waiter by one of the same number keeps order and listing. */
  lemma ReplaceKeepsListed(ws: seq<Waiter>, i: nat, w: Waiter)
    requires Ordered(ws) && i < |ws| && w.id == ws[i].id
    ensures Ordered(ws[i := w])
    ensures forall id: nat :: Listed(ws, id) ==> Listed(ws[i := w], id)
    ensures forall v :: v in ws[i := w] ==> v == w || (v in ws && v.id != w.id)
  {
    var ws' := ws[i := w];
    forall id: nat | Listed(ws, id)
      ensures Listed(ws', id)
    {
      var v :| v in ws && v.id == id;
      var j :| 0 <= j < |ws| && ws[j] == v;
      assert ws'[j].id == id && ws'[j] in ws';
    }
  }

  lemma TakeKeepsInv(s: State, i: nat)
    requires Inv(s) && i < |s.waiters| && s.waiters[i].alive && s.waiters[i].queue != []
    ensures Inv(Apply(s, Take(i)))
  {
    var w := s.waiters[i];
    var w' := Taken(w);
    assert w in s.waiters;
    assert w'.taken + w'.queue == w.taken + w.queue;
    hide Listed;
    ReplaceKeepsListed(s.waiters, i, w');
  }

  lemma ReleaseKeepsInv(s: State, i: nat)
    requires Inv(s) && i < |s.waiters|
    ensures Inv(Apply(s, Release(i)))
  {
    var w := s.waiters[i];
    assert w in s.waiters && Enrolled(w, s.roster);
    hide Listed;
    ReplaceKeepsListed(s.waiters, i, w.(alive := false));
  }

  lemma StepKeepsInv(s: State, step: Step)
    requires Inv(s)
    ensures Inv(Apply(s, step))
  {
    hide Inv;
    match step
    case Event(e) => EventKeepsInv(s, e);
    case Register(cond) => RegisterKeepsInv(s, cond);
    case Take(i) =>
      if i < |s.waiters| && s.waiters[i].alive && s.waiters[i].queue != [] {
        TakeKeepsInv(s, i);
      }
    case Release(i) =>
      if i < |s.waiters| {
        ReleaseKeepsInv(s, i);
      }
  }

  lemma {:induction false} RunKeepsInv(s: State, steps: seq<Step>)
    requires Inv(s)
    ensures Inv(Run(s, steps))
    decreases |steps|
  {
    if steps != [] {
      StepKeepsInv(s, steps[0]);
      hide Inv, Apply;
      RunKeepsInv(Apply(s, steps[0]), steps[1..]);
    }
  }

  /** Position i of the list is the waiter registered under a number, with its condition and
      starting point, and it has received exactly the matching events popped since, in order. */
  predicate ServedAt(s: State, id: nat, i: nat)
  {
    && i < |s.waiters| && id < |s.roster|
    && var w, reg := s.waiters[i], s.roster[id];
       && w.id == id && w.alive && w.cond == reg.cond && w.since == reg.since <= |s.log|
       && w.taken + w.queue == Matching(reg.cond, s.log[reg.since..])
  }

  /** A registration that is not released is served at one place of the list. */
  lemma Served(s: State, id: nat) returns (i: nat)
    requires Inv(s) && id < |s.roster| && !s.roster[id].released
    ensures ServedAt(s, id, i)
    ensures forall j :: 0 <= j < |s.waiters| && s.waiters[j].id == id ==> j == i
  {
    assert Listed(s.waiters, id);
    var w :| w in s.waiters && w.id == id;
    i :| 0 <= i < |s.waiters| && s.waiters[i] == w;
    hide Listed, Matching;
    assert Enrolled(w, s.roster) && UpToDate(w, s.log);
  }

  /** In every run the list is in order of registration, without repetition, and every
      registered waiter whose last reference is not gone is in it and has received exactly the
      matching events popped since it registered, in order. */
  lemma EveryRunDispatches(steps: seq<Step>)
    ensures var s := Run(START, steps);
            && Ordered(s.waiters)
            && forall id {:trigger s.roster[id]} :: 0 <= id < |s.roster| && !s.roster[id].released ==>
                 exists i :: ServedAt(s, id, i)
  {
    RunKeepsInv(START, steps);
    var s := Run(START, steps);
    hide Run;
    forall id | 0 <= id < |s.roster| && !s.roster[id].released
      ensures exists i :: ServedAt(s, id, i)
    {
      var i := Served(s, id);
    }
  }

  /** Registrations are never forgotten or changed, and only a release releases. */
  lemma {:induction false} RosterIsHistory(s: State, steps: seq<Step>, id: nat)
    requires id < |s.roster|
    ensures id < |Run(s, steps).roster|
    ensures var a, b := s.roster[id], Run(s, steps).roster[id];
            && a.cond == b.cond && a.since == b.since && (a.released ==> b.released)
            && ((forall k :: 0 <= k < |steps| ==> !steps[k].Release?) ==> a == b)
    decreases |steps|
  {
    if steps != [] {
      RosterIsHistory(Apply(s, steps[0]), steps[1..], id);
    }
  }

  // ----- the waiter's object -----

  /** `EventWaitInfo` behind its reference count; `id`, `since` and `taken` are its history. */
  class EventWaitInfo {
    const cond: Cond
    var trbs: seq<Trb>
    var strong: nat
    ghost var id: nat
    ghost var since: nat
    ghost var taken: seq<Trb>

    constructor (cond: Cond)
      ensures this.cond == cond && trbs == [] && strong == 1 && taken == []
    {
      this.cond := cond;
      trbs, strong, taken := [], 1, [];
    }

    ghost function View(): (w: Waiter)
      reads this
    {
      Waiter(id, cond, trbs, strong > 0, since, taken)
    }

    /** `EventFuture::poll`. */
    method Poll() returns (r: Option<Trb>)
      modifies this
      ensures old(trbs) == [] ==> r == None && View() == old(View())
      ensures old(trbs) != [] ==> r == Some(old(trbs)[0])
      ensures old(trbs) != [] ==> View() == Taken(old(View()))
    {
      if trbs == [] {
        return None;
      }
      var t := trbs[0];
      trbs := trbs[1..];
      taken := taken + [t];
      return Some(t);
    }
  }

  ghost function Views(ws: seq<EventWaitInfo>): (r: seq<Waiter>)
    reads ws
  {
    seq(|ws|, i requires 0 <= i < |ws| reads ws => ws[i].View())
  }

  /** The registrations of some waiters, in order. */
  ghost function Roster(ws: seq<EventWaitInfo>): (r: seq<Registration>)
    reads ws
  {
    seq(|ws|, i requires 0 <= i < |ws| reads ws => Registration(ws[i].cond, ws[i].since, ws[i].strong == 0))
  }

  lemma {:induction false} ViewsRemoveAll(ws: seq<EventWaitInfo>, ks: seq<nat>)
    ensures Views(RemoveAll(ws, ks)) == RemoveAll(Views(ws), ks)
    decreases |ks|
  {
    if ks != [] && ks[0] < |ws| {
      var ws' := ws[..ks[0]] + ws[ks[0] + 1..];
      assert Views(ws') == Views(ws)[..ks[0]] + Views(ws)[ks[0] + 1..];
      ViewsRemoveAll(ws', ks[1..]);
    } else if ks != [] {
      ViewsRemoveAll(ws, ks[1..]);
    }
  }
}
