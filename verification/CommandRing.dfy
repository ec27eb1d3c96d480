/** The command/transfer ring of xhci.rs: the driver's half as values (`Driver`, `Pushed`), and
    the lock-free protocol it plays with the controller as interleaved single-word steps. */
module CommandRings {
  import opened Results
  import opened Trbs

  const NUM_TRB: nat := 16
  const SLOTS: nat := 15        // the last TRB of the segment is the Link

  /** What `CommandRing` and its `TrbRing` hold. */
  datatype Driver = Driver(trb: seq<Trb>, index: nat, ours: bool)

  predicate IsRing(d: Driver) { |d.trb| == NUM_TRB && d.index < NUM_TRB }

  function Default(base: nat): (d: Driver)
    ensures IsRing(d)
  {
    Driver(seq(SLOTS, i => Trb(0, 0, 0)) + [LinkTrb(base)], 0, false)
  }

  /** `TrbRing::advance_index`: publish the current slot and move on. */
  function Advanced(d: Driver, newCycle: bool): (r: Result<Driver>)
    requires IsRing(d)
    ensures r.Ok? ==> IsRing(r.value)
  {
    var t := d.trb[d.index];
    if CycleState(t) == newCycle then Err("cycle state does not change")
    else Ok(d.(trb := d.trb[d.index := SetCycleState(t, newCycle)], index := (d.index + 1) % NUM_TRB))
  }

  /** `CommandRing::push`: the new ring and the address of the slot used. */
  function Pushed(d: Driver, base: nat, src: Trb): (r: Result<(Driver, nat)>)
    requires IsRing(d)
    ensures r.Ok? ==> IsRing(r.value.0)
  {
    if CycleState(d.trb[d.index]) != d.ours then Err("Command Ring is Full")
    else
      var ptr := base + 16 * d.index;
      var written := d.(trb := d.trb[d.index := SetCycleState(src, d.ours)]);
      var published := Advanced(written, !d.ours);
      if published.Err? then Err(published.error)
      else if TrbType(published.value.trb[published.value.index]) != LINK then Ok((published.value, ptr))
      else
        var linked := Advanced(published.value, !d.ours);
        if linked.Err? then Err(linked.error)
        else Ok((linked.value.(ours := !d.ours), ptr))
  }

  // ----- the phase invariant of the driver alone -----

  /** The slots after n published TRBs, whatever the Link's cycle bit is. */
  predicate PhasedSlots(trb: seq<Trb>, base: nat, n: nat)
  {
    && |trb| == NUM_TRB
    && (forall j :: 0 <= j < SLOTS ==> CycleState(trb[j]) == ((j < n % SLOTS) == Phase(n / SLOTS)))
    && (forall j :: 0 <= j < SLOTS ==> TrbType(trb[j]) != LINK)
    && TrbType(trb[SLOTS]) == LINK && ToggleCycle(trb[SLOTS]) && trb[SLOTS].data == base
  }

  /** The ring between two pushes, n of them done: slots before the index carry the negated
      phase and the rest, the Link included, carry the driver's current one. */
  predicate Phased(d: Driver, base: nat, n: nat)
  {
    && PhasedSlots(d.trb, base, n)
    && d.index == n % SLOTS
    && d.ours == !Phase(n / SLOTS)
    && CycleState(d.trb[SLOTS]) == d.ours
  }

  /** What a push finds: its slot carries the driver's cycle state. */
  lemma ReadyToPush(d: Driver, base: nat, n: nat)
    requires Phased(d, base, n)
    ensures IsRing(d) && d.index < SLOTS && CycleState(d.trb[d.index]) == d.ours
  {
  }

  lemma DefaultPhased(base: nat)
    ensures Phased(Default(base), base, 0)
  {
    assert TrbType(Trb(0, 0, 0)) == 0 && TrbType(LinkTrb(base)) == LINK;
  }

  /** A fresh ring, word by word: fifteen zeroed TRBs and a Link whose control word has type 6,
      the toggle bit and a clear cycle bit; the driver starts at slot 0. */
  lemma FreshRing(base: nat)
    ensures var d := Default(base);
            && |d.trb| == 16 && d.index == 0 && !d.ours
            && d.trb[15] == Trb(base, 0, 0x1802)
            && forall j :: 0 <= j < 15 ==> d.trb[j] == Trb(0, 0, 0)
  {
  }

  /** The slot of push n, filled and published. */
  lemma PublishedSlot(trb: seq<Trb>, base: nat, n: nat, src: Trb)
    requires PhasedSlots(trb, base, n) && TrbType(src) != LINK
    ensures PhasedSlots(trb[n % SLOTS := SetCycleState(src, Phase(n / SLOTS))], base, n + 1)
  {
    SetCycleFacts(src, Phase(n / SLOTS));
    NextSlot(n);
    hide SetCycleState, CycleState, ToggleCycle, TrbType;
  }

  lemma NextSlot(n: nat)
    ensures n % SLOTS == SLOTS - 1 ==> (n + 1) % SLOTS == 0 && (n + 1) / SLOTS == n / SLOTS + 1
    ensures n % SLOTS < SLOTS - 1 ==> (n + 1) % SLOTS == n % SLOTS + 1 && (n + 1) / SLOTS == n / SLOTS
  {
  }

  /** Every push succeeds, returns the address of slot n mod 15, fills that slot with the TRB
      carrying the round's phase, and changes no other slot. */
  lemma PushPhased(d: Driver, base: nat, n: nat, src: Trb)
    requires Phased(d, base, n) && TrbType(src) != LINK
    ensures IsRing(d) && Pushed(d, base, src).Ok?
    ensures var (d', ptr) := Pushed(d, base, src).value;
            && ptr == base + 16 * (n % SLOTS)
            && Phased(d', base, n + 1)
            && d'.trb[n % SLOTS] == SetCycleState(src, Phase(n / SLOTS))
            && (forall j :: 0 <= j < SLOTS && j != n % SLOTS ==> d'.trb[j] == d.trb[j])
  {
    PushPublishes(d, base, n, src);
    PublishedSlot(d.trb, base, n, src);
    var trb := d.trb[n % SLOTS := SetCycleState(src, Phase(n / SLOTS))];
    if n % SLOTS == SLOTS - 1 {
      PassLink(trb, base, n + 1, d.ours);
    }
  }

  /** The second half of a push that filled slot 14: the Link is published too. */
  lemma PassLink(trb: seq<Trb>, base: nat, n: nat, ours: bool)
    requires PhasedSlots(trb, base, n) && n % SLOTS == 0 && ours == Phase(n / SLOTS) && CycleState(trb[SLOTS]) == ours
    ensures Advanced(Driver(trb, SLOTS, ours), !ours)
         == Ok(Driver(trb[SLOTS := SetCycleState(trb[SLOTS], !ours)], 0, ours))
    ensures Phased(Driver(trb[SLOTS := SetCycleState(trb[SLOTS], !ours)], 0, !ours), base, n)
  {
    SetCycleFacts(trb[SLOTS], !ours);
  }

  /** The first half of a push: store with the stale cycle bit, then flip it. */
  lemma PushPublishes(d: Driver, base: nat, n: nat, src: Trb)
    requires Phased(d, base, n) && TrbType(src) != LINK
    ensures Advanced(d.(trb := d.trb[d.index := SetCycleState(src, d.ours)]), !d.ours)
         == Ok(Driver(d.trb[d.index := SetCycleState(src, !d.ours)], d.index + 1, d.ours))
  {
    SetCycleFacts(src, d.ours);
    SetCycleFacts(src, !d.ours);
    var written := d.trb[d.index := SetCycleState(src, d.ours)];
    assert written[d.index := SetCycleState(src, !d.ours)] == d.trb[d.index := SetCycleState(src, !d.ours)];
  }

  /** A run of pushes: the final ring and the addresses returned. */
  function PushAll(d: Driver, base: nat, srcs: seq<Trb>): (r: Result<(Driver, seq<nat>)>)
    requires IsRing(d)
    ensures r.Ok? ==> IsRing(r.value.0)
  {
    if srcs == [] then Ok((d, []))
    else
      var prev := PushAll(d, base, srcs[..|srcs| - 1]);
      if prev.Err? then prev
      else
        var last := Pushed(prev.value.0, base, srcs[|srcs| - 1]);
        if last.Err? then Err(last.error)
        else Ok((last.value.0, prev.value.1 + [last.value.1]))
  }

  /** Over every run of pushes from a fresh ring the full check never fires and the k-th
      address is base + 16 * (k mod 15). */
  lemma {:induction false} EveryPushSucceeds(base: nat, srcs: seq<Trb>)
    requires forall k :: 0 <= k < |srcs| ==> TrbType(srcs[k]) != LINK
    ensures PushAll(Default(base), base, srcs).Ok?
    ensures var (d, ptrs) := PushAll(Default(base), base, srcs).value;
            && Phased(d, base, |srcs|)
            && |ptrs| == |srcs|
            && (forall k :: 0 <= k < |ptrs| ==> ptrs[k] == base + 16 * (k % SLOTS))
    decreases |srcs|
  {
    hide Phased, Pushed, PushAll, Default, TrbType;
    if srcs == [] {
      DefaultPhased(base);
      NoneOfAll(Default(base), base);
    } else {
      var n := |srcs| - 1;
      EveryPushSucceeds(base, srcs[..n]);
      PushPhased(PushAll(Default(base), base, srcs[..n]).value.0, base, n, srcs[n]);
      LastOfAll(Default(base), base, srcs);
    }
  }

  lemma NoneOfAll(d: Driver, base: nat)
    requires IsRing(d)
    ensures PushAll(d, base, []) == Ok((d, []))
  {
  }

  lemma LastOfAll(d: Driver, base: nat, srcs: seq<Trb>)
    requires IsRing(d) && srcs != [] && PushAll(d, base, srcs[..|srcs| - 1]).Ok?
    requires Pushed(PushAll(d, base, srcs[..|srcs| - 1]).value.0, base, srcs[|srcs| - 1]).Ok?
    ensures var (d', ptrs) := PushAll(d, base, srcs[..|srcs| - 1]).value;
            var (d'', ptr) := Pushed(d', base, srcs[|srcs| - 1]).value;
            PushAll(d, base, srcs) == Ok((d'', ptrs + [ptr]))
  {
    hide Pushed;
  }

  // ----- the protocol with the controller -----

  /** Where the driver is inside `push`.  The TRB is stored word by word, in any order. */
  datatype Writer =
    | Idle
    | Writing(src: Trb, data: bool, option: bool, control: bool)
    | AtLink

  /** Shared ring memory, the driver's registers, and the controller's dequeue slot and
      consumer cycle state; the two logs are what was published and what was consumed. */
  datatype State = State(d: Driver, w: Writer, at: nat, ccs: bool, pushed: seq<Trb>, consumed: seq<Trb>)

  datatype Step = Begin(src: Trb) | StoreData | StoreOption | StoreControl | Publish | FlipLink | Consume

  function Init(base: nat): (s: State)
  {
    State(Default(base), Idle, 0, true, [], [])
  }

  predicate Wf(s: State) { IsRing(s.d) && s.at < NUM_TRB }

  /** When a step may happen.  `limit` bounds the TRBs pushed and not yet consumed; the driver
      itself checks only the cycle bit. */
  predicate Enabled(s: State, base: nat, limit: nat, step: Step)
    requires Wf(s)
  {
    match step
    case Begin(src) =>
      s.w.Idle? && TrbType(src) != LINK && |s.pushed| < |s.consumed| + limit
      && CycleState(s.d.trb[s.d.index]) == s.d.ours
    case StoreData => s.w.Writing? && !s.w.data
    case StoreOption => s.w.Writing? && !s.w.option
    case StoreControl => s.w.Writing? && !s.w.control
    case Publish => s.w.Writing? && s.w.data && s.w.option && s.w.control && Advanced(s.d, !s.d.ours).Ok?
    case FlipLink => s.w.AtLink? && Advanced(s.d, !s.d.ours).Ok?
    case Consume =>
      var t := s.d.trb[s.at];
      CycleState(t) == s.ccs && (TrbType(t) == LINK ==> base <= t.data < base + 16 * NUM_TRB)
      && (TrbType(t) != LINK ==> s.at + 1 < NUM_TRB)
  }

  function Apply(s: State, base: nat, limit: nat, step: Step): (s': State)
    requires Wf(s) && Enabled(s, base, limit, step)
    ensures Wf(s')
  {
    var t := s.d.trb[s.d.index];
    match step
    case Begin(src) => s.(w := Writing(SetCycleState(src, s.d.ours), false, false, false))
    case StoreData =>
      s.(d := s.d.(trb := s.d.trb[s.d.index := t.(data := s.w.src.data)]), w := s.w.(data := true))
    case StoreOption =>
      s.(d := s.d.(trb := s.d.trb[s.d.index := t.(option := s.w.src.option)]), w := s.w.(option := true))
    case StoreControl =>
      s.(d := s.d.(trb := s.d.trb[s.d.index := t.(control := s.w.src.control)]), w := s.w.(control := true))
    case Publish =>
      var d := Advanced(s.d, !s.d.ours).value;
      s.(d := d, pushed := s.pushed + [s.w.src], w := if TrbType(d.trb[d.index]) == LINK then AtLink else Idle)
    case FlipLink =>
      s.(d := Advanced(s.d, !s.d.ours).value.(ours := !s.d.ours), w := Idle)
    case Consume =>
      var c := s.d.trb[s.at];
      if TrbType(c) == LINK then s.(at := (c.data - base) / 16, ccs := s.ccs != ToggleCycle(c))
      else s.(at := s.at + 1, consumed := s.consumed + [c])
  }

  /** Any interleaving: a step that is not enabled when its turn comes is skipped. */
  function Run(s: State, base: nat, limit: nat, steps: seq<Step>): (s': State)
    requires Wf(s)
    ensures Wf(s')
    decreases |steps|
  {
    if steps == [] then s
    else
      var next := if Enabled(s, base, limit, steps[0]) then Apply(s, base, limit, steps[0]) else s;
      Run(next, base, limit, steps[1..])
  }

  // ----- the protocol invariant -----

  predicate DriverInv(s: State, base: nat)
  {
    var n := |s.pushed|;
    match s.w
    case Idle => Phased(s.d, base, n)
    case Writing(src, data, option, control) =>
      && Phased(s.d, base, n)
      && CycleState(src) == s.d.ours && TrbType(src) != LINK
      && (data ==> s.d.trb[s.d.index].data == src.data)
      && (option ==> s.d.trb[s.d.index].option == src.option)
      && (control ==> s.d.trb[s.d.index].control == src.control)
    case AtLink =>
      && PhasedSlots(s.d.trb, base, n)
      && n > 0 && n % SLOTS == 0 && s.d.index == SLOTS
      && s.d.ours == Phase(n / SLOTS)
      && CycleState(s.d.trb[SLOTS]) == s.d.ours
  }

  /** The controller after m TRBs: at slot m mod 15 in its round, or still before the Link. */
  predicate ConsumerInv(s: State)
  {
    var m := |s.consumed|;
    || (s.at == m % SLOTS && s.ccs == Phase(m / SLOTS))
    || (s.at == SLOTS && m > 0 && m % SLOTS == 0 && s.ccs == !Phase(m / SLOTS))
  }

  /** TRB k as the controller is meant to see it. */
  function Published(pushed: seq<Trb>, k: nat): (t: Trb)
    requires k < |pushed|
  {
    SetCycleState(pushed[k], Phase(k / SLOTS))
  }

  /** The TRBs pushed and not among the first m consumed are whole in their slots. */
  predicate Pending(trb: seq<Trb>, pushed: seq<Trb>, m: nat)
  {
    |trb| == NUM_TRB && forall k :: m <= k < |pushed| ==> trb[k % SLOTS] == Published(pushed, k)
  }

  /** The controller's reads are, one by one and in order, the published TRBs. */
  predicate FifoSoFar(s: State)
  {
    && |s.consumed| <= |s.pushed|
    && forall k :: 0 <= k < |s.consumed| ==> s.consumed[k] == Published(s.pushed, k)
  }

  predicate Inv(s: State, base: nat, limit: nat)
  {
    && Wf(s) && DriverInv(s, base) && ConsumerInv(s)
    && |s.consumed| <= |s.pushed|
    && |s.pushed| + (if s.w.Writing? then 1 else 0) <= |s.consumed| + limit
    && Pending(s.d.trb, s.pushed, |s.consumed|)
    && FifoSoFar(s)
  }

  lemma InitInv(base: nat, limit: nat)
    ensures Inv(Init(base), base, limit)
  {
    DefaultPhased(base);
  }

  lemma StoreKeepsInv(s: State, base: nat, limit: nat, step: Step)
    requires limit <= SLOTS && Inv(s, base, limit) && Enabled(s, base, limit, step)
    requires step.StoreData? || step.StoreOption? || step.StoreControl?
    ensures Inv(Apply(s, base, limit, step), base, limit)
  {
    var s' := Apply(s, base, limit, step);
    var t, t' := s.d.trb[s.d.index], s'.d.trb[s.d.index];
    if step.StoreControl? {
      UpperFields(t', s.w.src);
    } else {
      UpperFields(t', t);
    }
    StaleStore(s.d, base, s.pushed, |s.consumed|, t');
  }

  /** Overwriting the slot about to be pushed with an unpublished TRB disturbs nothing. */
  lemma StaleStore(d: Driver, base: nat, pushed: seq<Trb>, m: nat, t: Trb)
    requires Phased(d, base, |pushed|) && Pending(d.trb, pushed, m) && |pushed| < m + SLOTS
    requires CycleState(t) == d.ours && TrbType(t) != LINK
    ensures Phased(d.(trb := d.trb[d.index := t]), base, |pushed|)
    ensures Pending(d.trb[d.index := t], pushed, m)
  {
    assert forall k :: m <= k < |pushed| ==> k % SLOTS != d.index;
  }

  /** Publishing writes the finished TRB's cycle bit, nothing else. */
  lemma PublishStores(s: State, base: nat, limit: nat)
    requires Wf(s) && DriverInv(s, base) && Enabled(s, base, limit, Publish)
    ensures var n := |s.pushed|;
            Apply(s, base, limit, Publish).d.trb == s.d.trb[n % SLOTS := SetCycleState(s.w.src, Phase(n / SLOTS))]
    ensures DriverInv(Apply(s, base, limit, Publish), base)
  {
    var n, src := |s.pushed|, s.w.src;
    assert s.d.trb[s.d.index] == src;
    var trb := s.d.trb[n % SLOTS := SetCycleState(src, Phase(n / SLOTS))];
    assert Advanced(s.d, !s.d.ours) == Ok(Driver(trb, s.d.index + 1, s.d.ours));
    PublishedSlot(s.d.trb, base, n, src);
    if n % SLOTS < SLOTS - 1 {
      assert (n + 1) % SLOTS == n % SLOTS + 1 && (n + 1) / SLOTS == n / SLOTS;
    } else {
      assert (n + 1) % SLOTS == 0 && (n + 1) / SLOTS == n / SLOTS + 1;
    }
  }

  lemma PublishKeepsInv(s: State, base: nat, limit: nat)
    requires limit <= SLOTS && Inv(s, base, limit) && Enabled(s, base, limit, Publish)
    ensures Inv(Apply(s, base, limit, Publish), base, limit)
  {
    PublishStores(s, base, limit);
    PublishAppends(s.d.trb, s.pushed, |s.consumed|, s.w.src);
  }

  lemma PublishAppends(trb: seq<Trb>, pushed: seq<Trb>, m: nat, src: Trb)
    requires Pending(trb, pushed, m) && |pushed| < m + SLOTS
    ensures Pending(trb[|pushed| % SLOTS := SetCycleState(src, Phase(|pushed| / SLOTS))], pushed + [src], m)
  {
    assert forall k :: m <= k < |pushed| ==> k % SLOTS != |pushed| % SLOTS;
  }

  lemma FlipLinkKeepsInv(s: State, base: nat, limit: nat)
    requires limit <= SLOTS && Inv(s, base, limit) && Enabled(s, base, limit, FlipLink)
    ensures Inv(Apply(s, base, limit, FlipLink), base, limit)
  {
    SetCycleFacts(s.d.trb[SLOTS], !s.d.ours);
    var s' := Apply(s, base, limit, FlipLink);
    assert forall j :: 0 <= j < SLOTS ==> s'.d.trb[j] == s.d.trb[j];
  }

  /** What the controller finds at its slot: a TRB exactly when one is unread. */
  lemma SlotOwned(s: State, base: nat, limit: nat)
    requires limit <= SLOTS && Inv(s, base, limit) && s.at < SLOTS
    ensures Enabled(s, base, limit, Consume) <==> |s.consumed| < |s.pushed|
    ensures |s.consumed| < |s.pushed| ==> s.d.trb[s.at] == Published(s.pushed, |s.consumed|)
  {
    var n, m := |s.pushed|, |s.consumed|;
    if m < n {
      SetCycleFacts(s.pushed[m], Phase(m / SLOTS));
    }
  }

  /** Reading slot `at` appends exactly the next published TRB and moves one slot on. */
  lemma ConsumeSlot(s: State, base: nat, limit: nat)
    requires limit <= SLOTS && Inv(s, base, limit) && Enabled(s, base, limit, Consume) && s.at < SLOTS
    ensures var m := |s.consumed|;
            && m < |s.pushed|
            && Apply(s, base, limit, Consume) == s.(at := s.at + 1, consumed := s.consumed + [Published(s.pushed, m)])
            && ConsumerInv(Apply(s, base, limit, Consume))
  {
    SlotOwned(s, base, limit);
    hide Phase, CycleState, SetCycleState, TrbType, DriverInv, Pending;
    NextRound(|s.consumed|);
    assert TrbType(s.d.trb[s.at]) != LINK by { PlainSlot(s, base); }
  }

  /** The controller's count one on: the next slot, or the Link after the last of a round. */
  lemma NextRound(m: nat)
    ensures m % SLOTS < SLOTS - 1 ==> (m + 1) % SLOTS == m % SLOTS + 1 && Phase((m + 1) / SLOTS) == Phase(m / SLOTS)
    ensures m % SLOTS == SLOTS - 1 ==> (m + 1) % SLOTS == 0 && Phase((m + 1) / SLOTS) == !Phase(m / SLOTS)
  {
  }

  lemma PlainSlot(s: State, base: nat)
    requires Wf(s) && DriverInv(s, base) && s.at < SLOTS
    ensures TrbType(s.d.trb[s.at]) != LINK
  {
  }

  /** At the Link the controller wraps to slot 0 and toggles its cycle state. */
  lemma ConsumeLink(s: State, base: nat, limit: nat)
    requires limit <= SLOTS && Inv(s, base, limit) && Enabled(s, base, limit, Consume) && s.at == SLOTS
    ensures Apply(s, base, limit, Consume) == s.(at := 0, ccs := !s.ccs)
    ensures ConsumerInv(Apply(s, base, limit, Consume))
  {
  }

  lemma ConsumeKeepsInv(s: State, base: nat, limit: nat)
    requires limit <= SLOTS && Inv(s, base, limit) && Enabled(s, base, limit, Consume)
    ensures Inv(Apply(s, base, limit, Consume), base, limit)
  {
    if s.at < SLOTS {
      ConsumeSlot(s, base, limit);
    } else {
      ConsumeLink(s, base, limit);
    }
  }

  lemma StepKeepsInv(s: State, base: nat, limit: nat, step: Step)
    requires limit <= SLOTS && Inv(s, base, limit) && Enabled(s, base, limit, step)
    ensures Inv(Apply(s, base, limit, step), base, limit)
  {
    match step
    case Begin(src) => SetCycleFacts(src, s.d.ours);
    case Publish => PublishKeepsInv(s, base, limit);
    case FlipLink => FlipLinkKeepsInv(s, base, limit);
    case Consume => ConsumeKeepsInv(s, base, limit);
    case _ => StoreKeepsInv(s, base, limit, step);
  }

  lemma {:induction false} RunKeepsInv(s: State, base: nat, limit: nat, steps: seq<Step>)
    requires limit <= SLOTS && Inv(s, base, limit)
    ensures Inv(Run(s, base, limit, steps), base, limit)
    decreases |steps|
  {
    if steps != [] {
      if Enabled(s, base, limit, steps[0]) {
        StepKeepsInv(s, base, limit, steps[0]);
        RunKeepsInv(Apply(s, base, limit, steps[0]), base, limit, steps[1..]);
      } else {
        RunKeepsInv(s, base, limit, steps[1..]);
      }
    }
  }

  /** FIFO: in every interleaving with at most 15 TRBs outstanding the controller reads a
      prefix of the pushed TRBs, in order, each whole. */
  lemma EveryRunIsFifo(base: nat, limit: nat, steps: seq<Step>)
    requires limit <= SLOTS
    ensures FifoSoFar(Run(Init(base), base, limit, steps))
  {
    InitInv(base, limit);
    RunKeepsInv(Init(base), base, limit, steps);
  }

  // ----- when everything pushed is also read -----

  /** The controller alone, offered k turns. */
  function Drain(s: State, base: nat, k: nat): (s': State)
    requires Wf(s)
    ensures Wf(s')
    decreases k
  {
    if k == 0 || !Enabled(s, base, 0, Consume) then s
    else Drain(Apply(s, base, 0, Consume), base, k - 1)
  }

  /** Fifteen TRBs wait and the controller has not passed the Link of the previous round: the
      driver has flipped the Link twice, so it looks unpublished again. */
  predicate BehindLink(s: State)
  {
    |s.pushed| == |s.consumed| + SLOTS && s.at == SLOTS
  }

  /** At the Link: passable exactly when not behind a second flip. */
  lemma LinkOwned(s: State, base: nat, limit: nat)
    requires limit <= SLOTS && Inv(s, base, limit) && s.w.Idle? && s.at == SLOTS
    ensures Enabled(s, base, limit, Consume) <==> !BehindLink(s)
  {
    var n, m := |s.pushed|, |s.consumed|;
    if n == m + SLOTS {
      assert n / SLOTS == m / SLOTS + 1;
    } else {
      assert n / SLOTS == m / SLOTS;
    }
  }

  lemma {:induction false} DrainsFrom(s: State, base: nat, limit: nat)
    requires limit <= SLOTS && Inv(s, base, limit) && s.w.Idle? && !BehindLink(s)
    ensures exists k: nat :: Drained(s, base, k)
    decreases |s.pushed| - |s.consumed|, s.at
  {
    if |s.consumed| == |s.pushed| {
      assert Drained(s, base, 0);
    } else {
      if s.at < SLOTS { SlotOwned(s, base, limit); } else { LinkOwned(s, base, limit); }
      assert Enabled(s, base, limit, Consume) && Enabled(s, base, 0, Consume);
      ConsumeKeepsInv(s, base, limit);
      if s.at < SLOTS { ConsumeSlot(s, base, limit); } else { ConsumeLink(s, base, limit); }
      var s' := Apply(s, base, limit, Consume);
      assert Apply(s, base, 0, Consume) == s';
      DrainsFrom(s', base, limit);
      var k: nat :| Drained(s', base, k);
      assert Drained(s, base, k + 1);
    }
  }

  predicate Drained(s: State, base: nat, k: nat)
    requires Wf(s)
  {
    |Drain(s, base, k).consumed| == |s.pushed|
  }

  /** Completeness, exactly: with the driver idle, the controller running alone reads every
      pushed TRB if and only if it is not behind a twice-flipped Link. */
  lemma DrainsIffNotBehindLink(s: State, base: nat, limit: nat)
    requires limit <= SLOTS && Inv(s, base, limit) && s.w.Idle?
    ensures (exists k: nat :: Drained(s, base, k)) <==> !BehindLink(s)
  {
    if BehindLink(s) {
      LinkOwned(s, base, limit);
      assert forall k: nat :: Drain(s, base, k) == s;
    } else {
      DrainsFrom(s, base, limit);
    }
  }

  /** With at most 14 outstanding nothing is ever stuck: in every interleaving, whenever the
      driver is idle, the controller can read all that was pushed. */
  lemma FourteenOutstandingDrains(base: nat, limit: nat, steps: seq<Step>)
    requires limit < SLOTS
    ensures var s := Run(Init(base), base, limit, steps);
            s.w.Idle? ==> exists k: nat :: Drained(s, base, k)
  {
    InitInv(base, limit);
    RunKeepsInv(Init(base), base, limit, steps);
    var s := Run(Init(base), base, limit, steps);
    if s.w.Idle? {
      DrainsIffNotBehindLink(s, base, limit);
    }
  }

  /** One push more than the ring can hold always goes through, and leaves the controller
      unable to read anything: the slot (or Link) it waits at no longer looks published. */
  lemma SixteenthPushStalls(s: State, base: nat, src: Trb)
    requires Inv(s, base, SLOTS) && s.w.Idle? && |s.pushed| == |s.consumed| + SLOTS && TrbType(src) != LINK
    ensures Pushed(s.d, base, src).Ok?
    ensures var s' := s.(d := Pushed(s.d, base, src).value.0, pushed := s.pushed + [src]);
            |s'.consumed| < |s'.pushed| && !Enabled(s', base, SLOTS, Consume)
  {
    hide Pending, FifoSoFar;
    var n, m := |s.pushed|, |s.consumed|;
    PushPhased(s.d, base, n, src);
    SetCycleFacts(src, Phase(n / SLOTS));
    hide Pushed, SetCycleState, CycleState, TrbType, ToggleCycle, Advanced;
    assert n / SLOTS == m / SLOTS + 1 && n % SLOTS == m % SLOTS;
    NextSlot(n);
  }

  function PushSteps(src: Trb): (steps: seq<Step>)
  {
    [Begin(src), StoreData, StoreOption, StoreControl, Publish, FlipLink]
  }

  /** The three stores leave the whole TRB in the slot, still unpublished. */
  lemma ThreeStores(s: State, base: nat, limit: nat, src: Trb)
    requires Wf(s) && Enabled(s, base, limit, Begin(src))
    ensures Run(s, base, limit, [Begin(src), StoreData, StoreOption, StoreControl])
         == s.(d := s.d.(trb := s.d.trb[s.d.index := SetCycleState(src, s.d.ours)]),
               w := Writing(SetCycleState(src, s.d.ours), true, true, true))
  {
    var t := SetCycleState(src, s.d.ours);
    var i := s.d.index;
    var s1 := Apply(s, base, limit, Begin(src));
    var s2 := Apply(s1, base, limit, StoreData);
    var s3 := Apply(s2, base, limit, StoreOption);
    var s4 := Apply(s3, base, limit, StoreControl);
    assert s4.d.trb == s.d.trb[i := t];
    var steps := [Begin(src), StoreData, StoreOption, StoreControl];
    assert steps[1..] == [StoreData, StoreOption, StoreControl];
    assert steps[1..][1..] == [StoreOption, StoreControl];
    assert steps[1..][1..][1..] == [StoreControl];
    assert steps[1..][1..][1..][1..] == [];
    assert Run(s4, base, limit, []) == s4;
    assert Run(s3, base, limit, [StoreControl]) == s4;
    assert Run(s2, base, limit, [StoreOption, StoreControl]) == s4;
    assert Run(s1, base, limit, [StoreData, StoreOption, StoreControl]) == s4;
  }

  /** The driver's six sub-steps, run to completion, are one call of `push`. */
  lemma PushIsSixSteps(s: State, base: nat, limit: nat, src: Trb)
    requires Inv(s, base, limit) && limit <= SLOTS && s.w.Idle? && |s.pushed| < |s.consumed| + limit
    requires TrbType(src) != LINK
    ensures Pushed(s.d, base, src).Ok?
    ensures Run(s, base, limit, PushSteps(src))
         == s.(d := Pushed(s.d, base, src).value.0, pushed := s.pushed + [SetCycleState(src, s.d.ours)])
  {
    hide Phased, CycleState, SetCycleState, TrbType, Pending, FifoSoFar, ConsumerInv;
    ReadyToPush(s.d, base, |s.pushed|);
    PushPhased(s.d, base, |s.pushed|, src);
    ThreeStores(s, base, limit, src);
    var stores, rest := [Begin(src), StoreData, StoreOption, StoreControl], [Publish, FlipLink];
    assert PushSteps(src) == stores + rest;
    RunAppend(s, base, limit, stores, rest);
    var s4 := Run(s, base, limit, stores);
    assert rest[1..] == [FlipLink] && rest[1..][1..] == [];
    PushPublishes(s.d, base, |s.pushed|, src);
    assert Enabled(s4, base, limit, Publish);
  }

  lemma {:induction false} RunAppend(s: State, base: nat, limit: nat, a: seq<Step>, b: seq<Step>)
    requires Wf(s)
    ensures Run(s, base, limit, a + b) == Run(Run(s, base, limit, a), base, limit, b)
    decreases |a|
  {
    if a == [] {
      assert a + b == b;
    } else {
      var next := if Enabled(s, base, limit, a[0]) then Apply(s, base, limit, a[0]) else s;
      assert (a + b)[1..] == a[1..] + b;
      RunAppend(next, base, limit, a[1..], b);
    }
  }

  /** k complete pushes of one TRB. */
  function Fill(src: Trb, k: nat): (steps: seq<Step>)
  {
    if k == 0 then [] else PushSteps(src) + Fill(src, k - 1)
  }

  predicate Room(s: State, base: nat, k: nat)
  {
    Inv(s, base, SLOTS) && s.w.Idle? && |s.pushed| + k <= |s.consumed| + SLOTS
  }

  predicate Filled(s: State, s': State, k: nat)
  {
    s'.w.Idle? && |s'.pushed| == |s.pushed| + k && s'.consumed == s.consumed && s'.at == s.at
  }

  lemma {:induction false} FillRun(s: State, base: nat, src: Trb, k: nat)
    requires Room(s, base, k) && TrbType(src) != LINK
    ensures Filled(s, Run(s, base, SLOTS, Fill(src, k)), k) && Room(Run(s, base, SLOTS, Fill(src, k)), base, 0)
    decreases k
  {
    hide DriverInv, ConsumerInv, Pending, FifoSoFar, Enabled, Apply, PushSteps;
    if k > 0 {
      var s1 := FillOne(s, base, src, k);
      RunAppend(s, base, SLOTS, PushSteps(src), Fill(src, k - 1));
      FillRun(s1, base, src, k - 1);
    }
  }

  lemma FillOne(s: State, base: nat, src: Trb, k: nat) returns (s': State)
    requires k > 0 && Room(s, base, k) && TrbType(src) != LINK
    ensures s' == Run(s, base, SLOTS, PushSteps(src)) && Room(s', base, k - 1) && Filled(s, s', 1)
  {
    PushIsSixSteps(s, base, SLOTS, src);
    RunKeepsInv(s, base, SLOTS, PushSteps(src));
    s' := Run(s, base, SLOTS, PushSteps(src));
  }

  function Reads(k: nat): (steps: seq<Step>)
  {
    if k == 0 then [] else [Consume] + Reads(k - 1)
  }

  lemma {:induction false} ReadRun(s: State, base: nat, k: nat)
    requires Inv(s, base, SLOTS) && s.w.Idle? && |s.consumed| + k <= |s.pushed| && s.at + k <= SLOTS
    ensures var s' := Run(s, base, SLOTS, Reads(k));
            && Inv(s', base, SLOTS) && s'.w.Idle?
            && s'.pushed == s.pushed && |s'.consumed| == |s.consumed| + k && s'.at == s.at + k
    decreases k
  {
    hide DriverInv, ConsumerInv, Pending, FifoSoFar, Enabled, Apply;
    if k > 0 {
      SlotOwned(s, base, SLOTS);
      ConsumeKeepsInv(s, base, SLOTS);
      ConsumeSlot(s, base, SLOTS);
      assert Reads(k)[1..] == Reads(k - 1);
      ReadRun(Apply(s, base, SLOTS, Consume), base, k - 1);
    }
  }

  /** The stuck state is reachable with 15 outstanding: fill the ring, let the controller read
      the 15 TRBs but not the Link, and fill it again. */
  lemma BehindLinkReachable(base: nat, src: Trb)
    requires TrbType(src) != LINK
    ensures BehindLink(Run(Init(base), base, SLOTS, Fill(src, SLOTS) + Reads(SLOTS) + Fill(src, SLOTS)))
  {
    hide Run, Fill, Reads, Apply, Enabled;
    InitInv(base, SLOTS);
    var k := SLOTS;
    var s0 := Init(base);
    FillRun(s0, base, src, k);
    var s1 := Run(s0, base, SLOTS, Fill(src, k));
    ReadRun(s1, base, k);
    var s2 := Run(s1, base, SLOTS, Reads(k));
    FillRun(s2, base, src, k);
    RunAppend(s0, base, SLOTS, Fill(src, k), Reads(k));
    RunAppend(s0, base, SLOTS, Fill(src, k) + Reads(k), Fill(src, k));
  }

  // ----- the driver's object -----

  /** `CommandRing` with the `TrbRing` it owns; `n` counts the pushes of its life. */
  class CommandRing {
    const base: nat
    const trb: array<Trb>
    var currentIndex: nat
    var cycleStateOurs: bool
    ghost var n: nat

    ghost function View(): (d: Driver)
      reads this, trb
    {
      Driver(trb[..], currentIndex, cycleStateOurs)
    }

    ghost predicate Valid()
      reads this, trb
    {
      Phased(View(), base, n)
    }

    constructor (base: nat)
      ensures Valid() && this.base == base && n == 0 && fresh(trb)
      ensures View() == Default(base) && trb.Length == 16 && trb[15] == Trb(base, 0, 0x1802)
    {
      this.base := base;
      trb := new Trb[NUM_TRB](_ => Trb(0, 0, 0));
      currentIndex, cycleStateOurs, n := 0, false, 0;
      new;
      trb[NUM_TRB - 1] := LinkTrb(base);
      assert trb[..] == Default(base).trb;
      DefaultPhased(base);
    }

    method AdvanceIndex(newCycle: bool) returns (ok: bool)
      requires IsRing(View())
      modifies this`currentIndex, trb
      ensures ok == Advanced(old(View()), newCycle).Ok?
      ensures View() == if ok then Advanced(old(View()), newCycle).value else old(View())
    {
      if CycleState(trb[currentIndex]) == newCycle {
        return false;
      }
      trb[currentIndex] := SetCycleState(trb[currentIndex], newCycle);
      currentIndex := (currentIndex + 1) % trb.Length;
      return true;
    }

    method Push(src: Trb) returns (r: Result<nat>)
      requires Valid() && TrbType(src) != LINK
      modifies this, trb
      ensures Valid() && n == old(n) + 1
      ensures r == Ok(base + 16 * (old(n) % SLOTS))
      ensures Pushed(old(View()), base, src) == Ok((View(), r.value))
    {
      hide Phased, CycleState, SetCycleState, TrbType;
      PushPhased(View(), base, n, src);
      if CycleState(trb[currentIndex]) != cycleStateOurs {
        return Err("Command Ring is Full");
      }
      var dst := base + 16 * currentIndex;
      trb[currentIndex] := SetCycleState(src, cycleStateOurs);
      assert View() == old(View()).(trb := old(View()).trb[currentIndex := SetCycleState(src, cycleStateOurs)]);
      var ok := AdvanceIndex(!cycleStateOurs);
      if !ok {
        return Err("cycle state does not change");
      }
      if TrbType(trb[currentIndex]) == LINK {
        ok := AdvanceIndex(!cycleStateOurs);
        if !ok {
          return Err("cycle state does not change");
        }
        cycleStateOurs := !cycleStateOurs;
      }
      n := n + 1;
      return Ok(dst);
    }
  }
}
