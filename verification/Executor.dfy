/** The cooperative executor (executor.rs): a deque of tasks polled round robin, with tasks
    spawned before the loop starts and in the middle of polls. */
module Executor {
  import opened Results

  /** A task's identity, in order of creation. */
  type Task = nat

  /** The deque, the next identity, and the history: tasks completed and polls made. */
  datatype State = State(queue: seq<Task>, next: nat, done: seq<Task>, log: seq<Task>)

  /** A spawn from outside any poll, or one turn of the loop: the poll's outcome, and how many
      tasks it spawned before returning. */
  datatype Event = Spawn | Turn(ready: bool, spawns: nat)

  /** n newly created tasks. */
  function Fresh(next: nat, n: nat): (ts: seq<Task>)
    ensures |ts| == n && forall i :: 0 <= i < n ==> ts[i] == next + i
  {
    seq(n, i => next + i)
  }

  function Spawned(s: State, n: nat): (s': State)
  {
    s.(queue := s.queue + Fresh(s.next, n), next := s.next + n)
  }

  /** One event.  A turn pops the front, polls it, and pushes it back unless it is ready; what
      the poll spawned is already in the deque then. */
  function Step(s: State, e: Event): (s': State)
  {
    match e
    case Spawn => Spawned(s, 1)
    case Turn(ready, spawns) =>
      if s.queue == [] then s
      else
        var t := s.queue[0];
        var polled := Spawned(s.(queue := s.queue[1..], log := s.log + [t]), spawns);
        if ready then polled.(done := polled.done + [t]) else polled.(queue := polled.queue + [t])
  }

  function Run(s: State, es: seq<Event>): (s': State)
    decreases |es|
  {
    if es == [] then s else Run(Step(s, es[0]), es[1..])
  }

  const START: State := State([], 0, [], [])

  // ----- no task is lost, duplicated or polled after completion -----

  /** Every task created is exactly once either waiting or completed. */
  ghost predicate Inv(s: State)
  {
    && Distinct(s.queue + s.done)
    && forall t: Task :: t < s.next <==> t in s.queue || t in s.done
  }

  lemma SpawnKeepsInv(s: State, n: nat)
    requires Inv(s)
    ensures Inv(Spawned(s, n))
  {
    var s' := Spawned(s, n);
    var all, all' := s.queue + s.done, s'.queue + s'.done;
    var q := |s.queue|;
    assert forall k :: 0 <= k < |all'| ==>
             all'[k] == if k < q then all[k] else if k < q + n then s.next + (k - q) else all[k - n];
    forall k | 0 <= k < |all|
      ensures all[k] < s.next
    {
      if k < q {
        assert all[k] == s.queue[k] && s.queue[k] in s.queue;
      } else {
        assert all[k] == s.done[k - q] && s.done[k - q] in s.done;
      }
    }
    forall i, j | 0 <= i < j < |all'|
      ensures all'[i] != all'[j]
    {
      var i', j' := if i < q then i else i - n, if j < q then j else j - n;
      if q <= i < q + n {
        assert all'[i] == s.next + (i - q);
        assert q <= j < q + n || all[j'] < s.next;
      } else if q <= j < q + n {
        assert all'[j] == s.next + (j - q) && all[i'] < s.next;
      } else {
        assert all[i'] != all[j'];
      }
    }
    var fresh' := Fresh(s.next, n);
    forall t: Task
      ensures t < s'.next <==> t in s'.queue || t in s'.done
    {
      if s.next <= t < s'.next {
        assert t == fresh'[t - s.next];
      }
    }
  }

  /** Moving the front of the deque to the end of everything, */
  lemma CompleteKeepsInv(s: State, t: Task, rest: seq<Task>)
    requires Inv(s) && s.queue == [t] + rest
    ensures Inv(s.(queue := rest, done := s.done + [t]))
  {
    var s' := s.(queue := rest, done := s.done + [t]);
    var tail := rest + s.done;
    assert s.queue + s.done == [t] + tail && s'.queue + s'.done == tail + [t];
    assert tail + [] == tail && tail + [t] + [] == tail + [t];
    Rotated(t, tail, []);
    MovedMembers(s, t, rest);
  }

  /** ... or to the end of the deque. */
  lemma RequeueKeepsInv(s: State, t: Task, rest: seq<Task>)
    requires Inv(s) && s.queue == [t] + rest
    ensures Inv(s.(queue := rest + [t]))
  {
    var s' := s.(queue := rest + [t]);
    assert s.queue + s.done == [t] + (rest + s.done) && s'.queue + s'.done == rest + [t] + s.done;
    Rotated(t, rest, s.done);
    MovedMembers(s, t, rest);
  }

  lemma MovedMembers(s: State, t: Task, rest: seq<Task>)
    requires s.queue == [t] + rest
    ensures forall x: Task :: x in s.queue <==> x == t || x in rest
    ensures forall x: Task :: x in rest + [t] <==> x == t || x in rest
    ensures forall x: Task :: x in s.done + [t] <==> x == t || x in s.done
  {
  }

  /** Taking an entry from the front and putting it further back keeps entries distinct. */
  lemma Rotated(t: Task, front: seq<Task>, back: seq<Task>)
    requires Distinct([t] + (front + back))
    ensures Distinct(front + [t] + back)
  {
    var all, all', n := [t] + (front + back), front + [t] + back, |front|;
    forall i, j | 0 <= i < j < |all'|
      ensures all'[i] != all'[j]
    {
      var i', j' := Before(i, n), Before(j, n);
      assert all'[i] == all[i'] && all'[j] == all[j'];
    }
  }

  /** Where entry i stood before entry 0 was moved behind the next n. */
  function Before(i: nat, n: nat): (k: nat) { if i < n then i + 1 else if i == n then 0 else i }

  lemma StepKeepsInv(s: State, e: Event)
    requires Inv(s)
    ensures Inv(Step(s, e))
  {
    match e
    case Spawn => SpawnKeepsInv(s, 1);
    case Turn(ready, spawns) =>
      if s.queue != [] {
        var t := s.queue[0];
        var s0 := s.(log := s.log + [t]);
        SpawnKeepsInv(s0, spawns);
        var s1 := Spawned(s0, spawns);
        var rest := s.queue[1..] + Fresh(s.next, spawns);
        assert s1.queue == [t] + rest;
        hide Inv;
        if ready { CompleteKeepsInv(s1, t, rest); } else { RequeueKeepsInv(s1, t, rest); }
        assert Step(s, e) == if ready then s1.(queue := rest, done := s1.done + [t]) else s1.(queue := rest + [t]);
      }
  }

  lemma {:induction false} RunKeepsInv(s: State, es: seq<Event>)
    requires Inv(s)
    ensures Inv(Run(s, es))
    decreases |es|
  {
    if es != [] {
      StepKeepsInv(s, es[0]);
      hide Inv, Step;
      RunKeepsInv(Step(s, es[0]), es[1..]);
    }
  }

  /** In every run each task created is exactly once in the deque or completed, never both. */
  lemma EveryRunKeepsTasks(es: seq<Event>)
    ensures var s := Run(START, es);
            && (forall t: Task :: t < s.next <==> t in s.queue || t in s.done)
            && Distinct(s.queue + s.done)
            && (forall t: Task :: t in s.queue ==> t !in s.done)
  {
    RunKeepsInv(START, es);
    var s := Run(START, es);
    hide Run;
    QueuedNotDone(s);
  }

  lemma QueuedNotDone(s: State)
    requires Inv(s)
    ensures forall t: Task :: t in s.queue ==> t !in s.done
  {
    var all, n := s.queue + s.done, |s.queue|;
    forall i, j | 0 <= i < n && 0 <= j < |s.done|
      ensures s.queue[i] != s.done[j]
    {
      assert all[i] == s.queue[i] && all[n + j] == s.done[j];
    }
  }

  /** Once completed, a task is never polled again. */
  lemma {:induction false} NeverPolledAfterReady(s: State, es: seq<Event>, t: Task)
    requires Inv(s) && t in s.done
    ensures t in Run(s, es).done
    ensures forall i :: |s.log| <= i < |Run(s, es).log| ==> Run(s, es).log[i] != t
    ensures |s.log| <= |Run(s, es).log| && Run(s, es).log[..|s.log|] == s.log
    decreases |es|
  {
    if es != [] {
      StepKeepsInv(s, es[0]);
      StepLog(s, es[0], t);
      var s' := Step(s, es[0]);
      hide Inv, Step;
      NeverPolledAfterReady(s', es[1..], t);
      var log := Run(s', es[1..]).log;
      assert log[..|s.log|] == log[..|s'.log|][..|s.log|];
      assert forall i :: |s.log| <= i < |s'.log| ==> log[i] == s'.log[i];
    }
  }

  lemma StepLog(s: State, e: Event, t: Task)
    requires Inv(s) && t in s.done
    ensures var s' := Step(s, e);
            && t in s'.done && s.log <= s'.log
            && forall i :: |s.log| <= i < |s'.log| ==> s'.log[i] != t
  {
    if s.queue != [] {
      var all := s.queue + s.done;
      var j :| 0 <= j < |s.done| && s.done[j] == t;
      assert all[0] == s.queue[0] && all[|s.queue| + j] == t;
    }
  }

  // ----- what a poll's outcome does -----

  /** The tasks whose poll returned ready, in order: the front of the deque at each ready turn
      that found one. */
  function ReadyTasks(s: State, es: seq<Event>): (ts: seq<Task>)
    decreases |es|
  {
    if es == [] then []
    else
      var rest := ReadyTasks(Step(s, es[0]), es[1..]);
      if es[0].Turn? && es[0].ready && s.queue != [] then [s.queue[0]] + rest else rest
  }

  /** A task whose poll returned ready is polled no more and is in no later deque. */
  lemma ReadyLeaves(s: State, spawns: nat, es: seq<Event>)
    requires Inv(s) && s.queue != []
    ensures var t, s', r := s.queue[0], Step(s, Turn(true, spawns)), Run(Step(s, Turn(true, spawns)), es);
            && s'.log == s.log + [t]
            && t !in s'.queue && t !in r.queue
            && s'.log <= r.log && forall i :: |s'.log| <= i < |r.log| ==> r.log[i] != t
  {
    var t, s' := s.queue[0], Step(s, Turn(true, spawns));
    StepKeepsInv(s, Turn(true, spawns));
    assert s'.done[|s.done|] == t;
    hide Step;
    RunKeepsInv(s', es);
    NeverPolledAfterReady(s', es, t);
    hide Run;
    QueuedNotDone(s');
    QueuedNotDone(Run(s', es));
  }

  /** The completed tasks are exactly those whose poll returned ready, in that order. */
  lemma {:induction false} DoneAreReady(s: State, es: seq<Event>)
    ensures Run(s, es).done == s.done + ReadyTasks(s, es)
    decreases |es|
  {
    if es == [] {
      assert s.done + [] == s.done;
    } else {
      DoneAreReady(Step(s, es[0]), es[1..]);
      assert ReadyTasks(s, es) == (if es[0].Turn? && es[0].ready && s.queue != [] then [s.queue[0]] else [])
                                  + ReadyTasks(Step(s, es[0]), es[1..]);
    }
  }

  /** In every run a task created is in the deque if and only if no poll of it returned ready,
      and no poll did twice. */
  lemma QueuedIffNeverReady(es: seq<Event>)
    ensures var s, ready := Run(START, es), ReadyTasks(START, es);
            && s.done == ready && Distinct(ready)
            && forall t: Task :: t < s.next ==> (t in s.queue <==> t !in ready)
  {
    DoneAreReady(START, es);
    assert [] + ReadyTasks(START, es) == ReadyTasks(START, es);
    RunKeepsInv(START, es);
    var s := Run(START, es);
    hide Run, ReadyTasks;
    QueuedNotDone(s);
    var all := s.queue + s.done;
    assert forall i :: 0 <= i < |s.done| ==> s.done[i] == all[|s.queue| + i];
  }

  /** From any state a queued task stays queued as long as each of its polls is pending. */
  lemma PendingStays(s: State, es: seq<Event>, t: Task)
    requires Inv(s) && t in s.queue
    ensures t in Run(s, es).queue <==> t !in ReadyTasks(s, es)
  {
    DoneAreReady(s, es);
    RunKeepsInv(s, es);
    NextGrows(s, es);
    hide Run, ReadyTasks;
    QueuedNotDone(s);
    QueuedNotDone(Run(s, es));
  }

  lemma {:induction false} NextGrows(s: State, es: seq<Event>)
    ensures s.next <= Run(s, es).next
    decreases |es|
  {
    if es != [] {
      NextGrows(Step(s, es[0]), es[1..]);
    }
  }

  // ----- fairness -----

  predicate IsTurns(es: seq<Event>) { forall i :: 0 <= i < |es| ==> es[i].Turn? }

  /** Whatever polls return and spawn, k turns poll exactly the first k tasks of the deque, in
      order, and leave the others at its front. */
  lemma {:induction false} TurnsPollInOrder(s: State, es: seq<Event>)
    requires IsTurns(es) && |es| <= |s.queue|
    ensures Run(s, es).log == s.log + s.queue[..|es|]
    ensures |Run(s, es).queue| >= |s.queue| - |es| && Run(s, es).queue[..|s.queue| - |es|] == s.queue[|es|..]
    decreases |es|
  {
    if es == [] {
      assert s.queue[..0] == [] && s.log + [] == s.log;
    } else {
      var s', n := Step(s, es[0]), |s.queue|;
      assert s'.queue[..n - 1] == s.queue[1..];
      var es' := es[1..];
      TurnsPollInOrder(s', es');
      assert s'.queue[..|es'|] == s.queue[1..|es|];
      assert s.log + [s.queue[0]] + s.queue[1..|es|] == s.log + s.queue[..|es|];
      var q := Run(s', es').queue;
      assert q[..n - |es|] == q[..|s'.queue| - |es'|][..n - |es|];
      assert s'.queue[|es'|..][..n - |es|] == s.queue[1..][|es'|..];
    }
  }

  /** A queued task at position k is polled after exactly k other polls. */
  lemma PositionIsWait(s: State, es: seq<Event>, k: nat)
    requires IsTurns(es) && |es| == k + 1 && k < |s.queue|
    ensures Run(s, es).log == s.log + s.queue[..k] + [s.queue[k]]
  {
    TurnsPollInOrder(s, es);
    assert s.queue[..k + 1] == s.queue[..k] + [s.queue[k]];
  }

  /** Round robin: a task that was polled and is not ready is polled again after every other
      waiting task, those it has just spawned included, has been polled exactly once. */
  lemma PolledOncePerRound(s: State, spawns: nat, es: seq<Event>)
    requires Inv(s) && s.queue != [] && IsTurns(es) && |es| == |s.queue| + spawns
    ensures var s' := Step(s, Turn(false, spawns));
            && Run(s', es).log == s'.log + s'.queue && Distinct(s'.queue)
            && s'.queue == s.queue[1..] + Fresh(s.next, spawns) + [s.queue[0]]
  {
    var s' := Step(s, Turn(false, spawns));
    StepKeepsInv(s, Turn(false, spawns));
    TurnsPollInOrder(s', es);
    assert s'.queue[..|es|] == s'.queue;
    var all := s'.queue + s'.done;
    assert forall i :: 0 <= i < |s'.queue| ==> s'.queue[i] == all[i];
  }

  // ----- the executor's object -----

  /** `GLOBAL_EXECUTOR`: absent until the first spawn; its deque is created on first use. */
  class GlobalExecutor {
    var slot: Option<Option<seq<Task>>>
    ghost var state: State

    ghost function Queue(): (q: seq<Task>)
      reads this
    {
      if slot.Some? && slot.value.Some? then slot.value.value else []
    }

    ghost predicate Valid()
      reads this
    {
      Inv(state) && Queue() == state.queue
    }

    constructor ()
      ensures Valid() && state == START
    {
      slot, state := None, START;
    }

    /** `spawn_global` of the next new task. */
    method SpawnGlobal(task: Task)
      requires Valid() && task == state.next
      modifies this
      ensures Valid() && state == Step(old(state), Spawn) && slot.Some?
      ensures Queue() == old(Queue()) + [task]
    {
      StepKeepsInv(state, Spawn);
      var queue := if slot.Some? && slot.value.Some? then slot.value.value else [];
      slot := Some(Some(queue + [task]));
      state := Step(state, Spawn);
    }

    /** One turn of `run`.  The poll is given by its outcome and the tasks it spawns, which are
        queued while the polled task is out of the deque. */
    method RunOnce(ready: bool, born: seq<Task>)
      requires Valid() && born == Fresh(state.next, |born|)
      modifies this
      ensures Valid() && state == Step(old(state), Turn(ready, |born|))
      ensures old(Queue()) == [] ==> Queue() == []
      ensures old(Queue()) != [] ==>
                Queue() == old(Queue())[1..] + born + if ready then [] else [old(Queue())[0]]
    {
      StepKeepsInv(state, Turn(ready, |born|));
      hide Inv;
      if slot.None? {
        return;
      }
      var queue := if slot.value.Some? then slot.value.value else [];
      if queue == [] {
        slot := Some(Some([]));
        return;
      }
      var task := queue[0];
      slot := Some(Some(queue[1..]));
      assert queue[1..] + born[..0] == queue[1..];
      for i := 0 to |born|
        invariant slot == Some(Some(queue[1..] + born[..i])) && state == old(state)
      {
        assert born[..i + 1] == born[..i] + [born[i]];
        assert queue[1..] + born[..i] + [born[i]] == queue[1..] + born[..i + 1];
        slot := Some(Some(slot.value.value + [born[i]]));
      }
      assert born[..|born|] == born;
      if !ready {
        slot := Some(Some(slot.value.value + [task]));
      }
      state := Step(state, Turn(ready, |born|));
    }
  }
}
