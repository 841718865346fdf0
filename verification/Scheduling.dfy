/**
 * The write scheduler (feed/scheduler.go): any number of submitters, one worker
 * that takes the most urgent item and runs it, and a watcher that closes the
 * scheduler once Close was called or the context was cancelled.
 *
 * A step is one critical section, or the end of the running item. A run is any
 * sequence of steps; nothing is assumed about their order.
 */
module Scheduling {
  import opened WorkHeap

  datatype Worker = NotStarted | Idle | Running(e: Entry) | Exited

  // `accepted` and `done` record every accepted submission and every finished
  // item, in order.
  datatype State = State(
    pending: set<Entry>,
    submitted: nat,
    closing: bool,
    closed: bool,
    worker: Worker,
    accepted: seq<Entry>,
    done: seq<Entry>)

  datatype Event =
    | Start
    | Submit(priority: nat, task: nat, ok: bool)  // ok is what Submit returns
    | Close                                       // Close, or the context is cancelled
    | Watch                                       // the watcher sets closed
    | Take(e: Entry)                              // the worker pops e
    | Finish                                      // the running item's Do returns
    | Exit                                        // the worker returns

  const PRIORITY_HIGH_THRESHOLD: nat := 2

  const INITIAL: State := State({}, 0, false, false, NotStarted, [], [])

  function NextEntry(s: State, priority: nat, task: nat): Entry {
    Entry(priority, s.submitted + 1, task)
  }

  ghost predicate Step(s: State, ev: Event, t: State) {
    match ev
    case Start => t == if s.worker.NotStarted? then s.(worker := Idle) else s
    case Submit(priority, task, ok) =>
      && ok == !s.closed
      && t == if !ok then s
              else
                var e := NextEntry(s, priority, task);
                s.(pending := s.pending + {e}, submitted := e.seqNo, accepted := s.accepted + [e])
    case Close => t == s.(closing := true)
    case Watch => s.closing && !s.worker.NotStarted? && t == s.(closed := true)
    case Take(e) =>
      && s.worker.Idle? && IsLeast(e, s.pending)
      && t == s.(pending := s.pending - {e}, worker := Running(e))
    case Finish => s.worker.Running? && t == s.(worker := Idle, done := s.done + [s.worker.e])
    case Exit => s.worker.Idle? && s.closed && s.pending == {} && t == s.(worker := Exited)
  }

  ghost predicate IsRun(states: seq<State>, events: seq<Event>) {
    && |states| == |events| + 1
    && states[0] == INITIAL
    && (forall i :: 0 <= i < |events| ==> Step(states[i], events[i], states[i + 1]))
  }

  // Taken so far: finished, or running.
  function Taken(s: State): seq<Entry> {
    if s.worker.Running? then s.done + [s.worker.e] else s.done
  }

  predicate IsUrgent(e: Entry) {
    e.priority <= PRIORITY_HIGH_THRESHOLD
  }

  function UrgentCount(s: seq<Entry>): nat {
    if s == [] then 0 else UrgentCount(s[..|s| - 1]) + if IsUrgent(s[|s| - 1]) then 1 else 0
  }

  lemma UrgentAppend(s: seq<Entry>, e: Entry)
    ensures UrgentCount(s + [e]) == UrgentCount(s) + if IsUrgent(e) then 1 else 0
  {
    assert (s + [e])[..|s|] == s;
  }

  // ---- What every run keeps ----

  // Every accepted item is pending or taken, never both, and is taken once;
  // submission numbers count acceptances.
  ghost predicate Conserved(s: State) {
    && s.submitted == |s.accepted|
    && (forall i :: 0 <= i < |s.accepted| ==> s.accepted[i].seqNo == i + 1)
    && (forall e :: e in s.accepted <==> e in s.pending || e in Taken(s))
    && (forall e :: e in s.pending ==> e !in Taken(s))
    && (forall i, j :: 0 <= i < j < |Taken(s)| ==> Taken(s)[i] != Taken(s)[j])
  }

  // Items of one priority are taken in submission order, and those still
  // pending come after those taken.
  ghost predicate FifoWithinPriority(s: State) {
    && (forall i, j :: 0 <= i < j < |Taken(s)| && Taken(s)[i].priority == Taken(s)[j].priority ==>
          Taken(s)[i].seqNo < Taken(s)[j].seqNo)
    && (forall d, p :: d in Taken(s) && p in s.pending && d.priority == p.priority ==> d.seqNo < p.seqNo)
  }

  // The worker is gone only when the scheduler is closed and empty.
  ghost predicate ExitIsFinal(s: State) {
    s.worker.Exited? ==> s.closed && s.pending == {}
  }

  lemma AcceptedBelow(s: State)
    requires Conserved(s)
    ensures forall e :: e in s.pending || e in Taken(s) ==> 1 <= e.seqNo <= s.submitted
  {
    forall e | e in s.pending || e in Taken(s)
      ensures 1 <= e.seqNo <= s.submitted
    {
      assert e in s.accepted;
      var i :| 0 <= i < |s.accepted| && s.accepted[i] == e;
    }
  }

  lemma StepConserves(s: State, ev: Event, t: State)
    requires Conserved(s) && Step(s, ev, t)
    ensures Conserved(t)
  {
    match ev
    case Submit(priority, task, ok) =>
      if ok {
        SubmitConserves(s, NextEntry(s, priority, task), t);
      }
    case Take(e) => TakeConserves(s, e, t);
    case _ => assert Taken(t) == Taken(s);
  }

  lemma SubmitConserves(s: State, e: Entry, t: State)
    requires Conserved(s) && e.seqNo == s.submitted + 1
    requires t == s.(pending := s.pending + {e}, submitted := e.seqNo, accepted := s.accepted + [e])
    ensures Conserved(t)
  {
    AcceptedBelow(s);
    assert Taken(t) == Taken(s);
  }

  lemma TakeConserves(s: State, e: Entry, t: State)
    requires Conserved(s) && Step(s, Take(e), t)
    ensures Conserved(t)
  {
    assert Taken(t) == Taken(s) + [e];
    forall x
      ensures x in s.accepted <==> x in t.pending || x in Taken(t)
    {
      assert x in Taken(t) <==> x in Taken(s) || x == e;
    }
  }

  lemma StepFifo(s: State, ev: Event, t: State)
    requires Conserved(s) && FifoWithinPriority(s) && Step(s, ev, t)
    ensures FifoWithinPriority(t)
  {
    match ev
    case Submit(priority, task, ok) =>
      AcceptedBelow(s);
      assert Taken(t) == Taken(s);
    case Take(e) => TakeFifo(s, e, t);
    case _ => assert Taken(t) == Taken(s);
  }

  lemma TakeFifo(s: State, e: Entry, t: State)
    requires Conserved(s) && FifoWithinPriority(s) && Step(s, Take(e), t)
    ensures FifoWithinPriority(t)
  {
    assert Taken(t) == Taken(s) + [e];
    assert e in s.pending && e in s.accepted;
    forall d, p | d in Taken(t) && p in t.pending && d.priority == p.priority
      ensures d.seqNo < p.seqNo
    {
      assert p in s.pending && p in s.accepted;
      if d == e {
        if p.seqNo == e.seqNo {
          SameNumberSameEntry(s, e, p);
        }
      }
    }
    forall i, j | 0 <= i < j < |Taken(t)| && Taken(t)[i].priority == Taken(t)[j].priority
      ensures Taken(t)[i].seqNo < Taken(t)[j].seqNo
    {
      assert Taken(t)[i] in Taken(s);
    }
  }

  lemma SameNumberSameEntry(s: State, a: Entry, b: Entry)
    requires Conserved(s) && a in s.accepted && b in s.accepted && a.seqNo == b.seqNo
    ensures a == b
  {}

  lemma {:induction false} RunKeeps(states: seq<State>, events: seq<Event>, n: nat)
    requires IsRun(states, events) && n < |states|
    ensures Conserved(states[n]) && FifoWithinPriority(states[n]) && ExitIsFinal(states[n])
  {
    if n > 0 {
      RunKeeps(states, events, n - 1);
      assert Step(states[n - 1], events[n - 1], states[n]);
      StepConserves(states[n - 1], events[n - 1], states[n]);
      StepFifo(states[n - 1], events[n - 1], states[n]);
    }
  }

  // ---- Scheduler safety over whole runs ----

  ghost predicate NoRepeats(s: seq<Entry>) {
    forall i, j :: 0 <= i < j < |s| ==> s[i] != s[j]
  }

  // Once the worker has exited, every accepted item has run exactly once, none
  // is stranded, and every later Submit is refused.
  lemma NothingStranded(states: seq<State>, events: seq<Event>, n: nat, m: nat)
    requires IsRun(states, events) && n <= m < |states| && states[n].worker.Exited?
    ensures NoRepeats(states[n].done) && (forall e :: e in states[n].accepted <==> e in states[n].done)
    ensures states[m].worker.Exited? && states[m].done == states[n].done && states[m].accepted == states[n].accepted
    ensures m < |events| && events[m].Submit? ==> !events[m].ok
  {
    RunKeeps(states, events, n);
    ExitStays(states, events, n, m);
    if m < |events| {
      assert Step(states[m], events[m], states[m + 1]);
    }
  }

  lemma {:induction false} ExitStays(states: seq<State>, events: seq<Event>, n: nat, m: nat)
    requires IsRun(states, events) && n <= m < |states| && states[n].worker.Exited?
    ensures states[m].worker.Exited? && states[m].closed
    ensures states[m].done == states[n].done && states[m].accepted == states[n].accepted
  {
    if n < m {
      ExitStays(states, events, n, m - 1);
      assert Step(states[m - 1], events[m - 1], states[m]);
    } else {
      RunKeeps(states, events, n);
    }
  }

  // Items of equal priority finish in submission order, in every run.
  lemma EqualPriorityInOrder(states: seq<State>, events: seq<Event>, n: nat, i: nat, j: nat)
    requires IsRun(states, events) && n < |states|
    requires i < j < |states[n].done| && states[n].done[i].priority == states[n].done[j].priority
    ensures states[n].done[i].seqNo < states[n].done[j].seqNo
  {
    RunKeeps(states, events, n);
    var s := states[n];
    assert s.done[i] == Taken(s)[i] && s.done[j] == Taken(s)[j];
  }

  // When an item is taken, every item accepted so far with a lower priority value,
  // or with the same value and an earlier number, has finished.
  lemma MoreUrgentRanFirst(states: seq<State>, events: seq<Event>, n: nat, x: Entry)
    requires IsRun(states, events) && n < |events| && events[n].Take?
    requires x in states[n].accepted
    requires var e := events[n].e; x.priority < e.priority || (x.priority == e.priority && x.seqNo < e.seqNo)
    ensures x in states[n].done
  {
    RunKeeps(states, events, n);
    assert Step(states[n], events[n], states[n + 1]);
    assert x !in states[n].pending;
  }

  // Until the watcher has run, every Submit is accepted.
  lemma {:induction false} OpenUntilWatched(states: seq<State>, events: seq<Event>, n: nat)
    requires IsRun(states, events) && n < |states| && forall i :: 0 <= i < n ==> !events[i].Watch?
    ensures !states[n].closed
    ensures n < |events| && events[n].Submit? ==> events[n].ok
  {
    if n > 0 {
      OpenUntilWatched(states, events, n - 1);
      assert Step(states[n - 1], events[n - 1], states[n]);
    }
    if n < |events| {
      assert Step(states[n], events[n], states[n + 1]);
    }
  }

  // The worker is never stuck: idle with work it can take an item, a running item
  // can finish, and idle without work it can exit once closed.
  lemma WorkerCanGoOn(s: State)
    ensures s.worker.Idle? && s.pending != {} ==> exists e, t :: Step(s, Take(e), t)
    ensures s.worker.Running? ==> exists t :: Step(s, Finish, t) && t.done == s.done + [s.worker.e]
    ensures s.worker.Idle? && s.pending == {} && s.closed ==> exists t :: Step(s, Exit, t)
  {
    if s.worker.Idle? && s.pending != {} {
      LeastExists(s.pending);
      var e :| IsLeast(e, s.pending);
      assert Step(s, Take(e), s.(pending := s.pending - {e}, worker := Running(e)));
    }
    if s.worker.Running? {
      assert Step(s, Finish, s.(worker := Idle, done := s.done + [s.worker.e]));
    }
    if s.worker.Idle? && s.pending == {} && s.closed {
      assert Step(s, Exit, s.(worker := Exited));
    }
  }

  // ---- The scheduler object ----

  class Scheduler {
    var items: seq<Entry>
    var seqNo: nat
    var closed: bool
    var started: bool
    var shutdown: bool
    var highPrioRuns: nat
    var lowPrioRuns: nat
    var completed: nat

    ghost var worker: Worker
    ghost var accepted: seq<Entry>
    ghost var done: seq<Entry>

    constructor ()
      ensures Valid() && View() == INITIAL
    {
      items, seqNo, closed, started, shutdown := [], 0, false, false, false;
      highPrioRuns, lowPrioRuns, completed := 0, 0, 0;
      worker, accepted, done := NotStarted, [], [];
    }

    ghost function View(): State
      reads this
    {
      State((set e | e in items), seqNo, shutdown, closed, worker, accepted, done)
    }

    // The heap holds each pending item once; the counters count taken and
    // finished items.
    ghost predicate Valid()
      reads this
    {
      && HeapOrdered(items)
      && (forall e :: multiset(items)[e] <= 1)
      && (forall e :: e in items ==> e.seqNo <= seqNo)
      && (started <==> !worker.NotStarted?)
      && completed == |done|
      && highPrioRuns == UrgentCount(Taken(View())) && lowPrioRuns == |Taken(View())| - highPrioRuns
    }

    method Start()
      requires Valid()
      modifies this
      ensures Valid() && Step(old(View()), Event.Start, View())
    {
      if started {
        return;
      }
      started := true;
      worker := Idle;
    }

    method Submit(priority: nat, task: nat) returns (ok: bool)
      requires Valid()
      modifies this`items, this`seqNo, this`accepted
      ensures Valid() && Step(old(View()), Event.Submit(priority, task, ok), View())
      ensures ok == !old(closed)
      ensures ok ==> var e := Entry(priority, old(seqNo) + 1, task);
        accepted == old(accepted) + [e] && multiset(items) == old(multiset(items)) + multiset{e}
      ensures !ok ==> accepted == old(accepted) && items == old(items)
    {
      if closed {
        return false;
      }
      seqNo := seqNo + 1;
      var e := Entry(priority, seqNo, task);
      ghost var before := items;
      assert e !in before;
      items := Push(items, e);
      accepted := accepted + [e];
      PushedOnce(before, e, items);
      return true;
    }

    method Close()
      requires Valid()
      modifies this`shutdown
      ensures Valid() && Step(old(View()), Event.Close, View())
      ensures shutdown && items == old(items)
    {
      shutdown := true;
    }

    // The watcher goroutine, once it wakes.
    method Watch()
      requires Valid() && shutdown && started
      modifies this`closed
      ensures Valid() && Step(old(View()), Event.Watch, View())
      ensures closed && items == old(items)
    {
      closed := true;
    }

    // The critical section of the worker loop, past its wait: take the least
    // item, or report that the worker must exit.
    method TakeNext() returns (item: Entry, exit: bool)
      requires Valid() && worker.Idle? && (items != [] || closed)
      modifies this
      ensures Valid()
      ensures if exit then Step(old(View()), Event.Exit, View()) else Step(old(View()), Take(item), View())
      ensures exit == (old(items) == []) && (exit ==> old(closed))
      ensures !exit ==>
        && multiset(items) + multiset{item} == old(multiset(items))
        && forall x :: x in old(items) ==>
             item.priority < x.priority || (item.priority == x.priority && item.seqNo <= x.seqNo)
      ensures highPrioRuns == old(highPrioRuns) + (if !exit && item.priority <= 2 then 1 else 0)
      ensures lowPrioRuns == old(lowPrioRuns) + (if !exit && item.priority > 2 then 1 else 0)
    {
      item := Entry(0, 0, 0);
      if closed && |items| == 0 {
        worker := Exited;
        return item, true;
      }
      item := StartNext();
      return item, false;
    }

    // The least item is popped, counted and running.
    method StartNext() returns (item: Entry)
      requires Valid() && worker.Idle? && items != []
      modifies this`items, this`worker, this`highPrioRuns, this`lowPrioRuns
      ensures Valid() && Step(old(View()), Take(item), View())
      ensures multiset(items) + multiset{item} == old(multiset(items))
      ensures forall x :: x in old(items) ==>
                item.priority < x.priority || (item.priority == x.priority && item.seqNo <= x.seqNo)
      ensures highPrioRuns == old(highPrioRuns) + (if item.priority <= 2 then 1 else 0)
      ensures lowPrioRuns == old(lowPrioRuns) + (if item.priority > 2 then 1 else 0)
    {
      ghost var s := View();
      item := PopItem();
      CountRun(item);
      worker := Running(item);
      assert View() == s.(pending := s.pending - {item}, worker := Running(item));
    }

    method PopItem() returns (item: Entry)
      requires HeapOrdered(items) && items != [] && forall e :: multiset(items)[e] <= 1
      modifies this`items
      ensures HeapOrdered(items) && forall e :: multiset(items)[e] <= 1
      ensures multiset(items) + multiset{item} == old(multiset(items))
      ensures IsLeast(item, old(set e | e in items)) && (set e | e in items) == old(set e | e in items) - {item}
      ensures forall x :: x in items ==> x in old(items)
      ensures forall x :: x in old(items) ==>
                item.priority < x.priority || (item.priority == x.priority && item.seqNo <= x.seqNo)
    {
      ghost var before := items;
      item, items := Pop(items);
      PoppedOnce(before, item, items);
    }

    // The statistics of one more run.
    method CountRun(item: Entry)
      requires highPrioRuns == UrgentCount(done) && lowPrioRuns == |done| - highPrioRuns
      modifies this`highPrioRuns, this`lowPrioRuns
      ensures highPrioRuns == UrgentCount(done + [item]) && lowPrioRuns == |done + [item]| - highPrioRuns
      ensures highPrioRuns == old(highPrioRuns) + (if item.priority <= 2 then 1 else 0)
      ensures lowPrioRuns == old(lowPrioRuns) + (if item.priority > 2 then 1 else 0)
    {
      UrgentAppend(done, item);
      if item.priority <= PRIORITY_HIGH_THRESHOLD {
        highPrioRuns := highPrioRuns + 1;
      } else {
        lowPrioRuns := lowPrioRuns + 1;
      }
    }

    // item.do() has returned.
    method FinishItem()
      requires Valid() && worker.Running?
      modifies this`completed, this`worker, this`done
      ensures Valid() && Step(old(View()), Finish, View())
      ensures done == old(done) + [old(worker).e] && completed == old(completed) + 1
    {
      completed := completed + 1;
      done := done + [worker.e];
      worker := Idle;
    }
  }

  lemma PoppedOnce(h: seq<Entry>, e: Entry, r: seq<Entry>)
    requires multiset(r) + multiset{e} == multiset(h)
    requires forall x :: multiset(h)[x] <= 1
    ensures (set x | x in r) == (set x | x in h) - {e} && e in h
    ensures forall x :: x in r <==> x in h && x != e
    ensures forall x :: multiset(r)[x] <= 1
  {
    forall x
      ensures x in r <==> x in h && x != e
      ensures multiset(r)[x] <= 1
    {
      assert multiset(h)[x] == multiset(r)[x] + multiset{e}[x];
      assert x in r <==> x in multiset(r);
      assert x in h <==> x in multiset(h);
    }
    assert e in multiset(h);
  }

  lemma PushedOnce(h: seq<Entry>, e: Entry, r: seq<Entry>)
    requires multiset(r) == multiset(h) + multiset{e}
    ensures (set x | x in r) == (set x | x in h) + {e}
    ensures forall x :: x in r <==> x in h || x == e
    ensures (forall x :: multiset(h)[x] <= 1) && e !in h ==> forall x :: multiset(r)[x] <= 1
  {
    forall x
      ensures x in r <==> x in h || x == e
    {
      assert x in r <==> x in multiset(r);
      assert x in h <==> x in multiset(h);
    }
  }
}
