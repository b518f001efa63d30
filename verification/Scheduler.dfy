/** The ready list and the running thread (code/threads/scheduler.cc with priorities, code/threads/thread.cc): Fork, Yield,
    Sleep and waking a thread up, as changes of the scheduler's state. */
module Schedulers {
  import opened Lists
  import opened Threads

  datatype Status = RUNNING | READY | BLOCKED

  // A smaller number is a better priority.
  datatype Kernel = Kernel(ready: seq<Item<Tid>>, current: Tid, status: map<Tid, Status>, prio: map<Tid, int>)

  predicate Known(k: Kernel)
  {
    k.current in k.status && k.prio.Keys == k.status.Keys
  }

  predicate OnList(ready: seq<Item<Tid>>, t: Tid)
  {
    exists i :: 0 <= i < |ready| && ready[i].item == t
  }

  // Every thread is running, ready and on the list once, or blocked; the list is sorted.
  ghost predicate Ordered(k: Kernel)
  {
    && Known(k) && Sorted(k.ready)
    && (forall t :: t in k.status ==> (k.status[t] == RUNNING <==> t == k.current))
    && (forall t :: t in k.status ==> (k.status[t] == READY <==> OnList(k.ready, t)))
    && (forall i :: 0 <= i < |k.ready| ==> k.ready[i].item in k.status && k.ready[i].key == k.prio[k.ready[i].item])
    && (forall i, j :: 0 <= i < j < |k.ready| ==> k.ready[i].item != k.ready[j].item)
  }

  // On the ready list, marked as ready.
  function Readied(k: Kernel, t: Tid): Kernel
    requires t in k.prio
  {
    k.(ready := Inserted(k.ready, Item(t, k.prio[t])), status := k.status[t := READY])
  }

  // The first thread of the list gets the CPU.
  function Switched(k: Kernel): Kernel
    requires k.ready != []
  {
    Kernel(k.ready[1..], k.ready[0].item, k.status[k.ready[0].item := RUNNING], k.prio)
  }

  // FindNextToRun would put its candidate back: it is worse than the current thread.
  predicate PutsBack(k: Kernel)
    requires k.ready != [] && k.current in k.prio
  {
    k.ready[0].key > k.prio[k.current]
  }

  function Yielded(k: Kernel): Kernel
    requires Known(k)
  {
    var k1 := Readied(k, k.current);
    if PutsBack(k1) then k1.(ready := Inserted(k1.ready[1..], k1.ready[0])) else Switched(k1)
  }

  function MadeReady(k: Kernel, t: Tid): Kernel
    requires Known(k) && t in k.prio
  {
    var k1 := Readied(k, t);
    if t != k.current && k.prio[t] < k.prio[k.current] then Yielded(k1) else k1
  }

  // Sleep, when there is a thread to run.
  function Slept(k: Kernel): Kernel
    requires Known(k) && k.ready != []
  {
    Switched(k.(status := k.status[k.current := BLOCKED]))
  }

  datatype Call = Fork(t: Tid, prio: int) | Yield | Sleep | Wake(t: Tid)

  predicate Enabled(k: Kernel, a: Call)
  {
    Known(k) &&
    match a
    case Fork(t, _) => t !in k.status
    case Yield => true
    case Sleep => k.ready != []
    case Wake(t) => t in k.status && k.status[t] == BLOCKED
  }

  function Next(k: Kernel, a: Call): Kernel
    requires Enabled(k, a)
  {
    match a
    case Fork(t, p) => MadeReady(k.(status := k.status[t := BLOCKED], prio := k.prio[t := p]), t)
    case Yield => Yielded(k)
    case Sleep => Slept(k)
    case Wake(t) => MadeReady(k, t)
  }

  // A thread that is not on the list is put there.
  lemma ReadiedOrdered(k: Kernel, t: Tid)
    requires Ordered(k) && t in k.status && k.status[t] == BLOCKED
    ensures Ordered(Readied(k, t))
  {
    InsertedItems(k.ready, Item(t, k.prio[t]));
  }

  // The items of the list after an insertion: the old ones and the new one, each once.
  lemma InsertedItems(ready: seq<Item<Tid>>, e: Item<Tid>)
    requires Sorted(ready) && !OnList(ready, e.item)
    requires forall i, j :: 0 <= i < j < |ready| ==> ready[i].item != ready[j].item
    ensures var r := Inserted(ready, e);
            && Sorted(r) && (forall t :: OnList(r, t) <==> t == e.item || OnList(ready, t))
            && (forall i, j :: 0 <= i < j < |r| ==> r[i].item != r[j].item)
            && (forall i :: 0 <= i < |r| ==> r[i] == e || r[i] in ready)
  {
    InsertedSorted(ready, e);
    hide Place;
    hide Sorted;
    var p, r := Place(ready, e.key), Inserted(ready, e);
    assert forall i :: 0 <= i < |r| ==> r[i] == if i < p then ready[i] else if i == p then e else ready[i - 1];
    assert r[p].item == e.item;
    forall t | OnList(ready, t) ensures OnList(r, t) {
      var i :| 0 <= i < |ready| && ready[i].item == t;
      assert r[if i < p then i else i + 1].item == t;
    }
  }

  // The list in between, with the running thread on it.
  ghost predicate Yielding(k: Kernel)
  {
    && Known(k) && Sorted(k.ready)
    && (forall t :: t in k.status ==> k.status[t] != RUNNING)
    && (forall t :: t in k.status ==> (k.status[t] == READY <==> OnList(k.ready, t)))
    && (forall i :: 0 <= i < |k.ready| ==> k.ready[i].item in k.status && k.ready[i].key == k.prio[k.ready[i].item])
    && (forall i, j :: 0 <= i < j < |k.ready| ==> k.ready[i].item != k.ready[j].item)
  }

  lemma ReadiedYielding(k: Kernel)
    requires Ordered(k)
    ensures Yielding(Readied(k, k.current)) && OnList(Readied(k, k.current).ready, k.current)
  {
    InsertedItems(k.ready, Item(k.current, k.prio[k.current]));
  }

  // The running thread is on the list, so the first of the list is no worse.
  lemma NeverPutsBack(k: Kernel)
    requires Yielding(k) && OnList(k.ready, k.current)
    ensures k.ready != [] && !PutsBack(k)
  {
    var i :| 0 <= i < |k.ready| && k.ready[i].item == k.current;
    assert k.ready[0].key <= k.ready[i].key;
  }

  lemma SwitchedOrdered(k: Kernel)
    requires Yielding(k) && k.ready != []
    ensures Ordered(Switched(k))
  {
    var k', c := Switched(k), k.ready[0].item;
    forall t | t in k'.status ensures k'.status[t] == READY <==> OnList(k'.ready, t) {
      if OnList(k'.ready, t) {
        var i :| 0 <= i < |k'.ready| && k'.ready[i].item == t;
        assert k.ready[i + 1].item == t;
      }
      if t != c && OnList(k.ready, t) {
        var i :| 0 <= i < |k.ready| && k.ready[i].item == t;
        assert k'.ready[i - 1].item == t;
      }
    }
  }

  lemma YieldedOrdered(k: Kernel)
    requires Ordered(k)
    ensures Ordered(Yielded(k)) && !PutsBack(Readied(k, k.current))
  {
    hide Ordered;
    hide Yielding;
    hide Inserted;
    OrderedKnown(k);
    ReadiedYielding(k);
    NeverPutsBack(Readied(k, k.current));
    SwitchedOrdered(Readied(k, k.current));
  }

  lemma OrderedKnown(k: Kernel)
    requires Ordered(k)
    ensures Known(k)
  {
  }

  // A new thread, before it is ready.
  function Registered(k: Kernel, t: Tid, p: int): Kernel
  {
    k.(status := k.status[t := BLOCKED], prio := k.prio[t := p])
  }

  lemma RegisteredOrdered(k: Kernel, t: Tid, p: int)
    requires Ordered(k) && t !in k.status
    ensures Ordered(Registered(k, t, p)) && Registered(k, t, p).status[t] == BLOCKED
  {
  }

  lemma SleepingYielding(k: Kernel)
    requires Ordered(k)
    ensures Yielding(k.(status := k.status[k.current := BLOCKED]))
  {
    assert k.status[k.current] == RUNNING;
  }

  lemma MadeReadyOrdered(k: Kernel, t: Tid)
    requires Ordered(k) && t in k.status && k.status[t] == BLOCKED
    ensures Known(k) && Ordered(MadeReady(k, t))
  {
    hide Ordered;
    hide Inserted;
    OrderedKnown(k);
    ReadiedOrdered(k, t);
    YieldedOrdered(Readied(k, t));
  }

  lemma StepOrdered(k: Kernel, a: Call)
    requires Ordered(k) && Enabled(k, a)
    ensures Ordered(Next(k, a))
  {
    hide Ordered;
    hide Yielding;
    hide Inserted;
    match a
    case Fork(t, p) =>
      RegisteredOrdered(k, t, p);
      MadeReadyOrdered(Registered(k, t, p), t);
    case Yield => YieldedOrdered(k);
    case Sleep =>
      SleepingYielding(k);
      SwitchedOrdered(k.(status := k.status[k.current := BLOCKED]));
    case Wake(t) => MadeReadyOrdered(k, t);
  }

  predicate Legal(k: Kernel, run: seq<Call>)
    decreases |run|
  {
    run == [] || (Enabled(k, run[0]) && Legal(Next(k, run[0]), run[1..]))
  }

  function After(k: Kernel, run: seq<Call>): Kernel
    requires Legal(k, run)
    decreases |run|
  {
    if run == [] then k else After(Next(k, run[0]), run[1..])
  }

  // No ready thread has a better priority than the running one.
  predicate Best(k: Kernel)
    requires Known(k)
  {
    forall i :: 0 <= i < |k.ready| ==> k.prio[k.current] <= k.ready[i].key
  }

  // The first of the list is the best of all, so after a switch it runs.
  lemma SwitchedBest(k: Kernel)
    requires Yielding(k) && k.ready != []
    ensures Known(Switched(k)) && Best(Switched(k))
  {
    assert forall i :: 1 <= i < |k.ready| ==> k.ready[0].key <= k.ready[i].key;
  }

  lemma YieldedBest(k: Kernel)
    requires Ordered(k)
    ensures Known(k) && Known(Yielded(k)) && Best(Yielded(k))
  {
    OrderedKnown(k);
    ReadiedYielding(k);
    NeverPutsBack(Readied(k, k.current));
    SwitchedBest(Readied(k, k.current));
  }

  // A thread made ready gets the CPU if and only if it is better than the running one.
  lemma MadeReadyBest(k: Kernel, t: Tid)
    requires Ordered(k) && t in k.status && k.status[t] == BLOCKED && Known(k) && Best(k)
    ensures Known(MadeReady(k, t)) && Best(MadeReady(k, t))
    ensures MadeReady(k, t).current == if k.prio[t] < k.prio[k.current] then t else k.current
  {
    ReadiedOrdered(k, t);
    assert t != k.current by { assert k.status[k.current] == RUNNING; }
    if k.prio[t] < k.prio[k.current] {
      YieldedBest(Readied(k, t));
      hide Ordered;
      FirstInLine(k, t);
    } else {
      hide Ordered;
      ReadiedBest(k, t);
    }
  }

  lemma ReadiedBest(k: Kernel, t: Tid)
    requires Known(k) && Best(k) && t in k.prio && k.prio[k.current] <= k.prio[t]
    ensures Best(Readied(k, t))
  {
    var k1 := Readied(k, t);
    InsertedKnown(k.ready, Item(t, k.prio[t]));
    hide Inserted;
    forall i | 0 <= i < |k1.ready| ensures k1.prio[k1.current] <= k1.ready[i].key {
      if k1.ready[i] in k.ready { var j :| 0 <= j < |k.ready| && k.ready[j] == k1.ready[i]; }
    }
  }

  // Better than the running thread, t comes first, and the running thread behind it.
  lemma FirstInLine(k: Kernel, t: Tid)
    requires Known(k) && Best(k) && t in k.prio && k.prio[t] < k.prio[k.current] && Known(Readied(k, t))
    ensures Yielded(Readied(k, t)).current == t
  {
    hide Place;
    var k1 := Readied(k, t);
    assert Place(k.ready, k.prio[t]) == 0 by { PlaceIs(k.ready, k.prio[t], 0); }
    assert k1.ready[0].item == t;
    var k2 := Readied(k1, k1.current);
    assert Place(k1.ready, k.prio[k.current]) > 0;
    assert k2.ready[0] == k1.ready[0];
  }

  // After every call the running thread has the best priority of all that run or are ready, when it had before.
  lemma StepBest(k: Kernel, a: Call)
    requires Ordered(k) && Enabled(k, a) && Best(k)
    ensures Known(Next(k, a)) && Best(Next(k, a))
  {
    hide Ordered;
    hide Yielding;
    hide Inserted;
    match a
    case Fork(t, p) =>
      RegisteredOrdered(k, t, p);
      OnListOld(k, t);
      MadeReadyBest(Registered(k, t, p), t);
    case Yield => YieldedBest(k);
    case Sleep =>
      SleepingYielding(k);
      SwitchedBest(k.(status := k.status[k.current := BLOCKED]));
    case Wake(t) => MadeReadyBest(k, t);
  }

  lemma OnListOld(k: Kernel, t: Tid)
    requires Ordered(k) && t !in k.status
    ensures t != k.current
  {
  }

  function Blocked(k: Kernel): set<Tid> { set t | t in k.status && k.status[t] == BLOCKED }

  // Sleep blocks the running thread and Wake unblocks one, nothing else does; Fork alone brings in a
  // thread, with its priority.
  lemma StepThreads(k: Kernel, a: Call)
    requires Ordered(k) && Enabled(k, a)
    ensures Next(k, a).prio == match a case Fork(t, p) => k.prio[t := p] case _ => k.prio
    ensures Next(k, a).status.Keys == match a case Fork(t, _) => k.status.Keys + {t} case _ => k.status.Keys
    ensures Blocked(Next(k, a)) == match a
                                   case Sleep => Blocked(k) + {k.current}
                                   case Wake(t) => Blocked(k) - {t}
                                   case _ => Blocked(k)
  {
    hide Inserted;
    assert k.status[k.current] == RUNNING;
    match a
    case Fork(t, p) => MadeReadyThreads(Registered(k, t, p), t);
    case Yield => YieldedThreads(k);
    case Sleep =>
      assert OnList(k.ready, k.ready[0].item);
      assert Blocked(Slept(k)) == Blocked(k) + {k.current};
    case Wake(t) => MadeReadyThreads(k, t);
  }

  lemma YieldedThreads(k: Kernel)
    requires Known(k) && KnownList(k) && k.status[k.current] != BLOCKED
    requires forall i :: 0 <= i < |k.ready| ==> k.status[k.ready[i].item] != BLOCKED
    ensures Yielded(k).prio == k.prio && Yielded(k).status.Keys == k.status.Keys && Blocked(Yielded(k)) == Blocked(k)
  {
    var k1 := Readied(k, k.current);
    InsertedKnown(k.ready, Item(k.current, k.prio[k.current]));
    hide Inserted;
    assert k1.ready[0].item in k1.status && k1.status[k1.ready[0].item] != BLOCKED;
  }

  lemma MadeReadyThreads(k: Kernel, t: Tid)
    requires Known(k) && KnownList(k) && k.status[k.current] != BLOCKED && t in k.prio
    requires forall i :: 0 <= i < |k.ready| ==> k.status[k.ready[i].item] != BLOCKED
    ensures MadeReady(k, t).prio == k.prio && MadeReady(k, t).status.Keys == k.status.Keys
    ensures Blocked(MadeReady(k, t)) == Blocked(k) - {t}
  {
    var k1 := Readied(k, t);
    InsertedKnown(k.ready, Item(t, k.prio[t]));
    hide Inserted;
    assert Blocked(k1) == Blocked(k) - {t};
    if t != k.current && k.prio[t] < k.prio[k.current] { YieldedThreads(k1); }
  }

  // In every run each thread is in exactly one of the three places, the list is sorted, a Yield would not
  // put its candidate back, and the running thread stays the best.
  lemma {:induction false} AlwaysOrdered(k: Kernel, run: seq<Call>)
    requires Ordered(k) && Legal(k, run) && Known(k)
    ensures var k' := After(k, run); Ordered(k') && !PutsBack(Readied(k', k'.current)) && (Best(k) ==> Best(k'))
    decreases |run|
  {
    hide Ordered;
    hide Best;
    if run == [] {
      YieldedOrdered(k);
    } else {
      StepOrdered(k, run[0]);
      if Best(k) { StepBest(k, run[0]); }
      OrderedKnown(Next(k, run[0]));
      AlwaysOrdered(Next(k, run[0]), run[1..]);
    }
  }

  lemma StartOrdered(first: Tid, priority: int)
    ensures var k := Kernel([], first, map[first := RUNNING], map[first := priority]); Ordered(k) && Best(k)
  {
  }

  /* Taking turns. */

  function Yields(k: Kernel, n: nat): Kernel
    requires Known(k) && KnownList(k)
    decreases n
  {
    if n == 0 then k else YieldedKnown(k); Yields(Yielded(k), n - 1)
  }

  predicate KnownList(k: Kernel) { forall i :: 0 <= i < |k.ready| ==> k.ready[i].item in k.status }

  lemma YieldedKnown(k: Kernel)
    requires Known(k) && KnownList(k)
    ensures Known(Yielded(k)) && KnownList(Yielded(k))
  {
    var k1 := Readied(k, k.current);
    hide Place;
    assert forall i :: 0 <= i < |k1.ready| ==> k1.ready[i].item in k1.status;
  }

  // The first m threads of the list have the priority of the running one, the others are worse.
  predicate Peers(k: Kernel, m: nat)
    requires Known(k)
  {
    && m <= |k.ready|
    && (forall i :: 0 <= i < m ==> k.ready[i].key == k.prio[k.current])
    && (forall i :: m <= i < |k.ready| ==> k.ready[i].key > k.prio[k.current])
  }

  // A Yield among peers: the first goes to the CPU, the running thread behind its peers.
  lemma YieldRotates(k: Kernel, m: nat)
    requires Known(k) && Ordered(k) && Peers(k, m) && 0 < m <= |k.ready|
    ensures Ordered(Yielded(k)) && Peers(Yielded(k), m) && Yielded(k).current == k.ready[0].item
    ensures |Yielded(k).ready| == |k.ready| && forall i :: 0 <= i < m - 1 ==> Yielded(k).ready[i] == k.ready[i + 1]
    ensures Yielded(k).ready[m - 1].item == k.current
  {
    hide Ordered;
    hide Place;
    var e := Item(k.current, k.prio[k.current]);
    PlaceIs(k.ready, e.key, m);
    YieldedOrdered(k);
    OnListOnce(k, 0);
    var r := Inserted(k.ready, e);
    assert forall i :: 0 <= i < |r| ==> r[i] == if i < m then k.ready[i] else if i == m then e else k.ready[i - 1];
    assert Yielded(k).ready == r[1..];
  }

  // A thread on the list is not running, and has its priority as key.
  lemma OnListOnce(k: Kernel, j: nat)
    requires Ordered(k) && j < |k.ready|
    ensures var t := k.ready[j].item; t in k.prio && k.ready[j].key == k.prio[t] && t != k.current
  {
    assert OnList(k.ready, k.ready[j].item);
  }

  // The peer at position j runs after exactly j + 1 yields, and not before.
  lemma {:induction false} TakesTurns(k: Kernel, m: nat, j: nat, n: nat)
    requires Known(k) && Ordered(k) && KnownList(k) && Peers(k, m) && j < m <= |k.ready| && n <= j + 1
    ensures Yields(k, n).current == k.ready[j].item <==> n == j + 1
    decreases n
  {
    hide Ordered;
    hide Yielded;
    hide Peers;
    OnListOnce(k, j);
    if n == 0 {
    } else {
      YieldRotates(k, m);
      YieldedKnown(k);
      if j > 0 {
        TakesTurns(Yielded(k), m, j - 1, n - 1);
      }
    }
  }

  class Scheduler {
    const readyList: List<Tid>
    var currentThread: Tid
    var status: map<Tid, Status>
    var prio: map<Tid, int>

    ghost predicate Valid()
      reads this, readyList, readyList.repr
    {
      readyList.Valid() && Known(State()) && KeysArePriorities(State())
    }

    ghost function State(): Kernel
      reads this, readyList
    {
      Kernel(readyList.Contents(), currentThread, status, prio)
    }

    // One thread, running.
    constructor (first: Tid, priority: int)
      ensures Valid() && fresh(readyList) && State() == Kernel([], first, map[first := RUNNING], map[first := priority])
    {
      readyList := new List();
      currentThread, status, prio := first, map[first := RUNNING], map[first := priority];
    }

    // A thread of better priority than the running one gets the CPU at once.
    method ReadyToRun(thread: Tid)
      requires Valid() && thread in prio
      modifies this, readyList, readyList.repr
      ensures Valid() && fresh(readyList.repr - old(readyList.repr))
      ensures State() == MadeReady(old(State()), thread)
      decreases if thread == currentThread then 0 else 2
    {
      hide Inserted;
      hide Values;
      InsertedKnown(readyList.Contents(), Item(thread, prio[thread]));
      status := status[thread := READY];
      readyList.SortedInsert(thread, prio[thread]);
      if thread != currentThread && prio[thread] < prio[currentThread] {
        Yield();
      }
    }

    // The thread to run next, taken off the list; none when the first is worse than the
    // current thread, which then goes back on the list.
    method FindNextToRun() returns (found: bool, next: Tid)
      requires Valid()
      modifies this, readyList, readyList.repr
      ensures Valid() && fresh(readyList.repr - old(readyList.repr))
      ensures currentThread == old(currentThread) && status == old(status) && prio == old(prio)
      ensures var r := old(readyList.Contents());
              found <==> r != [] && (status[currentThread] == BLOCKED || prio[r[0].item] <= prio[currentThread])
      ensures var r := old(readyList.Contents());
              if found then next == r[0].item && readyList.Contents() == r[1..]
              else if r == [] then readyList.Contents() == []
              else readyList.Contents() == Inserted(r[1..], r[0])
    {
      hide Inserted;
      hide Values;
      found, next := false, currentThread;
      var empty := readyList.IsEmpty();
      if empty { return; }
      var removed := readyList.SortedRemove();
      var candidate := removed.value.item;
      if status[currentThread] == BLOCKED { return true, candidate; }
      if prio[candidate] > prio[currentThread] {
        InsertedKnown(readyList.Contents(), Item(candidate, prio[candidate]));
        readyList.SortedInsert(candidate, prio[candidate]);
        return;
      }
      return true, candidate;
    }

    method Run(nextThread: Tid)
      requires Valid() && nextThread in status
      modifies this
      ensures Valid() && currentThread == nextThread && status == old(status)[nextThread := RUNNING] && prio == old(prio)
    {
      currentThread := nextThread;
      status := status[nextThread := RUNNING];
    }

    method Yield()
      requires Valid()
      modifies this, readyList, readyList.repr
      ensures Valid() && fresh(readyList.repr - old(readyList.repr))
      ensures State() == Yielded(old(State()))
      decreases 1
    {
      hide Inserted;
      hide Values;
      ReadyToRun(currentThread);
      var found, next := FindNextToRun();
      if found { Run(next); }
    }

    method Fork(thread: Tid, priority: int)
      requires Valid() && thread !in status
      modifies this, readyList, readyList.repr
      ensures Valid() && State() == Next(old(State()), Call.Fork(thread, priority))
    {
      hide Inserted;
      hide Values;
      status, prio := status[thread := BLOCKED], prio[thread := priority];
      ReadyToRun(thread);
    }

    // Sleep while there is a thread to run; otherwise the CPU idles until an interrupt.
    method Sleep()
      requires Valid() && readyList.Contents() != []
      modifies this, readyList, readyList.repr
      ensures Valid() && State() == Slept(old(State()))
    {
      hide Inserted;
      hide Values;
      status := status[currentThread := BLOCKED];
      var found, next := FindNextToRun();
      Run(next);
    }
  }

  // The keys on the list are the priorities of the threads.
  predicate KeysArePriorities(k: Kernel)
  {
    forall i :: 0 <= i < |k.ready| ==> k.ready[i].item in k.prio && k.ready[i].key == k.prio[k.ready[i].item]
  }

  lemma InsertedKnown(ready: seq<Item<Tid>>, e: Item<Tid>)
    ensures forall i :: 0 <= i < |Inserted(ready, e)| ==> Inserted(ready, e)[i] == e || Inserted(ready, e)[i] in ready
    ensures Inserted(ready, e) != []
  {
    hide Place;
  }
}
