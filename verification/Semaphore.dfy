/** Threads are known by their numbers. */
module Threads {
  type Tid = nat

  // A queue: some come, or the first goes; what is left in the end is a tail of all that were in it.
  lemma InTurn(queue: seq<Tid>, come: seq<Tid>, gone: nat, queue': seq<Tid>, later: seq<Tid>, n: nat, end: seq<Tid>)
    requires gone <= |queue| && (gone == 0 || come == []) && queue' == queue[gone..] + come
    requires n <= |queue' + later| && end == (queue' + later)[n..]
    ensures gone + n <= |queue + (come + later)| && end == (queue + (come + later))[gone + n..]
  {
    assert (queue + (come + later))[gone..] == queue' + later;
  }
}

/** Semaphore::P and V (code/threads/synch.cc:64-97) as steps of any number of threads.  Interrupts are
    off inside them, so a step runs until the thread sleeps, returns, or yields: V calls
    ReadyToRun (code/threads/scheduler.cc:58-79), which yields to a woken thread of better priority before
    V has counted up. */
module Semaphores {
  import opened Threads

  // Where a thread is: outside; in the queue; woken and about to test the value again; in V,
  // having yielded before value++.
  datatype Pc = Out | Asleep | Woken | InV

  datatype Sem = Sem(value: int, queue: seq<Tid>, pc: map<Tid, Pc>)

  datatype Step = P(t: Tid) | V(t: Tid) | FinishV(t: Tid)

  // A smaller number is a better priority.
  type Priority = Tid -> int

  predicate Outranked(prio: Priority, s: Sem, t: Tid)
  {
    s.queue != [] && prio(s.queue[0]) < prio(t)
  }

  predicate Enabled(s: Sem, a: Step)
  {
    a.t in s.pc &&
    match a
    case P(t) => s.pc[t] == Out || s.pc[t] == Woken
    case V(t) => s.pc[t] == Out && (s.queue != [] ==> s.queue[0] in s.pc)
    case FinishV(t) => s.pc[t] == InV
  }

  function Next(prio: Priority, s: Sem, a: Step): Sem
    requires Enabled(s, a)
  {
    match a
    case P(t) =>
      if s.value == 0 then s.(queue := s.queue + [t], pc := s.pc[t := Asleep])
      else s.(value := s.value - 1, pc := s.pc[t := Out])
    case V(t) =>
      if s.queue == [] then s.(value := s.value + 1)
      else
        var woken := s.(queue := s.queue[1..], pc := s.pc[s.queue[0] := Woken]);
        if Outranked(prio, s, t) then woken.(pc := woken.pc[t := InV])
        else woken.(value := s.value + 1)
    case FinishV(t) =>
      s.(value := s.value + 1, pc := s.pc[t := Out])
  }

  function Init(threads: set<Tid>, initialValue: nat): Sem
  {
    Sem(initialValue, [], map t | t in threads :: Out)
  }

  // The state after a run, and whether every step of it could be taken.
  predicate Legal(prio: Priority, s: Sem, run: seq<Step>)
    decreases |run|
  {
    run == [] || (Enabled(s, run[0]) && Legal(prio, Next(prio, s, run[0]), run[1..]))
  }

  function After(prio: Priority, s: Sem, run: seq<Step>): Sem
    requires Legal(prio, s, run)
    decreases |run|
  {
    if run == [] then s else After(prio, Next(prio, s, run[0]), run[1..])
  }

  function At(s: Sem, pc: Pc): set<Tid>
  {
    set t | t in s.pc && s.pc[t] == pc
  }

  // The value is never negative, and the queue holds the sleepers, each once.
  ghost predicate Consistent(s: Sem)
  {
    && s.value >= 0
    && (forall i :: 0 <= i < |s.queue| ==> s.queue[i] in s.pc && s.pc[s.queue[i]] == Asleep)
    && (forall t :: t in s.pc && s.pc[t] == Asleep ==> t in s.queue)
    && (forall i, j :: 0 <= i < j < |s.queue| ==> s.queue[i] != s.queue[j])
  }

  lemma StepConsistent(prio: Priority, s: Sem, a: Step)
    requires Consistent(s) && Enabled(s, a)
    ensures Consistent(Next(prio, s, a))
  {
    match a
    case P(t) => ConsistentP(prio, s, t);
    case V(t) => ConsistentV(prio, s, t);
    case FinishV(t) =>
  }

  lemma ConsistentP(prio: Priority, s: Sem, t: Tid)
    requires Consistent(s) && Enabled(s, P(t))
    ensures Consistent(Next(prio, s, P(t)))
  {
    var s' := Next(prio, s, P(t));
    if s.value == 0 {
      forall u | u in s'.pc && s'.pc[u] == Asleep ensures u in s'.queue {
        if u == t { assert s'.queue[|s.queue|] == t; }
      }
    }
  }

  lemma ConsistentV(prio: Priority, s: Sem, t: Tid)
    requires Consistent(s) && Enabled(s, V(t))
    ensures Consistent(Next(prio, s, V(t)))
  {
    var s' := Next(prio, s, V(t));
    if s.queue != [] {
      assert forall i :: 0 <= i < |s'.queue| ==> s'.queue[i] == s.queue[i + 1];
      forall u | u in s'.pc && s'.pc[u] == Asleep ensures u in s'.queue {
        var i :| 0 <= i < |s.queue| && s.queue[i] == u;
        assert s'.queue[i - 1] == u;
      }
    }
  }

  // In every run, of any threads in any order.
  lemma {:induction false} AlwaysConsistent(prio: Priority, s: Sem, run: seq<Step>)
    requires Consistent(s) && Legal(prio, s, run)
    ensures Consistent(After(prio, s, run)) && After(prio, s, run).pc.Keys == s.pc.Keys
    decreases |run|
  {
    if run == [] {
    } else {
      StepConsistent(prio, s, run[0]);
      AlwaysConsistent(prio, Next(prio, s, run[0]), run[1..]);
    }
  }

  // A thread can go on if and only if it does not sleep.
  lemma Proceeds(s: Sem, t: Tid)
    requires Consistent(s) && t in s.pc
    ensures s.pc[t] != Asleep <==> exists a: Step :: a.t == t && Enabled(s, a)
    ensures s.pc[t] == Out ==> Enabled(s, P(t)) && Enabled(s, V(t))
  {
    match s.pc[t]
    case Out => assert Enabled(s, V(t));
    case Woken => assert Enabled(s, P(t));
    case InV => assert Enabled(s, FinishV(t));
    case Asleep =>
  }

  /* What a run did, read off its steps. */

  // A V counts up, at once or after it yielded; a P counts down; t goes to sleep, is woken, tests
  // the value again, yields in V, and comes back to V.
  datatype Deed = Ups | Downs | Sleeps(t: Tid) | Wakes(t: Tid) | Retests(t: Tid) | Yields(t: Tid) | Resumes(t: Tid)

  predicate Does(prio: Priority, s: Sem, a: Step, d: Deed)
    requires Enabled(s, a)
  {
    match d
    case Ups => a.FinishV? || (a.V? && (s.queue == [] || prio(s.queue[0]) >= prio(a.t)))
    case Downs => a.P? && s.value > 0
    case Sleeps(t) => a == P(t) && s.value == 0
    case Wakes(t) => a.V? && s.queue != [] && s.queue[0] == t
    case Retests(t) => a == P(t) && s.pc[t] == Woken
    case Yields(t) => a == V(t) && s.queue != [] && prio(s.queue[0]) < prio(t)
    case Resumes(t) => a == FinishV(t)
  }

  function Times(prio: Priority, s: Sem, run: seq<Step>, d: Deed): nat
    requires Legal(prio, s, run)
    decreases |run|
  {
    if run == [] then 0
    else (if Does(prio, s, run[0], d) then 1 else 0) + Times(prio, Next(prio, s, run[0]), run[1..], d)
  }

  function If(b: bool): nat { if b then 1 else 0 }

  lemma StepAccounts(prio: Priority, s: Sem, a: Step, t: Tid)
    requires Consistent(s) && Enabled(s, a) && t in s.pc
    ensures var s' := Next(prio, s, a);
            && s'.value == s.value + If(Does(prio, s, a, Ups)) - If(Does(prio, s, a, Downs)) && t in s'.pc
            && If(s'.pc[t] == Asleep) == If(s.pc[t] == Asleep) + If(Does(prio, s, a, Sleeps(t))) - If(Does(prio, s, a, Wakes(t)))
            && If(s'.pc[t] == Woken) == If(s.pc[t] == Woken) + If(Does(prio, s, a, Wakes(t))) - If(Does(prio, s, a, Retests(t)))
            && If(s'.pc[t] == InV) == If(s.pc[t] == InV) + If(Does(prio, s, a, Yields(t))) - If(Does(prio, s, a, Resumes(t)))
  {
    if a.V? && s.queue != [] { assert s.pc[s.queue[0]] == Asleep; }
  }

  // In every run the value is the one at first plus the Vs that counted up minus the Ps that passed;
  // and a thread sleeps, is on its way, or waits in V, when it was put there once more than it left.
  lemma {:induction false} Accounts(prio: Priority, s: Sem, run: seq<Step>, t: Tid)
    requires Consistent(s) && Legal(prio, s, run) && t in s.pc
    ensures var s' := After(prio, s, run);
            && s'.value == s.value + Times(prio, s, run, Ups) - Times(prio, s, run, Downs) && t in s'.pc
            && If(s'.pc[t] == Asleep) == If(s.pc[t] == Asleep) + Times(prio, s, run, Sleeps(t)) - Times(prio, s, run, Wakes(t))
            && If(s'.pc[t] == Woken) == If(s.pc[t] == Woken) + Times(prio, s, run, Wakes(t)) - Times(prio, s, run, Retests(t))
            && If(s'.pc[t] == InV) == If(s.pc[t] == InV) + Times(prio, s, run, Yields(t)) - Times(prio, s, run, Resumes(t))
    decreases |run|
  {
    if run == [] {
    } else {
      StepConsistent(prio, s, run[0]);
      StepAccounts(prio, s, run[0], t);
      hide Does;
      hide Consistent;
      Accounts(prio, Next(prio, s, run[0]), run[1..], t);
    }
  }

  lemma ValueCounts(prio: Priority, threads: set<Tid>, initialValue: nat, run: seq<Step>)
    requires Legal(prio, Init(threads, initialValue), run)
    ensures var s := Init(threads, initialValue);
            After(prio, s, run).value == initialValue + Times(prio, s, run, Ups) - Times(prio, s, run, Downs) >= 0
  {
    InitConsistent(threads, initialValue);
    if run != [] { Accounts(prio, Init(threads, initialValue), run, run[0].t); }
    AlwaysConsistent(prio, Init(threads, initialValue), run);
  }

  // The threads that went to sleep, in order, and how many were woken.
  function Sleepers(prio: Priority, s: Sem, run: seq<Step>): seq<Tid>
    requires Legal(prio, s, run)
    decreases |run|
  {
    if run == [] then []
    else (if run[0].P? && s.value == 0 then [run[0].t] else []) + Sleepers(prio, Next(prio, s, run[0]), run[1..])
  }

  function Woke(prio: Priority, s: Sem, run: seq<Step>): nat
    requires Legal(prio, s, run)
    decreases |run|
  {
    if run == [] then 0
    else (if run[0].V? && s.queue != [] then 1 else 0) + Woke(prio, Next(prio, s, run[0]), run[1..])
  }

  // They are woken in the order in which they went to sleep.
  lemma {:induction false} WokenInOrder(prio: Priority, s: Sem, run: seq<Step>)
    requires Legal(prio, s, run)
    ensures var all, n := s.queue + Sleepers(prio, s, run), Woke(prio, s, run);
            n <= |all| && After(prio, s, run).queue == all[n..]
    decreases |run|
  {
    if run == [] {
    } else {
      var s', rest := Next(prio, s, run[0]), run[1..];
      WokenInOrder(prio, s', rest);
      var come := if run[0].P? && s.value == 0 then [run[0].t] else [];
      var gone := if run[0].V? && s.queue != [] then 1 else 0;
      InTurn(s.queue, come, gone, s'.queue, Sleepers(prio, s', rest), Woke(prio, s', rest), After(prio, s', rest).queue);
    }
  }

  lemma InitConsistent(threads: set<Tid>, initialValue: nat)
    ensures Consistent(Init(threads, initialValue)) && Promised(Init(threads, initialValue))
  {
  }

  // No wake-up is lost: while somebody sleeps, there are as many woken threads on their way as
  // the value allows to pass.
  ghost predicate Promised(s: Sem)
  {
    s.queue != [] ==> s.value <= |At(s, Woken)|
  }

  // A thread moved to or from a set of threads.
  lemma AtMoved(s: Sem, t: Tid, pc: Pc)
    requires t in s.pc
    ensures forall q :: At(s.(pc := s.pc[t := pc]), q) == if q == pc then At(s, q) + {t} else At(s, q) - {t}
  {
  }

  // A step keeps the promise unless it is a V that yields to the thread it woke, or the rest of one.
  lemma StepPromised(prio: Priority, s: Sem, a: Step)
    requires Consistent(s) && Promised(s) && Enabled(s, a) && !a.FinishV?
    requires a.V? ==> !Outranked(prio, s, a.t)
    ensures Promised(Next(prio, s, a))
  {
    var s' := Next(prio, s, a);
    match a
    case P(t) =>
      AtMoved(s, t, if s.value == 0 then Asleep else Out);
      assert At(s', Woken) == At(s, Woken) - {t};
    case V(t) =>
      if s.queue != [] {
        AtMoved(s, s.queue[0], Woken);
        assert At(s', Woken) == At(s, Woken) + {s.queue[0]};
      }
  }

  // No V yields: for instance when all priorities are equal.
  predicate NeverOutranked(prio: Priority, s: Sem, run: seq<Step>)
    requires Legal(prio, s, run)
    decreases |run|
  {
    run == [] || ((run[0].V? ==> !Outranked(prio, s, run[0].t)) && NeverOutranked(prio, Next(prio, s, run[0]), run[1..]))
  }

  predicate NobodyAt(s: Sem, pc: Pc)
  {
    forall t :: t in s.pc ==> s.pc[t] != pc
  }

  lemma {:induction false} NoLostWakeUp(prio: Priority, s: Sem, run: seq<Step>)
    requires Consistent(s) && Promised(s) && NobodyAt(s, InV) && Legal(prio, s, run) && NeverOutranked(prio, s, run)
    ensures Promised(After(prio, s, run))
    decreases |run|
  {
    if run == [] {
    } else {
      StepConsistent(prio, s, run[0]);
      StepPromised(prio, s, run[0]);
      NoLostWakeUp(prio, Next(prio, s, run[0]), run[1..]);
    }
  }

  lemma EqualPriorities(prio: Priority, s: Sem, run: seq<Step>)
    requires Legal(prio, s, run) && forall t, u :: prio(t) == prio(u)
    ensures NeverOutranked(prio, s, run)
    decreases |run|
  {
    if run == [] {
    } else {
      EqualPriorities(prio, Next(prio, s, run[0]), run[1..]);
    }
  }

  // When nobody is on the way, priorities decide whether a V can be lost: if the first sleeper
  // outranks the signaller, it can test the value too early and go back to sleep for good.
  lemma LostWakeUp(prio: Priority, s: Sem, t: Tid)
    requires Consistent(s) && s.value == 0 && s.queue != [] && NobodyAt(s, Woken) && Enabled(s, V(t))
    ensures Outranked(prio, s, t) ==>
              var w := s.queue[0];
              var run := [V(t), P(w), FinishV(t)];
              Legal(prio, s, run) && var s' := After(prio, s, run); s'.value == 1 && s'.queue == s.queue[1..] + [w] && !Promised(s')
    ensures !Outranked(prio, s, t) ==> Promised(Next(prio, s, V(t)))
  {
    if Outranked(prio, s, t) {
      var w := s.queue[0];
      var s1 := Next(prio, s, V(t));
      var s2 := Next(prio, s1, P(w));
      var s3 := Next(prio, s2, FinishV(t));
      assert [V(t), P(w), FinishV(t)][1..] == [P(w), FinishV(t)] && [P(w), FinishV(t)][1..] == [FinishV(t)];
      assert Legal(prio, s3, []) && After(prio, s3, []) == s3;
      assert Legal(prio, s2, [FinishV(t)]) && After(prio, s2, [FinishV(t)]) == s3;
      assert Legal(prio, s1, [P(w), FinishV(t)]) && After(prio, s1, [P(w), FinishV(t)]) == s3;
      assert After(prio, s, [V(t), P(w), FinishV(t)]) == s3;
      assert NobodyAt(s3, Woken);
      assert At(s3, Woken) == {};
    } else {
      StepPromised(prio, s, V(t));
    }
  }
}

/** Lock (code/threads/synch.cc:102-128): a semaphore of value one and the number of the owner. */
module Locks {
  import opened Threads
  import opened Semaphores

  datatype Lock = Lock(mutex: Sem, ownerId: int)

  datatype LockStep = Acquire(t: Tid) | Release(t: Tid) | Resume(t: Tid)

  function SemStep(a: LockStep): Step
  {
    match a case Acquire(t) => P(t) case Release(t) => V(t) case Resume(t) => FinishV(t)
  }

  predicate CanStep(l: Lock, a: LockStep)
  {
    Enabled(l.mutex, SemStep(a))
  }

  // ASSERT(isHeldByCurrentThread())
  predicate Sound(l: Lock, a: LockStep)
  {
    a.Release? ==> l.ownerId == a.t
  }

  function LockNext(prio: Priority, l: Lock, a: LockStep): Lock
    requires CanStep(l, a)
  {
    var mutex := Next(prio, l.mutex, SemStep(a));
    match a
    case Acquire(t) => if l.mutex.value == 0 then l.(mutex := mutex) else Lock(mutex, t)
    case Release(t) => Lock(mutex, -1)
    case Resume(t) => l.(mutex := mutex)
  }

  // The threads whose Acquire has returned and that have not called Release since.
  function Holding(l: Lock, held: set<Tid>, a: LockStep): set<Tid>
    requires CanStep(l, a)
  {
    match a
    case Acquire(t) => if l.mutex.value > 0 then held + {t} else held
    case Release(t) => held - {t}
    case Resume(_) => held
  }

  // The threads call Release only while they hold the lock.
  predicate LockLegal(prio: Priority, l: Lock, held: set<Tid>, run: seq<LockStep>)
    decreases |run|
  {
    run == [] ||
    (CanStep(l, run[0]) && (run[0].Release? ==> run[0].t in held) &&
     LockLegal(prio, LockNext(prio, l, run[0]), Holding(l, held, run[0]), run[1..]))
  }

  function LockAfter(prio: Priority, l: Lock, held: set<Tid>, run: seq<LockStep>): Lock
    requires LockLegal(prio, l, held, run)
    decreases |run|
  {
    if run == [] then l else LockAfter(prio, LockNext(prio, l, run[0]), Holding(l, held, run[0]), run[1..])
  }

  function Holders(prio: Priority, l: Lock, held: set<Tid>, run: seq<LockStep>): set<Tid>
    requires LockLegal(prio, l, held, run)
    decreases |run|
  {
    if run == [] then held else Holders(prio, LockNext(prio, l, run[0]), Holding(l, held, run[0]), run[1..])
  }

  function LockInit(threads: set<Tid>): Lock { Lock(Init(threads, 1), -1) }

  // The one unit is in the semaphore, with a holder, or about to be given back.
  ghost predicate Exclusive(l: Lock, held: set<Tid>)
  {
    && Consistent(l.mutex)
    && l.mutex.value + |held| + |At(l.mutex, InV)| == 1
    && held == if l.ownerId < 0 then {} else {l.ownerId}
  }

  lemma StepExclusive(prio: Priority, l: Lock, held: set<Tid>, a: LockStep)
    requires Exclusive(l, held) && CanStep(l, a) && (a.Release? ==> a.t in held)
    ensures Sound(l, a) && Exclusive(LockNext(prio, l, a), Holding(l, held, a))
  {
    hide Consistent;
    hide At;
    StepConsistent(prio, l.mutex, SemStep(a));
    ValueNatural(l.mutex);
    match a
    case Acquire(t) => AcquireMoves(l.mutex, t, if l.mutex.value == 0 then Asleep else Out);
    case Release(t) => ReleaseMoves(prio, l.mutex, t);
    case Resume(t) => ResumeMoves(l.mutex, t);
  }

  lemma AcquireMoves(s: Sem, t: Tid, pc: Pc)
    requires t in s.pc && s.pc[t] != InV && pc != InV
    ensures At(s.(pc := s.pc[t := pc]), InV) == At(s, InV)
    ensures forall s': Sem :: s'.pc == s.pc[t := pc] ==> At(s', InV) == At(s, InV)
  {
    AtMoved(s, t, pc);
  }

  lemma ResumeMoves(s: Sem, t: Tid)
    requires t in s.pc && s.pc[t] == InV
    ensures forall s': Sem :: s'.pc == s.pc[t := Out] ==> |At(s', InV)| == |At(s, InV)| - 1
  {
    AtMoved(s, t, Out);
    assert t in At(s, InV);
    forall s': Sem | s'.pc == s.pc[t := Out] ensures |At(s', InV)| == |At(s, InV)| - 1 {
      assert At(s', InV) == At(s, InV) - {t};
    }
  }

  lemma ReleaseMoves(prio: Priority, s: Sem, t: Tid)
    requires Consistent(s) && Enabled(s, V(t))
    ensures |At(Next(prio, s, V(t)), InV)| == |At(s, InV)| + (if Outranked(prio, s, t) then 1 else 0)
  {
    var s' := Next(prio, s, V(t));
    assert t !in At(s, InV);
    if s.queue != [] {
      QueueAsleep(s);
      if Outranked(prio, s, t) {
        assert At(s', InV) == At(s, InV) + {t};
      } else {
        assert At(s', InV) == At(s, InV);
      }
    } else {
      assert At(s', InV) == At(s, InV);
    }
  }

  lemma ValueNatural(s: Sem)
    requires Consistent(s)
    ensures s.value >= 0
  {
  }

  lemma QueueAsleep(s: Sem)
    requires Consistent(s) && s.queue != []
    ensures s.queue[0] in s.pc && s.pc[s.queue[0]] == Asleep && s.queue[0] !in At(s, InV)
  {
  }

  // In every run, whatever the priorities: never two holders, the owner is the holder, and a holder
  // that releases does not fail the ASSERT.
  lemma {:induction false} MutualExclusion(prio: Priority, l: Lock, held: set<Tid>, run: seq<LockStep>)
    requires Exclusive(l, held) && LockLegal(prio, l, held, run)
    ensures var l', held' := LockAfter(prio, l, held, run), Holders(prio, l, held, run);
            && Exclusive(l', held') && |held'| <= 1 && (forall t: Tid :: t in held' <==> l'.ownerId == t)
            && forall t: Tid :: t in held' ==> Sound(l', Release(t))
    decreases |run|
  {
    if run == [] {
      ValueNatural(l.mutex);
    } else {
      StepExclusive(prio, l, held, run[0]);
      MutualExclusion(prio, LockNext(prio, l, run[0]), Holding(l, held, run[0]), run[1..]);
    }
  }

  // A lock that nobody has, or is about to give back, can be had.
  lemma Obtainable(prio: Priority, l: Lock, held: set<Tid>, t: Tid)
    requires Exclusive(l, held) && held == {} && At(l.mutex, InV) == {} && t in l.mutex.pc && l.mutex.pc[t] == Out
    ensures CanStep(l, Acquire(t)) && Holding(l, held, Acquire(t)) == {t} && LockNext(prio, l, Acquire(t)).ownerId == t
  {
  }

  lemma InitExclusive(threads: set<Tid>)
    ensures Exclusive(LockInit(threads), {})
  {
    assert At(LockInit(threads).mutex, InV) == {};
  }
}
