/** code/machine/interrupt.cc: the simulated clock and the sorted list of pending interrupts. */
module Interrupts {
  import opened Outcomes
  import opened Lists

  const USER_TICK := 1
  const SYSTEM_TICK := 10

  datatype MachineStatus = IdleMode | SystemMode | UserMode

  // A PendingInterrupt without its time; the handlers are arbitrary.
  datatype Pending = Pending(id: nat, isTimer: bool)

  // The handler of p was called at a time, for an interrupt scheduled for `when`.
  datatype Firing = Firing(time: int, when: int, p: Pending)

  // What a handler schedules: interrupts so many ticks from now.  Schedule asserts that this is positive.
  datatype Request = Request(p: Pending, fromNow: int)

  predicate Positive(rs: seq<Request>)
  {
    forall i :: 0 <= i < |rs| ==> rs[i].fromNow > 0
  }

  // The interrupts that are due at a time.
  function Due(s: seq<Item<Pending>>, now: int): nat
  {
    if s == [] then 0 else (if s[0].key <= now then 1 else 0) + Due(s[1..], now)
  }

  lemma {:induction false} DueAppend(a: seq<Item<Pending>>, b: seq<Item<Pending>>, now: int)
    ensures Due(a + b, now) == Due(a, now) + Due(b, now)
  {
    if a == [] {
      assert a + b == b;
    } else {
      DueAppend(a[1..], b, now);
      assert (a + b)[1..] == a[1..] + b;
    }
  }

  lemma DueInserted(s: seq<Item<Pending>>, e: Item<Pending>, now: int)
    ensures Due(Inserted(s, e), now) == Due(s, now) + (if e.key <= now then 1 else 0)
  {
    hide Place;
    var p := Place(s, e.key);
    DueAppend(s[..p], [e], now);
    DueAppend(s[..p] + [e], s[p..], now);
    DueAppend(s[..p], s[p..], now);
    assert s == s[..p] + s[p..];
    assert Due([e], now) == if e.key <= now then 1 else 0;
  }

  // Every handler was called at or after its time, in the order of the clock and in the order
  // of the times asked for; and everything that is still pending comes later.
  ghost predicate InOrder(fired: seq<Firing>, pending: seq<Item<Pending>>, now: int)
  {
    && (forall i :: 0 <= i < |fired| ==> fired[i].when <= fired[i].time <= now)
    && (forall i, j :: 0 <= i < j < |fired| ==> fired[i].time <= fired[j].time && fired[i].when <= fired[j].when)
    && (forall i, j :: 0 <= i < |fired| && 0 <= j < |pending| ==> fired[i].when <= pending[j].key)
  }

  lemma InsertedMembers(s: seq<Item<Pending>>, e: Item<Pending>)
    requires Sorted(s)
    ensures Sorted(Inserted(s, e)) && forall i :: 0 <= i < |Inserted(s, e)| ==> Inserted(s, e)[i] == e || Inserted(s, e)[i] in s
  {
    InsertedSorted(s, e);
    hide Place;
  }

  // Something is scheduled for later than everything that fired.
  lemma OrderAdded(fired: seq<Firing>, s: seq<Item<Pending>>, e: Item<Pending>, now: int)
    requires Sorted(s) && InOrder(fired, s, now) && now < e.key
    ensures Sorted(Inserted(s, e)) && InOrder(fired, Inserted(s, e), now)
  {
    InsertedMembers(s, e);
    hide Inserted;
  }

  // The first of the list is taken off and put back.
  lemma OrderPutBack(fired: seq<Firing>, s: seq<Item<Pending>>, now: int)
    requires Sorted(s) && InOrder(fired, s, now) && s != []
    ensures Sorted(Inserted(s[1..], s[0])) && InOrder(fired, Inserted(s[1..], s[0]), now)
    ensures Due(Inserted(s[1..], s[0]), now) == Due(s, now)
  {
    InsertedMembers(s[1..], s[0]);
    DueInserted(s[1..], s[0], now);
    hide Inserted;
  }

  lemma OrderFired(fired: seq<Firing>, s: seq<Item<Pending>>, now: int, now': int)
    requires Sorted(s) && InOrder(fired, s, now) && s != [] && now <= now' && s[0].key <= now'
    ensures Sorted(s[1..]) && InOrder(fired + [Firing(now', s[0].key, s[0].item)], s[1..], now') && Due(s, now') == Due(s[1..], now') + 1
  {
  }

  lemma OrderKept(fired: seq<Firing>, f: Firing, now: int)
    requires InOrder(fired + [f], [], now)
    ensures InOrder(fired, [Item(f.p, f.when)], now)
  {
    var all := fired + [f];
    assert all[|fired|] == f && forall i :: 0 <= i < |fired| ==> fired[i] == all[i];
  }

  lemma NothingDue(s: seq<Item<Pending>>, now: int)
    requires Sorted(s) && (s == [] || s[0].key > now)
    ensures Due(s, now) == 0
    decreases |s|
  {
    if s == [] {
    } else {
      NothingDue(s[1..], now);
    }
  }

  // Nothing is pending but the timer.
  predicate LastTimer(s: seq<Item<Pending>>)
  {
    |s| == 1 && s[0].item.isTimer
  }

  // The clock, when it may run on to the first interrupt.
  function NextTime(s: seq<Item<Pending>>, now: int): int
  {
    if s == [] then now else Max(now, s[0].key)
  }

  // An interrupt is there and its time has come, or is made to come; an idle machine does not
  // go on for the timer alone.
  predicate Fires(s: seq<Item<Pending>>, status: MachineStatus, now: int, advanceClock: bool)
  {
    s != [] && (advanceClock || s[0].key <= now) && !(status == IdleMode && LastTimer(s))
  }

  // The first is taken off and inserted again, behind others of its time.
  function PutBack(s: seq<Item<Pending>>): seq<Item<Pending>>
  {
    if s == [] then [] else Inserted(s[1..], s[0])
  }

  lemma InsertedAlone(s: seq<Item<Pending>>)
    requires |s| == 1
    ensures PutBack(s) == s
  {
  }

  class Interrupt {
    const pending: List<Pending>
    var level: bool                 // interrupts are enabled
    var status: MachineStatus
    var totalTicks: int
    var idleTicks: int
    var systemTicks: int
    var userTicks: int
    ghost var fired: seq<Firing>

    ghost predicate Valid()
      reads this, pending, pending.repr
    {
      && pending.Valid() && Sorted(pending.Contents()) && totalTicks == idleTicks + systemTicks + userTicks
      && InOrder(fired, pending.Contents(), totalTicks)
    }

    constructor ()
      ensures Valid() && fresh(pending) && totalTicks == 0 && fired == []
    {
      pending := new List();
      level, status, fired := false, SystemMode, [];
      totalTicks, idleTicks, systemTicks, userTicks := 0, 0, 0, 0;
    }

    method Schedule(p: Pending, fromNow: int)
      requires Valid() && fromNow > 0
      modifies pending, pending.repr
      ensures Valid() && fresh(pending.repr - old(pending.repr))
      ensures pending.Contents() == Inserted(old(pending.Contents()), Item(p, totalTicks + fromNow))
    {
      hide InOrder;
      hide Values;
      var when := totalTicks + fromNow;
      OrderAdded(fired, pending.Contents(), Item(p, when), totalTicks);
      pending.SortedInsert(p, when);
    }

    // Whatever a handler does with the clock interrupts: it schedules some, in the future.
    method Handle()
      requires Valid()
      modifies pending, pending.repr
      ensures Valid() && fresh(pending.repr - old(pending.repr))
      ensures Due(pending.Contents(), totalTicks) == old(Due(pending.Contents(), totalTicks))
    {
      assert Positive([]);
      var requests: seq<Request> :| Positive(requests);
      ScheduleAll(requests);
    }

    method ScheduleAll(requests: seq<Request>)
      requires Valid() && Positive(requests)
      modifies pending, pending.repr
      ensures Valid() && fresh(pending.repr - old(pending.repr))
      ensures Due(pending.Contents(), totalTicks) == old(Due(pending.Contents(), totalTicks))
    {
      hide InOrder;
      hide Values;
      hide Inserted;
      hide Due;
      for i := 0 to |requests|
        invariant Valid() && fresh(pending.repr - old(pending.repr))
        invariant Due(pending.Contents(), totalTicks) == old(Due(pending.Contents(), totalTicks))
      {
        var r := requests[i];
        DueInserted(pending.Contents(), Item(r.p, totalTicks + r.fromNow), totalTicks);
        Schedule(r.p, r.fromNow);
      }
    }

    method CheckIfDue(advanceClock: bool) returns (any: bool)
      requires Valid() && !level
      modifies this`status, this`totalTicks, this`idleTicks, this`fired, pending, pending.repr
      ensures Valid() && status == old(status) && fresh(pending.repr - old(pending.repr))
      ensures var s := old(pending.Contents());
              if any then s != [] && fired == old(fired) + [Firing(totalTicks, s[0].key, s[0].item)] else fired == old(fired)
      ensures any <==> Fires(old(pending.Contents()), status, old(totalTicks), advanceClock)
      ensures totalTicks == if advanceClock then NextTime(old(pending.Contents()), old(totalTicks)) else old(totalTicks)
      ensures idleTicks - old(idleTicks) == totalTicks - old(totalTicks)
      ensures !any ==> pending.Contents() == PutBack(old(pending.Contents()))
      ensures !advanceClock ==> Due(pending.Contents(), totalTicks) == old(Due(pending.Contents(), totalTicks)) - (if any then 1 else 0)
      ensures !advanceClock && !any ==> Due(pending.Contents(), totalTicks) == 0 || (status == IdleMode && LastTimer(pending.Contents()))
    {
      hide InOrder;
      hide Values;
      hide Inserted;
      hide Sorted;
      hide Due;
      ghost var s := pending.Contents();
      if s == [] || s[0].key > totalTicks { NothingDue(s, totalTicks); }
      var removed := pending.SortedRemove();
      if removed.None? { return false; }
      var toOccur, when := removed.value.item, removed.value.key;
      OrderPutBack(fired, s, totalTicks);
      ghost var before := totalTicks;
      if advanceClock && when > totalTicks {
        idleTicks := idleTicks + (when - totalTicks);
        totalTicks := when;
      } else if when > totalTicks {
        pending.SortedInsert(toOccur, when);
        return false;
      }
      OrderFired(fired, s, before, totalTicks);
      any := Occur(toOccur, when);
      if !any { assert s == [s[0]]; InsertedAlone(s); }
    }

    // An interrupt whose time has come occurs, but an idle machine puts the timer back when nothing else is pending.
    method Occur(p: Pending, when: int) returns (any: bool)
      requires pending.Valid() && Sorted(pending.Contents()) && totalTicks == idleTicks + systemTicks + userTicks
      requires InOrder(fired + [Firing(totalTicks, when, p)], pending.Contents(), totalTicks)
      modifies this`status, this`fired, pending, pending.repr
      ensures Valid() && status == old(status) && fresh(pending.repr - old(pending.repr))
      ensures any <==> !(status == IdleMode && p.isTimer && old(pending.Contents()) == [])
      ensures fired == if any then old(fired) + [Firing(totalTicks, when, p)] else old(fired)
      ensures !any ==> pending.Contents() == [Item(p, when)]
      ensures any ==> Due(pending.Contents(), totalTicks) == old(Due(pending.Contents(), totalTicks))
    {
      hide Due;
      hide Values;
      var empty := pending.IsEmpty();
      if status == IdleMode && p.isTimer && empty {
        OrderKept(fired, Firing(totalTicks, when, p), totalTicks);
        hide InOrder;
        pending.SortedInsert(p, when);
        return false;
      }
      hide InOrder;
      hide Sorted;
      Fire(p, when);
      return true;
    }

    method Fire(p: Pending, when: int)
      requires pending.Valid() && Sorted(pending.Contents()) && totalTicks == idleTicks + systemTicks + userTicks
      requires InOrder(fired + [Firing(totalTicks, when, p)], pending.Contents(), totalTicks)
      modifies this`status, this`fired, pending, pending.repr
      ensures Valid() && status == old(status) && fresh(pending.repr - old(pending.repr))
      ensures fired == old(fired) + [Firing(totalTicks, when, p)]
      ensures Due(pending.Contents(), totalTicks) == old(Due(pending.Contents(), totalTicks))
    {
      hide InOrder;
      hide Sorted;
      hide Due;
      hide Values;
      var was := status;
      status := SystemMode;
      fired := fired + [Firing(totalTicks, when, p)];
      Handle();
      status := was;
    }

    // Everything that is due is handled, whatever the handlers schedule meanwhile.
    method FireAll()
      requires Valid() && !level
      modifies this`status, this`totalTicks, this`idleTicks, this`fired, pending, pending.repr
      ensures Valid() && status == old(status) && totalTicks == old(totalTicks) && fresh(pending.repr - old(pending.repr))
      ensures idleTicks == old(idleTicks) && old(fired) <= fired && !level
      ensures Due(pending.Contents(), totalTicks) == 0 || (status == IdleMode && LastTimer(pending.Contents()))
    {
      hide InOrder;
      hide Sorted;
      hide Due;
      hide Values;
      var any := true;
      while any
        invariant Valid() && !level && status == old(status) && totalTicks == old(totalTicks) && idleTicks == old(idleTicks)
        invariant fresh(pending.repr - old(pending.repr)) && old(fired) <= fired
        invariant !any ==> Due(pending.Contents(), totalTicks) == 0 || (status == IdleMode && LastTimer(pending.Contents()))
        decreases Due(pending.Contents(), totalTicks), any
      {
        any := CheckIfDue(false);
      }
    }

    // One tick of the clock, after which nothing that is due is left, but the timer when idle.
    method OneTick()
      requires Valid() && level
      modifies this, pending, pending.repr
      ensures Valid() && level && status == old(status) && fresh(pending.repr - old(pending.repr)) && old(fired) <= fired
      ensures totalTicks == old(totalTicks) + (if status == SystemMode then SYSTEM_TICK else USER_TICK)
      ensures Due(pending.Contents(), totalTicks) == 0 || (status == IdleMode && LastTimer(pending.Contents()))
    {
      OrderLater(fired, pending.Contents(), totalTicks, totalTicks + (if status == SystemMode then SYSTEM_TICK else USER_TICK));
      hide InOrder;
      hide Sorted;
      hide Due;
      hide Values;
      if status == SystemMode {
        totalTicks, systemTicks := totalTicks + SYSTEM_TICK, systemTicks + SYSTEM_TICK;
      } else {
        totalTicks, userTicks := totalTicks + USER_TICK, userTicks + USER_TICK;
      }
      level := false;
      FireAll();
      level := true;
    }

    // The clock runs on to the next interrupt; false when there is none but the timer's.
    method Idle() returns (goesOn: bool)
      requires Valid() && !level
      modifies this, pending, pending.repr
      ensures Valid() && !level && fresh(pending.repr - old(pending.repr))
      ensures totalTicks == NextTime(old(pending.Contents()), old(totalTicks))
      ensures goesOn <==> old(pending.Contents()) != [] && !LastTimer(old(pending.Contents()))
      ensures goesOn ==> status == SystemMode && |fired| > old(|fired|)
      ensures !goesOn ==> fired == old(fired)
    {
      hide InOrder;
      hide Sorted;
      hide Due;
      hide Values;
      status := IdleMode;
      goesOn := CheckIfDue(true);
      if goesOn {
        FireAll();
        status := SystemMode;
      }
    }
  }

  lemma OrderLater(fired: seq<Firing>, s: seq<Item<Pending>>, now: int, now': int)
    requires InOrder(fired, s, now) && now <= now'
    ensures InOrder(fired, s, now')
  {
  }
}
