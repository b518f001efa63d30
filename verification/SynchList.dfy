/** SynchList::Append and Remove (code/threads/synchlist.cc:53-82): a linked list (code/threads/list.cc:77-90
    and 222-245) under a lock with a condition on which the consumers wait (code/threads/synch.cc:136-168), as
    steps of any number of threads in any order.  A step reads the list or writes one pointer of it, so it is
    the lock alone that keeps two threads from linking behind the same element.  P and V are atomic, so
    releasing the lock and going to sleep in Condition::Wait is one step. */
module SynchLists {
  import opened Threads

  // An element: its item and the element after it, NULL for the last one.
  datatype Cell<T> = Cell(item: T, next: int)

  const NULL := -1

  datatype Item<T> = Nothing | Just(value: T)

  // Where a thread is: outside; in Append with the lock, about to test the list, about to write `first`,
  // `last->next` and `last`, about to signal, about to release the lock; in Remove with the lock, about to
  // test the list, to take the first element, to write `last`, to check the item; asleep on the condition;
  // signalled and in need of the lock.
  datatype Place<T> =
    | Idle
    | Appending(x: T) | SettingFirst(e: nat) | SettingNext(e: nat) | SettingLast(e: nat) | Appended | Leaving
    | Testing | Taking | Clearing(item: T) | Taken(got: Item<T>)
    | Waiting | Signalled

  // The elements by address, `first` and `last`; and for the record the elements that are linked,
  // in order.
  datatype Chain<T> = Chain(cells: seq<Cell<T>>, first: int, last: int, order: seq<nat>)

  datatype Monitor<T> = Monitor(c: Chain<T>, holder: set<Tid>, waiting: seq<Tid>, at: map<Tid, Place<T>>)

  datatype Action<T> = CallAppend(t: Tid, x: T) | CallRemove(t: Tid) | Continue(t: Tid)

  predicate CanAct<T(==)>(m: Monitor<T>, a: Action<T>)
  {
    a.t in m.at &&
    match a
    case CallAppend(t, x) => m.at[t] == Idle && m.holder == {}
    case CallRemove(t) => m.at[t] == Idle && m.holder == {}
    case Continue(t) =>
      match m.at[t]
      case Idle => false
      case Waiting => false
      case Signalled => m.holder == {}
      case _ => true
  }

  datatype Move<T> = Move(c: Chain<T>, p: Place<T>)

  // What a thread at place p does to the list, and where it is then.  A pointer that leads
  // nowhere is followed no further.
  function Moved<T>(c: Chain<T>, p: Place<T>): Move<T>
  {
    match p
    case Appending(x) =>
      var e := |c.cells|;
      Move(c.(cells := c.cells + [Cell(x, NULL)]), if c.first == NULL then SettingFirst(e) else SettingNext(e))
    case SettingFirst(e) => Move(c.(first := e, order := c.order + [e]), SettingLast(e))
    case SettingNext(e) =>
      var cells := if 0 <= c.last < |c.cells| then c.cells[c.last := c.cells[c.last].(next := e)] else c.cells;
      Move(c.(cells := cells, order := c.order + [e]), SettingLast(e))
    case SettingLast(e) => Move(c.(last := e), Appended)
    case Testing => Move(c, Taking)
    case Taking =>
      if 0 <= c.first < |c.cells| then
        var cell := c.cells[c.first];
        var c' := c.(order := if c.order == [] then [] else c.order[1..]);
        if c.first == c.last then Move(c'.(first := NULL), Clearing(cell.item))
        else Move(c'.(first := cell.next), Taken(Just(cell.item)))
      else Move(c, Taken(Nothing))
    case Clearing(item) => Move(c.(last := NULL), Taken(Just(item)))
    case _ => Move(c, p)
  }

  // One step: acquire the lock; signal; release; wait; or a step on the list.
  function Acted<T>(m: Monitor<T>, a: Action<T>): Monitor<T>
    requires CanAct(m, a)
  {
    match a
    case CallAppend(t, x) => m.(holder := {t}, at := m.at[t := Appending(x)])
    case CallRemove(t) => m.(holder := {t}, at := m.at[t := Testing])
    case Continue(t) =>
      var p := m.at[t];
      if p.Signalled? then m.(holder := {t}, at := m.at[t := Testing])
      else if p.Leaving? || p.Taken? then m.(holder := {}, at := m.at[t := Idle])
      else if p.Appended? then
        if m.waiting == [] then m.(at := m.at[t := Leaving])
        else m.(waiting := m.waiting[1..], at := m.at[m.waiting[0] := Signalled][t := Leaving])
      else if p.Testing? && m.c.first == NULL then
        m.(holder := {}, waiting := m.waiting + [t], at := m.at[t := Waiting])
      else
        var next := Moved(m.c, p);
        m.(c := next.c, at := m.at[t := next.p])
  }

  predicate Acts<T(==)>(m: Monitor<T>, run: seq<Action<T>>)
    decreases |run|
  {
    run == [] || (CanAct(m, run[0]) && Acts(Acted(m, run[0]), run[1..]))
  }

  function Result<T>(m: Monitor<T>, run: seq<Action<T>>): Monitor<T>
    requires Acts(m, run)
    decreases |run|
  {
    if run == [] then m else Result(Acted(m, run[0]), run[1..])
  }

  function Empty<T>(threads: set<Tid>): Monitor<T>
  {
    Monitor(Chain([], NULL, NULL, []), {}, [], map t | t in threads :: Idle)
  }

  predicate Locked<T>(p: Place<T>) { !p.Idle? && !p.Waiting? && !p.Signalled? }

  // The threads that will see to an item: signalled consumers, a producer that has yet to
  // signal, a consumer that has yet to take.
  predicate SeesTo<T>(p: Place<T>) { p.Signalled? || p.SettingLast? || p.Appended? || p.Testing? || p.Taking? }

  function Seeing<T>(at: map<Tid, Place<T>>): set<Tid> { set t | t in at && SeesTo(at[t]) }

  function SignalledThreads<T>(m: Monitor<T>): set<Tid> { set t | t in m.at && m.at[t].Signalled? }

  // ASSERT(item != NULL)
  ghost predicate Sound<T>(m: Monitor<T>)
  {
    forall t :: t in m.at && m.at[t].Taken? ==> m.at[t].got.Just?
  }

  // One thread at a time.
  ghost predicate Exclusive<T>(m: Monitor<T>)
  {
    && |m.holder| <= 1 && m.holder <= m.at.Keys
    && forall t :: t in m.at ==> (t in m.holder <==> Locked(m.at[t]))
  }

  // The condition's queue holds the waiting threads, each once.
  ghost predicate Queued<T>(m: Monitor<T>)
  {
    && (forall i :: 0 <= i < |m.waiting| ==> m.waiting[i] in m.at && m.at[m.waiting[i]] == Waiting)
    && (forall i, j :: 0 <= i < j < |m.waiting| ==> m.waiting[i] != m.waiting[j])
  }

  // The address at position i of the list, NULL from its end on.
  function At(order: seq<nat>, i: nat): int { if i < |order| then order[i] else NULL }

  predicate Increasing(order: seq<nat>)
  {
    forall i, j :: 0 <= i < j < |order| ==> order[i] < order[j]
  }

  lemma IncreasingMore(order: seq<nat>, e: nat)
    requires Increasing(order) && forall i :: 0 <= i < |order| ==> order[i] < e
    ensures Increasing(order + [e])
  {
  }

  // `first` and the next pointers lead through the elements on record, and no further.
  predicate Chained<T>(c: Chain<T>)
  {
    && c.first == At(c.order, 0)
    && (forall i :: 0 <= i < |c.order| ==> c.order[i] < |c.cells|)
    && Increasing(c.order)
    && (forall i {:trigger c.cells[c.order[i]]} :: 0 <= i < |c.order| ==> c.cells[c.order[i]].next == At(c.order, i + 1))
  }

  // What a thread at place p has made of the list.
  predicate Halfway<T>(c: Chain<T>, p: Place<T>)
  {
    match p
    case SettingFirst(e) => Spare(c, e) && c.order == []
    case SettingNext(e) => Spare(c, e) && c.order != []
    case SettingLast(e) => c.order != [] && c.order[|c.order| - 1] == e
    case Clearing(_) => c.order == []
    case Taking => c.order != []
    case Taken(got) => got.Just?
    case _ => true
  }

  // Element e is not linked yet.
  predicate Spare<T>(c: Chain<T>, e: nat)
  {
    e < |c.cells| && c.cells[e].next == NULL && forall i :: 0 <= i < |c.order| ==> c.order[i] < e
  }

  // The items on the list, as the elements hold them.
  function Items<T>(c: Chain<T>): seq<T>
    requires Chained(c)
  {
    seq(|c.order|, i requires 0 <= i < |c.order| => c.cells[c.order[i]].item)
  }

  // The items on their way through the list when a thread at place p is the only one inside: the one it
  // has taken, those on the list, the one it has yet to link.
  function Flow<T>(c: Chain<T>, p: Place<T>): seq<T>
    requires Chained(c)
  {
    (match p case Clearing(item) => [item] case Taken(Just(item)) => [item] case _ => [])
    + Items(c)
    + (match p
       case Appending(x) => [x]
       case SettingFirst(e) => if e < |c.cells| then [c.cells[e].item] else []
       case SettingNext(e) => if e < |c.cells| then [c.cells[e].item] else []
       case _ => [])
  }

  // The list when a thread at place p is the only one inside.
  ghost predicate Fits<T>(c: Chain<T>, p: Place<T>)
  {
    && Chained(c) && Halfway(c, p)
    && (!p.SettingLast? && !p.Clearing? ==> c.last == if c.order == [] then NULL else c.order[|c.order| - 1])
  }

  ghost predicate Orderly<T>(m: Monitor<T>)
  {
    && Exclusive(m) && Queued(m) && (m.holder == {} ==> Fits(m.c, Idle))
    && forall t :: t in m.at && t in m.holder ==> Fits(m.c, m.at[t])
  }

  // While threads wait, every item on the list is seen to.
  predicate Attended<T>(m: Monitor<T>)
  {
    m.waiting != [] ==> |m.c.order| <= |Seeing(m.at)|
  }

  lemma NewFits<T>(c: Chain<T>, x: T)
    requires Fits(c, Appending(x))
    ensures var move := Moved(c, Appending(x)); Fits(move.c, move.p) && Flow(move.c, move.p) == Flow(c, Appending(x))
  {
    assert Items(Moved(c, Appending(x)).c) == Items(c);
  }

  lemma FirstFits<T>(c: Chain<T>, e: nat)
    requires Fits(c, SettingFirst(e))
    ensures var move := Moved(c, SettingFirst(e)); Fits(move.c, move.p) && Flow(move.c, move.p) == Flow(c, SettingFirst(e))
  {
    assert Items(Moved(c, SettingFirst(e)).c) == [c.cells[e].item];
  }

  lemma NextChained<T>(c: Chain<T>, e: nat, c': Chain<T>)
    requires Chained(c) && c.order != [] && Spare(c, e) && c.last == c.order[|c.order| - 1]
    requires c'.cells == c.cells[c.last := c.cells[c.last].(next := e)]
    requires c'.order == c.order + [e] && c'.first == c.first
    ensures Chained(c') && Items(c') == Items(c) + [c.cells[e].item]
  {
    IncreasingMore(c.order, e);
    LastDiffers(c.order);
    hide Increasing;
    forall i | 0 <= i < |c'.order|
      ensures c'.order[i] < |c'.cells| && c'.cells[c'.order[i]].next == At(c'.order, i + 1)
      ensures c'.cells[c'.order[i]].item == c.cells[c'.order[i]].item
    {
      if i < |c.order| { assert c.cells[c.order[i]].next == At(c.order, i + 1); }
    }
  }

  lemma LastDiffers(order: seq<nat>)
    requires Increasing(order) && order != []
    ensures forall i :: 0 <= i < |order| - 1 ==> order[i] != order[|order| - 1]
  {
  }

  lemma NextFits<T>(c: Chain<T>, e: nat)
    requires Fits(c, SettingNext(e))
    ensures var move := Moved(c, SettingNext(e)); Fits(move.c, move.p) && Flow(move.c, move.p) == Flow(c, SettingNext(e))
  {
    hide Chained;
    hide Items;
    EndsAre(c);
    NextChained(c, e, Moved(c, SettingNext(e)).c);
  }

  // Where a list that is not empty begins and ends.
  lemma EndsAre<T>(c: Chain<T>)
    requires Chained(c) && c.order != []
    ensures c.first == c.order[0] < |c.cells| && c.order[|c.order| - 1] < |c.cells|
    ensures c.order[0] == c.order[|c.order| - 1] <==> |c.order| == 1
  {
  }

  lemma RestChained<T>(c: Chain<T>, c': Chain<T>)
    requires Chained(c) && c.order != [] && c'.cells == c.cells && c'.order == c.order[1..]
    requires c'.first == c.cells[c.order[0]].next
    ensures Chained(c') && Items(c) == [c.cells[c.order[0]].item] + Items(c')
  {
    assert forall i :: 0 <= i < |c'.order| ==> c'.order[i] == c.order[i + 1];
  }

  lemma TakingFits<T>(c: Chain<T>)
    requires Fits(c, Taking)
    ensures var move := Moved(c, Taking); Fits(move.c, move.p) && Locked(move.p) && Flow(move.c, move.p) == Flow(c, Taking)
  {
    hide Chained;
    hide Items;
    EndsAre(c);
    var c' := Moved(c, Taking).c;
    if |c.order| == 1 { OnlyOne(c); }
    RestChained(c, c');
  }

  lemma OnlyOne<T>(c: Chain<T>)
    requires Chained(c) && |c.order| == 1 && c.order[0] < |c.cells|
    ensures c.cells[c.order[0]].next == NULL
  {
  }

  // A thread that is alone in there leaves the list as it has to be for the next step, and no item is lost,
  // added or moved out of turn.
  lemma MovedFits<T>(c: Chain<T>, p: Place<T>)
    requires Fits(c, p) && Locked(p) && (p.Testing? ==> c.first != NULL)
    ensures var move := Moved(c, p); Fits(move.c, move.p) && Locked(move.p) && Flow(move.c, move.p) == Flow(c, p)
  {
    match p
    case Appending(x) => NewFits(c, x);
    case SettingFirst(e) => FirstFits(c, e);
    case SettingNext(e) => NextFits(c, e);
    case Taking => TakingFits(c);
    case SettingLast(e) => LastFits(c, p, e);
    case Clearing(item) => LastFits(c, p, NULL);
    case _ =>
  }

  // Writing `last` does not matter to the chain.
  lemma LastFits<T>(c: Chain<T>, p: Place<T>, last: int)
    requires Fits(c, p) && (p.SettingLast? || p.Clearing?) && last == if p.SettingLast? then p.e else NULL
    ensures var move := Moved(c, p); Fits(move.c, move.p) && Locked(move.p) && Flow(move.c, move.p) == Flow(c, p)
  {
    hide Chained;
    hide Items;
    SameChain(c, c.(last := last));
  }

  lemma SameChain<T>(c: Chain<T>, c': Chain<T>)
    requires Chained(c) && c' == c.(last := c'.last)
    ensures Chained(c') && Items(c') == Items(c)
  {
  }

  // Two threads that link at once, both having found the list not empty: the first element is lost.
  lemma TwoAtOnce<T>(c: Chain<T>, e: nat, f: nat)
    requires Fits(c, SettingNext(e)) && Spare(c, f) && e != f
    ensures !Chained(Moved(Moved(c, SettingNext(e)).c, SettingNext(f)).c)
  {
    var n := |c.order|;
    var c1 := Moved(c, SettingNext(e)).c;
    var c2 := Moved(c1, SettingNext(f)).c;
    assert c.order[n - 1] < |c.cells| && c1.last == c.order[n - 1] == c2.order[n - 1];
    assert c2.cells[c2.order[n - 1]].next == f && At(c2.order, n) == e;
  }

  // Mutual exclusion: nobody else is inside.
  lemma HolderAlone<T>(m: Monitor<T>, t: Tid)
    requires Exclusive(m) && t in m.at && Locked(m.at[t])
    ensures m.holder == {t} && forall u :: u in m.at && u != t ==> !Locked(m.at[u])
  {
    assert t in m.holder;
    forall u | u in m.holder ensures u == t {
      SubsetSmall({u, t}, m.holder);
    }
  }

  lemma SubsetSmall(a: set<Tid>, b: set<Tid>)
    requires a <= b
    ensures |a| <= |b|
  {
    assert b == a + (b - a);
  }

  lemma ActExclusive<T>(m: Monitor<T>, a: Action<T>)
    requires Exclusive(m) && Queued(m) && CanAct(m, a)
    requires a.Continue? && Locked(m.at[a.t]) && !Apart(m, m.at[a.t]) ==> Locked(Moved(m.c, m.at[a.t]).p)
    ensures Exclusive(Acted(m, a)) && Queued(Acted(m, a))
  {
    hide Moved;
    if Locked(m.at[a.t]) { HolderAlone(m, a.t); }
    if a.Continue? && m.at[a.t].Appended? && m.waiting != [] {
      assert m.waiting[0] in m.at && m.at[m.waiting[0]] == Waiting;
    }
  }

  // Mutual exclusion makes the list as the thread inside has to find it, or as nobody left it.
  ghost predicate Fitting<T>(m: Monitor<T>)
  {
    && (m.holder == {} ==> Fits(m.c, Idle))
    && forall t :: t in m.at && t in m.holder ==> Fits(m.c, m.at[t])
  }

  lemma FittingNow<T>(m: Monitor<T>, t: Tid)
    requires t in m.at && m.holder <= {t} && Fits(m.c, if m.holder == {} then Idle else m.at[t])
    ensures Fitting(m)
  {
    hide Fits;
  }

  lemma CallFits<T>(m: Monitor<T>, a: Action<T>)
    requires CanAct(m, a) && !Locked(m.at[a.t]) && Fitting(m)
    ensures Fitting(Acted(m, a))
  {
    hide Moved;
    hide Fits;
    FitsPlain(m.c, Idle, Acted(m, a).at[a.t]);
    FittingNow(Acted(m, a), a.t);
  }

  lemma InsideFits<T>(m: Monitor<T>, t: Tid)
    requires Exclusive(m) && Fitting(m) && t in m.at && Locked(m.at[t])
    ensures CanAct(m, Continue(t)) && Fitting(Acted(m, Continue(t)))
    ensures !Apart(m, m.at[t]) ==> Locked(Moved(m.c, m.at[t]).p)
  {
    HolderAlone(m, t);
    var p := m.at[t];
    assert Fits(m.c, p);
    hide Exclusive;
    hide Fitting;
    if Apart(m, p) {
      TakenJust(m.c, p);
      FitsPlain(m.c, p, Idle);
      FitsPlain(m.c, p, Leaving);
    } else {
      MovedFits(m.c, p);
    }
    hide Moved;
    hide Fits;
    hide Flow;
    FittingNow(Acted(m, Continue(t)), t);
  }

  // The step is not one on the list.
  predicate Apart<T>(m: Monitor<T>, p: Place<T>)
  {
    p.Leaving? || p.Taken? || p.Appended? || (p.Testing? && m.c.first == NULL)
  }

  lemma TakenJust<T>(c: Chain<T>, p: Place<T>)
    requires Fits(c, p)
    ensures p.Taken? ==> p.got.Just?
  {
  }

  lemma ActOrderly<T>(m: Monitor<T>, a: Action<T>)
    requires Orderly(m) && CanAct(m, a)
    ensures Orderly(Acted(m, a))
  {
    assert Fitting(m);
    if Locked(m.at[a.t]) {
      InsideFits(m, a.t);
      assert a == Continue(a.t);
    } else {
      CallFits(m, a);
    }
    ActExclusive(m, a);
    hide Acted;
    hide CanAct;
    hide Fits;
    hide Exclusive;
    hide Queued;
  }

  // Places at which a thread has no part in the list.
  predicate Plain<T>(p: Place<T>)
  {
    p.Idle? || p.Appending? || p.Appended? || p.Leaving? || p.Testing? || p.Waiting? || p.Signalled? || (p.Taken? && p.got.Just?)
  }

  lemma FitsPlain<T>(c: Chain<T>, p: Place<T>, q: Place<T>)
    ensures Plain(p) && Plain(q) ==> (Fits(c, p) <==> Fits(c, q))
  {
    hide Chained;
  }

  lemma SeeingMoved<T>(at: map<Tid, Place<T>>, t: Tid, p: Place<T>)
    requires t in at
    ensures |Seeing(at[t := p])| == |Seeing(at)| + (if SeesTo(p) then 1 else 0) - (if SeesTo(at[t]) then 1 else 0)
  {
    var rest := Seeing(at) - {t};
    assert Seeing(at) == if SeesTo(at[t]) then rest + {t} else rest;
    assert Seeing(at[t := p]) == if SeesTo(p) then rest + {t} else rest;
  }

  // An item more is one more thread that sees to it, an item less one less.
  lemma MovedSees<T>(c: Chain<T>, p: Place<T>)
    requires Fits(c, p) && Locked(p) && !p.Appended? && !p.Leaving? && !p.Taken?
    ensures var move := Moved(c, p);
            var more := |move.c.order| - |c.order|;
            if SeesTo(p) && !SeesTo(move.p) then more == -1 else if !SeesTo(p) && SeesTo(move.p) then more == 1 else more == 0
  {
    if p.Taking? { assert c.order[0] < |c.cells|; }
  }

  lemma SignalAttended<T>(m: Monitor<T>, t: Tid)
    requires Queued(m) && Attended(m) && t in m.at && m.at[t].Appended? && m.waiting != []
    ensures Attended(m.(waiting := m.waiting[1..], at := m.at[m.waiting[0] := Signalled][t := Leaving]))
  {
    hide Seeing;
    var w := m.waiting[0];
    assert m.at[w] == Waiting;
    SeeingMoved(m.at, w, Signalled);
    SeeingMoved(m.at[w := Signalled], t, Leaving);
  }

  lemma ActAttended<T>(m: Monitor<T>, a: Action<T>)
    requires Orderly(m) && Attended(m) && CanAct(m, a)
    ensures Attended(Acted(m, a))
  {
    hide Seeing;
    var t, m' := a.t, Acted(m, a);
    var p := m.at[t];
    if a.Continue? && p.Appended? && m.waiting != [] {
      SignalAttended(m, t);
    } else {
      SeeingMoved(m.at, t, m'.at[t]);
      if Locked(p) && !p.Appended? && !p.Leaving? && !p.Taken? { MovedSees(m.c, p); }
      hide Moved;
      hide Fits;
      hide Queued;
    }
  }

  /* What goes in and what comes out, read off the run. */

  // The items of the calls of Append, in order.
  function Asked<T>(run: seq<Action<T>>): seq<T>
  {
    if run == [] then [] else AskedBy(run[0]) + Asked(run[1..])
  }

  function AskedBy<T>(a: Action<T>): seq<T> { if a.CallAppend? then [a.x] else [] }

  // The items that calls of Remove return, in order.
  function Handed<T>(m: Monitor<T>, run: seq<Action<T>>): seq<T>
    requires Acts(m, run)
    decreases |run|
  {
    if run == [] then [] else HandedBy(m, run[0]) + Handed(Acted(m, run[0]), run[1..])
  }

  function HandedBy<T>(m: Monitor<T>, a: Action<T>): seq<T>
    requires CanAct(m, a)
  {
    if a.Continue? && m.at[a.t].Taken? && m.at[a.t].got.Just? then [m.at[a.t].got.value] else []
  }

  // These items are on their way.
  ghost predicate Carries<T>(m: Monitor<T>, items: seq<T>)
  {
    && Chained(m.c) && (m.holder == {} ==> items == Items(m.c))
    && forall t :: t in m.at && t in m.holder ==> items == Flow(m.c, m.at[t])
  }

  // A thread that has no item of its own leaves it at what is on the list.
  lemma FlowAt<T>(c: Chain<T>, p: Place<T>)
    requires Chained(c)
    ensures p.Idle? || p.Appended? || p.Leaving? || p.Testing? ==> Flow(c, p) == Items(c)
    ensures p.Appending? ==> Flow(c, p) == Items(c) + [p.x]
    ensures p.Taken? && p.got.Just? ==> Flow(c, p) == [p.got.value] + Items(c)
  {
    hide Chained;
    hide Items;
  }

  // The lock is free, or the one thread inside is t.
  lemma CarriesNow<T>(m: Monitor<T>, t: Tid, items: seq<T>)
    requires Chained(m.c) && t in m.at && m.holder <= {t}
    requires items == if m.holder == {} then Items(m.c) else Flow(m.c, m.at[t])
    ensures Carries(m, items)
  {
    hide Chained;
    hide Items;
    hide Flow;
  }

  // What becomes of them: a call of Append puts its item behind them, the return of a Remove takes the first.
  function Carried<T>(m: Monitor<T>, a: Action<T>, items: seq<T>): seq<T>
    requires CanAct(m, a)
  {
    if a.CallAppend? then items + [a.x] else if a.Continue? && m.at[a.t].Taken? && items != [] then items[1..] else items
  }

  lemma CallCarries<T>(m: Monitor<T>, a: Action<T>, items: seq<T>)
    requires CanAct(m, a) && !Locked(m.at[a.t]) && Carries(m, items)
    ensures Carries(Acted(m, a), Carried(m, a, items))
  {
    hide Moved;
    var m' := Acted(m, a);
    FlowAt(m.c, m'.at[a.t]);
    hide Items;
    hide Flow;
    CarriesNow(m', a.t, Carried(m, a, items));
  }

  lemma InsideCarries<T>(m: Monitor<T>, t: Tid, items: seq<T>)
    requires Orderly(m) && t in m.at && Locked(m.at[t]) && Carries(m, items)
    ensures CanAct(m, Continue(t)) && Carries(Acted(m, Continue(t)), Carried(m, Continue(t), items))
    ensures m.at[t].Taken? ==> m.at[t].got.Just? && items != [] && items[0] == m.at[t].got.value
  {
    HolderAlone(m, t);
    var p := m.at[t];
    assert Fits(m.c, p) && items == Flow(m.c, p) && Chained(m.c);
    hide Orderly;
    hide Carries;
    hide Chained;
    hide Moved;
    TakenJust(m.c, p);
    hide Fits;
    if Apart(m, p) {
      ApartCarries(m, t, items);
    } else {
      MovedFits(m.c, p);
      FitsChained(Moved(m.c, p).c, Moved(m.c, p).p);
      hide Flow;
      CarriesNow(Acted(m, Continue(t)), t, items);
    }
  }

  lemma FitsChained<T>(c: Chain<T>, p: Place<T>)
    requires Fits(c, p)
    ensures Chained(c)
  {
    hide Chained;
  }

  lemma ApartCarries<T>(m: Monitor<T>, t: Tid, items: seq<T>)
    requires m.holder == {t} && t in m.at && Apart(m, m.at[t]) && Chained(m.c) && items == Flow(m.c, m.at[t])
    requires CanAct(m, Continue(t)) && (m.at[t].Taken? ==> m.at[t].got.Just?)
    ensures Carries(Acted(m, Continue(t)), Carried(m, Continue(t), items))
    ensures m.at[t].Taken? ==> items != [] && items[0] == m.at[t].got.value
  {
    hide Chained;
    FlowAt(m.c, m.at[t]);
    FlowAt(m.c, Leaving);
    hide Items;
    hide Flow;
    hide Moved;
    CarriesNow(Acted(m, Continue(t)), t, Carried(m, Continue(t), items));
  }

  lemma ActCarries<T>(m: Monitor<T>, a: Action<T>, items: seq<T>)
    requires Orderly(m) && CanAct(m, a) && Carries(m, items)
    ensures Orderly(Acted(m, a)) && Carries(Acted(m, a), Carried(m, a, items))
    ensures items + AskedBy(a) == HandedBy(m, a) + Carried(m, a, items)
  {
    hide Acted;
    hide Orderly;
    hide Carries;
    ActOrderly(m, a);
    if Locked(m.at[a.t]) {
      InsideCarries(m, a.t, items);
      assert a == Continue(a.t);
    } else {
      CallCarries(m, a, items);
    }
  }

  // In every run: no ASSERT fails; what Remove has returned, and then the items on their way, are those of
  // the calls of Append, in order; and when the lock is free, no thread waits unsignalled while there are
  // more items than signalled consumers.
  lemma {:induction false} FirstInFirstOut<T>(m: Monitor<T>, run: seq<Action<T>>, items: seq<T>) returns (items': seq<T>)
    requires Orderly(m) && Attended(m) && Acts(m, run) && Carries(m, items)
    ensures var m' := Result(m, run);
            && Orderly(m') && Attended(m') && Sound(m') && Carries(m', items') && items + Asked(run) == Handed(m, run) + items'
            && (m'.holder == {} && m'.waiting != [] ==> |m'.c.order| <= |SignalledThreads(m')|)
    decreases |run|
  {
    if run == [] {
      items' := items;
      SoundNow(m);
    } else {
      ActCarries(m, run[0], items);
      var items1 := Carried(m, run[0], items);
      ActAttended(m, run[0]);
      hide Acted;
      hide CanAct;
      hide Orderly;
      hide Attended;
      hide Carries;
      items' := FirstInFirstOut(Acted(m, run[0]), run[1..], items1);
      FlowOn(items, run[0], run, HandedBy(m, run[0]), items1, Handed(Acted(m, run[0]), run[1..]), items');
    }
  }

  lemma SoundNow<T>(m: Monitor<T>)
    requires Orderly(m) && Attended(m)
    ensures Sound(m) && (m.holder == {} && m.waiting != [] ==> |m.c.order| <= |SignalledThreads(m)|)
  {
    if m.holder == {} { assert Seeing(m.at) == SignalledThreads(m); }
  }

  lemma FlowOn<T>(items: seq<T>, a: Action<T>, run: seq<Action<T>>, handed: seq<T>, items1: seq<T>, rest: seq<T>, items': seq<T>)
    requires run != [] && a == run[0] && items + AskedBy(a) == handed + items1 && items1 + Asked(run[1..]) == rest + items'
    ensures items + Asked(run) == handed + rest + items'
  {
    var x, y := AskedBy(a), Asked(run[1..]);
    assert Asked(run) == x + y;
    hide Asked;
    assert items + (x + y) == (items + x) + y;
    assert handed + items1 + y == handed + (items1 + y);
    assert handed + (rest + items') == handed + rest + items';
  }

  // On a new list, what Remove returns is the first of what was appended, in order; and with the lock free
  // the rest is on the list.
  lemma PipeLine<T>(threads: set<Tid>, run: seq<Action<T>>)
    requires Acts(Empty(threads), run)
    ensures var m := Result(Empty(threads), run);
            && Handed(Empty(threads), run) <= Asked(run)
            && (m.holder == {} ==> Chained(m.c) && Asked(run) == Handed(Empty(threads), run) + Items(m.c))
  {
    EmptyOrderly<T>(threads);
    assert Carries<T>(Empty(threads), []);
    var items := FirstInFirstOut(Empty(threads), run, []);
    assert [] + Asked(run) == Asked(run);
  }

  /* No thread gets stuck inside, and consumers are signalled in turn. */

  // An upper bound for the steps a thread has to take.
  function StepsLeft<T>(p: Place<T>): nat
  {
    match p
    case Appending(_) => 5
    case SettingFirst(_) => 4
    case SettingNext(_) => 4
    case SettingLast(_) => 3
    case Appended => 2
    case Leaving => 1
    case Signalled => 5
    case Testing => 4
    case Taking => 3
    case Clearing(_) => 2
    case Taken(_) => 1
    case Idle => 0
    case Waiting => 0
  }

  // Who can take a step: the thread inside, and when there is none, any that calls or was signalled.  Each step
  // brings its thread nearer to returning or waiting, and moves nobody else but the one it signals.
  lemma GetsOn<T>(m: Monitor<T>, t: Tid, x: T)
    requires Orderly(m) && t in m.at
    ensures CanAct(m, Continue(t)) <==> Locked(m.at[t]) || (m.at[t].Signalled? && m.holder == {})
    ensures CanAct(m, CallAppend(t, x)) <==> m.at[t].Idle? && m.holder == {}
    ensures CanAct(m, CallRemove(t)) <==> m.at[t].Idle? && m.holder == {}
    ensures CanAct(m, CallRemove(t)) ==> Acted(m, CallRemove(t)).at == m.at[t := Testing]
    ensures CanAct(m, Continue(t)) ==>
              var m' := Acted(m, Continue(t));
              && t in m'.at && StepsLeft(m'.at[t]) < StepsLeft(m.at[t])
              && forall u :: u in m.at && u != t ==>
                   u in m'.at && (m'.at[u] == m.at[u] || (m.at[t].Appended? && u == m.waiting[0] && m'.at[u] == Signalled))
  {
  }

  // The threads that went to wait, in order, and how many were signalled.
  function Waits<T>(m: Monitor<T>, run: seq<Action<T>>): seq<Tid>
    requires Acts(m, run)
    decreases |run|
  {
    if run == [] then []
    else (if run[0].Continue? && m.at[run[0].t].Testing? && m.c.first == NULL then [run[0].t] else []) + Waits(Acted(m, run[0]), run[1..])
  }

  function Signals<T>(m: Monitor<T>, run: seq<Action<T>>): nat
    requires Acts(m, run)
    decreases |run|
  {
    if run == [] then 0
    else (if run[0].Continue? && m.at[run[0].t].Appended? && m.waiting != [] then 1 else 0) + Signals(Acted(m, run[0]), run[1..])
  }

  lemma ActWaiting<T>(m: Monitor<T>, a: Action<T>)
    requires CanAct(m, a)
    ensures Acted(m, a).waiting ==
              if a.Continue? && m.at[a.t].Testing? && m.c.first == NULL then m.waiting + [a.t]
              else if a.Continue? && m.at[a.t].Appended? && m.waiting != [] then m.waiting[1..] else m.waiting
  {
    hide Moved;
  }

  lemma {:induction false} SignalledInOrder<T>(m: Monitor<T>, run: seq<Action<T>>)
    requires Acts(m, run)
    ensures var all, n := m.waiting + Waits(m, run), Signals(m, run);
            n <= |all| && Result(m, run).waiting == all[n..]
    decreases |run|
  {
    if run == [] {
    } else {
      var m', rest := Acted(m, run[0]), run[1..];
      ActWaiting(m, run[0]);
      SignalledInOrder(m', rest);
      hide Acted;
      hide CanAct;
      var come := if run[0].Continue? && m.at[run[0].t].Testing? && m.c.first == NULL then [run[0].t] else [];
      var gone := if run[0].Continue? && m.at[run[0].t].Appended? && m.waiting != [] then 1 else 0;
      InTurn(m.waiting, come, gone, m'.waiting, Waits(m', rest), Signals(m', rest), Result(m', rest).waiting);
    }
  }

  lemma EmptyOrderly<T>(threads: set<Tid>)
    ensures Orderly<T>(Empty(threads)) && Attended<T>(Empty(threads))
  {
  }
}
