/** StartRead, EndRead, StartWrite and EndWrite on one header sector (code/filesys/synchdisk.cc:187-213), as steps
    of any number of threads in any order.  P waits until the semaphore is positive. */
module ReadersWriters {
  import opened Threads

  // Where a thread is between two accesses to shared variables.
  datatype Place =
    | Outside
    | Entered                   // StartRead, rCntMutex taken
    | First                     // readerCnt was 0: waits for RW
    | Cleared                   // may count itself in
    | Counted                   // readerCnt++ done
    | Reading
    | Leaving                   // EndRead, rCntMutex taken
    | Discounted                // readerCnt-- done
    | Leaver                    // RW given back, if it was the last
    | Writing

  datatype Shared = Shared(rCntMutex: int, rw: int, readerCnt: int, at: map<Tid, Place>)

  datatype Move = Go(t: Tid) | BeginWrite(t: Tid)

  predicate CanMove(s: Shared, a: Move)
  {
    a.t in s.at &&
    match a
    case BeginWrite(t) => s.at[t] == Outside && s.rw > 0
    case Go(t) =>
      match s.at[t]
      case Outside => s.rCntMutex > 0
      case First => s.rw > 0
      case Reading => s.rCntMutex > 0
      case _ => true
  }

  function Moved(s: Shared, a: Move): Shared
    requires CanMove(s, a)
  {
    match a
    case BeginWrite(t) => s.(rw := s.rw - 1, at := s.at[t := Writing])
    case Go(t) =>
      match s.at[t]
      case Outside => s.(rCntMutex := s.rCntMutex - 1, at := s.at[t := Entered])
      case Entered => s.(at := s.at[t := if s.readerCnt == 0 then First else Cleared])
      case First => s.(rw := s.rw - 1, at := s.at[t := Cleared])
      case Cleared => s.(readerCnt := s.readerCnt + 1, at := s.at[t := Counted])
      case Counted => s.(rCntMutex := s.rCntMutex + 1, at := s.at[t := Reading])
      case Reading => s.(rCntMutex := s.rCntMutex - 1, at := s.at[t := Leaving])
      case Leaving => s.(readerCnt := s.readerCnt - 1, at := s.at[t := Discounted])
      case Discounted => s.(rw := if s.readerCnt == 0 then s.rw + 1 else s.rw, at := s.at[t := Leaver])
      case Leaver => s.(rCntMutex := s.rCntMutex + 1, at := s.at[t := Outside])
      case Writing => s.(rw := s.rw + 1, at := s.at[t := Outside])
  }

  predicate Moves(s: Shared, run: seq<Move>)
    decreases |run|
  {
    run == [] || (CanMove(s, run[0]) && Moves(Moved(s, run[0]), run[1..]))
  }

  function Ends(s: Shared, run: seq<Move>): Shared
    requires Moves(s, run)
    decreases |run|
  {
    if run == [] then s else Ends(Moved(s, run[0]), run[1..])
  }

  function Start(threads: set<Tid>): Shared
  {
    Shared(1, 1, 0, map t | t in threads :: Outside)
  }

  // The threads at one of these places, and their number.
  function Who(at: map<Tid, Place>, places: set<Place>): set<Tid>
  {
    set t | t in at && at[t] in places
  }

  function Count(at: map<Tid, Place>, places: set<Place>): nat { |Who(at, places)| }

  lemma CountMoved(at: map<Tid, Place>, t: Tid, p: Place, places: set<Place>)
    requires t in at
    ensures Count(at[t := p], places)
         == Count(at, places) - (if at[t] in places then 1 else 0) + (if p in places then 1 else 0)
  {
    var before, after := Who(at, places), Who(at[t := p], places);
    if at[t] in places && p !in places {
      assert after == before - {t};
    } else if at[t] !in places && p in places {
      assert after == before + {t};
    } else {
      assert after == before;
    }
  }

  const HOLD_MUTEX := {Entered, First, Cleared, Counted, Leaving, Discounted, Leaver}
  const IN_COUNT := {Counted, Reading, Leaving}
  const HAVE_RW := {Cleared, Discounted}

  // Who has what: rCntMutex is with one thread or free, the readers counted in are those
  // inside, and RW is with a writer, with the readers together, or free.
  ghost predicate Shares(s: Shared)
  {
    && s.rCntMutex >= 0 && s.rCntMutex + Count(s.at, HOLD_MUTEX) == 1
    && s.readerCnt == Count(s.at, IN_COUNT)
    && s.rw >= 0 && s.rw + Count(s.at, {Writing}) + (if s.readerCnt > 0 || Count(s.at, HAVE_RW) > 0 then 1 else 0) == 1
    && (Count(s.at, {First}) > 0 ==> s.readerCnt == 0)
  }

  // A thread that is somewhere counts there.
  lemma CountsOne(at: map<Tid, Place>, t: Tid, places: set<Place>)
    requires t in at && at[t] in places
    ensures Count(at, places) > 0
  {
    assert t in Who(at, places);
  }

  lemma CountSubset(at: map<Tid, Place>, a: set<Place>, b: set<Place>)
    requires a <= b
    ensures Count(at, a) <= Count(at, b)
  {
    var x, y := Who(at, a), Who(at, b);
    assert y == x + (y - x);
  }

  // Disjoint groups of places, all within a third.
  lemma CountApart(at: map<Tid, Place>, a: set<Place>, b: set<Place>, c: set<Place>)
    requires a !! b && a <= c && b <= c
    ensures Count(at, a) + Count(at, b) <= Count(at, c)
  {
    var x, y, z := Who(at, a), Who(at, b), Who(at, c);
    assert x !! y && z == x + y + (z - x - y);
    assert |x + y| == |x| + |y|;
  }

  lemma MoveShares(s: Shared, a: Move)
    requires Shares(s) && CanMove(s, a)
    ensures Shares(Moved(s, a))
  {
    hide Count;
    var t, p := a.t, Moved(s, a).at[a.t];
    CountMoved(s.at, t, p, HOLD_MUTEX);
    CountMoved(s.at, t, p, IN_COUNT);
    CountMoved(s.at, t, p, HAVE_RW);
    CountMoved(s.at, t, p, {First});
    CountMoved(s.at, t, p, {Writing});
    CountsOne(s.at, t, {s.at[t]});
    CountApart(s.at, {First}, HAVE_RW, HOLD_MUTEX);
    if s.at[t] in HOLD_MUTEX { CountsOne(s.at, t, HOLD_MUTEX); }
    if s.at[t] in IN_COUNT { CountsOne(s.at, t, IN_COUNT); }
    if s.at[t] in HAVE_RW { CountsOne(s.at, t, HAVE_RW); }
    if s.at[t] != First && s.at[t] in HOLD_MUTEX { CountApart(s.at, {First}, {s.at[t]}, HOLD_MUTEX); }
    if s.at[t] !in HAVE_RW && s.at[t] in HOLD_MUTEX { CountApart(s.at, HAVE_RW, {s.at[t]}, HOLD_MUTEX); }
    assert Moved(s, a).at == s.at[t := p];
  }

  // In every run: at most one writer, no reader beside a writer, and readerCnt is the number
  // of readers once rCntMutex is free.
  lemma {:induction false} SafeAlways(s: Shared, run: seq<Move>)
    requires Shares(s) && Moves(s, run)
    ensures var s' := Ends(s, run);
            && Count(s'.at, {Writing}) <= 1
            && (Count(s'.at, {Writing}) == 1 ==> Count(s'.at, {Reading}) == 0)
            && (s'.rCntMutex > 0 ==> s'.readerCnt == Count(s'.at, {Reading}))
    decreases |run|
  {
    hide Count;
    if run == [] {
      CountSubset(s.at, {Reading}, IN_COUNT);
      OnlyReading(s);
    } else {
      MoveShares(s, run[0]);
      SafeAlways(Moved(s, run[0]), run[1..]);
    }
  }

  lemma OnlyReading(s: Shared)
    requires Shares(s)
    ensures s.rCntMutex > 0 ==> Count(s.at, IN_COUNT) == Count(s.at, {Reading})
  {
    var h := Who(s.at, HOLD_MUTEX);
    if s.rCntMutex > 0 {
      assert h == {};
      assert forall u :: u in s.at ==> s.at[u] !in HOLD_MUTEX by {
        assert forall u :: u in s.at && s.at[u] in HOLD_MUTEX ==> u in h;
      }
      assert Who(s.at, IN_COUNT) == Who(s.at, {Reading});
    }
  }

  // When a thread has to wait: a writer for readers and writers, the first reader for a writer, and a
  // reader that comes or goes for another one that does.
  lemma Waits(s: Shared, t: Tid)
    requires Shares(s) && t in s.at
    ensures CanMove(s, BeginWrite(t)) <==>
              s.at[t] == Outside && Count(s.at, {Writing}) == 0 && s.readerCnt == 0 && Count(s.at, HAVE_RW) == 0
    ensures CanMove(s, Go(t)) <==>
              (if s.at[t] == First then Count(s.at, {Writing}) == 0
               else s.at[t] == Outside || s.at[t] == Reading ==> Count(s.at, HOLD_MUTEX) == 0)
  {
    hide Count;
    if s.at[t] == First {
      CountApart(s.at, {First}, HAVE_RW, HOLD_MUTEX);
      CountsOne(s.at, t, {First});
    }
  }

  // Thread t takes n steps.
  function Steps(t: Tid, n: nat): seq<Move>
  {
    if n == 0 then [] else [Go(t)] + Steps(t, n - 1)
  }

  lemma FirstStep(s: Shared, t: Tid, n: nat)
    requires CanMove(s, Go(t)) && Moves(Moved(s, Go(t)), Steps(t, n))
    ensures Moves(s, Steps(t, n + 1)) && Ends(s, Steps(t, n + 1)) == Ends(Moved(s, Go(t)), Steps(t, n))
  {
    var run := Steps(t, n + 1);
    assert run[0] == Go(t) && run[1..] == Steps(t, n);
  }

  // StartRead, with nobody in its way: the thread is counted in, and the first reader has RW.
  lemma StartRead(s: Shared, t: Tid)
    requires Shares(s) && t in s.at && s.at[t] == Outside && s.rCntMutex > 0 && Count(s.at, {Writing}) == 0
    ensures var first := if s.readerCnt == 0 then 1 else 0;
            var run := Steps(t, 4 + first);
            Moves(s, run) && Ends(s, run) == Shared(s.rCntMutex, s.rw - first, s.readerCnt + 1, s.at[t := Reading])
  {
    hide Count;
    CountSubset(s.at, HAVE_RW, HOLD_MUTEX);
    var s1 := Moved(s, Go(t));
    var s2 := Moved(s1, Go(t));
    var s3 := if s.readerCnt == 0 then Moved(s2, Go(t)) else s2;
    var s4 := Moved(s3, Go(t));
    var s5 := Moved(s4, Go(t));
    FirstStep(s4, t, 0);
    FirstStep(s3, t, 1);
    if s.readerCnt == 0 { FirstStep(s2, t, 2); }
    FirstStep(s1, t, if s.readerCnt == 0 then 3 else 2);
    FirstStep(s, t, if s.readerCnt == 0 then 4 else 3);
  }

  // EndRead: the thread is counted out, and the last reader gives RW back.
  lemma EndRead(s: Shared, t: Tid)
    requires t in s.at && s.at[t] == Reading && s.rCntMutex > 0
    ensures var last := if s.readerCnt == 1 then 1 else 0;
            Moves(s, Steps(t, 4)) && Ends(s, Steps(t, 4)) == Shared(s.rCntMutex, s.rw + last, s.readerCnt - 1, s.at[t := Outside])
  {
    var s1 := Moved(s, Go(t));
    var s2 := Moved(s1, Go(t));
    var s3 := Moved(s2, Go(t));
    FirstStep(s3, t, 0);
    FirstStep(s2, t, 1);
    FirstStep(s1, t, 2);
    FirstStep(s, t, 3);
  }

  // A read that nobody else gets in between leaves everything as it was, and so does a write.
  lemma ReadAndEnd(s: Shared, t: Tid)
    requires Shares(s) && t in s.at && s.at[t] == Outside && s.rCntMutex > 0 && Count(s.at, {Writing}) == 0
    ensures var run := Steps(t, if s.readerCnt == 0 then 5 else 4);
            && Moves(s, run) && Ends(s, run).at == s.at[t := Reading]
            && Moves(Ends(s, run), Steps(t, 4)) && Ends(Ends(s, run), Steps(t, 4)) == s
  {
    StartRead(s, t);
    EndRead(Ends(s, Steps(t, if s.readerCnt == 0 then 5 else 4)), t);
  }

  lemma WriteAndEnd(s: Shared, t: Tid)
    requires CanMove(s, BeginWrite(t))
    ensures var s' := Moved(s, BeginWrite(t)); s'.at == s.at[t := Writing] && CanMove(s', Go(t)) && Moved(s', Go(t)) == s
  {
  }

  lemma StartShares(threads: set<Tid>)
    ensures Shares(Start(threads))
  {
    var at := Start(threads).at;
    forall places: set<Place> | Outside !in places ensures Count(at, places) == 0 {
      assert Who(at, places) == {};
    }
  }
}
