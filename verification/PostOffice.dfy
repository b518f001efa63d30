/** Mail between machines (code/network/post.cc, code/machine/network.cc): senders on any number of machines, a wire that
    may lose packets but keeps their order, the one-packet buffer of the receiving network
    device, the postal worker, and the mail boxes, which are first-in first-out. */
module PostOffices {
  import opened Sectors
  import opened Threads

  const HEADER_SIZE := 12                       // sizeof(MailHeader), and sizeof(PacketHeader)
  const MAX_PACKET_SIZE := 64 - HEADER_SIZE
  const MAX_MAIL_SIZE := MAX_PACKET_SIZE - HEADER_SIZE

  datatype Mail = Mail(to: int32, from: int32, data: seq<byte>)

  type Packet = seq<byte>

  function Word(x: int32): (b: seq<byte>)
    ensures |b| == 4 && WordFrom(b[0], b[1], b[2], b[3]) == x
  {
    WordRoundTrip(x);
    [ByteOf(x, 0), ByteOf(x, 1), ByteOf(x, 2), ByteOf(x, 3)]
  }

  // The MailHeader in front of the data, as Send puts them together.
  function Pack(m: Mail): (p: Packet)
    requires |m.data| <= MAX_MAIL_SIZE
    ensures |p| == HEADER_SIZE + |m.data|
  {
    Word(m.to) + Word(m.from) + Word(|m.data|) + m.data
  }

  function WordAt(p: Packet, i: nat): int32
    requires i + 4 <= |p|
  {
    WordFrom(p[i], p[i + 1], p[i + 2], p[i + 3])
  }

  // The two ASSERTs of PostalDelivery.
  predicate Readable(p: Packet, numBoxes: nat)
  {
    |p| >= HEADER_SIZE && 0 <= WordAt(p, 0) < numBoxes && 0 <= WordAt(p, 8) <= MAX_MAIL_SIZE && HEADER_SIZE + WordAt(p, 8) <= |p|
  }

  // What PostalDelivery reads from its buffer.
  function Unpack(p: Packet, numBoxes: nat): Mail
    requires Readable(p, numBoxes)
  {
    Mail(WordAt(p, 0), WordAt(p, 4), p[HEADER_SIZE..HEADER_SIZE + WordAt(p, 8)])
  }

  predicate Addressed(m: Mail, numBoxes: nat)
  {
    0 <= m.to < numBoxes && |m.data| <= MAX_MAIL_SIZE
  }

  lemma PackRoundTrip(m: Mail, numBoxes: nat)
    requires Addressed(m, numBoxes)
    ensures Readable(Pack(m), numBoxes) && Unpack(Pack(m), numBoxes) == m
  {
    var p, a, b, c := Pack(m), Word(m.to), Word(m.from), Word(|m.data|);
    assert p[0] == a[0] && p[1] == a[1] && p[2] == a[2] && p[3] == a[3];
    assert p[4] == b[0] && p[5] == b[1] && p[6] == b[2] && p[7] == b[3];
    assert p[8] == c[0] && p[9] == c[1] && p[10] == c[2] && p[11] == c[3];
    assert p[HEADER_SIZE..HEADER_SIZE + |m.data|] == m.data;
  }

  // One machine's sending side: who has sendLock, Network::sendBusy, the value of messageSent.
  datatype Sender = Sender(lock: set<Tid>, sendBusy: bool, messageSent: int)

  // The postal worker: waiting for messageAvailable; past it; with a packet in its buffer.
  datatype Worker = Waits | Called | Holds(p: Packet)

  // One receiving machine and everybody who sends to it.
  datatype Post = Post(senders: map<nat, Sender>, wire: seq<Packet>, inbox: seq<Packet>, messageAvailable: int, worker: Worker,
                       boxes: seq<seq<Mail>>)

  datatype Step =
    | Send(machine: nat, t: Tid, mail: Mail, lost: bool)
    | SendDone(machine: nat)
    | SendEnds(machine: nat, t: Tid)
    | CheckPktAvail
    | WorkerWakes
    | WorkerTakes
    | WorkerPuts
    | Receive(box: nat)

  predicate Enabled(s: Post, a: Step)
  {
    match a
    case Send(k, t, m, _) => k in s.senders && s.senders[k].lock == {} && Addressed(m, |s.boxes|)
    case SendDone(k) => k in s.senders && s.senders[k].sendBusy
    case SendEnds(k, t) => k in s.senders && s.senders[k].lock == {t} && s.senders[k].messageSent > 0
    case CheckPktAvail => true
    case WorkerWakes => s.worker == Waits && s.messageAvailable > 0
    case WorkerTakes => s.worker == Called
    case WorkerPuts => s.worker.Holds?
    case Receive(b) => b < |s.boxes| && s.boxes[b] != []
  }

  // No ASSERT fails in the step, and no empty buffer is read.
  predicate Sound(s: Post, a: Step)
    requires Enabled(s, a)
  {
    match a
    case Send(k, _, m, _) => !s.senders[k].sendBusy && 0 < HEADER_SIZE + |m.data| <= MAX_PACKET_SIZE
    case WorkerTakes => |s.inbox| == 1
    case WorkerPuts => Readable(s.worker.p, |s.boxes|)
    case Receive(b) => |s.boxes[b][0].data| <= MAX_MAIL_SIZE
    case _ => true
  }

  // A packet that is lost does not get onto the wire; Receive returns the first mail of the box.
  function Next(s: Post, a: Step): Post
    requires Enabled(s, a) && Sound(s, a)
  {
    match a
    case Send(k, t, m, lost) =>
      s.(senders := s.senders[k := Sender({t}, true, s.senders[k].messageSent)], wire := if lost then s.wire else s.wire + [Pack(m)])
    case SendDone(k) =>
      s.(senders := s.senders[k := s.senders[k].(sendBusy := false, messageSent := s.senders[k].messageSent + 1)])
    case SendEnds(k, t) =>
      s.(senders := s.senders[k := s.senders[k].(lock := {}, messageSent := s.senders[k].messageSent - 1)])
    case CheckPktAvail =>
      if s.inbox != [] || s.wire == [] then s
      else s.(inbox := [s.wire[0]], wire := s.wire[1..], messageAvailable := s.messageAvailable + 1)
    case WorkerWakes => s.(worker := Called, messageAvailable := s.messageAvailable - 1)
    case WorkerTakes => s.(worker := Holds(s.inbox[0]), inbox := [])
    case WorkerPuts =>
      var m := Unpack(s.worker.p, |s.boxes|);
      s.(worker := Waits, boxes := s.boxes[m.to := s.boxes[m.to] + [m]])
    case Receive(b) => s.(boxes := s.boxes[b := s.boxes[b][1..]])
  }

  predicate Legal(s: Post, run: seq<Step>)
    decreases |run|
  {
    run == [] || (Enabled(s, run[0]) && Sound(s, run[0]) && Legal(Next(s, run[0]), run[1..]))
  }

  function After(s: Post, run: seq<Step>): Post
    requires Legal(s, run)
    decreases |run|
  {
    if run == [] then s else After(Next(s, run[0]), run[1..])
  }

  function Opened(machines: set<nat>, numBoxes: nat): Post
  {
    Post(map k | k in machines :: Sender({}, false, 0), [], [], 0, Waits, seq(numBoxes, _ => []))
  }

  /* What was sent and what was received, read off the run. */

  // The mails of the Send steps, in order, and those of them that were not lost.
  function Sent(run: seq<Step>): seq<Mail>
  {
    if run == [] then [] else (if run[0].Send? then [run[0].mail] else []) + Sent(run[1..])
  }

  function Unlost(run: seq<Step>): seq<Mail>
  {
    if run == [] then [] else UnlostBy(run[0]) + Unlost(run[1..])
  }

  function UnlostBy(a: Step): seq<Mail> { if a.Send? && !a.lost then [a.mail] else [] }

  // The mails that the Receive steps of a box return, in order.
  function Received(s: Post, run: seq<Step>, box: nat): seq<Mail>
    requires Legal(s, run)
    decreases |run|
  {
    if run == [] then [] else ReceivedBy(s, run[0], box) + Received(Next(s, run[0]), run[1..], box)
  }

  function ReceivedBy(s: Post, a: Step, box: nat): seq<Mail>
    requires Enabled(s, a)
  {
    if a == Receive(box) then [s.boxes[box][0]] else []
  }

  // The mails for one box, in order.
  function For(box: int, mails: seq<Mail>): seq<Mail>
  {
    if mails == [] then [] else (if mails[0].to == box then [mails[0]] else []) + For(box, mails[1..])
  }

  lemma {:induction false} ForJoin(box: int, a: seq<Mail>, b: seq<Mail>)
    ensures For(box, a + b) == For(box, a) + For(box, b)
  {
    if a == [] {
      assert a + b == b;
    } else {
      ForJoin(box, a[1..], b);
      assert (a + b)[0] == a[0] && (a + b)[1..] == a[1..] + b;
      var x, y, z := if a[0].to == box then [a[0]] else [], For(box, a[1..]), For(box, b);
      assert For(box, a + b) == x + (y + z) && For(box, a) == x + y;
      hide For;
      assert x + (y + z) == (x + y) + z;
    }
  }

  /* The invariants of a run. */

  // On the way: with the worker, in the device, on the wire.
  function Transit(s: Post): seq<Packet>
  {
    (if s.worker.Holds? then [s.worker.p] else []) + s.inbox + s.wire
  }

  ghost predicate SenderOk(x: Sender)
  {
    && |x.lock| <= 1
    && (if x.lock == {} then !x.sendBusy && x.messageSent == 0 else (if x.sendBusy then 1 else 0) + x.messageSent == 1)
  }

  ghost predicate SendersOk(s: Post)
  {
    forall k :: k in s.senders ==> SenderOk(s.senders[k])
  }

  // messageAvailable announces exactly the buffered packet.
  ghost predicate DeviceOk(s: Post)
  {
    |s.inbox| <= 1 && s.messageAvailable >= 0 && |s.inbox| == s.messageAvailable + (if s.worker.Called? then 1 else 0)
  }

  // These mails are on the way, byte for byte.
  ghost predicate Carries(s: Post, mails: seq<Mail>) { Packed(Transit(s), mails, |s.boxes|) }

  ghost predicate Packed(packets: seq<Packet>, mails: seq<Mail>, numBoxes: nat)
  {
    |mails| == |packets| && forall i :: 0 <= i < |mails| ==> Addressed(mails[i], numBoxes) && packets[i] == Pack(mails[i])
  }

  lemma PackedRest(packets: seq<Packet>, mails: seq<Mail>, numBoxes: nat)
    requires Packed(packets, mails, numBoxes) && mails != []
    ensures Packed(packets[1..], mails[1..], numBoxes)
  {
    hide Pack;
  }

  // A box holds mails for it.
  ghost predicate BoxesOk(s: Post)
  {
    forall b, i :: 0 <= b < |s.boxes| && 0 <= i < |s.boxes[b]| ==> s.boxes[b][i].to == b && Addressed(s.boxes[b][i], |s.boxes|)
  }

  ghost predicate Inv(s: Post, mails: seq<Mail>) { SendersOk(s) && DeviceOk(s) && BoxesOk(s) && Carries(s, mails) }

  // What becomes of the mails on the way.
  function Carried(mails: seq<Mail>, a: Step): seq<Mail>
  {
    if a == WorkerPuts && mails != [] then mails[1..] else mails + UnlostBy(a)
  }

  // What the worker holds is the first of them.
  lemma HeldIs(s: Post, mails: seq<Mail>)
    requires Carries(s, mails) && s.worker.Holds?
    ensures mails != [] && Readable(s.worker.p, |s.boxes|) && Unpack(s.worker.p, |s.boxes|) == mails[0]
  {
    hide Pack;
    assert Transit(s)[0] == s.worker.p;
    PackRoundTrip(mails[0], |s.boxes|);
  }

  // It goes into its box.
  lemma HeldPut(s: Post, mails: seq<Mail>)
    requires Carries(s, mails) && s.worker.Holds?
    ensures mails != [] && Addressed(mails[0], |s.boxes|) && Enabled(s, WorkerPuts) && Sound(s, WorkerPuts)
    ensures var m := mails[0]; Next(s, WorkerPuts) == s.(worker := Waits, boxes := s.boxes[m.to := s.boxes[m.to] + [m]])
  {
    HeldIs(s, mails);
    hide Pack;
    hide Unpack;
    hide Readable;
  }

  // In a state of the invariant every step that can be taken is sound.
  lemma StepSound(s: Post, mails: seq<Mail>, a: Step)
    requires Inv(s, mails) && Enabled(s, a)
    ensures Sound(s, a)
  {
    match a
    case WorkerPuts => HeldIs(s, mails);
    case Send(k, t, m, lost) => assert SenderOk(s.senders[k]);
    case Receive(b) => assert s.boxes[b][0].to == b;
    case _ =>
  }

  lemma StepCarries(s: Post, mails: seq<Mail>, a: Step)
    requires Inv(s, mails) && Enabled(s, a) && Sound(s, a)
    ensures Carries(Next(s, a), Carried(mails, a))
  {
    hide Pack;
    hide Unpack;
    hide Readable;
    hide Packed;
    if a.Send? {
      SendCarries(s, mails, a.machine, a.t, a.mail, a.lost);
    } else if a == WorkerPuts {
      PutCarries(s, mails);
    } else {
      SameTransit(s, a);
      assert mails + [] == mails;
    }
  }

  // The other steps only move a packet on.
  lemma SameTransit(s: Post, a: Step)
    requires Enabled(s, a) && Sound(s, a) && !a.Send? && a != WorkerPuts && SendersOk(s) && DeviceOk(s)
    ensures Transit(Next(s, a)) == Transit(s) && |Next(s, a).boxes| == |s.boxes|
  {
    hide Readable;
    hide Unpack;
    hide SenderOk;
    hide Pack;
    if s.inbox == [] && s.wire != [] { assert s.wire == [s.wire[0]] + s.wire[1..]; }
  }

  lemma SendCarries(s: Post, mails: seq<Mail>, k: nat, t: Tid, m: Mail, lost: bool)
    requires Carries(s, mails) && Enabled(s, Send(k, t, m, lost)) && Sound(s, Send(k, t, m, lost))
    ensures Carries(Next(s, Send(k, t, m, lost)), Carried(mails, Send(k, t, m, lost)))
  {
    hide Pack;
    var s' := Next(s, Send(k, t, m, lost));
    assert Transit(s') == Transit(s) + if lost then [] else [Pack(m)];
  }

  lemma PutCarries(s: Post, mails: seq<Mail>)
    requires Carries(s, mails) && s.worker.Holds?
    ensures Enabled(s, WorkerPuts) && Sound(s, WorkerPuts) && Carries(Next(s, WorkerPuts), Carried(mails, WorkerPuts))
  {
    HeldPut(s, mails);
    hide Next;
    hide Sound;
    hide Packed;
    PackedRest(Transit(s), mails, |s.boxes|);
    assert Transit(Next(s, WorkerPuts)) == Transit(s)[1..];
  }

  lemma StepInv(s: Post, mails: seq<Mail>, a: Step)
    requires Inv(s, mails) && Enabled(s, a)
    ensures Sound(s, a) && Inv(Next(s, a), Carried(mails, a))
  {
    StepSound(s, mails, a);
    StepCarries(s, mails, a);
    StepSenders(s, a);
    StepBoxes(s, mails, a);
    hide Carries;
    hide SendersOk;
    hide BoxesOk;
    hide Pack;
    hide Unpack;
    hide Readable;
  }

  lemma StepBoxes(s: Post, mails: seq<Mail>, a: Step)
    requires Carries(s, mails) && BoxesOk(s) && Enabled(s, a) && Sound(s, a)
    ensures BoxesOk(Next(s, a))
  {
    if a == WorkerPuts {
      HeldPut(s, mails);
      hide Next;
      hide Sound;
      hide Carries;
    } else {
      hide Carries;
      hide Pack;
    }
  }

  lemma StepSenders(s: Post, a: Step)
    requires SendersOk(s) && Enabled(s, a) && Sound(s, a)
    ensures SendersOk(Next(s, a))
  {
    hide Pack;
    hide Unpack;
    hide Readable;
  }

  // What a box holds and what is on the way to it.
  function Path(s: Post, mails: seq<Mail>, box: nat): seq<Mail>
    requires box < |s.boxes|
  {
    s.boxes[box] + For(box, mails)
  }

  // A step puts the mail it sends behind these, or returns the first of them.
  lemma StepPath(s: Post, mails: seq<Mail>, a: Step, box: nat)
    requires Inv(s, mails) && Enabled(s, a) && Sound(s, a) && box < |s.boxes|
    ensures |Next(s, a).boxes| == |s.boxes|
    ensures Path(s, mails, box) + For(box, UnlostBy(a)) == ReceivedBy(s, a, box) + Path(Next(s, a), Carried(mails, a), box)
  {
    hide Carries;
    if a == WorkerPuts {
      PutPath(s, mails, box);
    } else if a.Receive? {
      ReceivePath(s, mails, a.box, box);
    } else {
      ForJoin(box, mails, UnlostBy(a));
      hide For;
      assert s.boxes[box] + (For(box, mails) + For(box, UnlostBy(a))) == s.boxes[box] + For(box, mails) + For(box, UnlostBy(a));
    }
  }

  lemma PutPath(s: Post, mails: seq<Mail>, box: nat)
    requires Carries(s, mails) && s.worker.Holds? && box < |s.boxes|
    ensures Enabled(s, WorkerPuts) && Sound(s, WorkerPuts) && |Next(s, WorkerPuts).boxes| == |s.boxes|
    ensures Path(Next(s, WorkerPuts), Carried(mails, WorkerPuts), box) == Path(s, mails, box)
  {
    HeldPut(s, mails);
    hide Carries;
    hide Next;
    hide Sound;
    ForFirst(box, mails);
    hide For;
    var m, rest := mails[0], For(box, mails[1..]);
    if m.to == box { assert (s.boxes[box] + [m]) + rest == s.boxes[box] + ([m] + rest); }
  }

  lemma ForFirst(box: int, mails: seq<Mail>)
    requires mails != []
    ensures For(box, mails) == if mails[0].to == box then [mails[0]] + For(box, mails[1..]) else For(box, mails[1..])
  {
  }

  lemma ReceivePath(s: Post, mails: seq<Mail>, b: nat, box: nat)
    requires Enabled(s, Receive(b)) && Sound(s, Receive(b)) && box < |s.boxes|
    ensures |Next(s, Receive(b)).boxes| == |s.boxes|
    ensures Path(s, mails, box) == ReceivedBy(s, Receive(b), box) + Path(Next(s, Receive(b)), Carried(mails, Receive(b)), box)
  {
    hide For;
    assert mails + [] == mails;
    if b == box { assert s.boxes[box] == [s.boxes[box][0]] + s.boxes[box][1..]; }
  }

  // In every run: what a box has returned, and then what it holds and what is on the way to it, are the
  // mails sent to it and not lost, in order and unaltered.
  lemma {:induction false} Flow(s: Post, run: seq<Step>, mails: seq<Mail>, box: nat) returns (mails': seq<Mail>)
    requires Inv(s, mails) && Legal(s, run) && box < |s.boxes|
    ensures var s' := After(s, run);
            && Inv(s', mails') && |s'.boxes| == |s.boxes|
            && Path(s, mails, box) + For(box, Unlost(run)) == Received(s, run, box) + Path(s', mails', box)
    decreases |run|
  {
    if run == [] {
      mails' := mails;
    } else {
      var a, rest, s1, mails1 := run[0], run[1..], Next(s, run[0]), Carried(mails, run[0]);
      StepInv(s, mails, a);
      StepPath(s, mails, a, box);
      mails' := Flow(s1, rest, mails1, box);
      ForJoin(box, UnlostBy(a), Unlost(rest));
      hide *;
      Joined(Path(s, mails, box), For(box, UnlostBy(a)), ReceivedBy(s, a, box), Path(s1, mails1, box), For(box, Unlost(rest)),
             Received(s1, rest, box), Path(After(s1, rest), mails', box));
    }
  }

  lemma Joined(path: seq<Mail>, x: seq<Mail>, got: seq<Mail>, path1: seq<Mail>, y: seq<Mail>, rest: seq<Mail>, path': seq<Mail>)
    requires path + x == got + path1 && path1 + y == rest + path'
    ensures path + (x + y) == (got + rest) + path'
  {
    assert path + (x + y) == (path + x) + y;
    assert (got + path1) + y == got + (path1 + y);
    assert got + (rest + path') == (got + rest) + path';
  }

  lemma OpenedInv(machines: set<nat>, numBoxes: nat)
    ensures Inv(Opened(machines, numBoxes), [])
  {
  }

  // b has the members of a, in the same order, and maybe others between them.
  predicate Subsequence(a: seq<Mail>, b: seq<Mail>)
    decreases |b|
  {
    a == [] || (b != [] && ((a[0] == b[0] && Subsequence(a[1..], b[1..])) || Subsequence(a, b[1..])))
  }

  lemma {:induction false} UnlostOfSent(run: seq<Step>, box: int)
    ensures Subsequence(For(box, Unlost(run)), For(box, Sent(run)))
  {
    if run == [] {
    } else {
      UnlostOfSent(run[1..], box);
      var kept, sent := Unlost(run[1..]), Sent(run[1..]);
      assert Unlost(run) == UnlostBy(run[0]) + kept;
      if run[0].Send? {
        var m := run[0].mail;
        assert Sent(run) == [m] + sent;
        ForJoin(box, [m], kept);
        ForJoin(box, [m], sent);
        assert For(box, [m]) == if m.to == box then [m] else [];
        SubsequenceMore(For(box, kept), For(box, sent), m);
        assert [] + kept == kept && [] + For(box, kept) == For(box, kept) && [] + For(box, sent) == For(box, sent);
        hide For;
        hide Subsequence;
      } else {
        assert Sent(run) == [] + sent == sent && [] + kept == kept;
      }
    }
  }

  lemma SubsequenceMore(a: seq<Mail>, b: seq<Mail>, m: Mail)
    requires Subsequence(a, b)
    ensures Subsequence([m] + a, [m] + b) && Subsequence(a, [m] + b)
  {
    assert ([m] + a)[1..] == a && ([m] + b)[1..] == b;
  }

  lemma {:induction false} PrefixSubsequence(p: seq<Mail>, a: seq<Mail>, b: seq<Mail>)
    requires p <= a && Subsequence(a, b)
    ensures Subsequence(p, b)
    decreases |b|
  {
    if p == [] {
    } else if a[0] == b[0] && Subsequence(a[1..], b[1..]) {
      PrefixSubsequence(p[1..], a[1..], b[1..]);
    } else {
      PrefixSubsequence(p, a, b[1..]);
    }
  }

  // In every run from the start, what was received from a box is, in order and unaltered, the first of what
  // was sent to it and not lost, and part of what was sent to it.
  lemma Delivery(machines: set<nat>, numBoxes: nat, run: seq<Step>, box: nat)
    requires Legal(Opened(machines, numBoxes), run) && box < numBoxes
    ensures var got := Received(Opened(machines, numBoxes), run, box);
            got <= For(box, Unlost(run)) && Subsequence(got, For(box, Sent(run)))
  {
    var s := Opened(machines, numBoxes);
    OpenedInv(machines, numBoxes);
    var mails := Flow(s, run, [], box);
    assert Path(s, [], box) == [];
    var got, all := Received(s, run, box), For(box, Unlost(run));
    assert [] + all == all;
    UnlostOfSent(run, box);
    PrefixSubsequence(got, all, For(box, Sent(run)));
  }

  // After any run, no step that can be taken fails an ASSERT or reads an empty buffer.
  lemma {:induction false} NeverUnsound(s: Post, run: seq<Step>, mails: seq<Mail>, a: Step)
    requires Inv(s, mails) && Legal(s, run) && Enabled(After(s, run), a)
    ensures Sound(After(s, run), a)
    decreases |run|
  {
    if run == [] {
      StepSound(s, mails, a);
    } else {
      StepInv(s, mails, run[0]);
      NeverUnsound(Next(s, run[0]), run[1..], Carried(mails, run[0]), a);
    }
  }

  /* Nothing gets stuck. */

  // The step that brings what is on the way nearer to the boxes.
  function Onward(s: Post): Step
  {
    if s.worker.Holds? then WorkerPuts
    else if s.worker.Called? then WorkerTakes
    else if s.inbox != [] then WorkerWakes
    else CheckPktAvail
  }

  function Distance(s: Post): nat
  {
    4 * |s.wire| + (if s.worker.Called? then 2 else 3) * |s.inbox| + (if s.worker.Holds? then 1 else 0)
  }

  lemma StepOnward(s: Post, mails: seq<Mail>)
    requires Inv(s, mails) && mails != []
    ensures Enabled(s, Onward(s)) && Sound(s, Onward(s)) && Distance(Next(s, Onward(s))) < Distance(s)
  {
    StepSound(s, mails, Onward(s));
    hide Readable;
    hide Unpack;
    hide Pack;
  }

  // From every state the device and the worker alone bring all that is on the way into the boxes: what a box
  // has returned and what it holds is then all that was sent to it and not lost.
  lemma {:induction false} Arrives(s: Post, mails: seq<Mail>, box: nat) returns (run: seq<Step>)
    requires Inv(s, mails) && box < |s.boxes|
    ensures Legal(s, run) && (forall i :: 0 <= i < |run| ==> !run[i].Send? && !run[i].Receive?)
    ensures var s' := After(s, run); Transit(s') == [] && box < |s'.boxes| && s'.boxes[box] == Path(s, mails, box)
    decreases Distance(s)
  {
    if mails == [] {
      run := [];
    } else {
      var a := Onward(s);
      StepOnward(s, mails);
      StepInv(s, mails, a);
      StepPath(s, mails, a, box);
      var rest := Arrives(Next(s, a), Carried(mails, a), box);
      run := [a] + rest;
      assert run[1..] == rest;
      assert UnlostBy(a) == [] && For(box, UnlostBy(a)) == [] && ReceivedBy(s, a, box) == [];
      var path := Path(s, mails, box);
      assert path + [] == path;
    }
  }

  // And from there the box returns it all.
  lemma {:induction false} Collected(s: Post, box: nat) returns (run: seq<Step>)
    requires BoxesOk(s) && box < |s.boxes|
    ensures Legal(s, run) && (forall i :: 0 <= i < |run| ==> run[i] == Receive(box)) && Received(s, run, box) == s.boxes[box]
    decreases |s.boxes[box]|
  {
    if s.boxes[box] == [] {
      run := [];
    } else {
      assert s.boxes[box][0].to == box;
      var rest := Collected(Next(s, Receive(box)), box);
      run := [Receive(box)] + rest;
      assert run[1..] == rest && s.boxes[box] == [s.boxes[box][0]] + s.boxes[box][1..];
    }
  }

  // A Send, its interrupt and its end leave the sender as it was.
  lemma SendReturns(s: Post, mails: seq<Mail>, k: nat, t: Tid, m: Mail, lost: bool)
    requires Inv(s, mails) && k in s.senders && s.senders[k].lock == {} && Addressed(m, |s.boxes|)
    ensures var run := [Send(k, t, m, lost), SendDone(k), SendEnds(k, t)];
            Legal(s, run) && After(s, run) == s.(wire := s.wire + if lost then [] else [Pack(m)])
  {
    hide Pack;
    StepSound(s, mails, Send(k, t, m, lost));
    assert SenderOk(s.senders[k]);
    var s1 := Next(s, Send(k, t, m, lost));
    var s2 := Next(s1, SendDone(k));
    var s3 := Next(s2, SendEnds(k, t));
    var run := [Send(k, t, m, lost), SendDone(k), SendEnds(k, t)];
    assert run[1..] == [SendDone(k), SendEnds(k, t)] && run[1..][1..] == [SendEnds(k, t)] && run[1..][1..][1..] == [];
    assert Legal(s3, []) && After(s3, []) == s3;
    assert Legal(s2, run[1..][1..]) && After(s2, run[1..][1..]) == s3;
    assert Legal(s1, run[1..]) && After(s1, run[1..]) == s3;
    assert s3.senders == s.senders;
  }
}
