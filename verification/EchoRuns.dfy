/** Whole runs of the echo firmware against the host: any interleaving, any
    length. */
module EchoRuns {
  import opened Words
  import opened RpmsgFormat
  import opened Virtqueue
  import opened VirtqueueSafety
  import opened EchoSystem
  import opened EchoSafety

  /** The firmware enters the announce-retry loop with both queues initialised.
      The host may already have published. */
  ghost predicate Start(s: System) {
    && Queues(s) && s.tx.pc.Idle? && s.rx.pc.Idle?
    && s.tx.log.taken == 0 && s.tx.log.returned == [] && s.tx.log.held == {}
    && s.rx.log.taken == 0 && s.rx.log.returned == [] && s.rx.log.held == {}
    && (forall i :: 0 <= i < |s.rx.log.published| ==> WellFormed(s.rx.log.published[i].content))
    && s.ns.Fits() && s.ctl == Sending(s.ns, true)
    && (s.Backlog() > 0 ==> s.event || s.owes)
    && s.received == [] && s.echoed == [] && s.sent == [] && s.got == []
  }

  lemma StartInv(s: System)
    requires Start(s)
    ensures SystemInv(s)
  {
    assert s.tx.vq.Shape() && Counters(s.tx) && Counters(s.rx);
  }

  lemma PruKeeps(s: System)
    requires SystemInv(s)
    ensures CanStep(s) && SystemInv(PruStep(s))
  {
    match s.ctl
    case Poll => PollKeeps(s);
    case Clear => PollKeeps(s);
    case Receiving => ReceivingKeeps(s);
    case Copying(_, _) => CopyingKeeps(s);
    case Freeing(_, _) => FreeingKeeps(s);
    case Sending(_, _) => SendingKeeps(s);
    case Filling(_, _, _, _) => FillingKeeps(s);
    case Handing(_, _, _, _) => HandingKeeps(s);
  }

  lemma StepKeepsSystemInv(s: System, a: Act)
    requires SystemInv(s) && Enabled(s, a)
    ensures SystemInv(Apply(s, a))
  {
    match a
    case Pru => PruKeeps(s);
    case PostTx(head, d, content) => PostTxKeeps(s, head, d, content);
    case Deliver(head, d, content) => DeliverKeeps(s, head, d, content);
    case Kick => KickKeeps(s);
    case ReclaimTx => ReclaimTxKeeps(s);
    case ReclaimRx => ReclaimRxKeeps(s);
  }

  ghost predicate Feasible(s: System, run: seq<Act>)
    decreases |run|
  {
    run == [] || (Enabled(s, run[0]) && Feasible(Apply(s, run[0]), run[1..]))
  }

  ghost function Exec(s: System, run: seq<Act>): System
    requires Feasible(s, run)
    decreases |run|
  {
    if run == [] then s else Exec(Apply(s, run[0]), run[1..])
  }

  lemma {:induction false} RunKeepsSystemInv(s: System, run: seq<Act>)
    requires SystemInv(s) && Feasible(s, run)
    ensures SystemInv(Exec(s, run)) && CanStep(Exec(s, run))
    decreases |run|
  {
    if run == [] {
      PruKeeps(s);
    } else {
      StepKeepsSystemInv(s, run[0]);
      RunKeepsSystemInv(Apply(s, run[0]), run[1..]);
    }
  }

  lemma Reached(s: System, run: seq<Act>)
    requires Start(s) && Feasible(s, run)
    ensures var e := Exec(s, run); CtlOk(e) && Echoes(e) && Reception(e)
  {
    StartInv(s);
    RunKeepsSystemInv(s, run);
  }

  // ------------------------------------------------------- what runs satisfy

  /** The ids the PRU has put in each used ring are a prefix of the heads the
      host published, in order; between calls nothing is held and the used index
      equals the private available index. */
  lemma InOrderHandOver(s: System, run: seq<Act>)
    requires Start(s) && Feasible(s, run)
    ensures var e := Exec(s, run);
            && Ids(e.tx.log.returned) <= Heads(e.tx.log.published)
            && Ids(e.rx.log.returned) <= Heads(e.rx.log.published)
            && (Resting(e.tx) ==> e.tx.vq.usedIdx == e.tx.vq.lastAvail && e.tx.log.held == {})
            && (Resting(e.rx) ==> e.rx.vq.usedIdx == e.rx.vq.lastAvail && e.rx.log.held == {})
  {
    StartInv(s);
    RunKeepsSystemInv(s, run);
    var e := Exec(s, run);
    OrderIsPrefix(e.tx);
    OrderIsPrefix(e.rx);
    assert Counters(e.tx) && Counters(e.rx);
  }

  /** Every access that completes a hand-over, in either queue, returns the oldest
      head not returned, with the length of its descriptor and with its content. */
  lemma HandsBackTheBuffer(s: System, run: seq<Act>)
    requires Start(s) && Feasible(s, run)
    ensures var e := Exec(s, run);
            && CanStep(e) && HandsBack(e.tx, PruStep(e).tx) && HandsBack(e.rx, PruStep(e).rx)
  {
    StartInv(s);
    RunKeepsSystemInv(s, run);
    HandsBackStep(Exec(s, run));
  }

  ghost predicate HandsBack(q: Queue, q': Queue) {
    q'.log.returned == q.log.returned
    || (&& |q.log.returned| < |q.log.published| && |q'.log.returned| == |q.log.returned| + 1
        && q'.log.returned[..|q.log.returned|] == q.log.returned
        && var h, r := q.log.published[|q.log.returned|].head, q'.log.returned[|q.log.returned|];
        && r.elem.id == h < |q.vq.desc| && r.elem.len == q.vq.desc[h].len
        && h in q.log.content && r.content == q.log.content[h])
  }

  lemma HandsBackStep(e: System)
    requires CtlOk(e) && CanStep(e) && InOrder(e.rx) && InOrder(e.tx)
    ensures HandsBack(e.tx, PruStep(e).tx) && HandsBack(e.rx, PruStep(e).rx)
  {
    match e.ctl
    case Freeing(h, d) => HandOverEffect(e.rx, h, d);
    case Handing(_, _, h, d) => HandOverEffect(e.tx, h, d);
    case _ => NothingReturned(e);
  }

  lemma NothingReturned(e: System)
    requires CanStep(e) && !e.ctl.Freeing? && !e.ctl.Handing?
    ensures PruStep(e).tx.log.returned == e.tx.log.returned && PruStep(e).rx.log.returned == e.rx.log.returned
  {
  }

  lemma OrderIsPrefix(q: Queue)
    requires InOrder(q)
    ensures Ids(q.log.returned) <= Heads(q.log.published)
  {
  }

  /** Whenever a message waits, something will still make the PRU look. */
  lemma WakeUpOverRuns(s: System, run: seq<Act>)
    requires Start(s) && Feasible(s, run)
    ensures var e := Exec(s, run);
            e.rx.log.taken < |e.rx.log.published| ==>
              || e.event || e.owes || e.ctl.Receiving? || e.ctl.Copying? || e.ctl.Freeing?
              || ((e.ctl.Sending? || e.ctl.Filling? || e.ctl.Handing?) && !e.ctl.ann)
  {
    StartInv(s);
    RunKeepsSystemInv(s, run);
  }

  /** The host reads, in order and byte for byte, exactly the messages of the
      successful sends, and every unread used buffer still holds its message. */
  lemma EndToEnd(s: System, run: seq<Act>)
    requires Start(s) && Feasible(s, run)
    ensures var e := Exec(s, run);
            && |e.got| == e.tx.log.reclaimed && e.got <= e.sent
            && (Settled(e.tx) <==> |e.got| < |e.sent|)
            && (Settled(e.tx) ==> Enabled(e, ReclaimTx)
                                  && Apply(e, ReclaimTx).got == e.got + [e.sent[|e.got|]])
  {
    StartInv(s);
    RunKeepsSystemInv(s, run);
    if Settled(Exec(s, run).tx) { ReclaimTxReads(Exec(s, run)); }
  }

  /** The PRU has received exactly the oldest messages the host published, byte
      for byte, of both addresses the low 16 bits. */
  lemma ReceivedInOrder(s: System, run: seq<Act>)
    requires Start(s) && Feasible(s, run)
    ensures var e := Exec(s, run);
            && |e.received| <= |e.rx.log.published|
            && forall i :: 0 <= i < |e.received| ==>
                 && var c, m := e.rx.log.published[i].content, e.received[i];
                 && WellFormed(c) && m == Seen(Decode(c))
                 && m.src == c[0] as int + 0x100 * c[1] as int
                 && m.dst == c[4] as int + 0x100 * c[5] as int
                 && |m.payload| == c[12] as int + 0x100 * c[13] as int <= 496
                 && m.payload == c[16..16 + |m.payload|]
  {
    Reached(s, run);
    ReceivedBytes(Exec(s, run));
  }

  lemma ReceivedBytes(e: System)
    requires Reception(e)
    ensures |e.received| <= |e.rx.log.published|
    ensures forall i :: 0 <= i < |e.received| ==>
              && var c, m := e.rx.log.published[i].content, e.received[i];
              && WellFormed(c) && m == Seen(Decode(c))
              && m.src == c[0] as int + 0x100 * c[1] as int
              && m.dst == c[4] as int + 0x100 * c[5] as int
              && |m.payload| == c[12] as int + 0x100 * c[13] as int <= 496
              && m.payload == c[16..16 + |m.payload|]
  {
    forall i | 0 <= i < |e.received|
      ensures var c, m := e.rx.log.published[i].content, e.received[i];
              && WellFormed(c) && m == Seen(Decode(c))
              && m.src == c[0] as int + 0x100 * c[1] as int
              && m.dst == c[4] as int + 0x100 * c[5] as int
              && |m.payload| == c[12] as int + 0x100 * c[13] as int <= 496
              && m.payload == c[16..16 + |m.payload|]
    {
      DecodeBytes(e.rx.log.published[i].content);
    }
  }

  /** However many attempts fail, one announcement is sent, first; after it come,
      in order, the messages whose echo succeeded, each back from where it was
      sent to and to where it came from. */
  lemma EchoesOverRuns(s: System, run: seq<Act>)
    requires Start(s) && Feasible(s, run)
    ensures var e := Exec(s, run);
            && |e.received| - 1 <= |e.echoed| <= |e.received|
            && (e.Announcing() ==> e.sent == [] && e.received == [])
            && (!e.Announcing() ==>
                  && |e.sent| == 1 + |set j | 0 <= j < |e.echoed| && e.echoed[j]| && e.sent[0] == e.ns
                  && forall i :: 0 <= i < |e.echoed| && e.echoed[i] ==>
                       var k := 1 + |set j | 0 <= j < i && e.echoed[j]|;
                       && k < |e.sent|
                       && e.sent[k].src == e.received[i].dst && e.sent[k].dst == e.received[i].src
                       && e.sent[k].payload == e.received[i].payload)
  {
    Reached(s, run);
    EchoFields(Exec(s, run));
  }

  lemma EchoFields(e: System)
    requires CtlOk(e) && Echoes(e)
    ensures |e.received| - 1 <= |e.echoed| <= |e.received|
    ensures e.Announcing() ==> e.sent == [] && e.received == []
    ensures !e.Announcing() ==>
              && |e.sent| == 1 + |set j | 0 <= j < |e.echoed| && e.echoed[j]| && e.sent[0] == e.ns
              && forall i :: 0 <= i < |e.echoed| && e.echoed[i] ==>
                   var k := 1 + |set j | 0 <= j < i && e.echoed[j]|;
                   && k < |e.sent|
                   && e.sent[k].src == e.received[i].dst && e.sent[k].dst == e.received[i].src
                   && e.sent[k].payload == e.received[i].payload
  {
    EchoesMean(e);
    KeptCount(e.received, e.echoed);
    if !e.Announcing() {
      forall i | 0 <= i < |e.echoed| && e.echoed[i]
        ensures var k := |set j | 0 <= j < i && e.echoed[j]|;
                k + 1 < |e.sent| && e.sent[k + 1] == Swap(e.received[i])
      {
        KeptAt(e.received, e.echoed, i);
      }
    }
  }

  lemma EchoesMean(e: System)
    requires CtlOk(e) && Echoes(e)
    ensures |e.received| - 1 <= |e.echoed| <= |e.received|
    ensures e.sent == (if e.Announcing() then [] else [e.ns]) + Kept(e.received, e.echoed)
    ensures e.Announcing() ==> e.sent == [] && e.received == []
  {
  }

  /** As many messages are kept as flags are set... */
  lemma {:induction false} KeptCount(received: seq<Msg>, echoed: seq<bool>)
    requires |echoed| <= |received|
    ensures |Kept(received, echoed)| == |set j | 0 <= j < |echoed| && echoed[j]|
    decreases |echoed|
  {
    var all := set j | 0 <= j < |echoed| && echoed[j];
    if echoed == [] {
      assert all == {};
    } else {
      var k := |echoed| - 1;
      KeptCount(received, echoed[..k]);
      var some := set j | 0 <= j < k && echoed[..k][j];
      assert all == some + (if echoed[k] then {k} else {});
    }
  }

  /** ...and each comes behind as many as have their flags set before it. */
  lemma {:induction false} KeptAt(received: seq<Msg>, echoed: seq<bool>, i: nat)
    requires |echoed| <= |received| && i < |echoed| && echoed[i]
    ensures var k := |set j | 0 <= j < i && echoed[j]|;
            k < |Kept(received, echoed)| && Kept(received, echoed)[k] == Swap(received[i])
    decreases |echoed|
  {
    var n := |echoed| - 1;
    var front := echoed[..n];
    var here, there := set j | 0 <= j < i && echoed[j], set j | 0 <= j < i && front[j];
    assert here == there;
    if i < n {
      KeptAt(received, front, i);
    } else {
      KeptCount(received, front);
    }
  }

  predicate AllTrue(flags: seq<bool>) { forall i :: 0 <= i < |flags| ==> flags[i] }

  lemma {:induction false} KeptAll(received: seq<Msg>, echoed: seq<bool>)
    requires |echoed| <= |received| && AllTrue(echoed)
    ensures |Kept(received, echoed)| == |echoed|
    ensures forall i :: 0 <= i < |echoed| ==> Kept(received, echoed)[i] == Swap(received[i])
    decreases |echoed|
  {
    if echoed != [] { KeptAll(received, echoed[..|echoed| - 1]); }
  }

  /** At the empty test of a send there is a buffer. */
  ghost predicate BufferReady(s: System) {
    s.ctl.Sending? && !s.ctl.ann && s.tx.pc.Idle? ==> s.tx.log.taken < |s.tx.log.published|
  }

  ghost predicate BuffersReadyAlong(s: System, run: seq<Act>)
    requires Feasible(s, run)
    decreases |run|
  {
    BufferReady(s) && (run != [] ==> BuffersReadyAlong(Apply(s, run[0]), run[1..]))
  }

  ghost predicate EmptyTest(q: Queue) {
    q.vq.lastAvail == q.vq.availIdx <==> q.log.taken == |q.log.published|
  }

  /** An echo is dropped only by a send that found no buffer. */
  lemma DropOnlyWhenEmpty(s: System, a: Act)
    requires Enabled(s, a) && EmptyTest(s.tx)
    ensures var s' := Apply(s, a);
            s'.echoed == s.echoed || s'.echoed == s.echoed + [true]
            || (s'.echoed == s.echoed + [false] && !BufferReady(s))
  {
  }

  lemma NoDropStep(s: System, a: Act)
    requires SystemInv(s) && Enabled(s, a) && BufferReady(s) && AllTrue(s.echoed)
    ensures AllTrue(Apply(s, a).echoed)
  {
    EmptyTestIsExact(s.tx);
    DropOnlyWhenEmpty(s, a);
  }

  lemma {:induction false} NoDrops(s: System, run: seq<Act>)
    requires SystemInv(s) && Feasible(s, run) && BuffersReadyAlong(s, run) && AllTrue(s.echoed)
    ensures AllTrue(Exec(s, run).echoed)
    decreases |run|
  {
    if run != [] {
      NoDropStep(s, run[0]);
      StepKeepsSystemInv(s, run[0]);
      NoDrops(Apply(s, run[0]), run[1..]);
    }
  }

  /** With a transmit buffer always at hand, what goes out is the announcement
      and then the echo of every message the host published, in order: the
      payload back from its destination to its source, in 16 bits. */
  lemma EchoIsExact(s: System, run: seq<Act>)
    requires Start(s) && Feasible(s, run) && BuffersReadyAlong(s, run)
    ensures var e := Exec(s, run);
            && |e.received| - 1 <= |e.echoed| <= |e.received| <= |e.rx.log.published|
            && (!e.Announcing() ==>
                  && |e.sent| == 1 + |e.echoed| && e.sent[0] == e.ns
                  && forall i :: 0 <= i < |e.echoed| ==>
                       && WellFormed(e.rx.log.published[i].content)
                       && var m := Decode(e.rx.log.published[i].content);
                       && e.sent[i + 1].src == m.dst % 0x1_0000 && e.sent[i + 1].dst == m.src % 0x1_0000
                       && e.sent[i + 1].payload == m.payload)
  {
    Reached(s, run);
    StartInv(s);
    NoDrops(s, run);
    AllEchoed(Exec(s, run));
  }

  lemma AllEchoed(e: System)
    requires CtlOk(e) && Echoes(e) && Reception(e) && AllTrue(e.echoed)
    ensures |e.received| - 1 <= |e.echoed| <= |e.received| <= |e.rx.log.published|
    ensures !e.Announcing() ==>
              && |e.sent| == 1 + |e.echoed| && e.sent[0] == e.ns
              && forall i :: 0 <= i < |e.echoed| ==>
                   && WellFormed(e.rx.log.published[i].content)
                   && var m := Decode(e.rx.log.published[i].content);
                   && e.sent[i + 1].src == m.dst % 0x1_0000 && e.sent[i + 1].dst == m.src % 0x1_0000
                   && e.sent[i + 1].payload == m.payload
  {
    EchoesMean(e);
    KeptAll(e.received, e.echoed);
  }

  /** The echo of the i-th message is addressed to its sender, from where it was
      sent to, exactly when both addresses fit in 16 bits. */
  lemma EchoReturnsToSender(s: System, run: seq<Act>, i: nat)
    requires Start(s) && Feasible(s, run)
    requires var e := Exec(s, run); !e.Announcing() && i < |e.echoed| && e.echoed[i]
    ensures var e := Exec(s, run);
            var k := 1 + |set j | 0 <= j < i && e.echoed[j]|;
            && k < |e.sent| && i < |e.rx.log.published| && WellFormed(e.rx.log.published[i].content)
            && var m := Decode(e.rx.log.published[i].content);
            (e.sent[k].dst == m.src && e.sent[k].src == m.dst <==> m.src < 0x1_0000 && m.dst < 0x1_0000)
  {
    Reached(s, run);
    EchoReturns(Exec(s, run), i);
  }

  lemma EchoReturns(e: System, i: nat)
    requires CtlOk(e) && Echoes(e) && Reception(e) && !e.Announcing() && i < |e.echoed| && e.echoed[i]
    ensures var k := 1 + |set j | 0 <= j < i && e.echoed[j]|;
            && k < |e.sent| && i < |e.rx.log.published| && WellFormed(e.rx.log.published[i].content)
            && var m := Decode(e.rx.log.published[i].content);
            (e.sent[k].dst == m.src && e.sent[k].src == m.dst <==> m.src < 0x1_0000 && m.dst < 0x1_0000)
  {
    EchoesMean(e);
    KeptAt(e.received, e.echoed, i);
  }

  // ------------------------------------------------------------- liveness

  function Rank(s: System): nat {
    match s.ctl
    case Clear => 0
    case Poll => 1
    case Receiving => if s.rx.pc.Checked? then 2 else if s.rx.pc.Idle? then 3 else 15
    case Handing(_, _, _, _) => if s.tx.pc.IdWritten? then 4 else if s.tx.pc.Bumped? then 5 else 6
    case Filling(_, _, _, _) => 7
    case Sending(_, _) => if s.tx.pc.Grabbed? then 8 else if s.tx.pc.Checked? then 9 else 10
    case Freeing(_, _) => if s.rx.pc.IdWritten? then 11 else if s.rx.pc.Bumped? then 12 else 13
    case Copying(_, _) => 14
  }

  ghost predicate Quiet(s: System) { s.ctl.Poll? && !s.event }

  /** The announcement has gone out, or can. */
  ghost predicate NotStuck(s: System) {
    s.Announcing() && s.ctl.Sending? && s.tx.pc.Idle? ==> s.tx.log.taken < |s.tx.log.published|
  }

  function Ann(s: System): nat { if s.Announcing() then 1 else 0 }
  function Ev(s: System): nat { if s.event then 1 else 0 }

  ghost predicate Progress(s: System, s': System) {
    && s.Backlog() >= 0 && s'.Backlog() >= 0 && s'.owes == s.owes
    && s'.rx.log.published == s.rx.log.published
    && (Ann(s') < Ann(s) || (Ann(s') == Ann(s) &&
       (Ev(s') < Ev(s) || (Ev(s') == Ev(s) &&
       (s'.Backlog() < s.Backlog() || (s'.Backlog() == s.Backlog() && Rank(s') < Rank(s)))))))
  }

  ghost predicate StepFacts(s: System) {
    && CtlOk(s) && CanStep(s) && InOrder(s.rx) && EmptyTest(s.rx) && EmptyTest(s.tx)
    && (s.rx.pc.Checked? ==> s.rx.log.taken < |s.rx.log.published|)
    && (s.rx.pc.Grabbed? ==> s.rx.pc.head < s.rx.vq.num)
    && (s.tx.pc.Grabbed? ==> s.tx.pc.head < s.tx.vq.num)
  }

  lemma ReceiveProgresses(s: System)
    requires StepFacts(s) && (s.ctl.Receiving? || s.ctl.Copying? || s.ctl.Freeing?)
    ensures NotStuck(PruStep(s)) && Progress(s, PruStep(s))
  {
  }

  lemma SendProgresses(s: System)
    requires StepFacts(s) && s.ctl.Sending? && NotStuck(s)
    ensures NotStuck(PruStep(s)) && Progress(s, PruStep(s))
  {
  }

  lemma HandOverProgresses(s: System)
    requires StepFacts(s) && (s.ctl.Filling? || s.ctl.Handing?)
    ensures NotStuck(PruStep(s)) && Progress(s, PruStep(s))
  {
  }

  lemma PollProgresses(s: System)
    requires StepFacts(s) && (s.ctl.Poll? || s.ctl.Clear?) && !Quiet(s)
    ensures NotStuck(PruStep(s)) && Progress(s, PruStep(s))
  {
  }

  lemma FactsHold(s: System)
    requires SystemInv(s)
    ensures StepFacts(s)
  {
    PruKeeps(s);
    EmptyTestIsExact(s.rx);
    EmptyTestIsExact(s.tx);
    if s.rx.pc.Grabbed? { HeldIsLive(s.rx, s.rx.pc.head); }
    if s.tx.pc.Grabbed? { HeldIsLive(s.tx, s.tx.pc.head); }
  }

  lemma StepProgresses(s: System)
    requires StepFacts(s) && !Quiet(s) && NotStuck(s)
    ensures NotStuck(PruStep(s)) && Progress(s, PruStep(s))
  {
    if s.ctl.Receiving? || s.ctl.Copying? || s.ctl.Freeing? {
      ReceiveProgresses(s);
    } else if s.ctl.Poll? || s.ctl.Clear? {
      PollProgresses(s);
    } else if s.ctl.Filling? || s.ctl.Handing? {
      HandOverProgresses(s);
    } else {
      SendProgresses(s);
    }
  }

  /** The only other possibility: with no transmit buffer and a quiet host the
      announcement is retried for ever. */
  lemma StuckAnnouncing(s: System)
    requires SystemInv(s) && !NotStuck(s)
    ensures CanStep(s) && PruStep(s) == s
  {
    FactsHold(s);
    StuckStep(s);
  }

  lemma StuckStep(s: System)
    requires StepFacts(s) && InOrder(s.tx) && !NotStuck(s)
    ensures PruStep(s) == s
  {
  }

  lemma AtRest(s: System)
    requires Flow(s) && Quiet(s) && !s.owes
    ensures s.Backlog() == 0 && |s.received| == |s.rx.log.published|
  {
  }

  lemma OneStep(s: System) returns (s': System)
    requires SystemInv(s) && NotStuck(s) && !s.owes && !Quiet(s)
    ensures CanStep(s) && s' == PruStep(s) && SystemInv(s')
    ensures NotStuck(s') && Progress(s, s')
  {
    FactsHold(s);
    StepProgresses(s);
    PruKeeps(s);
    s' := PruStep(s);
  }

  lemma Prepend(s: System, rest: seq<Act>) returns (run: seq<Act>)
    requires CanStep(s) && Feasible(PruStep(s), rest)
    ensures Feasible(s, run) && Exec(s, run) == Exec(PruStep(s), rest) && (AllPru(rest) ==> AllPru(run))
  {
    run := [Pru] + rest;
    assert run[1..] == rest && Apply(s, Pru) == PruStep(s);
  }

  predicate AllPru(run: seq<Act>) { forall i :: 0 <= i < |run| ==> run[i] == Pru }

  /** At rest polling, every message of `published` received, none new. */
  ghost predicate Drained(e: System, published: seq<Post>) {
    Quiet(e) && e.Backlog() == 0 && e.rx.log.published == published && |e.received| == |published|
  }

  /** With the host quiet and no kick outstanding, the firmware works off the
      whole backlog in finitely many steps and comes to rest polling. */
  lemma {:induction false} DrainsBacklog(s: System) returns (run: seq<Act>)
    requires SystemInv(s) && NotStuck(s) && !s.owes
    ensures Feasible(s, run) && AllPru(run) && Drained(Exec(s, run), s.rx.log.published)
    decreases Ann(s), Ev(s), s.Backlog(), Rank(s)
  {
    if Quiet(s) {
      run := [];
      AtRest(s);
    } else {
      var s' := OneStep(s);
      var rest := DrainsBacklog(s');
      run := Prepend(s, rest);
    }
  }
}
