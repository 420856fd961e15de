/** The system invariant holds after every step of the firmware and the host.
    `Queues` is inherited from the single-queue proofs; `Flow` is about the
    order and the contents of what passes through them. */
module EchoSafety {
  import opened Words
  import opened RpmsgFormat
  import opened Virtqueue
  import opened VirtqueueSafety
  import opened EchoSystem

  // ------------------------------------------------------------ host steps

  lemma PublishAside(s: Queue, mem: seq<Byte>, head: nat, d: Desc, content: seq<Byte>, other: Queue)
    requires Inv(s, mem) && CanPublish(s, mem, head, d, content) && Inv(other, mem)
    requires s.hi <= other.lo || other.hi <= s.lo
    ensures Inv(other, Publish(s, mem, head, d, content).1)
  {
    var mem' := Publish(s, mem, head, d, content).1;
    SpliceOutside(mem, d, content, other.lo, other.hi);
    FrameKeepsInv(other, mem, mem');
  }

  lemma FillAside(s: Queue, mem: seq<Byte>, head: nat, content: seq<Byte>, other: Queue)
    requires Inv(s, mem) && head in s.log.held && CanFill(s, mem, head, content) && Inv(other, mem)
    requires s.hi <= other.lo || other.hi <= s.lo
    ensures Inv(other, Fill(s, mem, head, content).1)
  {
    HeldIsLive(s, head);
    var mem' := Fill(s, mem, head, content).1;
    SpliceOutside(mem, s.vq.desc[head], content, other.lo, other.hi);
    FrameKeepsInv(other, mem, mem');
  }

  /** How any host step changes a queue, as the firmware can see it. */
  ghost predicate HostMove(q: Queue, q': Queue) {
    && q'.pc == q.pc && q'.log.taken == q.log.taken && q'.log.returned == q.log.returned
    && q'.log.held == q.log.held && q.log.published <= q'.log.published
    && |q'.vq.desc| == |q.vq.desc|
    && (forall h :: h in q.log.held && h < |q.vq.desc| ==> q'.vq.desc[h] == q.vq.desc[h])
    && (forall h :: h in q.log.held && h in q.log.content ==>
          h in q'.log.content && q'.log.content[h] == q.log.content[h])
  }

  ghost predicate HostOnly(s: System, s': System) {
    && HostMove(s.tx, s'.tx) && HostMove(s.rx, s'.rx)
    && s'.ctl == s.ctl && s'.ns == s.ns && s'.received == s.received
    && s'.echoed == s.echoed && s'.sent == s.sent && (s.event ==> s'.event)
  }

  lemma HostKeepsOrder(q: Queue, q': Queue)
    requires HostMove(q, q') && InOrder(q)
    ensures InOrder(q')
  {
  }

  lemma HostKeepsCtl(s: System, s': System)
    requires HostOnly(s, s') && CtlOk(s)
    ensures CtlOk(s')
  {
    match s.ctl {
      case Poll =>
      case Clear =>
      case Receiving =>
      case Copying(h, d) =>
      case Freeing(h, d) =>
      case Sending(m, ann) =>
      case Filling(m, ann, h, d) =>
      case Handing(m, ann, h, d) =>
    }
  }

  lemma HostKeepsFlow(s: System, s': System)
    requires HostOnly(s, s') && Flow(s)
    requires Delivery(s')
    requires forall i :: 0 <= i < |s'.rx.log.published| ==> WellFormed(s'.rx.log.published[i].content)
    requires s'.rx.log.published == s.rx.log.published || s'.owes
    requires s.owes ==> s'.owes || s'.event
    ensures Flow(s')
  {
    HostKeepsOrder(s.tx, s'.tx);
    HostKeepsOrder(s.rx, s'.rx);
    HostKeepsCtl(s, s');
    assert s'.Announcing() == s.Announcing();
    assert Reception(s');
  }

  lemma PublishMoves(s: Queue, mem: seq<Byte>, head: nat, d: Desc, content: seq<Byte>)
    requires CanPublish(s, mem, head, d, content) && head !in s.log.held
    ensures HostMove(s, Publish(s, mem, head, d, content).0)
  {
  }

  /** Publishing keeps both queues' invariants. */
  lemma PublishKeepsBoth(q: Queue, mem: seq<Byte>, head: nat, d: Desc, content: seq<Byte>, other: Queue)
    requires Inv(q, mem) && CanPublish(q, mem, head, d, content) && Inv(other, mem)
    requires q.hi <= other.lo || other.hi <= q.lo
    ensures var (q', mem') := Publish(q, mem, head, d, content);
            Inv(q', mem') && Inv(other, mem') && HostMove(q, q')
  {
    FreeIsIndex(q, head);
    PublishMoves(q, mem, head, d, content);
    PublishKeepsInv(q, mem, head, d, content);
    PublishAside(q, mem, head, d, content, other);
  }

  lemma PostTxKeeps(s: System, head: nat, d: Desc, content: seq<Byte>)
    requires SystemInv(s) && Enabled(s, PostTx(head, d, content))
    ensures SystemInv(Apply(s, PostTx(head, d, content)))
  {
    PublishKeepsBoth(s.tx, s.mem, head, d, content, s.rx);
    HostKeepsFlow(s, Apply(s, PostTx(head, d, content)));
  }

  lemma DeliverFlow(s: System, head: nat, d: Desc, content: seq<Byte>)
    requires Flow(s) && Enabled(s, Deliver(head, d, content))
    requires HostMove(s.rx, Publish(s.rx, s.mem, head, d, content).0)
    ensures Flow(Apply(s, Deliver(head, d, content)))
  {
    HostKeepsFlow(s, Apply(s, Deliver(head, d, content)));
  }

  lemma DeliverKeeps(s: System, head: nat, d: Desc, content: seq<Byte>)
    requires SystemInv(s) && Enabled(s, Deliver(head, d, content))
    ensures SystemInv(Apply(s, Deliver(head, d, content)))
  {
    PublishKeepsBoth(s.rx, s.mem, head, d, content, s.tx);
    DeliverFlow(s, head, d, content);
  }

  lemma KickKeeps(s: System)
    requires SystemInv(s)
    ensures SystemInv(Apply(s, Kick))
  {
    HostKeepsFlow(s, Apply(s, Kick));
  }

  /** The host reads the next message not yet read, byte for byte. */
  lemma ReclaimTxReads(s: System)
    requires Queues(s) && Delivery(s) && Settled(s.tx)
    ensures Enabled(s, ReclaimTx)
    ensures Apply(s, ReclaimTx).got == s.got + [s.sent[s.tx.log.reclaimed]]
  {
    SettledReclaimReads(s.tx, s.mem);
    UnreadIsLive(s.tx, s.tx.log.reclaimed);
  }

  lemma ReclaimMoves(q: Queue)
    requires CanReclaim(q)
    ensures HostMove(q, Reclaim(q))
  {
  }

  lemma ReclaimTxDelivery(s: System)
    requires Delivery(s) && Enabled(s, ReclaimTx)
    requires Apply(s, ReclaimTx).got == s.got + [s.sent[s.tx.log.reclaimed]]
    ensures Delivery(Apply(s, ReclaimTx))
  {
    var k := s.tx.log.reclaimed;
    assert s.sent[..k] + [s.sent[k]] == s.sent[..k + 1];
  }

  lemma ReclaimTxFlow(s: System)
    requires Flow(s) && Enabled(s, ReclaimTx) && Delivery(Apply(s, ReclaimTx))
    ensures Flow(Apply(s, ReclaimTx))
  {
    ReclaimMoves(s.tx);
    HostKeepsFlow(s, Apply(s, ReclaimTx));
  }

  lemma ReclaimTxKeeps(s: System)
    requires SystemInv(s) && Enabled(s, ReclaimTx)
    ensures SystemInv(Apply(s, ReclaimTx))
  {
    ReclaimTxReads(s);
    ReclaimTxDelivery(s);
    ReclaimTxFlow(s);
    ReclaimKeepsInv(s.tx, s.mem);
  }

  lemma ReclaimRxKeeps(s: System)
    requires SystemInv(s) && Enabled(s, ReclaimRx)
    ensures SystemInv(Apply(s, ReclaimRx))
  {
    HostKeepsFlow(s, Apply(s, ReclaimRx));
    ReclaimKeepsInv(s.rx, s.mem);
  }

  // ------------------------------------------------------ Poll, Clear, Kick

  lemma PollKeeps(s: System)
    requires SystemInv(s) && (s.ctl.Poll? || s.ctl.Clear?)
    ensures CanStep(s) && SystemInv(PruStep(s))
  {
    assert s.tx.vq.Shape() && s.rx.vq.Shape();
  }

  /** What the next access of get_avail_buf will find. */
  ghost predicate NextAccess(q: Queue) {
    && (q.pc.Idle? ==> (Check(q).pc.Idle? <==> q.log.taken == |q.log.published|))
    && (q.pc.Checked? ==>
          && q.log.taken < |q.log.published|
          && q.vq.Shape() && Grab(q).pc == Grabbed(q.log.published[q.log.taken].head))
    && (q.pc.Grabbed? ==> q.pc.head in q.log.held)
  }

  // --------------------------------------------------------------- receive

  lemma ReceivingFlow(s: System)
    requires Flow(s) && s.ctl.Receiving? && CanStep(s) && NextAccess(s.rx)
    requires Counters(s.rx) && Tracked(s.rx)
    ensures Flow(PruStep(s))
  {
  }

  lemma RxStep(s: System, s': System)
    requires Queues(s) && s'.tx == s.tx && s'.mem == s.mem
    requires Inv(s'.rx, s.mem) && s'.rx.lo == s.rx.lo && s'.rx.hi == s.rx.hi
    ensures Queues(s')
  {
  }

  lemma TxStep(s: System, s': System)
    requires Queues(s) && s'.rx == s.rx && s'.mem == s.mem
    requires Inv(s'.tx, s.mem) && s'.tx.lo == s.tx.lo && s'.tx.hi == s.tx.hi
    ensures Queues(s')
  {
  }

  /** One access of get_avail_buf. */
  ghost function Obtain(q: Queue): Queue
    requires q.vq.Shape()
  {
    if q.pc.Idle? then Check(q) else if q.pc.Checked? then Grab(q) else Fetch(q)
  }

  lemma ObtainKeepsInv(q: Queue, mem: seq<Byte>)
    requires Inv(q, mem) && Obtaining(q)
    ensures Inv(Obtain(q), mem) && NextAccess(q)
    ensures q.pc.Grabbed? ==> q.pc.head < q.vq.num
  {
    if q.pc.Idle? {
      CheckKeepsInv(q, mem);
    } else if q.pc.Checked? {
      GrabKeepsInv(q, mem);
    } else {
      FetchKeepsInv(q, mem);
    }
  }

  lemma ReceivingDoes(s: System)
    requires s.rx.vq.Shape() && s.tx.vq.Shape() && s.ctl.Receiving? && Obtaining(s.rx)
    requires s.rx.pc.Grabbed? ==> s.rx.pc.head < s.rx.vq.num
    ensures CanStep(s)
    ensures var s' := PruStep(s);
            s'.rx == Obtain(s.rx) && s'.rx.lo == s.rx.lo && s'.rx.hi == s.rx.hi && s'.tx == s.tx && s'.mem == s.mem
  {
  }

  lemma ReceivingQueues(s: System)
    requires Queues(s) && CtlOk(s) && s.ctl.Receiving?
    ensures CanStep(s) && Queues(PruStep(s)) && NextAccess(s.rx)
  {
    ObtainKeepsInv(s.rx, s.mem);
    ReceivingDoes(s);
    RxStep(s, PruStep(s));
  }

  lemma ReceivingKeeps(s: System)
    requires SystemInv(s) && s.ctl.Receiving?
    ensures CanStep(s) && SystemInv(PruStep(s))
  {
    ReceivingQueues(s);
    assert Tracked(s.rx);
    ReceivingFlow(s);
  }

  /** What the PRU copies out is the oldest message it had not yet received. */
  lemma CopyReads(s: System)
    requires Queues(s) && InOrder(s.rx) && CtlOk(s) && Reception(s) && s.ctl.Copying?
    ensures CanStep(s)
    ensures Content(s.mem, s.ctl.d) == s.rx.log.published[|s.received|].content
  {
    HeldIsLive(s.rx, s.ctl.head);
  }

  lemma {:induction false} KeptGrows(received: seq<Msg>, echoed: seq<bool>, m: Msg)
    requires |echoed| <= |received|
    ensures Kept(received + [m], echoed) == Kept(received, echoed)
    decreases |echoed|
  {
    if echoed != [] {
      KeptGrows(received, echoed[..|echoed| - 1], m);
    }
  }

  lemma CopyingFlow(s: System)
    requires Flow(s) && s.ctl.Copying? && CanStep(s)
    requires Content(s.mem, s.ctl.d) == s.rx.log.published[|s.received|].content
    ensures Flow(PruStep(s))
  {
    KeptGrows(s.received, s.echoed, Seen(Decode(Content(s.mem, s.ctl.d))));
  }

  lemma CopyingKeeps(s: System)
    requires SystemInv(s) && s.ctl.Copying?
    ensures CanStep(s) && SystemInv(PruStep(s))
  {
    CopyReads(s);
    CopyingFlow(s);
  }

  /** One access of pru_virtqueue_add_used_buf, as the flow sees it. */
  lemma HandOverEffect(q: Queue, h: nat, d: Desc)
    requires InOrder(q) && Handover(q, h, d) && q.vq.Shape() && (q.pc.Idle? || InHandOver(q))
    ensures var q' := HandOver(q, UsedElem(h, d.len));
            && InOrder(q') && q'.vq.desc == q.vq.desc
            && if q.pc.IdWritten?
               then && h in q.log.content && Resting(q')
                    && q'.log == q.log.(held := {}, returned := q.log.returned
                                        + [Handed(UsedElem(h, d.len), q.log.content[h])])
               else Handover(q', h, d) && q'.log == q.log && !q'.pc.Idle?
  {
  }

  lemma FreeingFlow(s: System)
    requires Flow(s) && s.ctl.Freeing? && CanStep(s)
    ensures Flow(PruStep(s))
  {
    HandOverEffect(s.rx, s.ctl.head, s.ctl.d);
    assert s.received[|s.received| - 1].Fits();
  }

  lemma FreeingKeeps(s: System)
    requires SystemInv(s) && s.ctl.Freeing?
    ensures CanStep(s) && SystemInv(PruStep(s))
  {
    if s.rx.pc.Idle? {
      BumpKeepsInv(s.rx, s.mem, UsedElem(s.ctl.head, s.ctl.d.len));
    } else if s.rx.pc.Bumped? {
      WriteIdKeepsInv(s.rx, s.mem);
    } else {
      WriteLenKeepsInv(s.rx, s.mem);
    }
    FreeingFlow(s);
  }

  // ------------------------------------------------------------------ send

  lemma KeptSnoc(received: seq<Msg>, echoed: seq<bool>, b: bool)
    requires |echoed| < |received|
    ensures Kept(received, echoed + [b])
         == Kept(received, echoed) + (if b then [Swap(received[|echoed|])] else [])
  {
    assert (echoed + [b])[..|echoed|] == echoed;
  }

  /** No buffer: retry the announcement, or give this echo up. */
  lemma SendingFlowEmpty(s: System)
    requires Flow(s) && s.ctl.Sending? && CanStep(s) && NextAccess(s.tx)
    requires s.tx.pc.Idle? && Check(s.tx).pc.Idle?
    ensures Flow(PruStep(s))
  {
    if !s.ctl.ann { KeptSnoc(s.received, s.echoed, false); }
  }

  lemma SendingFlowGo(s: System)
    requires Flow(s) && s.ctl.Sending? && CanStep(s) && NextAccess(s.tx)
    requires s.tx.pc.Idle? && !Check(s.tx).pc.Idle?
    ensures Flow(PruStep(s))
  {
  }

  lemma SendingFlowGrab(s: System)
    requires Flow(s) && s.ctl.Sending? && CanStep(s) && NextAccess(s.tx) && s.tx.pc.Checked?
    ensures Flow(PruStep(s))
  {
    GrabInOrder(s.tx);
  }

  lemma SendingFlowFetch(s: System)
    requires Flow(s) && s.ctl.Sending? && CanStep(s) && NextAccess(s.tx) && s.tx.pc.Grabbed?
    ensures Flow(PruStep(s))
  {
  }

  lemma GrabInOrder(q: Queue)
    requires q.pc.Checked? && InOrder(q) && Balanced(q) && NextAccess(q)
    ensures InOrder(Grab(q)) && !Balanced(Grab(q)) && Grab(q).pc.Grabbed?
  {
  }

  lemma SendingDoes(s: System)
    requires s.rx.vq.Shape() && s.tx.vq.Shape() && s.ctl.Sending? && Obtaining(s.tx)
    requires s.tx.pc.Grabbed? ==> s.tx.pc.head < s.tx.vq.num
    ensures CanStep(s)
    ensures var s' := PruStep(s);
            s'.tx == Obtain(s.tx) && s'.tx.lo == s.tx.lo && s'.tx.hi == s.tx.hi && s'.rx == s.rx && s'.mem == s.mem
  {
  }

  lemma SendingQueues(s: System)
    requires Queues(s) && CtlOk(s) && s.ctl.Sending?
    ensures CanStep(s) && Queues(PruStep(s)) && NextAccess(s.tx)
  {
    ObtainKeepsInv(s.tx, s.mem);
    SendingDoes(s);
    TxStep(s, PruStep(s));
  }

  lemma SendingKeeps(s: System)
    requires SystemInv(s) && s.ctl.Sending?
    ensures CanStep(s) && SystemInv(PruStep(s))
  {
    SendingQueues(s);
    if s.tx.pc.Checked? {
      SendingFlowGrab(s);
    } else if s.tx.pc.Grabbed? {
      SendingFlowFetch(s);
    } else if Check(s.tx).pc.Idle? {
      SendingFlowEmpty(s);
    } else {
      SendingFlowGo(s);
    }
  }

  lemma FillingFlow(s: System, s': System, e: seq<Byte>)
    requires Flow(s) && s.ctl.Filling? && WellFormed(e) && Decode(e) == s.ctl.m
    requires s' == s.(tx := s.tx.(log := s.tx.log.(content := s.tx.log.content[s.ctl.head := e])), mem := s'.mem,
                      ctl := Handing(s.ctl.m, s.ctl.ann, s.ctl.head, s.ctl.d))
    ensures Flow(s')
  {
  }

  lemma FillingQueues(s: System, e: seq<Byte>)
    requires Queues(s) && s.ctl.Filling? && s.ctl.head in s.tx.log.held && |e| == BUF_SIZE
    ensures CanFill(s.tx, s.mem, s.ctl.head, e)
    ensures var (tx, mem) := Fill(s.tx, s.mem, s.ctl.head, e); Inv(tx, mem) && Inv(s.rx, mem)
  {
    HeldIsLive(s.tx, s.ctl.head);
    FillKeepsInv(s.tx, s.mem, s.ctl.head, e);
    FillAside(s.tx, s.mem, s.ctl.head, e, s.rx);
  }

  lemma CanFillNow(s: System)
    requires Queues(s) && CtlOk(s) && s.ctl.Filling?
    ensures CanStep(s)
  {
    HeldIsLive(s.tx, s.ctl.head);
  }

  lemma FillingKeeps(s: System)
    requires SystemInv(s) && s.ctl.Filling?
    ensures CanStep(s) && SystemInv(PruStep(s))
  {
    CanFillNow(s);
    var was := Content(s.mem, s.ctl.d);
    var e := Encode(s.ctl.m, was);
    DecodeEncode(s.ctl.m, was);
    FillingQueues(s, e);
    FillingFlow(s, PruStep(s), e);
  }

  lemma HandingFlowPart(s: System)
    requires Flow(s) && s.ctl.Handing? && CanStep(s) && !s.tx.pc.IdWritten?
    ensures Flow(PruStep(s))
  {
    HandOverEffect(s.tx, s.ctl.head, s.ctl.d);
  }

  /** The effect of the access that completes a send. */
  ghost predicate SendDone(s: System, s': System, m: Msg, ann: bool, h: nat, d: Desc) {
    && h in s.tx.log.content && WellFormed(s.tx.log.content[h]) && Decode(s.tx.log.content[h]) == m
    && s'.tx.log == s.tx.log.(held := {}, returned := s.tx.log.returned
                              + [Handed(UsedElem(h, d.len), s.tx.log.content[h])])
    && Resting(s'.tx) && InOrder(s'.tx) && s'.rx == s.rx && s'.event == s.event && s'.owes == s.owes
    && s'.ns == s.ns && s'.received == s.received && s'.got == s.got && s'.sent == s.sent + [m]
    && (if ann then s'.ctl == Poll && s'.echoed == s.echoed
        else s'.ctl == Receiving && s'.echoed == s.echoed + [true])
  }

  lemma HandingDoes(s: System, m: Msg, ann: bool, h: nat, d: Desc)
    requires s.ctl == Handing(m, ann, h, d) && CanStep(s) && s.tx.pc.IdWritten?
    requires CtlOk(s) && InOrder(s.tx)
    ensures SendDone(s, PruStep(s), m, ann, h, d)
  {
    HandOverEffect(s.tx, h, d);
  }

  lemma DoneDelivery(s: System, s': System, m: Msg, ann: bool, h: nat, d: Desc)
    requires SendDone(s, s', m, ann, h, d) && Delivery(s)
    ensures Delivery(s')
  {
  }

  lemma DoneEchoes(s: System, s': System, m: Msg, ann: bool, h: nat, d: Desc)
    requires s.ctl == Handing(m, ann, h, d)
    requires SendDone(s, s', m, ann, h, d) && Echoes(s) && SendOk(s, m, ann)
    ensures Echoes(s')
  {
    if !ann { KeptSnoc(s.received, s.echoed, true); }
  }

  lemma HandingFlowDone(s: System)
    requires Flow(s) && s.ctl.Handing? && CanStep(s) && s.tx.pc.IdWritten?
    ensures Flow(PruStep(s))
  {
    var Handing(m, ann, h, d) := s.ctl;
    HandingDoes(s, m, ann, h, d);
    DoneFlow(s, PruStep(s), m, ann, h, d);
  }

  lemma DoneFlow(s: System, s': System, m: Msg, ann: bool, h: nat, d: Desc)
    requires s.ctl == Handing(m, ann, h, d)
    requires SendDone(s, s', m, ann, h, d) && Flow(s)
    ensures Flow(s')
  {
    DoneDelivery(s, s', m, ann, h, d);
    DoneEchoes(s, s', m, ann, h, d);
    assert CtlOk(s');
  }

  lemma HandingQueues(s: System)
    requires Queues(s) && CtlOk(s) && s.ctl.Handing?
    ensures CanStep(s) && Queues(PruStep(s))
  {
    if s.tx.pc.Idle? {
      BumpKeepsInv(s.tx, s.mem, UsedElem(s.ctl.head, s.ctl.d.len));
    } else if s.tx.pc.Bumped? {
      WriteIdKeepsInv(s.tx, s.mem);
    } else {
      WriteLenKeepsInv(s.tx, s.mem);
    }
  }

  lemma HandingKeeps(s: System)
    requires SystemInv(s) && s.ctl.Handing?
    ensures CanStep(s) && SystemInv(PruStep(s))
  {
    HandingQueues(s);
    if s.tx.pc.IdWritten? { HandingFlowDone(s); } else { HandingFlowPart(s); }
  }
}
