/** The echo firmware (examples/firmware_examples/archive_firmware/rpmsg_echo/main.c)
    running against the ARM host: two virtqueues in one memory, the event that
    wakes the PRU, and the control state of `main` and of the RPMsg call it is
    in.  `PruStep` is one memory access of the firmware; the host acts in
    between, in separate publish, kick and reclaim steps. */
module EchoSystem {
  import opened Words
  import opened RpmsgFormat
  import opened Virtqueue

  /** Where `main` is.  `ann` tells the announce-retry loop from the echo loop. */
  datatype Ctl =
    | Poll                               // reading R31
    | Clear                              // saw the event, about to clear it
    | Receiving                          // in pru_virtqueue_get_avail_buf of receive
    | Copying(head: nat, d: Desc)        // about to copy the message out
    | Freeing(head: nat, d: Desc)        // in pru_virtqueue_add_used_buf of receive
    | Sending(m: Msg, ann: bool)         // in pru_virtqueue_get_avail_buf of send
    | Filling(m: Msg, ann: bool, head: nat, d: Desc)
    | Handing(m: Msg, ann: bool, head: nat, d: Desc)

  datatype System = System(
    tx: Queue,                // virtqueue0: PRU to host
    rx: Queue,                // virtqueue1: host to PRU
    mem: seq<Byte>,
    ctl: Ctl,
    event: bool,              // the system event from the ARM is pending
    owes: bool,               // the host has published and not yet kicked
    ns: Msg,                  // the announcement
    received: seq<Msg>,       // what pru_rpmsg_receive has reported
    echoed: seq<bool>,        // for each of them, did its echo succeed
    sent: seq<Msg>,           // arguments of every successful send
    got: seq<Msg>)            // what the host has read back
  {
    predicate Announcing() {
      (ctl.Sending? || ctl.Filling? || ctl.Handing?) && ctl.ann
    }

    /** Between clearing the event and the empty check that ends the drain. */
    predicate Draining() {
      !ctl.Poll? && !ctl.Clear? && !Announcing()
    }

    /** Messages published to the PRU and not yet taken by it. */
    function Backlog(): int { |rx.log.published| - rx.log.taken }
  }

  // -------------------------------------------------------------- firmware

  ghost predicate Ready(q: Queue, h: nat, d: Desc, mem: seq<Byte>) {
    && q.vq.Shape() && h in q.log.held && h < q.vq.num
    && d == q.vq.desc[h] && d.addr + BUF_SIZE <= |mem|
  }

  /** What the next access of the firmware needs of the state; every reachable
      state provides it (StepKeepsSystemInv). */
  ghost predicate CanStep(s: System) {
    s.rx.vq.Shape() && s.tx.vq.Shape() &&
    match s.ctl
    case Poll => true
    case Clear => true
    case Receiving => s.rx.pc.Idle? || s.rx.pc.Checked? || s.rx.pc.Grabbed?
    case Copying(h, d) => Ready(s.rx, h, d, s.mem) && WellFormed(Content(s.mem, d))
    case Freeing(h, d) => s.received != [] && (s.rx.pc.Idle? || InHandOver(s.rx))
    case Sending(m, ann) => s.tx.pc.Idle? || s.tx.pc.Checked? || s.tx.pc.Grabbed?
    case Filling(m, ann, h, d) => m.Fits() && Ready(s.tx, h, d, s.mem)
    case Handing(m, ann, h, d) => s.tx.pc.Idle? || InHandOver(s.tx)
  }

  ghost function HandOver(q: Queue, elem: UsedElem): Queue
    requires q.vq.Shape() && (q.pc.Idle? || InHandOver(q))
  {
    if q.pc.Idle? then Bump(q, elem) else if q.pc.Bumped? then WriteId(q) else WriteLen(q)
  }

  ghost function PruStep(s: System): System
    requires CanStep(s)
  {
    match s.ctl
    case Poll => if s.event then s.(ctl := Clear) else s
    case Clear => s.(event := false, ctl := Receiving)
    case Receiving =>
      if s.rx.pc.Idle? then
        var rx := Check(s.rx);
        if rx.pc.Idle? then s.(ctl := Poll) else s.(rx := rx)
      else if s.rx.pc.Checked? then s.(rx := Grab(s.rx))
      else
        var h := s.rx.pc.head;
        if h < s.rx.vq.num then s.(rx := Fetch(s.rx), ctl := Copying(h, s.rx.vq.desc[h])) else s
    case Copying(h, d) =>
      s.(received := s.received + [Seen(Decode(Content(s.mem, d)))], ctl := Freeing(h, d))
    case Freeing(h, d) =>
      var rx := HandOver(s.rx, UsedElem(h, d.len));
      if s.rx.pc.IdWritten?
      then s.(rx := rx, ctl := Sending(Swap(s.received[|s.received| - 1]), false))
      else s.(rx := rx)
    case Sending(m, ann) =>
      if s.tx.pc.Idle? then
        var tx := Check(s.tx);
        if !tx.pc.Idle? then s.(tx := tx)
        else if ann then s                                     // try again
        else s.(echoed := s.echoed + [false], ctl := Receiving)  // echo dropped
      else if s.tx.pc.Checked? then s.(tx := Grab(s.tx))
      else
        var h := s.tx.pc.head;
        if h < s.tx.vq.num then s.(tx := Fetch(s.tx), ctl := Filling(m, ann, h, s.tx.vq.desc[h])) else s
    case Filling(m, ann, h, d) =>
      var (tx, mem) := Fill(s.tx, s.mem, h, Encode(m, Content(s.mem, d)));
      s.(tx := tx, mem := mem, ctl := Handing(m, ann, h, d))
    case Handing(m, ann, h, d) =>
      var tx := HandOver(s.tx, UsedElem(h, d.len));
      if !s.tx.pc.IdWritten? then s.(tx := tx)
      else if ann then s.(tx := tx, sent := s.sent + [m], ctl := Poll)
      else s.(tx := tx, sent := s.sent + [m], echoed := s.echoed + [true], ctl := Receiving)
  }

  // ------------------------------------------------------------------ host

  datatype Act =
    | Pru
    | PostTx(head: nat, d: Desc, content: seq<Byte>)   // give the PRU a buffer to send in
    | Deliver(head: nat, d: Desc, content: seq<Byte>)  // publish a message for the PRU
    | Kick
    | ReclaimTx                                        // read a message from the PRU
    | ReclaimRx

  ghost predicate Enabled(s: System, a: Act) {
    match a
    case Pru => CanStep(s)
    case PostTx(head, d, content) => CanPublish(s.tx, s.mem, head, d, content)
    case Deliver(head, d, content) => CanPublish(s.rx, s.mem, head, d, content) && WellFormed(content)
    case Kick => true
    case ReclaimTx =>
      && CanReclaim(s.tx) && Settled(s.tx) && NextUsed(s.tx).id < s.tx.vq.num
      && var d := s.tx.vq.desc[NextUsed(s.tx).id];
      d.addr + BUF_SIZE <= |s.mem| && WellFormed(Content(s.mem, d))
    case ReclaimRx => CanReclaim(s.rx) && Settled(s.rx)
  }

  ghost function Apply(s: System, a: Act): System
    requires Enabled(s, a)
  {
    match a
    case Pru => PruStep(s)
    case PostTx(head, d, content) =>
      var (tx, mem) := Publish(s.tx, s.mem, head, d, content);
      s.(tx := tx, mem := mem)
    case Deliver(head, d, content) =>
      var (rx, mem) := Publish(s.rx, s.mem, head, d, content);
      s.(rx := rx, mem := mem, owes := true)
    case Kick => s.(event := true, owes := false)
    case ReclaimTx =>
      var d := s.tx.vq.desc[NextUsed(s.tx).id];
      s.(got := s.got + [Decode(Content(s.mem, d))], tx := Reclaim(s.tx))
    case ReclaimRx => s.(rx := Reclaim(s.rx))
  }

  // ------------------------------------------------------------- invariant

  /** Entries go back in the order they were published, one at a time. */
  ghost predicate InOrder(q: Queue) {
    && |q.log.returned| <= q.log.taken <= |q.log.returned| + 1
    && q.log.taken <= |q.log.published|
    && (forall i :: 0 <= i < |q.log.returned| ==> q.log.returned[i].elem.id == q.log.published[i].head)
    && q.log.held == (if q.log.taken == |q.log.returned| then {}
                      else {q.log.published[|q.log.returned|].head})
  }

  predicate Balanced(q: Queue) { q.log.taken == |q.log.returned| }

  predicate Resting(q: Queue) { q.pc.Idle? && Balanced(q) }

  predicate Handover(q: Queue, h: nat, d: Desc) {
    && !Balanced(q) && h in q.log.held && h < |q.vq.desc| && d == q.vq.desc[h]
    && (q.pc.Idle? || q.pc.Bumped? || q.pc.IdWritten?)
    && (!q.pc.Idle? ==> q.pc.elem == UsedElem(h, d.len))
  }

  predicate Holding(q: Queue, h: nat, d: Desc) { Handover(q, h, d) && q.pc.Idle? }

  predicate Obtaining(q: Queue) {
    || (q.pc.Idle? && Balanced(q))
    || (q.pc.Checked? && Balanced(q))
    || (q.pc.Grabbed? && !Balanced(q))
  }

  predicate Echo(s: System, m: Msg) { s.received != [] && m == Swap(s.received[|s.received| - 1]) }

  ghost predicate SendOk(s: System, m: Msg, ann: bool) {
    && Resting(s.rx) && m.Fits()
    && (if ann then m == s.ns && s.received == [] else Echo(s, m))
  }

  ghost predicate CtlOk(s: System) {
    match s.ctl
    case Poll => Resting(s.tx) && Resting(s.rx)
    case Clear => Resting(s.tx) && Resting(s.rx) && s.event
    case Receiving => Resting(s.tx) && Obtaining(s.rx)
    case Copying(h, d) => Resting(s.tx) && Holding(s.rx, h, d)
    case Freeing(h, d) => Resting(s.tx) && Handover(s.rx, h, d) && s.received != []
    case Sending(m, ann) => SendOk(s, m, ann) && Obtaining(s.tx)
    case Filling(m, ann, h, d) => SendOk(s, m, ann) && Holding(s.tx, h, d)
    case Handing(m, ann, h, d) =>
      && SendOk(s, m, ann) && Handover(s.tx, h, d)
      && h in s.tx.log.content && WellFormed(s.tx.log.content[h]) && Decode(s.tx.log.content[h]) == m
  }

  /** The host has read, in order, exactly the messages handed over so far. */
  ghost predicate Delivery(s: System) {
    && |s.sent| == |s.tx.log.returned| && s.tx.log.reclaimed <= |s.sent|
    && (forall i :: 0 <= i < |s.sent| ==>
          WellFormed(s.tx.log.returned[i].content) && Decode(s.tx.log.returned[i].content) == s.sent[i])
    && s.got == s.sent[..s.tx.log.reclaimed]
  }

  /** A head taken from the receive queue whose message is not yet copied. */
  predicate Uncopied(s: System) { s.ctl.Copying? || (s.ctl.Receiving? && s.rx.pc.Grabbed?) }

  ghost predicate Reception(s: System) {
    && s.rx.log.taken <= |s.rx.log.published|
    && |s.received| == s.rx.log.taken - (if Uncopied(s) then 1 else 0)
    && (forall i :: 0 <= i < |s.rx.log.published| ==> WellFormed(s.rx.log.published[i].content))
    && (forall i :: 0 <= i < |s.received| ==>
          s.received[i] == Seen(Decode(s.rx.log.published[i].content)))
    && (|s.rx.log.returned| < s.rx.log.taken ==>
          var p := s.rx.log.published[|s.rx.log.returned|];
          p.head in s.rx.log.content && s.rx.log.content[p.head] == p.content)
  }

  /** The echoes of the messages whose flag is set, in order. */
  function Kept(received: seq<Msg>, echoed: seq<bool>): (r: seq<Msg>)
    requires |echoed| <= |received|
    decreases |echoed|
  {
    if echoed == [] then []
    else
      var k := |echoed| - 1;
      Kept(received, echoed[..k]) + (if echoed[k] then [Swap(received[k])] else [])
  }

  /** A message received whose echo has not been attempted to the end. */
  predicate EchoOpen(s: System) {
    s.ctl.Freeing? || ((s.ctl.Sending? || s.ctl.Filling? || s.ctl.Handing?) && !s.ctl.ann)
  }

  ghost predicate Echoes(s: System) {
    && |s.echoed| == |s.received| - (if EchoOpen(s) then 1 else 0)
    && s.sent == (if s.Announcing() then [] else [s.ns]) + Kept(s.received, s.echoed)
  }

  /** Whenever a message waits, the event is pending, or the host still owes the
      kick for it, or the PRU has yet to make the empty check that ends a drain. */
  ghost predicate NoLostWakeUp(s: System) {
    s.Backlog() > 0 ==> s.event || s.owes || s.Draining()
  }

  ghost predicate Queues(s: System) {
    && Inv(s.tx, s.mem) && Inv(s.rx, s.mem)
    && (s.tx.hi <= s.rx.lo || s.rx.hi <= s.tx.lo)
  }

  ghost predicate Flow(s: System) {
    && InOrder(s.tx) && InOrder(s.rx) && CtlOk(s)
    && Delivery(s) && Reception(s) && Echoes(s) && NoLostWakeUp(s)
  }

  ghost predicate SystemInv(s: System) { Queues(s) && Flow(s) }
}
