/** pru_rpmsg_send, pru_rpmsg_receive and pru_rpmsg_channel
    (examples/lib/src/pru_rpmsg.c) over two virtqueues in one memory. */
module RpmsgCalls {
  import opened Words
  import opened RpmsgFormat
  import opened Virtqueue
  import opened VirtqueueSafety
  import opened VirtqueueCalls
  import opened EchoSystem
  import VirtqueueRuns

  const RPMSG_SUCCESS := 0
  const RPMSG_NO_BUF_AVAILABLE := -1
  const RPMSG_BUF_TOO_SMALL := -2
  const RPMSG_INVALID_HEAD := -3
  const RPMSG_INVALID_EVENT := -4
  const MAX_VALID_EVENT: nat := 31
  const MIN_VALID_EVENT: nat := 16

  // ------------------------------------------------------- what a call does

  ghost predicate HasBuffer(q: Queue) { q.log.taken < |q.log.published| }

  ghost function NextPost(q: Queue): Post
    requires HasBuffer(q)
  {
    q.log.published[q.log.taken]
  }

  /** Between calls: invariant, in order, nothing held. */
  ghost predicate AtRest(q: Queue, mem: seq<Byte>) {
    Inv(q, mem) && q.pc.Idle? && InOrder(q) && Balanced(q)
  }

  /** One descriptor moves from available to used, its buffer now `content`. */
  ghost predicate Moved(q: Queue, q': Queue, content: seq<Byte>) {
    && HasBuffer(q) && NextPost(q).head < |q.vq.desc|
    && var h := NextPost(q).head;
    && q'.log == q.log.(taken := q.log.taken + 1,
                        content := q.log.content[h := content],
                        returned := q.log.returned + [Handed(UsedElem(h, q.vq.desc[h].len), content)])
    && q'.vq == q.vq.(lastAvail := (q.vq.lastAvail + 1) % U16, usedIdx := (q.vq.usedIdx + 1) % U16,
                      usedRing := q'.vq.usedRing)
    && q'.pc == q.pc && q'.lo == q.lo && q'.hi == q.hi
  }

  /** The queue and memory effect of sending m. */
  ghost predicate Sent(q: Queue, mem: seq<Byte>, q': Queue, mem': seq<Byte>, m: Msg) {
    && m.Fits() && HasBuffer(q) && NextPost(q).head < |q.vq.desc|
    && var d := q.vq.desc[NextPost(q).head];
    && d.addr + BUF_SIZE <= |mem|
    && var content := Encode(m, Content(mem, d));
    && Moved(q, q', content) && mem' == Splice(mem, d.addr, content)
  }

  /** The oldest message moved from available to used, and m is what it says. */
  ghost predicate TookMessage(q: Queue, q': Queue, m: Msg) {
    && HasBuffer(q) && WellFormed(NextPost(q).content)
    && m == Seen(Decode(NextPost(q).content)) && Moved(q, q', NextPost(q).content)
  }

  /** A send, in the terms of memory and rings: the oldest buffer goes back under
      its own id and length, and what it holds reads as the message. */
  lemma SentMeans(q: Queue, mem: seq<Byte>, q': Queue, mem': seq<Byte>, m: Msg)
    requires Sent(q, mem, q', mem', m)
    ensures q.log.taken < |q.log.published| && q'.log.published == q.log.published
    ensures q'.log.taken == q.log.taken + 1 && |q'.log.returned| == |q.log.returned| + 1
    ensures q'.log.returned[..|q.log.returned|] == q.log.returned
    ensures q'.vq.usedIdx == (q.vq.usedIdx + 1) % 0x1_0000 && q'.vq.lastAvail == (q.vq.lastAvail + 1) % 0x1_0000
    ensures var h, r := q.log.published[q.log.taken].head, q'.log.returned[|q.log.returned|];
            && h < |q.vq.desc| && var d := q.vq.desc[h];
            && r.elem.id == h && r.elem.len == d.len
            && WellFormed(r.content) && Decode(r.content) == m
            && d.addr + 512 <= |mem| == |mem'| && mem'[d.addr..d.addr + 512] == r.content
            && mem'[..d.addr] == mem[..d.addr] && mem'[d.addr + 512..] == mem[d.addr + 512..]
            && 16 + |m.payload| <= 512
            && r.content[16 + |m.payload|..] == mem[d.addr..d.addr + 512][16 + |m.payload|..]
  {
    var d := q.vq.desc[NextPost(q).head];
    var was := Content(mem, d);
    DecodeEncode(m, was);
    EncodeBytes(m, was);
    SpliceHere(mem, d, Encode(m, was));
  }

  /** A receive, in the same terms: the addresses are the low 16 bits of the
      message's, and the buffer goes back as it was. */
  lemma TookMeans(q: Queue, q': Queue, m: Msg)
    requires TookMessage(q, q', m)
    ensures q.log.taken < |q.log.published| && q'.log.published == q.log.published
    ensures q'.log.taken == q.log.taken + 1
    ensures var p := q.log.published[q.log.taken];
            && p.head < |q.vq.desc| && |p.content| == 512
            && q'.log.returned
               == q.log.returned + [Handed(UsedElem(p.head, q.vq.desc[p.head].len), p.content)]
            && m.src == p.content[0] as int + 0x100 * p.content[1] as int
            && m.dst == p.content[4] as int + 0x100 * p.content[5] as int
            && |m.payload| == p.content[12] as int + 0x100 * p.content[13] as int <= 496
            && m.payload == p.content[16..16 + |m.payload|]
  {
    DecodeBytes(NextPost(q).content);
  }

  lemma SpliceSame(mem: seq<Byte>, d: Desc, content: seq<Byte>)
    requires d.addr + BUF_SIZE <= |mem| && content == Content(mem, d)
    ensures Splice(mem, d.addr, content) == mem
  {
  }

  /** Take, fill with `content`, return. */
  ghost function Exchange(q: Queue, content: seq<Byte>): Queue
    requires q.vq.Shape() && HasBuffer(q)
  {
    var p := NextPost(q);
    var t := TakeHead(q);
    var f := t.(log := t.log.(content := t.log.content[p.head := content]));
    if p.head < q.vq.num then ReturnHead(f, UsedElem(p.head, q.vq.desc[p.head].len)) else f
  }

  lemma ExchangeKeeps(q: Queue, mem: seq<Byte>, content: seq<Byte>)
    requires AtRest(q, mem) && HasBuffer(q) && |content| == BUF_SIZE
    ensures var h := NextPost(q).head;
            && h < q.vq.num && Placed(q, mem, q.vq.desc[h])
            && AtRest(Exchange(q, content), Splice(mem, q.vq.desc[h].addr, content))
  {
    var h := NextPost(q).head;
    TakeHeadIs(q, mem);
    TakeHeadKeepsInv(q, mem);
    var t := TakeHead(q);
    FillKeepsInv(t, mem, h, content);
    var (f, mem') := Fill(t, mem, h, content);
    ReturnHeadKeepsInv(f, mem', UsedElem(h, q.vq.desc[h].len));
    ReturnHeadIs(f, UsedElem(h, q.vq.desc[h].len));
    ExchangeInOrder(q, content);
  }

  /** Taking a buffer and returning it as it is. */
  lemma ExchangeOwn(q: Queue, mem: seq<Byte>)
    requires AtRest(q, mem) && HasBuffer(q)
    ensures AtRest(Exchange(q, NextPost(q).content), mem)
  {
    var p := NextPost(q);
    OwnContent(q, mem);
    ExchangeKeeps(q, mem, p.content);
    SpliceSame(mem, q.vq.desc[p.head], p.content);
  }

  lemma OwnContent(q: Queue, mem: seq<Byte>)
    requires AtRest(q, mem) && HasBuffer(q)
    ensures var p := NextPost(q);
            && p.head < q.vq.num && |p.content| == BUF_SIZE && Placed(q, mem, q.vq.desc[p.head])
            && p.content == Content(mem, q.vq.desc[p.head])
            && var t := TakeHead(q); t == t.(log := t.log.(content := t.log.content[p.head := p.content]))
  {
    var p := NextPost(q);
    TakeHeadIs(q, mem);
    assert q.log.content[p.head := p.content] == q.log.content;
  }

  lemma ExchangeInOrder(q: Queue, content: seq<Byte>)
    requires q.vq.Shape() && q.pc.Idle? && InOrder(q) && Balanced(q) && HasBuffer(q) && NextPost(q).head < q.vq.num
    requires TakeHead(q) == q.(vq := q.vq.(lastAvail := (q.vq.lastAvail + 1) % U16),
                               log := q.log.(held := q.log.held + {NextPost(q).head}, taken := q.log.taken + 1))
    ensures var q' := Exchange(q, content);
            q'.pc.Idle? && InOrder(q') && Balanced(q') && Moved(q, q', content)
  {
    var h := NextPost(q).head;
    var t := TakeHead(q);
    var f := t.(log := t.log.(content := t.log.content[h := content]));
    ReturnHeadIs(f, UsedElem(h, q.vq.desc[h].len));
    assert {h} - {h} == {};
  }
  // ----------------------------------------------------------- memory access

  lemma SpliceAt(mem: seq<Byte>, at: nat, bytes: seq<Byte>, k: nat)
    requires at + |bytes| <= |mem| && k < |mem|
    ensures Splice(mem, at, bytes)[k] == if at <= k < at + |bytes| then bytes[k - at] else mem[k]
  {
  }

  /** The stores of pru_rpmsg_send, in its order. */
  function Stores(mem: seq<Byte>, at: nat, m: Msg): (r: seq<Byte>)
    requires m.Fits() && at + BUF_SIZE <= |mem|
    ensures |r| == |mem|
  {
    var m1 := Splice(mem, at + HDR_SIZE, m.payload);
    var m2 := Splice(m1, at + 12, LE(|m.payload|, 2));
    var m3 := Splice(m2, at + 4, LE(m.dst, 4));
    var m4 := Splice(m3, at, LE(m.src, 4));
    var m5 := Splice(m4, at + 14, LE(0, 2));
    Splice(m5, at + 8, LE(0, 4))
  }

  lemma StoresAt(mem: seq<Byte>, at: nat, m: Msg, k: nat)
    requires m.Fits() && at + BUF_SIZE <= |mem| && k < |mem|
    ensures Stores(mem, at, m)[k]
         == if at <= k < at + 4 then LE(m.src, 4)[k - at]
            else if at + 4 <= k < at + 8 then LE(m.dst, 4)[k - at - 4]
            else if at + 8 <= k < at + 12 then LE(0, 4)[k - at - 8]
            else if at + 12 <= k < at + 14 then LE(|m.payload|, 2)[k - at - 12]
            else if at + 14 <= k < at + 16 then LE(0, 2)[k - at - 14]
            else if at + 16 <= k < at + 16 + |m.payload| then m.payload[k - at - 16]
            else mem[k]
  {
    var m1 := Splice(mem, at + HDR_SIZE, m.payload);
    var m2 := Splice(m1, at + 12, LE(|m.payload|, 2));
    var m3 := Splice(m2, at + 4, LE(m.dst, 4));
    var m4 := Splice(m3, at, LE(m.src, 4));
    var m5 := Splice(m4, at + 14, LE(0, 2));
    SpliceAt(mem, at + HDR_SIZE, m.payload, k);
    SpliceAt(m1, at + 12, LE(|m.payload|, 2), k);
    SpliceAt(m2, at + 4, LE(m.dst, 4), k);
    SpliceAt(m3, at, LE(m.src, 4), k);
    SpliceAt(m4, at + 14, LE(0, 2), k);
    SpliceAt(m5, at + 8, LE(0, 4), k);
  }

  lemma EncodeAt(m: Msg, was: seq<Byte>, k: nat)
    requires m.Fits() && |was| == BUF_SIZE && k < BUF_SIZE
    ensures Encode(m, was)[k]
         == if k < 4 then LE(m.src, 4)[k]
            else if k < 8 then LE(m.dst, 4)[k - 4]
            else if k < 12 then LE(0, 4)[k - 8]
            else if k < 14 then LE(|m.payload|, 2)[k - 12]
            else if k < 16 then LE(0, 2)[k - 14]
            else if k < 16 + |m.payload| then m.payload[k - 16]
            else was[k]
  {
  }

  /** Together the stores write the whole message and nothing else. */
  lemma StoresEncode(mem: seq<Byte>, d: Desc, m: Msg)
    requires m.Fits() && d.addr + BUF_SIZE <= |mem|
    ensures Stores(mem, d.addr, m) == Splice(mem, d.addr, Encode(m, Content(mem, d)))
  {
    var a, b := Stores(mem, d.addr, m), Splice(mem, d.addr, Encode(m, Content(mem, d)));
    forall k | 0 <= k < |mem| ensures a[k] == b[k] {
      StoresAt(mem, d.addr, m, k);
      SpliceAt(mem, d.addr, Encode(m, Content(mem, d)), k);
      if d.addr <= k < d.addr + BUF_SIZE { EncodeAt(m, Content(mem, d), k - d.addr); }
    }
  }

  /** memcpy, and the header assignments. */
  method Store(mem: array<Byte>, at: nat, bytes: seq<Byte>)
    requires at + |bytes| <= mem.Length
    modifies mem
    ensures mem[..] == Splice(old(mem[..]), at, bytes)
  {
    ghost var was := mem[..];
    for i := 0 to |bytes|
      invariant mem[..] == Splice(was, at, bytes[..i])
    {
      mem[at + i] := bytes[i];
      assert bytes[..i + 1] == bytes[..i] + [bytes[i]];
    }
    assert bytes[..|bytes|] == bytes;
  }

  /** The last part of send and receive: return the buffer and kick.  The error
      return is there, but a head from GetAvailBuf never takes it. */
  method HandBack(vq: PruVirtqueue, head: int, size: nat,
                  ghost q: Queue, ghost mem: seq<Byte>, ghost content: seq<Byte>) returns (r: int)
    requires AtRest(q, mem) && HasBuffer(q) && |content| == BUF_SIZE
    requires MIN_VALID_EVENT <= vq.toArmEvent <= MAX_VALID_EVENT
    requires head == NextPost(q).head && head < |q.vq.desc| && size == q.vq.desc[head].len
    requires var t := TakeHead(q);
             vq.State() == t.(log := t.log.(content := t.log.content[head as nat := content]))
    modifies vq`usedIdx, vq`log, vq`r31, vq.usedRing
    ensures r == RPMSG_SUCCESS
    ensures vq.r31 == old(vq.r31) + (if vq.availFlags % 2 == 0 then [32 + (vq.toArmEvent - 16)] else [])
    ensures vq.State() == Exchange(q, content) && Moved(q, vq.State(), content)
  {
    ExchangeIs(q, mem, content);
    r := vq.AddUsedBuf(head, size);
    if r < 0 {
      return RPMSG_INVALID_HEAD;
    }
    var _ := vq.Kick();
    r := RPMSG_SUCCESS;
  }

  lemma ResetAtRest(q: Queue, mem: seq<Byte>)
    requires AtRest(q, mem)
    ensures AtRest(q.(vq := q.vq.(lastAvail := 0)), mem) <==> q.log.taken % U16 == 0
  {
    ResetIff(q, mem);
  }

  // ------------------------------------------------- what send answers

  /** The result of pru_rpmsg_send. */
  ghost function SendResult(q: Queue, len: nat): int {
    if len > MAX_PAYLOAD then RPMSG_BUF_TOO_SMALL
    else if !HasBuffer(q) then RPMSG_NO_BUF_AVAILABLE
    else RPMSG_SUCCESS
  }

  /** What its header comment documents: the buffer from the vring is too small
      for header and payload. */
  predicate DocumentedTooSmall(d: Desc, len: nat) { HDR_SIZE + len > d.len }

  /** With a buffer of length d.len at hand, the answer is the documented one for
      every 16-bit length exactly when buffers are RPMSG_BUF_SIZE long. */
  lemma DocumentedAnswerIff(q: Queue, d: Desc)
    requires HasBuffer(q)
    ensures (forall len: nat :: len < U16 ==>
               (SendResult(q, len) == RPMSG_BUF_TOO_SMALL <==> DocumentedTooSmall(d, len)))
       <==> d.len == BUF_SIZE
  {
    if d.len < BUF_SIZE {
      assert SendResult(q, MAX_PAYLOAD) == RPMSG_SUCCESS && DocumentedTooSmall(d, MAX_PAYLOAD);
    } else if d.len > BUF_SIZE {
      assert SendResult(q, MAX_PAYLOAD + 1) == RPMSG_BUF_TOO_SMALL && !DocumentedTooSmall(d, MAX_PAYLOAD + 1);
    }
  }

  /** A state in which the two differ: the host has published one buffer of 1024
      bytes, 600 would fit, and send answers that the buffer is too small. */
  lemma TooSmallThoughItFits() returns (q: Queue, mem: seq<Byte>)
    ensures AtRest(q, mem) && HasBuffer(q) && NextPost(q).head < |q.vq.desc|
    ensures q.vq.desc[NextPost(q).head].len == 1024
    ensures !DocumentedTooSmall(q.vq.desc[NextPost(q).head], 600)
    ensures SendResult(q, 600) == RPMSG_BUF_TOO_SMALL
  {
    mem := seq(1024, _ => 0);
    var d := Desc(0, 1024);
    var content := mem[..BUF_SIZE];
    var s := VirtqueueRuns.Fresh(1, [d], [0], [UsedElem(0, 0)], 0, 1024);
    VirtqueueRuns.FreshInv(1, [d], [0], [UsedElem(0, 0)], 0, 1024, mem);
    assert CanPublish(s, mem, 0, d, content);
    PublishKeepsInv(s, mem, 0, d, content);
    q, mem := Publish(s, mem, 0, d, content).0, Publish(s, mem, 0, d, content).1;
  }

  // ------------------------------------------------------------- transport

  class Transport {
    const vq0: PruVirtqueue   // PRU to ARM
    const vq1: PruVirtqueue   // ARM to PRU
    const mem: array<Byte>

    ghost predicate Wired() {
      && vq0 != vq1 && vq0.usedRing != vq1.usedRing
      && (vq0.hi <= vq1.lo || vq1.hi <= vq0.lo)
    }

    ghost predicate Valid()
      reads vq0, vq0.usedRing, vq1, vq1.usedRing, mem
    {
      && Wired() && AtRest(vq0.State(), mem[..]) && AtRest(vq1.State(), mem[..])
      && MIN_VALID_EVENT <= vq0.toArmEvent <= MAX_VALID_EVENT
      && MIN_VALID_EVENT <= vq1.toArmEvent <= MAX_VALID_EVENT
      && forall i :: 0 <= i < |vq1.log.published| ==> WellFormed(vq1.log.published[i].content)
    }

    constructor (vq0: PruVirtqueue, vq1: PruVirtqueue, mem: array<Byte>)
      ensures this.vq0 == vq0 && this.vq1 == vq1 && this.mem == mem
    {
      this.vq0, this.vq1, this.mem := vq0, vq1, mem;
    }

    /** Sends exactly when the payload fits and a buffer is available; a failing
        call changes nothing, and INVALID_HEAD is never returned. */
    method Send(src: nat, dst: nat, data: array<Byte>, len: nat) returns (r: int)
      requires Valid() && src < U32 && dst < U32 && len <= data.Length && data != mem
      modifies vq0`lastAvailIdx, vq0`usedIdx, vq0`log, vq0`r31, vq0.usedRing, mem
      ensures Valid() && vq1.State() == old(vq1.State())
      ensures r == SendResult(old(vq0.State()), len)
      ensures r == if len > 496 then -2 else if old(vq0.log.taken) == |old(vq0.log.published)| then -1 else 0
      ensures vq0.r31 == old(vq0.r31) + (if r == 0 && vq0.availFlags % 2 == 0 then [32 + (vq0.toArmEvent - 16)] else [])
      ensures r != RPMSG_SUCCESS ==> vq0.State() == old(vq0.State()) && mem[..] == old(mem[..])
      ensures r == RPMSG_SUCCESS ==>
                Sent(old(vq0.State()), old(mem[..]), vq0.State(), mem[..], Msg(src, dst, old(data[..len])))
    {
      if len > MAX_PAYLOAD {
        return RPMSG_BUF_TOO_SMALL;
      }
      if HasBuffer(vq0.State()) { SendKeeps(vq0.State(), mem[..], Msg(src, dst, data[..len]), vq1.State()); }
      r := SendFitting(src, dst, data, len);
    }

    /** Send, once the length has been accepted. */
    method SendFitting(src: nat, dst: nat, data: array<Byte>, len: nat) returns (r: int)
      requires Valid() && src < U32 && dst < U32 && len <= data.Length && len <= MAX_PAYLOAD && data != mem
      modifies vq0`lastAvailIdx, vq0`usedIdx, vq0`log, vq0`r31, vq0.usedRing, mem
      ensures vq1.State() == old(vq1.State())
      ensures vq0.r31 == old(vq0.r31) + (if r == 0 && vq0.availFlags % 2 == 0 then [32 + (vq0.toArmEvent - 16)] else [])
      ensures r == if HasBuffer(old(vq0.State())) then RPMSG_SUCCESS else RPMSG_NO_BUF_AVAILABLE
      ensures r != RPMSG_SUCCESS ==> vq0.State() == old(vq0.State()) && mem[..] == old(mem[..])
      ensures r == RPMSG_SUCCESS ==>
                Stored(old(vq0.State()), old(mem[..]), vq0.State(), mem[..], Msg(src, dst, old(data[..len])))
    {
      ghost var q, other := vq0.State(), vq1.State();
      var head, addr, size := vq0.GetAvailBuf(mem[..]);
      assert vq1.State() == other;
      if head < 0 {
        return RPMSG_NO_BUF_AVAILABLE;
      }
      r := Transmit(q, head, addr, size, src, dst, data, len);
    }

    /** pru_rpmsg_init: both events must be ones the PRU can raise; otherwise no
        transport is set up.  The host may already have published. */
    static method Init(vring0: Vring, vring1: Vring, toArmEvent: nat, fromArmEvent: nat, mem: array<Byte>,
                       ghost q0: Queue, ghost q1: Queue)
      returns (r: int, t: Transport?)
      requires vring0.Holds(q0.vq) && vring1.Holds(q1.vq) && vring0.usedRing != vring1.usedRing
      requires AtRest(q0, mem[..]) && AtRest(q1, mem[..]) && (q0.hi <= q1.lo || q1.hi <= q0.lo)
      requires forall i :: 0 <= i < |q1.log.published| ==> WellFormed(q1.log.published[i].content)
      ensures r == if 16 <= toArmEvent <= 31 && 16 <= fromArmEvent <= 31 then 0 else -4
      ensures r != RPMSG_SUCCESS ==> t == null
      ensures r == RPMSG_SUCCESS ==>
                && t != null && t.mem == mem && t.vq0.toArmEvent == t.vq1.toArmEvent == toArmEvent
                && t.vq0.State() == q0.(vq := q0.vq.(lastAvail := 0))
                && t.vq1.State() == q1.(vq := q1.vq.(lastAvail := 0))
                && (t.Valid() <==> q0.log.taken % U16 == 0 && q1.log.taken % U16 == 0)
    {
      if toArmEvent > MAX_VALID_EVENT || toArmEvent < MIN_VALID_EVENT {
        return RPMSG_INVALID_EVENT, null;
      }
      if fromArmEvent > MAX_VALID_EVENT || fromArmEvent < MIN_VALID_EVENT {
        return RPMSG_INVALID_EVENT, null;
      }
      var vq0 := new PruVirtqueue.Init(vring0, toArmEvent, fromArmEvent, q0, mem[..]);
      var vq1 := new PruVirtqueue.Init(vring1, toArmEvent, fromArmEvent, q1, mem[..]);
      t := new Transport(vq0, vq1, mem);
      InitValid(t, q0, q1);
      r := RPMSG_SUCCESS;
    }

    /** Announce (or withdraw) a channel: a send of exactly the name-service
        message, with the same outcomes. */
    method Channel(flags: nat, name: array<Byte>, desc: array<Byte>, port: int) returns (r: int)
      requires Valid() && flags < U32 && name.Length >= NAME_SIZE && desc.Length >= NAME_SIZE
      modifies vq0`lastAvailIdx, vq0`usedIdx, vq0`log, vq0`r31, vq0.usedRing, mem
      ensures Valid() && vq1.State() == old(vq1.State())
      ensures r == if old(vq0.log.taken) == |old(vq0.log.published)| then -1 else 0
      ensures vq0.r31 == old(vq0.r31) + (if r == 0 && vq0.availFlags % 2 == 0 then [32 + (vq0.toArmEvent - 16)] else [])
      ensures r != RPMSG_SUCCESS ==> vq0.State() == old(vq0.State()) && mem[..] == old(mem[..])
      ensures r == RPMSG_SUCCESS ==>
                Sent(old(vq0.State()), old(mem[..]), vq0.State(), mem[..],
                     Announcement(flags, old(name[..]), old(desc[..]), port))
      ensures r == RPMSG_SUCCESS ==>
                && |vq0.log.returned| == |old(vq0.log.returned)| + 1
                && var c := vq0.log.returned[|old(vq0.log.returned)|].content;
                && WellFormed(c) && var m := Decode(c);
                && m.src == port % 0x1_0000_0000 && m.dst == 53 && |m.payload| == 72
                && m.payload[..32] == old(name[..])[..32] && m.payload[32..64] == old(desc[..])[..32]
                && FromLE(m.payload[64..68]) == port % 0x1_0000_0000 && FromLE(m.payload[68..72]) == flags
    {
      ghost var q, was := vq0.State(), mem[..];
      ghost var m := Announcement(flags, name[..], desc[..], port);
      AnnouncementReadable(flags, name[..], desc[..], port);
      var ns := NsMessage(flags, name, desc, port);
      assert ns[..NS_SIZE] == m.payload;
      r := Send(port % U32, NS_ADDR, ns, NS_SIZE);
      if r == RPMSG_SUCCESS { SentMeans(q, was, vq0.State(), mem[..], m); }
    }

    /** Receives exactly when a message is available, and then the oldest one not
        yet received; a failing call changes nothing, and INVALID_HEAD is never
        returned. */
    method Receive(data: array<Byte>) returns (r: int, src: nat, dst: nat, len: nat)
      requires Valid() && data.Length >= MAX_PAYLOAD && data != mem
      modifies vq1`lastAvailIdx, vq1`usedIdx, vq1`log, vq1`r31, vq1.usedRing, data
      ensures Valid() && vq0.State() == old(vq0.State())
      ensures r == if old(vq1.log.taken) == |old(vq1.log.published)| then -1 else 0
      ensures vq1.r31 == old(vq1.r31) + (if r == 0 && vq1.availFlags % 2 == 0 then [32 + (vq1.toArmEvent - 16)] else [])
      ensures r != RPMSG_SUCCESS ==> vq1.State() == old(vq1.State()) && data[..] == old(data[..])
      ensures r == RPMSG_SUCCESS ==>
                && len <= MAX_PAYLOAD && data[len..] == old(data[len..])
                && TookMessage(old(vq1.State()), vq1.State(), Msg(src, dst, data[..len]))
    {
      ghost var q := vq1.State();
      var head, addr, size := vq1.GetAvailBuf(mem[..]);
      if head < 0 {
        return RPMSG_NO_BUF_AVAILABLE, 0, 0, 0;
      }
      r, src, dst, len := Accept(q, head, addr, size, data);
      ExchangeOwn(q, mem[..]);
    }

    /** Receive, once it has a buffer. */
    method Accept(ghost q: Queue, head: int, addr: nat, size: nat, data: array<Byte>)
      returns (r: int, src: nat, dst: nat, len: nat)
      requires Wired() && AtRest(q, mem[..]) && vq1.State() == TakeHead(q)
      requires TookHead(q, mem[..], head, Desc(addr, size)) && WellFormed(NextPost(q).content)
      requires MIN_VALID_EVENT <= vq1.toArmEvent <= MAX_VALID_EVENT
      requires data.Length >= MAX_PAYLOAD && data != mem
      modifies vq1`usedIdx, vq1`log, vq1`r31, vq1.usedRing, data
      ensures vq1.r31 == old(vq1.r31) + (if vq1.availFlags % 2 == 0 then [32 + (vq1.toArmEvent - 16)] else [])
      ensures r == RPMSG_SUCCESS && vq1.State() == Exchange(q, NextPost(q).content)
      ensures len <= MAX_PAYLOAD && data[len..] == old(data[len..])
      ensures TookMessage(q, vq1.State(), Msg(src, dst, data[..len]))
    {
      ghost var content, was := NextPost(q).content, mem[..];
      assert mem[..][addr..addr + BUF_SIZE] == mem[addr..addr + BUF_SIZE] == content;
      src, dst, len := ReadBuffer(mem, addr, data);
      OwnContent(q, was);
      r := HandBack(vq1, head, size, q, was, content);
    }

    /** Send, once it has a buffer. */
    method Transmit(ghost q: Queue, head: int, addr: nat, size: nat,
                    src: nat, dst: nat, data: array<Byte>, len: nat) returns (r: int)
      requires Wired() && AtRest(q, mem[..])
      requires vq0.State() == TakeHead(q) && TookHead(q, mem[..], head, Desc(addr, size))
      requires MIN_VALID_EVENT <= vq0.toArmEvent <= MAX_VALID_EVENT
      requires src < U32 && dst < U32 && len <= data.Length && len <= MAX_PAYLOAD && data != mem
      modifies vq0`usedIdx, vq0`log, vq0`r31, vq0.usedRing, mem
      ensures vq0.r31 == old(vq0.r31) + (if vq0.availFlags % 2 == 0 then [32 + (vq0.toArmEvent - 16)] else [])
      ensures r == RPMSG_SUCCESS && vq1.State() == old(vq1.State())
      ensures vq0.State()
           == Exchange(q, Encode(Msg(src, dst, old(data[..len])), Content(old(mem[..]), Desc(addr, size))))
      ensures mem[..] == Splice(old(mem[..]), addr,
                                Encode(Msg(src, dst, old(data[..len])), Content(old(mem[..]), Desc(addr, size))))
    {
      ghost var was, other := mem[..], vq1.usedRing[..];
      ghost var content := Encode(Msg(src, dst, data[..len]), Content(was, Desc(addr, size)));
      FillBuffer(mem, addr, src, dst, data, len);
      vq0.log := vq0.log.(content := vq0.log.content[head := content]);
      r := HandBack(vq0, head, size, q, was, content);
      assert vq1.usedRing[..] == other;
    }
  }

  lemma InitValid(t: Transport, q0: Queue, q1: Queue)
    requires t.Wired() && AtRest(q0, t.mem[..]) && AtRest(q1, t.mem[..])
    requires t.vq0.State() == q0.(vq := q0.vq.(lastAvail := 0))
    requires t.vq1.State() == q1.(vq := q1.vq.(lastAvail := 0))
    requires MIN_VALID_EVENT <= t.vq0.toArmEvent <= MAX_VALID_EVENT
    requires MIN_VALID_EVENT <= t.vq1.toArmEvent <= MAX_VALID_EVENT
    requires forall i :: 0 <= i < |q1.log.published| ==> WellFormed(q1.log.published[i].content)
    ensures t.Valid() <==> q0.log.taken % U16 == 0 && q1.log.taken % U16 == 0
  {
    ResetAtRest(q0, t.mem[..]);
    ResetAtRest(q1, t.mem[..]);
    assert t.vq1.log == q1.log;
  }

  method NsMessage(flags: nat, name: array<Byte>, desc: array<Byte>, port: int) returns (ns: array<Byte>)
    requires flags < U32 && name.Length >= NAME_SIZE && desc.Length >= NAME_SIZE
    ensures fresh(ns) && ns.Length == NS_SIZE
    ensures ns[..NS_SIZE] == NsPayload(name[..], desc[..], port % U32, flags)
  {
    ns := new Byte[NS_SIZE](_ => 0);
    for i := 0 to NAME_SIZE
      invariant forall k :: 0 <= k < i ==> ns[k] == name[k] && ns[NAME_SIZE + k] == desc[k]
    {
      ns[i] := name[i];
      ns[NAME_SIZE + i] := desc[i];
    }
    assert ns[..NAME_SIZE] == name[..NAME_SIZE] && ns[NAME_SIZE..2 * NAME_SIZE] == desc[..NAME_SIZE];
    ghost var head := ns[..2 * NAME_SIZE];
    assert head == name[..NAME_SIZE] + desc[..NAME_SIZE];
    Store(ns, 2 * NAME_SIZE, LE(port % U32, 4));
    Store(ns, 2 * NAME_SIZE + 4, LE(flags, 4));
    assert ns[..2 * NAME_SIZE] == head;
    assert ns[2 * NAME_SIZE..2 * NAME_SIZE + 4] == LE(port % U32, 4);
    assert name[..][..NAME_SIZE] == name[..NAME_SIZE] && desc[..][..NAME_SIZE] == desc[..NAME_SIZE];
    assert ns[..NS_SIZE] == head + LE(port % U32, 4) + LE(flags, 4);
  }

  /** The reads of pru_rpmsg_receive. */
  method ReadBuffer(mem: array<Byte>, addr: nat, data: array<Byte>) returns (src: nat, dst: nat, len: nat)
    requires addr + BUF_SIZE <= mem.Length && data != mem && data.Length >= MAX_PAYLOAD
    requires WellFormed(mem[addr..addr + BUF_SIZE])
    modifies data
    ensures len <= MAX_PAYLOAD && data[len..] == old(data[len..])
    ensures Msg(src, dst, data[..len]) == Seen(Decode(old(mem[..])[addr..addr + BUF_SIZE]))
  {
    ghost var all := mem[..];
    ghost var buf := all[addr..addr + BUF_SIZE];
    assert mem[addr..addr + BUF_SIZE] == buf;
    SliceOfSlice(all, addr, addr + BUF_SIZE, addr, 4);
    SliceOfSlice(all, addr, addr + BUF_SIZE, addr + 4, 4);
    SliceOfSlice(all, addr, addr + BUF_SIZE, addr + 12, 2);
    assert mem[addr..addr + 4] == all[addr..addr + 4];
    assert mem[addr + 4..addr + 8] == all[addr + 4..addr + 8];
    assert mem[addr + 12..addr + 14] == all[addr + 12..addr + 14];
    len := FromLE(mem[addr + 12..addr + 14]);
    for i := 0 to len
      invariant forall k :: 0 <= k < i ==> data[k] == buf[HDR_SIZE + k]
      invariant forall k :: i <= k < data.Length ==> data[k] == old(data[k])
      invariant mem[..] == old(mem[..])
    {
      data[i] := mem[addr + HDR_SIZE + i];
    }
    src := FromLE(mem[addr..addr + 4]) % U16;
    dst := FromLE(mem[addr + 4..addr + 8]) % U16;
    assert data[..len] == buf[HDR_SIZE..HDR_SIZE + len];
  }

  method FillBuffer(mem: array<Byte>, addr: nat, src: nat, dst: nat, data: array<Byte>, len: nat)
    requires src < U32 && dst < U32 && len <= data.Length && len <= MAX_PAYLOAD
    requires addr + BUF_SIZE <= mem.Length && data != mem
    modifies mem
    ensures mem[..] == Splice(old(mem[..]), addr,
                              Encode(Msg(src, dst, data[..len]), old(mem[..])[addr..addr + BUF_SIZE]))
  {
    ghost var was, m := mem[..], Msg(src, dst, data[..len]);
    Store(mem, addr + HDR_SIZE, data[..len]);
    Store(mem, addr + 12, LE(len, 2));
    Store(mem, addr + 4, LE(dst, 4));
    Store(mem, addr, LE(src, 4));
    Store(mem, addr + 14, LE(0, 2));
    Store(mem, addr + 8, LE(0, 4));
    StoresEncode(was, Desc(addr, BUF_SIZE), m);
  }

  /** The oldest buffer filled with m and returned. */
  ghost predicate Stored(q: Queue, mem: seq<Byte>, q': Queue, mem': seq<Byte>, m: Msg) {
    && m.Fits() && q.vq.Shape() && HasBuffer(q) && NextPost(q).head < |q.vq.desc|
    && var d := q.vq.desc[NextPost(q).head];
    && d.addr + BUF_SIZE <= |mem|
    && var content := Encode(m, Content(mem, d));
    && q' == Exchange(q, content) && mem' == Splice(mem, d.addr, content)
  }

  /** The calls of Send and Receive amount to Exchange. */
  lemma ExchangeIs(q: Queue, mem: seq<Byte>, content: seq<Byte>)
    requires AtRest(q, mem) && HasBuffer(q) && |content| == BUF_SIZE
    ensures var p := NextPost(q);
            && p.head < q.vq.num
            && var t := TakeHead(q);
            && Returned(t.(log := t.log.(content := t.log.content[p.head := content])),
                        p.head, q.vq.desc[p.head].len) == Exchange(q, content)
            && Moved(q, Exchange(q, content), content)
  {
    var p := NextPost(q);
    TakeHeadIs(q, mem);
    var t := TakeHead(q);
    ReturnedIs(t.(log := t.log.(content := t.log.content[p.head := content])), p.head, q.vq.desc[p.head].len);
    ExchangeInOrder(q, content);
  }

  /** A send leaves both queues at rest. */
  lemma SendKeeps(q: Queue, mem: seq<Byte>, m: Msg, other: Queue)
    requires AtRest(q, mem) && AtRest(other, mem) && HasBuffer(q) && m.Fits()
    requires q.hi <= other.lo || other.hi <= q.lo
    ensures forall q', mem' :: Stored(q, mem, q', mem', m) ==>
              Sent(q, mem, q', mem', m) && AtRest(q', mem') && AtRest(other, mem')
  {
    OwnContent(q, mem);
    var d := q.vq.desc[NextPost(q).head];
    var content := Encode(m, Content(mem, d));
    ExchangeKeeps(q, mem, content);
    ExchangeIs(q, mem, content);
    OtherKept(q, mem, d, content, other);
  }

  lemma OtherKept(q: Queue, mem: seq<Byte>, d: Desc, content: seq<Byte>, other: Queue)
    requires AtRest(other, mem) && Placed(q, mem, d) && |content| == BUF_SIZE
    requires q.hi <= other.lo || other.hi <= q.lo
    ensures AtRest(other, Splice(mem, d.addr, content))
  {
    SpliceOutside(mem, d, content, other.lo, other.hi);
    FrameKeepsInv(other, mem, Splice(mem, d.addr, content));
  }
}
