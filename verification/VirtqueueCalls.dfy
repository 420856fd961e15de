/** The PRU side of a virtqueue as the firmware runs it
    (examples/lib/src/pru_virtqueue.c), proved against the single accesses of
    module Virtqueue. */
module VirtqueueCalls {
  import opened Words
  import opened Virtqueue
  import opened VirtqueueSafety

  const SUCCESS := 0
  const NO_KICK := 1
  const NO_BUF_AVAILABLE := -1
  const INVALID_HEAD := -2

  const NO_INTERRUPT: nat := 1   // VRING_AVAIL_F_NO_INTERRUPT
  const INT_ENABLE: nat := 32
  const INT_OFFSET: nat := 16

  /** A whole pru_virtqueue_add_used_buf with nothing in between. */
  ghost function ReturnHead(s: Queue, elem: UsedElem): Queue
    requires s.vq.Shape() && elem.id in s.log.content
  {
    WriteLen(WriteId(Bump(s, elem)))
  }

  lemma ReturnHeadKeepsInv(s: Queue, mem: seq<Byte>, elem: UsedElem)
    requires Inv(s, mem) && s.pc.Idle? && elem.id in s.log.held
    ensures elem.id in s.log.content && Inv(ReturnHead(s, elem), mem)
  {
    HeldIsLive(s, elem.id);
    BumpKeepsInv(s, mem, elem);
    WriteIdKeepsInv(Bump(s, elem), mem);
    WriteLenKeepsInv(WriteId(Bump(s, elem)), mem);
  }

  /** The same, as one update. */
  lemma ReturnHeadIs(s: Queue, elem: UsedElem)
    requires s.vq.Shape() && elem.id in s.log.content && s.pc.Idle?
    ensures var i := s.vq.Slot(s.vq.usedIdx);
            ReturnHead(s, elem)
              == s.(vq := s.vq.(usedIdx := (s.vq.usedIdx + 1) % U16, usedRing := s.vq.usedRing[i := elem]),
                    log := s.log.(held := s.log.held - {elem.id},
                                  returned := s.log.returned + [Handed(elem, s.log.content[elem.id])]))
  {
    var i := s.vq.Slot(s.vq.usedIdx);
    var u := s.vq.usedRing[i];
    assert s.vq.usedRing[i := u.(id := elem.id)][i := elem] == s.vq.usedRing[i := elem];
  }

  /** A whole successful pru_virtqueue_get_avail_buf. */
  ghost function TakeHead(s: Queue): Queue
    requires s.vq.Shape()
  {
    Fetch(Grab(Check(s)))
  }

  lemma TakeHeadIs(s: Queue, mem: seq<Byte>)
    requires Inv(s, mem) && s.pc.Idle? && s.log.taken < |s.log.published|
    ensures s.vq.lastAvail != s.vq.availIdx
    ensures var p := s.log.published[s.log.taken];
            && s.vq.availRing[s.vq.Slot(s.vq.lastAvail)] == p.head
            && TakeHead(s) == s.(vq := s.vq.(lastAvail := (s.vq.lastAvail + 1) % U16),
                                 log := s.log.(held := s.log.held + {p.head}, taken := s.log.taken + 1))
            && Live(s, p.head) && Placed(s, mem, s.vq.desc[p.head])
            && p.head in s.log.content && s.log.content[p.head] == p.content
            && Content(mem, s.vq.desc[p.head]) == p.content
  {
    EmptyTestIsExact(s);
    NextHead(s);
    PendingIsLive(s, s.log.taken);
  }

  lemma TakeHeadKeepsInv(s: Queue, mem: seq<Byte>)
    requires Inv(s, mem) && s.pc.Idle? && s.log.taken < |s.log.published|
    ensures Inv(TakeHead(s), mem)
  {
    EmptyTestIsExact(s);
    CheckKeepsInv(s, mem);
    GrabKeepsInv(Check(s), mem);
    FetchKeepsInv(Grab(Check(s)), mem);
  }

  /** What the calls write for any head that passes the range test; the history
      moves only for a head that is held. */
  ghost function Returned(s: Queue, head: int, len: nat): Queue
    requires s.vq.Shape()
  {
    s.(vq := s.vq.(usedIdx := (s.vq.usedIdx + 1) % U16,
                   usedRing := s.vq.usedRing[s.vq.usedIdx % s.vq.num := UsedElem(head % U32, len)]),
       log := if head in s.log.held && head in s.log.content
              then s.log.(held := s.log.held - {head as nat},
                          returned := s.log.returned + [Handed(UsedElem(head, len), s.log.content[head])])
              else s.log)
  }

  lemma ReturnedIs(s: Queue, head: nat, len: nat)
    requires s.vq.Shape() && s.pc.Idle? && head in s.log.held && head in s.log.content && head < U32
    ensures Returned(s, head, len) == ReturnHead(s, UsedElem(head, len))
  {
    ReturnHeadIs(s, UsedElem(head, len));
  }

  /** `head` is the oldest head not taken, and `d` its buffer, with what the host
      put in it. */
  ghost predicate TookHead(s: Queue, mem: seq<Byte>, head: int, d: Desc) {
    && s.vq.Shape() && s.log.taken < |s.log.published|
    && var p := s.log.published[s.log.taken];
    && head == p.head && Live(s, head) && s.vq.desc[head] == d && Placed(s, mem, d)
    && p.head in s.log.content && s.log.content[p.head] == p.content && Content(mem, d) == p.content
  }

  /** All that the accesses of a successful get_avail_buf find. */
  lemma WhatComes(s: Queue, mem: seq<Byte>) returns (h: nat, t: Queue)
    requires Inv(s, mem) && s.pc.Idle? && s.log.taken < |s.log.published|
    ensures BitAnd(s.vq.lastAvail, s.vq.num - 1) < |s.vq.availRing|
    ensures h == s.vq.availRing[BitAnd(s.vq.lastAvail, s.vq.num - 1)] < |s.vq.desc| && Int16(h) == h
    ensures s.vq.desc[h].addr % U32 == s.vq.desc[h].addr && TookHead(s, mem, h, s.vq.desc[h])
    ensures t == s.(vq := s.vq.(lastAvail := (s.vq.lastAvail + 1) % U16),
                    log := s.log.(held := s.log.held + {h}, taken := s.log.taken + 1))
    ensures t == TakeHead(s) && Inv(t, mem)
  {
    h := s.log.published[s.log.taken].head;
    t := TakeHead(s);
    TakeHeadIs(s, mem);
    TakeHeadKeepsInv(s, mem);
    Slotted(s.vq);
    Narrow(s, mem, h);
  }

  lemma Slotted(vq: Vq)
    requires vq.Shape()
    ensures BitAnd(vq.lastAvail, vq.num - 1) == vq.Slot(vq.lastAvail) < |vq.availRing|
  {
  }

  lemma Narrow(s: Queue, mem: seq<Byte>, h: nat)
    requires s.vq.Shape() && Live(s, h) && Placed(s, mem, s.vq.desc[h])
    ensures Int16(h) == h && s.vq.desc[h].addr % U32 == s.vq.desc[h].addr
  {
  }

  /** C's conversion of a ring entry to int16_t. */
  function Int16(x: nat): (r: int)
    ensures -(U16 / 2) <= r < U16 / 2 && (r - x) % U16 == 0
  {
    if x % U16 < U16 / 2 then x % U16 else x % U16 - U16
  }

  /** The rings in shared memory that a resource table entry leads to. */
  datatype Vring = Vring(
    num: nat, desc: seq<Desc>,
    availFlags: nat, availIdx: nat, availRing: seq<nat>,
    usedIdx: nat, usedRing: array<UsedElem>)
  {
    /** They are the rings of vq. */
    ghost predicate Holds(vq: Vq)
      reads usedRing
    {
      vq == Vq(num, desc, availIdx, availRing, usedIdx, usedRing[..], vq.lastAvail, vq.lastUsed)
    }
  }

  /** Setting last_avail_idx to 0 in a live queue. */
  lemma ResetIff(q: Queue, mem: seq<Byte>)
    requires Inv(q, mem)
    ensures Inv(q.(vq := q.vq.(lastAvail := 0)), mem) <==> q.log.taken % U16 == 0
  {
    var q' := q.(vq := q.vq.(lastAvail := 0));
    if q.log.taken % U16 == 0 { assert q' == q; }
  }

  class PruVirtqueue {
    // struct pru_virtqueue
    const toArmEvent: nat
    const fromArmEvent: nat
    var lastAvailIdx: nat
    // struct vring
    const num: nat
    var desc: seq<Desc>           // written by the host only
    var availFlags: nat
    var availIdx: nat
    var availRing: seq<nat>       // written by the host only
    var usedIdx: nat
    const usedRing: array<UsedElem>
    var r31: seq<int>             // values written to register R31, oldest first
    // the host's private counter, the history, and the buffer arena
    ghost var lastUsed: nat
    ghost var log: Log
    ghost const lo: nat
    ghost const hi: nat

    ghost function View(): Vq
      reads this, usedRing
    {
      Vq(num, desc, availIdx, availRing, usedIdx, usedRing[..], lastAvailIdx, lastUsed)
    }

    /** The state between calls. */
    ghost function State(): Queue
      reads this, usedRing
    {
      Queue(View(), log, Idle, lo, hi)
    }

    ghost predicate Valid(mem: seq<Byte>)
      reads this, usedRing
    {
      Inv(State(), mem)
    }

    /** pru_virtqueue_init over a ring the host has set up and not used yet. */
    /** pru_virtqueue_init: the rings stay as found, only last_avail_idx is set.
        The queue satisfies the invariant afterwards exactly when the number of
        heads taken so far is a multiple of 2^16, as it is at the first start. */
    constructor Init(vring: Vring, toArmEvent: nat, fromArmEvent: nat, ghost q: Queue, ghost mem: seq<Byte>)
      requires vring.Holds(q.vq) && q.pc.Idle? && Inv(q, mem)
      ensures State() == q.(vq := q.vq.(lastAvail := 0))
      ensures Valid(mem) <==> q.log.taken % U16 == 0
      ensures usedRing == vring.usedRing && availFlags == vring.availFlags && r31 == []
      ensures this.toArmEvent == toArmEvent && this.fromArmEvent == fromArmEvent
    {
      this.num, this.desc, this.availRing, this.usedRing := vring.num, vring.desc, vring.availRing, vring.usedRing;
      this.toArmEvent, this.fromArmEvent := toArmEvent, fromArmEvent;
      this.lastAvailIdx := 0;
      this.availFlags, this.availIdx, this.usedIdx := vring.availFlags, vring.availIdx, vring.usedIdx;
      this.lastUsed, this.lo, this.hi := q.vq.lastUsed, q.lo, q.hi;
      this.log := q.log;
      this.r31 := [];
      new;
      ResetIff(q, mem);
    }

    /** Negative exactly when nothing is available; otherwise the oldest head not
        yet taken, with its buffer holding what the host published in it. */
    method GetAvailBuf(ghost mem: seq<Byte>) returns (head: int, addr: nat, len: nat)
      requires Valid(mem)
      modifies this`lastAvailIdx, this`log
      ensures Valid(mem)
      ensures head < 0 <==> old(log.taken) == |old(log.published)|
      ensures head < 0 ==> head == NO_BUF_AVAILABLE && State() == old(State())
      ensures head >= 0 ==> State() == TakeHead(old(State())) && TookHead(old(State()), mem, head, Desc(addr, len))
    {
      ghost var s := State();
      EmptyTestIsExact(s);
      if lastAvailIdx == availIdx {
        return NO_BUF_AVAILABLE, 0, 0;
      }
      head, addr, len := TakeNext(mem);
    }

    /** The accesses after the empty test. */
    method TakeNext(ghost mem: seq<Byte>) returns (head: int, addr: nat, len: nat)
      requires Valid(mem) && log.taken < |log.published|
      modifies this`lastAvailIdx, this`log
      ensures head >= 0 && State() == TakeHead(old(State())) && Inv(State(), mem)
      ensures TookHead(old(State()), mem, head, Desc(addr, len))
    {
      ghost var h, t := WhatComes(State(), mem);
      head := Int16(availRing[BitAnd(lastAvailIdx, num - 1)]);
      lastAvailIdx := (lastAvailIdx + 1) % U16;
      log := log.(held := log.held + {h}, taken := log.taken + 1);
      addr, len := desc[head].addr % U32, desc[head].len;
      assert State() == t;
    }

    /** The range test lets head == num and negative heads through; the ring
        write itself happens for every head it lets through. */
    method AddUsedBuf(head: int, len: nat) returns (r: int)
      requires View().Shape() && -(U32 as int) < head < U32
      modifies this`usedIdx, this`log, usedRing
      ensures r == INVALID_HEAD <==> head > num
      ensures r == SUCCESS <==> head <= num
      ensures r == INVALID_HEAD ==> State() == old(State())
      ensures r == SUCCESS ==> State() == Returned(old(State()), head, len)
    {
      if head > num {
        return INVALID_HEAD;
      }
      ghost var ring := usedRing[..];
      assert View().Slot(usedIdx) == BitAnd(usedIdx, num - 1);
      var slot := BitAnd(usedIdx, num - 1);
      usedIdx := (usedIdx + 1) % U16;
      usedRing[slot] := usedRing[slot].(id := head % U32);
      usedRing[slot] := usedRing[slot].(len := len);
      assert usedRing[..] == ring[slot := UsedElem(head % U32, len)];
      if head in log.held && head in log.content {
        log := log.(held := log.held - {head as nat},
                    returned := log.returned + [Handed(UsedElem(head, len), log.content[head])]);
      }
      r := SUCCESS;
    }

    /** Kicks unless the host asked not to be: bit 0 of the avail flags.  The value
        written has the strobe bit 5 set and otherwise the bits of the event's
        offset from 16. */
    method Kick() returns (r: int)
      requires toArmEvent < U32
      modifies this`r31
      ensures r == if availFlags % 2 == 0 then 0 else 1
      ensures availFlags % 2 == 0 ==>
                var e := (toArmEvent - 16) % 0x1_0000_0000;
                r31 == old(r31) + [if e / 32 % 2 == 1 then e else e + 32]
      ensures availFlags % 2 == 0 && 16 <= toArmEvent < 32 ==> r31 == old(r31) + [32 + (toArmEvent - 16)]
      ensures availFlags % 2 == 1 ==> r31 == old(r31)
    {
      FlagBit(availFlags);
      if BitAnd(availFlags, NO_INTERRUPT) != 0 {
        return NO_KICK;
      }
      BitFive((toArmEvent - INT_OFFSET) % U32);
      ghost var v := BitOr(INT_ENABLE, (toArmEvent - INT_OFFSET) % U32);
      StrobeNames(toArmEvent, v);
      r31 := r31 + [BitOr(INT_ENABLE, (toArmEvent - INT_OFFSET) % U32)];
      r := SUCCESS;
    }
  }

  /** The low four bits written name the event exactly when it is one the PRU can
      raise. */
  lemma StrobeNames(event: nat, v: int)
    requires event < U32
    requires var e := (event - 16) % 0x1_0000_0000; v == if e / 32 % 2 == 1 then e else e + 32
    ensures v / 32 % 2 == 1
    ensures v % 16 + 16 == event <==> 16 <= event < 32
    ensures 16 <= event < 32 ==> v == 32 + (event - 16)
  {
  }

  lemma FlagBit(flags: nat)
    ensures BitAnd(flags, 1) == flags % 2
  {
    MaskIsMod(flags, 2);
  }

  lemma BitFive(e: nat)
    ensures BitAnd(INT_ENABLE, e) == INT_ENABLE * ((e / 32) % 2)
  {
    var e1 := e / 2;
    var e2 := e1 / 2;
    var e3 := e2 / 2;
    var e4 := e3 / 2;
    AndHalves(32, e);
    AndHalves(16, e1);
    AndHalves(8, e2);
    AndHalves(4, e3);
    AndHalves(2, e4);
    LowBit(e4 / 2);
    assert e4 / 2 == e / 32;
  }

  lemma LowBit(z: nat)
    ensures BitAnd(1, z) == z % 2
  {
  }

  lemma AndHalves(x: nat, y: nat)
    requires x % 2 == 0
    ensures BitAnd(x, y) == 2 * BitAnd(x / 2, y / 2)
  {
  }
}
