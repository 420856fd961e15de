/** The message queue of the pruss_api character device (drivers/pruss_api.c):
    a byte FIFO and a separate ring of 32 lengths that must act as one queue of
    messages.  Each driver entry point is one atomic step. */
module MessageQueue {
  import opened Words

  const MAX_FIFO_MSG: nat := 32
  const FIFO_SIZE: nat := MAX_FIFO_MSG * BUF_SIZE   // kfifo_alloc(MAX_FIFO_MSG * FIFO_MSG_SIZE)
  const ENOSPC := 28
  const EACCES := 13

  /** -EAGAIN, a wait, or the bytes copied to the reader. */
  datatype ReadResult = Again | Waits | Data(bytes: seq<Byte>)

  function Concat(ms: seq<seq<Byte>>): seq<Byte> {
    if ms == [] then [] else ms[0] + Concat(ms[1..])
  }

  lemma {:induction false} ConcatSnoc(ms: seq<seq<Byte>>, m: seq<Byte>)
    ensures Concat(ms + [m]) == Concat(ms) + m
    decreases |ms|
  {
    if ms == [] {
      assert ([] + [m])[1..] == [];
    } else {
      ConcatSnoc(ms[1..], m);
      assert (ms + [m])[1..] == ms[1..] + [m];
    }
  }

  /** An empty FIFO means exactly that every pending message is empty. */
  lemma {:induction false} ConcatEmpty(ms: seq<seq<Byte>>)
    ensures Concat(ms) == [] <==> forall i :: 0 <= i < |ms| ==> ms[i] == []
    decreases |ms|
  {
    if ms != [] {
      ConcatEmpty(ms[1..]);
      assert forall i :: 0 < i < |ms| ==> ms[i] == ms[1..][i - 1];
    }
  }

  /** The slot k places after rd, going round. */
  function SlotAt(rd: nat, k: nat): (i: nat)
    ensures i < MAX_FIFO_MSG
  {
    (rd + k) % MAX_FIFO_MSG
  }

  lemma NextSlot(rd: nat, k: nat)
    requires rd < MAX_FIFO_MSG && k < MAX_FIFO_MSG
    ensures SlotAt(SlotAt(rd, k), 1) == SlotAt(rd, k + 1) == SlotAt(SlotAt(rd, 1), k)
    ensures SlotAt(rd, k + 1) == rd <==> k == MAX_FIFO_MSG - 1
  {
  }

  lemma SlotsDiffer(rd: nat, i: nat, k: nat)
    requires i < k < MAX_FIFO_MSG
    ensures SlotAt(rd, i) != SlotAt(rd, k)
  {
  }

  /** The FIFO and the lengths rd..wr of the ring spell out `pending`. */
  ghost predicate Spells(rd: nat, wr: nat, lens: seq<nat>, fifo: seq<Byte>, pending: seq<seq<Byte>>) {
    && |lens| == MAX_FIFO_MSG && rd < MAX_FIFO_MSG && |pending| < MAX_FIFO_MSG && |fifo| <= FIFO_SIZE
    && wr == SlotAt(rd, |pending|)
    && (forall i :: 0 <= i < |pending| ==> lens[SlotAt(rd, i)] == |pending[i]|)
    && fifo == Concat(pending)
  }

  lemma SpellsIn(rd: nat, wr: nat, lens: seq<nat>, fifo: seq<Byte>, pending: seq<seq<Byte>>, data: seq<Byte>)
    requires Spells(rd, wr, lens, fifo, pending)
    ensures |pending| == MAX_FIFO_MSG - 1 <==> SlotAt(wr, 1) == rd
    ensures wr < MAX_FIFO_MSG
    ensures |pending| < MAX_FIFO_MSG - 1 && |fifo| + |data| <= FIFO_SIZE ==>
              Spells(rd, SlotAt(wr, 1), lens[wr := |data|], fifo + data, pending + [data])
  {
    ConcatSnoc(pending, data);
    NextSlot(rd, |pending|);
    Unused(rd, wr, lens, pending, |data|);
  }

  /** The slot at wr holds no pending length. */
  lemma Unused(rd: nat, wr: nat, lens: seq<nat>, pending: seq<seq<Byte>>, n: nat)
    requires |lens| == MAX_FIFO_MSG && |pending| < MAX_FIFO_MSG && wr == SlotAt(rd, |pending|)
    requires forall i :: 0 <= i < |pending| ==> lens[SlotAt(rd, i)] == |pending[i]|
    ensures forall i :: 0 <= i < |pending| ==> lens[wr := n][SlotAt(rd, i)] == |pending[i]|
  {
    forall i | 0 <= i < |pending| ensures lens[wr := n][SlotAt(rd, i)] == |pending[i]| {
      SlotsDiffer(rd, i, |pending|);
    }
  }

  lemma SpellsOut(rd: nat, wr: nat, lens: seq<nat>, fifo: seq<Byte>, pending: seq<seq<Byte>>)
    requires Spells(rd, wr, lens, fifo, pending) && pending != []
    ensures lens[rd] == |pending[0]| <= |fifo| && fifo[..|pending[0]|] == pending[0]
    ensures Spells(SlotAt(rd, 1), wr, lens, fifo[|pending[0]|..], pending[1..])
  {
    var rest := pending[1..];
    assert fifo == pending[0] + Concat(rest);
    assert lens[SlotAt(rd, 0)] == |pending[0]|;
    forall i | 0 <= i < |rest| ensures lens[SlotAt(SlotAt(rd, 1), i)] == |rest[i]| {
      NextSlot(rd, i);
    }
    NextSlot(rd, |rest|);
    assert fifo[|pending[0]|..] == Concat(rest);
  }

  /** What kfifo_to_user copies for the length it finds. */
  function Copied(len: nat, fifo: seq<Byte>): seq<Byte> { fifo[..if len <= |fifo| then len else |fifo|] }

  class PrussApiDev {
    var locked: bool
    var fifo: seq<Byte>             // kfifo
    const msgLen: array<nat>        // u32 msg_len[MAX_FIFO_MSG]
    var idxRd: nat
    var idxWr: nat
    ghost var accepted: seq<seq<Byte>>   // every message a callback has taken
    ghost var delivered: seq<seq<Byte>>  // every message a read has returned

    ghost function Pending(): seq<seq<Byte>>
      reads this
      requires |delivered| <= |accepted|
    {
      accepted[|delivered|..]
    }

    /** FIFO and length ring together are the queue of pending messages. */
    ghost predicate Valid()
      reads this, msgLen
    {
      delivered <= accepted && Spells(idxRd, idxWr, msgLen[..], fifo, Pending())
    }

    /** pruss_api_probe's part: zeroed device, fresh FIFO. */
    constructor ()
      ensures Valid() && accepted == [] && delivered == [] && !locked && fresh(msgLen)
    {
      locked, fifo, idxRd, idxWr := false, [], 0, 0;
      msgLen := new nat[MAX_FIFO_MSG](_ => 0);
      accepted, delivered := [], [];
    }

    /** A message is taken whole or refused without effect; it is refused exactly
        when 31 messages are pending or its bytes do not fit. */
    method Callback(data: seq<Byte>) returns (ret: int)
      requires Valid()
      modifies this`fifo, this`idxWr, this`accepted, msgLen
      ensures Valid()
      ensures ret == if |old(Pending())| < 31 && |old(fifo)| + |data| <= 16384 then 0 else -28
      ensures ret == 0 <==> !Refused(old(Pending()), data)
      ensures ret == 0 ==> fifo == old(fifo) + data
      ensures accepted == if ret == 0 then old(accepted) + [data] else old(accepted)
      ensures ret != 0 ==> fifo == old(fifo) && idxWr == old(idxWr) && msgLen[..] == old(msgLen[..])
    {
      ghost var pending := Pending();
      SpellsIn(idxRd, idxWr, msgLen[..], fifo, pending, data);
      if FIFO_SIZE - |fifo| < |data| {
        return -ENOSPC;
      }
      if (idxWr + 1) % MAX_FIFO_MSG == idxRd {
        return -ENOSPC;
      }
      fifo := fifo + data;
      msgLen[idxWr] := |data|;
      idxWr := (idxWr + 1) % MAX_FIFO_MSG;
      accepted := accepted + [data];
      assert Pending() == pending + [data];
      ret := 0;
    }

    /** A read that returns data returns exactly the oldest pending message; it
        does so whenever some pending message is not empty. */
    method Read(nonblock: bool) returns (r: ReadResult)
      requires Valid()
      modifies this`fifo, this`idxRd, this`delivered
      ensures Valid()
      ensures r.Data? <==> exists i :: 0 <= i < |old(Pending())| && old(Pending())[i] != []
      ensures r.Data? ==> r.bytes == old(Pending())[0] && delivered == old(delivered) + [r.bytes]
      ensures !r.Data? ==> delivered == old(delivered) && fifo == old(fifo) && idxRd == old(idxRd)
      ensures !r.Data? ==> (r.Again? <==> nonblock)
    {
      ghost var pending := Pending();
      ConcatEmpty(pending);
      if fifo == [] {
        return if nonblock then Again else Waits;
      }
      SpellsOut(idxRd, idxWr, msgLen[..], fifo, pending);
      r := Data(Copied(msgLen[idxRd], fifo));
      fifo := fifo[|r.bytes|..];
      idxRd := (idxRd + 1) % MAX_FIFO_MSG;
      delivered := delivered + [pending[0]];
      assert Pending() == pending[1..];
    }

    /** Readable exactly when some pending message is not empty; always writable. */
    method Poll() returns (readable: bool, writable: bool)
      requires Valid()
      ensures writable
      ensures readable <==> exists i :: 0 <= i < |Pending()| && Pending()[i] != []
    {
      ConcatEmpty(Pending());
      return fifo != [], true;
    }

    /** One opener at a time. */
    method Open() returns (ret: int)
      modifies this`locked
      ensures locked && (ret == 0 <==> !old(locked)) && ret in {0, -EACCES}
    {
      ret := -EACCES;
      if !locked {
        locked := true;
        ret := 0;
      }
    }

    method Release()
      modifies this`locked
      ensures !locked
    {
      locked := false;
    }
  }

  // ------------------------------------------------------------- capacity

  predicate Refused(pending: seq<seq<Byte>>, data: seq<Byte>) {
    |pending| == MAX_FIFO_MSG - 1 || |Concat(pending)| + |data| > FIFO_SIZE
  }

  /** FIFO and length ring say the same about "nothing pending" exactly when the
      queue is empty or some pending message is not. */
  lemma EmptyTogetherIff(d: PrussApiDev)
    requires d.Valid()
    ensures (d.fifo == [] <==> d.idxRd == d.idxWr)
       <==> d.Pending() == [] || exists i :: 0 <= i < |d.Pending()| && d.Pending()[i] != []
  {
    ConcatEmpty(d.Pending());
  }

  predicate From(ms: seq<seq<Byte>>, allowed: iset<seq<Byte>>) {
    forall i :: 0 <= i < |ms| ==> ms[i] in allowed
  }

  /** They say the same in every queue that callbacks with allowed messages, and
      reads, can leave... */
  ghost predicate AgreeAlways(allowed: iset<seq<Byte>>) {
    forall pending: seq<seq<Byte>> ::
      Holds(pending) && From(pending, allowed) ==> (Concat(pending) == [] <==> pending == [])
  }

  /** ...exactly when no callback delivers an empty message. */
  lemma AgreeAlwaysIffNoneEmpty(allowed: iset<seq<Byte>>)
    ensures AgreeAlways(allowed) <==> [] !in allowed
  {
    if [] in allowed {
      ConcatEmpty([[]]);
      assert Holds([[]]) && From([[]], allowed);
    } else {
      forall pending: seq<seq<Byte>> | Holds(pending) && From(pending, allowed)
        ensures Concat(pending) == [] <==> pending == []
      {
        ConcatEmpty(pending);
        if pending != [] { assert pending[0] in allowed; }
      }
    }
  }

  // ------------------------------------- a read in the middle of a callback

  /** The callback has put `data` into the FIFO; its length is not in the ring. */
  ghost predicate Arriving(
    rd: nat, wr: nat, lens: seq<nat>, fifo: seq<Byte>, pending: seq<seq<Byte>>, data: seq<Byte>)
  {
    && Spells(rd, wr, lens, Concat(pending), pending) && |pending| < MAX_FIFO_MSG - 1
    && fifo == Concat(pending) + data && |fifo| <= FIFO_SIZE
  }

  ghost predicate InStep(rd: nat, wr: nat, lens: seq<nat>, fifo: seq<Byte>) {
    exists left :: Spells(rd, wr, lens, fifo, left)
  }

  /** After such a read and the rest of the callback, the state is a queue of
      messages again. */
  ghost predicate Recovers(rd: nat, wr: nat, lens: seq<nat>, fifo: seq<Byte>, data: seq<Byte>)
    requires rd < |lens| && wr < |lens|
  {
    InStep(SlotAt(rd, 1), SlotAt(wr, 1), lens[wr := |data|],
           fifo[|Copied(lens[rd], fifo)|..])
  }

  /** The read returns `oldest` if its slot wr happened to hold n. */
  predicate RightIfHeld(n: nat, rd: nat, wr: nat, lens: seq<nat>, fifo: seq<Byte>, oldest: seq<Byte>)
    requires rd < |lens| && wr < |lens|
  {
    Copied(lens[wr := n][rd], fifo) == oldest
  }

  /** A read between kfifo_in and the length store returns the oldest message,
      and leaves FIFO and ring in step, exactly when another message is pending
      or the length left over in the slot covers the new one. */
  lemma ReadWhileArrivingIff(
    rd: nat, wr: nat, lens: seq<nat>, fifo: seq<Byte>, pending: seq<seq<Byte>>, data: seq<Byte>)
    requires Arriving(rd, wr, lens, fifo, pending, data) && fifo != []
    ensures wr < |lens|
    ensures Copied(lens[rd], fifo) == (pending + [data])[0] <==> pending != [] || |data| <= lens[rd]
    ensures Recovers(rd, wr, lens, fifo, data) <==> pending != [] || |data| <= lens[rd]
  {
    var rest := fifo[|Copied(lens[rd], fifo)|..];
    if pending != [] {
      ReadOlder(rd, wr, lens, fifo, pending, data);
    } else if |data| <= lens[rd] {
      assert Spells(SlotAt(rd, 1), SlotAt(wr, 1), lens[wr := |data|], rest, []);
    } else {
      assert rest != [];
    }
  }

  lemma ReadOlder(rd: nat, wr: nat, lens: seq<nat>, fifo: seq<Byte>, pending: seq<seq<Byte>>, data: seq<Byte>)
    requires Arriving(rd, wr, lens, fifo, pending, data) && pending != []
    ensures wr < |lens| && Copied(lens[rd], fifo) == pending[0] && Recovers(rd, wr, lens, fifo, data)
  {
    SpellsIn(rd, wr, lens, Concat(pending), pending, data);
    var all, lens' := pending + [data], lens[wr := |data|];
    SpellsOut(rd, SlotAt(wr, 1), lens', fifo, all);
    assert all[0] == pending[0] && lens'[rd] == lens[rd];
  }

  /** So such a read is right whatever its slot held exactly when another message
      is pending. */
  lemma ReadWhileArrivingAlwaysIff(
    rd: nat, wr: nat, lens: seq<nat>, fifo: seq<Byte>, pending: seq<seq<Byte>>, data: seq<Byte>)
    requires Arriving(rd, wr, lens, fifo, pending, data) && fifo != []
    ensures wr < |lens|
    ensures (forall n: nat :: RightIfHeld(n, rd, wr, lens, fifo, (pending + [data])[0])) <==> pending != []
  {
    var oldest := (pending + [data])[0];
    if pending != [] {
      forall n: nat ensures RightIfHeld(n, rd, wr, lens, fifo, oldest) {
        Unused(rd, wr, lens, pending, n);
        ReadOlder(rd, wr, lens[wr := n], fifo, pending, data);
      }
    } else {
      assert !RightIfHeld(0, rd, wr, lens, fifo, data);
    }
  }

  predicate Bounded(ms: seq<seq<Byte>>, bound: nat) { forall i :: 0 <= i < |ms| ==> |ms[i]| <= bound }

  lemma {:induction false} ConcatBounded(ms: seq<seq<Byte>>, bound: nat)
    requires Bounded(ms, bound)
    ensures |Concat(ms)| <= |ms| * bound
    decreases |ms|
  {
    if ms != [] {
      ConcatBounded(ms[1..], bound);
      assert |ms| * bound == bound + (|ms| - 1) * bound;
    }
  }

  function Repeat(m: seq<Byte>, n: nat): (r: seq<seq<Byte>>)
    ensures |r| == n && forall i :: 0 <= i < n ==> r[i] == m
  {
    seq(n, _ => m)
  }

  lemma {:induction false} ConcatRepeat(m: seq<Byte>, n: nat)
    ensures |Concat(Repeat(m, n))| == n * |m|
    decreases n
  {
    if n > 0 {
      ConcatRepeat(m, n - 1);
      assert Repeat(m, n)[1..] == Repeat(m, n - 1);
      assert n * |m| == |m| + (n - 1) * |m|;
    }
  }

  /** What a queue of pending messages becomes when one more arrives. */
  function Offer(pending: seq<seq<Byte>>, data: seq<Byte>): seq<seq<Byte>> {
    if Refused(pending, data) then pending else pending + [data]
  }

  function Replay(ms: seq<seq<Byte>>): seq<seq<Byte>> {
    if ms == [] then [] else Offer(Replay(ms[..|ms| - 1]), ms[|ms| - 1])
  }

  predicate Holds(ms: seq<seq<Byte>>) { |ms| < MAX_FIFO_MSG && |Concat(ms)| <= FIFO_SIZE }

  /** The pending queues that callbacks alone can build from an empty device are
      exactly those that fit. */
  lemma {:induction false} Reachable(ms: seq<seq<Byte>>)
    ensures Holds(ms) ==> Replay(ms) == ms
    ensures Holds(Replay(ms))
    decreases |ms|
  {
    if ms != [] {
      var k := |ms| - 1;
      Reachable(ms[..k]);
      assert ms == ms[..k] + [ms[k]];
      ConcatSnoc(ms[..k], ms[k]);
      ConcatSnoc(Replay(ms[..k]), ms[k]);
    }
  }

  /** The FIFO-space test can never be what refuses a message... */
  ghost predicate SpaceAlways(bound: nat) {
    forall pending: seq<seq<Byte>>, data: seq<Byte> ::
      Holds(pending) && Bounded(pending, bound) && |data| <= bound ==> |Concat(pending)| + |data| <= FIFO_SIZE
  }

  /** ...exactly when messages are at most 512 bytes. */
  lemma SpaceAlwaysIffBounded(bound: nat)
    ensures SpaceAlways(bound) <==> bound <= BUF_SIZE
  {
    if bound <= BUF_SIZE {
      forall pending: seq<seq<Byte>>, data: seq<Byte> | Holds(pending) && Bounded(pending, bound) && |data| <= bound
        ensures |Concat(pending)| + |data| <= FIFO_SIZE
      {
        ConcatBounded(pending, bound);
        Scale(|pending|, 31, bound, BUF_SIZE);
      }
    } else if bound <= 528 {
      Overflowing(bound, 31);
    } else {
      var n := Beyond528(bound);
      Overflowing(bound, n);
    }
  }

  lemma Scale(a: nat, b: nat, x: nat, y: nat)
    requires a <= b && x <= y
    ensures a * x <= b * y
  {
    assert a * x <= b * x <= b * y;
  }

  /** n messages of the bound fit, one more does not. */
  lemma Overflowing(bound: nat, n: nat)
    requires n < MAX_FIFO_MSG && n * bound <= FIFO_SIZE < n * bound + bound
    ensures Holds(Repeat(Bytes(bound), n)) && Bounded(Repeat(Bytes(bound), n), bound)
    ensures |Concat(Repeat(Bytes(bound), n))| + |Bytes(bound)| > FIFO_SIZE
  {
    ConcatRepeat(Bytes(bound), n);
  }

  function Bytes(n: nat): (r: seq<Byte>)
    ensures |r| == n
  {
    seq(n, _ => 0)
  }

  /** A callback is refused exactly when 31 messages are pending... */
  ghost predicate RefusedOnlyWhenFull(bound: nat) {
    forall pending: seq<seq<Byte>>, data: seq<Byte> ::
      Holds(pending) && Bounded(pending, bound) && |data| <= bound ==>
        (Refused(pending, data) <==> |pending| == MAX_FIFO_MSG - 1)
  }

  lemma UpTo528(bound: nat, pending: seq<seq<Byte>>, data: seq<Byte>)
    requires bound <= 528 && Holds(pending) && Bounded(pending, bound) && |data| <= bound
    ensures Refused(pending, data) <==> |pending| == MAX_FIFO_MSG - 1
  {
    ConcatBounded(pending, bound);
    if |pending| < 31 { Scale(|pending|, 30, bound, 528); }
  }

  lemma Beyond528(bound: nat) returns (n: nat)
    requires bound > 528
    ensures n < MAX_FIFO_MSG - 1 && n * bound <= FIFO_SIZE < n * bound + bound
  {
    n := FIFO_SIZE / bound;
    Division(FIFO_SIZE, bound);
    if n > 30 {
      Scale(31, n, 529, bound);
      assert false;
    }
  }

  /** ...for messages of up to 528 bytes, and for no larger bound. */
  lemma RefusedOnlyWhenFullIffBounded(bound: nat)
    ensures RefusedOnlyWhenFull(bound) <==> bound <= 528
  {
    if bound <= 528 {
      forall pending: seq<seq<Byte>>, data: seq<Byte> | Holds(pending) && Bounded(pending, bound) && |data| <= bound
        ensures Refused(pending, data) <==> |pending| == MAX_FIFO_MSG - 1
      {
        UpTo528(bound, pending, data);
      }
    } else {
      var n := Beyond528(bound);
      Overflowing(bound, n);
      assert Refused(Repeat(Bytes(bound), n), Bytes(bound));
    }
  }
}
