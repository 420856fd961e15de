/** Runs of one virtqueue: any interleaving of host steps with the single
    memory accesses of the PRU functions, of any length. */
module VirtqueueRuns {
  import opened Words
  import opened Virtqueue
  import opened VirtqueueSafety

  datatype Action =
    | HostPublish(head: nat, d: Desc, content: seq<Byte>)
    | HostReclaim
    | PruCheck
    | PruGrab
    | PruFetch
    | PruFill(held: nat, data: seq<Byte>)
    | PruBump(elem: UsedElem)
    | PruWriteId
    | PruWriteLen
    | Elsewhere(after: seq<Byte>)   // memory outside this queue's arena changes

  /** When a step can happen.  A used entry may be reclaimed only once settled;
      PollingReadsInFlight below says what happens to a host that does not wait. */
  ghost predicate Enabled(s: Queue, mem: seq<Byte>, a: Action) {
    match a
    case HostPublish(head, d, content) => CanPublish(s, mem, head, d, content)
    case HostReclaim => CanReclaim(s) && Settled(s)
    case PruCheck => s.pc.Idle?
    case PruGrab => s.vq.Shape() && s.pc.Checked?
    case PruFetch => s.pc.Grabbed?
    case PruFill(h, data) => CanFill(s, mem, h, data)
    case PruBump(elem) => s.vq.Shape() && s.pc.Idle? && elem.id in s.log.held
    case PruWriteId => InHandOver(s) && s.pc.Bumped?
    case PruWriteLen => InHandOver(s) && s.pc.IdWritten?
    case Elsewhere(after) => s.lo <= s.hi <= |mem| == |after| && after[s.lo..s.hi] == mem[s.lo..s.hi]
  }

  ghost function Apply(s: Queue, mem: seq<Byte>, a: Action): (Queue, seq<Byte>)
    requires Enabled(s, mem, a)
  {
    match a
    case HostPublish(head, d, content) => Publish(s, mem, head, d, content)
    case HostReclaim => (Reclaim(s), mem)
    case PruCheck => (Check(s), mem)
    case PruGrab => (Grab(s), mem)
    case PruFetch => (Fetch(s), mem)
    case PruFill(h, data) => Fill(s, mem, h, data)
    case PruBump(elem) => (Bump(s, elem), mem)
    case PruWriteId => (WriteId(s), mem)
    case PruWriteLen => (WriteLen(s), mem)
    case Elsewhere(after) => (s, after)
  }

  ghost predicate Feasible(s: Queue, mem: seq<Byte>, run: seq<Action>)
    decreases |run|
  {
    run == [] || (Enabled(s, mem, run[0]) &&
                  var (s', mem') := Apply(s, mem, run[0]); Feasible(s', mem', run[1..]))
  }

  ghost function Exec(s: Queue, mem: seq<Byte>, run: seq<Action>): (Queue, seq<Byte>)
    requires Feasible(s, mem, run)
    decreases |run|
  {
    if run == [] then (s, mem)
    else
      var (s', mem') := Apply(s, mem, run[0]);
      Exec(s', mem', run[1..])
  }

  /** A freshly initialised queue: nothing published, all descriptors the host's. */
  ghost function Fresh(
    num: nat, desc: seq<Desc>, availRing: seq<nat>, usedRing: seq<UsedElem>, lo: nat, hi: nat): Queue
  {
    Queue(Vq(num, desc, 0, availRing, 0, usedRing, 0, 0),
          Log(Indices(num), {}, map[], [], 0, [], 0), Idle, lo, hi)
  }

  lemma FreshInv(
    num: nat, desc: seq<Desc>, availRing: seq<nat>, usedRing: seq<UsedElem>, lo: nat, hi: nat, mem: seq<Byte>)
    requires IsPow2(num) && num <= MAX_NUM && |desc| == |availRing| == |usedRing| == num
    requires lo <= hi <= |mem|
    ensures Inv(Fresh(num, desc, availRing, usedRing, lo, hi), mem)
  {
    var s := Fresh(num, desc, availRing, usedRing, lo, hi);
    assert Pending(s.log) == [] && Unread(s.log) == [];
  }

  lemma StepKeepsInv(s: Queue, mem: seq<Byte>, a: Action)
    requires Inv(s, mem) && Enabled(s, mem, a)
    ensures var (s', mem') := Apply(s, mem, a); Inv(s', mem')
  {
    match a
    case HostPublish(head, d, content) => PublishKeepsInv(s, mem, head, d, content);
    case HostReclaim => ReclaimKeepsInv(s, mem);
    case PruCheck => CheckKeepsInv(s, mem);
    case PruGrab => GrabKeepsInv(s, mem);
    case PruFetch => FetchKeepsInv(s, mem);
    case PruFill(h, data) => FillKeepsInv(s, mem, h, data);
    case PruBump(elem) => BumpKeepsInv(s, mem, elem);
    case PruWriteId => WriteIdKeepsInv(s, mem);
    case PruWriteLen => WriteLenKeepsInv(s, mem);
    case Elsewhere(after) => FrameKeepsInv(s, mem, after);
  }

  lemma {:induction false} RunKeepsInv(s: Queue, mem: seq<Byte>, run: seq<Action>)
    requires Inv(s, mem) && Feasible(s, mem, run)
    ensures var (s', mem') := Exec(s, mem, run); Inv(s', mem')
    decreases |run|
  {
    if run != [] {
      StepKeepsInv(s, mem, run[0]);
      var (s', mem') := Apply(s, mem, run[0]);
      RunKeepsInv(s', mem', run[1..]);
    }
  }

  /** Descriptor conservation: after any run, every descriptor is in exactly one
      of host-free, published-not-taken, held by the PRU, used-not-reclaimed;
      and every live ring entry still sits in its slot. */
  lemma Conservation(s: Queue, mem: seq<Byte>, run: seq<Action>, h: nat)
    requires Inv(s, mem) && Feasible(s, mem, run) && h < Exec(s, mem, run).0.vq.num
    ensures var e := Exec(s, mem, run).0;
            && e.vq.Shape()
            && e.log.taken <= |e.log.published| <= e.log.taken + e.vq.num
            && e.log.reclaimed <= |e.log.returned| <= e.log.reclaimed + e.vq.num
            && Count(h in e.log.free) + Count(h in e.log.held)
               + multiset(Pending(e.log))[h] + multiset(Unread(e.log))[h] == 1
            && (forall i :: e.log.taken <= i < |e.log.published| ==>
                  e.vq.availRing[i % e.vq.num] == e.log.published[i].head)
            && (forall i :: e.log.reclaimed <= i < |e.log.returned| ==>
                  e.vq.usedRing[i % e.vq.num] == e.log.returned[i].elem)
  {
    RunKeepsInv(s, mem, run);
    var e := Exec(s, mem, run).0;
    Room(e);
    if e.pc.IdWritten? { HeldPositive(e.log.held, e.pc.elem.id); }
    Exclusive(e, h);
  }

  /** Wrap-around refinement: however often the 16-bit counters have wrapped,
      the empty test and the slots are those of unbounded counters. */
  lemma WrapRefinement(s: Queue, mem: seq<Byte>, run: seq<Action>)
    requires Inv(s, mem) && Feasible(s, mem, run)
    ensures var e := Exec(s, mem, run).0;
            && e.vq.Shape()
            && (e.vq.lastAvail == e.vq.availIdx <==> e.log.taken == |e.log.published|)
            && e.vq.Slot(e.vq.lastAvail) == e.log.taken % e.vq.num
            && e.vq.Slot(e.vq.availIdx) == |e.log.published| % e.vq.num
            && e.vq.Slot(e.vq.lastUsed) == e.log.reclaimed % e.vq.num
            && (e.log.taken < |e.log.published| ==>
                  e.vq.availRing[e.vq.Slot(e.vq.lastAvail)] == e.log.published[e.log.taken].head < e.vq.num)
  {
    RunKeepsInv(s, mem, run);
    var e := Exec(s, mem, run).0;
    EmptyTestIsExact(e);
    SlotRefines(e.vq, e.log.taken);
    SlotRefines(e.vq, |e.log.published|);
    SlotRefines(e.vq, e.log.reclaimed);
    if e.log.taken < |e.log.published| { NextHead(e); }
  }

  /** After any run, every buffer still to be taken holds what the host
      published in it and every returned one not yet reclaimed holds what the
      PRU handed over: neither is written in between. */
  lemma BuffersChangeHandsIntact(s: Queue, mem: seq<Byte>, run: seq<Action>)
    requires Inv(s, mem) && Feasible(s, mem, run)
    ensures var (e, m) := Exec(s, mem, run);
            && e.vq.Shape()
            && (forall i :: e.log.taken <= i < |e.log.published| ==>
                  Contains(e, m, e.log.published[i].head, e.log.published[i].content))
            && (forall i :: e.log.reclaimed <= i < |e.log.returned| ==>
                  Contains(e, m, e.log.returned[i].elem.id, e.log.returned[i].content))
            && (Settled(e) ==> CanReclaim(e) && NextUsed(e) == e.log.returned[e.log.reclaimed].elem)
  {
    RunKeepsInv(s, mem, run);
    var (e, m) := Exec(s, mem, run);
    forall i | e.log.taken <= i < |e.log.published|
      ensures Contains(e, m, e.log.published[i].head, e.log.published[i].content)
    {
      PendingIsLive(e, i);
    }
    forall i | e.log.reclaimed <= i < |e.log.returned|
      ensures Contains(e, m, e.log.returned[i].elem.id, e.log.returned[i].content)
    {
      UnreadIsLive(e, i);
    }
    if Settled(e) { SettledReclaimReads(e, m); }
  }

  /** Descriptor h names a buffer that holds `content`. */
  ghost predicate Contains(s: Queue, mem: seq<Byte>, h: nat, content: seq<Byte>) {
    && h < |s.vq.desc| && Placed(s, mem, s.vq.desc[h])
    && Content(mem, s.vq.desc[h]) == content
  }

  // ------------------------------------- used->idx moves before its element

  /** pru_virtqueue_add_used_buf has exposed an element it has not written. */
  ghost predicate Exposing(s: Queue) { s.pc.Bumped? || s.pc.IdWritten? }

  /** The element a host that reclaims next is meant to read. */
  ghost function Intended(s: Queue): UsedElem
    requires CanReclaim(s) && (Settled(s) || Exposing(s))
  {
    if Settled(s) then s.log.returned[s.log.reclaimed].elem else s.pc.elem
  }

  /** The state had the fields not yet written of the exposed slot held v. */
  ghost function HadHeld(s: Queue, v: UsedElem): Queue
    requires Exposing(s) ==> InHandOver(s)
  {
    if s.pc.Bumped? then s.(vq := s.vq.(usedRing := s.vq.usedRing[s.pc.slot := v]))
    else if s.pc.IdWritten?
    then s.(vq := s.vq.(usedRing := s.vq.usedRing[s.pc.slot := s.vq.usedRing[s.pc.slot].(len := v.len)]))
    else s
  }

  /** A host that trusts used->idx alone will read. */
  ghost predicate Polls(s: Queue) {
    CanReclaim(s) && (Settled(s) || Exposing(s)) && (Exposing(s) ==> InHandOver(s))
  }

  /** It reads the intended element, whatever the slot held before. */
  ghost predicate PollReadsRight(s: Queue)
    requires Polls(s)
  {
    forall v: UsedElem :: NextUsed(HadHeld(s, v)) == Intended(s)
  }

  /** How many entries the host sees: a test it can make before it reads. */
  function Gap(vq: Vq): nat { (vq.usedIdx - vq.lastUsed) % U16 }

  lemma GapCounts(s: Queue, mem: seq<Byte>)
    requires Inv(s, mem)
    ensures Gap(s.vq) == |s.log.returned| + s.Exposed() - s.log.reclaimed <= s.vq.num
  {
    UsedTestIsExact(s);
    var i, j := s.log.reclaimed, |s.log.returned| + s.Exposed();
    DifferenceMod(i, j, U16);
  }

  /** pru_virtqueue_add_used_buf bumps used->idx before it writes the id and then
      the length.  In every phase of the call, a host that trusts the index reads
      right if and only if an older element is unread, that is, unless the call
      is between index and length and the host sees a single entry. */
  lemma PollingIsRightIff(s: Queue, mem: seq<Byte>)
    requires Inv(s, mem) && CanReclaim(s)
    ensures Polls(s)
    ensures PollReadsRight(s) <==> Settled(s)
    ensures PollReadsRight(s) <==> !(Exposing(s) && Gap(s.vq) == 1)
  {
    UsedTestIsExact(s);
    GapCounts(s, mem);
    if Exposing(s) { HeldIsLive(s, s.pc.elem.id); }
    if Settled(s) { SettledPoll(s, mem); } else { UnsettledPoll(s); }
  }

  lemma SettledPoll(s: Queue, mem: seq<Byte>)
    requires Inv(s, mem) && CanReclaim(s) && Settled(s) && (Exposing(s) ==> InHandOver(s))
    ensures PollReadsRight(s)
  {
    SettledReclaimReads(s, mem);
    SlotRefines(s.vq, s.log.reclaimed);
    if Exposing(s) {
      Room(s);
      HeldPositive(s.log.held, s.pc.elem.id);
      DistinctSlots(s.log.reclaimed, |s.log.returned|, s.vq.num);
    }
  }

  lemma UnsettledPoll(s: Queue)
    requires s.vq.Shape() && Counters(s) && PcOk(s) && CanReclaim(s) && !Settled(s) && Exposing(s) && InHandOver(s)
    ensures !PollReadsRight(s)
  {
    SlotRefines(s.vq, s.log.reclaimed);
    var e := s.pc.elem;
    assert NextUsed(HadHeld(s, UsedElem(e.id + 1, e.len + 1))) != Intended(s);
  }

  /** All a host can go by before it reads is how many entries it sees. */
  ghost predicate GapIsSafe(gap: nat) {
    forall s: Queue, mem: seq<Byte> ::
      Inv(s, mem) && Polls(s) && Gap(s.vq) == gap ==> PollReadsRight(s)
  }

  /** A host that reads on the index alone is safe exactly when it leaves the
      last entry it sees alone. */
  lemma GapIsSafeIff(gap: nat)
    ensures GapIsSafe(gap) <==> gap != 1
  {
    if gap != 1 {
      forall s: Queue, mem: seq<Byte> | Inv(s, mem) && Polls(s) && Gap(s.vq) == gap
        ensures PollReadsRight(s)
      {
        PollingIsRightIff(s, mem);
      }
    } else {
      var mem := seq(2 * BUF_SIZE, _ => 0);
      var s, run := PollingCounterexample(mem);
      var (e, m) := Exec(s, mem, run);
      RunKeepsInv(s, mem, run);
      PollingIsRightIff(e, m);
    }
  }

  /** Once the ring has gone round, the entry such a host reads is the one
      returned num hand-overs earlier. */
  lemma PollingReadsInFlight(s: Queue, mem: seq<Byte>)
    requires Inv(s, mem) && CanReclaim(s) && s.pc.Bumped? && !Settled(s)
    requires |s.log.returned| >= s.vq.num
    ensures NextUsed(s) == s.log.returned[|s.log.returned| - s.vq.num].elem
  {
    UsedTestIsExact(s);
    SlotRefines(s.vq, s.log.reclaimed);
    ModMinus(|s.log.returned|, s.vq.num);
  }

  /** A freshly initialised queue of two descriptors. */
  ghost function TwoFresh(): Queue {
    var d, zero := Desc(0, BUF_SIZE), UsedElem(0, 0);
    Fresh(2, [d, d], [0, 0], [zero, zero], 0, 2 * BUF_SIZE)
  }

  /** A run in which it goes wrong: the host publishes descriptor 1, the PRU
      takes it and bumps used->idx, and the slot still names descriptor 0. */
  lemma PollingCounterexample(mem: seq<Byte>) returns (s: Queue, run: seq<Action>)
    requires |mem| == 2 * BUF_SIZE
    ensures s == TwoFresh() && Inv(s, mem) && Feasible(s, mem, run)
    ensures var e := Exec(s, mem, run).0;
            && CanReclaim(e) && e.pc.Bumped? && Gap(e.vq) == 1
            && NextUsed(e).id == 0 && 0 in e.log.free && e.log.held == {1}
  {
    var s3, m, data := OneTaken(mem);
    var elem := UsedElem(1, BUF_SIZE);
    var s4 := Fetch(s3);
    var r4 := Prepend(s4, m, PruBump(elem), []);
    var r3 := Prepend(s3, m, PruFetch, r4);
    s, run := OneTakenThen(mem, s3, m, data, r3);
    StaleAfterBump(s4, elem, s3.log);
    assert Exec(s, mem, run).0 == Bump(s4, elem);
  }

  lemma StaleAfterBump(s: Queue, elem: UsedElem, log: Log)
    requires s.vq.Shape() && s.vq.usedRing == [UsedElem(0, 0), UsedElem(0, 0)] && s.vq.usedIdx == s.vq.lastUsed == 0
    requires s.log == log && log.held == {1} && log.free == {0} && log.reclaimed == 0
    ensures var e := Bump(s, elem);
            && CanReclaim(e) && e.pc.Bumped? && Gap(e.vq) == 1
            && NextUsed(e).id == 0 && 0 in e.log.free && e.log.held == {1}
  {
    SlotRefines(Bump(s, elem).vq, 0);
  }

  /** Two descriptors; the host has published 1 and the PRU has read its head. */
  lemma OneTaken(mem: seq<Byte>) returns (s: Queue, m: seq<Byte>, data: seq<Byte>)
    requires |mem| == 2 * BUF_SIZE
    ensures |data| == BUF_SIZE && m == Splice(mem, 0, data)
    ensures s == Queue(Vq(2, [Desc(0, BUF_SIZE), Desc(0, BUF_SIZE)], 1, [1, 0],
                          0, [UsedElem(0, 0), UsedElem(0, 0)], 1, 0),
                       Log({0}, {1}, map[1 := data], [Post(1, data)], 1, [], 0),
                       Grabbed(1), 0, 2 * BUF_SIZE)
  {
    data := mem[..BUF_SIZE];
    m := Splice(mem, 0, data);
    s := Queue(Vq(2, [Desc(0, BUF_SIZE), Desc(0, BUF_SIZE)], 1, [1, 0],
                  0, [UsedElem(0, 0), UsedElem(0, 0)], 1, 0),
               Log({0}, {1}, map[1 := data], [Post(1, data)], 1, [], 0),
               Grabbed(1), 0, 2 * BUF_SIZE);
  }

  lemma OneTakenThen(mem: seq<Byte>, s3: Queue, m: seq<Byte>, data: seq<Byte>, rest: seq<Action>)
    returns (s0: Queue, run: seq<Action>)
    requires |mem| == 2 * BUF_SIZE && |data| == BUF_SIZE && m == Splice(mem, 0, data)
    requires s3 == Queue(Vq(2, [Desc(0, BUF_SIZE), Desc(0, BUF_SIZE)], 1, [1, 0],
                            0, [UsedElem(0, 0), UsedElem(0, 0)], 1, 0),
                         Log({0}, {1}, map[1 := data], [Post(1, data)], 1, [], 0),
                         Grabbed(1), 0, 2 * BUF_SIZE)
    requires Feasible(s3, m, rest)
    ensures s0 == TwoFresh() && Inv(s0, mem) && Feasible(s0, mem, run) && Exec(s0, mem, run) == Exec(s3, m, rest)
  {
    var d, zero := Desc(0, BUF_SIZE), UsedElem(0, 0);
    s0 := TwoFresh();
    FreshInv(2, [d, d], [0, 0], [zero, zero], 0, 2 * BUF_SIZE, mem);
    var post := HostPublish(1, d, data);
    SlotRefines(s0.vq, 0);
    assert Indices(2) - {1} == {0};
    var s1 := Apply(s0, mem, post).0;
    SlotRefines(s1.vq, 0);
    assert s3.log.held == s1.log.held + {1};
    assert Grab(Check(s1)) == s3;
    var r2 := Prepend(Check(s1), m, PruGrab, rest);
    var r1 := Prepend(s1, m, PruCheck, r2);
    run := Prepend(s0, mem, post, r1);
  }

  lemma Prepend(s: Queue, mem: seq<Byte>, a: Action, rest: seq<Action>) returns (run: seq<Action>)
    requires Enabled(s, mem, a)
    requires var (s', mem') := Apply(s, mem, a); Feasible(s', mem', rest)
    ensures Feasible(s, mem, run)
    ensures var (s', mem') := Apply(s, mem, a); Exec(s, mem, run) == Exec(s', mem', rest)
  {
    run := [a] + rest;
    assert run[1..] == rest;
  }
}
