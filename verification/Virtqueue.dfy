/** One split virtqueue shared by the ARM host and a PRU: the ring state both
    sides read and write (examples/include/pru_virtio_ring.h), the four PRU
    functions broken into the memory accesses they make
    (examples/lib/src/pru_virtqueue.c), and the host as the environment.

    `Vq` is the state that exists in memory, with 16-bit counters.  `Log` holds
    history variables over unbounded counters; nothing in `Vq` depends on it. */
module Virtqueue {
  import opened Words

  const MAX_NUM: nat := 32768  // heads must fit an int16_t

  datatype Desc = Desc(addr: nat, len: nat)
  datatype UsedElem = UsedElem(id: nat, len: nat)

  datatype Vq = Vq(
    num: nat,
    desc: seq<Desc>,
    availIdx: nat, availRing: seq<nat>,
    usedIdx: nat, usedRing: seq<UsedElem>,
    lastAvail: nat,   // private to the PRU
    lastUsed: nat)    // private to the host
  {
    ghost predicate Shape() {
      && IsPow2(num) && num <= MAX_NUM
      && |desc| == |availRing| == |usedRing| == num
    }

    /** The ring slot a free-running 16-bit counter selects. */
    function Slot(idx: nat): (i: nat)
      requires Shape()
      ensures i == idx % num && i < num
    {
      MaskIsMod(idx, num);
      BitAnd(idx, num - 1)
    }
  }

  datatype Post = Post(head: nat, content: seq<Byte>)
  datatype Handed = Handed(elem: UsedElem, content: seq<Byte>)

  datatype Log = Log(
    free: set<nat>,                  // descriptors the host may publish
    held: set<nat>,                  // taken by the PRU, not yet returned
    content: map<nat, seq<Byte>>,    // what each live buffer must contain
    published: seq<Post>,            // every head ever made available
    taken: nat,                      // how many of them the PRU has taken
    returned: seq<Handed>,           // every completed used element
    reclaimed: nat)                  // how many of them the host has read

  /** Where the PRU is inside a virtqueue call. */
  datatype Pc =
    | Idle
    | Checked                // saw last_avail_idx != avail->idx
    | Grabbed(head: nat)     // read the ring slot and bumped last_avail_idx
    | Bumped(slot: nat, elem: UsedElem)     // bumped used->idx, slot not yet written
    | IdWritten(slot: nat, elem: UsedElem)  // wrote the id, not yet the length

  datatype Queue = Queue(vq: Vq, log: Log, pc: Pc, lo: nat, hi: nat)
  {
    /** How many entries used->idx exposes beyond the completed ones. */
    function Exposed(): nat { if pc.Bumped? || pc.IdWritten? then 1 else 0 }
  }

  // ---------------------------------------------------------------- memory

  function Content(mem: seq<Byte>, d: Desc): seq<Byte>
    requires d.addr + BUF_SIZE <= |mem|
  {
    mem[d.addr..d.addr + BUF_SIZE]
  }

  function Splice(mem: seq<Byte>, at: nat, bytes: seq<Byte>): (r: seq<Byte>)
    requires at + |bytes| <= |mem|
    ensures |r| == |mem|
  {
    mem[..at] + bytes + mem[at + |bytes|..]
  }

  predicate Apart(d: Desc, e: Desc) {
    d.addr + BUF_SIZE <= e.addr || e.addr + BUF_SIZE <= d.addr
  }

  lemma SpliceHere(mem: seq<Byte>, d: Desc, bytes: seq<Byte>)
    requires d.addr + BUF_SIZE <= |mem| && |bytes| == BUF_SIZE
    ensures Content(Splice(mem, d.addr, bytes), d) == bytes
  {
  }

  lemma SpliceApart(mem: seq<Byte>, d: Desc, e: Desc, bytes: seq<Byte>)
    requires d.addr + BUF_SIZE <= |mem| && e.addr + BUF_SIZE <= |mem|
    requires |bytes| == BUF_SIZE && Apart(d, e)
    ensures Content(Splice(mem, d.addr, bytes), e) == Content(mem, e)
  {
    SliceOfSplice(mem, d.addr, bytes, e.addr, e.addr + BUF_SIZE);
  }

  lemma SpliceOutside(mem: seq<Byte>, d: Desc, bytes: seq<Byte>, lo: nat, hi: nat)
    requires d.addr + BUF_SIZE <= |mem| && |bytes| == BUF_SIZE && lo <= hi <= |mem|
    requires hi <= d.addr || d.addr + BUF_SIZE <= lo
    ensures Splice(mem, d.addr, bytes)[lo..hi] == mem[lo..hi]
  {
    SliceOfSplice(mem, d.addr, bytes, lo, hi);
  }

  lemma SliceOfSplice(mem: seq<Byte>, at: nat, bytes: seq<Byte>, lo: nat, hi: nat)
    requires at + |bytes| <= |mem| && lo <= hi <= |mem| && (hi <= at || at + |bytes| <= lo)
    ensures Splice(mem, at, bytes)[lo..hi] == mem[lo..hi]
  {
    var r := Splice(mem, at, bytes);
    var a, b := r[lo..hi], mem[lo..hi];
    forall k | 0 <= k < hi - lo ensures a[k] == b[k] { assert r[lo + k] == mem[lo + k]; }
  }

  // ------------------------------------------------------------- invariant

  function Heads(posts: seq<Post>): (r: seq<nat>)
    ensures |r| == |posts|
    ensures forall i :: 0 <= i < |posts| ==> r[i] == posts[i].head
  {
    seq(|posts|, i requires 0 <= i < |posts| => posts[i].head)
  }

  function Ids(returned: seq<Handed>): (r: seq<nat>)
    ensures |r| == |returned|
    ensures forall i :: 0 <= i < |returned| ==> r[i] == returned[i].elem.id
  {
    seq(|returned|, i requires 0 <= i < |returned| => returned[i].elem.id)
  }

  function Indices(num: nat): (r: set<nat>)
    ensures |r| == num
    ensures forall i :: i in r <==> 0 <= i < num
  {
    if num == 0 then {} else Indices(num - 1) + {num - 1}
  }

  /** Published and not yet taken, in publication order. */
  function Pending(log: Log): seq<nat>
    requires log.taken <= |log.published|
  {
    Heads(log.published[log.taken..])
  }

  /** Returned and not yet reclaimed, in return order. */
  function Unread(log: Log): seq<nat>
    requires log.reclaimed <= |log.returned|
  {
    Ids(log.returned[log.reclaimed..])
  }

  ghost predicate Counters(s: Queue) {
    && s.log.taken <= |s.log.published|
    && s.log.reclaimed <= |s.log.returned|
    && s.vq.availIdx == |s.log.published| % U16
    && s.vq.lastAvail == s.log.taken % U16
    && s.vq.usedIdx == (|s.log.returned| + s.Exposed()) % U16
    && s.vq.lastUsed == s.log.reclaimed % U16
  }

  /** Every descriptor index is accounted for exactly once. */
  ghost predicate Conserved(s: Queue)
    requires Counters(s)
  {
    multiset(s.log.free) + multiset(s.log.held) + multiset(Pending(s.log)) + multiset(Unread(s.log))
      == multiset(Indices(s.vq.num))
  }

  /** Each ring still holds its last num entries at their slots. */
  ghost predicate Rings(s: Queue)
    requires s.vq.Shape()
  {
    var n := s.vq.num;
    var spoiled := if s.pc.IdWritten? then 1 else 0;
    && (forall i :: 0 <= i < |s.log.published| <= i + n ==>
          s.vq.availRing[i % n] == s.log.published[i].head)
    && (forall i :: 0 <= i < |s.log.returned| <= i + n - spoiled ==>
          s.vq.usedRing[i % n] == s.log.returned[i].elem)
  }

  ghost predicate PcOk(s: Queue)
    requires s.vq.Shape()
  {
    match s.pc
    case Idle => true
    case Checked => s.log.taken < |s.log.published|
    case Grabbed(h) => h in s.log.held
    case Bumped(i, e) => e.id in s.log.held && i == |s.log.returned| % s.vq.num
    case IdWritten(i, e) =>
      e.id in s.log.held && i == |s.log.returned| % s.vq.num && s.vq.usedRing[i].id == e.id
  }

  ghost predicate Live(s: Queue, h: int) { 0 <= h < s.vq.num && h !in s.log.free }

  /** The history of each live buffer agrees with what it must contain now. */
  ghost predicate Tracked(s: Queue)
    requires Counters(s)
  {
    && (forall h :: Live(s, h) ==> h in s.log.content && |s.log.content[h]| == BUF_SIZE)
    && (forall i :: s.log.taken <= i < |s.log.published| ==>
          var p := s.log.published[i]; p.head in s.log.content && s.log.content[p.head] == p.content)
    && (forall i :: s.log.reclaimed <= i < |s.log.returned| ==>
          var r := s.log.returned[i]; r.elem.id in s.log.content && s.log.content[r.elem.id] == r.content)
  }

  ghost predicate Placed(s: Queue, mem: seq<Byte>, d: Desc) {
    && s.lo <= d.addr && d.addr + BUF_SIZE <= s.hi <= |mem|
    && d.addr < U32 && BUF_SIZE <= d.len < U32
  }

  /** Live buffers lie in this queue's arena, do not overlap, and contain what
      the log says. */
  ghost predicate Buffers(s: Queue, mem: seq<Byte>)
    requires s.vq.Shape()
  {
    && s.lo <= s.hi <= |mem|
    && (forall h :: Live(s, h) ==> Placed(s, mem, s.vq.desc[h]))
    && (forall h, g :: Live(s, h) && Live(s, g) && h != g ==> Apart(s.vq.desc[h], s.vq.desc[g]))
    && (forall h :: Live(s, h) && h in s.log.content ==> Content(mem, s.vq.desc[h]) == s.log.content[h])
  }

  ghost predicate Inv(s: Queue, mem: seq<Byte>) {
    && s.vq.Shape() && Counters(s) && Conserved(s) && Rings(s) && PcOk(s) && Tracked(s) && Buffers(s, mem)
  }

  // ------------------------------------------------- consequences of Inv

  function Count(b: bool): nat { if b then 1 else 0 }

  /** Conservation, read pointwise: each index is in exactly one place, once. */
  lemma Exclusive(s: Queue, h: nat)
    requires Counters(s) && Conserved(s)
    ensures Count(h in s.log.free) + Count(h in s.log.held)
            + multiset(Pending(s.log))[h] + multiset(Unread(s.log))[h] == Count(h < s.vq.num)
  {
    var all := multiset(s.log.free) + multiset(s.log.held)
               + multiset(Pending(s.log)) + multiset(Unread(s.log));
    assert all[h] == multiset(Indices(s.vq.num))[h];
  }

  /** The four shares add up to num, so neither ring can be overrun. */
  lemma Room(s: Queue)
    requires Counters(s) && Conserved(s)
    ensures |s.log.free| + |s.log.held| + (|s.log.published| - s.log.taken)
            + (|s.log.returned| - s.log.reclaimed) == s.vq.num
  {
    var a, b := multiset(s.log.free), multiset(s.log.held);
    var c, d := multiset(Pending(s.log)), multiset(Unread(s.log));
    assert |a + b + c + d| == |a| + |b| + |c| + |d|;
    assert |a| == |s.log.free| && |b| == |s.log.held|;
    assert |multiset(Indices(s.vq.num))| == |Indices(s.vq.num)|;
  }

  /** Inside the ring sizes a 16-bit comparison is exact: the PRU sees "nothing
      available" precisely when everything published has been taken. */
  lemma EmptyTestIsExact(s: Queue)
    requires s.vq.Shape() && Counters(s) && Conserved(s)
    ensures s.vq.lastAvail == s.vq.availIdx <==> s.log.taken == |s.log.published|
  {
    Room(s);
    ModInjective(s.log.taken, |s.log.published|, U16);
  }

  /** The same for the host's test for used entries, where the exposed count
      includes an entry whose slot is still being written. */
  lemma UsedTestIsExact(s: Queue)
    requires s.vq.Shape() && Counters(s) && Conserved(s) && PcOk(s)
    ensures s.vq.lastUsed == s.vq.usedIdx <==> s.log.reclaimed == |s.log.returned| + s.Exposed()
    ensures |s.log.returned| + s.Exposed() <= s.log.reclaimed + s.vq.num
  {
    Room(s);
    if s.Exposed() == 1 {
      assert |s.log.held| >= 1 by { HeldPositive(s.log.held, s.pc.elem.id); }
    }
    ModInjective(s.log.reclaimed, |s.log.returned| + s.Exposed(), U16);
  }

  lemma HeldPositive(a: set<nat>, h: nat)
    requires h in a
    ensures |a| >= 1
  {
    assert a == (a - {h}) + {h};
  }

  /** The slot selected by the wrapped counter is the slot of the unbounded one. */
  lemma SlotRefines(vq: Vq, count: nat)
    requires vq.Shape()
    ensures vq.Slot(count % U16) == count % vq.num
  {
    U16IsPow2();
    WrapThenMod(count, vq.num, U16);
  }

  /** The head the PRU reads next is the oldest published head not yet taken,
      and it is a descriptor index. */
  lemma NextHead(s: Queue)
    requires s.vq.Shape() && Counters(s) && Conserved(s) && Rings(s)
    requires s.log.taken < |s.log.published|
    ensures s.vq.availRing[s.vq.Slot(s.vq.lastAvail)] == s.log.published[s.log.taken].head
    ensures s.log.published[s.log.taken].head < s.vq.num
    ensures s.log.published[s.log.taken].head == Pending(s.log)[0]
  {
    Room(s);
    SlotRefines(s.vq, s.log.taken);
    assert Pending(s.log)[0] in multiset(Pending(s.log));
    Exclusive(s, Pending(s.log)[0]);
  }

  // ----------------------------------------------------------- host steps

  /** The host may publish a descriptor it owns, with a fresh buffer. */
  ghost predicate CanPublish(s: Queue, mem: seq<Byte>, head: nat, d: Desc, content: seq<Byte>) {
    && s.vq.Shape() && head in s.log.free && head < s.vq.num
    && |content| == BUF_SIZE && Placed(s, mem, d)
    && forall h :: Live(s, h) ==> Apart(d, s.vq.desc[h])
  }

  ghost function Publish(s: Queue, mem: seq<Byte>, head: nat, d: Desc, content: seq<Byte>): (Queue, seq<Byte>)
    requires CanPublish(s, mem, head, d, content)
  {
    var vq := s.vq.(desc := s.vq.desc[head := d],
                    availRing := s.vq.availRing[s.vq.Slot(s.vq.availIdx) := head],
                    availIdx := (s.vq.availIdx + 1) % U16);
    var log := s.log.(free := s.log.free - {head},
                      content := s.log.content[head := content],
                      published := s.log.published + [Post(head, content)]);
    (s.(vq := vq, log := log), Splice(mem, d.addr, content))
  }

  /** What a host that polls the used index does: read the next slot. */
  ghost predicate CanReclaim(s: Queue) {
    s.vq.Shape() && s.vq.lastUsed != s.vq.usedIdx && s.log.reclaimed <= |s.log.returned|
  }

  ghost function NextUsed(s: Queue): UsedElem
    requires CanReclaim(s)
  {
    s.vq.usedRing[s.vq.Slot(s.vq.lastUsed)]
  }

  ghost function Reclaim(s: Queue): Queue
    requires CanReclaim(s)
  {
    s.(vq := s.vq.(lastUsed := (s.vq.lastUsed + 1) % U16),
       log := s.log.(free := s.log.free + {NextUsed(s).id}, reclaimed := s.log.reclaimed + 1))
  }

  /** The slot about to be read is not one the PRU is still writing. */
  ghost predicate Settled(s: Queue) { s.log.reclaimed < |s.log.returned| }

  // ------------------------------------------------------------ PRU steps

  /** pru_virtqueue_get_avail_buf, first access: the empty test. */
  ghost function Check(s: Queue): Queue {
    if s.vq.lastAvail == s.vq.availIdx then s else s.(pc := Checked)
  }

  /** Second access: read the ring slot and bump the private counter. */
  ghost function Grab(s: Queue): Queue
    requires s.vq.Shape()
  {
    var head := s.vq.availRing[s.vq.Slot(s.vq.lastAvail)];
    s.(vq := s.vq.(lastAvail := (s.vq.lastAvail + 1) % U16),
       log := s.log.(held := s.log.held + {head}, taken := s.log.taken + 1),
       pc := Grabbed(head))
  }

  /** Third access: read the descriptor; the call then returns its address. */
  ghost function Fetch(s: Queue): Queue { s.(pc := Idle) }

  /** The caller writes a buffer it holds. */
  ghost predicate CanFill(s: Queue, mem: seq<Byte>, head: nat, content: seq<Byte>) {
    && s.vq.Shape() && head in s.log.held && head < s.vq.num
    && |content| == BUF_SIZE && s.vq.desc[head].addr + BUF_SIZE <= |mem|
  }

  ghost function Fill(s: Queue, mem: seq<Byte>, head: nat, content: seq<Byte>): (Queue, seq<Byte>)
    requires CanFill(s, mem, head, content)
  {
    (s.(log := s.log.(content := s.log.content[head := content])),
     Splice(mem, s.vq.desc[head].addr, content))
  }

  /** pru_virtqueue_add_used_buf, first access: the used index is bumped before
      the element is written. */
  ghost function Bump(s: Queue, elem: UsedElem): Queue
    requires s.vq.Shape()
  {
    s.(vq := s.vq.(usedIdx := (s.vq.usedIdx + 1) % U16), pc := Bumped(s.vq.Slot(s.vq.usedIdx), elem))
  }

  ghost predicate InHandOver(s: Queue) {
    && s.vq.Shape() && (s.pc.Bumped? || s.pc.IdWritten?)
    && s.pc.slot < s.vq.num && s.pc.elem.id in s.log.content
  }

  ghost function WriteId(s: Queue): Queue
    requires InHandOver(s)
  {
    var i := s.pc.slot;
    s.(vq := s.vq.(usedRing := s.vq.usedRing[i := s.vq.usedRing[i].(id := s.pc.elem.id)]),
       pc := IdWritten(i, s.pc.elem))
  }

  ghost function WriteLen(s: Queue): Queue
    requires InHandOver(s)
  {
    var i, h := s.pc.slot, s.pc.elem.id;
    s.(vq := s.vq.(usedRing := s.vq.usedRing[i := s.vq.usedRing[i].(len := s.pc.elem.len)]),
       log := s.log.(held := s.log.held - {h},
                     returned := s.log.returned + [Handed(s.pc.elem, s.log.content[h])]),
       pc := Idle)
  }
}
