/** The loops of the echo firmware's `main`
    (examples/firmware_examples/archive_firmware/rpmsg_echo/main.c) over the
    transport: announce until it works, and drain everything that waits. */
module EchoFirmware {
  import opened Words
  import opened RpmsgFormat
  import opened Virtqueue
  import opened EchoSafety
  import opened RpmsgCalls

  const NS_CREATE: nat := 0   // RPMSG_NS_CREATE

  /** Whatever the host does between two calls: it may publish, rewrite its own
      buffers and reclaim, and it leaves the PRU's position alone. */
  method HostTurn(t: Transport)
    requires t.Valid()
    modifies t.vq0, t.vq0.usedRing, t.vq1, t.vq1.usedRing, t.mem
    ensures t.Valid()
    ensures HostMove(old(t.vq0.State()), t.vq0.State()) && HostMove(old(t.vq1.State()), t.vq1.State())
  {
  }

  /** The buffers returned from `from` on say, in order, exactly `msgs`. */
  ghost predicate Says(returned: seq<Handed>, from: nat, msgs: seq<Msg>) {
    && |returned| == from + |msgs|
    && forall i :: from <= i < |returned| ==>
         WellFormed(returned[i].content) && Decode(returned[i].content) == msgs[i - from]
  }

  lemma SentSays(q: Queue, mem: seq<Byte>, q': Queue, mem': seq<Byte>, m: Msg, from: nat, msgs: seq<Msg>)
    requires Sent(q, mem, q', mem', m) && Says(q.log.returned, from, msgs)
    ensures Says(q'.log.returned, from, msgs + [m])
  {
    var d := q.vq.desc[NextPost(q).head];
    var content := Encode(m, Content(mem, d));
    DecodeEncode(m, Content(mem, d));
    SaysMore(q.log.returned, from, msgs, Handed(UsedElem(NextPost(q).head, d.len), content), m);
  }

  lemma SaysMore(returned: seq<Handed>, from: nat, msgs: seq<Msg>, r: Handed, m: Msg)
    requires Says(returned, from, msgs) && WellFormed(r.content) && Decode(r.content) == m
    ensures Says(returned + [r], from, msgs + [m])
  {
  }

  /** One try: the announcement goes out, or nothing does. */
  method Attempt(t: Transport, name: array<Byte>, desc: array<Byte>, port: int) returns (r: int)
    requires t.Valid() && name.Length >= NAME_SIZE && desc.Length >= NAME_SIZE && name != t.mem && desc != t.mem
    modifies t.vq0`lastAvailIdx, t.vq0`usedIdx, t.vq0`log, t.vq0`r31, t.vq0.usedRing, t.mem
    ensures t.Valid()
    ensures r != RPMSG_SUCCESS ==> t.vq0.log.returned == old(t.vq0.log.returned)
    ensures r == RPMSG_SUCCESS ==>
              && old(t.vq0.log.returned) <= t.vq0.log.returned
              && Says(t.vq0.log.returned, |old(t.vq0.log.returned)|,
                      [Announcement(NS_CREATE, name[..], desc[..], port)])
    ensures r == RPMSG_SUCCESS ==>
              && |t.vq0.log.returned| == |old(t.vq0.log.returned)| + 1
              && var c := t.vq0.log.returned[|old(t.vq0.log.returned)|].content;
              && WellFormed(c) && var m := Decode(c);
              && m.src == port % 0x1_0000_0000 && m.dst == 53 && |m.payload| == 72
              && m.payload[..32] == name[..][..32] && m.payload[32..64] == desc[..][..32]
              && FromLE(m.payload[64..68]) == port % 0x1_0000_0000 && FromLE(m.payload[68..72]) == 0
    ensures t.vq1.log == old(t.vq1.log)
  {
    ghost var q, mem := t.vq0.State(), t.mem[..];
    ghost var m := Announcement(NS_CREATE, name[..], desc[..], port);
    ghost var other := t.vq1.State();
    AnnouncementReadable(NS_CREATE, name[..], desc[..], port);
    r := t.Channel(NS_CREATE, name, desc, port);
    assert t.vq1.State() == other;
    if r == RPMSG_SUCCESS {
      SentSays(q, mem, t.vq0.State(), t.mem[..], m, |q.log.returned|, []);
      assert [] + [m] == [m];
    }
  }

  /** Retry until it succeeds or patience runs out, with the host free to act
      after every failure: exactly one announcement goes out, or none. */
  method Announce(t: Transport, name: array<Byte>, desc: array<Byte>, port: int, patience: nat)
    returns (r: int, attempts: nat)
    requires t.Valid() && name.Length >= NAME_SIZE && desc.Length >= NAME_SIZE
    requires name != t.mem && desc != t.mem && patience > 0
    modifies t.vq0, t.vq0.usedRing, t.vq1, t.vq1.usedRing, t.mem
    ensures t.Valid() && 1 <= attempts <= patience
    ensures r == RPMSG_SUCCESS ==>
              && old(t.vq0.log.returned) <= t.vq0.log.returned
              && Says(t.vq0.log.returned, |old(t.vq0.log.returned)|,
                      [Announcement(NS_CREATE, old(name[..]), old(desc[..]), port)])
    ensures r == RPMSG_SUCCESS ==>
              && |t.vq0.log.returned| == |old(t.vq0.log.returned)| + 1
              && var c := t.vq0.log.returned[|old(t.vq0.log.returned)|].content;
              && WellFormed(c) && var m := Decode(c);
              && m.src == port % 0x1_0000_0000 && m.dst == 53 && |m.payload| == 72
              && m.payload[..32] == old(name[..])[..32] && m.payload[32..64] == old(desc[..])[..32]
              && FromLE(m.payload[64..68]) == port % 0x1_0000_0000 && FromLE(m.payload[68..72]) == 0
    ensures r != RPMSG_SUCCESS ==> t.vq0.log.returned == old(t.vq0.log.returned) && attempts == patience
    ensures t.vq1.log.taken == old(t.vq1.log.taken) && t.vq1.log.returned == old(t.vq1.log.returned)
  {
    ghost var before := t.vq0.log.returned;
    ghost var m := Announcement(NS_CREATE, name[..], desc[..], port);
    attempts := 0;
    r := RPMSG_NO_BUF_AVAILABLE;
    while r != RPMSG_SUCCESS && attempts < patience
      invariant t.Valid() && attempts <= patience && (attempts == 0 ==> r != RPMSG_SUCCESS)
      invariant name[..] == old(name[..]) && desc[..] == old(desc[..])
      invariant r != RPMSG_SUCCESS ==> t.vq0.log.returned == before
      invariant r == RPMSG_SUCCESS ==> before <= t.vq0.log.returned && Says(t.vq0.log.returned, |before|, [m])
      invariant t.vq1.log.taken == old(t.vq1.log.taken) && t.vq1.log.returned == old(t.vq1.log.returned)
      decreases patience - attempts
    {
      if attempts > 0 { HostTurn(t); }
      r := Attempt(t, name, desc, port);
      attempts := attempts + 1;
    }
    AnnouncementReadable(NS_CREATE, name[..], desc[..], port);
  }

  /** The messages waiting in a queue, as the PRU will see them. */
  ghost function Inbox(q: Queue): (r: seq<Msg>)
    requires q.log.taken <= |q.log.published|
    requires forall i :: 0 <= i < |q.log.published| ==> WellFormed(q.log.published[i].content)
    ensures |r| == |q.log.published| - q.log.taken
    ensures forall i :: 0 <= i < |r| ==> r[i] == Seen(Decode(q.log.published[q.log.taken + i].content))
  {
    seq(|q.log.published| - q.log.taken,
        i requires 0 <= i < |q.log.published| - q.log.taken => Seen(Decode(q.log.published[q.log.taken + i].content)))
  }

  ghost function Replies(inbox: seq<Msg>, n: nat): (r: seq<Msg>)
    requires n <= |inbox|
    ensures |r| == n && forall i :: 0 <= i < n ==> r[i] == Swap(inbox[i])
  {
    seq(n, i requires 0 <= i < n => Swap(inbox[i]))
  }

  function Min(a: nat, b: nat): nat { if a <= b then a else b }

  /** After n messages of the inbox: the first min(n, room) are answered. */
  ghost predicate Answered(start: Log, now: Log, inbox: seq<Msg>, n: nat) {
    && start.taken <= |start.published| && n <= |inbox| && now.published == start.published
    && var k := Min(n, |start.published| - start.taken);
    && now.taken == start.taken + k && start.returned <= now.returned
    && Says(now.returned, |start.returned|, Replies(inbox, k))
  }

  lemma AnswerSent(start: Log, q: Queue, mem: seq<Byte>, q': Queue, mem': seq<Byte>, inbox: seq<Msg>, n: nat)
    requires Answered(start, q.log, inbox, n) && n < |inbox| && Sent(q, mem, q', mem', Swap(inbox[n]))
    ensures Answered(start, q'.log, inbox, n + 1)
  {
    SentSays(q, mem, q', mem', Swap(inbox[n]), |start.returned|, Replies(inbox, n));
    assert Replies(inbox, n) + [Swap(inbox[n])] == Replies(inbox, n + 1);
  }

  lemma AnswerDropped(start: Log, q: Queue, inbox: seq<Msg>, n: nat)
    requires Answered(start, q.log, inbox, n) && n < |inbox| && !HasBuffer(q)
    ensures Answered(start, q.log, inbox, n + 1)
  {
  }

  lemma NextInInbox(q1: Queue, q: Queue, q': Queue, m: Msg, n: nat)
    requires q1.log.taken <= |q1.log.published| && q.log.published == q1.log.published
    requires forall i :: 0 <= i < |q1.log.published| ==> WellFormed(q1.log.published[i].content)
    requires q.log.taken == q1.log.taken + n && TookMessage(q, q', m)
    ensures n < |Inbox(q1)| && m == Inbox(q1)[n]
    ensures q'.log.published == q1.log.published && q'.log.taken == q1.log.taken + n + 1
  {
  }

  /** How many were answered. */
  lemma AnswerCount(start: Log, now: Log, inbox: seq<Msg>, n: nat)
    requires Answered(start, now, inbox, n)
    ensures var room := |start.published| - start.taken;
            var k := if n <= room then n else room;
            && room >= 0 && now.taken == start.taken + k && |now.returned| == |start.returned| + k
            && start.returned <= now.returned
  {
  }

  /** The returned buffer answers the k-th message waiting in rx: the same payload
      back from its destination to its source, both narrowed to 16 bits. */
  ghost predicate Reply(r: Handed, rx: Log, k: nat) {
    && rx.taken + k < |rx.published|
    && WellFormed(rx.published[rx.taken + k].content) && WellFormed(r.content)
    && var reply, m := Decode(r.content), Decode(rx.published[rx.taken + k].content);
    && reply.src == m.dst % 0x1_0000 && reply.dst == m.src % 0x1_0000 && reply.payload == m.payload
  }

  /** What answering means, field by field. */
  lemma AnswerFields(start: Log, now: Log, q1: Queue, n: nat, j: nat)
    requires q1.log.taken <= |q1.log.published|
    requires forall i :: 0 <= i < |q1.log.published| ==> WellFormed(q1.log.published[i].content)
    requires Answered(start, now, Inbox(q1), n) && |start.returned| <= j < |now.returned|
    ensures var i := q1.log.taken + j - |start.returned|;
            && i < |q1.log.published|
            && WellFormed(q1.log.published[i].content) && WellFormed(now.returned[j].content)
            && var reply, m := Decode(now.returned[j].content), Decode(q1.log.published[i].content);
            && reply.src == m.dst % 0x1_0000 && reply.dst == m.src % 0x1_0000 && reply.payload == m.payload
  {
    var k := Min(n, |start.published| - start.taken);
    var i := j - |start.returned|;
    assert Replies(Inbox(q1), k)[i] == Swap(Inbox(q1)[i]);
  }

  /** The send in the inner loop, its result ignored. */
  method EchoOne(t: Transport, payload: array<Byte>, src: nat, dst: nat, len: nat,
                 ghost start: Log, ghost inbox: seq<Msg>, ghost n: nat)
    requires t.Valid() && payload.Length == BUF_SIZE && payload != t.mem && len <= MAX_PAYLOAD
    requires Answered(start, t.vq0.log, inbox, n) && n < |inbox| && src < U16 && dst < U16
    requires Msg(src, dst, payload[..len]) == inbox[n]
    modifies t.vq0`lastAvailIdx, t.vq0`usedIdx, t.vq0`log, t.vq0`r31, t.vq0.usedRing, t.mem
    ensures t.Valid() && t.vq1.State() == old(t.vq1.State())
    ensures Answered(start, t.vq0.log, inbox, n + 1)
    ensures var before, now := old(t.vq0.log), t.vq0.log;
            if before.taken == |before.published| then now.returned == before.returned
            else
              && |now.returned| == |before.returned| + 1
              && var c := now.returned[|before.returned|].content;
              && WellFormed(c) && Decode(c).src == dst && Decode(c).dst == src
              && Decode(c).payload == payload[..len]
  {
    ghost var q, mem := t.vq0.State(), t.mem[..];
    var sent := t.Send(dst, src, payload, len);
    if sent == RPMSG_SUCCESS {
      SentMeans(q, mem, t.vq0.State(), t.mem[..], Msg(dst, src, payload[..len]));
      AnswerSent(start, q, mem, t.vq0.State(), t.mem[..], inbox, n);
    } else {
      AnswerDropped(start, q, inbox, n);
    }
  }

  /** The inner loop of main, with the host quiet: it ends, has received every
      message that waited, and has echoed them in order for as long as there
      were buffers to echo in. */
  method Drain(t: Transport, payload: array<Byte>) returns (n: nat)
    requires t.Valid() && payload.Length == BUF_SIZE && payload != t.mem
    modifies t.vq0, t.vq0.usedRing, t.vq1, t.vq1.usedRing, t.mem, payload
    ensures t.Valid() && !HasBuffer(t.vq1.State()) && t.vq1.log.published == old(t.vq1.log.published)
    ensures n == |old(t.vq1.log.published)| - old(t.vq1.log.taken)
    ensures var start, now, rx := old(t.vq0.log), t.vq0.log, old(t.vq1.log);
            var room := |start.published| - start.taken;
            var k := if n <= room then n else room;
            && room >= 0 && now.taken == start.taken + k && |now.returned| == |start.returned| + k
            && start.returned <= now.returned
            && forall j :: |start.returned| <= j < |now.returned| ==>
                 Reply(now.returned[j], rx, j - |start.returned|)
  {
    ghost var q1, start := t.vq1.State(), t.vq0.log;
    n := DrainAll(t, payload);
    ghost var now := t.vq0.log;
    AnswerCount(start, now, Inbox(q1), n);
    forall j | |start.returned| <= j < |now.returned|
      ensures Reply(now.returned[j], q1.log, j - |start.returned|)
    {
      AnswerFields(start, now, q1, n, j);
    }
  }

  method DrainAll(t: Transport, payload: array<Byte>) returns (n: nat)
    requires t.Valid() && payload.Length == BUF_SIZE && payload != t.mem
    modifies t.vq0, t.vq0.usedRing, t.vq1, t.vq1.usedRing, t.mem, payload
    ensures t.Valid() && !HasBuffer(t.vq1.State()) && t.vq1.log.published == old(t.vq1.log.published)
    ensures n == |old(t.vq1.log.published)| - old(t.vq1.log.taken)
    ensures old(t.vq1.State()).log.taken <= |old(t.vq1.State()).log.published|
    ensures Answered(old(t.vq0.log), t.vq0.log, Inbox(old(t.vq1.State())), n)
  {
    ghost var q1, start := t.vq1.State(), t.vq0.log;
    ghost var inbox := Inbox(q1);
    n := 0;
    assert start.returned + [] == start.returned;
    while true
      invariant t.Valid() && t.vq1.log.published == q1.log.published && n <= |inbox|
      invariant t.vq1.log.taken == q1.log.taken + n
      invariant Answered(start, t.vq0.log, inbox, n)
      decreases |inbox| - n
    {
      var more := EchoNext(t, payload, q1, start, n);
      if !more {
        break;
      }
      n := n + 1;
    }
  }

  /** The condition of the inner loop and, if it holds, its body. */
  method EchoNext(t: Transport, payload: array<Byte>, ghost q1: Queue, ghost start: Log, ghost n: nat)
    returns (more: bool)
    requires t.Valid() && payload.Length == BUF_SIZE && payload != t.mem
    requires q1.log.taken <= |q1.log.published| && t.vq1.log.published == q1.log.published
    requires t.vq1.log.taken == q1.log.taken + n && n <= |Inbox(q1)|
    requires Answered(start, t.vq0.log, Inbox(q1), n)
    modifies t.vq0, t.vq0.usedRing, t.vq1, t.vq1.usedRing, t.mem, payload
    ensures t.Valid() && t.vq1.log.published == q1.log.published
    ensures more <==> n < |Inbox(q1)|
    ensures !more ==> !HasBuffer(t.vq1.State()) && t.vq1.log == old(t.vq1.log) && t.vq0.log == old(t.vq0.log)
    ensures more ==> t.vq1.log.taken == q1.log.taken + n + 1 && Answered(start, t.vq0.log, Inbox(q1), n + 1)
    ensures more ==>
              var before, now := old(t.vq0.log), t.vq0.log;
              if before.taken == |before.published| then now.returned == before.returned
              else
                && WellFormed(q1.log.published[q1.log.taken + n].content)
                && |now.returned| == |before.returned| + 1
                && var c := now.returned[|before.returned|].content;
                && WellFormed(c)
                && var reply, m := Decode(c), Decode(q1.log.published[q1.log.taken + n].content);
                && reply.src == m.dst % 0x1_0000 && reply.dst == m.src % 0x1_0000 && reply.payload == m.payload
  {
    ghost var q, tx := t.vq1.State(), t.vq0.State();
    var r, src, dst, len := t.Receive(payload);
    more := r == RPMSG_SUCCESS;
    assert t.vq0.State() == tx;
    if more {
      NextInInbox(q1, q, t.vq1.State(), Msg(src, dst, payload[..len]), n);
      ghost var rx := t.vq1.State();
      assert src == Inbox(q1)[n].src && dst == Inbox(q1)[n].dst;
      EchoOne(t, payload, src, dst, len, start, Inbox(q1), n);
      assert t.vq1.State() == rx;
    }
  }
}
