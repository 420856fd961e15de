/** Every step of either side keeps the virtqueue invariant, whatever the other
    side does in between. */
module VirtqueueSafety {
  import opened Words
  import opened Virtqueue

  // ---------------------------------------------------------------- tools

  lemma DistinctSlots(i: nat, j: nat, n: nat)
    requires n > 0 && i < j < i + n
    ensures i % n != j % n
  {
    ModInjective(i, j, n);
  }

  lemma PendingGrows(posts: seq<Post>, k: nat, p: Post)
    requires k <= |posts|
    ensures multiset(Heads((posts + [p])[k..])) == multiset(Heads(posts[k..])) + multiset{p.head}
  {
    assert Heads((posts + [p])[k..]) == Heads(posts[k..]) + [p.head];
  }

  lemma PendingShrinks(posts: seq<Post>, k: nat)
    requires k < |posts|
    ensures multiset(Heads(posts[k..])) == multiset{posts[k].head} + multiset(Heads(posts[k + 1..]))
  {
    assert Heads(posts[k..]) == [posts[k].head] + Heads(posts[k + 1..]);
  }

  lemma UnreadGrows(rs: seq<Handed>, k: nat, r: Handed)
    requires k <= |rs|
    ensures multiset(Ids((rs + [r])[k..])) == multiset(Ids(rs[k..])) + multiset{r.elem.id}
  {
    assert Ids((rs + [r])[k..]) == Ids(rs[k..]) + [r.elem.id];
  }

  lemma UnreadShrinks(rs: seq<Handed>, k: nat)
    requires k < |rs|
    ensures multiset(Ids(rs[k..])) == multiset{rs[k].elem.id} + multiset(Ids(rs[k + 1..]))
  {
    assert Ids(rs[k..]) == [rs[k].elem.id] + Ids(rs[k + 1..]);
  }

  /** A pending, held or unread head is live, and in one of the three only. */
  lemma PendingIsLive(s: Queue, i: nat)
    requires Counters(s) && Conserved(s) && s.log.taken <= i < |s.log.published|
    ensures Live(s, s.log.published[i].head)
    ensures s.log.published[i].head !in s.log.held
    ensures s.log.published[i].head !in multiset(Unread(s.log))
  {
    var h := s.log.published[i].head;
    assert Pending(s.log)[i - s.log.taken] == h;
    Exclusive(s, h);
  }

  lemma UnreadIsLive(s: Queue, i: nat)
    requires Counters(s) && Conserved(s) && s.log.reclaimed <= i < |s.log.returned|
    ensures Live(s, s.log.returned[i].elem.id)
    ensures s.log.returned[i].elem.id !in s.log.held
    ensures s.log.returned[i].elem.id !in multiset(Pending(s.log))
  {
    var h := s.log.returned[i].elem.id;
    assert Unread(s.log)[i - s.log.reclaimed] == h;
    Exclusive(s, h);
  }

  lemma HeldIsLive(s: Queue, h: nat)
    requires Counters(s) && Conserved(s) && h in s.log.held
    ensures Live(s, h)
    ensures h !in multiset(Pending(s.log)) && h !in multiset(Unread(s.log))
  {
    Exclusive(s, h);
  }

  lemma FreeIsIndex(s: Queue, h: nat)
    requires Counters(s) && Conserved(s) && h in s.log.free
    ensures h < s.vq.num && h !in s.log.held
    ensures h !in multiset(Pending(s.log)) && h !in multiset(Unread(s.log))
  {
    Exclusive(s, h);
  }

  /** Buffers and what they must contain stay right when nothing is written to
      them and no descriptor leaves the host's share. */
  lemma ContentKept(s: Queue, s': Queue, mem: seq<Byte>)
    requires s.vq.Shape() && s'.vq.Shape() && Counters(s) && Counters(s') && Tracked(s) && Buffers(s, mem)
    requires s'.vq.num == s.vq.num && s'.vq.desc == s.vq.desc && s'.lo == s.lo && s'.hi == s.hi
    requires s'.log.published == s.log.published && s'.log.returned == s.log.returned
    requires s.log.taken <= s'.log.taken && s.log.reclaimed <= s'.log.reclaimed
    requires s'.log.content == s.log.content && s.log.free <= s'.log.free
    ensures Tracked(s') && Buffers(s', mem)
  {
    assert forall g :: Live(s', g) ==> Live(s, g);
  }

  lemma SharesKept(s: Queue, s': Queue)
    requires Counters(s) && Conserved(s) && Counters(s') && s'.log == s.log && s'.vq.num == s.vq.num
    ensures Conserved(s')
  {
    assert Pending(s'.log) == Pending(s.log) && Unread(s'.log) == Unread(s.log);
  }

  // -------------------------------------------------------------- publish

  lemma PublishKeepsShares(s: Queue, mem: seq<Byte>, head: nat, d: Desc, content: seq<Byte>)
    requires Inv(s, mem) && CanPublish(s, mem, head, d, content)
    ensures var s' := Publish(s, mem, head, d, content).0; Counters(s') && Conserved(s')
  {
    var s' := Publish(s, mem, head, d, content).0;
    ModStep(|s.log.published|, U16);
    PendingGrows(s.log.published, s.log.taken, Post(head, content));
    assert Unread(s'.log) == Unread(s.log);
    assert multiset(s.log.free) == multiset(s'.log.free) + multiset{head};
  }

  lemma PublishKeepsRings(s: Queue, mem: seq<Byte>, head: nat, d: Desc, content: seq<Byte>)
    requires Inv(s, mem) && CanPublish(s, mem, head, d, content)
    ensures var s' := Publish(s, mem, head, d, content).0; s'.vq.Shape() && Rings(s') && PcOk(s')
  {
    var s' := Publish(s, mem, head, d, content).0;
    var n, k := s.vq.num, |s.log.published|;
    SlotRefines(s.vq, k);
    forall i | 0 <= i < |s'.log.published| <= i + n
      ensures s'.vq.availRing[i % n] == s'.log.published[i].head
    {
      if i < k { DistinctSlots(i, k, n); }
    }
  }

  lemma PublishKeepsTracked(s: Queue, mem: seq<Byte>, head: nat, d: Desc, content: seq<Byte>)
    requires Inv(s, mem) && CanPublish(s, mem, head, d, content)
    ensures var s' := Publish(s, mem, head, d, content).0; Counters(s') && Tracked(s')
  {
    PublishKeepsShares(s, mem, head, d, content);
    forall i | s.log.taken <= i < |s.log.published| ensures s.log.published[i].head != head {
      PendingIsLive(s, i);
    }
    forall i | s.log.reclaimed <= i < |s.log.returned| ensures s.log.returned[i].elem.id != head {
      UnreadIsLive(s, i);
    }
  }

  lemma PublishKeepsBuffers(s: Queue, mem: seq<Byte>, head: nat, d: Desc, content: seq<Byte>)
    requires Inv(s, mem) && CanPublish(s, mem, head, d, content)
    ensures var (s', mem') := Publish(s, mem, head, d, content); s'.vq.Shape() && Buffers(s', mem')
  {
    var (s', mem') := Publish(s, mem, head, d, content);
    assert forall h :: Live(s', h) <==> Live(s, h) || h == head;
    forall h | Live(s', h) ensures Content(mem', s'.vq.desc[h]) == s'.log.content[h] {
      if h == head {
        SpliceHere(mem, d, content);
      } else {
        SpliceApart(mem, d, s.vq.desc[h], content);
      }
    }
  }

  lemma PublishKeepsInv(s: Queue, mem: seq<Byte>, head: nat, d: Desc, content: seq<Byte>)
    requires Inv(s, mem) && CanPublish(s, mem, head, d, content)
    ensures var (s', mem') := Publish(s, mem, head, d, content); Inv(s', mem')
  {
    PublishKeepsShares(s, mem, head, d, content);
    PublishKeepsRings(s, mem, head, d, content);
    PublishKeepsTracked(s, mem, head, d, content);
    PublishKeepsBuffers(s, mem, head, d, content);
  }

  // -------------------------------------------------------------- reclaim

  /** A settled reclaim reads exactly the element the PRU returned there. */
  lemma SettledReclaimReads(s: Queue, mem: seq<Byte>)
    requires Inv(s, mem) && Settled(s)
    ensures CanReclaim(s)
    ensures NextUsed(s) == s.log.returned[s.log.reclaimed].elem
  {
    UsedTestIsExact(s);
    Room(s);
    if s.pc.IdWritten? { HeldPositive(s.log.held, s.pc.elem.id); }
    SlotRefines(s.vq, s.log.reclaimed);
  }

  lemma ReclaimKeepsShares(s: Queue, mem: seq<Byte>)
    requires Inv(s, mem) && Settled(s) && CanReclaim(s)
    requires NextUsed(s) == s.log.returned[s.log.reclaimed].elem
    ensures Counters(Reclaim(s)) && Conserved(Reclaim(s))
  {
    var s', h := Reclaim(s), NextUsed(s).id;
    ModStep(s.log.reclaimed, U16);
    UnreadShrinks(s.log.returned, s.log.reclaimed);
    UnreadIsLive(s, s.log.reclaimed);
    assert Pending(s'.log) == Pending(s.log);
    assert multiset(s'.log.free) == multiset(s.log.free) + multiset{h};
  }

  lemma ReclaimKeepsInv(s: Queue, mem: seq<Byte>)
    requires Inv(s, mem) && Settled(s)
    ensures CanReclaim(s) && Inv(Reclaim(s), mem)
  {
    SettledReclaimReads(s, mem);
    ReclaimKeepsShares(s, mem);
    ContentKept(s, Reclaim(s), mem);
  }

  // ------------------------------------------------------------ PRU steps

  lemma CheckKeepsInv(s: Queue, mem: seq<Byte>)
    requires Inv(s, mem) && s.pc.Idle?
    ensures Inv(Check(s), mem)
    ensures Check(s).pc.Idle? <==> s.log.taken == |s.log.published|
  {
    EmptyTestIsExact(s);
    SharesKept(s, Check(s));
    ContentKept(s, Check(s), mem);
  }

  lemma GrabKeepsShares(s: Queue, h: nat)
    requires s.vq.Shape() && Counters(s) && Conserved(s) && s.log.taken < |s.log.published|
    requires h == s.log.published[s.log.taken].head == s.vq.availRing[s.vq.Slot(s.vq.lastAvail)]
    requires s.pc.Checked?
    ensures Counters(Grab(s)) && Conserved(Grab(s))
  {
    var s' := Grab(s);
    ModStep(s.log.taken, U16);
    PendingShrinks(s.log.published, s.log.taken);
    PendingIsLive(s, s.log.taken);
    assert Unread(s'.log) == Unread(s.log);
    assert multiset(s'.log.held) == multiset(s.log.held) + multiset{h};
  }

  lemma GrabKeepsInv(s: Queue, mem: seq<Byte>)
    requires Inv(s, mem) && s.pc.Checked?
    ensures Inv(Grab(s), mem)
    ensures Grab(s).pc == Grabbed(s.log.published[s.log.taken].head)
  {
    NextHead(s);
    GrabKeepsShares(s, s.log.published[s.log.taken].head);
    ContentKept(s, Grab(s), mem);
  }

  /** What the PRU finds in the buffer is what the host put there. */
  lemma FetchKeepsInv(s: Queue, mem: seq<Byte>)
    requires Inv(s, mem) && s.pc.Grabbed?
    ensures Inv(Fetch(s), mem)
    ensures Live(s, s.pc.head) && Placed(s, mem, s.vq.desc[s.pc.head])
    ensures Content(mem, s.vq.desc[s.pc.head]) == s.log.content[s.pc.head]
  {
    HeldIsLive(s, s.pc.head);
    SharesKept(s, Fetch(s));
    ContentKept(s, Fetch(s), mem);
  }

  lemma FillKeepsTracked(s: Queue, mem: seq<Byte>, head: nat, content: seq<Byte>)
    requires Inv(s, mem) && CanFill(s, mem, head, content)
    ensures var s' := Fill(s, mem, head, content).0; Counters(s') && Tracked(s')
  {
    forall i | s.log.taken <= i < |s.log.published| ensures s.log.published[i].head != head {
      PendingIsLive(s, i);
    }
    forall i | s.log.reclaimed <= i < |s.log.returned| ensures s.log.returned[i].elem.id != head {
      UnreadIsLive(s, i);
    }
    var s' := Fill(s, mem, head, content).0;
    assert forall g :: Live(s', g) <==> Live(s, g);
  }

  lemma FillKeepsBuffers(s: Queue, mem: seq<Byte>, head: nat, content: seq<Byte>)
    requires s.vq.Shape() && Buffers(s, mem) && CanFill(s, mem, head, content) && Live(s, head)
    ensures var (s', mem') := Fill(s, mem, head, content); Buffers(s', mem')
  {
    var (s', mem') := Fill(s, mem, head, content);
    assert forall g :: Live(s', g) <==> Live(s, g);
    forall h | Live(s', h) && h in s'.log.content ensures Content(mem', s'.vq.desc[h]) == s'.log.content[h] {
      if h == head {
        SpliceHere(mem, s.vq.desc[head], content);
      } else {
        SpliceApart(mem, s.vq.desc[head], s.vq.desc[h], content);
      }
    }
  }

  lemma FillKeepsInv(s: Queue, mem: seq<Byte>, head: nat, content: seq<Byte>)
    requires Inv(s, mem) && head in s.log.held && |content| == BUF_SIZE
    ensures CanFill(s, mem, head, content)
    ensures var (s', mem') := Fill(s, mem, head, content); Inv(s', mem')
  {
    HeldIsLive(s, head);
    FillKeepsTracked(s, mem, head, content);
    FillKeepsBuffers(s, mem, head, content);
    var s' := Fill(s, mem, head, content).0;
    assert Pending(s'.log) == Pending(s.log) && Unread(s'.log) == Unread(s.log);
  }

  lemma BumpKeepsInv(s: Queue, mem: seq<Byte>, elem: UsedElem)
    requires Inv(s, mem) && s.pc.Idle? && elem.id in s.log.held
    ensures Inv(Bump(s, elem), mem) && InHandOver(Bump(s, elem))
  {
    var s' := Bump(s, elem);
    HeldIsLive(s, elem.id);
    ModStep(|s.log.returned|, U16);
    SlotRefines(s.vq, |s.log.returned|);
    SharesKept(s, s');
    ContentKept(s, s', mem);
  }

  lemma WriteIdKeepsRings(s: Queue)
    requires s.vq.Shape() && Rings(s) && PcOk(s) && s.pc.Bumped? && InHandOver(s)
    ensures WriteId(s).vq.Shape() && Rings(WriteId(s)) && PcOk(WriteId(s))
  {
    var s' := WriteId(s);
    var n, k := s.vq.num, |s.log.returned|;
    forall i | 0 <= i < k <= i + n - 1
      ensures s'.vq.usedRing[i % n] == s'.log.returned[i].elem
    {
      DistinctSlots(i, k, n);
    }
  }

  lemma WriteIdKeepsInv(s: Queue, mem: seq<Byte>)
    requires Inv(s, mem) && s.pc.Bumped?
    ensures InHandOver(s) && Inv(WriteId(s), mem) && InHandOver(WriteId(s))
  {
    HeldIsLive(s, s.pc.elem.id);
    WriteIdKeepsRings(s);
    SharesKept(s, WriteId(s));
    ContentKept(s, WriteId(s), mem);
  }

  lemma WriteLenKeepsShares(s: Queue, mem: seq<Byte>)
    requires Inv(s, mem) && s.pc.IdWritten?
    ensures InHandOver(s) && Counters(WriteLen(s)) && Conserved(WriteLen(s))
  {
    var h := s.pc.elem.id;
    HeldIsLive(s, h);
    var s' := WriteLen(s);
    UnreadGrows(s.log.returned, s.log.reclaimed, Handed(s.pc.elem, s.log.content[h]));
    assert Pending(s'.log) == Pending(s.log);
    assert multiset(s.log.held) == multiset(s'.log.held) + multiset{h};
  }

  lemma WriteLenKeepsRings(s: Queue, mem: seq<Byte>)
    requires Inv(s, mem) && s.pc.IdWritten? && InHandOver(s)
    ensures WriteLen(s).vq.Shape() && Rings(WriteLen(s)) && PcOk(WriteLen(s))
  {
    var s' := WriteLen(s);
    var n, k := s.vq.num, |s.log.returned|;
    assert s'.vq.usedRing[s.pc.slot] == s.pc.elem;
    forall i | 0 <= i < |s'.log.returned| <= i + n
      ensures s'.vq.usedRing[i % n] == s'.log.returned[i].elem
    {
      if i < k { DistinctSlots(i, k, n); }
    }
  }

  lemma WriteLenKeepsInv(s: Queue, mem: seq<Byte>)
    requires Inv(s, mem) && s.pc.IdWritten?
    ensures InHandOver(s) && Inv(WriteLen(s), mem)
  {
    WriteLenKeepsShares(s, mem);
    WriteLenKeepsRings(s, mem);
    assert forall g :: Live(WriteLen(s), g) <==> Live(s, g);
  }

  lemma SliceOfSlice(mem: seq<Byte>, lo: nat, hi: nat, at: nat, n: nat)
    requires lo <= at && at + n <= hi <= |mem|
    ensures mem[at..at + n] == mem[lo..hi][at - lo..at - lo + n]
  {
    var arena := mem[lo..hi];
    var a, b := mem[at..at + n], arena[at - lo..at - lo + n];
    forall k | 0 <= k < n ensures a[k] == b[k] {
      assert arena[at - lo + k] == mem[at + k];
    }
  }

  /** Writes elsewhere in memory do not concern this queue. */
  lemma FrameKeepsInv(s: Queue, mem: seq<Byte>, mem': seq<Byte>)
    requires Inv(s, mem) && |mem'| == |mem| && mem'[s.lo..s.hi] == mem[s.lo..s.hi]
    ensures Inv(s, mem')
  {
    forall h | Live(s, h) ensures Content(mem', s.vq.desc[h]) == Content(mem, s.vq.desc[h]) {
      var d := s.vq.desc[h];
      assert Placed(s, mem, d);
      SliceOfSlice(mem, s.lo, s.hi, d.addr, BUF_SIZE);
      SliceOfSlice(mem', s.lo, s.hi, d.addr, BUF_SIZE);
    }
  }
}
