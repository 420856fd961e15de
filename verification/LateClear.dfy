/** Why the echo firmware clears the event before it drains: the same firmware
    with the two in the other order loses messages. */
module LateClear {
  import opened Words
  import opened RpmsgFormat
  import opened Virtqueue
  import opened VirtqueueSafety
  import VirtqueueRuns
  import opened EchoSystem
  import opened EchoRuns

  /** The empty test that ends a drain. */
  ghost predicate DrainEnds(s: System) { s.ctl.Receiving? && s.rx.pc.Idle? && Check(s.rx).pc.Idle? }

  /** The firmware with the clear moved behind the inner loop. */
  ghost function LateStep(s: System): System
    requires CanStep(s)
  {
    if s.ctl.Poll? then (if s.event then s.(ctl := Receiving) else s)
    else if s.ctl.Clear? then s.(event := false, ctl := Poll)
    else if DrainEnds(s) then s.(ctl := Clear)
    else PruStep(s)
  }

  ghost function LateApply(s: System, a: Act): System
    requires Enabled(s, a)
  {
    if a.Pru? then LateStep(s) else Apply(s, a)
  }

  ghost predicate LateFeasible(s: System, run: seq<Act>)
    decreases |run|
  {
    run == [] || (Enabled(s, run[0]) && LateFeasible(LateApply(s, run[0]), run[1..]))
  }

  ghost function LateExec(s: System, run: seq<Act>): System
    requires LateFeasible(s, run)
    decreases |run|
  {
    if run == [] then s else LateExec(LateApply(s, run[0]), run[1..])
  }

  lemma LatePrepend(s: System, a: Act, s': System, rest: seq<Act>) returns (run: seq<Act>)
    requires Enabled(s, a) && LateApply(s, a) == s' && LateFeasible(s', rest)
    ensures LateFeasible(s, run) && LateExec(s, run) == LateExec(s', rest)
  {
    run := [a] + rest;
    assert run[1..] == rest;
  }

  /** A message waits, no event is pending, no kick is owed, and the firmware
      polls without ever moving again. */
  ghost predicate Lost(s: System) {
    s.Backlog() > 0 && !s.event && !s.owes && s.ctl.Poll? && CanStep(s) && LateStep(s) == s
  }

  // ------------------------------------------------- until the first poll

  ghost predicate Polling(s: System, e: System) {
    e.ctl.Poll? && SystemInv(e) && e.rx == s.rx && |e.mem| == |s.mem| && !e.event
  }

  lemma AnnouncingStep(s: System)
    requires CanStep(s) && s.Announcing()
    ensures var s' := PruStep(s);
            && LateStep(s) == s' && s'.rx == s.rx && s'.event == s.event && |s'.mem| == |s.mem|
            && (s'.Announcing() || s'.ctl.Poll?)
  {
  }

  /** The announcement goes out as before. */
  lemma {:induction false} Announces(s: System) returns (run: seq<Act>)
    requires SystemInv(s) && s.Announcing() && NotStuck(s) && !s.event
    ensures LateFeasible(s, run) && Polling(s, LateExec(s, run))
    decreases Rank(s)
  {
    FactsHold(s);
    StepProgresses(s);
    PruKeeps(s);
    AnnouncingStep(s);
    var s' := PruStep(s);
    var rest := [];
    if s'.Announcing() { rest := Announces(s'); }
    run := LatePrepend(s, Pru, s', rest);
  }

  // ------------------------------------------------------ the fatal window

  /** One empty drain, and a message published and kicked between its last empty
      test and the clear. */
  lemma FatalWindow(e: System, head: nat, d: Desc, content: seq<Byte>) returns (run: seq<Act>)
    requires e.ctl.Poll? && Resting(e.rx) && EmptyTest(e.rx) && e.rx.vq.Shape() && e.tx.vq.Shape()
    requires e.Backlog() == 0 && Enabled(e, Deliver(head, d, content))
    ensures LateFeasible(e, run) && Lost(LateExec(e, run))
  {
    var deliver := Deliver(head, d, content);
    var s1 := Apply(e, Kick);
    var s2 := s1.(ctl := Receiving);
    var s3 := s1.(ctl := Clear);
    var s4 := Apply(s3, deliver);
    var s5 := Apply(s4, Kick);
    var s6 := s5.(event := false, ctl := Poll);
    DrainedStep(s2);
    DeliveredFacts(s3, deliver);
    var r6 := LatePrepend(s5, Pru, s6, []);
    var r5 := LatePrepend(s4, Kick, s5, r6);
    var r4 := LatePrepend(s3, deliver, s4, r5);
    var r3 := LatePrepend(s2, Pru, s3, r4);
    var r2 := LatePrepend(s1, Pru, s2, r3);
    run := LatePrepend(e, Kick, s1, r2);
  }

  lemma DrainedStep(s: System)
    requires s.ctl.Receiving? && s.rx.pc.Idle? && EmptyTest(s.rx) && s.Backlog() == 0
    requires s.rx.vq.Shape() && s.tx.vq.Shape()
    ensures CanStep(s) && LateStep(s) == s.(ctl := Clear)
  {
  }

  lemma DeliveredFacts(s: System, a: Act)
    requires a.Deliver? && Enabled(s, a) && s.tx.vq.Shape() && s.rx.vq.Shape() && s.Backlog() == 0
    ensures var s' := Apply(s, a);
            && s'.rx.vq.Shape() && s'.tx.vq.Shape() && s'.Backlog() == 1 && s'.ctl == s.ctl && s'.event == s.event
  {
  }

  /** From every start with a transmit buffer and nothing waiting yet, and for
      every message the host can deliver, the late clear has a run that loses it
      for ever.  WakeUpOverRuns says the firmware as it is has none. */
  lemma LateClearLoses(s: System, head: nat, d: Desc, content: seq<Byte>) returns (run: seq<Act>)
    requires Start(s) && NotStuck(s) && !s.event && s.Backlog() == 0
    requires Enabled(s, Deliver(head, d, content))
    ensures LateFeasible(s, run) && Lost(LateExec(s, run))
  {
    StartInv(s);
    var first := Announces(s);
    var e := LateExec(s, first);
    PollingFacts(s, e, head, d, content);
    var second := FatalWindow(e, head, d, content);
    run := first + second;
    LateConcat(s, first, second);
  }

  lemma PollingFacts(s: System, e: System, head: nat, d: Desc, content: seq<Byte>)
    requires Polling(s, e) && s.Backlog() == 0 && Enabled(s, Deliver(head, d, content))
    ensures Resting(e.rx) && EmptyTest(e.rx) && e.rx.vq.Shape() && e.tx.vq.Shape()
    ensures e.Backlog() == 0 && Enabled(e, Deliver(head, d, content))
  {
    EmptyTestIsExact(e.rx);
  }

  lemma {:induction false} LateConcat(s: System, first: seq<Act>, second: seq<Act>)
    requires LateFeasible(s, first) && LateFeasible(LateExec(s, first), second)
    ensures LateFeasible(s, first + second)
    ensures LateExec(s, first + second) == LateExec(LateExec(s, first), second)
    decreases |first|
  {
    if first == [] {
      assert [] + second == second;
    } else {
      LateConcat(LateApply(s, first[0]), first[1..], second);
      assert (first + second)[1..] == first[1..] + second;
    }
  }

  /** Such a start: one descriptor a queue, the transmit buffer published. */
  lemma SomeStart() returns (s: System, head: nat, d: Desc, content: seq<Byte>)
    ensures Start(s) && NotStuck(s) && !s.event && s.Backlog() == 0
    ensures Enabled(s, Deliver(head, d, content))
  {
    var mem: seq<Byte> := seq(2 * BUF_SIZE, _ => 0);
    var d0, zero := Desc(0, BUF_SIZE), UsedElem(0, 0);
    head, d, content := 0, Desc(BUF_SIZE, BUF_SIZE), mem[..BUF_SIZE];
    var tx0 := VirtqueueRuns.Fresh(1, [d0], [0], [zero], 0, BUF_SIZE);
    var rx := VirtqueueRuns.Fresh(1, [d], [0], [zero], BUF_SIZE, 2 * BUF_SIZE);
    VirtqueueRuns.FreshInv(1, [d0], [0], [zero], 0, BUF_SIZE, mem);
    VirtqueueRuns.FreshInv(1, [d], [0], [zero], BUF_SIZE, 2 * BUF_SIZE, mem);
    assert CanPublish(tx0, mem, 0, d0, content);
    PublishKeepsInv(tx0, mem, 0, d0, content);
    SpliceOutside(mem, d0, content, BUF_SIZE, 2 * BUF_SIZE);
    var (tx, mem') := Publish(tx0, mem, 0, d0, content);
    FrameKeepsInv(rx, mem, mem');
    var ns := Msg(0, NS_ADDR, []);
    s := System(tx, rx, mem', Sending(ns, true), false, false, ns, [], [], [], []);
    ZeroLength(content);
  }

  lemma ZeroLength(buf: seq<Byte>)
    requires |buf| == BUF_SIZE && forall i :: 0 <= i < BUF_SIZE ==> buf[i] == 0
    ensures WellFormed(buf)
  {
    var field := buf[12..14];
    assert FromLE(field[1..]) == 0;
  }
}
