/** PRUSS and PRU objects as a client of the daemon
    (cpp-bindings/pruss.cpp): which commands are sent, given arbitrary replies. */
module Lifecycle {

  const ENODEV := 19
  const EALREADY := 114

  datatype State = NONE | STOPPED | RUNNING | HALTED

  datatype Cmd =
    | Probe | Unprobe
    | Enable(n: nat) | Disable(n: nat) | Pause(n: nat) | Resume(n: nat)
    | Load(n: nat, path: string)

  /** A command sent and the daemon's answer; 0 means accepted. */
  datatype Event = Event(cmd: Cmd, reply: int)

  type Trace = seq<Event>

  // ------------------------------------------------ what a trace says

  function Core(s: State, e: Event, n: nat): State {
    if e.reply != 0 then s
    else if e.cmd == Probe then STOPPED
    else if e.cmd == Unprobe then NONE
    else if e.cmd == Enable(n) || e.cmd == Resume(n) then RUNNING
    else if e.cmd == Disable(n) && s != NONE then STOPPED
    else if e.cmd == Pause(n) then HALTED
    else s
  }

  function CoreState(t: Trace, n: nat): State {
    if t == [] then NONE else Core(CoreState(t[..|t| - 1], n), t[|t| - 1], n)
  }

  function On(t: Trace): bool {
    if t == [] then false
    else
      var e := t[|t| - 1];
      if e.reply == 0 && e.cmd == Probe then true
      else if e.reply == 0 && e.cmd == Unprobe then false
      else On(t[..|t| - 1])
  }

  /** May a client in the state t leads to send c?  The two commands that open
      every session are exempt. */
  predicate Allowed(t: Trace, c: Cmd) {
    match c
    case Probe => !On(t)
    case Unprobe => On(t)
    case Enable(n) => CoreState(t, n) == STOPPED
    case Disable(n) => CoreState(t, n) in {RUNNING, HALTED} || (|t| < 2 && !On(t))
    case Pause(n) => CoreState(t, n) in {STOPPED, RUNNING}
    case Resume(n) => CoreState(t, n) == HALTED
    case Load(_, _) => true
  }

  predicate Legal(t: Trace) { forall i :: 0 <= i < |t| ==> Allowed(t[..i], t[i].cmd) }

  lemma Snoc(t: Trace, e: Event, n: nat)
    ensures CoreState(t + [e], n) == Core(CoreState(t, n), e, n)
    ensures On(t + [e]) == if e.reply == 0 && e.cmd == Probe then true
                           else if e.reply == 0 && e.cmd == Unprobe then false else On(t)
    ensures Legal(t) && Allowed(t, e.cmd) ==> Legal(t + [e])
  {
    assert (t + [e])[..|t|] == t;
    forall i | 0 <= i < |t| + 1 && Legal(t) && Allowed(t, e.cmd)
      ensures Allowed((t + [e])[..i], (t + [e])[i].cmd)
    {
      assert i <= |t| && (t + [e])[..i] == t[..i];
      if i == |t| { assert t[..i] == t; }
    }
  }

  // --------------------------------------------------- laws of every trace

  lemma LegalPrefix(t: Trace, k: nat)
    requires Legal(t) && k <= |t|
    ensures Legal(t[..k])
  {
    forall i | 0 <= i < k ensures Allowed(t[..k][..i], t[..k][i].cmd) {
      assert t[..k][..i] == t[..i];
    }
  }

  /** The system is off exactly when a core is NONE, and then both are. */
  lemma {:induction false} OffIffNone(t: Trace, n: nat)
    requires Legal(t)
    ensures !On(t) <==> CoreState(t, n) == NONE
    decreases |t|
  {
    if t != [] {
      var k := |t| - 1;
      LegalPrefix(t, k);
      OffIffNone(t[..k], n);
      assert Allowed(t[..k], t[k].cmd);
    }
  }

  predicate Affects(c: Cmd, n: nat) {
    c in {Probe, Unprobe, Enable(n), Disable(n), Pause(n), Resume(n)}
  }

  /** The last accepted state command that affects core n. */
  function LastAccepted(t: Trace, n: nat): Cmd
    decreases |t|
  {
    if t == [] then Unprobe
    else
      var e := t[|t| - 1];
      if e.reply == 0 && Affects(e.cmd, n) then e.cmd else LastAccepted(t[..|t| - 1], n)
  }

  lemma {:induction false} HaltedIffPaused(t: Trace, n: nat)
    requires Legal(t)
    ensures CoreState(t, n) == HALTED <==> LastAccepted(t, n) == Pause(n)
    decreases |t|
  {
    if t != [] {
      var k := |t| - 1;
      LegalPrefix(t, k);
      HaltedIffPaused(t[..k], n);
    }
  }

  /** RESUME_n is only ever sent when the last accepted command for n is PAUSE_n. */
  lemma ResumeFollowsPause(t: Trace, i: nat, n: nat)
    requires Legal(t) && i < |t| && t[i].cmd == Resume(n)
    ensures LastAccepted(t[..i], n) == Pause(n)
  {
    LegalPrefix(t, i);
    HaltedIffPaused(t[..i], n);
    assert Allowed(t[..i], t[i].cmd);
  }

  predicate Stops(e: Event, n: nat) { e.reply == 0 && (e.cmd == Disable(n) || e.cmd == Unprobe) }

  lemma {:induction false} StaysStarted(t: Trace, i: nat, j: nat, n: nat)
    requires Legal(t) && i < j <= |t| && t[i] == Event(Enable(n), 0)
    requires forall k :: i < k < j ==> !Stops(t[k], n)
    ensures CoreState(t[..j], n) in {RUNNING, HALTED}
    decreases j
  {
    var k := j - 1;
    assert t[..j][..k] == t[..k] && t[..j][k] == t[k];
    if i < k {
      StaysStarted(t, i, k, n);
      LegalPrefix(t, k);
      OffIffNone(t[..k], n);
      assert Allowed(t[..k], t[k].cmd);
    }
  }

  /** Between two accepted ENABLE_n there is an accepted DISABLE_n or UNPROBE. */
  lemma EnablesAreSeparated(t: Trace, i: nat, j: nat, n: nat)
    requires Legal(t) && i < j < |t|
    requires t[i] == Event(Enable(n), 0) && t[j] == Event(Enable(n), 0)
    ensures exists k :: i < k < j && Stops(t[k], n)
  {
    assert Allowed(t[..j], t[j].cmd);
    if forall k :: i < k < j ==> !Stops(t[k], n) {
      StaysStarted(t, i, j, n);
      assert false;
    }
  }

  // ---------------------------------------------------------- the classes

  class Daemon {
    var trace: Trace

    constructor ()
      ensures trace == []
    {
      trace := [];
    }

    /** Socket::sendcmd and stoi: the reply is whatever the daemon says. */
    method SendCmd(c: Cmd) returns (reply: int)
      modifies this
      ensures trace == old(trace) + [Event(c, reply)]
    {
      reply := *;
      trace := trace + [Event(c, reply)];
    }
  }

  /** A call on core n extends the trace legally and concerns that core only. */
  ghost predicate CoreCall(t: Trace, t': Trace, n: nat) {
    && t <= t' && (Legal(t) ==> Legal(t')) && On(t') == On(t)
    && forall m: nat :: m != n ==> CoreState(t', m) == CoreState(t, m)
  }

  lemma OneCommand(t: Trace, c: Cmd, reply: int, n: nat)
    requires Allowed(t, c) && c !in {Probe, Unprobe} && c.n == n
    ensures CoreCall(t, t + [Event(c, reply)], n)
    ensures CoreState(t + [Event(c, reply)], n) == Core(CoreState(t, n), Event(c, reply), n)
  {
    forall m: nat ensures m != n ==> CoreState(t + [Event(c, reply)], m) == CoreState(t, m) {
      Snoc(t, Event(c, reply), m);
    }
    Snoc(t, Event(c, reply), n);
  }

  /** The public operations, for runs. */
  datatype CoreOp = EnableOp | DisableOp | ResetOp | PauseOp | ResumeOp | LoadOp(path: string)
  datatype Op = BootUp | ShutDown | Restart | OnCore(n: nat, op: CoreOp)

  predicate Started(s: State) { s == RUNNING || s == HALTED }

  /** The first new command in t' is c. */
  predicate Begins(t: Trace, t': Trace, c: Cmd) { |t| < |t'| && t'[|t|].cmd == c }

  /** The call took place on core n between t and t': it sent its first command, or
      none where it has none to send. */
  ghost predicate Called(op: CoreOp, n: nat, t: Trace, t': Trace) {
    var s := CoreState(t, n);
    t <= t' &&
    match op
    case EnableOp => if s == STOPPED then Begins(t, t', Cmd.Enable(n)) else t' == t
    case DisableOp => if Started(s) then Begins(t, t', Cmd.Disable(n)) else t' == t
    case ResetOp =>
      if s == NONE then t' == t else Begins(t, t', if s == STOPPED then Cmd.Enable(n) else Cmd.Disable(n))
    case PauseOp => if s == STOPPED || s == RUNNING then Begins(t, t', Cmd.Pause(n)) else t' == t
    case ResumeOp => if s == HALTED then Begins(t, t', Cmd.Resume(n)) else t' == t
    case LoadOp(path) => Begins(t, t', if Started(s) then Cmd.Disable(n) else Cmd.Load(n, path))
  }

  ghost predicate Made(op: Op, t: Trace, t': Trace) {
    var down := if Started(CoreState(t, 0)) then Cmd.Disable(0)
                else if Started(CoreState(t, 1)) then Cmd.Disable(1) else Unprobe;
    t <= t' &&
    match op
    case BootUp => if On(t) then t' == t else Begins(t, t', Probe)
    case ShutDown => if On(t) then Begins(t, t', down) else t' == t
    case Restart => Begins(t, t', if On(t) then down else Probe)
    case OnCore(n, c) => Called(c, if n == 0 then 0 else 1, t, t')
  }

  /** The state a LOAD finds: u is what a load makes of t before it. */
  lemma LoadFinds(t: Trace, u: Trace, n: nat, stop: int)
    requires u == if Started(CoreState(t, n)) then t + [Event(Cmd.Disable(n), stop)] else t
    ensures Started(CoreState(u, n)) <==> Started(CoreState(t, n)) && stop != 0
    ensures Started(CoreState(t, n)) && stop == 0 ==> CoreState(u, n) == STOPPED
  {
    if Started(CoreState(t, n)) { Snoc(t, Event(Cmd.Disable(n), stop), n); }
  }

  /** The LOAD of a load, in its trace. */
  lemma LoadAt(t: Trace, u: Trace, t': Trace, n: nat, path: string, stop: int, load: int)
    requires u == if Started(CoreState(t, n)) then t + [Event(Cmd.Disable(n), stop)] else t
    requires u + [Event(Cmd.Load(n, path), load)] <= t'
    ensures |t| <= |u| < |t'| && t'[..|u|] == u && t'[|u|] == Event(Cmd.Load(n, path), load)
    ensures CoreState(t'[..|u|], n) in {RUNNING, HALTED}
       <==> CoreState(t, n) in {RUNNING, HALTED} && t'[|t|].reply != 0
  {
    LoadFinds(t, u, n, stop);
    assert t'[|u|] == (u + [Event(Cmd.Load(n, path), load)])[|u|];
    if Started(CoreState(t, n)) { assert t'[|t|] == u[|t|]; }
  }

  class PRU {
    const number: nat
    const daemon: Daemon
    var state: State

    ghost predicate Synced()
      reads this, daemon
    {
      state == CoreState(daemon.trace, number)
    }

    constructor (number: nat, daemon: Daemon)
      requires daemon.trace == []
      ensures this.number == number && this.daemon == daemon && state == NONE && Synced()
    {
      this.number, this.daemon, this.state := number, daemon, NONE;
      // the source calls reset() here, which sends nothing in state NONE
    }

    method Enable() returns (ret: int)
      requires Synced()
      modifies this`state, daemon
      ensures Synced() && CoreCall(old(daemon.trace), daemon.trace, number)
      ensures old(state) == NONE ==> ret == -ENODEV
      ensures old(state) in {RUNNING, HALTED} ==> ret == -EALREADY
      ensures old(state) != STOPPED ==> state == old(state) && daemon.trace == old(daemon.trace)
      ensures old(state) == STOPPED ==>
                && daemon.trace == old(daemon.trace) + [Event(Cmd.Enable(number), ret)]
                && state == if ret == 0 then RUNNING else STOPPED
    {
      if state == NONE { return -ENODEV; }
      if state == RUNNING || state == HALTED { return -EALREADY; }
      ret := daemon.SendCmd(Cmd.Enable(number));
      OneCommand(old(daemon.trace), Cmd.Enable(number), ret, number);
      if ret == 0 { state := RUNNING; }
    }

    method Disable() returns (ret: int)
      requires Synced()
      modifies this`state, daemon
      ensures Synced() && CoreCall(old(daemon.trace), daemon.trace, number)
      ensures old(state) == NONE ==> ret == -ENODEV
      ensures old(state) == STOPPED ==> ret == -EALREADY
      ensures old(state) in {NONE, STOPPED} ==> state == old(state) && daemon.trace == old(daemon.trace)
      ensures old(state) in {RUNNING, HALTED} ==>
                && daemon.trace == old(daemon.trace) + [Event(Cmd.Disable(number), ret)]
                && state == if ret == 0 then STOPPED else old(state)
    {
      if state == NONE { return -ENODEV; }
      if state == STOPPED { return -EALREADY; }
      ret := daemon.SendCmd(Cmd.Disable(number));
      OneCommand(old(daemon.trace), Cmd.Disable(number), ret, number);
      if ret == 0 { state := STOPPED; }
    }

    /** Stop, then start again; only a stopped core is started. */
    method Reset() returns (ret: int)
      requires Synced()
      modifies this`state, daemon
      ensures Synced() && CoreCall(old(daemon.trace), daemon.trace, number)
      ensures old(state) == NONE ==> ret == -ENODEV && daemon.trace == old(daemon.trace)
      ensures old(state) == STOPPED ==> daemon.trace == old(daemon.trace) + [Event(Cmd.Enable(number), ret)]
      ensures old(state) in {RUNNING, HALTED} ==> exists d: int ::
                && daemon.trace == old(daemon.trace) + [Event(Cmd.Disable(number), d)]
                                   + (if d == 0 then [Event(Cmd.Enable(number), ret)] else [])
                && (d != 0 ==> ret == -EALREADY)
    {
      var d := Disable();
      ret := Enable();
      assert old(state) in {RUNNING, HALTED} ==>
          daemon.trace == old(daemon.trace) + [Event(Cmd.Disable(number), d)]
                          + (if d == 0 then [Event(Cmd.Enable(number), ret)] else []);
    }

    /** Also sent to a stopped core, which the state then calls HALTED. */
    method Pause() returns (ret: int)
      requires Synced()
      modifies this`state, daemon
      ensures Synced() && CoreCall(old(daemon.trace), daemon.trace, number)
      ensures old(state) == NONE ==> ret == -ENODEV
      ensures old(state) == HALTED ==> ret == -EALREADY
      ensures old(state) in {NONE, HALTED} ==> state == old(state) && daemon.trace == old(daemon.trace)
      ensures old(state) in {STOPPED, RUNNING} ==>
                && daemon.trace == old(daemon.trace) + [Event(Cmd.Pause(number), ret)]
                && state == if ret == 0 then HALTED else old(state)
    {
      if state == NONE { return -ENODEV; }
      if state == HALTED { return -EALREADY; }
      ret := daemon.SendCmd(Cmd.Pause(number));
      OneCommand(old(daemon.trace), Cmd.Pause(number), ret, number);
      if ret == 0 { state := HALTED; }
    }

    method Resume() returns (ret: int)
      requires Synced()
      modifies this`state, daemon
      ensures Synced() && CoreCall(old(daemon.trace), daemon.trace, number)
      ensures old(state) in {NONE, STOPPED} ==> ret == -ENODEV
      ensures old(state) == RUNNING ==> ret == -EALREADY
      ensures old(state) != HALTED ==> state == old(state) && daemon.trace == old(daemon.trace)
      ensures old(state) == HALTED ==>
                && daemon.trace == old(daemon.trace) + [Event(Cmd.Resume(number), ret)]
                && state == if ret == 0 then RUNNING else HALTED
    {
      if state == NONE || state == STOPPED { return -ENODEV; }
      if state == RUNNING { return -EALREADY; }
      ret := daemon.SendCmd(Cmd.Resume(number));
      OneCommand(old(daemon.trace), Cmd.Resume(number), ret, number);
      if ret == 0 { state := RUNNING; }
    }

    /** Stop, load, start: LOAD is sent whatever the stop was answered, and its
        answer is the result, whatever the start was answered.  It reaches a
        started core exactly when the core was started and the stop was refused. */
    method Load(path: string) returns (ret: int, ghost d: int, ghost e: int, ghost at: nat)
      requires Synced()
      modifies this`state, daemon
      ensures Synced() && CoreCall(old(daemon.trace), daemon.trace, number)
      ensures old(state) == NONE ==> daemon.trace == old(daemon.trace) + [Event(Cmd.Load(number, path), ret)]
      ensures old(state) == STOPPED ==>
                daemon.trace == old(daemon.trace) + [Event(Cmd.Load(number, path), ret)]
                                + [Event(Cmd.Enable(number), e)]
      ensures old(state) in {RUNNING, HALTED} ==>
                daemon.trace == old(daemon.trace) + [Event(Cmd.Disable(number), d)]
                                + [Event(Cmd.Load(number, path), ret)]
                                + (if d == 0 then [Event(Cmd.Enable(number), e)] else [])
      ensures |old(daemon.trace)| <= at < |daemon.trace|
      ensures daemon.trace[at] == Event(Cmd.Load(number, path), ret)
      ensures CoreState(daemon.trace[..at], number) in {RUNNING, HALTED}
         <==> old(state) in {RUNNING, HALTED} && daemon.trace[|old(daemon.trace)|].reply != 0
    {
      ghost var t := daemon.trace;
      var stopped := Disable();
      ghost var u := daemon.trace;
      LoadFinds(t, u, number, stopped);
      ret := SendLoad(path);
      var started := Enable();
      d, e, at := stopped, started, |u|;
      LoadAt(t, u, daemon.trace, number, path, stopped, ret);
    }

    method SendLoad(path: string) returns (ret: int)
      requires Synced()
      modifies daemon
      ensures Synced() && CoreCall(old(daemon.trace), daemon.trace, number)
      ensures daemon.trace == old(daemon.trace) + [Event(Cmd.Load(number, path), ret)]
    {
      ret := daemon.SendCmd(Cmd.Load(number, path));
      OneCommand(old(daemon.trace), Cmd.Load(number, path), ret, number);
    }

    method Do(op: CoreOp)
      requires Synced()
      modifies this`state, daemon
      ensures Synced() && CoreCall(old(daemon.trace), daemon.trace, number)
      ensures Called(op, number, old(daemon.trace), daemon.trace)
    {
      match op
      case EnableOp => var _ := Enable();
      case DisableOp => var _ := Disable();
      case ResetOp => var _ := Reset();
      case PauseOp => var _ := Pause();
      case ResumeOp => var _ := Resume();
      case LoadOp(path) => var _, _, _, _ := Load(path);
    }
  }

  class PRUSS {
    const daemon: Daemon
    const pru0: PRU
    const pru1: PRU
    var on: bool

    ghost predicate Valid()
      reads this, daemon, pru0, pru1
    {
      && pru0 != pru1 && pru0.number == 0 && pru1.number == 1
      && pru0.daemon == daemon && pru1.daemon == daemon
      && pru0.Synced() && pru1.Synced()
      && on == On(daemon.trace) && Legal(daemon.trace)
    }

    constructor ()
      ensures Valid()
      ensures exists r0: int, r1: int, p: int ::
                && daemon.trace == [Event(Cmd.Disable(0), r0), Event(Cmd.Disable(1), r1), Event(Probe, p)]
                && (on <==> p == 0)
    {
      var d := new Daemon();
      daemon, on := d, false;
      pru0 := new PRU(0, d);
      pru1 := new PRU(1, d);
      new;
      var t0 := daemon.trace;
      var r0 := daemon.SendCmd(Cmd.Disable(0));
      Opening(t0, Event(Cmd.Disable(0), r0));
      var t1 := daemon.trace;
      var r1 := daemon.SendCmd(Cmd.Disable(1));
      Opening(t1, Event(Cmd.Disable(1), r1));
      var p := BootUp();
      assert daemon.trace == [Event(Cmd.Disable(0), r0), Event(Cmd.Disable(1), r1), Event(Probe, p)];
    }

    method BootUp() returns (ret: int)
      requires Valid()
      modifies this`on, daemon, pru0`state, pru1`state
      ensures Valid() && old(daemon.trace) <= daemon.trace
      ensures old(on) ==> ret == -EALREADY && daemon.trace == old(daemon.trace)
      ensures !old(on) ==> daemon.trace == old(daemon.trace) + [Event(Probe, ret)]
      ensures !old(on) && ret == 0 ==> on && pru0.state == pru1.state == STOPPED
    {
      if on { return -EALREADY; }
      ghost var t := daemon.trace;
      ret := daemon.SendCmd(Probe);
      Snoc(t, Event(Probe, ret), 0);
      Snoc(t, Event(Probe, ret), 1);
      if ret == 0 {
        on := true;
        pru0.state := STOPPED;
        pru1.state := STOPPED;
      }
    }

    /** pru0.disable(); pru1.disable(); */
    method StopBoth() returns (ghost d0: int, ghost d1: int)
      requires Valid()
      modifies daemon, pru0`state, pru1`state
      ensures Valid() && old(daemon.trace) <= daemon.trace && on == old(on)
      ensures daemon.trace
           == old(daemon.trace)
              + (if old(pru0.state) in {RUNNING, HALTED} then [Event(Cmd.Disable(0), d0)] else [])
              + (if old(pru1.state) in {RUNNING, HALTED} then [Event(Cmd.Disable(1), d1)] else [])
    {
      var r0 := pru0.Disable();
      var r1 := pru1.Disable();
      d0, d1 := r0, r1;
    }

    method ShutDown() returns (ret: int, ghost d0: int, ghost d1: int)
      requires Valid()
      modifies this`on, daemon, pru0`state, pru1`state
      ensures Valid() && old(daemon.trace) <= daemon.trace
      ensures !old(on) ==> ret == -EALREADY && daemon.trace == old(daemon.trace)
      ensures old(on) && ret == 0 ==> !on && pru0.state == pru1.state == NONE
      ensures old(on) && ret != 0 ==> on
      ensures old(on) ==>
                daemon.trace
                == old(daemon.trace)
                   + (if old(pru0.state) in {RUNNING, HALTED} then [Event(Cmd.Disable(0), d0)] else [])
                   + (if old(pru1.state) in {RUNNING, HALTED} then [Event(Cmd.Disable(1), d1)] else [])
                   + [Event(Unprobe, ret)]
    {
      d0, d1 := 0, 0;
      if !on { return -EALREADY, d0, d1; }
      d0, d1 := StopBoth();
      ghost var t := daemon.trace;
      ret := daemon.SendCmd(Unprobe);
      Snoc(t, Event(Unprobe, ret), 0);
      Snoc(t, Event(Unprobe, ret), 1);
      if ret == 0 {
        on := false;
        pru0.state := NONE;
        pru1.state := NONE;
      }
    }

    method Restart() returns (ghost d0: int, ghost d1: int, ghost u: int, ghost p: int)
      requires Valid()
      modifies this`on, daemon, pru0`state, pru1`state
      ensures Valid() && old(daemon.trace) <= daemon.trace
      ensures !old(on) ==> daemon.trace == old(daemon.trace) + [Event(Probe, p)]
      ensures old(on) ==>
                daemon.trace
                == old(daemon.trace)
                   + (if old(pru0.state) in {RUNNING, HALTED} then [Event(Cmd.Disable(0), d0)] else [])
                   + (if old(pru1.state) in {RUNNING, HALTED} then [Event(Cmd.Disable(1), d1)] else [])
                   + [Event(Unprobe, u)] + (if u == 0 then [Event(Probe, p)] else [])
    {
      var unprobed, r0, r1 := ShutDown();
      var probed := BootUp();
      d0, d1, u, p := r0, r1, unprobed, probed;
    }

    method Do(op: Op)
      requires Valid()
      modifies this`on, daemon, pru0`state, pru1`state
      ensures Valid() && Made(op, old(daemon.trace), daemon.trace)
    {
      match op
      case BootUp => var _ := BootUp();
      case ShutDown => var _, _, _ := ShutDown();
      case Restart => var _, _, _, _ := Restart();
      case OnCore(n, c) => if n == 0 { pru0.Do(c); } else { pru1.Do(c); }
    }

    /** Any program over the interface, whatever the daemon answers: its whole
        trace is legal, and off means exactly that both cores are NONE.  `steps`
        is the trace before every call and after the last. */
    method Run(ops: seq<Op>) returns (ghost steps: seq<Trace>)
      requires Valid()
      modifies this`on, daemon, pru0`state, pru1`state
      ensures Valid() && Legal(daemon.trace)
      ensures |steps| == |ops| + 1 && steps[0] == old(daemon.trace) && steps[|ops|] == daemon.trace
      ensures forall i :: 0 <= i < |ops| ==> Made(ops[i], steps[i], steps[i + 1])
      ensures !on <==> pru0.state == NONE && pru1.state == NONE
      ensures on <==> pru0.state != NONE && pru1.state != NONE
    {
      steps := [daemon.trace];
      for i := 0 to |ops|
        invariant Valid() && |steps| == i + 1
        invariant steps[0] == old(daemon.trace) && steps[i] == daemon.trace
        invariant forall k :: 0 <= k < i ==> Made(ops[k], steps[k], steps[k + 1])
      {
        Do(ops[i]);
        steps := steps + [daemon.trace];
      }
      OffIffNone(daemon.trace, 0);
      OffIffNone(daemon.trace, 1);
    }
  }

  /** The two raw DISABLE commands of the constructor change no state. */
  lemma Opening(t: Trace, e: Event)
    requires e.cmd.Disable? && |t| < 2 && Legal(t) && !On(t)
    ensures Legal(t + [e]) && !On(t + [e])
    ensures forall n: nat :: CoreState(t + [e], n) == CoreState(t, n)
  {
    forall n: nat ensures CoreState(t + [e], n) == CoreState(t, n) {
      OpeningCore(t, e, n);
    }
    Snoc(t, e, 0);
  }

  lemma OpeningCore(t: Trace, e: Event, n: nat)
    requires e.cmd.Disable? && Legal(t) && !On(t)
    ensures CoreState(t + [e], n) == CoreState(t, n)
  {
    OffIffNone(t, n);
    Snoc(t, e, n);
  }
}
