/** Software PWM on four output pins
    (examples/firmware_examples/example5-multichannel-pwm/multich-pwm-c/multi.c). */
module Pwm {
  import opened Words

  const MAXCH: nat := 4

  /** One channel: its two counters and its pin. */
  datatype Chan = Chan(onCount: nat, offCount: nat, high: bool)

  /** What one pass of the inner loop does to a channel. */
  function Tick(on: nat, off: nat, c: Chan): Chan {
    if c.onCount > 0 then Chan(c.onCount - 1, c.offCount, true)
    else if c.offCount > 0 then Chan(0, c.offCount - 1, false)
    else Chan(on, off, c.high)
  }

  /** The channel after t rounds. */
  function After(on: nat, off: nat, start: bool, t: nat): Chan {
    if t == 0 then Chan(on, off, start) else Tick(on, off, After(on, off, start, t - 1))
  }

  /** Counters depend only on the phase within a period of on + off + 1 rounds. */
  function PhaseOn(on: nat, p: nat): nat { if p < on then on - p else 0 }

  function PhaseOff(on: nat, off: nat, p: nat): nat
    requires p <= on + off
  {
    if p <= on then off else on + off - p
  }

  lemma {:induction false} CountersByPhase(on: nat, off: nat, start: bool, t: nat)
    ensures var p := t % (on + off + 1);
            && After(on, off, start, t).onCount == PhaseOn(on, p)
            && After(on, off, start, t).offCount == PhaseOff(on, off, p)
    decreases t
  {
    var n := on + off + 1;
    if t > 0 {
      CountersByPhase(on, off, start, t - 1);
      NextPhase(t - 1, n);
    } else {
      ModUnique(0, n, 0, 0);
    }
  }

  lemma NextPhase(t: nat, n: nat)
    requires n > 0
    ensures t % n < n
    ensures (t + 1) % n == if t % n == n - 1 then 0 else t % n + 1
  {
    Division(t, n);
    if t % n == n - 1 {
      assert t + 1 == (t / n + 1) * n + 0;
      ModUnique(t + 1, n, t / n + 1, 0);
    } else {
      ModUnique(t + 1, n, t / n, t % n + 1);
    }
  }

  /** The pin after round t; t = 0 is the first. */
  predicate Pulse(on: nat, off: nat, start: bool, t: nat) { After(on, off, start, t + 1).high }

  /** The same without running the rounds. */
  predicate Level(on: nat, off: nat, start: bool, t: nat) {
    if off > 0 then t % (on + off + 1) < on
    else on > 0 || start
  }

  lemma {:induction false} ClosedForm(on: nat, off: nat, start: bool, t: nat)
    ensures Pulse(on, off, start, t) == Level(on, off, start, t)
    decreases t
  {
    var n := on + off + 1;
    CountersByPhase(on, off, start, t);
    NextPhase(t, n);
    if t > 0 {
      ClosedForm(on, off, start, t - 1);
      NextPhase(t - 1, n);
    } else {
      ModUnique(0, n, 0, 0);
    }
  }

  /** The intended duty cycle, on rounds high out of on + off + 1, holds for all
      time exactly when the channel has an off phase, or never drives its pin and
      the pin starts low. */
  lemma DutyCycleIff(on: nat, off: nat, start: bool)
    ensures (forall t: nat :: Pulse(on, off, start, t) <==> t % (on + off + 1) < on)
       <==> off > 0 || (on == 0 && !start)
  {
    if off > 0 || (on == 0 && !start) {
      forall t: nat ensures Pulse(on, off, start, t) <==> t % (on + off + 1) < on {
        ClosedForm(on, off, start, t);
      }
    } else {
      ClosedForm(on, off, start, on);
      ModUnique(on, on + 1, 0, on);
      assert Pulse(on, off, start, on);
    }
  }

  // ------------------------------------------------------------- firmware

  /** R30 as its 32 bits; `|= 0x1 << ch` and `&= ~(0x1 << ch)` update bit ch. */
  type Word = w: seq<bool> | |w| == 32 witness seq(32, _ => false)

  /** The bits of R30 that drive no channel. */
  function Others(r30: Word): seq<bool> { r30[MAXCH..] }

  /** Counters and pin of channel k. */
  ghost function State(onCount: array<nat>, offCount: array<nat>, r30: Word, k: nat): Chan
    requires k < MAXCH && onCount.Length == offCount.Length == MAXCH
    reads onCount, offCount
  {
    Chan(onCount[k], offCount[k], r30[k])
  }

  /** One channel's turn in the inner loop. */
  method Turn(on: nat, off: nat, onCount: array<nat>, offCount: array<nat>, start: Word, ch: nat) returns (r30: Word)
    requires ch < MAXCH && onCount.Length == offCount.Length == MAXCH && onCount != offCount
    modifies onCount, offCount
    ensures Others(r30) == Others(start)
    ensures forall k :: 0 <= k < MAXCH ==>
              State(onCount, offCount, r30, k)
                == if k == ch then Tick(on, off, old(State(onCount, offCount, start, k)))
                   else old(State(onCount, offCount, start, k))
  {
    r30 := start;
    if onCount[ch] > 0 {
      onCount[ch] := onCount[ch] - 1;
      r30 := r30[ch := true];
    } else if offCount[ch] > 0 {
      offCount[ch] := offCount[ch] - 1;
      r30 := r30[ch := false];
    } else {
      onCount[ch] := on;
      offCount[ch] := off;
    }
  }

  /** The endless loop of main, cut off after `rounds` rounds: R30 after every
      round.  Each channel follows its own course whatever the others do, and
      the other 28 bits of R30 are never touched. */
  method Rounds(on: array<nat>, off: array<nat>, start: Word, rounds: nat) returns (trace: seq<Word>)
    requires on.Length == off.Length == MAXCH
    ensures |trace| == rounds
    ensures forall t, ch :: 0 <= t < rounds && 0 <= ch < MAXCH ==>
              (trace[t][ch] <==> Level(on[ch], off[ch], start[ch], t))
    ensures forall t :: 0 <= t < rounds ==> Others(trace[t]) == Others(start)
  {
    var r30 := start;
    var onCount, offCount := new nat[MAXCH], new nat[MAXCH];
    for ch := 0 to MAXCH
      invariant forall k :: 0 <= k < ch ==> onCount[k] == on[k] && offCount[k] == off[k]
    {
      onCount[ch] := on[ch];
      offCount[ch] := off[ch];
    }
    trace := [];
    for t := 0 to rounds
      invariant |trace| == t && Others(r30) == Others(start)
      invariant forall k :: 0 <= k < MAXCH ==>
                  State(onCount, offCount, r30, k) == After(on[k], off[k], start[k], t)
      invariant forall i, k :: 0 <= i < t && 0 <= k < MAXCH ==>
                  (trace[i][k] <==> Level(on[k], off[k], start[k], i))
      invariant forall i :: 0 <= i < t ==> Others(trace[i]) == Others(start)
    {
      for ch := 0 to MAXCH
        invariant Others(r30) == Others(start)
        invariant forall k :: 0 <= k < MAXCH ==>
                    State(onCount, offCount, r30, k)
                      == After(on[k], off[k], start[k], if k < ch then t + 1 else t)
      {
        r30 := Turn(on[ch], off[ch], onCount, offCount, r30, ch);
      }
      forall k | 0 <= k < MAXCH ensures r30[k] <==> Level(on[k], off[k], start[k], t) {
        ClosedForm(on[k], off[k], start[k], t);
      }
      trace := trace + [r30];
    }
  }
}
