/** What the pruss_api driver holds (drivers/pruss_api.c: init, probe, remove,
    exit).  Every acquisition may fail; the driver core and the rpmsg bus are
    the callers. */
module DriverLedger {

  const PRU_MAX_DEVICES: nat := 8
  const ENOMEM := 12
  const ENOSPC := 28

  datatype Global = Class | Region | Registration

  /** Per-device resources, in the order probe acquires them. */
  datatype Res = Minor(n: nat) | Cdev(n: nat) | Node(n: nat) | Fifo

  datatype Fault = Memory | ClassCreate | RegionAlloc | Register | IdrAlloc | CdevAdd | DeviceCreate | FifoAlloc

  function Full(minor: nat): seq<Res> { [Minor(minor), Cdev(minor), Node(minor), Fifo] }

  type Held = map<nat, seq<Res>>

  /** The ledger with device d holding exactly `stack`. */
  function With(held: Held, d: nat, stack: seq<Res>): Held {
    if stack == [] then held - {d} else held[d := stack]
  }

  function Stack(held: Held, d: nat): seq<Res> { if d in held then held[d] else [] }

  /** A probed device holds all four resources under its own minor below 8. */
  ghost predicate Consistent(minors: set<nat>, held: Held) {
    && (forall d :: d in held ==> |held[d]| == 4 && held[d][0].Minor? && held[d] == Full(held[d][0].n))
    && (forall d :: d in held ==> held[d][0].n in minors)
    && (forall d, e :: d in held && e in held && held[d][0] == held[e][0] ==> d == e)
    && (forall m :: m in minors ==> m < PRU_MAX_DEVICES && exists d :: d in held && held[d][0] == Minor(m))
  }

  lemma ConsistentAdd(minors: set<nat>, held: Held, d: nat, m: nat)
    requires Consistent(minors, held) && d !in held && m !in minors && m < PRU_MAX_DEVICES
    ensures Consistent(minors + {m}, With(held, d, Full(m)))
  {
    var held' := With(held, d, Full(m));
    forall k | k in minors + {m} ensures exists e :: e in held' && held'[e][0] == Minor(k) {
      if k == m {
        assert held'[d][0] == Minor(m);
      } else {
        var e :| e in held && held[e][0] == Minor(k);
        assert held'[e][0] == Minor(k);
      }
    }
  }

  lemma ConsistentRemove(minors: set<nat>, held: Held, d: nat)
    requires Consistent(minors, held) && d in held
    ensures Consistent(minors - {held[d][0].n}, held - {d})
  {
    var held', m := held - {d}, held[d][0].n;
    forall k | k in minors - {m} ensures exists e :: e in held' && held'[e][0] == Minor(k) {
      var e :| e in held && held[e][0] == Minor(k);
      assert e in held';
    }
  }

  /** The calls the kernel makes, with the failures met and the error they give. */
  datatype Op =
    | InitOp(faults: set<Fault>, code: nat)
    | ProbeOp(d: nat, faults: set<Fault>, code: nat)
    | RemoveOp(d: nat)
    | ExitOp

  datatype Ledger = Ledger(globals: set<Global>, minors: set<nat>, held: Held)

  /** What a call does to the ledger, with the failures it meets. */
  ghost predicate Made(op: Op, a: Ledger, b: Ledger) {
    match op
    case InitOp(faults, _) =>
      b == if a.globals == {} && faults !! {ClassCreate, RegionAlloc, Register}
           then a.(globals := {Class, Region, Registration}) else a
    case ProbeOp(d, faults, _) =>
      if Registration in a.globals && d !in a.held && |a.held| < 8
         && faults !! {Memory, Fault.IdrAlloc, CdevAdd, DeviceCreate, FifoAlloc}
      then exists m: nat ::
        && m < 8 && m !in a.minors
        && b == Ledger(a.globals, a.minors + {m}, a.held[d := [Minor(m), Cdev(m), Node(m), Fifo]])
      else b == a
    case RemoveOp(d) =>
      if d in a.held
      then exists m: nat ::
        && a.held[d] == [Minor(m), Cdev(m), Node(m), Fifo]
        && b == Ledger(a.globals, a.minors - {m}, a.held - {d})
      else b == a
    case ExitOp => b == Ledger({}, {}, map[])
  }

  class PrussApiDriver {
    var globals: set<Global>
    var minors: set<nat>   // pruss_api_minors
    var held: Held         // per rpmsg device, oldest first

    ghost predicate Valid()
      reads this
    {
      && Consistent(minors, held)
      && (held != map[] ==> Registration in globals)
      && (globals == {} || globals == {Class, Region, Registration})
    }

    constructor ()
      ensures Valid() && globals == {} && held == map[] && minors == {}
    {
      globals, minors, held := {}, {}, map[];
    }

    /** Acquire on top of what the device holds; release only the top. */
    method Push(d: nat, r: Res)
      modifies this`held
      ensures held == With(old(held), d, Stack(old(held), d) + [r])
    {
      held := With(held, d, Stack(held, d) + [r]);
    }

    method Pop(d: nat, r: Res)
      requires Stack(held, d) != [] && Stack(held, d)[|Stack(held, d)| - 1] == r
      modifies this`held
      ensures held == With(old(held), d, Stack(old(held), d)[..|Stack(old(held), d)| - 1])
    {
      held := With(held, d, Stack(held, d)[..|Stack(held, d)| - 1]);
    }

    /** pruss_api_init: everything or, on any failure, nothing. */
    method Init(faults: set<Fault>, err: int) returns (ret: int)
      requires Valid() && globals == {} && err < 0
      modifies this`globals
      ensures Valid()
      ensures ret == 0 <==> ClassCreate !in faults && RegionAlloc !in faults && Register !in faults
      ensures ret == 0 ==> globals == {Class, Region, Registration}
      ensures ret != 0 ==> ret == err && globals == old(globals)
    {
      if ClassCreate in faults {
        return err;
      }
      globals := globals + {Class};
      if RegionAlloc in faults {
        globals := globals - {Class};
        return err;
      }
      globals := globals + {Region};
      if Register in faults {
        globals := globals - {Region};
        globals := globals - {Class};
        return err;
      }
      globals := globals + {Registration};
      ret := 0;
    }

    /** idr_alloc: the smallest free id, or an error. */
    method IdrAlloc(faults: set<Fault>, err: int) returns (id: int)
      requires err < 0 && Small(minors)
      modifies this`minors
      ensures id < 0 <==> Fault.IdrAlloc in faults || |old(minors)| >= PRU_MAX_DEVICES
      ensures id < 0 ==> minors == old(minors) && id == (if Fault.IdrAlloc in faults then err else -ENOSPC)
      ensures id >= 0 ==> id < PRU_MAX_DEVICES && id !in old(minors) && minors == old(minors) + {id}
    {
      if Fault.IdrAlloc in faults {
        return err;
      }
      for m := 0 to PRU_MAX_DEVICES
        invariant forall k :: 0 <= k < m ==> k in minors
        invariant minors == old(minors)
      {
        if m !in minors {
          SomeFree(minors, m);
          minors := minors + {m};
          return m;
        }
      }
      AllTaken(minors);
      id := -ENOSPC;
    }

    /** pruss_api_probe: succeeds exactly when nothing fails and a minor is free;
        a failing call gives back, last first, all it had taken. */
    method Probe(d: nat, faults: set<Fault>, err: int) returns (ret: int)
      requires Valid() && Registration in globals && d !in held && err < 0
      modifies this`minors, this`held
      ensures Valid()
      ensures ret == 0 <==> Memory !in faults && Fault.IdrAlloc !in faults && CdevAdd !in faults
                            && DeviceCreate !in faults && FifoAlloc !in faults && |old(held)| < PRU_MAX_DEVICES
      ensures ret == 0 ==> exists m: nat :: m < PRU_MAX_DEVICES && m !in old(minors)
                             && minors == old(minors) + {m}
                             && held == old(held)[d := [Minor(m), Cdev(m), Node(m), Fifo]]
      ensures ret != 0 ==> ret < 0 && minors == old(minors) && held == old(held)
    {
      LiveMinors(held, minors);
      if Memory in faults {
        return -ENOMEM;
      }
      ghost var m0, h0 := minors, held;
      var minor: nat;
      ret, minor := Acquire(d, faults, err);
      if ret == 0 { ConsistentAdd(m0, h0, d, minor); }
    }

    /** The part of probe from idr_alloc on. */
    method Acquire(d: nat, faults: set<Fault>, err: int) returns (ret: int, minor: nat)
      requires d !in held && err < 0 && Small(minors)
      modifies this`minors, this`held
      ensures ret == 0 <==> Fault.IdrAlloc !in faults && CdevAdd !in faults && DeviceCreate !in faults
                            && FifoAlloc !in faults && |old(minors)| < PRU_MAX_DEVICES
      ensures ret == 0 ==> && minor < PRU_MAX_DEVICES && minor !in old(minors)
                           && minors == old(minors) + {minor} && held == With(old(held), d, Full(minor))
      ensures ret != 0 ==> ret < 0 && minors == old(minors) && held == old(held)
    {
      minor := 0;
      var id := IdrAlloc(faults, err);
      if id < 0 {
        return id, minor;
      }
      minor := id;
      ret := Build(d, minor, faults, err);
      if ret != 0 {
        minors := minors - {minor};      // fail_add_cdev
      }
    }

    /** The part of probe between idr_alloc and idr_remove. */
    method Build(d: nat, minor: nat, faults: set<Fault>, err: int) returns (ret: int)
      requires d !in held && err < 0
      modifies this`held
      ensures ret == 0 <==> CdevAdd !in faults && DeviceCreate !in faults && FifoAlloc !in faults
      ensures ret == 0 ==> held == With(old(held), d, Full(minor))
      ensures ret != 0 ==> ret == err && held == old(held)
    {
      ghost var was, s1, s2, s3 := held, Full(minor)[..1], Full(minor)[..2], Full(minor)[..3];
      Push(d, Minor(minor));
      assert [] + [Minor(minor)] == s1 && s1[..0] == [] && held == With(was, d, s1);
      if CdevAdd in faults {
        Pop(d, Minor(minor));
        assert With(With(was, d, s1), d, []) == was;
        return err;
      }
      Push(d, Cdev(minor));
      assert s1 + [Cdev(minor)] == s2 && s2[..1] == s1 && held == With(was, d, s2);
      if DeviceCreate in faults {
        Pop(d, Cdev(minor));             // fail_create_device
        assert held == With(was, d, s1);
        Pop(d, Minor(minor));            // fail_add_cdev
        assert With(With(was, d, s1), d, []) == was;
        return err;
      }
      Push(d, Node(minor));
      assert s2 + [Node(minor)] == s3 && s3[..2] == s2 && held == With(was, d, s3);
      if FifoAlloc in faults {
        Pop(d, Node(minor));             // fail_alloc_fifo
        assert held == With(was, d, s2);
        Pop(d, Cdev(minor));
        assert held == With(was, d, s1);
        Pop(d, Minor(minor));
        assert With(With(was, d, s1), d, []) == was;
        return err;
      }
      Push(d, Fifo);
      assert s3 + [Fifo] == Full(minor);
      ret := 0;
    }

    /** pruss_api_remove: releases all the device holds, last first. */
    method Remove(d: nat)
      requires Valid() && d in held
      modifies this`minors, this`held
      ensures Valid()
      ensures held == old(held) - {d} && minors == old(minors) - {old(held)[d][0].n}
    {
      var minor := held[d][0].n;
      ConsistentRemove(minors, held, d);
      ReleaseAll(d, minor);
      minors := minors - {minor};
    }

    method ReleaseAll(d: nat, minor: nat)
      requires d in held && held[d] == Full(minor)
      modifies this`held
      ensures held == old(held) - {d}
    {
      ghost var was, s1, s2, s3 := held, Full(minor)[..1], Full(minor)[..2], Full(minor)[..3];
      assert s3[..2] == s2 && s2[..1] == s1 && s1[..0] == [];
      Pop(d, Fifo);
      assert held == With(was, d, s3);
      Pop(d, Node(minor));
      assert held == With(was, d, s2);
      Pop(d, Cdev(minor));
      assert held == With(was, d, s1);
      Pop(d, Minor(minor));
    }

    /** pruss_api_exit: unregistering removes every bound device; afterwards
        nothing at all is held. */
    method Exit()
      requires Valid() && globals == {Class, Region, Registration}
      modifies this
      ensures Valid() && globals == {} && held == map[] && minors == {}
    {
      while held != map[]
        invariant Valid() && globals == {Class, Region, Registration}
        decreases |held|
      {
        var d :| d in held;
        ghost var before := held;
        Remove(d);
        assert before.Keys == held.Keys + {d};
      }
      globals := globals - {Registration};
      globals := globals - {Class};
      globals := globals - {Region};
      assert minors == {};
    }

    ghost function Now(): Ledger
      reads this
    {
      Ledger(globals, minors, held)
    }

    /** One call from the kernel; a call that does not apply is not made. */
    method Do(op: Op)
      requires Valid()
      modifies this
      ensures Valid() && Made(op, old(Now()), Now())
    {
      match op
      case InitOp(faults, code) =>
        if globals == {} { var _ := Init(faults, -1 - code); }
      case ProbeOp(d, faults, code) =>
        if Registration in globals && d !in held { var _ := Probe(d, faults, -1 - code); }
      case RemoveOp(d) =>
        if d in held {
          assert held[d] == Full(held[d][0].n);
          Remove(d);
        }
      case ExitOp =>
        if globals != {} { Exit(); }
        assert minors == {};
    }

    /** Any run of calls with any failures: minors stay distinct, below 8 and as
        many as the devices, and without the driver nothing is held.  `steps` is
        the ledger before every call and after the last. */
    method Run(ops: seq<Op>) returns (ghost steps: seq<Ledger>)
      requires Valid()
      modifies this
      ensures |steps| == |ops| + 1 && steps[0] == old(Now()) && steps[|ops|] == Now()
      ensures forall i :: 0 <= i < |ops| ==> Made(ops[i], steps[i], steps[i + 1])
      ensures Valid() && |held| == |minors| <= 8 && forall m :: m in minors ==> m < 8
      ensures forall d, e :: d in held && e in held && d != e ==> held[d][0] != held[e][0]
      ensures globals == {} ==> held == map[] && minors == {}
    {
      steps := [Now()];
      for i := 0 to |ops|
        invariant Valid() && |steps| == i + 1 && steps[0] == old(Now()) && steps[i] == Now()
        invariant forall k :: 0 <= k < i ==> Made(ops[k], steps[k], steps[k + 1])
      {
        Do(ops[i]);
        steps := steps + [Now()];
      }
      LiveMinors(held, minors);
    }
  }

  function Range(n: nat): (r: set<nat>)
    ensures |r| == n && forall i :: i in r <==> 0 <= i < n
  {
    if n == 0 then {} else Range(n - 1) + {n - 1}
  }

  predicate Small(minors: set<nat>) { forall m :: m in minors ==> m < PRU_MAX_DEVICES }

  /** Live devices have distinct minors, one each, so there are at most 8. */
  lemma LiveMinors(held: Held, minors: set<nat>)
    requires Consistent(minors, held)
    ensures |held| == |minors| <= PRU_MAX_DEVICES
  {
    AtMost(minors, Range(PRU_MAX_DEVICES));
    var names := Names(minors, held);
    OneEach(names);
  }

  lemma Names(minors: set<nat>, held: Held) returns (names: map<nat, nat>)
    requires Consistent(minors, held)
    ensures names.Keys == held.Keys && names.Values == minors
    ensures forall d, e :: d in names && e in names && names[d] == names[e] ==> d == e
  {
    names := map d | d in held :: held[d][0].n;
    assert names.Keys == held.Keys;
    assert names.Values == minors by {
      forall m | m in minors ensures m in names.Values {
        var d :| d in held && held[d][0] == Minor(m);
        assert names[d] == m;
      }
    }
  }

  lemma {:induction false} OneEach(names: map<nat, nat>)
    requires forall d, e :: d in names && e in names && names[d] == names[e] ==> d == e
    ensures |names| == |names.Values|
    decreases |names|
  {
    if names != map[] {
      var d :| d in names;
      var rest := names - {d};
      assert names.Keys == rest.Keys + {d};
      assert names.Values == rest.Values + {names[d]} by {
        forall e | e in names && e != d ensures names[e] in rest.Values { assert rest[e] == names[e]; }
      }
      OneEach(rest);
    }
  }

  lemma AllTaken(minors: set<nat>)
    requires Small(minors) && forall m :: 0 <= m < PRU_MAX_DEVICES ==> m in minors
    ensures |minors| == PRU_MAX_DEVICES
  {
    assert minors == Range(PRU_MAX_DEVICES);
  }

  lemma SomeFree(minors: set<nat>, m: nat)
    requires Small(minors) && m < PRU_MAX_DEVICES && m !in minors
    ensures |minors| < PRU_MAX_DEVICES
  {
    Fewer(minors, Range(PRU_MAX_DEVICES), m);
  }

  lemma {:induction false} Fewer(a: set<nat>, b: set<nat>, x: nat)
    requires a <= b && x in b - a
    ensures |a| < |b|
    decreases |b|
  {
    if a != {} {
      var y :| y in a;
      Fewer(a - {y}, b - {y}, x);
    }
  }

  lemma {:induction false} AtMost(a: set<nat>, b: set<nat>)
    requires a <= b
    ensures |a| <= |b|
    decreases |a|
  {
    if a != {} {
      var y :| y in a;
      AtMost(a - {y}, b - {y});
    }
  }
}
