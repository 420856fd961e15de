/** Layout of a vring and the event-index window
    (examples/include/pru_virtio_ring.h).  Pointers and `unsigned` are 32 bits
    on the PRU; `align` is a uint64_t, so the rounding is done in 64 bits. */
module VirtioRing {
  import opened Words

  const DESC_SIZE: nat := 16      // sizeof(struct vring_desc)
  const USED_ELEM_SIZE: nat := 8  // sizeof(struct vring_used_elem)

  /** x rounded up to a multiple of align. */
  function RoundUp(x: nat, align: nat): nat
    requires align > 0
  {
    ((x + align - 1) / align) * align
  }

  lemma RoundUpMeaning(x: nat, align: nat)
    requires align > 0
    ensures x <= RoundUp(x, align) < x + align && RoundUp(x, align) % align == 0
  {
    Division(x + align - 1, align);
    ModUnique(RoundUp(x, align), align, (x + align - 1) / align, 0);
  }

  /** The mask expression `(x + align - 1) & ~(align - 1)` in 64 bits. */
  function MaskUp(x: nat, align: nat): nat
    requires 0 < align <= U64
  {
    BitAnd((x + align - 1) % U64, U64 - align)
  }

  lemma MaskUpIsRoundUp(x: nat, align: nat)
    requires IsPow2(align) && align < U64 && x <= U32
    ensures MaskUp(x, align) == RoundUp(x, align)
  {
    U64IsPow2();
    ClearIsRoundUp(x, align, U64);
  }

  lemma AtMostHalf(a: nat, w: nat)
    requires IsPow2(a) && IsPow2(w) && a < w
    ensures 2 * a <= w
  {
    var k := Pow2Divides(a, w);
    if k >= 2 {
      MulGap(k - 1, a);
      assert k * a == (k - 1) * a + a;
    }
  }

  lemma ClearIsRoundUp(x: nat, align: nat, w: nat)
    requires IsPow2(align) && IsPow2(w) && align < w && 2 * x <= w
    ensures BitAnd((x + align - 1) % w, w - align) == RoundUp(x, align)
  {
    var y := x + align - 1;
    AtMostHalf(align, w);
    ModUnique(y, w, 0, y);
    ClearLowBits(y, align, w);
    Division(y, align);
  }

  lemma U64IsPow2()
    ensures IsPow2(U64)
  {
    U16IsPow2();
    Pow2Product(U16, U16);
    Pow2Product(U32, U32);
  }

  /** vring_size: `num` is a uint16_t here, the result an unsigned int. */
  function VringSize(num: nat, align: nat): nat
    requires 0 < align <= U64
  {
    (MaskUp((DESC_SIZE * num + 2 * (3 + num)) % U32, align) + 2 * 3 + USED_ELEM_SIZE * num) % U32
  }

  /** Where the available ring ends, with its trailing used_event field. */
  function AvailEnd(base: nat, num: nat): nat { base + DESC_SIZE * num + 2 * num + 6 }

  /** Where the used ring ends, with its trailing avail_event field. */
  function UsedEnd(base: nat, num: nat, align: nat): nat
    requires align > 0
  {
    RoundUp(AvailEnd(base, num), align) + USED_ELEM_SIZE * num + 6
  }

  class Vring {
    var num: nat
    var desc: nat
    var avail: nat
    var used: nat

    /** vring_init: descriptor table, available ring and used ring follow one
        another without overlap, the used ring is aligned, and the whole ends
        exactly vring_size bytes after the base if and only if num survives the
        conversion to vring_size's uint16_t parameter. */
    method Init(num: nat, p: nat, align: nat)
      requires IsPow2(align) && p % align == 0 && UsedEnd(p, num, align) < U32
      modifies this
      ensures this.num == num && desc == p && avail == p + 16 * num
      ensures avail + 2 * num + 6 <= used < avail + 2 * num + 6 + align
      ensures used % align == 0 && align <= U32
      ensures used + 8 * num + 6 == p + VringSize(num % 0x1_0000, align) <==> num < 0x1_0000
    {
      LayoutFacts(p, num, align);
      SizeIsEndIff(p, num, align);
      this.num := num;
      desc := p;
      avail := (p + (num * DESC_SIZE) % U32) % U32;
      used := MaskUp(((avail + 4 + 2 * num) % U32 + 2) % U32, align) % U32;
    }
  }

  /** The wrapping expressions of vring_init do not wrap when the layout fits. */
  lemma LayoutFacts(p: nat, num: nat, align: nat)
    requires IsPow2(align) && p % align == 0 && UsedEnd(p, num, align) < U32
    ensures var avail := (p + (num * DESC_SIZE) % U32) % U32;
            && align <= U32 && avail == p + DESC_SIZE * num
            && var used := MaskUp(((avail + 4 + 2 * num) % U32 + 2) % U32, align) % U32;
            && AvailEnd(p, num) <= used < AvailEnd(p, num) + align && used % align == 0
            && used + USED_ELEM_SIZE * num + 6 == UsedEnd(p, num, align)
  {
    var e := AvailEnd(p, num);
    RoundUpMeaning(e, align);
    AlignFits(p, num, align);
    MaskUpIsRoundUp(e, align);
    NoWrap(p, num, e);
    Fits(RoundUp(e, align), num);
  }

  lemma Fits(r: nat, num: nat)
    requires r + USED_ELEM_SIZE * num + 6 < U32
    ensures r % U32 == r && (r + 2 * 3 + USED_ELEM_SIZE * num) % U32 == r + USED_ELEM_SIZE * num + 6
  {
  }

  lemma NoWrap(p: nat, num: nat, e: nat)
    requires e == AvailEnd(p, num) && e < U32
    ensures (p + (num * DESC_SIZE) % U32) % U32 == p + DESC_SIZE * num
    ensures ((p + DESC_SIZE * num + 4 + 2 * num) % U32 + 2) % U32 == e
  {
  }

  /** An aligned used ring that fits leaves room for the alignment itself. */
  lemma AlignFits(p: nat, num: nat, align: nat)
    requires align > 0 && UsedEnd(p, num, align) < U32
    ensures align <= U32
  {
    var x := AvailEnd(p, num) + align - 1;
    Division(x, align);
    MulGap(x / align, align);
  }

  /** Rounding commutes with an aligned base. */
  lemma RoundUpShift(p: nat, x: nat, align: nat)
    requires align > 0 && p % align == 0
    ensures RoundUp(p + x, align) == p + RoundUp(x, align)
  {
    var y := x + align - 1;
    Division(p, align);
    Division(y, align);
    assert p + y == (p / align + y / align) * align + y % align;
    ModUnique(p + y, align, p / align + y / align, y % align);
  }

  lemma SizeIs(num: nat, align: nat, r: nat)
    requires IsPow2(align) && align <= U32 && num < U16
    requires r == RoundUp(AvailEnd(0, num), align) && r + USED_ELEM_SIZE * num + 6 < U32
    ensures VringSize(num, align) == r + USED_ELEM_SIZE * num + 6
  {
    var x := (DESC_SIZE * num + 2 * (3 + num)) % U32;
    RingBytes(num);
    MaskUpIsRoundUp(x, align);
    assert VringSize(num, align) == (MaskUp(x, align) + 2 * 3 + USED_ELEM_SIZE * num) % U32;
    Fits(r, num);
  }

  lemma RingBytes(num: nat)
    requires num < U16
    ensures (DESC_SIZE * num + 2 * (3 + num)) % U32 == AvailEnd(0, num) <= U32
  {
  }

  lemma SizeIsEnd(p: nat, num: nat, align: nat)
    requires IsPow2(align) && align <= U32 && num < U16 && p % align == 0
    requires UsedEnd(p, num, align) < U32
    ensures p + VringSize(num, align) == UsedEnd(p, num, align)
  {
    var x := AvailEnd(0, num);
    RoundUpShift(p, x, align);
    assert AvailEnd(p, num) == p + x;
    SizeIs(num, align, RoundUp(x, align));
  }

  /** vring_size in arithmetic. */
  lemma SizeFormula(num: nat, align: nat)
    requires IsPow2(align) && align <= U32 && num < U16 && UsedEnd(0, num, align) < U32
    ensures VringSize(num, align) == (18 * num + 6 + align - 1) / align * align + 6 + 8 * num
  {
    SizeIs(num, align, RoundUp(18 * num + 6, align));
  }

  /** A ring of 2^16 entries or more is larger than vring_size says. */
  lemma SizeIsEndIff(p: nat, num: nat, align: nat)
    requires IsPow2(align) && align <= U32 && p % align == 0 && UsedEnd(p, num, align) < U32
    ensures p + VringSize(num % U16, align) == UsedEnd(p, num, align) <==> num < U16
  {
    var m := num % U16;
    Narrowed(num);
    EndGrows(p, m, num, align);
    SizeIsEnd(p, m, align);
  }

  lemma Narrowed(num: nat)
    ensures num % U16 <= num && num % U16 < U16 && (num % U16 == num <==> num < U16)
  {
  }

  lemma EndGrows(p: nat, m: nat, num: nat, align: nat)
    requires align > 0 && m <= num
    ensures UsedEnd(p, m, align) <= UsedEnd(p, num, align)
    ensures UsedEnd(p, m, align) == UsedEnd(p, num, align) <==> m == num
  {
    RoundUpMono(AvailEnd(p, m), AvailEnd(p, num), align);
  }

  lemma RoundUpMono(x: nat, y: nat, align: nat)
    requires align > 0 && x <= y
    ensures RoundUp(x, align) <= RoundUp(y, align)
  {
    var i, j := (x + align - 1) / align, (y + align - 1) / align;
    Division(x + align - 1, align);
    Division(y + align - 1, align);
    MulGap(j - i, align);
    assert j * align - i * align == (j - i) * align;
  }

  // --------------------------------------------------------- event window

  /** vring_need_event on 16-bit counters. */
  function NeedEvent(event: nat, newIdx: nat, oldIdx: nat): bool {
    (newIdx - event - 1) % U16 < (newIdx - oldIdx) % U16
  }

  /** How far `i` lies beyond `from`, going round. */
  function Ahead(i: nat, from: nat): (d: nat)
    ensures d < U16 && d == (i - from) % 0x1_0000
  {
    (i - from) % U16
  }

  /** The index k increments after `from`. */
  function Plus(from: nat, k: nat): (i: nat)
    ensures i == (from + k) % 0x1_0000
  {
    (from + k) % U16
  }

  /** It fires exactly when the event index is one of the indices passed when
      counting from old up to, not including, new. */
  lemma NeedEventIsWindow(event: nat, newIdx: nat, oldIdx: nat)
    requires event < U16 && newIdx < U16 && oldIdx < U16
    ensures NeedEvent(event, newIdx, oldIdx)
        <==> exists k: nat :: k < Ahead(newIdx, oldIdx) && event == Plus(oldIdx, k)
  {
    var k, n := Ahead(event, oldIdx), Ahead(newIdx, oldIdx);
    assert event == Plus(oldIdx, k);
    assert NeedEvent(event, newIdx, oldIdx) <==> k < n;
    forall j: nat | j < n && event == Plus(oldIdx, j) ensures j == k {
      assert Ahead(Plus(oldIdx, j), oldIdx) == j;
    }
  }

  function Sum(steps: seq<nat>): nat {
    if steps == [] then 0 else steps[0] + Sum(steps[1..])
  }

  /** How many of the batches fire when the index advances by each in turn. */
  function Fired(event: nat, idx: nat, steps: seq<nat>): nat
    decreases |steps|
  {
    if steps == [] then 0
    else (if NeedEvent(event, (idx + steps[0]) % U16, idx) then 1 else 0)
         + Fired(event, (idx + steps[0]) % U16, steps[1..])
  }

  /** Any run of fewer than 2^16 increments, split into batches in any way:
      exactly one batch fires if the event lies in the run, none otherwise. */
  lemma {:induction false} ExactlyOneBatchFires(event: nat, idx: nat, steps: seq<nat>)
    requires event < U16 && idx < U16 && Sum(steps) < U16
    ensures Fired(event, idx, steps) == if Ahead(event, idx) < Sum(steps) then 1 else 0
    decreases |steps|
  {
    if steps != [] {
      var s := steps[0];
      var next := (idx + s) % U16;
      BatchWindow(event, idx, s);
      ExactlyOneBatchFires(event, next, steps[1..]);
      BatchAhead(event, idx, s);
    }
  }

  lemma BatchWindow(event: nat, idx: nat, s: nat)
    requires event < U16 && idx < U16 && s < U16
    ensures NeedEvent(event, (idx + s) % U16, idx) <==> Ahead(event, idx) < s
  {
  }

  lemma BatchAhead(event: nat, idx: nat, s: nat)
    requires event < U16 && idx < U16 && s < U16
    ensures Ahead(event, idx) >= s ==> Ahead(event, (idx + s) % U16) == Ahead(event, idx) - s
    ensures Ahead(event, idx) < s ==> Ahead(event, (idx + s) % U16) == Ahead(event, idx) + U16 - s
  {
  }
}
