/** Fixed-width arithmetic as the C sources use it: widths are explicit, `&` is
    defined on the binary digits of naturals, and masks are related to `%`. */
module Words {

  const U16: nat := 0x1_0000
  const U32: nat := 0x1_0000_0000
  const U64: nat := 0x1_0000_0000_0000_0000

  type Byte = x: int | 0 <= x < 256

  const BUF_SIZE: nat := 512   // RPMSG_BUF_SIZE

  /** C's `&` on non-negative operands, digit by digit. */
  function BitAnd(x: nat, y: nat): (r: nat)
    ensures r <= x && r <= y
  {
    if x == 0 || y == 0 then 0
    else 2 * BitAnd(x / 2, y / 2) + (if x % 2 == 1 && y % 2 == 1 then 1 else 0)
  }

  /** C's `|` on non-negative operands. */
  function BitOr(x: nat, y: nat): nat { x + y - BitAnd(x, y) }

  predicate IsPow2(n: nat) {
    n == 1 || (n > 0 && n % 2 == 0 && IsPow2(n / 2))
  }

  lemma MulGap(d: int, n: nat)
    ensures d > 0 ==> d * n >= n
    ensures d < 0 ==> d * n <= -(n as int)
  {
  }

  lemma ModUnique(x: int, n: nat, q: int, r: int)
    requires n > 0 && x == q * n + r && 0 <= r < n
    ensures x % n == r && x / n == q
  {
    var d := x / n - q;
    assert d * n == (x / n) * n - q * n;
    assert d * n == r - x % n;
    MulGap(d, n);
  }

  lemma DoubleMod(x: nat, h: nat)
    requires h > 0
    ensures x % (2 * h) == 2 * ((x / 2) % h) + x % 2
    ensures (x / 2) / h == x / (2 * h)
  {
    var q, r := (x / 2) / h, (x / 2) % h;
    assert x / 2 == q * h + r;
    assert x == q * (2 * h) + (2 * r + x % 2);
    ModUnique(x, 2 * h, q, 2 * r + x % 2);
  }

  lemma AndOdd(x: nat, y: nat, v: nat)
    requires y % 2 == 1 && v == BitAnd(x / 2, y / 2)
    ensures BitAnd(x, y) == 2 * v + x % 2
  {
  }

  lemma AndEven(x: nat, y: nat, v: nat)
    requires y % 2 == 0 && v == BitAnd(x / 2, y / 2)
    ensures BitAnd(x, y) == 2 * v
  {
  }

  /** `x & (n - 1)` is `x mod n` for a power of two n. */
  lemma {:induction false} MaskIsMod(x: nat, n: nat)
    requires IsPow2(n)
    ensures BitAnd(x, n - 1) == x % n
    decreases n
  {
    if n > 1 {
      var h := n / 2;
      MaskIsMod(x / 2, h);
      assert (n - 1) / 2 == h - 1 && (n - 1) % 2 == 1;
      AndOdd(x, n - 1, (x / 2) % h);
      DoubleMod(x, h);
    }
  }

  /** `x & ~(n - 1)` in a w-valued word clears exactly the remainder modulo n. */
  lemma {:induction false} ClearLowBits(x: nat, n: nat, w: nat)
    requires IsPow2(n) && IsPow2(w) && n <= w && x < w
    ensures BitAnd(x, w - n) == x - x % n
    decreases w
  {
    if n == 1 {
      AllOnes(x, w);
    } else {
      var h := n / 2;
      ClearLowBits(x / 2, h, w / 2);
      assert (w - n) / 2 == w / 2 - h && (w - n) % 2 == 0;
      AndEven(x, w - n, x / 2 - (x / 2) % h);
      DoubleMod(x, h);
    }
  }

  lemma {:induction false} AllOnes(x: nat, w: nat)
    requires IsPow2(w) && x < w
    ensures BitAnd(x, w - 1) == x
  {
    MaskIsMod(x, w);
    ModUnique(x, w, 0, x);
  }

  /** The smaller of two powers of two divides the larger. */
  lemma {:induction false} Pow2Divides(n: nat, w: nat) returns (k: nat)
    requires IsPow2(n) && IsPow2(w) && n <= w
    ensures w == k * n
    decreases w
  {
    if n == 1 {
      k := w;
    } else {
      k := Pow2Divides(n / 2, w / 2);
      assert 2 * (k * (n / 2)) == k * (2 * (n / 2));
    }
  }

  /** A free-running counter kept modulo w selects the same slot of a ring whose
      size divides w as the unbounded counter does. */
  lemma WrapThenMod(x: nat, n: nat, w: nat)
    requires IsPow2(n) && IsPow2(w) && n <= w
    ensures (x % w) % n == x % n
  {
    var k := Pow2Divides(n, w);
    Division(x, w);
    Division(x % w, n);
    Flatten(x, n, w, x % w, x / w, k, (x % w) / n, (x % w) % n);
  }

  lemma Division(x: nat, n: nat)
    requires n > 0
    ensures x == (x / n) * n + x % n && 0 <= x % n < n
  {
  }

  lemma Flatten(x: int, n: nat, w: nat, y: nat, q: int, k: int, p: int, r: int)
    requires x == q * w + y && w == k * n && y == p * n + r && 0 <= r < n
    ensures x % n == r
  {
    assert q * (k * n) == (q * k) * n;
    assert (q * k + p) * n == (q * k) * n + p * n;
    ModUnique(x, n, q * k + p, r);
  }

  lemma ModMinus(k: nat, n: nat)
    requires 0 < n <= k
    ensures (k - n) % n == k % n
  {
    ModUnique(k - n, n, k / n - 1, k % n);
  }

  lemma ModStep(x: nat, w: nat)
    requires w > 1
    ensures (x % w + 1) % w == (x + 1) % w
  {
    var q, r := x / w, x % w;
    if r + 1 < w {
      ModUnique(x + 1, w, q, r + 1);
      ModUnique(r + 1, w, 0, r + 1);
    } else {
      assert x + 1 == (q + 1) * w + 0;
      ModUnique(x + 1, w, q + 1, 0);
      ModUnique(r + 1, w, 1, 0);
    }
  }

  /** Counters closer than w agree modulo w only when they are equal. */
  lemma ModInjective(i: nat, j: nat, w: nat)
    requires w > 0 && i <= j < i + w
    ensures i % w == j % w <==> i == j
  {
    var d := j / w - i / w;
    assert d * w == (j / w) * w - (i / w) * w;
    MulGap(d, w);
  }

  lemma DifferenceMod(i: nat, j: nat, w: nat)
    requires i <= j < i + w
    ensures (j % w - i % w) % w == j - i
  {
    Division(i, w);
    Division(j, w);
    var d := j / w - i / w;
    assert d * w == (j / w) * w - (i / w) * w;
    ModUnique(j % w - i % w, w, -d, j - i);
  }

  lemma {:induction false} Pow2Product(a: nat, b: nat)
    requires IsPow2(a) && IsPow2(b)
    ensures IsPow2(a * b)
  {
    if a > 1 {
      Pow2Product(a / 2, b);
      Doubled(a, b);
    }
  }

  lemma Doubled(a: nat, b: nat)
    requires a > 0 && a % 2 == 0 && b > 0
    ensures a * b > 0 && (a * b) % 2 == 0 && (a * b) / 2 == (a / 2) * b
  {
    var h := a / 2;
    assert a * b == 2 * (h * b);
  }

  lemma U16IsPow2()
    ensures IsPow2(U16)
  {
    assert IsPow2(4);
    Pow2Product(4, 4);
    Pow2Product(16, 16);
    Pow2Product(256, 256);
  }
}
