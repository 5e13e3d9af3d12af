/**
 * Fixed-width unsigned words and the bit mask that the count table uses to
 * pick a home slot.
 */
module Bits {

  const TWO_64: int := 0x1_0000_0000_0000_0000

  /** An unsigned 64-bit word (`uint64_t`). */
  type U64 = x: nat | x < TWO_64

  /** Bitwise AND of two naturals, one binary digit at a time. */
  function And(a: nat, b: nat): nat
    decreases a
  {
    if a == 0 || b == 0 then 0
    else 2 * And(a / 2, b / 2) + (if a % 2 == 1 && b % 2 == 1 then 1 else 0)
  }

  /** n is 1, 2, 4, 8, ... */
  ghost predicate IsPow2(n: nat)
  {
    n == 1 || (n >= 2 && n % 2 == 0 && IsPow2(n / 2))
  }

  /** A power of two of at least 8 is a multiple of 4. */
  lemma Pow2Quarter(n: nat) returns (quarter: nat)
    requires IsPow2(n) && n >= 8
    ensures n == 4 * quarter
  {
    assert IsPow2(n / 2);
    quarter := n / 4;
  }

  /** A positive multiple of a positive number is at least that number. */
  lemma {:induction false} MulAtLeast(d: int, k: int)
    requires 0 < d && 1 <= k
    ensures d * k >= d
    decreases k
  {
    if k > 1 {
      MulAtLeast(d, k - 1);
      assert d * k == d * (k - 1) + d;
    }
  }

  /** Euclidean division is unique: a quotient and remainder in range are the ones. */
  lemma DivModUnique(x: int, d: int, q: int, r: int)
    requires 0 < d && 0 <= r < d && x == d * q + r
    ensures x / d == q && x % d == r
  {
    var q', r' := x / d, x % d;
    assert x == d * q' + r';
    assert d * (q - q') == r' - r;
    if q' < q {
      MulAtLeast(d, q - q');
    } else if q < q' {
      MulAtLeast(d, q' - q);
    }
  }

  /** Reducing the left operand modulo 2^64 before an addition does not change the reduced sum. */
  lemma AddMod(r: nat, a: nat, c: nat)
    requires r == a % TWO_64
    ensures (r + c) % TWO_64 == (a + c) % TWO_64
  {
    var q := a / TWO_64;
    var q', r' := (r + c) / TWO_64, (r + c) % TWO_64;
    assert a + c == TWO_64 * (q + q') + r';
    DivModUnique(a + c, TWO_64, q + q', r');
  }

  /** Stepping one slot forward modulo n wraps from the last slot to slot 0. */
  lemma NextMod(i: nat, n: nat)
    requires i < n
    ensures (i + 1) % n == if i + 1 < n then i + 1 else 0
  {
    if i + 1 < n {
      DivModUnique(i + 1, n, 0, i + 1);
    } else {
      DivModUnique(i + 1, n, 1, 0);
    }
  }

  /** A remainder by 2m is assembled from the remainder of the halved value by m and the low bit. */
  lemma ModDouble(x: nat, m: nat)
    requires m >= 1
    ensures x % (2 * m) == 2 * ((x / 2) % m) + x % 2
  {
    var q, a := x / 2, (x / 2) / m;
    var b := q % m;
    assert q == m * a + b;
    assert x == (2 * m) * a + (2 * b + x % 2);
    DivModUnique(x, 2 * m, a, 2 * b + x % 2);
  }

  /** Masking with capacity - 1 picks the remainder by capacity when capacity is a power of two. */
  lemma {:induction false} MaskIsMod(x: nat, n: nat)
    requires IsPow2(n)
    ensures And(x, n - 1) == x % n
    decreases n
  {
    if n == 1 {
      assert And(x, 0) == 0;
    } else if x == 0 {
      assert And(0, n - 1) == 0;
    } else {
      var m := n / 2;
      assert (n - 1) / 2 == m - 1 && (n - 1) % 2 == 1;
      assert And(x, n - 1) == 2 * And(x / 2, m - 1) + x % 2;
      MaskIsMod(x / 2, m);
      ModDouble(x, m);
    }
  }

  /** `x & (n - 1)` for a power of two n: the remainder of x by n. */
  function Mask(x: nat, n: nat): (r: nat)
    requires IsPow2(n)
    ensures r == x % n
  {
    MaskIsMod(x, n);
    And(x, n - 1)
  }
}
