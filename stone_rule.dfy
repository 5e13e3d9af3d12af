/**
 * The rule that rewrites one stone into its successors on every blink:
 * 0 becomes 1, a value with an even number of decimal digits splits into
 * its high and low halves, and every other value is multiplied by 2024
 * (in 64-bit arithmetic).
 */
module StoneRule {
  import opened Bits

  /** 10 to the power i. */
  function Pow10(i: nat): (r: nat)
    ensures r >= 1
  {
    if i == 0 then 1 else 10 * Pow10(i - 1)
  }

  /** Number of decimal digits of s; 0 is written with one digit. */
  function Digits(s: nat): nat
  {
    if s < 10 then 1 else 1 + Digits(s / 10)
  }

  /** The stones one stone turns into after a single blink. */
  function Successors(v: U64): (r: seq<U64>)
    ensures 1 <= |r| <= 2
  {
    if v == 0 then [1]
    else if Digits(v) % 2 == 1 then [(2024 * v) % TWO_64]
    else
      var m := Pow10(Digits(v) / 2);
      SplitFits(v, m);
      [v / m, v % m]
  }

  /** Both halves of a split of a word are words. */
  lemma SplitFits(v: U64, m: nat)
    requires m >= 1
    ensures v / m < TWO_64 && v % m < TWO_64
  {
    var q, r := v / m, v % m;
    assert v == m * q + r;
    if q > 0 {
      MulAtLeast(q, m);
    }
  }

  lemma {:induction false} Pow10Add(a: nat, b: nat)
    ensures Pow10(a + b) == Pow10(a) * Pow10(b)
    decreases a
  {
    if a > 0 {
      Pow10Add(a - 1, b);
      assert Pow10(a + b) == 10 * Pow10(a - 1 + b);
    }
  }

  lemma {:induction false} Pow10Increasing(a: nat, b: nat)
    requires a < b
    ensures Pow10(a) < Pow10(b)
    decreases b
  {
    if a < b - 1 {
      Pow10Increasing(a, b - 1);
    }
  }

  /** A number has D digits exactly when it lies between 10^(D-1) and 10^D (0 below 10). */
  lemma {:induction false} DigitsBounds(s: nat)
    ensures Digits(s) >= 1
    ensures s < Pow10(Digits(s))
    ensures s >= 1 ==> Pow10(Digits(s) - 1) <= s
    decreases s
  {
    if s >= 10 {
      DigitsBounds(s / 10);
    }
  }

  /** The converse of DigitsBounds: the bounds determine the digit count. */
  lemma {:induction false} DigitsOfRange(s: nat, d: nat)
    requires 1 <= d && Pow10(d - 1) <= s < Pow10(d)
    ensures Digits(s) == d
    decreases d
  {
    if d == 1 {
      assert s < 10;
    } else {
      assert Pow10(d - 1) == 10 * Pow10(d - 2);
      assert s >= 10 by { Pow10Increasing(0, d - 1); }
      DigitsOfRange(s / 10, d - 1);
    }
  }

  lemma Pow10Literals()
    ensures Pow10(19) == 10000000000000000000
    ensures Pow10(20) == 100000000000000000000
  {
    assert Pow10(1) == 10;
    assert Pow10(2) == 100;
    assert Pow10(3) == 1000;
    assert Pow10(4) == 10000;
    assert Pow10(5) == 100000;
    Pow10Add(5, 5);
    Pow10Add(10, 10);
    Pow10Add(4, 5);
    Pow10Add(10, 9);
  }

  /** A 64-bit word has at most 20 decimal digits. */
  lemma WordDigits(s: U64)
    ensures Digits(s) <= 20
  {
    DigitsBounds(s);
    Pow10Literals();
    if Digits(s) > 20 {
      Pow10Increasing(20, Digits(s) - 1);
    }
  }

  lemma DivBounds(v: nat, m: nat, lo: nat, hi: nat)
    requires m >= 1 && lo * m <= v < hi * m
    ensures lo <= v / m < hi
    ensures (v / m) * m + v % m == v && v % m < m
  {
    var q := v / m;
    assert v == m * q + v % m;
    assert q * m == m * q;
    if q < lo {
      assert m * (lo - q) >= m by { MulAtLeast(m, lo - q); }
    }
  }

  /**
   * When v has an even number 2h of digits, the split gives a high half of
   * exactly h digits and a low half below 10^h, and the two put back
   * together are v.
   */
  lemma SplitHalves(v: U64)
    requires v != 0 && Digits(v) % 2 == 0
    ensures var h := Digits(v) / 2;
            var r := Successors(v);
            && |r| == 2
            && r[0] * Pow10(h) + r[1] == v
            && Digits(r[0]) == h
            && r[1] < Pow10(h)
  {
    var h := Digits(v) / 2;
    HalvesOf(v, h);
    SplitCase(v, Pow10(h));
  }

  /** Dividing a number of 2h digits by 10^h leaves a quotient of h digits and a remainder below 10^h. */
  lemma HalvesOf(v: nat, h: nat)
    requires v >= 1 && Digits(v) == 2 * h
    ensures var m := Pow10(h); Digits(v / m) == h && v % m < m && (v / m) * m + v % m == v
  {
    var m := Pow10(h);
    EvenDigitsRange(v, h);
    DivBounds(v, m, Pow10(h - 1), m);
    DigitsOfRange(v / m, h);
  }

  /** A number of 2h digits lies between 10^(h-1) * 10^h and 10^h * 10^h. */
  lemma EvenDigitsRange(v: nat, h: nat)
    requires v >= 1 && Digits(v) == 2 * h
    ensures h >= 1 && Pow10(h - 1) * Pow10(h) <= v < Pow10(h) * Pow10(h)
  {
    DigitsBounds(v);
    Pow10Add(h, h);
    Pow10Add(h - 1, h);
  }

  /** The branch of a blink that multiplies: an odd number of digits. */
  lemma GrowCase(v: U64)
    requires v != 0 && Digits(v) % 2 == 1
    ensures Successors(v) == [(2024 * v) % TWO_64]
  {
  }

  /** The branch of a blink that splits: an even number of digits, split at 10^(digits/2). */
  lemma SplitCase(v: U64, m: nat)
    requires v != 0 && Digits(v) % 2 == 0 && m == Pow10(Digits(v) / 2)
    ensures Successors(v) == [v / m, v % m]
  {
  }

  /** `count_digits`: the number of decimal digits, counted by repeated division by 10. */
  method CountDigits(stone: U64) returns (result: int)
    ensures result == Digits(stone)
  {
    result := 1;
    var s := stone;
    while s >= 10
      invariant result - 1 + Digits(s) == Digits(stone)
    {
      result := result + 1;
      s := s / 10;
    }
  }

  /** `digit_multiply`: 10 to the power i in 64-bit arithmetic (1 when i is not positive). */
  method DigitMultiply(i: int) returns (result: U64)
    ensures result == Pow10(if i < 0 then 0 else i) % TWO_64
  {
    result := 1;
    var j := 0;
    assert result == Pow10(0) % TWO_64;
    while j < i
      invariant 0 <= j <= (if i < 0 then 0 else i)
      invariant result == Pow10(j) % TWO_64
    {
      MulTenMod(Pow10(j));
      result := (result * 10) % TWO_64;
      j := j + 1;
    }
  }

  /** Reducing modulo 2^64 before a multiplication by ten does not change the reduced product. */
  lemma MulTenMod(a: nat)
    ensures (a % TWO_64 * 10) % TWO_64 == (a * 10) % TWO_64
  {
    var q, r := a / TWO_64, a % TWO_64;
    var q', r' := (r * 10) / TWO_64, (r * 10) % TWO_64;
    assert a * 10 == TWO_64 * (10 * q + q') + r';
    DivModUnique(a * 10, TWO_64, 10 * q + q', r');
  }

  /** Every power 10^i that `digit_multiply` is asked for in a blink fits in a word. */
  lemma SmallPowerFits(i: nat)
    requires i <= 19
    ensures Pow10(i) % TWO_64 == Pow10(i)
  {
    Pow10Literals();
    if i < 19 {
      Pow10Increasing(i, 19);
    }
  }
}

