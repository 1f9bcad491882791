/** Model of base/bits.h: binary logarithms of 32-bit words, rounded down and up. */
module Bits {

  type Uint32 = x: int | 0 <= x < 0x1_0000_0000

  function Pow2(e: nat): (p: nat)
    ensures p > 0
  {
    if e == 0 then 1 else 2 * Pow2(e - 1)
  }

  lemma {:induction false} Pow2Adds(a: nat, b: nat)
    ensures Pow2(a + b) == Pow2(a) * Pow2(b)
  {
    if a > 0 {
      Pow2Adds(a - 1, b);
    }
  }

  lemma {:induction false} Pow2Grows(a: nat, b: nat)
    requires a < b
    ensures Pow2(a) < Pow2(b)
  {
    if a < b - 1 {
      Pow2Grows(a, b - 1);
    }
  }

  /** Shifting value right by `shift` is dividing it. */
  function ShiftRight(value: Uint32, shift: nat): (x: Uint32)
    ensures x * Pow2(shift) <= value < (x + 1) * Pow2(shift)
  {
    QuotientFits(value, Pow2(shift));
    value / Pow2(shift)
  }

  lemma QuotientFits(value: nat, d: nat)
    requires d > 0
    ensures 0 <= value / d <= value
    ensures value / d * d <= value < (value / d + 1) * d
  {
    var q := value / d;
    assert value == d * q + value % d;
    assert q * d == d * q && (q + 1) * d == d * q + d;
    AtLeastOnce(q, d);
  }

  lemma AtLeastOnce(q: int, d: nat)
    requires d > 0 && 0 < (q + 1) * d
    ensures 0 <= q <= q * d
  {
    NotPositive(q + 1, d);
  }

  lemma NotPositive(a: int, d: nat)
    ensures a <= 0 ==> a * d <= 0
  {
  }

  /** value is what is left of n once its `log` low bits are gone. */
  ghost predicate IsShifted(n: Uint32, value: Uint32, log: nat) {
    value * Pow2(log) <= n < (value + 1) * Pow2(log)
  }

  lemma ShiftFurther(n: Uint32, value: Uint32, log: nat, shift: nat)
    requires IsShifted(n, value, log)
    ensures IsShifted(n, ShiftRight(value, shift), log + shift)
  {
    hide Pow2;
    var x, p, q := ShiftRight(value, shift), Pow2(shift), Pow2(log);
    Pow2Adds(log, shift);
    MultiplyBoth(x * p, value, q);
    MultiplyBoth(value + 1, (x + 1) * p, q);
    assert x * p * q == x * Pow2(log + shift);
    assert (x + 1) * p * q == (x + 1) * Pow2(log + shift);
  }

  lemma MultiplyBoth(a: nat, b: nat, q: nat)
    requires a <= b
    ensures a * q <= b * q
  {
  }

  lemma ShiftedIsSmall(value: Uint32, shift: nat)
    requires value < Pow2(shift + shift)
    ensures ShiftRight(value, shift) < Pow2(shift)
  {
    hide Pow2;
    var x := ShiftRight(value, shift);
    Pow2Adds(shift, shift);
    if x >= Pow2(shift) {
      MultiplyBoth(Pow2(shift), x, Pow2(shift));
    }
  }

  lemma Pow2Doubles(e: nat)
    ensures Pow2(e + 1) == Pow2(e) + Pow2(e)
  {
  }

  lemma WordWidth()
    ensures Pow2(5) == 32 && Pow2(32) == 0x1_0000_0000
    ensures Pow2(0) == 1 && Pow2(1) == 2
  {
    Pow2Adds(16, 16);
    Pow2Adds(8, 8);
  }

  method Log2Floor(n: Uint32) returns (log: int)
    ensures n == 0 ==> log == -1
    ensures n > 0 ==> 0 <= log < 32 && Pow2(log) <= n < Pow2(log + 1)
  {
    hide Pow2;
    if n == 0 {
      return -1;
    }
    log := 0;
    var value: Uint32 := n;
    WordWidth();
    var i := 4;
    while i >= 0
      invariant -1 <= i <= 4 && log >= 0
      invariant IsShifted(n, value, log) && 1 <= value < Pow2(Pow2(i + 1))
      invariant log + Pow2(i + 1) <= 32
    {
      Pow2Doubles(i);
      var shift := Pow2(i);
      var x := ShiftRight(value, shift);
      if x != 0 {
        ShiftFurther(n, value, log, shift);
        ShiftedIsSmall(value, shift);
        value := x;
        log := log + shift;
      }
      i := i - 1;
    }
    assert value == 1;
    Pow2Doubles(log);
  }

  // The logarithm is the only number within its bounds.
  lemma FloorIsUnique(n: Uint32, r: nat, s: nat)
    requires Pow2(r) <= n < Pow2(r + 1) && Pow2(s) <= n < Pow2(s + 1)
    ensures r == s
  {
    hide Pow2;
    if r + 1 < s {
      Pow2Grows(r + 1, s);
    }
    if s + 1 < r {
      Pow2Grows(s + 1, r);
    }
  }

  // The least power of two that reaches n is one past the greatest that does not exceed n - 1.
  lemma LeastPower(n: Uint32, r: nat, k: nat)
    requires n > 1 && Pow2(r) <= n - 1 < Pow2(r + 1)
    ensures n <= Pow2(k) <==> r + 1 <= k
  {
    hide Pow2;
    if r + 1 < k {
      Pow2Grows(r + 1, k);
    }
    if k < r {
      Pow2Grows(k, r);
    }
  }

  method Log2Ceiling(n: Uint32) returns (log: int)
    ensures n == 0 ==> log == -1
    ensures n > 0 ==> log >= 0 && forall k: nat :: n <= Pow2(k) <==> log <= k
  {
    if n == 0 {
      return -1;
    } else {
      var floor := Log2Floor(n - 1);
      log := 1 + floor;
      if n > 1 {
        forall k: nat ensures n <= Pow2(k) <==> log <= k {
          LeastPower(n, floor, k);
        }
      }
    }
  }
}
