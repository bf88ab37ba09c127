/** Natural powers and the source's square-and-multiply, sums, the division facts
    behind enumerations and ring slots, and C's conversion of a real to an integer. */
module Arithmetic {

  function Pow(b: nat, e: nat): nat {
    if e == 0 then 1 else b * Pow(b, e - 1)
  }

  /** A product kept out of the solver's sight where only its steps matter. */
  function Times(x: nat, p: nat): (r: nat)
    ensures x == 0 ==> r == 0
  {
    MulNonNegative(x, p);
    x * p
  }

  lemma PowTimes(b: nat, e: nat)
    requires e > 0
    ensures Pow(b, e) == Times(b, Pow(b, e - 1))
  {
  }

  lemma MulAssociative(x: int, y: int, z: int)
    ensures x * (y * z) == (x * y) * z
  {
  }

  lemma NextMultiple(i: int, p: int)
    ensures (i + 1) * p == i * p + p
  {
  }

  lemma {:induction false} PowPositive(b: nat, e: nat)
    requires b > 0
    ensures Pow(b, e) > 0
  {
    if e > 0 {
      PowPositive(b, e - 1);
    }
  }

  lemma {:induction false} PowAdd(b: nat, x: nat, y: nat)
    ensures Pow(b, x + y) == Pow(b, x) * Pow(b, y)
  {
    if x > 0 {
      PowAdd(b, x - 1, y);
      assert Pow(b, x + y) == b * Pow(b, x - 1 + y);
      MulAssociative(b, Pow(b, x - 1), Pow(b, y));
    }
  }

  lemma {:induction false} PowSquare(b: nat, e: nat)
    ensures Pow(b * b, e) == Pow(b, 2 * e)
  {
    if e > 0 {
      PowSquare(b, e - 1);
      assert Pow(b, 2 * e) == b * Pow(b, 2 * e - 1) == b * (b * Pow(b, 2 * (e - 1)));
      MulAssociative(b, b, Pow(b, 2 * (e - 1)));
    }
  }

  lemma MulNonNegative(x: nat, d: nat)
    ensures x * d >= 0
  {
  }

  lemma MulGap(x: int, y: int, d: nat)
    ensures x < y ==> x * d + d <= y * d
    ensures x > y ==> y * d + d <= x * d
  {
    if x < y {
      MulNonNegative(y - x - 1, d);
      assert (y - x - 1) * d == y * d - x * d - d;
    } else if x > y {
      MulNonNegative(x - y - 1, d);
      assert (x - y - 1) * d == x * d - y * d - d;
    }
  }

  lemma BandUnique(d: nat, q: int, r: nat, q': int, r': nat)
    requires r < d && r' < d && q * d + r == q' * d + r'
    ensures q == q' && r == r'
  {
    MulGap(q, q', d);
  }

  lemma DivModParts(n: int, d: nat)
    requires d > 0
    ensures n == (n / d) * d + n % d && 0 <= n % d < d
  {
  }

  /** A quotient and remainder are determined by `n == q * d + r`. */
  lemma DivModUnique(n: nat, d: nat, q: nat, r: nat)
    requires r < d && n == q * d + r
    ensures n / d == q && n % d == r
  {
    DivModParts(n, d);
    BandUnique(d, n / d, n % d, q, r);
  }

  lemma MulLess(x: nat, y: nat, d: nat)
    requires x < y
    ensures x * d + d <= y * d
  {
    MulGap(x, y, d);
  }

  function Sum(s: seq<int>): (total: int)
    ensures (forall i :: 0 <= i < |s| ==> s[i] >= 0) ==> total >= 0
  {
    if s == [] then 0 else Sum(s[..|s| - 1]) + s[|s| - 1]
  }

  // ---------------------------------------------------------------- ring slots

  /** The ring slot of the `n`-th item. */
  function Slot(n: nat, d: nat): (slot: nat)
    requires d > 0
    ensures slot < d
  {
    n % d
  }

  lemma SlotOf(n: nat, d: nat, q: nat, r: nat)
    requires r < d && n == q * d + r
    ensures Slot(n, d) == r
  {
    DivModUnique(n, d, q, r);
  }

  /** Two items less than `d` apart never share a slot. */
  lemma SlotsApart(a: nat, b: nat, d: nat)
    requires 0 < b - a < d
    ensures Slot(a, d) != Slot(b, d)
  {
    DivModParts(a, d);
    DivModParts(b, d);
    MulGap(a / d, b / d, d);
  }

  /** The increment-then-wrap of every ring index in the source. */
  lemma SlotNext(n: nat, d: nat)
    requires d > 0
    ensures Slot(n + 1, d) == if Slot(n, d) + 1 == d then 0 else Slot(n, d) + 1
  {
    var q, r := n / d, n % d;
    DivModParts(n, d);
    if r + 1 == d {
      NextMultiple(q, d);
      DivModUnique(n + 1, d, q + 1, 0);
    } else {
      DivModUnique(n + 1, d, q, r + 1);
    }
  }

  /** Slots repeat every `d`. */
  lemma SlotRepeats(n: nat, d: nat)
    requires d > 0
    ensures Slot(n + d, d) == Slot(n, d)
  {
    DivModParts(n, d);
    NextMultiple(n / d, d);
    DivModUnique(n + d, d, n / d + 1, n % d);
  }

  lemma SlotSmall(i: nat, d: nat)
    requires i < d
    ensures Slot(i, d) == i
  {
    SlotOf(i, d, 0, i);
  }

  /** The items of the current round of the ring lie in order from slot 0. */
  lemma SlotInRound(n: nat, i: nat, d: nat)
    requires d > 0 && i < d
    ensures n - Slot(n, d) >= 0 && Slot(n - Slot(n, d) + i, d) == i
  {
    DivModParts(n, d);
    DivModUnique(n - n % d + i, d, n / d, i);
  }

  lemma WrapTest(i: nat, d: nat)
    requires 0 < i <= d
    ensures i % d == 0 <==> i == d
  {
    if i < d {
      DivModUnique(i, d, 0, i);
    }
  }

  /** `ipow`: the bits of the exponent from the least significant one up. */
  method Ipow(base: nat, exp: nat) returns (result: nat)
    ensures result == Pow(base, exp)
  {
    result := 1;
    var b: nat, e: nat := base, exp;
    while e != 0
      invariant result * Pow(b, e) == Pow(base, exp)
    {
      ghost var h := e / 2;
      PowSquare(b, h);
      if e % 2 == 1 {
        assert Pow(b, e) == b * Pow(b, 2 * h);
        MulAssociative(result, b, Pow(b, 2 * h));
        result := result * b;
      }
      e := e / 2;
      b := b * b;
    }
  }

  // ---------------------------------------------------------------- truncation

  /** Conversion to an integer drops the fraction, towards zero. */
  function Truncate(x: real): int {
    if x >= 0.0 then x.Floor else -(-x).Floor
  }

  lemma TruncateClose(x: real)
    ensures -1.0 < Truncate(x) as real - x < 1.0
  {
  }

  lemma TruncateWhole(n: int)
    ensures Truncate(n as real) == n
  {
  }
}
