// Greatest common divisors, as the stats passes need them: a reference gcd with
// its defining property, and the binary gcd of the CPU writer and of the GPU
// kernel, both shown to compute it.
//
// Divisibility, gcd and quotient are repeated subtraction.
module BinaryGcd {
  import opened Bits
  import opened Wire

  predicate Divides(d: nat, x: nat)
    decreases x
  {
    x == 0 || (0 < d <= x && Divides(d, x - d))
  }

  function Gcd(a: nat, b: nat): nat
    decreases a + b
  {
    if a == 0 then b else if b == 0 then a
    else if a >= b then Gcd(a - b, b) else Gcd(a, b - a)
  }

  function Quotient(x: nat, d: nat): nat
    decreases x
  {
    if d == 0 || x < d then 0 else 1 + Quotient(x - d, d)
  }

  lemma {:induction false} QuotientTimes(x: nat, d: nat)
    requires Divides(d, x) && d > 0
    ensures Span(d, Quotient(x, d)) == x
    decreases x
  {
    if x > 0 {
      QuotientTimes(x - d, d);
    }
  }

  lemma {:induction false} QuotientMonotone(x: nat, y: nat, d: nat)
    requires x <= y
    ensures Quotient(x, d) <= Quotient(y, d) <= y
    decreases y
  {
    if d > 0 && y >= d {
      if x >= d {
        QuotientMonotone(x - d, y - d, d);
      } else {
        QuotientMonotone(0, y - d, d);
      }
    }
  }

  lemma {:induction false} DividesAdd(d: nat, x: nat, y: nat)
    requires Divides(d, x)
    ensures Divides(d, x + y) <==> Divides(d, y)
    decreases x
  {
    if x > 0 {
      DividesAdd(d, x - d, y);
    }
  }

  lemma DividesSelf(d: nat)
    ensures Divides(d, d)
  {
  }

  // The defining property: the divisors of gcd(a, b) are the common divisors.
  lemma {:induction false} GcdDivisors(a: nat, b: nat, d: nat)
    ensures Divides(d, Gcd(a, b)) <==> Divides(d, a) && Divides(d, b)
    decreases a + b
  {
    if a > 0 && b > 0 {
      if a >= b {
        GcdDivisors(a - b, b, d);
        if Divides(d, b) {
          DividesAdd(d, b, a - b);
        }
      } else {
        GcdDivisors(a, b - a, d);
        if Divides(d, a) {
          DividesAdd(d, a, b - a);
        }
      }
    }
  }

  ghost predicate SameDivisors(x: nat, y: nat) {
    forall d: nat :: Divides(d, x) <==> Divides(d, y)
  }

  lemma {:induction false} DividesBound(d: nat, x: nat)
    requires Divides(d, x) && x > 0
    ensures 0 < d <= x
  {
  }

  // Numbers with the same divisors are the same number.
  lemma DivisorsDetermine(x: nat, y: nat)
    requires SameDivisors(x, y)
    ensures x == y
  {
    DividesSelf(x);
    DividesSelf(y);
    assert Divides(x, y) && Divides(y, x);
    // Everything divides 0, but y + 1 does not divide a positive y.
    assert x == 0 ==> Divides(y + 1, x);
    assert y == 0 ==> Divides(x + 1, y);
  }

  lemma GcdCommutes(a: nat, b: nat)
    ensures Gcd(a, b) == Gcd(b, a)
  {
    forall d: nat ensures Divides(d, Gcd(a, b)) <==> Divides(d, Gcd(b, a)) {
      GcdDivisors(a, b, d);
      GcdDivisors(b, a, d);
    }
    DivisorsDetermine(Gcd(a, b), Gcd(b, a));
  }

  lemma GcdOfOne(b: nat)
    ensures Gcd(1, b) == 1
  {
    GcdDivisors(1, b, Gcd(1, b));
    DividesSelf(Gcd(1, b));
    DividesBound(Gcd(1, b), 1);
  }

  // The gcd of the first n numbers; 0 for none.
  function GcdAll(v: seq<nat>): nat {
    if |v| == 0 then 0 else Gcd(GcdAll(v[..|v| - 1]), v[|v| - 1])
  }

  lemma {:induction false} GcdAllDivisors(v: seq<nat>, d: nat)
    ensures Divides(d, GcdAll(v)) <==> forall i :: 0 <= i < |v| ==> Divides(d, v[i])
  {
    if |v| > 0 {
      var w := v[..|v| - 1];
      GcdAllDivisors(w, d);
      GcdDivisors(GcdAll(w), v[|v| - 1], d);
      assert forall i :: 0 <= i < |w| ==> w[i] == v[i];
    }
  }

  // ----- powers of two ------------------------------------------------------------

  lemma {:induction false} GcdDouble(a: nat, b: nat)
    ensures Gcd(2 * a, 2 * b) == 2 * Gcd(a, b)
    decreases a + b
  {
    if a > 0 && b > 0 {
      if a >= b {
        GcdDouble(a - b, b);
        assert 2 * a - 2 * b == 2 * (a - b);
      } else {
        GcdDouble(a, b - a);
        assert 2 * b - 2 * a == 2 * (b - a);
      }
    }
  }

  lemma {:induction false} EvenDivisor(d: nat, x: nat)
    requires Divides(d, x) && d % 2 == 0
    ensures x % 2 == 0
    decreases x
  {
    if x > 0 {
      EvenDivisor(d, x - d);
    }
  }

  lemma {:induction false} OddDivisor(d: nat, b: nat)
    requires d % 2 == 1
    ensures Divides(d, 2 * b) <==> Divides(d, b)
    decreases b
  {
    if b >= d {
      OddDivisor(d, b - d);
      assert 2 * b - d - d == 2 * (b - d);
    } else if b > 0 && 2 * b >= d {
      assert 0 < 2 * b - d < d;
    }
  }

  // A factor 2 of one side only does not matter.
  lemma GcdOddHalf(a: nat, b: nat)
    requires a % 2 == 1
    ensures Gcd(a, 2 * b) == Gcd(a, b)
  {
    forall d: nat ensures Divides(d, Gcd(a, 2 * b)) <==> Divides(d, Gcd(a, b)) {
      GcdDivisors(a, 2 * b, d);
      GcdDivisors(a, b, d);
      if Divides(d, a) {
        if d % 2 == 0 {
          EvenDivisor(d, a);
        }
        OddDivisor(d, b);
      }
    }
    DivisorsDetermine(Gcd(a, 2 * b), Gcd(a, b));
  }

  function TrailingZeros(x: nat): nat {
    if x == 0 || x % 2 == 1 then 0 else 1 + TrailingZeros(x / 2)
  }

  // `x >> x.trailing_zeros()`: the odd part.
  lemma {:induction false} OddPart(x: nat)
    requires x > 0
    ensures Shr(x, TrailingZeros(x)) % 2 == 1
    ensures 0 < Shr(x, TrailingZeros(x)) <= x
    ensures x == Shl(Shr(x, TrailingZeros(x)), TrailingZeros(x))
  {
    if x % 2 == 0 {
      OddPart(x / 2);
    }
  }

  lemma {:induction false} GcdOddShl(a: nat, b: nat, s: nat)
    requires a % 2 == 1
    ensures Gcd(a, Shl(b, s)) == Gcd(a, b)
    decreases s
  {
    if s > 0 {
      GcdOddShl(a, b, s - 1);
      GcdOddHalf(a, Shl(b, s - 1));
    }
  }

  // Dividing one side by all its factors of two, once the other side is odd.
  lemma GcdStrip(a: nat, b: nat)
    requires a % 2 == 1 && b > 0
    ensures Gcd(a, Shr(b, TrailingZeros(b))) == Gcd(a, b)
  {
    OddPart(b);
    GcdOddShl(a, Shr(b, TrailingZeros(b)), TrailingZeros(b));
  }

  // The common power of two comes out in front.
  lemma {:induction false} GcdCommonShift(a: nat, b: nat)
    requires a > 0 && b > 0
    ensures Gcd(a, b) == Shl(Gcd(Shr(a, TrailingZeros(a)), b), TrailingZeros(Or(a, b)))
    decreases a + b
  {
    var p := Shr(a, TrailingZeros(a));
    if a % 2 == 0 && b % 2 == 0 {
      GcdCommonShift(a / 2, b / 2);
      GcdDouble(a / 2, b / 2);
      assert Or(a, b) == 2 * Or(a / 2, b / 2);
      OrPositive(a / 2, b / 2);
      OddPart(a / 2);
      assert p == Shr(a / 2, TrailingZeros(a / 2));
      GcdOddHalf(p, b / 2);
    } else {
      assert Or(a, b) % 2 == 1;
      OddPart(a);
      if a % 2 == 0 {
        GcdCommutes(a, b);
        GcdOddShl(b, p, TrailingZeros(a));
        GcdCommutes(b, p);
      }
    }
  }

  lemma OrPositive(a: nat, b: nat)
    requires a > 0
    ensures Or(a, b) > 0
    decreases a + b
  {
    if b > 0 && a % 2 == 0 && b % 2 == 0 {
      OrPositive(a / 2, b / 2);
    }
  }

  lemma GcdSubtract(a: nat, b: nat)
    requires a <= b
    ensures Gcd(a, b - a) == Gcd(a, b)
  {
    forall d: nat ensures Divides(d, Gcd(a, b - a)) <==> Divides(d, Gcd(a, b)) {
      GcdDivisors(a, b - a, d);
      GcdDivisors(a, b, d);
      if Divides(d, a) {
        DividesAdd(d, a, b - a);
      }
    }
    DivisorsDetermine(Gcd(a, b - a), Gcd(a, b));
  }

  // ----- the two binary gcds -----------------------------------------------------

  function Abs(x: int): nat { if x < 0 then -x else x }

  // i64::MIN has no magnitude to return; the caller's range test excludes it.
  method GcdCompute(a0: i64, b0: i64) returns (g: nat)
    requires a0 > -TWO_63 && b0 > -TWO_63
    ensures g == Gcd(Abs(a0), Abs(b0))
  {
    var a: nat, b: nat := if a0 < 0 then -a0 else a0, if b0 < 0 then -b0 else b0;
    if a == 0 {
      return b;
    }
    if b == 0 {
      return a;
    }
    var shift := TrailingZeros(Or(a, b));
    GcdCommonShift(a, b);
    OddPart(a);
    a := Shr(a, TrailingZeros(a));
    while true
      invariant a % 2 == 1 && b > 0
      invariant Gcd(Abs(a0), Abs(b0)) == Shl(Gcd(a, b), shift)
      decreases a + b
    {
      OddPart(b);
      GcdStrip(a, b);
      b := Shr(b, TrailingZeros(b));
      if a == b {
        assert Gcd(a, b) == a;
        break;
      }
      if a > b {
        GcdCommutes(a, b);
        a, b := b, a;
      }
      if a == 1 {
        GcdOfOne(b);
        break;
      }
      GcdSubtract(a, b);
      b := b - a;
    }
    return Shl(a, shift);
  }

  // The kernel's `bin_gcd`, on unsigned magnitudes up to 2^63.
  method BinGcd(a: nat, b: nat) returns (g: nat)
    ensures g == Gcd(a, b)
  {
    var x, y := a, b;
    if x == 0 {
      return y;
    }
    if y == 0 {
      return x;
    }
    var shift := TrailingZeros(Or(x, y));
    GcdCommonShift(x, y);
    OddPart(x);
    x := Shr(x, TrailingZeros(x));
    while y != 0
      invariant x % 2 == 1
      invariant Gcd(a, b) == Shl(Gcd(x, y), shift)
      decreases x + y
    {
      OddPart(y);
      GcdStrip(x, y);
      y := Shr(y, TrailingZeros(y));
      if x > y {
        GcdCommutes(x, y);
        x, y := y, x;
      }
      GcdSubtract(x, y);
      y := y - x;
    }
    return Shl(x, shift);
  }
}
