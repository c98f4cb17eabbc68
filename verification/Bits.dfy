// Unsigned words as natural numbers: shifts, masks, bitwise or, and the one
// fact every packed layout in this project rests on -- a run of `w`-bit values
// is a number written in base 2^w, so regrouping it into bytes or 64-bit words
// is writing the same number in another base.
module Bits {
  type byte = x: nat | x < 256
  type u64 = x: nat | x < 0x1_0000_0000_0000_0000

  ghost predicate Ascending(s: seq<int>) {
    forall i, j :: 0 <= i < j < |s| ==> s[i] < s[j]
  }

  lemma Assoc<T>(a: seq<T>, b: seq<T>, c: seq<T>)
    ensures (a + b) + c == a + (b + c)
  {
  }

  // ----- shifts and masks, one bit at a time --------------------------------

  function Shl(x: nat, s: nat): nat
    decreases s
  {
    if s == 0 then x else 2 * Shl(x, s - 1)
  }

  function Shr(x: nat, s: nat): nat
    decreases s
  {
    if s == 0 then x else Shr(x / 2, s - 1)
  }

  // The low `w` bits: `x & ((1 << w) - 1)`.
  function Low(x: nat, w: nat): nat
    decreases w
  {
    if w == 0 then 0 else x % 2 + 2 * Low(x / 2, w - 1)
  }

  function Pow2(n: nat): (p: nat)
    ensures p > 0
  {
    if n == 0 then 1 else 2 * Pow2(n - 1)
  }

  function Or(a: nat, b: nat): nat
    decreases a + b
  {
    if a == 0 then b
    else if b == 0 then a
    else 2 * Or(a / 2, b / 2) + (if a % 2 == 1 || b % 2 == 1 then 1 else 0)
  }

  function And(a: nat, b: nat): nat
    decreases a
  {
    if a == 0 || b == 0 then 0
    else 2 * And(a / 2, b / 2) + (if a % 2 == 1 && b % 2 == 1 then 1 else 0)
  }

  lemma {:induction false} ShrShr(x: nat, a: nat, b: nat)
    ensures Shr(Shr(x, a), b) == Shr(x, a + b)
    decreases a
  {
    if a > 0 {
      ShrShr(x / 2, a - 1, b);
    }
  }

  lemma {:induction false} ShlShl(x: nat, a: nat, b: nat)
    ensures Shl(Shl(x, a), b) == Shl(x, a + b)
    decreases b
  {
    if b > 0 {
      ShlShl(x, a, b - 1);
    }
  }

  lemma {:induction false} ShlAdd(x: nat, y: nat, s: nat)
    ensures Shl(x + y, s) == Shl(x, s) + Shl(y, s)
    decreases s
  {
    if s > 0 {
      ShlAdd(x, y, s - 1);
    }
  }

  lemma {:induction false} ShlZero(s: nat)
    ensures Shl(0, s) == 0
    decreases s
  {
    if s > 0 {
      ShlZero(s - 1);
    }
  }

  lemma {:induction false} ShrZero(s: nat)
    ensures Shr(0, s) == 0
    decreases s
  {
    if s > 0 {
      ShrZero(s - 1);
    }
  }

  lemma {:induction false} Pow2Add(a: nat, b: nat)
    ensures Pow2(a + b) == Shl(Pow2(a), b)
    decreases b
  {
    if b > 0 {
      Pow2Add(a, b - 1);
    }
  }

  lemma {:induction false} Pow2Monotone(a: nat, b: nat)
    requires a <= b
    ensures Pow2(a) <= Pow2(b)
    decreases b
  {
    if a < b {
      Pow2Monotone(a, b - 1);
    }
  }

  lemma {:induction false} ShlMonotone(x: nat, y: nat, s: nat)
    requires x <= y
    ensures Shl(x, s) <= Shl(y, s)
    decreases s
  {
    if s > 0 {
      ShlMonotone(x, y, s - 1);
    }
  }

  lemma {:induction false} LowBound(x: nat, w: nat)
    ensures Low(x, w) < Pow2(w)
    decreases w
  {
    if w > 0 {
      LowBound(x / 2, w - 1);
    }
  }

  // Below 2^w, masking changes nothing and shifting leaves nothing.
  lemma {:induction false} LowSmall(x: nat, w: nat)
    requires x < Pow2(w)
    ensures Low(x, w) == x && Shr(x, w) == 0
    decreases w
  {
    if w > 0 {
      LowSmall(x / 2, w - 1);
    }
  }

  lemma {:induction false} LowShr(x: nat, w: nat)
    ensures x == Low(x, w) + Shl(Shr(x, w), w)
    decreases w
  {
    if w > 0 {
      LowShr(x / 2, w - 1);
    }
  }

  // Two adjacent fields come apart again.
  lemma {:induction false} JoinSplit(lo: nat, hi: nat, w: nat)
    requires lo < Pow2(w)
    ensures Low(lo + Shl(hi, w), w) == lo && Shr(lo + Shl(hi, w), w) == hi
    decreases w
  {
    if w > 0 {
      JoinSplit(lo / 2, hi, w - 1);
      assert (lo + Shl(hi, w)) / 2 == lo / 2 + Shl(hi, w - 1);
    }
  }

  lemma {:induction false} OrDisjoint(lo: nat, hi: nat, w: nat)
    requires lo < Pow2(w)
    ensures Or(lo, Shl(hi, w)) == lo + Shl(hi, w)
    decreases w
  {
    if w > 0 {
      OrDisjoint(lo / 2, hi, w - 1);
      assert Shl(hi, w) / 2 == Shl(hi, w - 1);
      if lo / 2 == 0 {
        assert Or(lo, Shl(hi, w)) == lo + Shl(hi, w);
      }
    }
  }

  // A field of `w` bits at offset `s` only depends on the low `s + w` bits.
  lemma {:induction false} FieldOfLow(x: nat, a: nat, s: nat, w: nat)
    requires s + w <= a
    ensures Low(Shr(Low(x, a), s), w) == Low(Shr(x, s), w)
    decreases a
  {
    if s > 0 {
      FieldOfLow(x / 2, a - 1, s - 1, w);
    } else if w > 0 {
      FieldOfLow(x / 2, a - 1, 0, w - 1);
    }
  }

  lemma {:induction false} LowAdd(x: nat, a: nat, b: nat)
    ensures Low(x, a + b) == Low(x, a) + Shl(Low(Shr(x, a), b), a)
    decreases a
  {
    if a > 0 {
      LowAdd(x / 2, a - 1, b);
    }
  }

  lemma {:induction false} ShrAddShl(a: nat, x: nat, b: nat, d: nat)
    requires d <= b
    ensures Shr(a + Shl(x, b), d) == Shr(a, d) + Shl(x, b - d)
    decreases d
  {
    if d > 0 {
      assert (a + Shl(x, b)) / 2 == a / 2 + Shl(x, b - 1);
      ShrAddShl(a / 2, x, b - 1, d - 1);
    }
  }

  lemma {:induction false} ShrBelow(a: nat, b: nat, d: nat)
    requires a < Pow2(b) && d <= b
    ensures Shr(a, d) < Pow2(b - d)
    decreases d
  {
    if d > 0 {
      ShrBelow(a / 2, b - 1, d - 1);
    }
  }

  lemma Pow2Values()
    ensures Pow2(0) == 1 && Pow2(1) == 2 && Pow2(4) == 16 && Pow2(6) == 64 && Pow2(8) == 256
    ensures Pow2(16) == 0x1_0000 && Pow2(32) == 0x1_0000_0000
    ensures Pow2(31) == 0x8000_0000 && Pow2(63) == 0x8000_0000_0000_0000
    ensures Pow2(64) == 0x1_0000_0000_0000_0000
  {
    assert Pow2(8) == 256;
    assert Pow2(12) == 4096;
    assert Pow2(16) == 0x1_0000;
    assert Pow2(24) == 0x100_0000;
    assert Pow2(31) == 0x8000_0000;
    assert Pow2(40) == 0x100_0000_0000;
    assert Pow2(48) == 0x1_0000_0000_0000;
    assert Pow2(56) == 0x100_0000_0000_0000;
    assert Pow2(63) == 0x8000_0000_0000_0000;
  }

  // More distinct items than places taken: one item is not taken.
  lemma {:induction false} Pigeonhole(items: seq<nat>, taken: seq<nat>) returns (i: nat)
    requires |taken| < |items| && forall a, b :: 0 <= a < b < |items| ==> items[a] != items[b]
    ensures i < |items| && items[i] !in taken
    decreases |items|
  {
    i := |items| - 1;
    if items[i] in taken {
      var j :| 0 <= j < |taken| && taken[j] == items[i];
      var fewer := taken[..j] + taken[j + 1..];
      var last := items[i];
      i := Pigeonhole(items[..i], fewer);
      assert forall x :: x in taken && x != last ==> x in fewer;
    }
  }

  // ----- division by a variable ----------------------------------------------

  lemma TimesMonotone(a: int, b: int, d: nat)
    requires a <= b
    ensures a * d <= b * d
  {
  }

  lemma DivUnique(x: int, d: nat, q: int, r: int)
    requires 0 <= r < d && x == q * d + r
    ensures x / d == q
  {
    var q', r' := x / d, x % d;
    assert x == d * q' + r';
    assert (q' + 1) * d == q' * d + d && (q + 1) * d == q * d + d;
    if q' < q {
      TimesMonotone(q' + 1, q, d);
    }
    if q < q' {
      TimesMonotone(q + 1, q', d);
    }
  }

  lemma DivStep(x: nat, d: nat)
    requires 0 < d <= x
    ensures x / d == 1 + (x - d) / d
  {
    var q, r := (x - d) / d, (x - d) % d;
    assert (q + 1) * d == q * d + d;
    DivUnique(x, d, q + 1, r);
  }

  // ----- numbers in base 2^w ------------------------------------------------

  // `w * k`, by repeated addition.
  function Span(w: nat, k: nat): nat {
    if k == 0 then 0 else w + Span(w, k - 1)
  }

  lemma {:induction false} SpanIs(w: nat, k: nat)
    ensures Span(w, k) == w * k
  {
    if k > 0 {
      SpanIs(w, k - 1);
    }
  }

  lemma {:induction false} SpanUpTo(w: nat, u: nat, n: nat)
    requires u < n
    ensures Span(w, u) + w <= Span(w, n)
    decreases n
  {
    if u < n - 1 {
      SpanUpTo(w, u, n - 1);
    }
  }

  lemma {:induction false} SpanAdd(w: nat, j: nat, k: nat)
    ensures Span(w, j + k) == Span(w, j) + Span(w, k)
  {
    if j > 0 {
      SpanAdd(w, j - 1, k);
    }
  }

  ghost predicate Fits(v: seq<nat>, w: nat) {
    forall i :: 0 <= i < |v| ==> v[i] < Pow2(w)
  }

  // The number whose i-th base-2^w digit (least significant first) is v[i].
  function Stream(v: seq<nat>, w: nat): nat {
    if |v| == 0 then 0 else v[0] + Shl(Stream(v[1..], w), w)
  }

  function Digits(n: nat, w: nat, k: nat): (d: seq<nat>)
    ensures |d| == k
    decreases k
  {
    if k == 0 then [] else [Low(n, w)] + Digits(Shr(n, w), w, k - 1)
  }

  lemma {:induction false} DigitsFit(n: nat, w: nat, k: nat)
    ensures Fits(Digits(n, w, k), w)
    decreases k
  {
    if k > 0 {
      LowBound(n, w);
      DigitsFit(Shr(n, w), w, k - 1);
    }
  }

  lemma {:induction false} StreamBound(v: seq<nat>, w: nat)
    requires Fits(v, w)
    ensures Stream(v, w) < Pow2(Span(w, |v|))
  {
    if |v| > 0 {
      StreamBound(v[1..], w);
      var s := Stream(v[1..], w);
      Pow2Add(Span(w, |v| - 1), w);
      ShlMonotone(s + 1, Pow2(Span(w, |v| - 1)), w);
      ShlAdd(s, 1, w);
      Pow2Add(0, w);
    }
  }

  lemma {:induction false} StreamAppend(a: seq<nat>, b: seq<nat>, w: nat)
    ensures Stream(a + b, w) == Stream(a, w) + Shl(Stream(b, w), Span(w, |a|))
  {
    if |a| == 0 {
      assert a + b == b;
    } else {
      assert (a + b)[1..] == a[1..] + b;
      StreamAppend(a[1..], b, w);
      var m := Span(w, |a| - 1);
      ShlAdd(Stream(a[1..], w), Shl(Stream(b, w), m), w);
      ShlShl(Stream(b, w), m, w);
    }
  }

  lemma {:induction false} StreamDigits(n: nat, w: nat, k: nat)
    ensures Stream(Digits(n, w, k), w) == Low(n, Span(w, k))
    decreases k
  {
    if k > 0 {
      StreamDigits(Shr(n, w), w, k - 1);
      assert Digits(n, w, k)[1..] == Digits(Shr(n, w), w, k - 1);
      LowAdd(n, w, Span(w, k - 1));
    }
  }

  lemma {:induction false} DigitsStream(v: seq<nat>, w: nat)
    requires Fits(v, w)
    ensures Digits(Stream(v, w), w, |v|) == v
  {
    if |v| > 0 {
      DigitsStream(v[1..], w);
      JoinSplit(v[0], Stream(v[1..], w), w);
    }
  }

  lemma {:induction false} DigitAt(n: nat, w: nat, k: nat, i: nat)
    requires i < k
    ensures Digits(n, w, k)[i] == Low(Shr(n, Span(w, i)), w)
    decreases k
  {
    if i > 0 {
      DigitAt(Shr(n, w), w, k - 1, i - 1);
      ShrShr(n, w, Span(w, i - 1));
    }
  }

  // Digits of the low part, and of the rest.
  lemma {:induction false} DigitsSplit(n: nat, w: nat, j: nat, k: nat)
    ensures Digits(n, w, j + k) == Digits(n, w, j) + Digits(Shr(n, Span(w, j)), w, k)
    decreases j
  {
    if j > 0 {
      DigitsSplit(Shr(n, w), w, j - 1, k);
      ShrShr(n, w, Span(w, j - 1));
    }
  }

  // Digits only see the part of n they cover.
  lemma DigitsLow(n: nat, w: nat, k: nat)
    ensures Digits(Low(n, Span(w, k)), w, k) == Digits(n, w, k)
  {
    StreamDigits(n, w, k);
    DigitsFit(n, w, k);
    DigitsStream(Digits(n, w, k), w);
  }

  function Zeros(k: nat): (b: seq<byte>)
    ensures |b| == k
  {
    seq(k, i => 0)
  }

  // ----- bytes ------------------------------------------------------------

  function LeBytes(n: nat, k: nat): (b: seq<byte>)
    ensures |b| == k
    decreases k
  {
    if k == 0 then [] else [n % 256] + LeBytes(n / 256, k - 1)
  }

  function LeNum(b: seq<byte>): nat {
    if |b| == 0 then 0 else b[0] + 256 * LeNum(b[1..])
  }

  lemma OctetShift(n: nat)
    ensures Low(n, 8) == n % 256 && Shr(n, 8) == n / 256 && Shl(n, 8) == 256 * n
  {
    hide *;
    Pow2Values();
    NibbleShift(n);
    NibbleShift(16 * n);
    NibbleShift(n / 256);
    NibbleShift(16 * (n / 256));
    ShlShl(n, 4, 4);
    ShlShl(n / 256, 4, 4);
    JoinSplit(n % 256, n / 256, 8);
  }

  lemma NibbleShift(n: nat)
    ensures Shl(n, 4) == 16 * n
  {
  }

  lemma {:induction false} LeBytesDigits(n: nat, k: nat)
    ensures LeBytes(n, k) == Digits(n, 8, k)
    decreases k
  {
    if k > 0 {
      OctetShift(n);
      LeBytesDigits(n / 256, k - 1);
    }
  }

  lemma {:induction false} LeNumStream(b: seq<byte>)
    ensures LeNum(b) == Stream(b, 8)
    ensures Fits(b, 8)
  {
    Pow2Values();
    if |b| > 0 {
      OctetShift(LeNum(b[1..]));
      LeNumStream(b[1..]);
    }
  }

  lemma LeNumBytes(n: nat, k: nat)
    ensures LeNum(LeBytes(n, k)) == Low(n, 8 * k)
  {
    LeBytesDigits(n, k);
    LeNumStream(LeBytes(n, k));
    StreamDigits(n, 8, k);
    SpanIs(8, k);
  }

  lemma LeNumBound(b: seq<byte>)
    ensures LeNum(b) < Pow2(8 * |b|)
  {
    LeNumStream(b);
    StreamBound(b, 8);
    SpanIs(8, |b|);
  }

  lemma LeNumAppend(a: seq<byte>, b: seq<byte>)
    ensures LeNum(a + b) == LeNum(a) + Shl(LeNum(b), 8 * |a|)
  {
    LeNumStream(a);
    LeNumStream(b);
    LeNumStream(a + b);
    StreamAppend(a, b, 8);
    SpanIs(8, |a|);
  }

  lemma LeBytesSplit(n: nat, j: nat, k: nat)
    ensures LeBytes(n, j + k) == LeBytes(n, j) + LeBytes(Shr(n, 8 * j), k)
  {
    SpanIs(8, j);
    LeBytesDigits(n, j + k);
    LeBytesDigits(n, j);
    LeBytesDigits(Shr(n, 8 * j), k);
    DigitsSplit(n, 8, j, k);
  }

  lemma LeBytesLow(n: nat, k: nat)
    ensures LeBytes(Low(n, 8 * k), k) == LeBytes(n, k)
  {
    SpanIs(8, k);
    LeBytesDigits(n, k);
    LeBytesDigits(Low(n, 8 * k), k);
    DigitsLow(n, 8, k);
  }

  lemma {:induction false} LeBytesZero(k: nat)
    ensures LeBytes(0, k) == Zeros(k)
  {
    if k > 0 {
      LeBytesZero(k - 1);
    }
  }

  // A number that fits in j bytes, written in more, gains zero bytes only.
  lemma LeBytesPad(n: nat, j: nat, k: nat)
    requires n < Pow2(8 * j)
    ensures LeBytes(n, j + k) == LeBytes(n, j) + Zeros(k)
  {
    LeBytesSplit(n, j, k);
    LowSmall(n, 8 * j);
    LeBytesZero(k);
  }
}
