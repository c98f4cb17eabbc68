// Lanes in a 32-bit word: masking, shifting, or-ing and adding several short
// numbers at once. A word is the number its lanes spell in base 2^size; each
// operation acts lane by lane while no lane overflows into the next.
module Swar {
  import opened Bits
  import opened Wire

  // ----- bitwise operations on adjacent fields --------------------------------------

  lemma AndZero(a: nat)
    ensures And(a, 0) == 0 && And(0, a) == 0
  {
  }

  lemma AndBit(a: nat, b: nat)
    ensures And(a, b) == 2 * And(a / 2, b / 2) + (if a % 2 == 1 && b % 2 == 1 then 1 else 0)
  {
    if a == 0 || b == 0 {
      AndZero(a / 2);
      AndZero(b / 2);
    }
  }

  lemma OrBit(a: nat, b: nat)
    ensures Or(a, b) == 2 * Or(a / 2, b / 2) + (if a % 2 == 1 || b % 2 == 1 then 1 else 0)
  {
    if a == 0 {
      assert Or(0, b / 2) == b / 2;
    }
  }

  lemma {:induction false} AndFields(a: nat, b: nat, c: nat, d: nat, k: nat)
    requires a < Pow2(k) && c < Pow2(k)
    ensures And(a + Shl(b, k), c + Shl(d, k)) == And(a, c) + Shl(And(b, d), k)
    decreases k
  {
    hide And;
    if k > 0 {
      AndFields(a / 2, b, c / 2, d, k - 1);
      AndBit(a + Shl(b, k), c + Shl(d, k));
      AndBit(a, c);
      assert (a + Shl(b, k)) / 2 == a / 2 + Shl(b, k - 1) && (c + Shl(d, k)) / 2 == c / 2 + Shl(d, k - 1);
    } else {
      AndZero(0);
    }
  }

  lemma {:induction false} OrFields(a: nat, b: nat, c: nat, d: nat, k: nat)
    requires a < Pow2(k) && c < Pow2(k)
    ensures Or(a + Shl(b, k), c + Shl(d, k)) == Or(a, c) + Shl(Or(b, d), k)
    decreases k
  {
    hide Or;
    if k > 0 {
      OrFields(a / 2, b, c / 2, d, k - 1);
      OrBit(a + Shl(b, k), c + Shl(d, k));
      OrBit(a, c);
      assert (a + Shl(b, k)) / 2 == a / 2 + Shl(b, k - 1) && (c + Shl(d, k)) / 2 == c / 2 + Shl(d, k - 1);
    } else {
      OrBit(0, 0);
    }
  }

  lemma {:induction false} AndShifted(y: nat, m: nat, s: nat)
    ensures And(y, Shl(m, s)) == Shl(And(Shr(y, s), m), s)
    decreases s
  {
    hide And;
    if s > 0 {
      AndShifted(y / 2, m, s - 1);
      AndBit(y, Shl(m, s));
    }
  }

  function Ones(b: nat): nat { if b == 0 then 0 else 1 + 2 * Ones(b - 1) }

  lemma {:induction false} OnesIs(b: nat)
    ensures Ones(b) + 1 == Pow2(b)
  {
    if b > 0 {
      OnesIs(b - 1);
    }
  }

  lemma {:induction false} AndOnes(x: nat, b: nat)
    ensures And(x, Ones(b)) == Low(x, b)
    decreases b
  {
    hide And;
    if b > 0 {
      AndOnes(x / 2, b - 1);
      AndBit(x, Ones(b));
    } else {
      AndZero(x);
    }
  }

  lemma ShlBelow(v: nat, w: nat, n: nat)
    requires v < Pow2(w)
    ensures Shl(v, n) < Pow2(w + n)
  {
    ShlAdd(v, 1, n);
    ShlMonotone(v + 1, Pow2(w), n);
    Pow2Add(w, n);
    Pow2Add(0, n);
  }

  // ----- lanes -----------------------------------------------------------------------

  // The mask with the low b bits of every lane: mask8, mask16, mask32.
  function Mask(size: nat, b: nat, lanes: nat): nat
    decreases lanes
  {
    if lanes == 0 then 0 else Ones(b) + Shl(Mask(size, b, lanes - 1), size)
  }

  function Map(f: nat -> nat, v: seq<nat>): (r: seq<nat>)
    ensures |r| == |v| && forall k :: 0 <= k < |v| ==> r[k] == f(v[k])
  {
    seq(|v|, k requires 0 <= k < |v| => f(v[k]))
  }

  function Field(s: nat, b: nat): nat -> nat { l => Low(Shr(l, s), b) }

  lemma MapTail(f: nat -> nat, v: seq<nat>)
    requires v != []
    ensures Map(f, v)[0] == f(v[0]) && Map(f, v)[1..] == Map(f, v[1..])
  {
  }

  // (x >> s) & mask, lane by lane.
  lemma {:induction false} FieldLanes(v: seq<nat>, size: nat, s: nat, b: nat)
    requires Fits(v, size) && s + b <= size
    ensures And(Shr(Stream(v, size), s), Mask(size, b, |v|)) == Stream(Map(Field(s, b), v), size)
  {
    hide And, Shr, Shl, Low, Pow2, Ones;
    if v == [] {
      AndZero(Shr(0, s));
    } else {
      var rest := Stream(v[1..], size);
      var x, k := Shr(v[0], s), size - s;
      FieldLanes(v[1..], size, s, b);
      MapTail(Field(s, b), v);
      ShrAddShl(v[0], rest, size, s);
      ShrBelow(v[0], size, s);
      OnesIs(b);
      Pow2Monotone(b, k);
      ShlShl(Mask(size, b, |v| - 1), s, k);
      AndFields(x, rest, Ones(b), Shl(Mask(size, b, |v| - 1), s), k);
      AndShifted(rest, Mask(size, b, |v| - 1), s);
      ShlShl(And(Shr(rest, s), Mask(size, b, |v| - 1)), s, k);
      AndOnes(x, b);
    }
  }

  function Left(b: nat): nat -> nat { l => Shl(l, b) }

  lemma {:induction false} ShlSwap(x: nat, a: nat, b: nat)
    ensures Shl(Shl(x, a), b) == Shl(Shl(x, b), a)
  {
    ShlShl(x, a, b);
    ShlShl(x, b, a);
  }

  lemma {:induction false} LeftLanes(v: seq<nat>, size: nat, b: nat)
    ensures Shl(Stream(v, size), b) == Stream(Map(Left(b), v), size)
  {
    hide Shl;
    if v == [] {
      ShlZero(b);
    } else {
      LeftLanes(v[1..], size, b);
      MapTail(Left(b), v);
      ShlAdd(v[0], Shl(Stream(v[1..], size), size), b);
      ShlSwap(Stream(v[1..], size), size, b);
    }
  }

  function Both(f: (nat, nat) -> nat, u: seq<nat>, v: seq<nat>): (r: seq<nat>)
    requires |u| == |v|
    ensures |r| == |v| && forall k :: 0 <= k < |v| ==> r[k] == f(u[k], v[k])
  {
    seq(|v|, k requires 0 <= k < |v| => f(u[k], v[k]))
  }

  const OR := (a: nat, b: nat) => Or(a, b)
  const PLUS := (a: nat, b: nat) => a + b

  lemma BothTail(f: (nat, nat) -> nat, u: seq<nat>, v: seq<nat>)
    requires |u| == |v| > 0
    ensures Both(f, u, v)[0] == f(u[0], v[0]) && Both(f, u, v)[1..] == Both(f, u[1..], v[1..])
  {
  }

  lemma {:induction false} OrLanes(u: seq<nat>, v: seq<nat>, size: nat)
    requires |u| == |v| && Fits(u, size) && Fits(v, size)
    ensures Or(Stream(u, size), Stream(v, size)) == Stream(Both(OR, u, v), size)
  {
    hide Or, Shl, Pow2;
    if u == [] {
      OrBit(0, 0);
    } else {
      OrLanes(u[1..], v[1..], size);
      BothTail(OR, u, v);
      OrFields(u[0], Stream(u[1..], size), v[0], Stream(v[1..], size), size);
    }
  }

  lemma {:induction false} PlusLanes(u: seq<nat>, v: seq<nat>, size: nat)
    requires |u| == |v|
    ensures Stream(u, size) + Stream(v, size) == Stream(Both(PLUS, u, v), size)
  {
    hide Shl;
    if u == [] {
      ShlZero(size);
    } else {
      PlusLanes(u[1..], v[1..], size);
      BothTail(PLUS, u, v);
      ShlAdd(Stream(u[1..], size), Stream(v[1..], size), size);
    }
  }

  // ----- arithmetic shift ---------------------------------------------------------------

  // `x >> s` on the i32 with bit pattern x.
  function Sar(x: nat, s: nat): nat
    requires s <= 32
  {
    if x < TWO_31 then Shr(x, s) else Shr(x, s) + Shl(Ones(s), 32 - s)
  }

  // Bits the sign fills in are masked off again.
  lemma SarMasked(x: nat, s: nat, m: nat)
    requires x < TWO_32 && s <= 32 && m < Pow2(32 - s)
    ensures And(Sar(x, s), m) == And(Shr(x, s), m)
  {
    hide And, Shr, Shl, Pow2;
    if x >= TWO_31 {
      Pow2Values();
      ShrBelow(x, 32, s);
      AndFields(Shr(x, s), Ones(s), m, 0, 32 - s);
      ShlZero(32 - s);
      AndZero(Ones(s));
      AndFields(Shr(x, s), 0, m, 0, 32 - s);
    }
  }

  // The mask leaves the top of its top lane free.
  lemma {:induction false} MaskBound(size: nat, b: nat, lanes: nat, top: nat)
    requires b <= size && lanes > 0 && top == Span(size, lanes - 1) + b
    ensures Mask(size, b, lanes) < Pow2(top)
    decreases lanes
  {
    hide Pow2, Shl;
    OnesIs(b);
    if lanes > 1 {
      MaskBound(size, b, lanes - 1, top - size);
      ShlBelow(Mask(size, b, lanes - 1), top - size, size);
      Pow2Monotone(b, size);
      FieldUnder(Ones(b), Mask(size, b, lanes - 1), size, top);
    } else {
      ShlZero(size);
    }
  }

  lemma FieldUnder(a: nat, b: nat, k: nat, top: nat)
    requires k <= top && a < Pow2(k) && b < Pow2(top - k)
    ensures a + Shl(b, k) < Pow2(top)
  {
    ShlAdd(b, 1, k);
    ShlMonotone(b + 1, Pow2(top - k), k);
    Pow2Add(top - k, k);
    Pow2Add(0, k);
  }

  // ----- bits, most significant first ---------------------------------------------------

  function ToBits(x: nat, w: nat): (b: seq<nat>)
    ensures |b| == w
    decreases w
  {
    if w == 0 then [] else ToBits(x / 2, w - 1) + [x % 2]
  }

  function FromBits(b: seq<nat>): nat {
    if b == [] then 0 else 2 * FromBits(b[..|b| - 1]) + b[|b| - 1]
  }

  lemma {:induction false} FromToBits(x: nat, w: nat)
    ensures FromBits(ToBits(x, w)) == Low(x, w)
    decreases w
  {
    if w > 0 {
      FromToBits(x / 2, w - 1);
      assert ToBits(x, w)[..w - 1] == ToBits(x / 2, w - 1);
    }
  }

  // Equal bits, equal low parts.
  lemma SameBits(x: nat, y: nat, w: nat)
    requires ToBits(x, w) == ToBits(y, w)
    ensures Low(x, w) == Low(y, w)
  {
    FromToBits(x, w);
    FromToBits(y, w);
  }

  lemma {:induction false} BitsSuffix(x: nat, w: nat, m: nat)
    requires m <= w
    ensures ToBits(x, w)[w - m..] == ToBits(x, m)
    decreases m
  {
    if m > 0 {
      BitsSuffix(x / 2, w - 1, m - 1);
      assert ToBits(x, w)[w - m..] == ToBits(x / 2, w - 1)[w - m..] + [x % 2];
    }
  }

  lemma {:induction false} BitsPrefix(x: nat, w: nat, s: nat)
    requires s <= w
    ensures ToBits(x, w)[..w - s] == ToBits(Shr(x, s), w - s)
    decreases s
  {
    if s > 0 {
      BitsPrefix(x / 2, w - 1, s - 1);
      assert ToBits(x, w)[..w - s] == ToBits(x / 2, w - 1)[..w - s];
    }
  }

  // The bits of fields of w bits, one after the other.
  function Concat(v: seq<nat>, w: nat): seq<nat> {
    if v == [] then [] else ToBits(v[0], w) + Concat(v[1..], w)
  }

  // A short field at the head of a longer one.
  lemma HeadShort(x: nat, m: nat, r: seq<nat>, y: nat, n: nat, s: seq<nat>)
    requires m <= n && ToBits(x, m) + r == ToBits(y, n) + s
    ensures Low(x, m) == Low(Shr(y, n - m), m) && r == ToBits(y, n - m) + s
  {
    BitsPrefix(y, n, n - m);
    BitsSuffix(y, n, n - m);
    assert ToBits(x, m) == (ToBits(x, m) + r)[..m] == ToBits(y, n)[..m];
    SameBits(x, Shr(y, n - m), m);
    assert r == (ToBits(x, m) + r)[m..] == (ToBits(y, n) + s)[m..] == ToBits(y, n)[m..] + s;
  }

  // A long field whose head is a shorter one.
  lemma HeadLong(x: nat, m: nat, r: seq<nat>, y: nat, n: nat, s: seq<nat>)
    requires n <= m && ToBits(x, m) + r == ToBits(y, n) + s
    ensures Low(Shr(x, m - n), n) == Low(y, n) && ToBits(x, m - n) + r == s
  {
    HeadShort(y, n, s, x, m, r);
  }
}
