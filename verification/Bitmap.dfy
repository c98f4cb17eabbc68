// Bitmaps as sequences of 64-bit words, seen as the ascending list of their set
// bits. Everything here adds bits in ascending order, so setting a bit appends
// to that list.
module Bitmap {
  import opened Bits
  import opened BinaryGcd

  // The set bits of one word, ascending, numbered from `base`.
  function Ones(n: nat, base: nat): seq<nat>
    decreases n
  {
    if n == 0 then [] else (if n % 2 == 1 then [base] else []) + Ones(n / 2, base + 1)
  }

  function OnesOf(words: seq<nat>, base: nat): seq<nat> {
    if words == [] then [] else Ones(words[0], base) + OnesOf(words[1..], base + 64)
  }

  function CountOnes(n: nat): nat {
    if n == 0 then 0 else n % 2 + CountOnes(n / 2)
  }

  function CountOnesOf(words: seq<nat>): nat {
    if words == [] then 0 else CountOnes(words[0]) + CountOnesOf(words[1..])
  }

  // `words[d / 64] |= 1 << (d % 64)`
  function SetBit(words: seq<nat>, d: nat): (w: seq<nat>)
    ensures |w| == |words|
  {
    if d / 64 < |words| then words[d / 64 := Or(words[d / 64], Pow2(d % 64))] else words
  }

  ghost predicate AllBelow(s: seq<nat>, bound: nat) {
    forall i :: 0 <= i < |s| ==> s[i] < bound
  }

  ghost predicate AllFrom(s: seq<nat>, bound: nat) {
    forall i :: 0 <= i < |s| ==> bound <= s[i]
  }

  ghost predicate Words(words: seq<nat>) {
    forall i :: 0 <= i < |words| ==> words[i] < Pow2(64)
  }

  lemma {:induction false} OnesCount(n: nat, base: nat)
    ensures |Ones(n, base)| == CountOnes(n)
    decreases n
  {
    if n > 0 {
      OnesCount(n / 2, base + 1);
    }
  }

  lemma {:induction false} OnesOfCount(words: seq<nat>, base: nat)
    ensures |OnesOf(words, base)| == CountOnesOf(words)
  {
    if words != [] {
      OnesCount(words[0], base);
      OnesOfCount(words[1..], base + 64);
    }
  }

  lemma {:induction false} OnesRange(n: nat, base: nat, k: nat)
    requires n < Pow2(k)
    ensures AllFrom(Ones(n, base), base) && AllBelow(Ones(n, base), base + k)
    decreases n
  {
    if n > 0 {
      OnesRange(n / 2, base + 1, k - 1);
    }
  }

  lemma {:induction false} OnesOfRange(words: seq<nat>, base: nat)
    requires Words(words)
    ensures AllFrom(OnesOf(words, base), base)
    ensures AllBelow(OnesOf(words, base), base + 64 * |words|)
  {
    if words != [] {
      OnesRange(words[0], base, 64);
      OnesOfRange(words[1..], base + 64);
    }
  }

  lemma {:induction false} OnesNone(n: nat, base: nat)
    requires Ones(n, base) == []
    ensures n == 0
    decreases n
  {
    if n > 0 {
      OnesNone(n / 2, base + 1);
    }
  }

  // A word whose set bits all lie below k is below 2^k.
  lemma {:induction false} OnesBelow(n: nat, base: nat, k: nat)
    requires AllBelow(Ones(n, base), base + k)
    ensures n < Pow2(k)
    decreases n
  {
    hide Ones;
    if n > 0 {
      var all, rest := Ones(n, base), Ones(n / 2, base + 1);
      OnesNonEmpty(n, base);
      OnesHalf(n, base);
      assert base <= all[0] < base + k;
      forall i | 0 <= i < |rest| ensures rest[i] < base + k {
        assert rest[i] == all[|all| - |rest| + i];
      }
      OnesBelow(n / 2, base + 1, k - 1);
    }
  }

  lemma {:induction false} OnesNonEmpty(n: nat, base: nat)
    requires n > 0
    ensures Ones(n, base) != [] && AllFrom(Ones(n, base), base)
    decreases n
  {
    if n > 1 {
      OnesNonEmpty(n / 2, base + 1);
    }
  }

  // Or-ing in a bit above all others appends it.
  lemma {:induction false} OnesOrTop(n: nat, base: nat, k: nat)
    requires n < Pow2(k)
    ensures Ones(Or(n, Pow2(k)), base) == Ones(n, base) + [base + k]
    ensures Or(n, Pow2(k)) < Pow2(k + 1)
    decreases k
  {
    Pow2IsShl(k);
    OrDisjoint(n, 1, k);
    OnesAddTop(n, base, k);
  }

  lemma {:induction false} Pow2IsShl(k: nat)
    ensures Shl(1, k) == Pow2(k)
  {
    if k > 0 {
      Pow2IsShl(k - 1);
    }
  }

  lemma {:induction false} OnesAddTop(n: nat, base: nat, k: nat)
    requires n < Pow2(k)
    ensures Ones(n + Pow2(k), base) == Ones(n, base) + [base + k]
    decreases k
  {
    hide Ones;
    if k > 0 {
      OnesAddTop(n / 2, base + 1, k - 1);
      OnesHalf(n, base);
      OnesHalf(n + Pow2(k), base);
      assert Pow2(k) == 2 * Pow2(k - 1);
    } else {
      OnesHalf(1, base);
      OnesZero(base);
      OnesZero(base + 1);
    }
  }

  lemma OnesZero(base: nat)
    ensures Ones(0, base) == []
  {
  }

  lemma OnesHalf(n: nat, base: nat)
    ensures Ones(n, base) == (if n % 2 == 1 then [base] else []) + Ones(n / 2, base + 1)
  {
    if n == 0 {
      assert Ones(n, base) == [] && Ones(n / 2, base + 1) == [];
    }
  }

  lemma {:induction false} OnesOfAppend(a: seq<nat>, b: seq<nat>, base: nat)
    ensures OnesOf(a + b, base) == OnesOf(a, base) + OnesOf(b, base + 64 * |a|)
  {
    if a == [] {
      assert a + b == b;
    } else {
      assert (a + b)[1..] == a[1..] + b;
      OnesOfAppend(a[1..], b, base + 64);
    }
  }

  lemma {:induction false} OnesOfZeros(words: seq<nat>, base: nat)
    ensures OnesOf(words, base) == [] <==> forall i :: 0 <= i < |words| ==> words[i] == 0
  {
    if words != [] {
      OnesOfZeros(words[1..], base + 64);
      if Ones(words[0], base) == [] {
        OnesNone(words[0], base);
      }
      assert forall i :: 1 <= i < |words| ==> words[i] == words[1..][i - 1];
      if OnesOf(words, base) == [] {
        assert Ones(words[0], base) == [];
      }
    }
  }

  // No set bit at or above a word boundary: the words from there are zero.
  lemma WordsPart(words: seq<nat>, k: nat)
    requires k <= |words| && Words(words)
    ensures Words(words[k..])
  {
  }

  lemma NothingAbove(words: seq<nat>, k: nat, base: nat)
    requires k <= |words| && Words(words)
    requires AllBelow(OnesOf(words, base), base + 64 * k)
    ensures OnesOf(words[k..], base + 64 * k) == []
    ensures OnesOf(words[..k], base) == OnesOf(words, base)
  {
    hide OnesOf, Words;
    WordsPart(words, k);
    var low, high := OnesOf(words[..k], base), OnesOf(words[k..], base + 64 * k);
    var first := if high == [] then base else high[0];
    assert words == words[..k] + words[k..];
    OnesOfAppend(words[..k], words[k..], base);
    assert OnesOf(words, base) == low + high;
    assert high == [] || first == OnesOf(words, base)[|low|] < base + 64 * k;
    OnesOfRange(words[k..], base + 64 * k);
  }

  // Setting a bit above all others appends it to the list.
  lemma SetBitAppends(words: seq<nat>, d: nat)
    requires d / 64 < |words| && Words(words)
    requires AllBelow(OnesOf(words, 0), d)
    ensures OnesOf(SetBit(words, d), 0) == OnesOf(words, 0) + [d]
    ensures Words(SetBit(words, d))
  {
    hide Ones, OnesOf, Or, Pow2, AllBelow;
    var k, r := d / 64, d % 64;
    var head, w, tail := words[..k], words[k], words[k + 1..];
    SplitAtWord(words, k);
    OnesOfZeroTail(words, k, d);
    WordBelow(words, k, d);
    OnesOrTop(w, 64 * k, r);
    Pow2Monotone(r + 1, 64);
    var after := SetBit(words, d);
    SplitAtWord(after, k);
    assert after[..k] == head && after[k + 1..] == tail;
    assert 64 * k + r == d;
    assert OnesOf(head, 0) + ((Ones(w, 64 * k) + [d]) + []) == (OnesOf(head, 0) + (Ones(w, 64 * k) + [])) + [d];
  }

  lemma SplitAtWord(words: seq<nat>, k: nat)
    requires k < |words|
    ensures OnesOf(words, 0) ==
            OnesOf(words[..k], 0) + (Ones(words[k], 64 * k) + OnesOf(words[k + 1..], 64 * k + 64))
  {
    hide Ones, OnesOf;
    var head, tail := words[..k], words[k..];
    assert words == head + tail;
    OnesOfAppend(head, tail, 0);
    assert tail[1..] == words[k + 1..];
    OnesOfCons(tail, 64 * k);
  }

  lemma OnesOfCons(words: seq<nat>, base: nat)
    requires words != []
    ensures OnesOf(words, base) == Ones(words[0], base) + OnesOf(words[1..], base + 64)
  {
  }

  lemma OnesOfZeroTail(words: seq<nat>, k: nat, d: nat)
    requires k == d / 64 < |words| && Words(words)
    requires AllBelow(OnesOf(words, 0), d)
    ensures OnesOf(words[k + 1..], 64 * k + 64) == []
  {
    NothingAbove(words, k + 1, 0);
  }

  lemma WordBelow(words: seq<nat>, k: nat, d: nat)
    requires k == d / 64 < |words|
    requires AllBelow(OnesOf(words, 0), d)
    ensures words[k] < Pow2(d % 64)
  {
    SplitAtWord(words, k);
    var low, mid := OnesOf(words[..k], 0), Ones(words[k], 64 * k);
    var all := OnesOf(words, 0);
    forall i | 0 <= i < |mid| ensures mid[i] < 64 * k + d % 64 {
      assert mid[i] == all[|low| + i];
    }
    OnesBelow(words[k], 64 * k, d % 64);
  }

  function SetBits(words: seq<nat>, docs: seq<nat>): (w: seq<nat>)
    ensures |w| == |words|
    decreases |docs|
  {
    if docs == [] then words else SetBits(SetBit(words, docs[0]), docs[1..])
  }

  lemma {:induction false} SetBitsAppends(words: seq<nat>, docs: seq<nat>)
    requires AllBelow(docs, 64 * |words|) && Words(words)
    requires docs != [] ==> AllBelow(OnesOf(words, 0), docs[0])
    requires Ascending(docs)
    ensures OnesOf(SetBits(words, docs), 0) == OnesOf(words, 0) + docs
    ensures Words(SetBits(words, docs))
    decreases |docs|
  {
    if docs != [] {
      hide Words, OnesOf;
      SetBitAppends(words, docs[0]);
      var all := OnesOf(SetBit(words, docs[0]), 0);
      assert |docs| > 1 ==> AllBelow(all, docs[1]);
      SetBitsAppends(SetBit(words, docs[0]), docs[1..]);
      assert docs == [docs[0]] + docs[1..];
    }
  }

  lemma {:induction false} SetBitsSnoc(words: seq<nat>, docs: seq<nat>, d: nat)
    ensures SetBits(words, docs + [d]) == SetBit(SetBits(words, docs), d)
    decreases |docs|
  {
    var all := docs + [d];
    if docs == [] {
      assert all[1..] == [];
    } else {
      assert all[1..] == docs[1..] + [d];
      SetBitsSnoc(SetBit(words, docs[0]), docs[1..], d);
    }
  }

  // A word list is determined by its set bits.
  lemma {:induction false} OnesInjective(a: nat, b: nat, base: nat)
    requires Ones(a, base) == Ones(b, base)
    ensures a == b
    decreases a
  {
    if a == 0 {
      OnesNone(b, base);
    } else if b == 0 {
      OnesNone(a, base);
    } else {
      FirstBit(a, base);
      FirstBit(b, base);
      OnesInjective(a / 2, b / 2, base + 1);
    }
  }

  lemma FirstBit(n: nat, base: nat)
    requires n > 0
    ensures Ones(n, base) != []
    ensures n % 2 == 1 <==> Ones(n, base)[0] == base
    ensures Ones(n / 2, base + 1) == if n % 2 == 1 then Ones(n, base)[1..] else Ones(n, base)
  {
    OnesNonEmpty(n, base);
    if n > 1 {
      OnesNonEmpty(n / 2, base + 1);
    }
  }

  lemma {:induction false} BitmapUnique(a: seq<nat>, b: seq<nat>, base: nat)
    requires |a| == |b| && Words(a) && Words(b)
    requires OnesOf(a, base) == OnesOf(b, base)
    ensures a == b
  {
    if a != [] {
      hide Ones;
      assert SameSplit(a, b, base) by { SplitAt64(a, b, base); }
      OnesInjective(a[0], b[0], base);
      BitmapUnique(a[1..], b[1..], base + 64);
    }
  }

  ghost predicate SameSplit(a: seq<nat>, b: seq<nat>, base: nat)
    requires a != [] && b != []
  {
    Ones(a[0], base) == Ones(b[0], base) && OnesOf(a[1..], base + 64) == OnesOf(b[1..], base + 64)
  }

  // Two lists cut at the same bound are cut at the same place.
  lemma SplitAt64(a: seq<nat>, b: seq<nat>, base: nat)
    requires a != [] && b != [] && Words(a) && Words(b)
    requires OnesOf(a, base) == OnesOf(b, base)
    ensures SameSplit(a, b, base)
  {
    OnesRange(a[0], base, 64);
    OnesRange(b[0], base, 64);
    OnesOfRange(a[1..], base + 64);
    OnesOfRange(b[1..], base + 64);
    CutUnique(Ones(a[0], base), OnesOf(a[1..], base + 64),
              Ones(b[0], base), OnesOf(b[1..], base + 64), base + 64);
  }

  lemma CutUnique(p: seq<nat>, q: seq<nat>, r: seq<nat>, s: seq<nat>, cut: nat)
    requires p + q == r + s
    requires AllBelow(p, cut) && AllBelow(r, cut) && AllFrom(q, cut) && AllFrom(s, cut)
    ensures p == r && q == s
  {
    PrefixBelow(p, q, cut);
    PrefixBelow(r, s, cut);
    assert p == (p + q)[..|p|] && q == (p + q)[|p|..];
    assert r == (r + s)[..|r|] && s == (r + s)[|r|..];
  }

  function LengthBelow(s: seq<nat>, cut: nat): nat {
    if s == [] || s[0] >= cut then 0 else 1 + LengthBelow(s[1..], cut)
  }

  lemma {:induction false} PrefixBelow(p: seq<nat>, q: seq<nat>, cut: nat)
    requires AllBelow(p, cut) && AllFrom(q, cut)
    ensures LengthBelow(p + q, cut) == |p|
  {
    if p == [] {
      assert p + q == q;
    } else {
      assert (p + q)[1..] == p[1..] + q;
      PrefixBelow(p[1..], q, cut);
    }
  }

  // Renumbering the bits of a word list shifts the list.
  function Plus(s: seq<nat>, delta: nat): (t: seq<nat>)
    ensures |t| == |s|
  {
    seq(|s|, i requires 0 <= i < |s| => s[i] + delta)
  }

  lemma {:induction false} OnesShift(n: nat, base: nat, delta: nat)
    ensures Ones(n, base + delta) == Plus(Ones(n, base), delta)
    decreases n
  {
    if n > 0 {
      OnesShift(n / 2, base + 1, delta);
    }
  }

  lemma PlusAppend(a: seq<nat>, b: seq<nat>, delta: nat)
    ensures Plus(a + b, delta) == Plus(a, delta) + Plus(b, delta)
  {
  }

  lemma {:induction false} OnesOfShift(words: seq<nat>, base: nat, delta: nat)
    ensures OnesOf(words, base + delta) == Plus(OnesOf(words, base), delta)
  {
    if words != [] {
      hide Ones;
      OnesShift(words[0], base, delta);
      OnesOfShift(words[1..], base + 64, delta);
      PlusAppend(Ones(words[0], base), OnesOf(words[1..], base + 64), delta);
      assert base + 64 + delta == base + delta + 64;
    }
  }

  // ----- walking the set bits of a word -----------------------------------------

  lemma {:induction false} AndSelf(a: nat)
    ensures And(a, a) == a
  {
    if a > 0 {
      AndSelf(a / 2);
    }
  }

  // `bits & (bits - 1)` drops the lowest set bit, which `trailing_zeros` names.
  lemma {:induction false} LowestBit(n: nat, base: nat)
    requires n > 0
    ensures Ones(n, base) == [base + TrailingZeros(n)] + Ones(And(n, n - 1), base)
    ensures And(n, n - 1) < n
    decreases n
  {
    hide Ones, And;
    AndPred(n);
    OnesEven(n / 2, base);
    if n % 2 == 0 {
      LowestBit(n / 2, base + 1);
      OnesEven(And(n / 2, n / 2 - 1), base);
    }
  }

  // Clearing the lowest bit, one bit at a time.
  lemma AndPred(n: nat)
    requires n > 0
    ensures n % 2 == 1 ==> n == 2 * (n / 2) + 1 && And(n, n - 1) == 2 * (n / 2)
    ensures n % 2 == 0 ==> n == 2 * (n / 2) && And(n, n - 1) == 2 * And(n / 2, n / 2 - 1)
  {
    hide And;
    AndSelf(n / 2);
    AndHalves(n, n - 1);
  }

  lemma AndHalves(a: nat, b: nat)
    ensures And(a, b) == 2 * And(a / 2, b / 2) + if a % 2 == 1 && b % 2 == 1 then 1 else 0
  {
  }

  lemma OnesEven(h: nat, base: nat)
    ensures Ones(2 * h, base) == Ones(h, base + 1)
    ensures Ones(2 * h + 1, base) == [base] + Ones(h, base + 1)
  {
    OnesCons(2 * h, base);
    OnesCons(2 * h + 1, base);
    hide Ones;
    assert 2 * h / 2 == h && (2 * h + 1) / 2 == h;
  }

  lemma OnesCons(n: nat, base: nat)
    ensures Ones(n, base) == (if n % 2 == 1 then [base] else []) + Ones(n / 2, base + 1)
  {
  }

}
