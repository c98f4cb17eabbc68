// From unpacked deltas to documents: prefix sums over collapsed lanes, expansion,
// and lane offsets. Packed sums run past the sign bit, but no lane ever carries.
module ForDeltaSums {
  import opened Bits
  import opened Wire
  import opened Swar
  import opened ForDelta

  function PrimitiveFor(bpv: nat): nat { if bpv <= 3 then 8 else if bpv <= 10 then 16 else 32 }

  // The sum of the first c entries.
  function SumTo(v: seq<nat>, c: nat): nat {
    if c == 0 then 0 else SumTo(v, c - 1) + if c - 1 < |v| then v[c - 1] else 0
  }

  function Sums(v: seq<nat>): (s: seq<nat>)
    ensures |s| == |v|
  {
    seq(|v|, c requires 0 <= c < |v| => SumTo(v, c + 1))
  }

  // Lanes hold consecutive stretches of the block, the highest lane the first.
  function Stretch(deltas: seq<nat>, size: nat, k: nat): seq<nat> {
    if size == 8 && |deltas| == BLOCK then
      if k == 3 then deltas[..32] else if k == 2 then deltas[32..64] else if k == 1 then deltas[64..96] else deltas[96..]
    else if size == 16 && |deltas| == BLOCK then
      if k == 1 then deltas[..64] else deltas[64..]
    else deltas
  }

  function Stretches(deltas: seq<nat>, size: nat): (rows: seq<seq<nat>>)
    ensures |rows| == Lanes(size)
  {
    seq(Lanes(size), k requires 0 <= k => Stretch(deltas, size, k))
  }

  // The running sums of every stretch.
  function StretchSums(deltas: seq<nat>, size: nat): (rows: seq<seq<nat>>)
    ensures |rows| == Lanes(size)
  {
    seq(Lanes(size), k requires 0 <= k < Lanes(size) => Sums(Stretch(deltas, size, k)))
  }

  lemma StretchRows(deltas: seq<nat>, size: nat, bpv: nat)
    requires PrimitiveSize(size) && |deltas| == BLOCK && Fits(deltas, bpv)
    ensures Rows(Stretches(deltas, size), Lanes(size), 4 * size, bpv)
  {
    hide Pow2;
  }

  // ----- sums of lanes --------------------------------------------------------------------

  lemma {:induction false} SumBound(v: seq<nat>, c: nat, m: nat)
    requires forall i :: 0 <= i < |v| ==> v[i] <= m
    ensures SumTo(v, c) <= Span(m, c)
  {
    if c > 0 {
      SumBound(v, c - 1, m);
    }
  }

  lemma {:induction false} SpanGrows(m: nat, a: nat, b: nat)
    requires a <= b
    ensures Span(m, a) <= Span(m, b)
    decreases b
  {
    if a < b {
      SpanGrows(m, a, b - 1);
    }
  }

  lemma SmallSpans()
    ensures Span(7, 32) == 224 && Span(1023, 64) == 65472
  {
    SpanIs(7, 32);
    SpanIs(1023, 64);
  }

  // No lane carries: 32 * 7 < 2^8 and 64 * 1023 < 2^16.
  lemma NoCarry(v: seq<nat>, bpv: nat, c: nat)
    requires 0 < bpv <= 10 && Fits(v, bpv) && |v| == 4 * PrimitiveFor(bpv) && c <= |v|
    ensures SumTo(v, c) < Pow2(PrimitiveFor(bpv))
  {
    hide Pow2, Span, SumTo;
    Pow2Values();
    var m := if bpv <= 3 then 7 else 1023;
    SmallPowers();
    Pow2Monotone(bpv, if bpv <= 3 then 3 else 10);
    assert forall i :: 0 <= i < |v| ==> v[i] <= m;
    SumBound(v, c, m);
    SpanGrows(m, c, |v|);
    SmallSpans();
  }

  lemma SmallPowers()
    ensures Pow2(3) == 8 && Pow2(10) == 1024
  {
    assert Pow2(5) == 32;
  }

  // The lane is the least of 8, 16 and 32 bits in which the sum of a full stretch of the
  // largest deltas stays below the carry.
  lemma LeastLane(bpv: nat, size: nat)
    requires 0 < bpv <= 32 && (size == 8 || size == 16)
    ensures PrimitiveFor(bpv) in {8, 16, 32}
    ensures PrimitiveFor(bpv) <= size <==> 4 * size * (Pow2(bpv) - 1) < Pow2(size)
  {
    hide Pow2;
    Pow2Values();
    SmallPowers();
    assert Pow2(11) == 2048 by { TwiceTen(); }
    if size == 8 {
      Pow2Monotone(if bpv <= 3 then bpv else 4, if bpv <= 3 then 3 else bpv);
    } else {
      Pow2Monotone(if bpv <= 10 then bpv else 11, if bpv <= 10 then 10 else bpv);
    }
  }

  lemma TwiceTen()
    ensures Pow2(11) == 2048
  {
    assert Pow2(5) == 32;
  }

  function SumColumn(rows: seq<seq<nat>>, c: nat): (s: seq<nat>)
    ensures |s| == |rows|
  {
    seq(|rows|, k requires 0 <= k < |rows| => SumTo(rows[k], c))
  }

  // Adding words adds their lanes.
  lemma SumStep(rows: seq<seq<nat>>, n: nat, c: nat, size: nat)
    requires c < n && forall k :: 0 <= k < |rows| ==> |rows[k]| == n
    ensures Stream(SumColumn(rows, c), size) + WordOf(rows, c, size) == Stream(SumColumn(rows, c + 1), size)
  {
    hide Stream;
    PlusLanes(SumColumn(rows, c), Column(rows, c), size);
    var both := Both(PLUS, SumColumn(rows, c), Column(rows, c));
    assert both == SumColumn(rows, c + 1);
  }

  lemma {:induction false} ZeroStream(v: seq<nat>, size: nat)
    requires forall k :: 0 <= k < |v| ==> v[k] == 0
    ensures Stream(v, size) == 0
  {
    if v != [] {
      ZeroStream(v[1..], size);
      ShlZero(size);
    }
  }

  lemma NothingSummed(rows: seq<seq<nat>>, size: nat)
    ensures Stream(SumColumn(rows, 0), size) == 0
  {
    ZeroStream(SumColumn(rows, 0), size);
  }

  lemma LanesSmall(rows: seq<seq<nat>>, bpv: nat, c: nat)
    requires 0 < bpv <= 10 && Rows(rows, Lanes(PrimitiveFor(bpv)), 4 * PrimitiveFor(bpv), bpv) && c <= 4 * PrimitiveFor(bpv)
    ensures Fits(SumColumn(rows, c), PrimitiveFor(bpv)) && Stream(SumColumn(rows, c), PrimitiveFor(bpv)) < TWO_32
  {
    hide Pow2, Stream, SumTo, Fits;
    var size := PrimitiveFor(bpv);
    forall k | 0 <= k < |rows| ensures SumColumn(rows, c)[k] < Pow2(size) {
      NoCarry(rows[k], bpv, c);
    }
    FitsIs(SumColumn(rows, c), size);
    WordBound(SumColumn(rows, c), size);
  }

  lemma FitsIs(v: seq<nat>, w: nat)
    requires forall k :: 0 <= k < |v| ==> v[k] < Pow2(w)
    ensures Fits(v, w)
  {
  }

  function Patterns(ints: seq<i32>): (p: seq<nat>)
    ensures |p| == |ints|
  {
    seq(|ints|, i requires 0 <= i < |ints| => U32(ints[i]))
  }

  // Wrapping 32-bit prefix sums of the first n entries, in place.
  lemma NoSum(v: seq<nat>)
    ensures SumTo(v, 0) == 0
  {
  }

  lemma SumNext(v: seq<nat>, c: nat)
    requires c < |v|
    ensures SumTo(v, c + 1) == SumTo(v, c) + v[c]
  {
  }

  method WrappingPrefixSum(ints: array<i32>, n: nat, base: i32)
    requires n <= ints.Length
    modifies ints
    ensures forall i :: 0 <= i < n ==> ints[i] == I32(U32(base) + SumTo(Patterns(old(ints[..])), i + 1))
    ensures forall i :: n <= i < ints.Length ==> ints[i] == old(ints[i])
  {
    hide I32, U32, SumTo;
    ghost var was := Patterns(ints[..]);
    var sum := base;
    PatternRoundTrip(0, base);
    NoSum(was);
    for i := 0 to n
      invariant sum == I32(U32(base) + SumTo(was, i))
      invariant forall j :: 0 <= j < i ==> ints[j] == I32(U32(base) + SumTo(was, j + 1))
      invariant forall j :: i <= j < ints.Length ==> ints[j] == old(ints[j])
    {
      AddPatterns(U32(base) + SumTo(was, i), ints[i]);
      SumNext(was, i);
      sum := I32(U32(sum) + U32(ints[i]));
      ints[i] := sum;
    }
  }

  lemma AddPatterns(a: nat, x: i32)
    ensures I32(U32(I32(a)) + U32(x)) == I32(a + U32(x))
  {
  }

  // On collapsed lanes: every word holds its lanes' sums.
  lemma {:induction false} CollapsedSums(ints: seq<i32>, rows: seq<seq<nat>>, bpv: nat, c: nat)
    requires 0 < bpv <= 10 && Rows(rows, Lanes(PrimitiveFor(bpv)), 4 * PrimitiveFor(bpv), bpv)
    requires Holding(ints, rows, PrimitiveFor(bpv), 4 * PrimitiveFor(bpv)) && c <= 4 * PrimitiveFor(bpv)
    ensures SumTo(Patterns(ints), c) == Stream(SumColumn(rows, c), PrimitiveFor(bpv))
  {
    hide Stream, Rows, WordOf, U32;
    var size := PrimitiveFor(bpv);
    if c == 0 {
      NothingSummed(rows, size);
    } else {
      CollapsedSums(ints, rows, bpv, c - 1);
      RowLengths(rows, Lanes(size), 4 * size, bpv);
      SumStep(rows, 4 * size, c - 1, size);
    }
  }

  lemma RowLengths(rows: seq<seq<nat>>, lanes: nat, n: nat, w: nat)
    requires Rows(rows, lanes, n, w)
    ensures |rows| == lanes && forall k :: 0 <= k < |rows| ==> |rows[k]| == n
  {
    hide Fits;
  }

  // ----- expansion ------------------------------------------------------------------------------

  // Lane k of a word.
  lemma {:induction false} LaneAt(v: seq<nat>, size: nat, k: nat)
    requires k < |v| && Fits(v, size)
    ensures Low(Shr(Stream(v, size), Span(size, k)), size) == v[k]
    decreases k
  {
    hide Low, Shr, Shl, Pow2;
    JoinSplit(v[0], Stream(v[1..], size), size);
    if k > 0 {
      LaneAt(v[1..], size, k - 1);
      ShrShr(Stream(v, size), size, Span(size, k - 1));
    } else {
      NoShr(Stream(v, size));
    }
  }

  lemma LaneExtract(v: seq<nat>, size: nat, k: nat)
    requires (size == 8 || size == 16) && |v| == Lanes(size) && Fits(v, size) && k < |v|
    ensures And(Sar(Stream(v, size), size * k), Ones(size)) == v[k]
  {
    hide And, Sar, Ones, Stream, Low, Shr, Pow2, Span;
    WordBound(v, size);
    SpanIs(size, k);
    LaneAt(v, size, k);
    OnesIs(size);
    Pow2Monotone(size, 32 - size * k);
    SarMasked(Stream(v, size), size * k, Ones(size));
    AndOnes(Shr(Stream(v, size), size * k), size);
  }

  lemma ByteMask()
    ensures Ones(8) == 0xFF && Ones(16) == 0xFFFF
  {
    OnesIs(8);
    OnesIs(16);
    Pow2Values();
  }

  // `expand8` and `expand16`: lane k to its stretch.
  ghost predicate Expanded(ints: seq<i32>, rows: seq<seq<nat>>, size: nat, from: nat) {
    && |ints| == BLOCK && |rows| == Lanes(size)
    && (forall k :: 0 <= k < |rows| ==> |rows[k]| == 4 * size)
    && (size == 8 ==> forall i :: from <= i < 32 ==>
          ints[i] == rows[3][i] && ints[32 + i] == rows[2][i] && ints[64 + i] == rows[1][i] && ints[96 + i] == rows[0][i])
    && (size == 16 ==> forall i :: from <= i < 64 ==> ints[i] == rows[1][i] && ints[64 + i] == rows[0][i])
  }

  lemma LaneSmall(rows: seq<seq<nat>>, size: nat, i: nat, k: nat)
    requires (size == 8 || size == 16) && Rows(rows, Lanes(size), 4 * size, size) && i < 4 * size && k < Lanes(size)
    ensures And(Sar(WordOf(rows, i, size), size * k), Ones(size)) == rows[k][i] < TWO_31
  {
    hide And, Sar, Ones, Stream, Pow2, Rows;
    RowLengths(rows, Lanes(size), 4 * size, size);
    ColumnFits(rows, Lanes(size), 4 * size, size, i, size);
    LaneExtract(Column(rows, i), size, k);
    assert Column(rows, i)[k] < Pow2(size);
    Pow2Values();
  }

  method Expand8(ints: array<i32>, ghost rows: seq<seq<nat>>)
    requires ints.Length == BLOCK && Rows(rows, 4, 32, 8) && Holding(ints[..], rows, 8, 32)
    modifies ints
    ensures Expanded(ints[..], rows, 8, 0)
  {
    hide And, Sar, Rows, WordOf, Ones;
    RowLengths(rows, 4, 32, 8);
    ByteMask();
    var i := 32;
    while i > 0
      invariant i <= 32 && Expanded(ints[..], rows, 8, i) && Holding(ints[..], rows, 8, i)
    {
      i := i - 1;
      var l := U32(ints[i]);
      LaneSmall(rows, 8, i, 3);
      LaneSmall(rows, 8, i, 2);
      LaneSmall(rows, 8, i, 1);
      LaneSmall(rows, 8, i, 0);
      ints[i] := I32(And(Sar(l, 24), 0xFF));
      ints[32 + i] := I32(And(Sar(l, 16), 0xFF));
      ints[64 + i] := I32(And(Sar(l, 8), 0xFF));
      ints[96 + i] := I32(And(Sar(l, 0), 0xFF));
    }
  }

  method Expand16(ints: array<i32>, ghost rows: seq<seq<nat>>)
    requires ints.Length == BLOCK && Rows(rows, 2, 64, 16) && Holding(ints[..], rows, 16, 64)
    modifies ints
    ensures Expanded(ints[..], rows, 16, 0)
  {
    hide And, Sar, Rows, WordOf, Ones;
    RowLengths(rows, 2, 64, 16);
    ByteMask();
    var i := 64;
    while i > 0
      invariant i <= 64 && Expanded(ints[..], rows, 16, i) && Holding(ints[..], rows, 16, i)
    {
      i := i - 1;
      var l := U32(ints[i]);
      LaneSmall(rows, 16, i, 1);
      LaneSmall(rows, 16, i, 0);
      ints[i] := I32(And(Sar(l, 16), 0xFFFF));
      ints[64 + i] := I32(And(Sar(l, 0), 0xFFFF));
    }
  }

  // ----- documents ----------------------------------------------------------------------------------

  lemma {:induction false} SumSlice(v: seq<nat>, a: nat, b: nat, c: nat)
    requires a <= b <= |v| && a + c <= b
    ensures SumTo(v, a + c) == SumTo(v, a) + SumTo(v[a..b], c)
    decreases c
  {
    if c > 0 {
      SumSlice(v, a, b, c - 1);
      assert v[a..b][c - 1] == v[a + (c - 1)];
    }
  }

  lemma {:induction false} SumClimbs(v: seq<nat>, a: nat, b: nat)
    requires a <= b
    ensures SumTo(v, a) <= SumTo(v, b)
    decreases b
  {
    if a < b {
      SumClimbs(v, a, b - 1);
    }
  }

  // Where entry i of stretch k falls in the block.
  lemma StretchSum(deltas: seq<nat>, size: nat, k: nat, i: nat)
    requires (size == 8 || size == 16) && |deltas| == BLOCK && k < Lanes(size) && i <= 4 * size
    ensures var from := 4 * size * (Lanes(size) - 1 - k);
            && from + i <= BLOCK
            && SumTo(deltas, from + i) == SumTo(deltas, from) + SumTo(Stretches(deltas, size)[k], i)
            && SumTo(deltas, from + i) <= SumTo(deltas, BLOCK)
  {
    hide SumTo;
    var from := 4 * size * (Lanes(size) - 1 - k);
    assert Stretches(deltas, size)[k] == deltas[from..from + 4 * size];
    SumSlice(deltas, from, from + 4 * size, i);
    SumClimbs(deltas, from + i, BLOCK);
  }

  predicate AllOfLength(rows: seq<seq<nat>>, n: nat) { forall k :: 0 <= k < |rows| ==> |rows[k]| == n }

  // The documents from i on are final in each stretch.
  ghost predicate IsDoc(x: i32, deltas: seq<nat>, base: i32, d: nat) {
    x == base + SumTo(deltas, d + 1)
  }

  lemma SumRowAt(deltas: seq<nat>, size: nat, k: nat, i: nat)
    requires PrimitiveSize(size) && |deltas| == BLOCK && k < Lanes(size) && i < 4 * size
    ensures |StretchSums(deltas, size)[k]| == 4 * size
    ensures StretchSums(deltas, size)[k][i] == SumTo(Stretches(deltas, size)[k], i + 1)
  {
    hide SumTo;
    assert |Stretches(deltas, size)[k]| == 4 * size;
  }

  function Within(d: nat, w: nat): nat { if w == 32 then d % 32 else d % 64 }

  // Entries before i of every stretch, w wide, are documents.
  ghost predicate DocsBefore(ints: seq<i32>, deltas: seq<nat>, base: i32, w: nat, i: nat) {
    |ints| == BLOCK && forall d :: 0 <= d < BLOCK && Within(d, w) < i ==> IsDoc(ints[d], deltas, base, d)
  }

  lemma NextDocs8(before: seq<i32>, after: seq<i32>, deltas: seq<nat>, base: i32, i: nat)
    requires i < 32 && DocsBefore(before, deltas, base, 32, i) && |after| == BLOCK
    requires forall d :: 0 <= d < BLOCK && Within(d, 32) != i ==> after[d] == before[d]
    requires IsDoc(after[i], deltas, base, i) && IsDoc(after[32 + i], deltas, base, 32 + i)
    requires IsDoc(after[64 + i], deltas, base, 64 + i) && IsDoc(after[96 + i], deltas, base, 96 + i)
    ensures DocsBefore(after, deltas, base, 32, i + 1)
  {
    hide IsDoc;
    forall d | 0 <= d < BLOCK && Within(d, 32) < i + 1 ensures IsDoc(after[d], deltas, base, d) {
      if Within(d, 32) == i {
        assert d == i || d == 32 + i || d == 64 + i || d == 96 + i;
      }
    }
  }

  lemma NextDocs16(before: seq<i32>, after: seq<i32>, deltas: seq<nat>, base: i32, i: nat)
    requires i < 64 && DocsBefore(before, deltas, base, 64, i) && |after| == BLOCK
    requires forall d :: 0 <= d < BLOCK && Within(d, 64) != i ==> after[d] == before[d]
    requires IsDoc(after[i], deltas, base, i) && IsDoc(after[64 + i], deltas, base, 64 + i)
    ensures DocsBefore(after, deltas, base, 64, i + 1)
  {
    hide IsDoc;
    forall d | 0 <= d < BLOCK && Within(d, 64) < i + 1 ensures IsDoc(after[d], deltas, base, d) {
      if Within(d, 64) == i {
        assert d == i || d == 64 + i;
      }
    }
  }

  method AddOffsets8(ints: array<i32>, base: i32, ghost deltas: seq<nat>)
    requires ints.Length == BLOCK && |deltas| == BLOCK && base + SumTo(deltas, BLOCK) < TWO_31
    requires Expanded(ints[..], StretchSums(deltas, 8), 8, 0)
    modifies ints
    ensures DocsBefore(ints[..], deltas, base, 32, 32)
  {
    hide SumTo, Stretches, StretchSums, DocsBefore;
    ghost var rows := StretchSums(deltas, 8);
    Offsets(deltas, 8);
    NoDocs(ints[..], deltas, base);
    var l0 := base;
    var l1 := l0 + ints[31];
    var l2 := l1 + ints[63];
    var l3 := l2 + ints[95];
    for i := 0 to 32
      invariant Expanded(ints[..], rows, 8, i) && DocsBefore(ints[..], deltas, base, 32, i)
    {
      Entries8(deltas, i);
      ghost var before := ints[..];
      ints[i] := ints[i] + l0;
      ints[32 + i] := ints[32 + i] + l1;
      ints[64 + i] := ints[64 + i] + l2;
      ints[96 + i] := ints[96 + i] + l3;
      NextDocs8(before, ints[..], deltas, base, i);
    }
  }

  lemma NoDocs(ints: seq<i32>, deltas: seq<nat>, base: i32)
    requires |ints| == BLOCK
    ensures DocsBefore(ints, deltas, base, 32, 0) && DocsBefore(ints, deltas, base, 64, 0)
  {
  }

  lemma Entries8(deltas: seq<nat>, i: nat)
    requires |deltas| == BLOCK && i < 32
    ensures AllOfLength(StretchSums(deltas, 8), 32)
    ensures StretchSums(deltas, 8)[3][i] == SumTo(deltas, i + 1)
            && SumTo(deltas, 32) + StretchSums(deltas, 8)[2][i] == SumTo(deltas, 32 + i + 1)
            && SumTo(deltas, 64) + StretchSums(deltas, 8)[1][i] == SumTo(deltas, 64 + i + 1)
            && SumTo(deltas, 96) + StretchSums(deltas, 8)[0][i] == SumTo(deltas, 96 + i + 1)
            && SumTo(deltas, i + 1) <= SumTo(deltas, BLOCK) && SumTo(deltas, 32 + i + 1) <= SumTo(deltas, BLOCK)
            && SumTo(deltas, 64 + i + 1) <= SumTo(deltas, BLOCK) && SumTo(deltas, 96 + i + 1) <= SumTo(deltas, BLOCK)
  {
    hide SumTo, Stretches, StretchSums;
    RowsOfSums(deltas, 8);
    NoSum(deltas);
    SumRowAt(deltas, 8, 3, i);
    SumRowAt(deltas, 8, 2, i);
    SumRowAt(deltas, 8, 1, i);
    SumRowAt(deltas, 8, 0, i);
    StretchSum(deltas, 8, 3, i + 1);
    StretchSum(deltas, 8, 2, i + 1);
    StretchSum(deltas, 8, 1, i + 1);
    StretchSum(deltas, 8, 0, i + 1);
  }

  lemma RowsOfSums(deltas: seq<nat>, size: nat)
    requires PrimitiveSize(size) && |deltas| == BLOCK
    ensures AllOfLength(StretchSums(deltas, size), 4 * size)
  {
    hide SumTo;
  }

  // The last sums of the stretches.
  lemma Offsets(deltas: seq<nat>, size: nat)
    requires (size == 8 || size == 16) && |deltas| == BLOCK
    ensures AllOfLength(StretchSums(deltas, size), 4 * size)
    ensures size == 8 ==>
              && StretchSums(deltas, 8)[3][31] == SumTo(deltas, 32)
              && SumTo(deltas, 32) + StretchSums(deltas, 8)[2][31] == SumTo(deltas, 64)
              && SumTo(deltas, 64) + StretchSums(deltas, 8)[1][31] == SumTo(deltas, 96)
              && SumTo(deltas, 32) <= SumTo(deltas, BLOCK) && SumTo(deltas, 64) <= SumTo(deltas, BLOCK)
              && SumTo(deltas, 96) <= SumTo(deltas, BLOCK)
    ensures size == 16 ==>
              StretchSums(deltas, 16)[1][63] == SumTo(deltas, 64) && SumTo(deltas, 64) <= SumTo(deltas, BLOCK)
  {
    hide SumTo, Stretches, StretchSums;
    if size == 8 {
      Entries8(deltas, 31);
    } else {
      Entries16(deltas, 63);
    }
  }

  lemma Entries16(deltas: seq<nat>, i: nat)
    requires |deltas| == BLOCK && i < 64
    ensures AllOfLength(StretchSums(deltas, 16), 64)
    ensures StretchSums(deltas, 16)[1][i] == SumTo(deltas, i + 1)
            && SumTo(deltas, 64) + StretchSums(deltas, 16)[0][i] == SumTo(deltas, 64 + i + 1)
            && SumTo(deltas, i + 1) <= SumTo(deltas, BLOCK) && SumTo(deltas, 64 + i + 1) <= SumTo(deltas, BLOCK)
  {
    hide SumTo, Stretches, StretchSums;
    RowsOfSums(deltas, 16);
    NoSum(deltas);
    SumRowAt(deltas, 16, 1, i);
    SumRowAt(deltas, 16, 0, i);
    StretchSum(deltas, 16, 1, i + 1);
    StretchSum(deltas, 16, 0, i + 1);
  }

  method AddOffsets16(ints: array<i32>, base: i32, ghost deltas: seq<nat>)
    requires ints.Length == BLOCK && |deltas| == BLOCK && base + SumTo(deltas, BLOCK) < TWO_31
    requires Expanded(ints[..], StretchSums(deltas, 16), 16, 0)
    modifies ints
    ensures DocsBefore(ints[..], deltas, base, 64, 64)
  {
    hide SumTo, Stretches, StretchSums, DocsBefore;
    ghost var rows := StretchSums(deltas, 16);
    Offsets(deltas, 16);
    NoDocs(ints[..], deltas, base);
    var l0 := base;
    var l1 := base + ints[63];
    for i := 0 to 64
      invariant Expanded(ints[..], rows, 16, i) && DocsBefore(ints[..], deltas, base, 64, i)
    {
      Entries16(deltas, i);
      ghost var before := ints[..];
      ints[i] := ints[i] + l0;
      ints[64 + i] := ints[64 + i] + l1;
      NextDocs16(before, ints[..], deltas, base, i);
    }
  }

  // After the collapsed prefix sum the words hold the sums.
  lemma SummedWords(before: seq<i32>, after: seq<i32>, deltas: seq<nat>, bpv: nat)
    requires 0 < bpv <= 10 && |deltas| == BLOCK && Fits(deltas, bpv) && |before| == |after| == BLOCK
    requires var size := PrimitiveFor(bpv);
             && Holding(before, Stretches(deltas, size), size, 4 * size)
             && forall i :: 0 <= i < 4 * size ==> after[i] == I32(U32(0) + SumTo(Patterns(before), i + 1))
    ensures var size := PrimitiveFor(bpv);
            && Rows(StretchSums(deltas, size), Lanes(size), 4 * size, size)
            && Holding(after, StretchSums(deltas, size), size, 4 * size)
  {
    hide Pow2, SumTo, Stream, Rows, Fits, Stretches, StretchSums, I32;
    var size := PrimitiveFor(bpv);
    var rows := Stretches(deltas, size);
    StretchRows(deltas, size, bpv);
    RowLengths(rows, Lanes(size), 4 * size, bpv);
    forall k | 0 <= k < |rows|
      ensures StretchSums(deltas, size)[k] == Sums(rows[k]) && |Sums(rows[k])| == 4 * size && Fits(Sums(rows[k]), size)
    {
      SumsFit(rows, bpv, k);
      RowSums(deltas, size, k);
    }
    RowsAre(StretchSums(deltas, size), Lanes(size), 4 * size, size);
    forall i | 0 <= i < 4 * size ensures U32(after[i]) == WordOf(StretchSums(deltas, size), i, size) {
      CollapsedSums(before, rows, bpv, i + 1);
      LanesSmall(rows, bpv, i + 1);
      PatternRoundTrip(Stream(SumColumn(rows, i + 1), size), 0);
      assert SumColumn(rows, i + 1) == Column(StretchSums(deltas, size), i);
    }
  }

  lemma RowSums(deltas: seq<nat>, size: nat, k: nat)
    requires k < Lanes(size)
    ensures StretchSums(deltas, size)[k] == Sums(Stretches(deltas, size)[k])
  {
    hide SumTo, Stretch;
  }

  lemma RowsAre(rows: seq<seq<nat>>, lanes: nat, n: nat, w: nat)
    requires |rows| == lanes && forall k :: 0 <= k < |rows| ==> |rows[k]| == n && Fits(rows[k], w)
    ensures Rows(rows, lanes, n, w)
  {
  }

  lemma SumsFit(rows: seq<seq<nat>>, bpv: nat, k: nat)
    requires 0 < bpv <= 10 && Rows(rows, Lanes(PrimitiveFor(bpv)), 4 * PrimitiveFor(bpv), bpv) && k < |rows|
    ensures |Sums(rows[k])| == 4 * PrimitiveFor(bpv) && Fits(Sums(rows[k]), PrimitiveFor(bpv))
  {
    hide Pow2, SumTo;
    assert Fits(rows[k], bpv);
    forall c | 0 <= c < |rows[k]| ensures Sums(rows[k])[c] < Pow2(PrimitiveFor(bpv)) {
      NoCarry(rows[k], bpv, c + 1);
    }
  }

  // ----- the block ----------------------------------------------------------------------------------------

  function WordAt(bytes: seq<byte>, j: nat): nat
    requires 4 * j + 4 <= |bytes|
  {
    LeNum(bytes[4 * j..4 * j + 4])
  }

  // The lanes of the packed words.
  function LanesOf(bytes: seq<byte>, n: nat, size: nat): (rows: seq<seq<nat>>)
    requires 4 * n <= |bytes|
    ensures |rows| == Lanes(size)
  {
    seq(Lanes(size), k requires 0 <= k < Lanes(size) =>
      seq(n, j requires 0 <= j < n => Digits(WordAt(bytes, j), size, Lanes(size))[k]))
  }

  // `bytes` starts with the packed form of the deltas.
  ghost predicate Packed(bytes: seq<byte>, deltas: seq<nat>, bpv: nat) {
    && 0 < bpv <= 32 && |deltas| == BLOCK && Fits(deltas, bpv) && |bytes| >= 16 * bpv
    && var size := PrimitiveFor(bpv);
       Layout(LanesOf(bytes, 4 * bpv, size), Stretches(deltas, size), bpv, size - bpv, 0)
  }

  // With the lanes spelled out: four of 8 bits up to 3 bits a delta, two of 16 up to 10, one
  // of 32 from 11 on; the lowest lane holds the last stretch of the block.
  lemma PackedForm(bytes: seq<byte>, deltas: seq<nat>, bpv: nat)
    requires 0 < bpv <= 32 && |deltas| == 128 && Fits(deltas, bpv) && |bytes| >= 16 * bpv
    ensures bpv <= 3 ==>
              (Packed(bytes, deltas, bpv) <==>
                 Layout(LanesOf(bytes, 4 * bpv, 8), [deltas[96..128], deltas[64..96], deltas[32..64], deltas[0..32]],
                        bpv, 8 - bpv, 0))
    ensures 4 <= bpv <= 10 ==>
              (Packed(bytes, deltas, bpv) <==>
                 Layout(LanesOf(bytes, 4 * bpv, 16), [deltas[64..128], deltas[0..64]], bpv, 16 - bpv, 0))
    ensures 11 <= bpv ==>
              (Packed(bytes, deltas, bpv) <==> Layout(LanesOf(bytes, 4 * bpv, 32), [deltas], bpv, 32 - bpv, 0))
  {
    hide LanesOf, Layout, Fits;
    if bpv <= 3 {
      assert deltas[96..] == deltas[96..128] && deltas[..32] == deltas[0..32];
      assert Stretches(deltas, 8) == [deltas[96..128], deltas[64..96], deltas[32..64], deltas[0..32]];
    } else if bpv <= 10 {
      assert deltas[64..] == deltas[64..128] && deltas[..64] == deltas[0..64];
      assert Stretches(deltas, 16) == [deltas[64..128], deltas[0..64]];
    } else {
      assert Stretches(deltas, 32) == [deltas];
    }
  }

  // Value j of group t of a lane sits below t others at the top of the lane of word j.
  lemma PackedValue(bytes: seq<byte>, deltas: seq<nat>, bpv: nat, size: nat, k: nat, t: nat, j: nat)
    requires Packed(bytes, deltas, bpv)
    requires if bpv <= 3 then size == 8 && k < 4 else if bpv <= 10 then size == 16 && k < 2 else size == 32 && k == 0
    requires Span(bpv, t) + bpv <= size && j < 4 * bpv
    ensures var at := 128 - 4 * size * (k + 1) + Span(4 * bpv, t) + j;
            0 <= at < 128 && Low(Shr(WordAt(bytes, j), size * k + size - Span(bpv, t) - bpv), bpv) == deltas[at]
  {
    hide LanesOf, Low, Shr, Fits, Span, WordAt, Stretches, LaneLayout;
    StretchAt(deltas, size, k, Span(4 * bpv, t) + j);
    var row, vals := LanesOf(bytes, 4 * bpv, size)[k], Stretches(deltas, size)[k];
    var s := size - bpv - Span(bpv, t);
    LaneOf(bytes, 4 * bpv, size, k, j);
    LaneValue(row, vals, bpv, size - bpv, 0, t, j);
    FieldOfLow(Shr(WordAt(bytes, j), size * k), size, s, bpv);
    ShrShr(WordAt(bytes, j), size * k, s);
  }

  lemma StretchAt(deltas: seq<nat>, size: nat, k: nat, x: nat)
    requires |deltas| == BLOCK && PrimitiveSize(size) && k < Lanes(size)
    ensures |Stretches(deltas, size)[k]| == 4 * size
    ensures x < 4 * size ==> 0 <= 128 - 4 * size * (k + 1) + x < 128 &&
                             Stretches(deltas, size)[k][x] == deltas[128 - 4 * size * (k + 1) + x]
  {
  }

  lemma LaneOf(bytes: seq<byte>, n: nat, size: nat, k: nat, j: nat)
    requires 4 * n <= |bytes| && PrimitiveSize(size) && k < Lanes(size) && j < n
    ensures |LanesOf(bytes, n, size)[k]| == n
    ensures LanesOf(bytes, n, size)[k][j] == Low(Shr(WordAt(bytes, j), size * k), size)
  {
    hide Low, Shr, Span;
    DigitAt(WordAt(bytes, j), size, Lanes(size), k);
    SpanIs(size, k);
  }

  lemma {:induction false} LaneValue(words: seq<nat>, vals: seq<nat>, bpv: nat, shift: int, idx: nat, t: nat, j: nat)
    requires LaneLayout(words, vals, bpv, shift, idx) && Span(bpv, t) <= shift && j < |words|
    ensures idx + Span(|words|, t) + j < |vals|
    ensures Low(Shr(words[j], shift - Span(bpv, t)), bpv) == vals[idx + Span(|words|, t) + j]
    decreases t
  {
    hide Low, Shr;
    if t > 0 {
      LaneValue(words, vals, bpv, shift - bpv, idx + |words|, t - 1, j);
    }
  }

  lemma LaneRows(bytes: seq<byte>, n: nat, size: nat)
    requires 4 * n <= |bytes|
    ensures Rows(LanesOf(bytes, n, size), Lanes(size), n, size)
  {
    hide Pow2, Digits;
    var rows := LanesOf(bytes, n, size);
    forall k | 0 <= k < Lanes(size) ensures |rows[k]| == n && Fits(rows[k], size) {
      forall j | 0 <= j < n ensures rows[k][j] < Pow2(size) {
        DigitsFit(WordAt(bytes, j), size, Lanes(size));
      }
    }
  }

  // A word is made of its lanes.
  lemma WordIsLanes(bytes: seq<byte>, n: nat, size: nat, j: nat)
    requires 4 * n <= |bytes| && j < n && PrimitiveSize(size)
    ensures WordAt(bytes, j) == WordOf(LanesOf(bytes, n, size), j, size) < TWO_32
  {
    hide Pow2, Digits, Stream, Low, Span, LeNum;
    var w := WordAt(bytes, j);
    var lanes := Lanes(size);
    LeNumBound(bytes[4 * j..4 * j + 4]);
    Pow2Values();
    LanesFill(size);
    StreamDigits(w, size, lanes);
    LowSmall(w, 32);
    assert Column(LanesOf(bytes, n, size), j) == Digits(w, size, lanes);
  }

  method LoadWords(bytes: seq<byte>, bpv: nat, ghost deltas: seq<nat>) returns (ints: array<i32>)
    requires Packed(bytes, deltas, bpv)
    ensures fresh(ints) && ints.Length == BLOCK
    ensures Holding(ints[..], LanesOf(bytes, 4 * bpv, PrimitiveFor(bpv)), PrimitiveFor(bpv), 4 * bpv)
  {
    hide LanesOf, WordOf, LeNum, Layout;
    ints := new i32[BLOCK](_ => 0);
    for i := 0 to 4 * bpv
      invariant Holding(ints[..], LanesOf(bytes, 4 * bpv, PrimitiveFor(bpv)), PrimitiveFor(bpv), i)
    {
      WordIsLanes(bytes, 4 * bpv, PrimitiveFor(bpv), i);
      PatternRoundTrip(WordAt(bytes, i), 0);
      ghost var before := ints[..];
      ints[i] := I32(LeNum(bytes[4 * i..4 * i + 4]));
      assert ints[..] == before[i := ints[i]];
    }
  }

  // Lane sums and plain sums of one-lane blocks.
  lemma {:induction false} PlainSums(ints: seq<i32>, deltas: seq<nat>, c: nat)
    requires |ints| == |deltas| == BLOCK && Holding(ints, Stretches(deltas, 32), 32, BLOCK) && c <= BLOCK
    ensures SumTo(Patterns(ints), c) == SumTo(deltas, c)
  {
    if c > 0 {
      PlainSums(ints, deltas, c - 1);
      hide U32, Shl;
      OneLane(deltas, c - 1);
    }
  }

  lemma OneLane(deltas: seq<nat>, c: nat)
    requires |deltas| == BLOCK && c < BLOCK
    ensures WordOf(Stretches(deltas, 32), c, 32) == deltas[c]
  {
    hide Stream;
    assert Column(Stretches(deltas, 32), c) == [deltas[c]];
    OneWord(deltas[c]);
  }

  lemma OneWord(x: nat)
    ensures Stream([x], 32) == x
  {
    assert [x][1..] == [];
    ShlZero(32);
  }

  // A wrapped sum that stays below 2^31 is the sum.
  lemma WrappedSum(base: i32, sum: nat)
    requires base + sum < TWO_31
    ensures I32(U32(base) + sum) == base + sum
  {
  }

  method SumBlock(ints: array<i32>, bpv: nat, base: i32, ghost deltas: seq<nat>)
    requires 0 < bpv <= 32 && ints.Length == BLOCK && |deltas| == BLOCK && Fits(deltas, bpv)
    requires base + SumTo(deltas, BLOCK) < TWO_31
    requires Holding(ints[..], Stretches(deltas, PrimitiveFor(bpv)), PrimitiveFor(bpv), 4 * PrimitiveFor(bpv))
    modifies ints
    ensures forall d :: 0 <= d < BLOCK ==> IsDoc(ints[d], deltas, base, d)
  {
    hide SumTo, Stretches, StretchSums, Rows, WordOf, Fits, Pow2, I32, U32;
    ghost var before := ints[..];
    if bpv <= 3 {
      WrappingPrefixSum(ints, 32, 0);
      SummedWords(before, ints[..], deltas, bpv);
      Expand8(ints, StretchSums(deltas, 8));
      AddOffsets8(ints, base, deltas);
    } else if bpv <= 10 {
      WrappingPrefixSum(ints, 64, 0);
      SummedWords(before, ints[..], deltas, bpv);
      Expand16(ints, StretchSums(deltas, 16));
      AddOffsets16(ints, base, deltas);
    } else {
      WrappingPrefixSum(ints, BLOCK, base);
      forall d | 0 <= d < BLOCK ensures IsDoc(ints[d], deltas, base, d) {
        PlainSums(before, deltas, d + 1);
        SumClimbs(deltas, d + 1, BLOCK);
        WrappedSum(base, SumTo(deltas, d + 1));
      }
    }
  }

  // One block: the documents are the plain prefix sums from `base`.
  method ForDeltaDecode(bpv: nat, bytes: seq<byte>, base: i32, ghost deltas: seq<nat>) returns (r: Option<(seq<i32>, nat)>)
    requires 0 < bpv <= 32 && |bytes| >= 16 * bpv ==> Packed(bytes, deltas, bpv) && base + SumTo(deltas, BLOCK) < TWO_31
    ensures r.Some? <==> 0 < bpv <= 32 && |bytes| >= 16 * bpv
    ensures r.Some? ==> |r.value.0| == BLOCK && r.value.1 == 16 * bpv
    ensures r.Some? ==> forall d :: 0 <= d < BLOCK ==> r.value.0[d] == base + SumTo(deltas, d + 1)
  {
    hide SumTo, Stretches, Rows, WordOf, Fits, LanesOf, Layout;
    var numIntsPerShift := 4 * bpv;
    var needed := 4 * numIntsPerShift;
    if |bytes| < needed || bpv == 0 || bpv > 32 {
      return None;
    }
    var ints := LoadWords(bytes, bpv, deltas);
    var size := PrimitiveFor(bpv);
    LaneRows(bytes, 4 * bpv, size);
    StretchRows(deltas, size, bpv);
    DecodeInts(ints, bpv, size, LanesOf(bytes, 4 * bpv, size), Stretches(deltas, size));
    SumBlock(ints, bpv, base, deltas);
    forall d | 0 <= d < BLOCK ensures ints[..][d] == base + SumTo(deltas, d + 1) {
      assert IsDoc(ints[d], deltas, base, d);
    }
    return Some((ints[..], needed));
  }
}
