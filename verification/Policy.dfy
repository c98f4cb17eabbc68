// The encoding policy of a numeric field: constant, table, gcd, delta or direct,
// chosen from the statistics under wrapping 64-bit arithmetic. Whatever it
// chooses, every value fits the chosen width and is recovered from its code.
module Policy {
  import opened Bits
  import opened Wire
  import opened BinaryGcd
  import opened StatsPass
  import Direct

  // What the policy decides: the width (0: constant), the table of distinct
  // values if codes are indices into it, and what is subtracted and divided out.
  datatype Choice = Choice(bpv: nat, table: Option<seq<i64>>, min: i64, gcd: i64)

  function BitsOf(x: i64): nat { Direct.UnsignedBitsRequired(x) }

  // Rust's integer division, towards zero.
  function TruncDiv(a: i64, b: i64): i64
    requires b > 0
  {
    var m: nat := Abs(a);
    QuotientMonotone(m, m, b);
    var q: int := Quotient(m, b);
    if a < 0 then -q else q
  }

  function DeltaBits(s: NumericStats): (w: nat)
    requires s.gcd > 0
    ensures Direct.Supported(w)
  {
    BitsOf(TruncDiv(Wrap(s.max - s.min), s.gcd))
  }

  // `min` need not be subtracted when that saves no bits.
  function ResetMin(s: NumericStats): i64 {
    if s.gcd == 1 && s.min > 0 && BitsOf(s.max) == BitsOf(Wrap(s.max - s.min)) then 0 else s.min
  }

  function Choose(s: NumericStats): Choice
    requires s.min < s.max ==> s.gcd > 0
  {
    if s.min >= s.max then Choice(0, None, s.min, s.gcd)
    else if s.table.Some? && 1 < |s.table.value| <= MAX_TABLE && BitsOf(|s.table.value| - 1) < DeltaBits(s) then
      Choice(BitsOf(|s.table.value| - 1), s.table, 0, 1)
    else Choice(DeltaBits(s), None, ResetMin(s), s.gcd)
  }

  // ----- codes ------------------------------------------------------------------

  function IndexOf(t: seq<i64>, v: i64): (i: nat)
    ensures i <= |t| && (v in t ==> i < |t| && t[i] == v)
  {
    if t == [] || t[0] == v then 0 else 1 + IndexOf(t[1..], v)
  }

  function CodeOf(c: Choice, v: i64): nat
    requires c.table.None? ==> c.gcd > 0
  {
    match c.table
    case Some(t) => IndexOf(t, v)
    case None => AsU64(TruncDiv(Wrap(v - c.min), c.gcd))
  }

  // The decoder's epilogue; a code past the table has no value.
  function ValueOf(c: Choice, x: nat): Option<i64> {
    match c.table
    case Some(t) => if x < |t| then Some(t[x]) else None
    case None => Some(Wrap(c.min + c.gcd * x))
  }

  ghost predicate Recovers(c: Choice, v: i64) {
    && (c.table.None? ==> c.gcd > 0)
    && CodeOf(c, v) < Pow2(c.bpv)
    && ValueOf(c, CodeOf(c, v)) == Some(v)
  }

  // ----- correctness ----------------------------------------------------------------

  lemma BitsMonotone(x: i64, y: i64)
    requires 0 <= x <= y
    ensures x < Pow2(BitsOf(y))
  {
  }

  lemma InTable(t: seq<i64>, v: i64)
    requires v in t && 1 < |t| <= MAX_TABLE
    ensures Recovers(Choice(BitsOf(|t| - 1), Some(t), 0, 1), v)
  {
    BitsMonotone(IndexOf(t, v), |t| - 1);
  }

  // The gcd divides every distance from the minimum.
  lemma GcdDividesDelta(values: seq<i64>, s: NumericStats, v: i64)
    requires |values| > 0 && IsStats(values, s) && AllInHalfRange(values) && v in values
    ensures 0 <= v - s.min && Divides(s.gcd, v - s.min)
  {
    hide GcdAll, Divides, AllInHalfRange, IsTable;
    DeltaDivides(values, s, v);
    DeltaDivides(values, s, s.min);
    var first := values[0];
    if v >= first {
      DividesAdd(s.gcd, v - first, first - s.min);
    } else {
      DividesAdd(s.gcd, first - v, v - s.min);
    }
  }

  lemma DeltaDivides(values: seq<i64>, s: NumericStats, v: i64)
    requires |values| > 0 && IsStats(values, s) && AllInHalfRange(values) && v in values
    ensures Divides(s.gcd, Abs(v - values[0])) && s.min <= v
  {
    hide GcdAll, Divides, AllInHalfRange, IsTable;
    var d := Deltas(values, values[0]);
    var i :| 0 <= i < |values| && values[i] == v;
    DividesSelf(GcdAll(d));
    GcdAllDivisors(d, GcdAll(d));
    assert d[i] == Abs(v - values[0]);
  }

  // Values outside the half range, or more than 2^63 - 1 apart, force gcd 1.
  lemma WideRangeGcd(values: seq<i64>, s: NumericStats)
    requires |values| > 0 && IsStats(values, s) && s.max - s.min >= TWO_63
    ensures s.gcd == 1
  {
    var i :| 0 <= i < |values| && values[i] == s.min;
    var j :| 0 <= j < |values| && values[j] == s.max;
    assert !InHalfRange(values[i]) || !InHalfRange(values[j]);
  }

  lemma PositiveGcd(values: seq<i64>, s: NumericStats)
    requires |values| > 0 && IsStats(values, s) && s.min < s.max
    ensures s.gcd > 0
  {
    if AllInHalfRange(values) {
      hide GcdAll, Divides, AllInHalfRange;
      GcdDividesDelta(values, s, s.max);
      DividesBound(s.gcd, s.max - s.min);
    }
  }

  lemma GcdAtLeast(values: seq<i64>, s: NumericStats, v: i64)
    requires |values| > 0 && IsStats(values, s) && v in values && s.min < s.max
    ensures s.gcd > 0 && 0 <= v - s.min && Divides(s.gcd, v - s.min)
  {
    hide GcdAll, Divides, AllInHalfRange;
    PositiveGcd(values, s);
    if AllInHalfRange(values) {
      GcdDividesDelta(values, s, v);
    } else {
      DividesByOne(v - s.min);
    }
  }

  lemma {:induction false} DividesByOne(x: int)
    requires x >= 0
    ensures Divides(1, x)
    decreases x
  {
    if x > 0 {
      DividesByOne(x - 1);
    }
  }

  lemma {:induction false} QuotientByOne(x: nat)
    ensures Quotient(x, 1) == x
    decreases x
  {
    if x > 0 {
      QuotientByOne(x - 1);
    }
  }

  // Distances below 2^63 divide exactly and fit the width of the widest.
  lemma NarrowDelta(s: NumericStats, v: i64)
    requires s.gcd > 0 && s.min <= v <= s.max && s.max - s.min < TWO_63
    requires Divides(s.gcd, v - s.min)
    ensures Recovers(Choice(DeltaBits(s), None, s.min, s.gcd), v)
  {
    hide Quotient, Divides, Direct.UnsignedBitsRequired;
    var d, m := v - s.min, s.max - s.min;
    assert Wrap(d) == d && Wrap(m) == m;
    QuotientMonotone(d, m, s.gcd);
    var q := Quotient(d, s.gcd);
    BitsMonotone(q, Quotient(m, s.gcd));
    QuotientTimes(d, s.gcd);
    SpanIs(s.gcd, q);
    WrapIsIdentity(v);
  }

  lemma TruncDivByOne(a: i64)
    ensures TruncDiv(a, 1) == a
  {
    QuotientByOne(Abs(a));
  }

  // Farther apart, the wrapped difference is negative: 64 bits, and wrapping
  // undoes itself.
  lemma WideDelta(s: NumericStats, v: i64)
    requires s.gcd == 1 && s.min <= v <= s.max && s.max - s.min >= TWO_63
    ensures DeltaBits(s) == 64
    ensures Recovers(Choice(DeltaBits(s), None, s.min, s.gcd), v)
  {
    hide Direct.UnsignedBitsRequired, TruncDiv, Wrap, AsU64, Pow2, BitsOf;
    var d := v - s.min;
    Pow2Values();
    UnsignedWrap(s.max - s.min);
    UnsignedWrap(d);
    WideBits(Wrap(s.max - s.min));
    TruncDivByOne(Wrap(d));
    TruncDivByOne(Wrap(s.max - s.min));
    WrapIsIdentity(v);
  }

  lemma WideBits(x: i64)
    requires x < 0
    ensures BitsOf(x) == 64
  {
    Pow2Values();
    var w := BitsOf(x);
    if w < 64 {
      Pow2Monotone(w, 63);
    }
  }

  lemma DirectCode(s: NumericStats, v: i64)
    requires s.gcd == 1 && 0 < s.min <= v <= s.max
    requires BitsOf(s.max) == BitsOf(Wrap(s.max - s.min))
    ensures DeltaBits(s) == BitsOf(s.max)
    ensures Recovers(Choice(DeltaBits(s), None, 0, 1), v)
  {
    hide Direct.UnsignedBitsRequired, TruncDiv, Wrap, Pow2;
    WrapIsIdentity(v);
    TruncDivByOne(Wrap(s.max - s.min));
    TruncDivByOne(v);
    BitsMonotone(v, s.max);
  }

  // Every value of a column is recovered from its code under the policy's choice.
  lemma PolicyRecovers(values: seq<i64>, s: NumericStats, v: i64)
    requires |values| > 0 && IsStats(values, s) && v in values
    requires s.min < s.max
    ensures s.gcd > 0
    ensures Recovers(Choose(s), v) && Direct.Supported(Choose(s).bpv)
  {
    hide Recovers, GcdAll, AllInHalfRange, Divides, CodeOf, Quotient, Direct.UnsignedBitsRequired;
    GcdAtLeast(values, s, v);
    TableHas(values, s, v);
    var c := Choose(s);
    if c.table.Some? {
      InTable(s.table.value, v);
    } else if ResetMin(s) != s.min {
      DirectCode(s, v);
    } else if s.max - s.min < TWO_63 {
      NarrowDelta(s, v);
    } else {
      WideRangeGcd(values, s);
      WideDelta(s, v);
    }
  }

  lemma TableHas(values: seq<i64>, s: NumericStats, v: i64)
    requires |values| > 0 && IsStats(values, s) && v in values
    ensures s.min <= v <= s.max
    ensures s.table.Some? ==> v in s.table.value
  {
    assert v in Distinct(values);
    if s.table.Some? {
      assert v in Distinct(s.table.value);
    }
  }

  // ----- nothing narrower would do ----------------------------------------------------

  // There are at most 256 distinct values, and w bits hold the index of each.
  ghost predicate IndicesFit(values: seq<i64>, w: nat) {
    |Distinct(values)| <= 256 && |Distinct(values)| - 1 < Pow2(w)
  }

  // w bits hold every distance from the minimum, taken in 64 bits and divided by the gcd.
  ghost predicate DistancesFit(values: seq<i64>, s: NumericStats, w: nat) {
    forall i :: 0 <= i < |values| ==> DistanceFits(s, values[i], w)
  }

  predicate DistanceFits(s: NumericStats, v: i64, w: nat) {
    s.gcd > 0 && AsU64(TruncDiv(Wrap(v - s.min), s.gcd)) < Pow2(w)
  }

  // The choice for a column that is not constant: the least width for either kind of code;
  // a table only where its indices are narrower; and the minimum is kept in the codes only
  // where all are divided by 1 and that needs no wider ones.
  lemma ChoiceLeast(values: seq<i64>, s: NumericStats, w: nat)
    requires |values| > 0 && IsStats(values, s) && s.min < s.max && Direct.Supported(w)
    ensures s.gcd > 0
    ensures var c := Choose(s);
            && Direct.Supported(c.bpv)
            && (IndicesFit(values, c.bpv) || DistancesFit(values, s, c.bpv))
            && (IndicesFit(values, w) || DistancesFit(values, s, w) ==> c.bpv <= w)
            && (c.table.Some? ==> IndicesFit(values, c.bpv) && !DistancesFit(values, s, c.bpv))
            && (c.table.None? ==> (IndicesFit(values, w) ==> DistancesFit(values, s, w)))
            && (c.table.Some? ==> c.table == s.table && c.min == 0 && c.gcd == 1)
            && (c.table.None? ==> c.gcd == s.gcd)
  {
    hide IsStats, Direct.UnsignedBitsRequired, DeltaBits, ResetMin, IndicesFit, DistancesFit;
    PositiveGcd(values, s);
    IndexWidth(values, s, w);
    DistanceWidth(values, s, w);
    if s.table.Some? {
      var x := |s.table.value| - 1;
      IndexWidth(values, s, BitsOf(x));
      DistanceWidth(values, s, BitsOf(x));
    }
    IndexWidth(values, s, DeltaBits(s));
    DistanceWidth(values, s, DeltaBits(s));
  }

  // `min` gives way to 0 exactly where that costs nothing.
  lemma MinReset(s: NumericStats)
    requires s.min < s.max && s.gcd > 0 && Choose(s).table.None?
    ensures Choose(s).min == if s.gcd == 1 && s.min > 0 && SameWidth(s.max, Wrap(s.max - s.min)) then 0 else s.min
  {
    hide Direct.UnsignedBitsRequired, DeltaBits, Wrap, SameWidth, Direct.Supported;
    SameBits(s.max, Wrap(s.max - s.min));
  }

  // Every supported width that holds one holds the other.
  ghost predicate SameWidth(x: i64, y: i64) {
    forall w :: Direct.Supported(w) ==> (AsU64(x) < Pow2(w) <==> AsU64(y) < Pow2(w))
  }

  lemma SameBits(x: i64, y: i64)
    ensures SameWidth(x, y) <==> BitsOf(x) == BitsOf(y)
  {
    hide Direct.UnsignedBitsRequired;
    forall w | Direct.Supported(w) ensures AsU64(x) < Pow2(w) <==> BitsOf(x) <= w
                                   ensures AsU64(y) < Pow2(w) <==> BitsOf(y) <= w {
      WidthHolds(x, w);
      WidthHolds(y, w);
    }
  }

  lemma WidthHolds(x: i64, w: nat)
    requires Direct.Supported(w)
    ensures AsU64(x) < Pow2(w) <==> BitsOf(x) <= w
  {
    hide Pow2;
    if BitsOf(x) <= w {
      Pow2Monotone(BitsOf(x), w);
    }
  }

  lemma IndexWidth(values: seq<i64>, s: NumericStats, w: nat)
    requires |values| > 0 && IsStats(values, s) && s.min < s.max && Direct.Supported(w)
    ensures s.table.Some? ==> 1 < |s.table.value| <= MAX_TABLE
    ensures IndicesFit(values, w) <==> s.table.Some? && BitsOf(|s.table.value| - 1) <= w
  {
    hide Direct.UnsignedBitsRequired, GcdAll, Deltas, AllInHalfRange;
    if s.table.Some? {
      var t := s.table.value;
      AscendingSize(t);
      WidthHolds(|t| - 1, w);
      TwoMembers(Distinct(values), s.min, s.max);
    }
  }

  lemma TwoMembers(a: set<i64>, x: i64, y: i64)
    requires x in a && y in a && x != y
    ensures |a| >= 2
  {
    assert {x, y} <= a;
    assert |a| == |a - {x, y}| + |{x, y}|;
  }

  lemma {:induction false} AscendingSize(t: seq<i64>)
    requires Ascending(t)
    ensures |Distinct(t)| == |t|
  {
    if t != [] {
      var init, last := t[..|t| - 1], t[|t| - 1];
      AscendingSize(init);
      assert t == init + [last];
      assert Distinct(t) == Distinct(init) + {last};
    }
  }

  lemma DistanceWidth(values: seq<i64>, s: NumericStats, w: nat)
    requires |values| > 0 && IsStats(values, s) && s.min < s.max && s.gcd > 0 && Direct.Supported(w)
    ensures DistancesFit(values, s, w) <==> DeltaBits(s) <= w
  {
    hide Direct.UnsignedBitsRequired, TruncDiv, Wrap, DistanceFits, GcdAll, Deltas, IsTable;
    WidestDistance(s, w);
    if DeltaBits(s) <= w {
      forall i | 0 <= i < |values| ensures DistanceFits(s, values[i], w) {
        DistanceWithin(values, s, values[i], w);
      }
    }
  }

  lemma WidestDistance(s: NumericStats, w: nat)
    requires s.gcd > 0 && Direct.Supported(w)
    ensures DistanceFits(s, s.max, w) <==> DeltaBits(s) <= w
  {
    hide Direct.UnsignedBitsRequired, TruncDiv, Wrap, Pow2;
    WidthHolds(TruncDiv(Wrap(s.max - s.min), s.gcd), w);
  }

  lemma DistanceWithin(values: seq<i64>, s: NumericStats, v: i64, w: nat)
    requires |values| > 0 && IsStats(values, s) && v in values && s.min < s.max && s.gcd > 0
    requires Direct.Supported(w) && DeltaBits(s) <= w
    ensures DistanceFits(s, v, w)
  {
    hide Direct.UnsignedBitsRequired, Quotient, GcdAll, Deltas, AllInHalfRange, IsTable, Pow2;
    if s.max - s.min < TWO_63 {
      NarrowWithin(s, v, w);
    } else {
      WideRangeGcd(values, s);
      WideDelta(s, s.max);
      SixtyFour(w);
    }
  }

  lemma SixtyFour(w: nat)
    requires Direct.Supported(w) && w >= 64
    ensures Pow2(w) == TWO_64
  {
    Pow2Values();
  }

  lemma NarrowWithin(s: NumericStats, v: i64, w: nat)
    requires s.gcd > 0 && s.min <= v <= s.max && s.max - s.min < TWO_63
    requires DeltaBits(s) <= w
    ensures DistanceFits(s, v, w)
  {
    hide Direct.UnsignedBitsRequired, Quotient, Pow2;
    var d, m := v - s.min, s.max - s.min;
    assert Wrap(d) == d && Wrap(m) == m;
    QuotientMonotone(d, m, s.gcd);
    BitsMonotone(Quotient(d, s.gcd), Quotient(m, s.gcd));
    Pow2Monotone(DeltaBits(s), w);
  }

  // Equal bounds: a constant column.
  lemma ConstantColumn(values: seq<i64>, s: NumericStats)
    requires |values| > 0 && IsStats(values, s) && s.min >= s.max
    ensures forall i :: 0 <= i < |values| ==> values[i] == s.min
  {
  }
}
