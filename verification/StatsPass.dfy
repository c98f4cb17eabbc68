// The statistics that drive the encoding policy: min, max, gcd of the deltas
// from the first value, and the distinct values when there are at most 256.
//
// `IsStats` says what the statistics of a column are, without saying how they
// are computed; it determines them (StatsUnique), so any two executors whose
// results satisfy it agree.
module StatsPass {
  import opened Bits
  import opened Wire
  import opened BinaryGcd

  datatype NumericStats = NumericStats(min: i64, max: i64, gcd: i64, table: Option<seq<i64>>)

  const HALF_MIN := -0x4000_0000_0000_0000
  const HALF_MAX := 0x3FFF_FFFF_FFFF_FFFF
  const MAX_TABLE := 256

  predicate InHalfRange(v: i64) { HALF_MIN <= v <= HALF_MAX }

  ghost predicate AllInHalfRange(values: seq<i64>) {
    forall i :: 0 <= i < |values| ==> InHalfRange(values[i])
  }

  function Distinct(values: seq<i64>): set<i64> {
    set v | v in values
  }

  function Deltas(values: seq<i64>, first: i64): (d: seq<nat>)
    ensures |d| == |values|
  {
    seq(|values|, i requires 0 <= i < |values| => Abs(values[i] - first))
  }

  ghost predicate IsStats(values: seq<i64>, s: NumericStats)
    requires |values| > 0
  {
    && s.min in values && (forall i :: 0 <= i < |values| ==> s.min <= values[i])
    && s.max in values && (forall i :: 0 <= i < |values| ==> values[i] <= s.max)
    && s.gcd == (if AllInHalfRange(values) then GcdAll(Deltas(values, values[0])) else 1)
    && IsTable(Distinct(values), s.table)
  }

  ghost predicate IsTable(distinct: set<i64>, table: Option<seq<i64>>) {
    match table
    case None => |distinct| > MAX_TABLE
    case Some(t) => |distinct| <= MAX_TABLE && Ascending(t) && Distinct(t) == distinct
  }

  lemma {:induction false} AscendingUnique(s: seq<i64>, t: seq<i64>)
    requires Ascending(s) && Ascending(t) && Distinct(s) == Distinct(t)
    ensures s == t
  {
    assert s != [] ==> s[0] in Distinct(s);
    assert t != [] ==> t[0] in Distinct(t);
    if s == [] {
      assert t == [];
    } else {
      assert t != [];
      var i :| 0 <= i < |t| && t[i] == s[0];
      var j :| 0 <= j < |s| && s[j] == t[0];
      assert s[0] == t[0];
      TailDistinct(s);
      TailDistinct(t);
      AscendingUnique(s[1..], t[1..]);
      assert s == [s[0]] + s[1..] && t == [t[0]] + t[1..];
    }
  }

  lemma TailDistinct(s: seq<i64>)
    requires Ascending(s) && s != []
    ensures Ascending(s[1..]) && Distinct(s[1..]) == Distinct(s) - {s[0]}
  {
    forall v ensures v in Distinct(s[1..]) <==> v in Distinct(s) - {s[0]} {
      if v in Distinct(s[1..]) {
        var i :| 0 <= i < |s[1..]| && s[1..][i] == v;
        assert s[i + 1] == v;
      }
      if v in Distinct(s) - {s[0]} {
        var i :| 0 <= i < |s| && s[i] == v;
        assert s[1..][i - 1] == v;
      }
    }
  }

  // The statistics are determined by the column.
  lemma StatsUnique(values: seq<i64>, a: NumericStats, b: NumericStats)
    requires |values| > 0 && IsStats(values, a) && IsStats(values, b)
    ensures a == b
  {
    var i :| 0 <= i < |values| && values[i] == a.min;
    var j :| 0 <= j < |values| && values[j] == b.min;
    var k :| 0 <= k < |values| && values[k] == a.max;
    var l :| 0 <= l < |values| && values[l] == b.max;
    if a.table.Some? && b.table.Some? {
      AscendingUnique(a.table.value, b.table.value);
    }
  }

  // What the statistics say: the extremes; the gcd of all distances if every value lies
  // within 62 bits and a sign, 1 otherwise; and the distinct values in order if there are
  // at most 256.
  lemma StatsMeaning(values: seq<i64>, s: NumericStats, d: nat)
    requires |values| > 0 && IsStats(values, s)
    ensures s.min in values && s.max in values && forall i :: 0 <= i < |values| ==> s.min <= values[i] <= s.max
    ensures (forall i :: 0 <= i < |values| ==> -0x4000_0000_0000_0000 <= values[i] < 0x4000_0000_0000_0000) ==>
              s.gcd >= 0 && (Divides(d, s.gcd) <==> forall i :: 0 <= i < |values| ==> Divides(d, Abs(values[i] - values[0])))
    ensures !(forall i :: 0 <= i < |values| ==> -0x4000_0000_0000_0000 <= values[i] < 0x4000_0000_0000_0000) ==> s.gcd == 1
    ensures s.table.Some? <==> |set v | v in values| <= 256
    ensures s.table.Some? ==> Ascending(s.table.value) && forall v :: v in s.table.value <==> v in values
  {
    hide Divides, GcdAll;
    var deltas := Deltas(values, values[0]);
    GcdAllDivisors(deltas, d);
    assert forall i :: 0 <= i < |values| ==> deltas[i] == Abs(values[i] as int - values[0] as int);
    assert Distinct(values) == set v | v in values;
    if s.table.Some? {
      assert forall v :: v in s.table.value <==> v in Distinct(values);
    }
  }

  function MinOf(values: seq<i64>): (m: i64)
    requires |values| > 0
    ensures m in values && forall i :: 0 <= i < |values| ==> m <= values[i]
  {
    if |values| == 1 then values[0]
    else
      var m := MinOf(values[1..]);
      assert m in values[1..];
      assert forall i :: 1 <= i < |values| ==> values[i] == values[1..][i - 1];
      if values[0] < m then values[0] else m
  }

  function MaxOf(values: seq<i64>): (m: i64)
    requires |values| > 0
    ensures m in values && forall i :: 0 <= i < |values| ==> values[i] <= m
  {
    if |values| == 1 then values[0]
    else
      var m := MaxOf(values[1..]);
      assert m in values[1..];
      assert forall i :: 1 <= i < |values| ==> values[i] == values[1..][i - 1];
      if values[0] > m then values[0] else m
  }

  ghost function StatsOf(values: seq<i64>): (s: NumericStats)
    requires |values| > 0
    ensures IsStats(values, s)
  {
    var first := values[0];
    if AllInHalfRange(values) then GcdAllInRange(values, first); assert InHalfRange(first); StatsWith(values, GcdAll(Deltas(values, first)))
    else StatsWith(values, 1)
  }

  ghost function StatsWith(values: seq<i64>, gcd: i64): NumericStats
    requires |values| > 0
  {
    var distinct := Distinct(values);
    NumericStats(MinOf(values), MaxOf(values), gcd, if |distinct| <= MAX_TABLE then Some(SortedSeq(distinct)) else None)
  }

  // ----- the fold ---------------------------------------------------------------

  datatype Fold = Fold(min: i64, max: i64, gcd: i64, unique: Option<set<i64>>)

  // What the fold knows after the values `seen`, all of them compared with `first`.
  ghost predicate Folded(seen: seq<i64>, first: i64, acc: Fold) {
    && (seen == [] || seen[0] == first)
    && (acc.min == first || acc.min in seen) && acc.min <= first
    && (forall i :: 0 <= i < |seen| ==> acc.min <= seen[i])
    && (acc.max == first || acc.max in seen) && first <= acc.max
    && (forall i :: 0 <= i < |seen| ==> seen[i] <= acc.max)
    && FoldedGcd(seen, first, acc.gcd)
    && FoldedSet(seen, acc.unique)
  }

  ghost predicate FoldedGcd(seen: seq<i64>, first: i64, gcd: i64) {
    gcd == if AllInHalfRange(seen) then GcdAll(Deltas(seen, first)) else 1
  }

  ghost predicate FoldedSet(seen: seq<i64>, unique: Option<set<i64>>) {
    match unique
    case None => |Distinct(seen)| > MAX_TABLE
    case Some(s) => s == Distinct(seen) && |s| <= MAX_TABLE
  }

  lemma DistinctSnoc(seen: seq<i64>, v: i64)
    ensures Distinct(seen + [v]) == Distinct(seen) + {v}
    ensures |Distinct(seen)| <= |Distinct(seen + [v])|
  {
    forall x ensures x in Distinct(seen + [v]) <==> x in Distinct(seen) + {v} {
    }
    SubsetSize(Distinct(seen), Distinct(seen + [v]));
  }

  lemma {:induction false} SubsetSize<T>(a: set<T>, b: set<T>)
    requires a <= b
    ensures |a| <= |b|
    decreases a
  {
    if a != {} {
      var x :| x in a;
      SubsetSize(a - {x}, b - {x});
    }
  }

  method FoldUnique(ghost seen: seq<i64>, unique: Option<set<i64>>, v: i64) returns (r: Option<set<i64>>)
    requires FoldedSet(seen, unique)
    ensures FoldedSet(seen + [v], r)
  {
    DistinctSnoc(seen, v);
    r := unique;
    if unique.Some? {
      var grown := unique.value + {v};
      r := if |grown| > MAX_TABLE then None else Some(grown);
    }
  }

  lemma AllInRangeSnoc(seen: seq<i64>, v: i64)
    ensures AllInHalfRange(seen + [v]) <==> AllInHalfRange(seen) && InHalfRange(v)
  {
    var all := seen + [v];
    assert all[|seen|] == v;
    assert forall i :: 0 <= i < |seen| ==> all[i] == seen[i];
  }

  lemma DeltasSnoc(seen: seq<i64>, v: i64, first: i64)
    ensures GcdAll(Deltas(seen + [v], first)) == Gcd(GcdAll(Deltas(seen, first)), Abs(v - first))
  {
    var d := Deltas(seen + [v], first);
    assert d[..|seen|] == Deltas(seen, first);
  }

  // The gcd never exceeds the widest delta.
  lemma {:induction false} GcdAllBound(v: seq<nat>, m: nat)
    requires forall i :: 0 <= i < |v| ==> v[i] <= m
    ensures GcdAll(v) <= m
  {
    if |v| > 0 {
      var w := v[..|v| - 1];
      GcdAllBound(w, m);
      GcdBound(GcdAll(w), v[|v| - 1], m);
    }
  }

  lemma GcdBound(a: nat, b: nat, m: nat)
    requires a <= m && b <= m
    ensures Gcd(a, b) <= m
  {
    var g := Gcd(a, b);
    DividesSelf(g);
    GcdDivisors(a, b, g);
    if a > 0 {
      DividesBound(g, a);
    }
  }

  method FoldGcd(ghost seen: seq<i64>, first: i64, gcd: i64, v: i64) returns (r: i64)
    requires FoldedGcd(seen, first, gcd)
    requires if seen == [] then v == first else seen[0] == first
    ensures FoldedGcd(seen + [v], first, r)
  {
    hide Gcd, GcdAll, Deltas;
    AllInRangeSnoc(seen, v);
    DeltasSnoc(seen, v, first);
    r := gcd;
    if gcd != 1 {
      if !InHalfRange(v) {
        r := 1;
      } else {
        assert InHalfRange(first);
        GcdAllInRange(seen, first);
        GcdBound(gcd, Abs(v - first), TWO_63 - 1);
        r := GcdCompute(gcd, Wrap(v - first));
      }
    } else {
      GcdOfOne(Abs(v - first));
    }
  }

  lemma GcdAllInRange(seen: seq<i64>, first: i64)
    requires AllInHalfRange(seen) && InHalfRange(first)
    ensures GcdAll(Deltas(seen, first)) < TWO_63
  {
    GcdAllBound(Deltas(seen, first), TWO_63 - 1);
  }

  method FoldStep(ghost seen: seq<i64>, first: i64, acc: Fold, v: i64) returns (r: Fold)
    requires Folded(seen, first, acc)
    requires seen == [] ==> v == first
    ensures Folded(seen + [v], first, r)
  {
    hide FoldedGcd, FoldedSet;
    var gcd := FoldGcd(seen, first, acc.gcd, v);
    var unique := FoldUnique(seen, acc.unique, v);
    r := Fold(if v < acc.min then v else acc.min, if v > acc.max then v else acc.max, gcd, unique);
    ghost var all := seen + [v];
    assert all[|seen|] == v;
    assert forall i :: 0 <= i < |seen| ==> all[i] == seen[i];
  }

  lemma FoldStart(first: i64)
    ensures Folded([], first, Fold(first, first, 0, Some({})))
  {
    assert Distinct([]) == {};
    assert Deltas([], first) == [];
  }

  // The distinct values in ascending order: iterating a BTreeSet.
  function SortedSeq(s: set<i64>): (t: seq<i64>)
    ensures Ascending(t) && Distinct(t) == s
  {
    if s == {} then assert Distinct([]) == {}; []
    else
      LeastExists(s);
      var m :| IsLeast(s, m);
      var rest := SortedSeq(s - {m});
      ConsLeast(m, rest, s);
      [m] + rest
  }

  lemma {:induction false} LeastExists(s: set<i64>)
    requires s != {}
    ensures exists m :: IsLeast(s, m)
  {
    hide IsLeast;
    var x :| x in s;
    if s == {x} {
      OnlyLeast(x);
    } else {
      LeastExists(s - {x});
      var m :| IsLeast(s - {x}, m);
      LeastOf(s, x, m);
    }
  }

  predicate IsLeast(s: set<i64>, m: i64) { m in s && forall x :: x in s ==> m <= x }

  lemma OnlyLeast(x: i64)
    ensures IsLeast({x}, x)
  {
  }

  lemma LeastOf(s: set<i64>, x: i64, m: i64)
    requires x in s && IsLeast(s - {x}, m)
    ensures IsLeast(s, if x <= m then x else m)
  {
    var least := if x <= m then x else m;
    forall y | y in s ensures least <= y {
      assert y == x || y in s - {x};
    }
  }

  lemma ConsLeast(m: i64, rest: seq<i64>, s: set<i64>)
    requires m in s && (forall x :: x in s ==> m <= x)
    requires Ascending(rest) && Distinct(rest) == s - {m}
    ensures Ascending([m] + rest) && Distinct([m] + rest) == s
  {
    var all := [m] + rest;
    assert forall i :: 0 <= i < |rest| ==> rest[i] in Distinct(rest);
    assert forall i :: 1 <= i < |all| ==> all[i] == rest[i - 1];
    assert Distinct(all) == {m} + Distinct(rest) by { DistinctCons(m, rest); }
  }

  lemma DistinctCons(m: i64, rest: seq<i64>)
    ensures Distinct([m] + rest) == {m} + Distinct(rest)
  {
    var all := [m] + rest;
    forall x ensures x in Distinct(all) <==> x == m || x in rest {
      assert all[0] == m;
      if x in rest {
        var i :| 0 <= i < |rest| && rest[i] == x;
        assert all[i + 1] == x;
      }
    }
  }

  function FoldResult(acc: Fold): NumericStats {
    NumericStats(acc.min, acc.max, acc.gcd,
                 match acc.unique case None => None case Some(s) => Some(SortedSeq(s)))
  }

  method Stats(values: seq<i64>) returns (s: NumericStats)
    requires |values| > 0
    ensures IsStats(values, s)
  {
    var first := values[0];
    var acc := Fold(first, first, 0, Some({}));
    FoldStart(first);
    hide FoldedGcd, FoldedSet;
    for i := 0 to |values|
      invariant Folded(values[..i], first, acc)
    {
      assert values[..i + 1] == values[..i] + [values[i]];
      acc := FoldStep(values[..i], first, acc, values[i]);
    }
    assert values[..|values|] == values;
    s := FoldResult(acc);
    FoldFinish(values, acc);
  }

  lemma FoldFinish(values: seq<i64>, acc: Fold)
    requires |values| > 0 && Folded(values, values[0], acc)
    ensures IsStats(values, FoldResult(acc))
  {
  }

  function Flatten<T>(chunks: seq<seq<T>>): seq<T> {
    if |chunks| == 0 then [] else chunks[0] + Flatten(chunks[1..])
  }

  lemma {:induction false} FlattenSnoc<T>(chunks: seq<seq<T>>, i: nat)
    requires i < |chunks|
    ensures Flatten(chunks[..i + 1]) == Flatten(chunks[..i]) + chunks[i]
  {
    if i == 0 {
      assert chunks[..1][1..] == [];
    } else {
      assert chunks[..i + 1][1..] == chunks[1..][..i];
      assert chunks[..i][1..] == chunks[1..][..i - 1];
      FlattenSnoc(chunks[1..], i - 1);
    }
  }

  // The same fold streamed over a chunk list. Reading the first value needs a
  // first chunk that is not empty.
  method StatsChunks(chunks: seq<seq<i64>>) returns (s: NumericStats)
    requires |chunks| > 0 && |chunks[0]| > 0
    ensures |Flatten(chunks)| > 0 && IsStats(Flatten(chunks), s)
  {
    hide FoldedGcd, FoldedSet;
    var first := chunks[0][0];
    var acc := Fold(first, first, 0, Some({}));
    FoldStart(first);
    ghost var seen := [];
    for c := 0 to |chunks|
      invariant seen == Flatten(chunks[..c])
      invariant c > 0 ==> seen != []
      invariant Folded(seen, first, acc)
    {
      ghost var before := seen;
      for i := 0 to |chunks[c]|
        invariant seen == before + chunks[c][..i]
        invariant Folded(seen, first, acc)
      {
        acc := FoldStep(seen, first, acc, chunks[c][i]);
        seen := seen + [chunks[c][i]];
        assert chunks[c][..i + 1] == chunks[c][..i] + [chunks[c][i]];
      }
      FlattenSnoc(chunks, c);
      assert chunks[c][..|chunks[c]|] == chunks[c];
    }
    assert chunks[..|chunks|] == chunks;
    s := FoldResult(acc);
    FoldFinish(seen, acc);
  }
}
