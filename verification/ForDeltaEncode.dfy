// Every block of 128 deltas has a packed form, so decoding it gives the prefix
// sums: a packer that lays the lanes out as the decoder expects them.
module ForDeltaEncode {
  import opened Bits
  import opened Wire
  import opened Swar
  import opened ForDelta
  import opened ForDeltaSums

  // n fields of r bits cut from a bit string.
  function Chop(bits: seq<nat>, r: nat, n: nat): (v: seq<nat>)
    ensures |v| == n
    decreases n
  {
    if n == 0 then []
    else [FromBits(if r <= |bits| then bits[..r] else [])] + Chop(if r <= |bits| then bits[r..] else [], r, n - 1)
  }

  ghost predicate AreBits(b: seq<nat>) { forall i :: 0 <= i < |b| ==> b[i] < 2 }

  lemma {:induction false} ToFromBits(b: seq<nat>)
    requires AreBits(b)
    ensures ToBits(FromBits(b), |b|) == b && FromBits(b) < Pow2(|b|)
  {
    if b != [] {
      ToFromBits(b[..|b| - 1]);
      assert b == b[..|b| - 1] + [b[|b| - 1]];
    }
  }

  lemma {:induction false} ChopConcat(bits: seq<nat>, r: nat, n: nat)
    requires AreBits(bits) && |bits| == Span(r, n)
    ensures Concat(Chop(bits, r, n), r) == bits && Fits(Chop(bits, r, n), r)
    decreases n
  {
    hide ToBits, FromBits, Pow2;
    if n > 0 {
      ChopConcat(bits[r..], r, n - 1);
      ToFromBits(bits[..r]);
      var v := Chop(bits, r, n);
      assert v[0] == FromBits(bits[..r]) && v[1..] == Chop(bits[r..], r, n - 1);
      assert bits == bits[..r] + bits[r..];
    }
  }

  lemma {:induction false} BitsAreBits(x: nat, w: nat)
    ensures AreBits(ToBits(x, w))
    decreases w
  {
    if w > 0 {
      BitsAreBits(x / 2, w - 1);
    }
  }

  lemma {:induction false} ConcatBits(v: seq<nat>, w: nat)
    ensures AreBits(Concat(v, w))
  {
    if v != [] {
      BitsAreBits(v[0], w);
      ConcatBits(v[1..], w);
    }
  }

  function Above(low: nat, v: nat, shift: nat): nat { low + Shl(v, shift) }

  // One lane's words: whole groups at falling shifts, the rest below them.
  function EncodeLane(vals: seq<nat>, bpv: nat, shift: int, idx: nat, n: nat): (words: seq<nat>)
    ensures |words| == n
    decreases if shift < 0 then 0 else shift + 1
  {
    if bpv == 0 || shift + bpv < 0 || idx > |vals| then seq(n, j => 0)
    else if shift < 0 then Chop(Concat(vals[idx..], bpv), shift + bpv, n)
    else
      var low := EncodeLane(vals, bpv, shift - bpv, idx + n, n);
      seq(n, j requires 0 <= j < n => Above(low[j], if idx + j < |vals| then vals[idx + j] else 0, shift))
  }

  lemma LowHalf(x: nat, w: nat)
    requires w > 0
    ensures Low(x, w) / 2 == Low(x / 2, w - 1) && Low(x, w) % 2 == x % 2
  {
  }

  lemma {:induction false} LowToBits(x: nat, w: nat)
    ensures ToBits(Low(x, w), w) == ToBits(x, w)
    decreases w
  {
    hide Low;
    if w > 0 {
      LowHalf(x, w);
      LowToBits(x / 2, w - 1);
    }
  }

  lemma {:induction false} SameConcat(u: seq<nat>, v: seq<nat>, w: nat)
    requires |u| == |v| && forall j :: 0 <= j < |u| ==> Low(u[j], w) == Low(v[j], w)
    ensures Concat(u, w) == Concat(v, w)
  {
    hide Low, ToBits;
    if u != [] {
      SameConcat(u[1..], v[1..], w);
      LowToBits(u[0], w);
      LowToBits(v[0], w);
    }
  }

  // The layout below a shift sees only the bits below it.
  lemma {:induction false} LayoutSame(u: seq<nat>, v: seq<nat>, vals: seq<nat>, bpv: nat, shift: int, idx: nat)
    requires |u| == |v| && bpv > 0 && shift + bpv >= 0 && LaneLayout(u, vals, bpv, shift, idx)
    requires forall j :: 0 <= j < |u| ==> Low(u[j], shift + bpv) == Low(v[j], shift + bpv)
    ensures LaneLayout(v, vals, bpv, shift, idx)
    decreases if shift < 0 then 0 else shift + 1
  {
    hide Low, Shr, Concat;
    if shift < 0 {
      SameConcat(u, v, shift + bpv);
    } else {
      forall j | 0 <= j < |v|
        ensures Low(Shr(v[j], shift), bpv) == vals[idx + j] && Low(u[j], shift) == Low(v[j], shift)
      {
        FieldOfLow(u[j], shift + bpv, shift, bpv);
        FieldOfLow(v[j], shift + bpv, shift, bpv);
        FieldOfLow(u[j], shift + bpv, 0, shift);
        FieldOfLow(v[j], shift + bpv, 0, shift);
        NoShr(u[j]);
        NoShr(v[j]);
        NoShr(Low(u[j], shift + bpv));
        assert u[j] == u[j];
      }
      LayoutSame(u, v, vals, bpv, shift - bpv, idx + |u|);
    }
  }

  lemma JoinedWord(low: nat, v: nat, shift: nat, bpv: nat)
    requires low < Pow2(shift) && v < Pow2(bpv)
    ensures var x := low + Shl(v, shift);
            Low(Shr(x, shift), bpv) == v && Low(x, shift) == Low(low, shift) && x < Pow2(shift + bpv)
  {
    JoinSplit(low, v, shift);
    LowSmall(v, bpv);
    LowSmall(low, shift);
    FieldUnder(low, v, shift, shift + bpv);
  }

  lemma SpanCancel(w: nat, a: nat, b: nat)
    requires w > 0 && Span(w, a) <= Span(w, b)
    ensures a <= b
  {
    if a > b {
      var d: nat := a - b;
      SpanZero(w, d);
      SpanAdd(w, b, d);
    }
  }

  lemma SpanWider(a: nat, b: nat, n: nat)
    ensures Span(a + b, n) == Span(a, n) + Span(b, n)
    decreases n
  {
    if n > 0 {
      SpanWider(a, b, n - 1);
    }
  }

  // The bits of the values from idx on fill the words below shift + bpv exactly.
  lemma {:induction false} EncodeLaneOk(vals: seq<nat>, bpv: nat, shift: int, idx: nat, n: nat)
    requires bpv > 0 && shift + bpv >= 0 && Fits(vals, bpv)
    requires Span(shift + bpv, n) + Span(bpv, idx) == Span(bpv, |vals|)
    ensures LaneLayout(EncodeLane(vals, bpv, shift, idx, n), vals, bpv, shift, idx)
    ensures Fits(EncodeLane(vals, bpv, shift, idx, n), shift + bpv)
    decreases if shift < 0 then 0 else shift + 1
  {
    hide Low, Shr, Shl, Concat, Pow2, Span, Chop;
    SpanCancel(bpv, idx, |vals|);
    if shift < 0 {
      ConcatLength(vals[idx..], bpv);
      SpanAdd(bpv, idx, |vals| - idx);
      ConcatBits(vals[idx..], bpv);
      ChopConcat(Concat(vals[idx..], bpv), shift + bpv, n);
    } else {
      SpanWider(shift, bpv, n);
      SpanAdd(bpv, idx, n);
      SpanCancel(bpv, idx + n, |vals|);
      EncodeLaneOk(vals, bpv, shift - bpv, idx + n, n);
      GroupOnTop(vals, bpv, shift, idx, n);
    }
  }

  lemma GroupOnTop(vals: seq<nat>, bpv: nat, shift: nat, idx: nat, n: nat)
    requires bpv > 0 && Fits(vals, bpv) && idx + n <= |vals|
    requires LaneLayout(EncodeLane(vals, bpv, shift - bpv, idx + n, n), vals, bpv, shift - bpv, idx + n)
    requires Fits(EncodeLane(vals, bpv, shift - bpv, idx + n, n), shift)
    ensures LaneLayout(EncodeLane(vals, bpv, shift, idx, n), vals, bpv, shift, idx)
    ensures Fits(EncodeLane(vals, bpv, shift, idx, n), shift + bpv)
  {
    hide Low, Shr, Shl, Concat, Pow2, Chop;
    var low, words := EncodeLane(vals, bpv, shift - bpv, idx + n, n), EncodeLane(vals, bpv, shift, idx, n);
    forall j | 0 <= j < n
      ensures Low(Shr(words[j], shift), bpv) == vals[idx + j] && Low(low[j], shift) == Low(words[j], shift)
      ensures words[j] < Pow2(shift + bpv)
    {
      JoinedWord(low[j], vals[idx + j], shift, bpv);
    }
    LayoutSame(low, words, vals, bpv, shift - bpv, idx + n);
  }

  // ----- whole blocks ---------------------------------------------------------------------

  function EncodeLanes(deltas: seq<nat>, bpv: nat): (rows: seq<seq<nat>>)
    ensures |rows| == Lanes(PrimitiveFor(bpv))
  {
    var size := PrimitiveFor(bpv);
    seq(Lanes(size), k requires 0 <= k < Lanes(size) => EncodeLane(Stretch(deltas, size, k), bpv, size - bpv, 0, 4 * bpv))
  }

  function WordBytes(rows: seq<seq<nat>>, size: nat, n: nat): (b: seq<byte>)
    ensures |b| == 4 * n
  {
    if n == 0 then [] else WordBytes(rows, size, n - 1) + LeBytes(WordOf(rows, n - 1, size), 4)
  }

  function Encode(deltas: seq<nat>, bpv: nat): seq<byte> {
    WordBytes(EncodeLanes(deltas, bpv), PrimitiveFor(bpv), 4 * bpv)
  }

  lemma Balance(size: nat, bpv: nat)
    ensures Span(size, 4 * bpv) == Span(bpv, 4 * size)
  {
    SpanIs(size, 4 * bpv);
    SpanIs(bpv, 4 * size);
    assert size * (4 * bpv) == bpv * (4 * size);
  }

  lemma LanesEncoded(deltas: seq<nat>, bpv: nat)
    requires 0 < bpv <= 32 && |deltas| == BLOCK && Fits(deltas, bpv)
    ensures var size := PrimitiveFor(bpv);
            && Rows(EncodeLanes(deltas, bpv), Lanes(size), 4 * bpv, size)
            && Layout(EncodeLanes(deltas, bpv), Stretches(deltas, size), bpv, size - bpv, 0)
  {
    hide Pow2, LaneLayout, EncodeLane, Stretch, Span, Fits;
    var size := PrimitiveFor(bpv);
    StretchRows(deltas, size, bpv);
    Balance(size, bpv);
    NoSpan(bpv);
    forall k | 0 <= k < Lanes(size)
      ensures LaneLayout(EncodeLanes(deltas, bpv)[k], Stretches(deltas, size)[k], bpv, size - bpv, 0)
      ensures Fits(EncodeLanes(deltas, bpv)[k], size)
    {
      var vals := Stretches(deltas, size)[k];
      assert Fits(vals, bpv) && |vals| == 4 * size;
      EncodeLaneOk(vals, bpv, size - bpv, 0, 4 * bpv);
    }
  }

  lemma NoSpan(w: nat)
    ensures Span(w, 0) == 0
  {
  }

  lemma LastWord(rows: seq<seq<nat>>, size: nat, n: nat)
    requires PrimitiveSize(size) && n > 0
    ensures WordBytes(rows, size, n) == WordBytes(rows, size, n - 1) + LeBytes(WordOf(rows, n - 1, size), 4)
  {
  }

  lemma {:induction false} WordBack(rows: seq<seq<nat>>, size: nat, n: nat, j: nat)
    requires PrimitiveSize(size) && j < n && WordOf(rows, j, size) < TWO_32
    ensures WordAt(WordBytes(rows, size, n), j) == WordOf(rows, j, size)
    decreases n
  {
    hide LeNum, LeBytes, WordOf, Pow2, WordBytes;
    var bytes := WordBytes(rows, size, n);
    var before := WordBytes(rows, size, n - 1);
    LastWord(rows, size, n);
    if j == n - 1 {
      assert bytes[4 * j..4 * j + 4] == LeBytes(WordOf(rows, j, size), 4);
      LeNumBytes(WordOf(rows, j, size), 4);
      Pow2Values();
      LowSmall(WordOf(rows, j, size), 32);
    } else {
      WordBack(rows, size, n - 1, j);
      assert bytes[4 * j..4 * j + 4] == before[4 * j..4 * j + 4];
    }
  }

  lemma LanesBack(rows: seq<seq<nat>>, size: nat, n: nat)
    requires PrimitiveSize(size) && Rows(rows, Lanes(size), n, size)
    ensures LanesOf(WordBytes(rows, size, n), n, size) == rows
  {
    hide Pow2, Digits, Stream, WordBytes, LeNum;
    var back := LanesOf(WordBytes(rows, size, n), n, size);
    RowLengths(rows, Lanes(size), n, size);
    forall k | 0 <= k < Lanes(size) ensures back[k] == rows[k] {
      assert |back[k]| == n;
      forall j | 0 <= j < n ensures back[k][j] == rows[k][j] {
        ColumnFits(rows, Lanes(size), n, size, j, size);
        WordBound(Column(rows, j), size);
        WordBack(rows, size, n, j);
        DigitsStream(Column(rows, j), size);
      }
    }
  }

  // Packing is the layout the decoder reads: with ForDeltaDecode, a round trip.
  lemma EncodePacked(deltas: seq<nat>, bpv: nat)
    requires 0 < bpv <= 32 && |deltas| == BLOCK && Fits(deltas, bpv)
    ensures |Encode(deltas, bpv)| == 16 * bpv && Packed(Encode(deltas, bpv), deltas, bpv)
  {
    hide Pow2, LaneLayout, EncodeLanes, Stretches, Fits, WordBytes, LanesOf, Rows;
    LanesEncoded(deltas, bpv);
    LanesBack(EncodeLanes(deltas, bpv), PrimitiveFor(bpv), 4 * bpv);
  }
}
