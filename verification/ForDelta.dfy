// Frame-of-reference delta blocks: 128 deltas packed with 1 to 32 bits each, in
// four, two or one lanes of a word, unpacked and summed lane-wise. The layout is
// stated lane by lane; the decoder works on whole words.
module ForDelta {
  import opened Bits
  import opened Wire
  import opened Swar

  const BLOCK := 128

  predicate PrimitiveSize(size: nat) { size == 8 || size == 16 || size == 32 }

  function Lanes(size: nat): nat { if size == 8 then 4 else if size == 16 then 2 else 1 }

  lemma LanesFill(size: nat)
    requires PrimitiveSize(size)
    ensures Span(size, Lanes(size)) == 32 && Lanes(size) > 0
    ensures Span(size, Lanes(size) - 1) == 32 - size
  {
    assert Span(8, 4) == 32 && Span(8, 3) == 24 && Span(16, 2) == 32 && Span(16, 1) == 16 && Span(32, 1) == 32 && Span(32, 0) == 0;
  }

  // ----- 32-bit patterns ---------------------------------------------------------------

  function U32(x: i32): nat { if x < 0 then x + TWO_32 else x }
  function I32(u: nat): i32 { var low := u % TWO_32; if low < TWO_31 then low else low - TWO_32 }

  lemma PatternRoundTrip(u: nat, x: i32)
    requires u < TWO_32
    ensures U32(I32(u)) == u && I32(U32(x)) == x && U32(x) < TWO_32
  {
  }

  // mask8, mask16 and mask32: a mask of b bits, repeated.
  function MaskFor(size: nat, b: nat): nat {
    if size == 8 then 0x0101_0101 * Ones(b) % TWO_32
    else if size == 16 then 0x0001_0001 * Ones(b) % TWO_32
    else Ones(b) % TWO_32
  }

  lemma Eight(n: nat)
    ensures Shl(n, 8) == 256 * n && Shl(n, 16) == 0x1_0000 * n
  {
    OctetShift(n);
    OctetShift(256 * n);
    ShlShl(n, 8, 8);
  }

  lemma OnesBound(b: nat, size: nat)
    requires b <= size && PrimitiveSize(size)
    ensures Ones(b) < (if size == 8 then 256 else if size == 16 then 0x1_0000 else TWO_32)
  {
    hide Pow2, Ones;
    OnesIs(b);
    Pow2Monotone(b, size);
    Pow2Values();
  }

  lemma MaskForIs(size: nat, b: nat)
    requires PrimitiveSize(size) && b <= size
    ensures MaskFor(size, b) == Mask(size, b, Lanes(size))
  {
    hide Ones, Shl;
    OnesBound(b, size);
    var m := Ones(b);
    ShlZero(size);
    assert Mask(size, b, 1) == m;
    Eight(m);
    if size == 8 {
      assert Mask(8, b, 2) == m + Shl(Mask(8, b, 1), 8);
      Eight(Mask(8, b, 2));
      assert Mask(8, b, 3) == m + Shl(Mask(8, b, 2), 8);
      Eight(Mask(8, b, 3));
      assert Mask(8, b, 4) == m + Shl(Mask(8, b, 3), 8);
    } else if size == 16 {
      assert Mask(16, b, 2) == m + Shl(Mask(16, b, 1), 16);
    }
  }

  // ----- the layout ----------------------------------------------------------------------

  // One lane: group after group of |words| values at falling shifts, then the bits
  // left in the words, most significant first, spell the remaining values.
  ghost predicate LaneLayout(words: seq<nat>, vals: seq<nat>, bpv: nat, shift: int, idx: nat)
    decreases if shift < 0 then 0 else shift + 1
  {
    if bpv == 0 then false
    else if shift < 0 then
      shift + bpv >= 0 && idx <= |vals| && Concat(words, shift + bpv) == Concat(vals[idx..], bpv)
    else
      && idx + |words| <= |vals|
      && (forall j :: 0 <= j < |words| ==> Low(Shr(words[j], shift), bpv) == vals[idx + j])
      && LaneLayout(words, vals, bpv, shift - bpv, idx + |words|)
  }

  ghost predicate Layout(lanes: seq<seq<nat>>, vals: seq<seq<nat>>, bpv: nat, shift: int, idx: nat) {
    |lanes| == |vals| && forall k :: 0 <= k < |lanes| ==> LaneLayout(lanes[k], vals[k], bpv, shift, idx)
  }

  // Rows of n numbers of w bits, a row a lane.
  ghost predicate Rows(rows: seq<seq<nat>>, lanes: nat, n: nat, w: nat) {
    |rows| == lanes && forall k :: 0 <= k < lanes ==> |rows[k]| == n && Fits(rows[k], w)
  }

  // Entry j of every lane, the lowest lane first.
  function Column(rows: seq<seq<nat>>, j: nat): (c: seq<nat>)
    ensures |c| == |rows|
  {
    seq(|rows|, k requires 0 <= k < |rows| => if j < |rows[k]| then rows[k][j] else 0)
  }

  // The word that holds entry j of every lane.
  function WordOf(rows: seq<seq<nat>>, j: nat, size: nat): nat { Stream(Column(rows, j), size) }

  lemma ColumnFits(rows: seq<seq<nat>>, lanes: nat, n: nat, w: nat, j: nat, size: nat)
    requires Rows(rows, lanes, n, w) && w <= size
    ensures Fits(Column(rows, j), size) && |Column(rows, j)| == lanes
  {
    hide Pow2;
    Pow2Monotone(w, size);
    Pow2Above(size);
    forall k | 0 <= k < lanes ensures Column(rows, j)[k] < Pow2(size) {
      assert Fits(rows[k], w);
    }
  }

  lemma Pow2Above(w: nat)
    ensures Pow2(w) > 0
  {
  }

  lemma WordBound(v: seq<nat>, size: nat)
    requires PrimitiveSize(size) && |v| == Lanes(size) && Fits(v, size)
    ensures Stream(v, size) < TWO_32
  {
    hide Pow2, Stream, Span;
    StreamBound(v, size);
    LanesFill(size);
    Pow2Values();
  }

  // ----- word operations, lane by lane --------------------------------------------------------

  // `(x >> s) & mask`
  lemma ShiftMask(v: seq<nat>, size: nat, s: nat, b: nat)
    requires PrimitiveSize(size) && |v| == Lanes(size) && Fits(v, size) && s + b <= size
    ensures And(Sar(Stream(v, size), s), MaskFor(size, b)) == Stream(Map(Field(s, b), v), size)
  {
    hide Pow2, Stream, Span, And, Sar, Shr, Mask, MaskFor;
    WordBound(v, size);
    MaskForIs(size, b);
    LanesFill(size);
    MaskBound(size, b, |v|, Span(size, |v| - 1) + b);
    Pow2Monotone(Span(size, |v| - 1) + b, 32 - s);
    SarMasked(Stream(v, size), s, Mask(size, b, |v|));
    FieldLanes(v, size, s, b);
  }

  lemma FieldFits(v: seq<nat>, size: nat, s: nat, b: nat)
    requires b <= size
    ensures Fits(Map(Field(s, b), v), b) && Fits(Map(Field(s, b), v), size)
  {
    hide Pow2, Low, Shr;
    Pow2Monotone(b, size);
    forall k | 0 <= k < |v| ensures Map(Field(s, b), v)[k] < Pow2(b) {
      LowBound(Shr(v[k], s), b);
    }
  }

  // The mask of all bits.
  lemma FullMask(x: nat)
    requires x < TWO_32
    ensures And(Sar(x, 0), Ones(32)) == x
  {
    hide And, Ones, Pow2, Shl;
    AndOnes(x, 32);
    Pow2Values();
    LowSmall(x, 32);
    NoSign();
  }

  lemma NoSign()
    ensures Shl(Ones(0), 32) == 0
  {
    ShlZero(32);
  }

  lemma FullField(v: seq<nat>, size: nat)
    requires Fits(v, size)
    ensures Map(Field(0, size), v) == v
  {
    hide Low, Pow2;
    forall k | 0 <= k < |v| ensures Map(Field(0, size), v)[k] == v[k] {
      LowSmall(v[k], size);
    }
  }

  // `l | x`, when x's lanes fit below l's.
  lemma OrWords(u: seq<nat>, v: seq<nat>, size: nat)
    requires PrimitiveSize(size) && |u| == |v| == Lanes(size) && Fits(u, size) && Fits(v, size)
    ensures Or(Stream(u, size), Stream(v, size)) == Stream(Both(OR, u, v), size)
  {
    OrLanes(u, v, size);
  }

  // `x << b` keeps 32 bits; nothing is lost while the lanes fit.
  lemma LeftWords(v: seq<nat>, size: nat, w: nat, b: nat)
    requires PrimitiveSize(size) && |v| == Lanes(size) && Fits(v, w) && w + b <= size
    ensures Fits(Map(Left(b), v), size)
    ensures Shl(Stream(v, size), b) == Stream(Map(Left(b), v), size) < TWO_32
  {
    hide Pow2, Stream, Shl;
    LeftLanes(v, size, b);
    Pow2Monotone(w + b, size);
    forall k | 0 <= k < |v| ensures Map(Left(b), v)[k] < Pow2(size) {
      ShlBelow(v[k], w, b);
    }
    WordBound(Map(Left(b), v), size);
  }

  // ----- whole groups ---------------------------------------------------------------------------

  ghost predicate Holding(ints: seq<i32>, rows: seq<seq<nat>>, size: nat, n: nat) {
    n <= |ints| && forall c :: 0 <= c < n ==> U32(ints[c]) == WordOf(rows, c, size)
  }

  lemma LayoutGroup(lanes: seq<seq<nat>>, vals: seq<seq<nat>>, bpv: nat, shift: int, idx: nat, size: nat, n: nat, m: nat)
    requires Layout(lanes, vals, bpv, shift, idx) && shift >= 0 && Lanes(size) > 0
    requires Rows(lanes, Lanes(size), n, size) && Rows(vals, Lanes(size), m, bpv)
    ensures idx + n <= m && Layout(lanes, vals, bpv, shift - bpv, idx + n)
    ensures forall j :: 0 <= j < n ==> Map(Field(shift, bpv), Column(lanes, j)) == Column(vals, idx + j)
  {
    hide Low, Shr, Concat, Fits;
    assert LaneLayout(lanes[0], vals[0], bpv, shift, idx);
    forall k | 0 <= k < |lanes| ensures LaneLayout(lanes[k], vals[k], bpv, shift - bpv, idx + n) {
      assert LaneLayout(lanes[k], vals[k], bpv, shift, idx);
    }
    forall j | 0 <= j < n ensures Map(Field(shift, bpv), Column(lanes, j)) == Column(vals, idx + j) {
      forall k | 0 <= k < |lanes| ensures Low(Shr(lanes[k][j], shift), bpv) == vals[k][idx + j] {
        assert LaneLayout(lanes[k], vals[k], bpv, shift, idx);
      }
    }
  }

  // What one word gives at one shift.
  lemma GroupWord(lanes: seq<seq<nat>>, j: nat, size: nat, n: nat, shift: nat, bpv: nat)
    requires PrimitiveSize(size) && Rows(lanes, Lanes(size), n, size) && shift + bpv <= size && bpv > 0
    ensures var x := WordOf(lanes, j, size);
            var mask := if bpv == size then Ones(32) else MaskFor(size, bpv);
            And(Sar(x, shift), mask) == Stream(Map(Field(shift, bpv), Column(lanes, j)), size) < TWO_32
  {
    hide Pow2, Stream, And, Sar, MaskFor, Ones, Rows, Fits;
    ColumnFits(lanes, Lanes(size), n, size, j, size);
    var v := Column(lanes, j);
    WordBound(v, size);
    if bpv == size {
      FullMask(Stream(v, size));
      FullField(v, size);
    } else {
      ShiftMask(v, size, shift, bpv);
      FieldFits(v, size, shift, bpv);
      WordBound(Map(Field(shift, bpv), v), size);
    }
  }

  method GroupPass(ints: array<i32>, tmp: seq<i32>, shift: nat, bpv: nat, size: nat, idx: nat,
                   ghost lanes: seq<seq<nat>>, ghost vals: seq<seq<nat>>)
    returns (idx': nat)
    requires PrimitiveSize(size) && 0 < bpv && shift + bpv <= size && ints.Length == BLOCK
    requires Rows(lanes, Lanes(size), |tmp|, size) && Rows(vals, Lanes(size), 4 * size, bpv)
    requires Holding(tmp, lanes, size, |tmp|) && Holding(ints[..], vals, size, idx)
    requires Layout(lanes, vals, bpv, shift, idx)
    modifies ints
    ensures idx' == idx + |tmp| <= 4 * size
    ensures Holding(ints[..], vals, size, idx') && Layout(lanes, vals, bpv, shift - bpv, idx')
  {
    hide Pow2, Stream, And, Sar, MaskFor, Ones, Rows, WordOf, Layout, Low, Shr;
    var mask := if bpv == size then Ones(32) else MaskFor(size, bpv);
    HasLanes(size);
    LayoutGroup(lanes, vals, bpv, shift, idx, size, |tmp|, 4 * size);
    idx' := idx;
    for j := 0 to |tmp|
      invariant idx' == idx + j && Holding(ints[..], vals, size, idx')
    {
      GroupWord(lanes, j, size, |tmp|, shift, bpv);
      GroupIs(lanes, vals, j, idx, size, shift, bpv, |tmp|);
      PatternRoundTrip(WordOf(vals, idx', size), 0);
      ghost var before := ints[..];
      ints[idx'] := I32(And(Sar(U32(tmp[j]), shift), mask));
      assert ints[..] == before[idx' := ints[idx']];
      idx' := idx' + 1;
    }
  }

  lemma HasLanes(size: nat)
    ensures Lanes(size) > 0
  {
  }

  lemma GroupIs(lanes: seq<seq<nat>>, vals: seq<seq<nat>>, j: nat, idx: nat, size: nat, shift: nat, bpv: nat, n: nat)
    requires j < n && forall i :: 0 <= i < n ==> Map(Field(shift, bpv), Column(lanes, i)) == Column(vals, idx + i)
    ensures Stream(Map(Field(shift, bpv), Column(lanes, j)), size) == WordOf(vals, idx + j, size)
  {
  }

  // ----- values split over words ------------------------------------------------------------------

  // The top bits of value idx of every lane, down to bit b, in place.
  function TopBits(b: nat): nat -> nat { v => Shl(Shr(v, b), b) }

  function Assembled(vals: seq<seq<nat>>, idx: nat, b: nat): seq<nat> { Map(TopBits(b), Column(vals, idx)) }

  // Words t.. still hold the low b bits of value idx, then the values after it.
  ghost predicate Ahead(lanes: seq<seq<nat>>, vals: seq<seq<nat>>, t: nat, idx: nat, b: nat, r: nat, bpv: nat) {
    |lanes| == |vals| && forall k :: 0 <= k < |lanes| ==> LaneAhead(lanes[k], vals[k], t, idx, b, r, bpv)
  }

  ghost predicate LaneAhead(words: seq<nat>, vals: seq<nat>, t: nat, idx: nat, b: nat, r: nat, bpv: nat) {
    && t <= |words| && idx < |vals|
    && Concat(words[t..], r) == ToBits(vals[idx], b) + Concat(vals[idx + 1..], bpv)
  }

  // `left` low bits of word t are unread, then whole words; they spell the values from idx.
  ghost predicate Unread(lanes: seq<seq<nat>>, vals: seq<seq<nat>>, t: nat, left: nat, idx: nat, r: nat, bpv: nat) {
    |lanes| == |vals| && forall k :: 0 <= k < |lanes| ==> LaneUnread(lanes[k], vals[k], t, left, idx, r, bpv)
  }

  ghost predicate LaneUnread(words: seq<nat>, vals: seq<nat>, t: nat, left: nat, idx: nat, r: nat, bpv: nat) {
    && t <= |words| && idx <= |vals|
    && Tail(words, t, left, r) == Concat(vals[idx..], bpv)
  }

  function Tail(words: seq<nat>, t: nat, left: nat, r: nat): seq<nat> {
    if t < |words| then ToBits(words[t], left) + Concat(words[t + 1..], r) else []
  }

  lemma ConcatStep(v: seq<nat>, i: nat, w: nat)
    requires i < |v|
    ensures Concat(v[i..], w) == ToBits(v[i], w) + Concat(v[i + 1..], w)
  {
    assert v[i..][1..] == v[i + 1..];
  }

  lemma NoConcat(w: nat)
    ensures Concat([], w) == []
  {
  }

  lemma LowShr0(v: nat, w: nat, b: nat)
    requires v < Pow2(w) && b <= w
    ensures Low(Shr(v, b), w - b) == Shr(v, b)
  {
    ShrBelow(v, w, b);
    LowSmall(Shr(v, b), w - b);
  }

  // The first piece: the unread low bits of word t are the top of value idx.
  lemma FirstPiece(words: seq<nat>, vals: seq<nat>, t: nat, left: nat, idx: nat, r: nat, bpv: nat)
    requires LaneUnread(words, vals, t, left, idx, r, bpv) && idx < |vals| && 0 < left <= r < bpv && vals[idx] < Pow2(bpv)
    ensures t < |words| && Low(words[t], left) == Shr(vals[idx], bpv - left)
    ensures LaneAhead(words, vals, t + 1, idx, bpv - left, r, bpv)
  {
    hide Low, Shr, Pow2, ToBits, Concat;
    ConcatStep(vals, idx, bpv);
    assert |ToBits(vals[idx], bpv)| == bpv;
    assert t < |words|;
    HeadShort(words[t], left, Concat(words[t + 1..], r), vals[idx], bpv, Concat(vals[idx + 1..], bpv));
    LowShr0(vals[idx], bpv, bpv - left);
  }

  // A whole word more.
  lemma WholePiece(words: seq<nat>, vals: seq<nat>, t: nat, idx: nat, b: nat, r: nat, bpv: nat)
    requires LaneAhead(words, vals, t, idx, b, r, bpv) && 0 < r <= b
    ensures t < |words| && LaneAhead(words, vals, t + 1, idx, b - r, r, bpv)
    ensures Or(Shl(Shr(vals[idx], b), b), Shl(Low(words[t], r), b - r)) == Shl(Shr(vals[idx], b - r), b - r)
  {
    hide Low, Shr, Shl, Or, Pow2, ToBits, Concat;
    var v := vals[idx];
    WordLeft(words, t, r, ToBits(v, b), Concat(vals[idx + 1..], bpv));
    ConcatStep(words, t, r);
    HeadShort(words[t], r, Concat(words[t + 1..], r), v, b, Concat(vals[idx + 1..], bpv));
    TopGrows(v, b, r);
  }

  lemma AtEnd(words: seq<nat>, t: nat, r: nat)
    ensures t == |words| ==> Concat(words[t..], r) == []
  {
    if t == |words| {
      assert words[t..] == [];
    }
  }

  lemma WordLeft(words: seq<nat>, t: nat, r: nat, a: seq<nat>, b: seq<nat>)
    requires t <= |words| && Concat(words[t..], r) == a + b && a != []
    ensures t < |words|
  {
    AtEnd(words, t, r);
  }

  lemma TopGrows(v: nat, b: nat, r: nat)
    requires r <= b
    ensures Or(Shl(Shr(v, b), b), Shl(Low(Shr(v, b - r), r), b - r)) == Shl(Shr(v, b - r), b - r)
  {
    hide Low, Shr, Shl, Or, Pow2;
    var y := Shr(v, b - r);
    ShrShr(v, b - r, r);
    LowShr(y, r);
    LowBound(y, r);
    ShlAdd(Low(y, r), Shl(Shr(y, r), r), b - r);
    ShlShl(Shr(y, r), r, b - r);
    ShlBelow(Low(y, r), r, b - r);
    OrCommutes(Shl(Shr(v, b), b), Shl(Low(y, r), b - r));
    OrDisjoint(Shl(Low(y, r), b - r), Shr(v, b), b);
  }

  lemma {:induction false} OrCommutes(a: nat, b: nat)
    ensures Or(a, b) == Or(b, a)
    decreases a + b
  {
    if a > 0 && b > 0 {
      OrCommutes(a / 2, b / 2);
    }
  }

  // The last piece, the top of a word; the rest of that word is unread.
  lemma LastPiece(words: seq<nat>, vals: seq<nat>, t: nat, idx: nat, b: nat, r: nat, bpv: nat)
    requires LaneAhead(words, vals, t, idx, b, r, bpv) && 0 < b < r
    ensures t < |words| && LaneUnread(words, vals, t, r - b, idx + 1, r, bpv)
    ensures Or(Shl(Shr(vals[idx], b), b), Low(Shr(words[t], r - b), b)) == vals[idx]
  {
    hide Low, Shr, Shl, Or, Pow2, ToBits, Concat;
    var v := vals[idx];
    WordLeft(words, t, r, ToBits(v, b), Concat(vals[idx + 1..], bpv));
    ConcatStep(words, t, r);
    HeadLong(words[t], r, Concat(words[t + 1..], r), v, b, Concat(vals[idx + 1..], bpv));
    LowShr(v, b);
    LowBound(v, b);
    OrCommutes(Shl(Shr(v, b), b), Low(v, b));
    OrDisjoint(Low(v, b), Shr(v, b), b);
  }

  lemma NoPiece(words: seq<nat>, vals: seq<nat>, t: nat, idx: nat, r: nat, bpv: nat)
    requires LaneAhead(words, vals, t, idx, 0, r, bpv)
    ensures LaneUnread(words, vals, t, r, idx + 1, r, bpv)
    ensures Shl(Shr(vals[idx], 0), 0) == vals[idx]
  {
    hide Concat;
    assert ToBits(vals[idx], 0) == [];
    assert [] + Concat(vals[idx + 1..], bpv) == Concat(vals[idx + 1..], bpv);
    if t < |words| {
      ConcatStep(words, t, r);
    } else {
      assert words[t..] == [];
      NoConcat(r);
    }
  }

  // ----- the same, for all lanes at once ----------------------------------------------------------------

  lemma TopFits(vals: seq<seq<nat>>, lanes: nat, n: nat, bpv: nat, idx: nat, b: nat, size: nat)
    requires Rows(vals, lanes, n, bpv) && bpv <= size
    ensures Fits(Assembled(vals, idx, b), size) && |Assembled(vals, idx, b)| == lanes
  {
    hide Pow2, Shl, Shr;
    ColumnFits(vals, lanes, n, bpv, idx, size);
    var c := Column(vals, idx);
    forall k | 0 <= k < lanes ensures Assembled(vals, idx, b)[k] < Pow2(size) {
      TopBelow(c[k], b);
    }
  }

  lemma TopBelow(v: nat, b: nat)
    ensures Shl(Shr(v, b), b) <= v
  {
    LowShr(v, b);
  }

  lemma WordsFirst(lanes: seq<seq<nat>>, vals: seq<seq<nat>>, n: nat, size: nat, t: nat, left: nat, idx: nat, r: nat, bpv: nat)
    requires PrimitiveSize(size) && Rows(lanes, Lanes(size), n, size) && Rows(vals, Lanes(size), 4 * size, bpv)
    requires Unread(lanes, vals, t, left, idx, r, bpv) && idx < 4 * size && 0 < left <= r < bpv <= size
    ensures t < n && Ahead(lanes, vals, t + 1, idx, bpv - left, r, bpv)
    ensures var l := Shl(And(WordOf(lanes, t, size), MaskFor(size, left)), bpv - left);
            l < TWO_32 && l == Stream(Assembled(vals, idx, bpv - left), size)
  {
    hide Pow2, Stream, And, Sar, MaskFor, Low, Shr, Shl, Fits, LaneAhead, LaneUnread;
    HasLanes(size);
    assert |lanes[0]| == n;
    forall k | 0 <= k < Lanes(size)
      ensures t < n && LaneAhead(lanes[k], vals[k], t + 1, idx, bpv - left, r, bpv)
      ensures Low(lanes[k][t], left) == Shr(vals[k][idx], bpv - left)
    {
      RowIs(lanes, Lanes(size), n, size, k, t);
      RowIs(vals, Lanes(size), 4 * size, bpv, k, idx);
      FirstPiece(lanes[k], vals[k], t, left, idx, r, bpv);
    }
    FirstWord(lanes, vals, n, size, t, left, idx, bpv);
  }

  lemma RowIs(rows: seq<seq<nat>>, lanes: nat, n: nat, w: nat, k: nat, j: nat)
    requires Rows(rows, lanes, n, w) && k < lanes
    ensures |rows| == lanes && |rows[k]| == n && (j < n ==> rows[k][j] < Pow2(w))
  {
    hide Pow2;
    assert Fits(rows[k], w);
  }

  lemma FirstWord(lanes: seq<seq<nat>>, vals: seq<seq<nat>>, n: nat, size: nat, t: nat, left: nat, idx: nat, bpv: nat)
    requires PrimitiveSize(size) && Rows(lanes, Lanes(size), n, size) && Rows(vals, Lanes(size), 4 * size, bpv)
    requires t < n && idx < 4 * size && left < bpv <= size
    requires forall k :: 0 <= k < Lanes(size) ==> Low(lanes[k][t], left) == Shr(vals[k][idx], bpv - left)
    ensures var l := Shl(And(WordOf(lanes, t, size), MaskFor(size, left)), bpv - left);
            l < TWO_32 && l == Stream(Assembled(vals, idx, bpv - left), size)
  {
    hide Pow2, Stream, And, MaskFor, Low, Shr, Shl, Fits;
    var v := Column(lanes, t);
    ColumnFits(lanes, Lanes(size), n, size, t, size);
    MaskedWord(v, size, left);
    FieldFits(v, size, 0, left);
    LeftWords(Map(Field(0, left), v), size, left, bpv - left);
    var a := Map(Left(bpv - left), Map(Field(0, left), v));
    forall k | 0 <= k < Lanes(size) ensures a[k] == Assembled(vals, idx, bpv - left)[k] {
      NoShr(v[k]);
    }
    assert a == Assembled(vals, idx, bpv - left);
  }

  lemma NoShr(x: nat)
    ensures Shr(x, 0) == x
  {
  }

  // `x & mask`, without a shift.
  lemma MaskedWord(v: seq<nat>, size: nat, b: nat)
    requires PrimitiveSize(size) && |v| == Lanes(size) && Fits(v, size) && b <= size
    ensures And(Stream(v, size), MaskFor(size, b)) == Stream(Map(Field(0, b), v), size)
  {
    hide Pow2, Stream, And, MaskFor, Shr;
    MaskForIs(size, b);
    FieldLanes(v, size, 0, b);
    NoShr(Stream(v, size));
  }

  lemma WordsWhole(lanes: seq<seq<nat>>, vals: seq<seq<nat>>, n: nat, size: nat, t: nat, idx: nat, b: nat, r: nat, bpv: nat)
    requires PrimitiveSize(size) && Rows(lanes, Lanes(size), n, size) && Rows(vals, Lanes(size), 4 * size, bpv)
    requires Ahead(lanes, vals, t, idx, b, r, bpv) && idx < 4 * size && 0 < r <= b <= bpv <= size
    ensures t < n && Ahead(lanes, vals, t + 1, idx, b - r, r, bpv)
    ensures var x := Shl(And(WordOf(lanes, t, size), MaskFor(size, r)), b - r);
            x < TWO_32 && Or(Stream(Assembled(vals, idx, b), size), x) == Stream(Assembled(vals, idx, b - r), size)
  {
    hide Pow2, Stream, And, MaskFor, Low, Shr, Shl, Or, Fits, LaneAhead;
    HasLanes(size);
    assert |lanes[0]| == n;
    forall k | 0 <= k < Lanes(size)
      ensures t < n && LaneAhead(lanes[k], vals[k], t + 1, idx, b - r, r, bpv)
      ensures Or(Shl(Shr(vals[k][idx], b), b), Shl(Low(lanes[k][t], r), b - r)) == Shl(Shr(vals[k][idx], b - r), b - r)
    {
      RowIs(lanes, Lanes(size), n, size, k, t);
      RowIs(vals, Lanes(size), 4 * size, bpv, k, idx);
      AheadBounds(lanes[k], vals[k], t, idx, b, r, bpv);
      WholePiece(lanes[k], vals[k], t, idx, b, r, bpv);
    }
    WholeWord(lanes, vals, n, size, t, idx, b, r, bpv);
  }

  lemma AheadBounds(words: seq<nat>, vals: seq<nat>, t: nat, idx: nat, b: nat, r: nat, bpv: nat)
    requires LaneAhead(words, vals, t, idx, b, r, bpv)
    ensures t <= |words| && idx < |vals|
  {
  }

  lemma WholeWord(lanes: seq<seq<nat>>, vals: seq<seq<nat>>, n: nat, size: nat, t: nat, idx: nat, b: nat, r: nat, bpv: nat)
    requires PrimitiveSize(size) && Rows(lanes, Lanes(size), n, size) && Rows(vals, Lanes(size), 4 * size, bpv)
    requires t < n && idx < 4 * size && 0 < r <= b <= bpv <= size
    requires forall k :: 0 <= k < Lanes(size) ==>
               Or(Shl(Shr(vals[k][idx], b), b), Shl(Low(lanes[k][t], r), b - r)) == Shl(Shr(vals[k][idx], b - r), b - r)
    ensures var x := Shl(And(WordOf(lanes, t, size), MaskFor(size, r)), b - r);
            x < TWO_32 && Or(Stream(Assembled(vals, idx, b), size), x) == Stream(Assembled(vals, idx, b - r), size)
  {
    hide Pow2, Stream, And, MaskFor, Low, Shr, Shl, Or, Fits;
    var v := Column(lanes, t);
    ColumnFits(lanes, Lanes(size), n, size, t, size);
    MaskedWord(v, size, r);
    FieldFits(v, size, 0, r);
    LeftWords(Map(Field(0, r), v), size, r, b - r);
    var a := Map(Left(b - r), Map(Field(0, r), v));
    TopFits(vals, Lanes(size), 4 * size, bpv, idx, b, size);
    OrWords(Assembled(vals, idx, b), a, size);
    var joined := Both(OR, Assembled(vals, idx, b), a);
    forall k | 0 <= k < Lanes(size) ensures joined[k] == Assembled(vals, idx, b - r)[k] {
      NoShr(v[k]);
    }
    assert joined == Assembled(vals, idx, b - r);
  }

  lemma WordsLast(lanes: seq<seq<nat>>, vals: seq<seq<nat>>, n: nat, size: nat, t: nat, idx: nat, b: nat, r: nat, bpv: nat)
    requires PrimitiveSize(size) && Rows(lanes, Lanes(size), n, size) && Rows(vals, Lanes(size), 4 * size, bpv)
    requires Ahead(lanes, vals, t, idx, b, r, bpv) && idx < 4 * size && 0 < b < r < bpv <= size
    ensures t < n && Unread(lanes, vals, t, r - b, idx + 1, r, bpv)
    ensures Or(Stream(Assembled(vals, idx, b), size), And(Sar(WordOf(lanes, t, size), r - b), MaskFor(size, b))) ==
            WordOf(vals, idx, size)
  {
    hide Pow2, Stream, And, Sar, MaskFor, Low, Shr, Shl, Or, Fits, LaneAhead, LaneUnread;
    HasLanes(size);
    assert |lanes[0]| == n;
    forall k | 0 <= k < Lanes(size)
      ensures t < n && LaneUnread(lanes[k], vals[k], t, r - b, idx + 1, r, bpv)
      ensures Or(Shl(Shr(vals[k][idx], b), b), Low(Shr(lanes[k][t], r - b), b)) == vals[k][idx]
    {
      RowIs(lanes, Lanes(size), n, size, k, t);
      RowIs(vals, Lanes(size), 4 * size, bpv, k, idx);
      AheadBounds(lanes[k], vals[k], t, idx, b, r, bpv);
      LastPiece(lanes[k], vals[k], t, idx, b, r, bpv);
    }
    LastWord(lanes, vals, n, size, t, idx, b, r, bpv);
  }

  lemma LastWord(lanes: seq<seq<nat>>, vals: seq<seq<nat>>, n: nat, size: nat, t: nat, idx: nat, b: nat, r: nat, bpv: nat)
    requires PrimitiveSize(size) && Rows(lanes, Lanes(size), n, size) && Rows(vals, Lanes(size), 4 * size, bpv)
    requires t < n && idx < 4 * size && 0 < b < r < bpv <= size
    requires forall k :: 0 <= k < Lanes(size) ==>
               Or(Shl(Shr(vals[k][idx], b), b), Low(Shr(lanes[k][t], r - b), b)) == vals[k][idx]
    ensures Or(Stream(Assembled(vals, idx, b), size), And(Sar(WordOf(lanes, t, size), r - b), MaskFor(size, b))) ==
            WordOf(vals, idx, size)
  {
    hide Pow2, Stream, And, Sar, MaskFor, Low, Shr, Shl, Or, Fits;
    var v := Column(lanes, t);
    ColumnFits(lanes, Lanes(size), n, size, t, size);
    ShiftMask(v, size, r - b, b);
    FieldFits(v, size, r - b, b);
    TopFits(vals, Lanes(size), 4 * size, bpv, idx, b, size);
    var a := Map(Field(r - b, b), v);
    OrWords(Assembled(vals, idx, b), a, size);
    var joined := Both(OR, Assembled(vals, idx, b), a);
    assert joined == Column(vals, idx);
  }

  lemma WordsDone(lanes: seq<seq<nat>>, vals: seq<seq<nat>>, n: nat, size: nat, t: nat, idx: nat, r: nat, bpv: nat)
    requires PrimitiveSize(size) && Rows(lanes, Lanes(size), n, size) && Rows(vals, Lanes(size), 4 * size, bpv)
    requires Ahead(lanes, vals, t, idx, 0, r, bpv) && idx < 4 * size
    ensures Unread(lanes, vals, t, r, idx + 1, r, bpv)
    ensures Stream(Assembled(vals, idx, 0), size) == WordOf(vals, idx, size)
  {
    hide Stream, Shr, Shl, LaneUnread, Fits;
    forall k | 0 <= k < Lanes(size)
      ensures LaneUnread(lanes[k], vals[k], t, r, idx + 1, r, bpv) && Shl(Shr(vals[k][idx], 0), 0) == vals[k][idx]
    {
      RowIs(lanes, Lanes(size), n, size, k, t);
      RowIs(vals, Lanes(size), 4 * size, bpv, k, idx);
      NoPiece(lanes[k], vals[k], t, idx, r, bpv);
    }
    forall k | 0 <= k < Lanes(size) ensures Assembled(vals, idx, 0)[k] == Column(vals, idx)[k] {
      RowIs(vals, Lanes(size), 4 * size, bpv, k, idx);
    }
    assert Assembled(vals, idx, 0) == Column(vals, idx);
  }

  // ----- unpacking --------------------------------------------------------------------------------------

  // One value out of the left-over bits.
  method NextValue(tmp: seq<i32>, t: nat, left: nat, r: nat, bpv: nat, size: nat,
                   ghost lanes: seq<seq<nat>>, ghost vals: seq<seq<nat>>, ghost idx: nat)
    returns (l: nat, t': nat, left': nat)
    requires PrimitiveSize(size) && Rows(lanes, Lanes(size), |tmp|, size) && Rows(vals, Lanes(size), 4 * size, bpv)
    requires Holding(tmp, lanes, size, |tmp|) && idx < 4 * size && 0 < left <= r < bpv <= size
    requires Unread(lanes, vals, t, left, idx, r, bpv)
    ensures l == WordOf(vals, idx, size) < TWO_32
    ensures 0 < left' <= r && Unread(lanes, vals, t', left', idx + 1, r, bpv)
  {
    hide Pow2, Stream, And, Sar, MaskFor, Rows, Unread, Ahead, WordOf, Assembled, Low, Shr, Shl, Or;
    var b: nat := bpv - left;
    WordsFirst(lanes, vals, |tmp|, size, t, left, idx, r, bpv);
    l := Shl(And(U32(tmp[t]), MaskFor(size, left)), b) % TWO_32;
    t' := t + 1;
    while b >= r
      invariant b <= bpv && Ahead(lanes, vals, t', idx, b, r, bpv)
      invariant l == Stream(Assembled(vals, idx, b), size)
      decreases b
    {
      WordsWhole(lanes, vals, |tmp|, size, t', idx, b, r, bpv);
      b := b - r;
      l := Or(l, Shl(And(U32(tmp[t']), MaskFor(size, r)), b) % TWO_32);
      t' := t' + 1;
    }
    if b > 0 {
      WordsLast(lanes, vals, |tmp|, size, t', idx, b, r, bpv);
      l := Or(l, And(Sar(U32(tmp[t']), r - b), MaskFor(size, b)));
      left' := r - b;
    } else {
      WordsDone(lanes, vals, |tmp|, size, t', idx, r, bpv);
      left' := r;
    }
    ColumnWord(vals, size, bpv, idx);
  }

  lemma ColumnWord(vals: seq<seq<nat>>, size: nat, bpv: nat, idx: nat)
    requires PrimitiveSize(size) && Rows(vals, Lanes(size), 4 * size, bpv) && bpv <= size
    ensures WordOf(vals, idx, size) < TWO_32
  {
    hide Pow2, Stream, Rows;
    ColumnFits(vals, Lanes(size), 4 * size, bpv, idx, size);
    WordBound(Column(vals, idx), size);
  }

  // No shift left: the rest is in the low bits.
  lemma LayoutRest(lanes: seq<seq<nat>>, vals: seq<seq<nat>>, bpv: nat, shift: int, idx: nat, size: nat, n: nat)
    requires Layout(lanes, vals, bpv, shift, idx) && shift < 0 && n > 0 && bpv > 0
    requires Rows(lanes, Lanes(size), n, size) && Rows(vals, Lanes(size), 4 * size, bpv) && Lanes(size) > 0
    ensures 0 <= shift + bpv && idx <= 4 * size
    ensures if shift + bpv == 0 then idx == 4 * size else Unread(lanes, vals, 0, shift + bpv, idx, shift + bpv, bpv)
  {
    hide Fits, Concat;
    assert LaneLayout(lanes[0], vals[0], bpv, shift, idx);
    var r: int := shift + bpv;
    if r == 0 {
      NoBitsLeft(lanes[0], vals[0][idx..], bpv);
    } else {
      forall k | 0 <= k < |lanes| ensures LaneUnread(lanes[k], vals[k], 0, r, idx, r, bpv) {
        assert LaneLayout(lanes[k], vals[k], bpv, shift, idx);
        ConcatStep(lanes[k], 0, r);
        assert lanes[k][0..] == lanes[k];
      }
    }
  }

  lemma {:induction false} ConcatLength(v: seq<nat>, w: nat)
    ensures |Concat(v, w)| == Span(w, |v|)
  {
    if v != [] {
      ConcatLength(v[1..], w);
    }
  }

  lemma SpanZero(w: nat, n: nat)
    requires w > 0
    ensures Span(w, n) == 0 ==> n == 0
  {
  }

  lemma NoBitsLeft(words: seq<nat>, rest: seq<nat>, bpv: nat)
    requires Concat(words, 0) == Concat(rest, bpv) && bpv > 0
    ensures rest == []
  {
    hide Concat;
    ConcatLength(words, 0);
    ConcatLength(rest, bpv);
    SpanIs(0, |words|);
    SpanZero(bpv, |rest|);
  }

  method DecodeInts(ints: array<i32>, bpv: nat, size: nat, ghost lanes: seq<seq<nat>>, ghost vals: seq<seq<nat>>)
    requires ints.Length == BLOCK && PrimitiveSize(size) && 0 < bpv <= size
    requires Rows(lanes, Lanes(size), 4 * bpv, size) && Rows(vals, Lanes(size), 4 * size, bpv)
    requires Holding(ints[..], lanes, size, 4 * bpv) && Layout(lanes, vals, bpv, size - bpv, 0)
    modifies ints
    ensures Holding(ints[..], vals, size, 4 * size)
  {
    hide Rows, WordOf, Layout, Unread;
    var tmp := ints[..4 * bpv];
    var idx: nat, shift: int := 0, size - bpv;
    while shift >= 0
      invariant shift + bpv <= size && idx <= 4 * size
      invariant Holding(ints[..], vals, size, idx) && Layout(lanes, vals, bpv, shift, idx)
      decreases shift
    {
      idx := GroupPass(ints, tmp, shift, bpv, size, idx, lanes, vals);
      shift := shift - bpv;
    }
    HasLanes(size);
    LayoutRest(lanes, vals, bpv, shift, idx, size, 4 * bpv);
    var r: nat := shift + bpv;
    if r > 0 {
      var t, left := 0, r;
      while idx < 4 * size
        invariant idx <= 4 * size && 0 < left <= r && Holding(ints[..], vals, size, idx)
        invariant Unread(lanes, vals, t, left, idx, r, bpv)
      {
        var l;
        l, t, left := NextValue(tmp, t, left, r, bpv, size, lanes, vals, idx);
        PatternRoundTrip(l, 0);
        ghost var before := ints[..];
        ints[idx] := I32(l);
        assert ints[..] == before[idx := ints[idx]];
        idx := idx + 1;
      }
    }
  }
}
