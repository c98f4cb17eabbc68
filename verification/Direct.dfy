// DirectWriter packing: fourteen widths, three byte groupings, one bitstream.
//
// The law all of it obeys: packing `v` at width w writes the number
// `Stream(v, w)` -- value i at bits [i*w, (i+1)*w) -- in `PackedLen` bytes, and
// every reader recovers `Digits` of the bytes' number.
module Direct {
  import opened Bits
  import opened Wire

  // The fourteen widths 1 2 4 | 8 12 16 20 24 28 32 | 40 48 56 64.
  predicate Supported(w: nat) {
    w == 1 || w == 2 || w == 4 || (8 <= w <= 64 && w % (if w <= 32 then 4 else 8) == 0)
  }

  predicate SubByte(w: nat) { w == 1 || w == 2 || w == 4 }
  predicate PairWidth(w: nat) { w == 12 || w == 20 || w == 28 }

  lemma SupportedWidths(w: nat)
    ensures Supported(w) <==> w in {1, 2, 4, 8, 12, 16, 20, 24, 28, 32, 40, 48, 56, 64}
  {
  }

  // ----- choosing a width -------------------------------------------------------

  // The number of bits below the leading zeros.
  function BitLength(x: nat): nat {
    if x == 0 then 0 else 1 + BitLength(x / 2)
  }

  lemma {:induction false} BitLengthIs(x: nat, w: nat)
    ensures BitLength(x) <= w <==> x < Pow2(w)
    decreases x
  {
    if x > 0 && w > 0 {
      BitLengthIs(x / 2, w - 1);
    }
  }

  function RoundUpWidth(raw: nat): (w: nat)
    requires raw <= 64
    ensures Supported(w) && raw <= w
    ensures forall s :: Supported(s) && raw <= s ==> w <= s
  {
    if raw <= 1 then 1 else if raw <= 2 then 2 else if raw <= 4 then 4
    else if raw <= 8 then 8 else if raw <= 12 then 12 else if raw <= 16 then 16
    else if raw <= 20 then 20 else if raw <= 24 then 24 else if raw <= 28 then 28
    else if raw <= 32 then 32 else if raw <= 40 then 40 else if raw <= 48 then 48
    else if raw <= 56 then 56 else 64
  }

  // The least supported width that holds `maxValue` read as unsigned.
  function UnsignedBitsRequired(maxValue: i64): (w: nat)
    ensures Supported(w) && AsU64(maxValue) < Pow2(w)
    ensures forall s :: Supported(s) && AsU64(maxValue) < Pow2(s) ==> w <= s
  {
    var x := AsU64(maxValue);
    Pow2Values();
    BitLengthIs(x, 64);
    var raw := if maxValue == 0 then 1 else BitLength(x);
    var w := RoundUpWidth(raw);
    BitLengthIs(x, w);
    assert forall s :: Supported(s) && x < Pow2(s) ==> w <= s by {
      forall s | Supported(s) && x < Pow2(s) ensures w <= s {
        BitLengthIs(x, s);
      }
    }
    w
  }

  // ----- the layout ---------------------------------------------------------------

  function CeilDiv(a: nat, b: nat): nat
    requires b > 0
  {
    (a + b - 1) / b
  }

  // How many values make a byte-aligned group, and the bytes of a group of n.
  function GroupSize(w: nat): nat
    requires Supported(w)
  {
    if w % 8 == 0 then 1 else if w == 1 then 64 else if w == 2 then 32 else if w == 4 then 16 else 2
  }

  function ValuesPerLong(w: nat): (g: nat)
    requires SubByte(w)
    ensures g == GroupSize(w) && g >= 16
  {
    64 / w
  }

  function GroupLen(n: nat, w: nat): nat
    requires Supported(w)
  {
    if w < 8 || n == 0 then CeilDiv(Span(w, n), 8)
    else if w % 8 == 0 then w / 8
    else w * 2 / 8
  }

  function PayloadLen(count: nat, w: nat): nat
    requires Supported(w)
  {
    if count <= GroupSize(w) then GroupLen(count, w)
    else GroupLen(GroupSize(w), w) + PayloadLen(count - GroupSize(w), w)
  }

  // Trailing bytes so that readers can over-read.
  function PadLen(w: nat): nat
    requires w <= 64
  {
    CeilDiv(if w > 32 then 64 - w else if w > 16 then 32 - w else if w > 8 then 16 - w else 0, 8)
  }

  function PackedLen(count: nat, w: nat): nat
    requires w == 0 || Supported(w)
  {
    if w == 0 then 0 else PayloadLen(count, w) + PadLen(w)
  }

  // n values make up whole groups of g.
  predicate Whole(n: nat, g: nat) {
    n == 0 || (0 < g <= n && Whole(n - g, g))
  }

  lemma {:induction false} WholeNext(n: nat, g: nat)
    requires Whole(n, g) && g > 0
    ensures Whole(n + g, g)
  {
    if n > 0 {
      WholeNext(n - g, g);
    }
  }

  lemma FullGroup(w: nat)
    requires Supported(w)
    ensures Span(w, GroupSize(w)) == 8 * GroupLen(GroupSize(w), w)
  {
    SpanIs(w, GroupSize(w));
  }

  lemma PartGroup(n: nat, w: nat)
    requires Supported(w) && n <= GroupSize(w)
    ensures Span(w, n) <= 8 * GroupLen(n, w)
  {
    hide Span;
    SpanIs(w, n);
    if w < 8 || n == 0 {
    } else if n == 1 {
    } else {
      assert n == 2 && w % 4 == 0;
    }
  }

  lemma SmallGroup(n: nat, w: nat)
    requires Supported(w) && n <= GroupSize(w)
    ensures PayloadLen(n, w) == GroupLen(n, w) && PayloadLen(0, w) == 0
  {
  }

  // Whole groups end on a byte, and a further group adds its own payload.
  lemma {:induction false} PayloadGroups(m: nat, n: nat, w: nat)
    requires Supported(w) && Whole(m, GroupSize(w)) && n <= GroupSize(w)
    ensures Span(w, m) == 8 * PayloadLen(m, w)
    ensures PayloadLen(m + n, w) == PayloadLen(m, w) + GroupLen(n, w)
    decreases m
  {
    hide GroupLen, GroupSize, Supported;
    var g := GroupSize(w);
    if m > 0 {
      PayloadGroups(m - g, n, w);
      FullGroup(w);
      SpanAdd(w, g, m - g);
    } else {
      SmallGroup(n, w);
    }
  }

  // The payload holds every bit of the stream.
  lemma {:induction false} PayloadCovers(count: nat, w: nat)
    requires Supported(w)
    ensures Span(w, count) <= 8 * PayloadLen(count, w)
    decreases count
  {
    var g := GroupSize(w);
    if count <= g {
      PartGroup(count, w);
    } else {
      PayloadCovers(count - g, w);
      FullGroup(w);
      SpanAdd(w, g, count - g);
    }
  }

  // The closed form of the payload length.
  // The padding lets a reader take the least of 1, 2, 4 and 8 bytes that is as wide as a value
  // wherever one starts.
  lemma ReadAhead(count: nat, w: nat, i: nat)
    requires Supported(w) && i < count
    ensures var bytes := if w <= 8 then 1 else if w <= 16 then 2 else if w <= 32 then 4 else 8;
            Span(w, i) / 8 + bytes <= PackedLen(count, w)
    ensures PackedLen(count, w) - PayloadLen(count, w) ==
              if w in {12, 24, 28, 56} then 1 else if w in {20, 48} then 2 else if w == 40 then 3 else 0
  {
    hide PayloadLen, Span;
    PayloadCovers(count, w);
    SpanUpTo(w, i, count);
  }

  function PayloadLenFormula(count: nat, w: nat): nat
    requires Supported(w)
  {
    if w % 8 == 0 then Span(w / 8, count)
    else if w < 8 then count / (64 / w) * 8 + CeilDiv(count % (64 / w) * w, 8)
    else Span(w * 2 / 8, CeilDiv(count, 2))
  }

  lemma {:induction false} PayloadLenClosed(count: nat, w: nat)
    requires Supported(w)
    ensures PayloadLen(count, w) == PayloadLenFormula(count, w)
    decreases count
  {
    hide PayloadLenFormula, GroupLen;
    var g := GroupSize(w);
    if count > g {
      PayloadLenClosed(count - g, w);
      FormulaStep(count, w);
    } else {
      FormulaBase(count, w);
    }
  }

  lemma FormulaBase(count: nat, w: nat)
    requires Supported(w) && count <= GroupSize(w)
    ensures GroupLen(count, w) == PayloadLenFormula(count, w)
  {
    hide Span;
    SpanIs(w, count);
    SpanIs(w / 8, count);
    SpanIs(w * 2 / 8, CeilDiv(count, 2));
    if w < 8 {
      SmallBase(count, w);
    } else if w % 8 != 0 {
      assert CeilDiv(count, 2) == if count == 0 then 0 else 1;
    }
  }

  lemma SmallBase(count: nat, w: nat)
    requires SubByte(w) && count <= GroupSize(w)
    ensures GroupLen(count, w) == PayloadLenFormula(count, w)
  {
    hide Span;
    SpanIs(w, count);
    if w == 1 {
      assert PayloadLenFormula(count, 1) == count / 64 * 8 + CeilDiv(count % 64 * 1, 8);
    } else if w == 2 {
      assert PayloadLenFormula(count, 2) == count / 32 * 8 + CeilDiv(count % 32 * 2, 8);
    } else {
      assert PayloadLenFormula(count, 4) == count / 16 * 8 + CeilDiv(count % 16 * 4, 8);
    }
  }

  lemma FormulaStep(count: nat, w: nat)
    requires Supported(w) && count > GroupSize(w)
    ensures PayloadLenFormula(count, w) ==
            GroupLen(GroupSize(w), w) + PayloadLenFormula(count - GroupSize(w), w)
  {
    SpanIs(w, GroupSize(w));
    if w == 1 {
      assert count / 64 == 1 + (count - 64) / 64;
    } else if w == 2 {
      assert PayloadLenFormula(count, 2) == count / 32 * 8 + CeilDiv(count % 32 * 2, 8);
    } else if w == 4 {
      assert PayloadLenFormula(count, 4) == count / 16 * 8 + CeilDiv(count % 16 * 4, 8);
    } else if w % 8 == 0 {
    } else {
      assert CeilDiv(count, 2) == 1 + CeilDiv(count - 2, 2);
    }
  }

  function U64s(values: seq<i64>): (u: seq<u64>)
    ensures |u| == |values|
  {
    seq(|values|, i requires 0 <= i < |values| => AsU64(values[i]))
  }

  function PackBytes(values: seq<nat>, w: nat): seq<byte>
    requires w == 0 || Supported(w)
  {
    LeBytes(Stream(values, w), PackedLen(|values|, w))
  }

  // The packed values without the padding.
  function Payload(v: seq<nat>, w: nat): seq<byte>
    requires Supported(w)
  {
    LeBytes(Stream(v, w), PayloadLen(|v|, w))
  }

  lemma ByteAppend(a: seq<nat>, b: seq<nat>, w: nat, j: nat, k: nat)
    requires Span(w, |a|) == 8 * j && Stream(a, w) < Pow2(8 * j)
    ensures LeBytes(Stream(a + b, w), j + k) == LeBytes(Stream(a, w), j) + LeBytes(Stream(b, w), k)
  {
    StreamAppend(a, b, w);
    var s := Stream(a + b, w);
    LeBytesSplit(s, j, k);
    JoinSplit(Stream(a, w), Stream(b, w), 8 * j);
    LeBytesLow(s, j);
  }

  lemma EmptyStream(w: nat)
    ensures Stream([], w) == 0
  {
  }

  lemma SingleValue(v: nat, w: nat)
    ensures Stream([v], w) == v
  {
    ShlZero(w);
    assert [v][1..] == [];
  }

  // One more value or-ed in above the ones already there.
  lemma OrAppend(a: seq<nat>, v: nat, w: nat)
    requires Fits(a, w) && v < Pow2(w)
    requires Span(w, |a|) + w <= 64
    ensures Or(Stream(a, w), Low(Shl(v, Span(w, |a|)), 64)) == Stream(a + [v], w)
  {
    var n := Span(w, |a|);
    StreamBound(a, w);
    StreamAppend(a, [v], w);
    SingleValue(v, w);
    OrDisjoint(Stream(a, w), v, n);
    ShlBound(v, w, n, 64);
  }

  lemma ShlBound(v: nat, w: nat, n: nat, m: nat)
    requires v < Pow2(w) && w + n <= m
    ensures Low(Shl(v, n), m) == Shl(v, n)
  {
    ShlAdd(v, 1, n);
    ShlMonotone(v + 1, Pow2(w), n);
    Pow2Add(w, n);
    Pow2Add(0, n);
    Pow2Monotone(w + n, m);
    LowSmall(Shl(v, n), m);
  }

  lemma LowBytes(x: nat, n: nat, k: nat)
    requires k <= n
    ensures LeBytes(x, n)[..k] == LeBytes(x, k)
  {
    LeBytesSplit(x, k, n - k);
  }

  // ----- pack -----------------------------------------------------------------------

  function Group(u: seq<nat>, i: nat, n: nat): (g: seq<nat>)
    requires i <= |u|
  {
    if i + n <= |u| then u[i..i + n] else u[i..]
  }

  // A group as one 64-bit word: every value or-ed in at its place, where a value too wide
  // for its place reaches into the next one.
  function GroupWord(g: seq<nat>, w: nat): nat {
    if g == [] then 0
    else Or(GroupWord(g[..|g| - 1], w), Low(Shl(g[|g| - 1], Span(w, |g| - 1)), 64))
  }

  // What is written for any values, group by group.
  function PackedGroups(u: seq<nat>, w: nat): seq<byte>
    requires Supported(w)
    decreases |u|
  {
    if u == [] then []
    else
      var g := Group(u, 0, GroupSize(w));
      LeBytes(GroupWord(g, w), GroupLen(|g|, w)) + PackedGroups(u[|g|..], w)
  }

  function Packed(u: seq<nat>, w: nat): seq<byte>
    requires w == 0 || Supported(w)
  {
    if w == 0 then [] else PackedGroups(u, w) + Zeros(PadLen(w))
  }

  // What is left to write from value i on: its group, and the rest.
  lemma NextGroup(u: seq<nat>, i: nat, w: nat)
    requires Supported(w) && i < |u|
    ensures var g := Group(u, i, GroupSize(w));
            && 0 < |g| <= GroupSize(w) && i + |g| <= |u| && |g| == (if i + GroupSize(w) <= |u| then GroupSize(w) else |u| - i)
            && PackedGroups(u[i..], w) == LeBytes(GroupWord(g, w), GroupLen(|g|, w)) + PackedGroups(u[i + |g|..], w)
  {
    hide GroupWord, LeBytes, GroupLen;
    var g := Group(u, i, GroupSize(w));
    assert Group(u[i..], 0, GroupSize(w)) == g;
    assert u[i..][|g|..] == u[i + |g|..];
  }

  ghost predicate Left(out: seq<byte>, u: seq<nat>, i: nat, w: nat, goal: seq<byte>) {
    match Supported(w) && i <= |u|
    case true => out + PackedGroups(u[i..], w) == goal
    case false => false
  }

  lemma LeftStep(out: seq<byte>, u: seq<nat>, i: nat, w: nat, goal: seq<byte>, encoded: seq<byte>, n: nat)
    requires Left(out, u, i, w, goal) && i < |u| && Supported(w)
    requires n == |Group(u, i, GroupSize(w))| && encoded == LeBytes(GroupWord(Group(u, i, GroupSize(w)), w), GroupLen(n, w))
    ensures Left(out + encoded, u, i + n, w, goal)
  {
    hide GroupWord, LeBytes, GroupLen, PackedGroups, GroupSize, Group;
    NextGroup(u, i, w);
    Assoc(out, encoded, PackedGroups(u[i + n..], w));
  }

  lemma LeftStart(out: seq<byte>, u: seq<nat>, w: nat)
    requires Supported(w)
    ensures Left(out, u, 0, w, out + PackedGroups(u, w))
  {
    assert u[0..] == u;
  }

  lemma LeftEnd(out: seq<byte>, u: seq<nat>, w: nat, goal: seq<byte>)
    requires Left(out, u, |u|, w, goal)
    ensures out == goal
  {
  }

  lemma OneWord(v: u64, w: nat)
    ensures GroupWord([v], w) == v && GroupWord([], w) == 0
  {
    Pow2Values();
    LowSmall(v, 64);
    assert [v][..0] == [];
  }

  method PackAligned(u: seq<u64>, w: nat, out: seq<byte>) returns (out': seq<byte>)
    requires Supported(w) && w % 8 == 0
    ensures out' == out + PackedGroups(u, w)
  {
    hide Left, PackedGroups, LeBytes, GroupWord, GroupLen, Supported;
    var bytesPerValue := w / 8;
    out' := out;
    LeftStart(out, u, w);
    for i := 0 to |u|
      invariant Left(out', u, i, w, out + PackedGroups(u, w))
    {
      AlignedBytes(u[i], w);
      assert Group(u, i, 1) == [u[i]];
      LeftStep(out', u, i, w, out + PackedGroups(u, w), LeBytes(u[i], 8)[..bytesPerValue], 1);
      out' := out' + LeBytes(u[i], 8)[..bytesPerValue];
    }
    LeftEnd(out', u, w, out + PackedGroups(u, w));
  }

  lemma AlignedBytes(v: u64, w: nat)
    requires Supported(w) && w % 8 == 0
    ensures w / 8 <= 8 && GroupSize(w) == 1
    ensures LeBytes(v, 8)[..w / 8] == LeBytes(GroupWord([v], w), GroupLen(1, w))
  {
    hide LeBytes, GroupWord;
    OneWord(v, w);
    LowBytes(v, 8, w / 8);
  }

  // One 64-bit word: up to `GroupSize(w)` values or-ed in side by side.
  method PackLong(u: seq<u64>, i: nat, w: nat) returns (packed: nat)
    requires SubByte(w) && i < |u|
    ensures packed == GroupWord(Group(u, i, GroupSize(w)), w)
  {
    hide GroupWord, Or, Low, Shl, Span;
    var valuesPerLong := ValuesPerLong(w);
    packed := 0;
    OneWord(0, w);
    assert Group(u, i, 0) == [];
    for j := 0 to valuesPerLong
      invariant packed == GroupWord(Group(u, i, j), w)
    {
      if i + j < |u| {
        WordStep(u, i, j, w);
        packed := Or(packed, Low(Shl(u[i + j], Span(w, j)), 64));
      } else {
        assert Group(u, i, j + 1) == Group(u, i, j);
      }
    }
  }

  lemma WordStep(u: seq<u64>, i: nat, j: nat, w: nat)
    requires i + j < |u|
    ensures GroupWord(Group(u, i, j + 1), w) == Or(GroupWord(Group(u, i, j), w), Low(Shl(u[i + j], Span(w, j)), 64))
  {
    hide Or, Low, Shl, Span;
    var g := Group(u, i, j + 1);
    assert g[..|g| - 1] == Group(u, i, j) && g[|g| - 1] == u[i + j];
  }

  method PackLongs(u: seq<u64>, w: nat, out: seq<byte>) returns (out': seq<byte>)
    requires SubByte(w)
    ensures out' == out + PackedGroups(u, w)
  {
    hide Left, PackedGroups, LeBytes, GroupWord, GroupLen, Group, Span;
    var valuesPerLong := ValuesPerLong(w);
    out' := out;
    var i := 0;
    LeftStart(out, u, w);
    while i < |u|
      invariant i <= |u| && Left(out', u, i, w, out + PackedGroups(u, w))
    {
      var packed := PackLong(u, i, w);
      var remaining := if |u| - i < valuesPerLong then |u| - i else valuesPerLong;
      NextGroup(u, i, w);
      LongBytes(packed, remaining, w);
      var bytesNeeded := CeilDiv(Span(w, remaining), 8);
      LeftStep(out', u, i, w, out + PackedGroups(u, w), LeBytes(packed, 8)[..bytesNeeded], remaining);
      out' := out' + LeBytes(packed, 8)[..bytesNeeded];
      i := i + remaining; // the source steps a whole word, past the end on the last one
    }
    LeftEnd(out', u, w, out + PackedGroups(u, w));
  }

  lemma LongBytes(packed: nat, n: nat, w: nat)
    requires SubByte(w) && n <= GroupSize(w)
    ensures CeilDiv(Span(w, n), 8) <= 8
    ensures LeBytes(packed, 8)[..CeilDiv(Span(w, n), 8)] == LeBytes(packed, GroupLen(n, w))
  {
    SpanIs(w, n);
    LowBytes(packed, 8, CeilDiv(Span(w, n), 8));
  }

  method PackPairs(u: seq<u64>, w: nat, out: seq<byte>) returns (out': seq<byte>)
    requires PairWidth(w)
    ensures out' == out + PackedGroups(u, w)
  {
    hide Left, PackedGroups, LeBytes, GroupWord, GroupLen, Group, Span, Or, Low, Shl;
    var numBytesFor2 := w * 2 / 8;
    out' := out;
    var i := 0;
    LeftStart(out, u, w);
    while i < |u|
      invariant i <= |u| && Left(out', u, i, w, out + PackedGroups(u, w))
    {
      var l1 := u[i];
      var l2 := if i + 1 < |u| then u[i + 1] else 0;
      var merged := Or(l1, Low(Shl(l2, w), 64));
      PairBytes(u, i, w);
      var encoded := if w <= 16 then LeBytes(Low(merged, 32), 4)[..numBytesFor2]
                     else LeBytes(merged, 8)[..numBytesFor2];
      NextGroup(u, i, w);
      LeftStep(out', u, i, w, out + PackedGroups(u, w), encoded, if i + 2 <= |u| then 2 else 1);
      out' := out' + encoded;
      i := if i + 2 <= |u| then i + 2 else |u|; // the source steps by 2, past the end on an odd count
    }
    LeftEnd(out', u, w, out + PackedGroups(u, w));
  }

  // Both word sizes of the pair case write the pair; a missing second value is
  // written as zero.
  lemma PairBytes(u: seq<u64>, i: nat, w: nat)
    requires PairWidth(w) && i < |u|
    ensures var merged := Or(u[i], Low(Shl(if i + 1 < |u| then u[i + 1] else 0, w), 64));
            var pair := Group(u, i, 2);
            LeBytes(GroupWord(pair, w), GroupLen(|pair|, w)) ==
            (if w <= 16 then LeBytes(Low(merged, 32), 4)[..w * 2 / 8]
             else LeBytes(merged, 8)[..w * 2 / 8])
  {
    hide GroupWord, Or, Low, Shl, LeBytes, Span, Group;
    PairWord(u, i, w);
    PairLength(u, i, w);
    var merged := GroupWord(Group(u, i, 2), w);
    if w <= 16 {
      ThreeBytes(merged);
    } else {
      LowBytes(merged, 8, w * 2 / 8);
    }
  }

  lemma PairLength(u: seq<u64>, i: nat, w: nat)
    requires PairWidth(w) && i < |u|
    ensures GroupLen(|Group(u, i, 2)|, w) == w * 2 / 8 <= 8 && (w <= 16 ==> w * 2 / 8 == 3)
  {
    hide Span;
  }

  lemma ThreeBytes(merged: nat)
    ensures LeBytes(Low(merged, 32), 4)[..3] == LeBytes(merged, 3)
  {
    hide LeBytes, Low;
    LeBytesLow(merged, 4);
    LowBytes(merged, 4, 3);
  }

  lemma PairWord(u: seq<u64>, i: nat, w: nat)
    requires i < |u|
    ensures GroupWord(Group(u, i, 2), w) == Or(u[i], Low(Shl(if i + 1 < |u| then u[i + 1] else 0, w), 64))
  {
    hide Shl, Low;
    OneWord(u[i], w);
    assert Span(w, 1) == w;
    if i + 1 < |u| {
      assert Group(u, i, 2) == [u[i], u[i + 1]];
      assert [u[i], u[i + 1]][..1] == [u[i]];
    } else {
      assert Group(u, i, 2) == [u[i]];
      ShlZero(w);
      Pow2Values();
      LowSmall(0, 64);
    }
  }

  method Pack(values: seq<i64>, w: nat, out: seq<byte>) returns (out': seq<byte>)
    requires w == 0 || Supported(w)
    ensures out' == out + Packed(U64s(values), w)
    ensures w == 0 || Fits(U64s(values), w) ==> out' == out + PackBytes(U64s(values), w)
  {
    hide PackedGroups, PackBytes, Fits;
    if w == 0 {
      NoWidth(U64s(values));
      return out;
    }
    var u := U64s(values);
    if w % 8 == 0 {
      out' := PackAligned(u, w, out);
    } else if w < 8 {
      out' := PackLongs(u, w, out);
    } else {
      out' := PackPairs(u, w, out);
    }
    Assoc(out, PackedGroups(u, w), Zeros(PadLen(w)));
    out' := out' + Zeros(PadLen(w));
    if Fits(u, w) {
      PackedFits(u, w);
    }
  }

  lemma NoWidth(u: seq<nat>)
    ensures PackBytes(u, 0) == []
  {
  }

  // ----- packed values that fit ------------------------------------------------------------

  lemma {:induction false} WordFits(g: seq<nat>, w: nat)
    requires Fits(g, w) && Span(w, |g|) <= 64
    ensures GroupWord(g, w) == Stream(g, w)
  {
    hide Or, Low, Shl, Stream;
    if g != [] {
      var most := g[..|g| - 1];
      WordFits(most, w);
      OrAppend(most, g[|g| - 1], w);
      assert most + [g[|g| - 1]] == g;
    } else {
      EmptyStream(w);
    }
  }

  lemma GroupSpan(n: nat, w: nat)
    requires Supported(w) && n <= GroupSize(w)
    ensures Span(w, n) <= 64
  {
    SpanIs(w, n);
  }

  // Values that fit their places are the digits of one long number.
  lemma {:induction false} GroupsFit(u: seq<nat>, w: nat)
    requires Supported(w) && Fits(u, w)
    ensures PackedGroups(u, w) == Payload(u, w)
    decreases |u|
  {
    hide GroupWord, LeBytes, GroupLen, Stream, Pow2, Span, GroupSize, Supported, Low;
    if u == [] {
      NothingToPack(w);
    } else {
      NextGroup(u, 0, w);
      assert u[0..] == u;
      var g := Group(u, 0, GroupSize(w));
      var rest := u[|g|..];
      GroupSpan(|g|, w);
      WordFits(g, w);
      GroupsFit(rest, w);
      FirstGroup(g, rest, w);
      assert u == g + rest;
    }
  }

  lemma NothingToPack(w: nat)
    requires Supported(w)
    ensures Payload([], w) == []
  {
    assert Span(w, 0) == 0;
  }

  lemma FirstGroup(g: seq<nat>, rest: seq<nat>, w: nat)
    requires Supported(w) && Fits(g, w) && 0 < |g| <= GroupSize(w) && (rest == [] || |g| == GroupSize(w))
    ensures Payload(g + rest, w) == LeBytes(Stream(g, w), GroupLen(|g|, w)) + Payload(rest, w)
  {
    hide LeBytes, GroupLen, Stream, Pow2, Span, Supported, Fits;
    if rest == [] {
      NothingToPack(w);
      assert g + rest == g;
    } else {
      FullGroup(w);
      StreamBound(g, w);
      ByteAppend(g, rest, w, GroupLen(|g|, w), PayloadLen(|rest|, w));
    }
  }

  lemma PackedFits(u: seq<nat>, w: nat)
    requires Supported(w) && Fits(u, w)
    ensures Packed(u, w) == PackBytes(u, w)
  {
    hide PackedGroups, Payload, Fits;
    GroupsFit(u, w);
    PaddedPayload(u, w);
  }

  lemma StreamFitsPayload(u: seq<nat>, w: nat)
    requires Supported(w) && Fits(u, w)
    ensures Stream(u, w) < Pow2(8 * PayloadLen(|u|, w))
  {
    PayloadCovers(|u|, w);
    StreamBound(u, w);
    Pow2Monotone(Span(w, |u|), 8 * PayloadLen(|u|, w));
  }

  lemma PaddedPayload(u: seq<nat>, w: nat)
    requires Supported(w) && Fits(u, w)
    ensures PackBytes(u, w) == Payload(u, w) + Zeros(PadLen(w))
  {
    StreamFitsPayload(u, w);
    LeBytesPad(Stream(u, w), PayloadLen(|u|, w), PadLen(w));
  }

  // ----- unpack -------------------------------------------------------------------------

  // The widths never make a value straddle nine bytes.
  lemma {:induction false} NeverStraddles(w: nat, i: nat)
    requires Supported(w)
    ensures Span(w, i) % 8 + w <= 64
    ensures w % 8 == 0 ==> Span(w, i) % 8 == 0
  {
    if i > 0 && w % 8 == 0 {
      NeverStraddles(w, i - 1);
    }
  }

  // A field read through a window of the bytes is the field of the whole.
  lemma FieldInWindow(bytes: seq<byte>, bit: nat, w: nat, end: nat)
    requires bit / 8 <= end <= |bytes|
    requires bit % 8 + w <= 8 * (end - bit / 8)
    ensures Low(Shr(LeNum(bytes[bit / 8..end]), bit % 8), w) == Low(Shr(LeNum(bytes), bit), w)
  {
    hide LeNum, Low, Shr;
    var at := bit / 8;
    BytesSplit(bytes, at);
    ShrShr(LeNum(bytes), 8 * at, bit % 8);
    BytesSplit(bytes[at..], end - at);
    assert bytes[at..][..end - at] == bytes[at..end];
    FieldOfLow(LeNum(bytes[at..]), 8 * (end - at), bit % 8, w);
  }

  lemma BytesSplit(bytes: seq<byte>, at: nat)
    requires at <= |bytes|
    ensures Low(LeNum(bytes), 8 * at) == LeNum(bytes[..at]) && Shr(LeNum(bytes), 8 * at) == LeNum(bytes[at..])
  {
    hide LeNum, Low, Shr, Pow2;
    assert bytes == bytes[..at] + bytes[at..];
    LeNumAppend(bytes[..at], bytes[at..]);
    LeNumBound(bytes[..at]);
    JoinSplit(LeNum(bytes[..at]), LeNum(bytes[at..]), 8 * at);
  }

  lemma {:induction false} LeNumPadded(b: seq<byte>, k: nat)
    ensures LeNum(b + Zeros(k)) == LeNum(b)
  {
    LeNumAppend(b, Zeros(k));
    LeBytesZero(k);
    LeNumBytes(0, k);
    LowZero(8 * k);
    ShlZero(8 * |b|);
  }

  lemma {:induction false} LowZero(w: nat)
    ensures Low(0, w) == 0
  {
    if w > 0 {
      LowZero(w - 1);
    }
  }

  function UnpackFused(bytes: seq<byte>, w: nat, count: nat): Result<seq<nat>> {
    if !Supported(w) || |bytes| < CeilDiv(Span(w, count), 8) then Err(Corrupt)
    else Ok(Digits(LeNum(bytes), w, count))
  }

  // The fused single pass: 8-byte reads while one fits, then a byte-assembled
  // tail. The collected values stand for the calls to `emit`.
  method ForEachUnpacked(bytes: seq<byte>, w: nat, count: nat) returns (r: Result<seq<nat>>)
    ensures r == UnpackFused(bytes, w, count)
  {
    if !Supported(w) {
      return Err(Corrupt);
    }
    var need := CeilDiv(Span(w, count), 8);
    if |bytes| < need {
      return Err(Corrupt);
    }
    var out := [];
    if |bytes| >= 8 {
      out := UnpackWords(bytes, w, count);
    }
    var i := |out|;
    while i < count
      invariant i <= count && out == Digits(LeNum(bytes), w, count)[..i]
    {
      TailFits(w, i, count, |bytes|);
      var bit := Span(w, i);
      var at := bit / 8;
      var end := if |bytes| - at < 8 then |bytes| else at + 8;
      var word := LeNum(bytes[at..end] + Zeros(8 - (end - at)));
      LeNumPadded(bytes[at..end], 8 - (end - at));
      EmitIsDigit(bytes, w, count, i, end);
      out := out + [Low(Shr(word, bit % 8), w)];
      i := i + 1;
    }
    assert out == Digits(LeNum(bytes), w, count);
    return Ok(out);
  }

  method UnpackWords(bytes: seq<byte>, w: nat, count: nat) returns (out: seq<nat>)
    requires Supported(w) && |bytes| >= 8
    ensures |out| <= count && out == Digits(LeNum(bytes), w, count)[..|out|]
  {
    out := [];
    var lastFull := |bytes| - 8;
    var i := 0;
    while i < count
      invariant |out| == i <= count && out == Digits(LeNum(bytes), w, count)[..i]
    {
      var bit := Span(w, i);
      var at := bit / 8;
      if at > lastFull {
        break;
      }
      var word := LeNum(bytes[at..at + 8]);
      var shift := bit % 8;
      NeverStraddles(w, i);
      if w + shift <= 64 {
        EmitIsDigit(bytes, w, count, i, at + 8);
        out := out + [Low(Shr(word, shift), w)];
        i := i + 1;
      } else {
        assert false;
      }
    }
  }

  lemma TailFits(w: nat, i: nat, count: nat, len: nat)
    requires Supported(w) && i < count && CeilDiv(Span(w, count), 8) <= len
    ensures Span(w, i) / 8 < len
    ensures Span(w, i) % 8 + w <= 8 * (len - Span(w, i) / 8)
    ensures Span(w, i) % 8 + w <= 64
  {
    NeverStraddles(w, i);
    SpanAdd(w, i + 1, count - i - 1);
  }

  lemma EmitIsDigit(bytes: seq<byte>, w: nat, count: nat, i: nat, end: nat)
    requires i < count && Span(w, i) / 8 <= end <= |bytes|
    requires Span(w, i) % 8 + w <= 8 * (end - Span(w, i) / 8)
    ensures Digits(LeNum(bytes), w, count)[i] ==
            Low(Shr(LeNum(bytes[Span(w, i) / 8..end]), Span(w, i) % 8), w)
  {
    DigitAt(LeNum(bytes), w, count, i);
    FieldInWindow(bytes, Span(w, i), w, end);
  }

  function UnpackGrouped(bytes: seq<byte>, w: nat, count: nat): Result<seq<nat>> {
    if !Supported(w) || |bytes| < PayloadLen(count, w) then Err(Corrupt)
    else Ok(Digits(LeNum(bytes), w, count))
  }

  // Packing then unpacking, whatever follows the packed bytes in the file.
  lemma UnpackOfPack(values: seq<nat>, w: nat, rest: seq<byte>)
    requires Supported(w) && Fits(values, w)
    ensures UnpackFused(PackBytes(values, w) + rest, w, |values|) == Ok(values)
    ensures UnpackGrouped(PackBytes(values, w) + rest, w, |values|) == Ok(values)
  {
    PayloadCovers(|values|, w);
    StreamFitsPayload(values, w);
    DigitsOfBytes(values, w, PackedLen(|values|, w), rest);
  }

  // What was packed comes back exactly when every value fits the width.
  lemma PackExact(u: seq<u64>, w: nat, rest: seq<byte>)
    requires Supported(w)
    ensures UnpackFused(Packed(u, w) + rest, w, |u|) == Ok(u) <==> Fits(u, w)
  {
    hide Supported, Packed, PackBytes, Fits, Digits, LeNum;
    if Fits(u, w) {
      PackedFits(u, w);
      UnpackOfPack(u, w, rest);
    } else {
      var n := LeNum(Packed(u, w) + rest);
      DigitsFit(n, w, |u|);
    }
  }

  lemma DigitsOfBytes(values: seq<nat>, w: nat, len: nat, rest: seq<byte>)
    requires Fits(values, w) && Span(w, |values|) <= 8 * len
    ensures Digits(LeNum(LeBytes(Stream(values, w), len) + rest), w, |values|) == values
  {
    hide Stream, Digits, LeNum, LeBytes, Low, Shl, Pow2, Span, Fits;
    var n, span := Stream(values, w), Span(w, |values|);
    var packed := LeBytes(n, len);
    StreamBound(values, w);
    Pow2Monotone(span, 8 * len);
    LeNumOfBytes(n, len);
    LeNumAppend(packed, rest);
    JoinSplit(n, LeNum(rest), 8 * len);
    FieldOfLow(LeNum(packed + rest), 8 * len, 0, span);
    DigitsLow(LeNum(packed + rest), w, |values|);
    LowSmall(n, span);
    DigitsStream(values, w);
  }
}
