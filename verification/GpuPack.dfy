// The device packer gathers each 64-bit word of the payload from the values that
// touch it; the words are the payload's bytes. The device reader takes a value
// from two neighbouring words with a funnel shift. Both are the one bitstream.
module GpuPack {
  import opened Bits
  import opened Wire
  import opened BinaryGcd
  import opened StatsPass
  import opened Policy
  import opened NumericWrite
  import Direct

  // ----- shifts of sums ----------------------------------------------------------------

  lemma {:induction false} LowAddShl(a: nat, x: nat, k: nat, w: nat)
    requires w <= k
    ensures Low(a + Shl(x, k), w) == Low(a, w)
    decreases w
  {
    if w > 0 {
      assert (a + Shl(x, k)) / 2 == a / 2 + Shl(x, k - 1);
      LowAddShl(a / 2, x, k - 1, w - 1);
    }
  }

  // Above a short number, a shifted one is or-ed in, even when its top is cut off.
  lemma OrShifted(a: nat, x: nat, s: nat, w: nat)
    requires a < Pow2(s) && s <= w
    ensures Or(a, Low(Shl(x, s), w)) == Low(a + Shl(x, s), w)
  {
    var k := w - s;
    LowAdd(Shl(x, s), s, k);
    LowAddShl(0, x, s, s);
    LowZeroIs(s);
    JoinSplit(0, x, s);
    Pow2Positive(s);
    assert Low(Shl(x, s), w) == Shl(Low(x, k), s);
    LowAdd(a + Shl(x, s), s, k);
    JoinSplit(a, x, s);
    OrDisjoint(a, Low(x, k), s);
  }

  lemma {:induction false} LowZeroIs(w: nat)
    ensures Low(0, w) == 0
    decreases w
  {
    if w > 0 {
      LowZeroIs(w - 1);
    }
  }

  lemma Pow2Positive(s: nat)
    ensures 0 < Pow2(s)
  {
  }

  // ----- one word -------------------------------------------------------------------------

  // Bits lo .. lo + 64 of the stream.
  function WordAt(x: seq<nat>, w: nat, lo: nat): nat { Low(Shr(Stream(x, w), lo), 64) }

  // What the values first .. i put into the word.
  function Partial(x: seq<nat>, w: nat, first: nat, i: nat, lo: nat): nat
    requires first <= i <= |x| && Span(w, first) <= lo
  {
    Low(Shr(Stream(x[first..i], w), lo - Span(w, first)), 64)
  }

  lemma {:induction false} SpanMonotone(w: nat, i: nat, j: nat)
    requires i <= j
    ensures Span(w, i) <= Span(w, j)
  {
    SpanAdd(w, i, j - i);
  }

  lemma SkipBefore(x: seq<nat>, w: nat, first: nat, lo: nat)
    requires first <= |x| && Fits(x, w) && Span(w, first) <= lo
    ensures WordAt(x, w, lo) == Low(Shr(Stream(x[first..], w), lo - Span(w, first)), 64)
  {
    hide Shr, Low, Shl, Stream, Pow2, Span;
    assert x == x[..first] + x[first..];
    StreamAppend(x[..first], x[first..], w);
    assert Fits(x[..first], w);
    StreamBound(x[..first], w);
    JoinSplit(Stream(x[..first], w), Stream(x[first..], w), Span(w, first));
    ShrShr(Stream(x, w), Span(w, first), lo - Span(w, first));
  }

  // Adding value i, at or after the start of the word.
  lemma AddAbove(x: seq<nat>, w: nat, first: nat, i: nat, lo: nat)
    requires first <= i < |x| && Fits(x, w) && Span(w, first) <= lo <= Span(w, i) < lo + 64
    ensures Or(Partial(x, w, first, i, lo), Low(Shl(x[i], Span(w, i) - lo), 64)) == Partial(x, w, first, i + 1, lo)
  {
    hide Shr, Low, Shl, Stream, Pow2, Span, Or;
    var part := x[first..i];
    var n, d := Span(w, |part|), lo - Span(w, first);
    SpanAdd(w, first, i - first);
    assert x[first..i + 1] == part + [x[i]];
    StreamAppend(part, [x[i]], w);
    Direct.SingleValue(x[i], w);
    assert Fits(part, w);
    StreamBound(part, w);
    ShrAddShl(Stream(part, w), x[i], n, d);
    ShrBelow(Stream(part, w), n, d);
    ShortLow(Shr(Stream(part, w), d), n - d);
    OrShifted(Shr(Stream(part, w), d), x[i], n - d, 64);
  }

  lemma ShortLow(a: nat, s: nat)
    requires a < Pow2(s) && s <= 64
    ensures Low(a, 64) == a
  {
    Pow2Monotone(s, 64);
    LowSmall(a, 64);
  }

  // The first value, when it starts before the word.
  lemma AddBelow(x: seq<nat>, w: nat, i: nat, lo: nat)
    requires i < |x| && Fits(x, w) && w <= 64 && Span(w, i) < lo
    ensures Or(0, Shr(x[i], lo - Span(w, i))) == Partial(x, w, i, i + 1, lo)
  {
    hide Shr, Low, Shl, Stream, Pow2, Span;
    assert x[i..i + 1] == [x[i]];
    Direct.SingleValue(x[i], w);
    ShrLess(x[i], lo - Span(w, i));
    Pow2Monotone(w, 64);
    LowSmall(Shr(x[i], lo - Span(w, i)), 64);
  }

  lemma {:induction false} ShrLess(x: nat, s: nat)
    ensures Shr(x, s) <= x
    decreases s
  {
    if s > 0 {
      ShrLess(x / 2, s - 1);
    }
  }

  // Values from the next word on put nothing into this one.
  lemma NothingAfter(x: seq<nat>, w: nat, first: nat, i: nat, lo: nat)
    requires first <= i <= |x| && Fits(x, w) && Span(w, first) <= lo && (i < |x| ==> Span(w, i) >= lo + 64)
    ensures Partial(x, w, first, i, lo) == WordAt(x, w, lo)
  {
    hide Shr, Low, Shl, Stream, Pow2, Span;
    SkipBefore(x, w, first, lo);
    if i < |x| {
      var part, rest := x[first..i], x[i..];
      var n, d := Span(w, |part|), lo - Span(w, first);
      SpanAdd(w, first, i - first);
      assert x[first..] == part + rest;
      StreamAppend(part, rest, w);
      ShrAddShl(Stream(part, w), Stream(rest, w), n, d);
      LowAddShl(Shr(Stream(part, w), d), Stream(rest, w), n - d, 64);
    } else {
      assert x[first..i] == x[first..];
    }
  }

  // ----- the code of a value -------------------------------------------------------------------

  // Where the kernel subtracts, the signed difference does not overflow.
  lemma NoOverflow(values: seq<i64>, v: i64)
    requires |values| > 0 && v in values && ChoiceOf(values).bpv > 0
    requires ChoiceOf(values).table.None? && !(ChoiceOf(values).bpv == 64 && ChoiceOf(values).gcd == 1)
    ensures var c := ChoiceOf(values);
            && c.gcd > 0 && 0 <= v - c.min < TWO_63
            && CodeOf(c, v) == Quotient(v - c.min, c.gcd)
  {
    hide IsStats, StatsOf, Choose, CodeOf, Quotient, Divides, DeltaBits, Recovers;
    var s := StatsOf(values);
    ChoiceSupported(values);
    GcdAtLeast(values, s, v);
    TableHas(values, s, v);
    if s.max - s.min >= TWO_63 {
      WideRangeGcd(values, s);
      WideDelta(s, v);
    }
    ExactCode(s, v);
  }

  lemma ExactCode(s: NumericStats, v: i64)
    requires s.gcd > 0 && s.min <= v <= s.max && s.min < s.max && Choose(s).table.None?
    requires s.max - s.min >= TWO_63 ==> s.gcd == 1 && DeltaBits(s) == 64
    requires !(Choose(s).bpv == 64 && Choose(s).gcd == 1)
    ensures var c := Choose(s); c.gcd > 0 && 0 <= v - c.min < TWO_63 && CodeOf(c, v) == Quotient(v - c.min, c.gcd)
  {
    hide DeltaBits, BitsOf, Quotient, Wrap;
    var d := v - Choose(s).min;
    WrapIsIdentity(d);
    QuotientMonotone(d, d, s.gcd);
  }

  // Lower bound in the sorted table.
  method SearchTable(t: seq<i64>, v: i64) returns (idx: nat)
    requires Ascending(t) && v in t
    ensures idx == IndexOf(t, v)
  {
    var lo: int, hi: int := 0, |t| - 1;
    idx := 0;
    ghost var at := IndexOf(t, v);
    while lo <= hi
      invariant 0 <= lo <= |t| && -1 <= hi < |t|
      invariant lo <= at && (at <= hi || idx == at)
      invariant at > hi ==> idx == at
    {
      var mid := (lo + hi) / 2;
      if t[mid] < v {
        lo := mid + 1;
      } else {
        idx := mid;
        hi := mid - 1;
      }
    }
  }

  method KernelCode(ghost values: seq<i64>, c: Choice, v: i64) returns (x: nat)
    requires |values| > 0 && v in values && c == ChoiceOf(values) && c.bpv > 0
    requires c.table.None? ==> !(c.bpv == 64 && c.gcd == 1)
    ensures (c.table.None? ==> c.gcd > 0) && x == CodeOf(c, v) < Pow2(c.bpv)
  {
    hide ChoiceOf, Quotient, Pow2, Low;
    CodeFits(values, v);
    match c.table
    case Some(t) =>
      TableReady(values, v);
      x := SearchTable(t, v);
    case None =>
      NoOverflow(values, v);
      x := Quotient(v - c.min, c.gcd);
    LowSmall(x, c.bpv);
    x := Low(x, c.bpv);
  }

  lemma CodeFits(values: seq<i64>, v: i64)
    requires |values| > 0 && v in values && ChoiceOf(values).bpv > 0
    ensures var c := ChoiceOf(values); (c.table.None? ==> c.gcd > 0) && CodeOf(c, v) < Pow2(c.bpv)
  {
    hide IsStats, Direct.UnsignedBitsRequired, CodeOf, Pow2;
    ChoiceSupported(values);
    PolicyRecovers(values, StatsOf(values), v);
  }

  lemma TableReady(values: seq<i64>, v: i64)
    requires |values| > 0 && v in values && ChoiceOf(values).table.Some?
    ensures Ascending(ChoiceOf(values).table.value) && v in ChoiceOf(values).table.value
  {
    hide Direct.UnsignedBitsRequired;
    var s := StatsOf(values);
    assert IsTable(Distinct(values), s.table);
    TableHas(values, s, v);
  }

  lemma CodesFit(values: seq<i64>)
    requires |values| > 0 && ChoiceOf(values).bpv > 0
    ensures var c := ChoiceOf(values);
            && (c.table.None? ==> c.gcd > 0) && Fits(Codes(values, c), c.bpv) && Direct.Supported(c.bpv)
  {
    hide ChoiceOf, CodeOf, Pow2, Direct.Supported;
    ChoiceSupported(values);
    CodeFits(values, values[0]);
    var c := ChoiceOf(values);
    forall i | 0 <= i < |values| ensures Codes(values, c)[i] < Pow2(c.bpv) {
      CodeFits(values, values[i]);
    }
  }

  // ----- the kernel ------------------------------------------------------------------------------

  // lo_bit / bpv
  lemma FirstValue(w: nat, lo: nat)
    requires w > 0
    ensures Span(w, lo / w) <= lo < Span(w, lo / w + 1)
  {
    SpanIs(w, lo / w);
    SpanIs(w, lo / w + 1);
    assert (lo / w + 1) * w == lo / w * w + w;
  }

  method GatherWord(values: seq<i64>, c: Choice, word: nat) returns (out: nat)
    requires |values| > 0 && c == ChoiceOf(values) && c.bpv > 0
    requires c.table.None? ==> c.gcd > 0 && !(c.bpv == 64 && c.gcd == 1)
    ensures out == WordAt(Codes(values, c), c.bpv, 64 * word)
  {
    hide ChoiceOf, Pow2, Low, Shr, Shl, Stream, Span, Or, CodeOf, WordAt, Partial;
    var lo := 64 * word;
    CodesFit(values);
    ghost var x := Codes(values, c);
    FirstValue(c.bpv, lo);
    var first := lo / c.bpv;
    out := 0;
    if first >= |values| {
      PastEnd(x, c.bpv, lo);
      return;
    }
    NothingYet(x, c.bpv, first, lo);
    var i := first;
    while i < |values| && Span(c.bpv, i) < lo + 64
      invariant first <= i <= |values| && out == Partial(x, c.bpv, first, i, lo)
    {
      var bit := Span(c.bpv, i);
      var code := KernelCode(values, c, values[i]);
      if bit >= lo {
        AddAbove(x, c.bpv, first, i, lo);
        out := Or(out, Low(Shl(code, bit - lo), 64));
      } else {
        AddFirst(x, c.bpv, first, i, lo);
        out := Or(out, Shr(code, lo - bit));
      }
      i := i + 1;
    }
    NothingAfter(x, c.bpv, first, i, lo);
  }

  lemma AddFirst(x: seq<nat>, w: nat, first: nat, i: nat, lo: nat)
    requires first <= i < |x| && Fits(x, w) && Direct.Supported(w)
    requires Span(w, first) <= lo < Span(w, first + 1) && Span(w, i) < lo
    ensures Or(Partial(x, w, first, i, lo), Shr(x[i], lo - Span(w, i))) == Partial(x, w, first, i + 1, lo)
  {
    hide Shr, Span, Or, Partial, Fits;
    OnlyFirst(w, first, i, lo);
    Direct.SupportedWidths(w);
    NothingYet(x, w, first, lo);
    AddBelow(x, w, i, lo);
  }

  lemma OnlyFirst(w: nat, first: nat, i: nat, lo: nat)
    requires first <= i && Span(w, i) < lo < Span(w, first + 1)
    ensures i == first
  {
    if i > first {
      SpanMonotone(w, first + 1, i);
    }
  }

  lemma NothingYet(x: seq<nat>, w: nat, first: nat, lo: nat)
    requires first <= |x| && Span(w, first) <= lo
    ensures Partial(x, w, first, first, lo) == 0
  {
    hide Shr, Low, Span;
    assert x[first..first] == [];
    Direct.EmptyStream(w);
    ShrZero(lo - Span(w, first));
    LowZeroIs(64);
  }

  lemma PastEnd(x: seq<nat>, w: nat, lo: nat)
    requires Fits(x, w) && w > 0 && lo / w >= |x|
    ensures WordAt(x, w, lo) == 0
  {
    hide Shr, Low, Stream, Pow2;
    FirstValue(w, lo);
    SpanMonotone(w, |x|, lo / w);
    SkipBefore(x, w, |x|, lo);
    assert x[|x|..] == [];
    Direct.EmptyStream(w);
    ShrZero(lo - Span(w, |x|));
    LowZeroIs(64);
  }

  function Below(n: nat): (s: set<nat>)
    ensures forall k: nat :: k in s <==> k < n
  {
    if n == 0 then {} else Below(n - 1) + {n - 1}
  }

  // The words in any order: each is written by one thread.
  method PackWords(values: seq<i64>, c: Choice, count: nat) returns (words: seq<nat>)
    requires |values| > 0 && c == ChoiceOf(values) && c.bpv > 0
    requires c.table.None? ==> c.gcd > 0 && !(c.bpv == 64 && c.gcd == 1)
    ensures |words| == count && forall k :: 0 <= k < count ==> words[k] == WordAt(Codes(values, c), c.bpv, 64 * k)
  {
    hide ChoiceOf, WordAt, Codes;
    words := seq(count, k => 0);
    var left := Below(count);
    while left != {}
      invariant |words| == count && forall k :: k in left ==> k < count
      invariant forall k :: 0 <= k < count && k !in left ==> words[k] == WordAt(Codes(values, c), c.bpv, 64 * k)
      decreases left
    {
      var k :| k in left;
      var word := GatherWord(values, c, k);
      words := words[k := word];
      left := left - {k};
    }
  }

  // ----- words to bytes -------------------------------------------------------------------------------

  function BytesOf(words: seq<nat>): (b: seq<byte>)
    ensures |b| == 8 * |words|
  {
    if words == [] then [] else BytesOf(words[..|words| - 1]) + LeBytes(words[|words| - 1], 8)
  }

  lemma NextWord(n: nat, k: nat)
    ensures LeBytes(n, 8 * k + 8) == LeBytes(n, 8 * k) + LeBytes(Low(Shr(n, 64 * k), 64), 8)
  {
    hide Shr, Low, LeBytes;
    LeBytesSplit(n, 8 * k, 8);
    LeBytesLow(Shr(n, 64 * k), 8);
  }

  lemma {:induction false} WordBytes(n: nat, words: seq<nat>)
    requires forall k :: 0 <= k < |words| ==> words[k] == Low(Shr(n, 64 * k), 64)
    ensures BytesOf(words) == LeBytes(n, 8 * |words|)
    decreases |words|
  {
    hide Shr, Low, LeBytes;
    if words != [] {
      WordBytes(n, words[..|words| - 1]);
      NextWord(n, |words| - 1);
    } else {
      NoBytes();
    }
  }

  // The words are the payload, cut or padded with zeros to its length.
  method WordsToPayload(words: seq<nat>, length: nat, ghost n: nat) returns (out: seq<byte>)
    requires forall k :: 0 <= k < |words| ==> words[k] == Low(Shr(n, 64 * k), 64)
    requires n < Pow2(64 * |words|)
    ensures out == LeBytes(n, length)
  {
    hide Low, Shr, Pow2, LeBytes;
    WordBytes(n, words);
    var src := BytesOf(words);
    if length <= |src| {
      Direct.LowBytes(n, |src|, length);
      out := src[..length];
    } else {
      LeBytesPad(n, |src|, length - |src|);
      out := src + Zeros(length - |src|);
    }
  }

  lemma WordsCover(x: seq<nat>, w: nat, count: nat)
    requires Fits(x, w) && Span(w, |x|) <= 64 * count
    ensures Stream(x, w) < Pow2(64 * count)
  {
    hide Pow2, Stream, Span;
    StreamBound(x, w);
    Pow2Monotone(Span(w, |x|), 64 * count);
  }

  // The full-width host pass.
  method PackWide(values: seq<i64>, base: i64) returns (out: seq<byte>)
    ensures out == LeBytes(Stream(seq<u64>(|values|, i requires 0 <= i < |values| => AsU64(Wrap(values[i] - base))), 64), 8 * |values|)
  {
    hide Wrap, AsU64, LeBytes, Stream;
    ghost var x := seq<u64>(|values|, i requires 0 <= i < |values| => AsU64(Wrap(values[i] - base)));
    out := [];
    NoBytes();
    for i := 0 to |values|
      invariant out == LeBytes(Stream(x[..i], 64), 8 * i)
    {
      NextWide(x, i);
      out := out + LeBytes(AsU64(Wrap(values[i] - base)), 8);
    }
    assert x[..|values|] == x;
  }

  lemma NoBytes()
    ensures forall n: nat :: LeBytes(n, 0) == []
  {
  }

  lemma NextWide(x: seq<u64>, i: nat)
    requires i < |x|
    ensures LeBytes(Stream(x[..i + 1], 64), 8 * (i + 1)) == LeBytes(Stream(x[..i], 64), 8 * i) + LeBytes(x[i], 8)
  {
    hide LeBytes, Stream;
    assert x[..i + 1] == x[..i] + [x[i]];
    SpanIs(64, i);
    Pow2Values();
    StreamBound(x[..i], 64);
    Direct.ByteAppend(x[..i], [x[i]], 64, 8 * i, 8);
    Direct.SingleValue(x[i], 64);
  }

  lemma WideCodes(values: seq<i64>, c: Choice)
    requires c.table.None? && c.gcd == 1
    ensures Codes(values, c) == seq<u64>(|values|, i requires 0 <= i < |values| => AsU64(Wrap(values[i] - c.min)))
  {
    hide Wrap, TruncDiv, AsU64;
    forall i | 0 <= i < |values| ensures Codes(values, c)[i] == AsU64(Wrap(values[i] - c.min)) {
      TruncDivByOne(Wrap(values[i] - c.min));
    }
  }

  lemma WideLength(count: nat)
    ensures Direct.PackedLen(count, 64) == 8 * count
  {
    Direct.PayloadLenClosed(count, 64);
    SpanIs(8, count);
  }

  // The device encoder writes exactly the bytes of the host packer.
  method Pack(values: seq<i64>, c: Choice) returns (out: seq<byte>)
    requires |values| > 0 && c == ChoiceOf(values) && c.bpv > 0
    ensures (c.table.None? ==> c.gcd > 0) && Direct.Supported(c.bpv)
    ensures out == Direct.PackBytes(Codes(values, c), c.bpv)
  {
    hide ChoiceOf, Codes, Direct.PackedLen, Direct.Supported, LeBytes, Stream, Pow2, Low, Shr, Span;
    CodesFit(values);
    if c.bpv == 64 && c.gcd == 1 && c.table.None? {
      WideCodes(values, c);
      WideLength(|values|);
      out := PackWide(values, c.min);
      return;
    }
    var bits := Span(c.bpv, |values|);
    var count := Direct.CeilDiv(bits, 64);
    if count == 0 {
      count := 1;
    }
    var words := PackWords(values, c, count);
    WordsCover(Codes(values, c), c.bpv, count);
    out := WordsToPayload(words, Direct.PackedLen(|values|, c.bpv), Stream(Codes(values, c), c.bpv));
  }

  // ----- the device reader -------------------------------------------------------------------------------

  // Bits s .. s + w of a number, from the two words around them.
  lemma FunnelShift(n: nat, s: nat, w: nat)
    requires s < 64 && w <= 64
    ensures var lo := Shr(Low(n, 64), s);
            var hi := if s == 0 then 0 else Low(Shl(Low(Shr(n, 64), 64), 64 - s), 64);
            Low(Or(lo, hi), w) == Low(Shr(n, s), w)
  {
    hide Shr, Low, Shl, Pow2, Or;
    var a, b := Low(n, 64), Shr(n, 64);
    LowBound(n, 64);
    LowShr(n, 64);
    ShrAddShl(a, b, 64, s);
    ShrBelow(a, 64, s);
    if s == 0 {
      NoShift(n, a);
      FieldOfLow(n, 64, 0, w);
    } else {
      OrShifted(Shr(a, s), Low(b, 64), 64 - s, 64);
      var sum := Shr(a, s) + Shl(Low(b, 64), 64 - s);
      LowOfLow(sum, 64, w);
      // The second word's own top bits fall outside.
      LowShr(b, 64);
      ShlAdd(Low(b, 64), Shl(Shr(b, 64), 64), 64 - s);
      ShlShl(Shr(b, 64), 64, 64 - s);
      LowAddShl(sum, Shr(b, 64), 128 - s, w);
    }
  }

  lemma NoShift(n: nat, a: nat)
    ensures Shr(n, 0) == n && Shr(a, 0) == a && Or(a, 0) == a
  {
  }

  lemma LowOfLow(x: nat, a: nat, w: nat)
    requires w <= a
    ensures Low(Low(x, a), w) == Low(x, w)
  {
    FieldOfLow(x, a, 0, w);
  }

  // `data` as little-endian words.
  function WordsOf(data: seq<byte>, k: nat): nat { Low(Shr(LeNum(data), 64 * k), 64) }

  // Value i of a block that starts at byte `src`: two aligned loads and a mask. The
  // eight bytes of slack after the block keep the second load inside the buffer.
  method ReadValue(data: seq<byte>, src: nat, w: nat, i: nat, count: nat) returns (x: nat)
    requires Direct.Supported(w) && i < count && |data| % 8 == 0
    requires src <= |data| && 8 * src + Span(w, count) + 64 <= 8 * |data|
    ensures x == Digits(LeNum(data[src..]), w, count)[i]
  {
    hide LeNum, Digits, Low, Shr, Shl, Or, Span;
    Direct.SupportedWidths(w);
    var bit := 8 * src + Span(w, i);
    var widx, shift := bit / 64, bit % 64;
    SpanAdd(w, i + 1, count - i - 1);
    SpanNext(w, i);
    assert 8 * (widx + 1) + 8 <= |data|;
    var lo := Shr(WordsOf(data, widx), shift);
    var hi := if shift == 0 then 0 else Low(Shl(WordsOf(data, widx + 1), 64 - shift), 64);
    x := Low(Or(lo, hi), w);
    ReadIs(data, src, w, i, count, widx, shift);
  }

  lemma SpanNext(w: nat, i: nat)
    ensures Span(w, i + 1) == Span(w, i) + w
  {
  }

  lemma ReadIs(data: seq<byte>, src: nat, w: nat, i: nat, count: nat, widx: nat, shift: nat)
    requires w <= 64 && i < count && src <= |data| && shift < 64 && 64 * widx + shift == 8 * src + Span(w, i)
    ensures var lo := Shr(WordsOf(data, widx), shift);
            var hi := if shift == 0 then 0 else Low(Shl(WordsOf(data, widx + 1), 64 - shift), 64);
            Low(Or(lo, hi), w) == Digits(LeNum(data[src..]), w, count)[i]
  {
    hide LeNum, Digits, Low, Shr, Shl, Or, Span, Pow2;
    var n := LeNum(data);
    FunnelShift(Shr(n, 64 * widx), shift, w);
    ShrShr(n, 64 * widx, 64);
    ShrShr(n, 64 * widx, shift);
    DigitAt(LeNum(data[src..]), w, count, i);
    assert data == data[..src] + data[src..];
    LeNumAppend(data[..src], data[src..]);
    LeNumBound(data[..src]);
    JoinSplit(LeNum(data[..src]), LeNum(data[src..]), 8 * src);
    ShrShr(n, 8 * src, Span(w, i));
  }
}
