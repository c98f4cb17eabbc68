// DirectMonotonic: offset sequences stored, block by block, as distances from a
// straight line. The line is floating point; here it is any function of the
// slope's bits and the index, because the codec inverts itself whatever it is.
//
// Arithmetic wraps, as in a build without overflow checks.
module Monotonic {
  import opened Bits
  import opened Wire
  import opened StatsPass
  import Direct

  // How slopes are computed from a block's rise and length, and what they predict.
  datatype Predictor = Predictor(slope: (i64, nat) -> u32, at: (u32, nat) -> i64)

  datatype MetaBlock = MetaBlock(min: i64, avgInc: u32, offset: nat, bits: byte)

  const META_BYTES_PER_BLOCK: nat := 21

  // Wrapping subtraction and addition.
  function Minus(a: int, b: int): i64 { Wrap(a - b) }
  function Plus(a: int, b: int, c: int): i64 { Wrap(a + b + c) }

  // ----- one block --------------------------------------------------------------------

  function SlopeOf(block: seq<i64>, p: Predictor): u32
    requires block != []
  {
    p.slope(Minus(block[|block| - 1], block[0]), if |block| == 1 then 1 else |block| - 1)
  }

  function DistancesFrom(block: seq<i64>, p: Predictor, avgInc: u32): (d: seq<i64>)
    ensures |d| == |block|
  {
    seq<i64>(|block|, i requires 0 <= i < |block| => Minus(block[i], p.at(avgInc, i)))
  }

  function Residuals(distances: seq<i64>, min: i64): (d: seq<u64>)
    ensures |d| == |distances|
  {
    seq(|distances|, i requires 0 <= i < |distances| => AsU64(Minus(distances[i], min)))
  }

  function OrAll(u: seq<nat>): nat {
    if u == [] then 0 else Or(OrAll(u[..|u| - 1]), u[|u| - 1])
  }

  function BlockMin(block: seq<i64>, p: Predictor): i64
    requires block != []
  {
    MinOf(DistancesFrom(block, p, SlopeOf(block, p)))
  }

  function BlockResiduals(block: seq<i64>, p: Predictor): (d: seq<u64>)
    requires block != []
    ensures |d| == |block|
  {
    Residuals(DistancesFrom(block, p, SlopeOf(block, p)), BlockMin(block, p))
  }

  // The or of the residuals decides the width.
  function BlockBits(block: seq<i64>, p: Predictor): (w: nat)
    requires block != []
    ensures w == 0 || Direct.Supported(w)
  {
    var maxDelta := OrAll(BlockResiduals(block, p));
    if maxDelta == 0 then 0 else Direct.UnsignedBitsRequired(Wrap(maxDelta))
  }

  function BlockMeta(block: seq<i64>, p: Predictor, offset: nat): MetaBlock
    requires block != []
  {
    MetaBlock(BlockMin(block, p), SlopeOf(block, p), offset, BlockBits(block, p))
  }

  function BlockData(block: seq<i64>, p: Predictor): seq<byte>
    requires block != []
  {
    Direct.PackBytes(if BlockBits(block, p) == 0 then [] else BlockResiduals(block, p), BlockBits(block, p))
  }

  // ----- the sequence ------------------------------------------------------------------

  // The values of the first block.
  function Chunk<T>(values: seq<T>, size: nat): (c: seq<T>)
    ensures |c| == if |values| <= size then |values| else size
  {
    if |values| <= size then values else values[..size]
  }

  function Tail<T>(values: seq<T>, size: nat): (t: seq<T>)
    ensures |t| == |values| - |Chunk(values, size)|
  {
    values[|Chunk(values, size)|..]
  }

  function DataBytes(values: seq<i64>, p: Predictor, size: nat): seq<byte>
    requires size > 0
  {
    if values == [] then []
    else
      var b := Chunk(values, size);
      BlockData(b, p) + DataBytes(Tail(values, size), p, size)
  }

  // One meta block per `size` values.
  function MetaBlocks(values: seq<i64>, p: Predictor, size: nat, offset: nat): (ms: seq<MetaBlock>)
    requires size > 0
    ensures |ms| == BlockCount(|values|, size)
    decreases |values|
  {
    if values == [] then []
    else
      var b := Chunk(values, size);
      Prepend(BlockMeta(b, p, offset), MetaBlocks(Tail(values, size), p, size, offset + |BlockData(b, p)|))
  }

  function Prepend(m: MetaBlock, ms: seq<MetaBlock>): (r: seq<MetaBlock>)
    ensures |r| == 1 + |ms|
  {
    [m] + ms
  }

  ghost predicate OffsetsWithin(blocks: seq<MetaBlock>, end: nat) {
    blocks == [] || (blocks[0].offset <= end && OffsetsWithin(blocks[1..], end))
  }

  lemma NoOffsets(values: seq<i64>, p: Predictor, size: nat, offset: nat)
    requires size > 0 && values == []
    ensures OffsetsWithin(MetaBlocks(values, p, size, offset), offset + |DataBytes(values, p, size)|)
  {
  }

  // Every block's packed values start within the data.
  lemma {:induction false} MetaOffsets(values: seq<i64>, p: Predictor, size: nat, offset: nat)
    requires size > 0
    ensures OffsetsWithin(MetaBlocks(values, p, size, offset), offset + |DataBytes(values, p, size)|)
    decreases |values|
  {
    hide *;
    if values == [] {
      NoOffsets(values, p, size, offset);
    } else {
      MetaOffsets(Tail(values, size), p, size, offset + |BlockData(Chunk(values, size), p)|);
      MetaUnfold(values, p, size, offset);
      TailFits(values, p, size, offset, MetaBlocks(Tail(values, size), p, size, offset + |BlockData(Chunk(values, size), p)|));
    }
  }

  lemma TailFits(values: seq<i64>, p: Predictor, size: nat, offset: nat, tail: seq<MetaBlock>)
    requires size > 0 && values != []
    requires OffsetsWithin(tail, offset + |BlockData(Chunk(values, size), p)| + |DataBytes(Tail(values, size), p, size)|)
    ensures OffsetsWithin(Prepend(BlockMeta(Chunk(values, size), p, offset), tail), offset + |DataBytes(values, p, size)|)
  {
    hide BlockData, BlockMin, SlopeOf, BlockBits;
    assert ([BlockMeta(Chunk(values, size), p, offset)] + tail)[1..] == tail;
  }

  // How many blocks of `size` hold n values.
  function BlockCount(n: nat, size: nat): nat
    requires size > 0
    decreases n
  {
    if n == 0 then 0 else if n <= size then 1 else 1 + BlockCount(n - size, size)
  }

  function BlockMetaBytes(m: MetaBlock): (b: seq<byte>)
    ensures |b| == META_BYTES_PER_BLOCK
  {
    LeI64(m.min) + (LeBytes(m.avgInc, 4) + (LeI64(Wrap(m.offset)) + [m.bits]))
  }

  function MetaBytes(blocks: seq<MetaBlock>): (b: seq<byte>)
    ensures |b| == META_BYTES_PER_BLOCK * |blocks|
  {
    if blocks == [] then [] else BlockMetaBytes(blocks[0]) + MetaBytes(blocks[1..])
  }

  // ----- reading ------------------------------------------------------------------------

  function ReadBlockMeta(rest: seq<byte>): Parsed<MetaBlock> {
    var (min, rest1) :- ReadI64(rest);
    var (avgInc, rest2) :- ReadU32(rest1);
    var (offset, rest3) :- ReadI64(rest2);
    var (bits, rest4) :- ReadU8(rest3);
    if offset < 0 then Err(Corrupt) else Ok((MetaBlock(min, avgInc, offset, bits), rest4))
  }

  function ReadU32(rest: seq<byte>): Parsed<u32> {
    if |rest| < 4 then Err(Corrupt) else LeNumRange(rest[..4]); Ok((LeNum(rest[..4]), rest[4..]))
  }

  function ReadMeta(rest: seq<byte>, numBlocks: nat): Parsed<seq<MetaBlock>> {
    if numBlocks == 0 then Ok(([], rest))
    else
      var (b, rest1) :- ReadBlockMeta(rest);
      var (blocks, rest2) :- ReadMeta(rest1, numBlocks - 1);
      Ok(([b] + blocks, rest2))
  }

  function Reconstruct(m: MetaBlock, p: Predictor, xs: seq<nat>): (v: seq<i64>)
    ensures |v| == |xs|
  {
    seq<i64>(|xs|, i requires 0 <= i < |xs| => Plus(m.min, p.at(m.avgInc, i), xs[i]))
  }

  function From(data: seq<byte>, offset: nat): seq<byte> {
    if offset <= |data| then data[offset..] else []
  }

  function ZeroNats(n: nat): (z: seq<nat>)
    ensures |z| == n
  {
    seq(n, i => 0)
  }

  function DecodeBlock(m: MetaBlock, data: seq<byte>, p: Predictor, count: nat): Result<seq<i64>> {
    if m.bits == 0 then Ok(Reconstruct(m, p, ZeroNats(count)))
    else if m.offset > |data| then Err(Corrupt)
    else
      var xs :- Direct.UnpackFused(From(data, m.offset), m.bits, count);
      Ok(Reconstruct(m, p, xs))
  }

  // `remaining` below zero is the source's subtraction going under; a plan never has
  // more blocks than its count asks for.
  function Decode(blocks: seq<MetaBlock>, data: seq<byte>, p: Predictor, remaining: int, size: nat): Result<seq<i64>>
    decreases |blocks|
  {
    if blocks == [] then Ok([])
    else if remaining < 0 then Err(Panic)
    else
      var count := if remaining < size then remaining else size;
      var first :- DecodeBlock(blocks[0], data, p, count);
      var rest :- Decode(blocks[1..], data, p, remaining - size, size);
      Ok(first + rest)
  }

  // ----- the round trip ------------------------------------------------------------------

  lemma {:induction false} OrAtLeast(a: nat, b: nat)
    ensures a <= Or(a, b) && b <= Or(a, b)
    decreases a + b
  {
    if a > 0 && b > 0 {
      OrAtLeast(a / 2, b / 2);
    }
  }

  lemma {:induction false} OrBelow(a: nat, b: nat, w: nat)
    requires a < Pow2(w) && b < Pow2(w)
    ensures Or(a, b) < Pow2(w)
    decreases w
  {
    if w > 0 && a > 0 && b > 0 {
      OrBelow(a / 2, b / 2, w - 1);
    }
  }

  lemma {:induction false} OrAllCovers(u: seq<u64>)
    ensures OrAll(u) < TWO_64
    ensures forall i :: 0 <= i < |u| ==> u[i] <= OrAll(u)
  {
    if u != [] {
      Pow2Values();
      var init, last := u[..|u| - 1], u[|u| - 1];
      OrAllCovers(init);
      hide Or, Pow2;
      OrAtLeast(OrAll(init), last);
      OrBelow(OrAll(init), last, 64);
      assert forall i :: 0 <= i < |u| - 1 ==> u[i] == init[i];
    }
  }

  // The or of the residuals bounds every residual, so each fits the width.
  lemma ResidualsFit(block: seq<i64>, p: Predictor)
    requires block != []
    ensures Fits(BlockResiduals(block, p), BlockBits(block, p))
    ensures BlockBits(block, p) == 0 ==> BlockResiduals(block, p) == ZeroNats(|block|)
  {
    hide BlockResiduals, OrAll, Wrap, AsU64, Pow2;
    var u := BlockResiduals(block, p);
    OrAllCovers(u);
    var m := OrAll(u);
    UnsignedWrap(m);
    if m == 0 {
      assert u == ZeroNats(|block|);
    }
  }

  // How far value i lies from the line of its block, and how far that is from the base.
  function Distance(block: seq<i64>, p: Predictor, slope: u32, i: nat): i64
    requires i < |block|
  {
    Wrap(block[i] - p.at(slope, i))
  }

  ghost predicate ResidualsBelow(block: seq<i64>, p: Predictor, m: MetaBlock, w: nat) {
    forall i: nat :: i < |block| ==> AsU64(Wrap(Distance(block, p, m.avgInc, i) - m.min)) < Pow2(w)
  }

  // The line goes from the first value to the last; the base is the least distance from it;
  // and the width is the least for the distances from the base, or 0 where all are 0.
  lemma BlockMeaning(block: seq<i64>, p: Predictor, offset: nat, w: nat)
    requires block != []
    ensures var m := BlockMeta(block, p, offset);
            && m.avgInc == p.slope(Minus(block[|block| - 1], block[0]), if |block| > 1 then |block| - 1 else 1)
            && (exists i: nat :: i < |block| && Distance(block, p, m.avgInc, i) == m.min)
            && (forall i: nat :: i < |block| ==> m.min <= Distance(block, p, m.avgInc, i))
            && ResidualsBelow(block, p, m, m.bits) && (m.bits == 0 || Direct.Supported(m.bits))
            && ((w == 0 || Direct.Supported(w)) && ResidualsBelow(block, p, m, w) ==> m.bits <= w)
  {
    hide MinOf, Wrap, AsU64, Pow2, BlockBits, ResidualsBelow;
    var m := BlockMeta(block, p, offset);
    var d := DistancesFrom(block, p, m.avgInc);
    assert forall i: nat :: i < |block| ==> d[i] == Distance(block, p, m.avgInc, i);
    var i: nat :| i < |d| && d[i] == m.min;
    BlockWidth(block, p, offset, m.bits);
    if w == 0 || Direct.Supported(w) {
      BlockWidth(block, p, offset, w);
    }
  }

  lemma BlockWidth(block: seq<i64>, p: Predictor, offset: nat, w: nat)
    requires block != [] && (w == 0 || Direct.Supported(w))
    ensures ResidualsBelow(block, p, BlockMeta(block, p, offset), w) <==> BlockBits(block, p) <= w
  {
    hide MinOf, Wrap, AsU64, Pow2, OrAll, Direct.UnsignedBitsRequired, Direct.Supported;
    var u := BlockResiduals(block, p);
    assert forall i: nat :: i < |block| ==>
      u[i] == AsU64(Wrap(Distance(block, p, SlopeOf(block, p), i) - BlockMin(block, p)));
    OrAllCovers(u);
    UnsignedWrap(OrAll(u));
    if ResidualsBelow(block, p, BlockMeta(block, p, offset), w) {
      OrAllBelow(u, w);
      NoWidth(OrAll(u), w);
    } else if BlockBits(block, p) <= w {
      ResidualsFit(block, p);
      Pow2Monotone(BlockBits(block, p), w);
      NoneAbove(u, BlockBits(block, p), w);
    }
  }

  lemma NoWidth(x: nat, w: nat)
    ensures w == 0 && x < Pow2(w) ==> x == 0
  {
  }

  lemma NoneAbove(u: seq<nat>, bits: nat, w: nat)
    requires Fits(u, bits) && Pow2(bits) <= Pow2(w)
    ensures Fits(u, w)
  {
    hide Pow2;
  }

  lemma {:induction false} OrAllBelow(u: seq<nat>, w: nat)
    requires Fits(u, w)
    ensures OrAll(u) < Pow2(w)
  {
    hide Or, Pow2;
    if u != [] {
      OrAllBelow(u[..|u| - 1], w);
      OrBelow(OrAll(u[..|u| - 1]), u[|u| - 1], w);
    }
  }

  lemma ReconstructResiduals(block: seq<i64>, p: Predictor, offset: nat)
    requires block != []
    ensures Reconstruct(BlockMeta(block, p, offset), p, BlockResiduals(block, p)) == block
  {
    hide MinOf, BlockBits;
    var avgInc, min := SlopeOf(block, p), BlockMin(block, p);
    var u := BlockResiduals(block, p);
    forall i | 0 <= i < |block|
      ensures Plus(min, p.at(avgInc, i), u[i]) == block[i]
    {
      Undo(block[i], p.at(avgInc, i), min);
    }
  }

  lemma Undo(v: i64, predicted: i64, min: i64)
    ensures Wrap(min + predicted + AsU64(Wrap(Wrap(v - predicted) - min))) == v
  {
    hide Wrap, AsU64;
    var d := Wrap(v - predicted);
    WrapInside(min + predicted, d - min);
    WrapInside(predicted, v - predicted);
    assert min + predicted + (d - min) == predicted + d;
    WrapIsIdentity(v);
  }

  lemma BlockRoundTrip(block: seq<i64>, p: Predictor, data: seq<byte>, offset: nat, rest: seq<byte>)
    requires block != [] && offset <= |data| && From(data, offset) == BlockData(block, p) + rest
    ensures Gives(DecodeBlock(BlockMeta(block, p, offset), data, p, |block|), block)
  {
    hide Reconstruct, BlockResiduals, SlopeOf, BlockMin, Direct.UnpackFused, Direct.PackBytes, Fits;
    ResidualsFit(block, p);
    ReconstructResiduals(block, p, offset);
    if BlockBits(block, p) != 0 {
      Direct.UnpackOfPack(BlockResiduals(block, p), BlockBits(block, p), rest);
    }
  }

  lemma MetaUnfold(values: seq<i64>, p: Predictor, size: nat, offset: nat)
    requires size > 0 && values != []
    ensures Chunk(values, size) != []
    ensures MetaBlocks(values, p, size, offset) ==
            Prepend(BlockMeta(Chunk(values, size), p, offset),
                    MetaBlocks(Tail(values, size), p, size, offset + |BlockData(Chunk(values, size), p)|))
  {
    hide BlockMeta, BlockData, Chunk, Tail;
  }

  lemma DataUnfold(values: seq<i64>, p: Predictor, size: nat)
    requires size > 0 && values != []
    ensures Chunk(values, size) != []
    ensures DataBytes(values, p, size) == BlockData(Chunk(values, size), p) + DataBytes(Tail(values, size), p, size)
  {
    hide BlockData, Chunk, Tail;
  }

  lemma ChunkTail<T>(values: seq<T>, size: nat)
    ensures values == Chunk(values, size) + Tail(values, size)
    ensures |Chunk(values, size)| == size || (|Chunk(values, size)| < size && Tail(values, size) == [])
  {
  }

  lemma DecodesNone(values: seq<i64>, p: Predictor, size: nat, offset: nat, data: seq<byte>)
    requires size > 0 && values == []
    ensures Gives(Decode(MetaBlocks(values, p, size, offset), data, p, |values|, size), values)
  {
  }

  lemma {:induction false} DecodesFrom(values: seq<i64>, p: Predictor, size: nat, offset: nat, data: seq<byte>,
                                       rest: seq<byte>)
    requires size > 0 && offset <= |data| && From(data, offset) == DataBytes(values, p, size) + rest
    ensures Gives(Decode(MetaBlocks(values, p, size, offset), data, p, |values|, size), values)
    decreases |values|
  {
    hide *;
    if values == [] {
      DecodesNone(values, p, size, offset, data);
    } else {
      ChunkIsNonEmpty(values, size);
      var offset' := offset + |BlockData(Chunk(values, size), p)|;
      var later := DataBytes(Tail(values, size), p, size) + rest;
      NextFrom(values, p, size, offset, data, rest, later);
      BlockRoundTrip(Chunk(values, size), p, data, offset, later);
      DecodesFrom(Tail(values, size), p, size, offset', data, rest);
      DecodesOneMore(values, p, size, offset, offset', data);
    }
  }

  lemma ChunkIsNonEmpty<T>(values: seq<T>, size: nat)
    requires size > 0 && values != []
    ensures Chunk(values, size) != [] && |Tail(values, size)| < |values|
  {
  }

  lemma NextFrom(values: seq<i64>, p: Predictor, size: nat, offset: nat, data: seq<byte>, rest: seq<byte>, later: seq<byte>)
    requires size > 0 && values != [] && Chunk(values, size) != []
    requires offset <= |data| && From(data, offset) == DataBytes(values, p, size) + rest
    requires later == DataBytes(Tail(values, size), p, size) + rest
    ensures var own := BlockData(Chunk(values, size), p);
            From(data, offset) == own + later && offset + |own| <= |data| && From(data, offset + |own|) == later
  {
    hide *;
    DataUnfold(values, p, size);
    var own := BlockData(Chunk(values, size), p);
    Assoc(own, DataBytes(Tail(values, size), p, size), rest);
    DropMore(data, offset, own, later);
  }

  lemma DecodesOneMore(values: seq<i64>, p: Predictor, size: nat, offset: nat, offset': nat, data: seq<byte>)
    requires size > 0 && values != [] && Chunk(values, size) != []
    requires offset' == offset + |BlockData(Chunk(values, size), p)|
    requires Gives(DecodeBlock(BlockMeta(Chunk(values, size), p, offset), data, p, |Chunk(values, size)|), Chunk(values, size))
    requires Gives(Decode(MetaBlocks(Tail(values, size), p, size, offset'), data, p, |Tail(values, size)|, size),
                   Tail(values, size))
    ensures Gives(Decode(MetaBlocks(values, p, size, offset), data, p, |values|, size), values)
  {
    hide *;
    MetaUnfold(values, p, size, offset);
    ChunkTail(values, size);
    NoMeta(Tail(values, size), p, size, offset');
    DecodeStep(BlockMeta(Chunk(values, size), p, offset), MetaBlocks(Tail(values, size), p, size, offset'), data, p,
               Chunk(values, size), Tail(values, size), size);
  }

  lemma NoMeta(tail: seq<i64>, p: Predictor, size: nat, offset: nat)
    requires size > 0
    ensures tail == [] ==> MetaBlocks(tail, p, size, offset) == []
  {
  }

  lemma DropMore(data: seq<byte>, offset: nat, own: seq<byte>, later: seq<byte>)
    requires offset <= |data| && From(data, offset) == own + later
    ensures offset + |own| <= |data| && From(data, offset + |own|) == later
  {
    assert data[offset + |own|..] == data[offset..][|own|..];
  }

  lemma DecodeStep(m: MetaBlock, ms: seq<MetaBlock>, data: seq<byte>, p: Predictor, b: seq<i64>, tail: seq<i64>, size: nat)
    requires Gives(DecodeBlock(m, data, p, |b|), b)
    requires |b| == size || (|b| < size && tail == [] && ms == [])
    requires Gives(Decode(ms, data, p, |tail|, size), tail)
    ensures Gives(Decode(Prepend(m, ms), data, p, |b + tail|, size), b + tail)
  {
    hide DecodeBlock;
    assert ([m] + ms)[1..] == ms;
  }

  // Any values, any predictor, any block size: decoding what was written gives
  // the values back, whatever follows the packed data.
  lemma MonotonicRoundTrip(values: seq<i64>, p: Predictor, size: nat, rest: seq<byte>)
    requires size > 0
    ensures Gives(Decode(MetaBlocks(values, p, size, 0), DataBytes(values, p, size) + rest, p, |values|, size), values)
  {
    hide Decode, MetaBlocks, DataBytes;
    var data := DataBytes(values, p, size) + rest;
    assert From(data, 0) == data;
    DecodesFrom(values, p, size, 0, data, rest);
  }

  lemma U32RoundTrip(x: u32, rest: seq<byte>)
    ensures Yields(ReadU32(LeBytes(x, 4) + rest), x, rest)
  {
    Pow2Values();
    LeNumOfBytes(x, 4);
    assert (LeBytes(x, 4) + rest)[..4] == LeBytes(x, 4);
  }

  lemma BlockMetaRoundTrip(m: MetaBlock, rest: seq<byte>)
    requires m.offset < TWO_63
    ensures Yields(ReadBlockMeta(BlockMetaBytes(m) + rest), m, rest)
  {
    hide LeI64, ReadI64, LeBytes, ReadU32;
    var t1 := LeI64(Wrap(m.offset)) + [m.bits];
    var t2 := LeBytes(m.avgInc, 4) + t1;
    Assoc(LeI64(m.min), t2, rest);
    I64RoundTrip(m.min, t2 + rest);
    Assoc(LeBytes(m.avgInc, 4), t1, rest);
    U32RoundTrip(m.avgInc, t1 + rest);
    Assoc(LeI64(Wrap(m.offset)), [m.bits], rest);
    I64RoundTrip(Wrap(m.offset), [m.bits] + rest);
    assert ([m.bits] + rest)[1..] == rest;
  }

  lemma {:induction false} MetaRoundTrip(blocks: seq<MetaBlock>, rest: seq<byte>)
    requires OffsetsWithin(blocks, TWO_63 - 1)
    ensures Yields(ReadMeta(MetaBytes(blocks) + rest, |blocks|), blocks, rest)
  {
    if blocks == [] {
      assert MetaBytes(blocks) + rest == rest;
    } else {
      var b, tail := blocks[0], blocks[1..];
      assert b.offset < TWO_63 && OffsetsWithin(tail, TWO_63 - 1);
      assert blocks == [b] + tail;
      hide *;
      MetaRoundTrip(tail, rest);
      ReadMetaStep(b, tail, rest);
    }
  }

  lemma ReadMetaStep(b: MetaBlock, tail: seq<MetaBlock>, rest: seq<byte>)
    requires b.offset < TWO_63 && Yields(ReadMeta(MetaBytes(tail) + rest, |tail|), tail, rest)
    ensures Yields(ReadMeta(MetaBytes([b] + tail) + rest, |[b] + tail|), [b] + tail, rest)
  {
    hide BlockMetaBytes, ReadBlockMeta;
    assert ([b] + tail)[1..] == tail;
    Assoc(BlockMetaBytes(b), MetaBytes(tail), rest);
    BlockMetaRoundTrip(b, MetaBytes(tail) + rest);
  }

  // ----- addresses: a monotonic sequence with its own entry ------------------------------------

  const BLOCK_SHIFT: nat := 16

  datatype AddressesPlan = AddressesPlan(offset: nat, len: nat, blockShift: nat, meta: seq<MetaBlock>, count: nat)

  // 1 << shift on 64 bits, which takes the shift modulo 64.
  function SizeOf(shift: nat): (n: nat)
    ensures n > 0
  {
    Pow2(shift % 64)
  }

  function BlockSize(): (n: nat)
    ensures n > 0
  {
    Pow2(BLOCK_SHIFT)
  }

  function AddressData(addresses: seq<i64>, p: Predictor): seq<byte> {
    DataBytes(addresses, p, BlockSize())
  }

  function AddressMeta(addresses: seq<i64>, p: Predictor, at: nat): seq<byte> {
    LeI64(Wrap(at)) +
    (VBytes(BLOCK_SHIFT) +
     (MetaBytes(MetaBlocks(addresses, p, BlockSize(), 0)) + LeI64(Wrap(|AddressData(addresses, p)|))))
  }

  function ReadAddresses(rest: seq<byte>, count: nat): Parsed<AddressesPlan> {
    var (offset, rest1) :- ReadI64(rest);
    var (shift, rest2) :- ReadVNat32(rest1);
    var (meta, rest3) :- ReadMeta(rest2, BlockCount(count, SizeOf(shift)));
    var (len, rest4) :- ReadI64(rest3);
    if offset < 0 || len < 0 then Err(Corrupt)
    else Ok((AddressesPlan(offset, len, shift, meta, count), rest4))
  }

  function DecodeAddresses(a: AddressesPlan, dvd: seq<byte>, p: Predictor): Result<seq<i64>> {
    if a.offset + a.len > |dvd| then Err(Corrupt)
    else Decode(a.meta, dvd[a.offset..], p, a.count, SizeOf(a.blockShift))
  }

  // The plan an entry reads as.
  function AddressPlan(addresses: seq<i64>, p: Predictor, at: nat): AddressesPlan {
    AddressesPlan(at, |AddressData(addresses, p)|, BLOCK_SHIFT, MetaBlocks(addresses, p, BlockSize(), 0), |addresses|)
  }

  lemma AddressesRoundTrip(addresses: seq<i64>, p: Predictor, at: nat, dvd: seq<byte>, rest: seq<byte>)
    requires PlacedAt(dvd, at, AddressData(addresses, p))
    ensures Yields(ReadAddresses(AddressMeta(addresses, p, at) + rest, |addresses|), AddressPlan(addresses, p, at), rest)
    ensures Gives(DecodeAddresses(AddressPlan(addresses, p, at), dvd, p), addresses)
  {
    hide ReadAddresses, AddressMeta, AddressPlan, AddressData, DecodeAddresses;
    AddressMetaRead(addresses, p, at, rest);
    AddressesDecode(addresses, p, at, dvd);
  }

  lemma AddressesDecode(addresses: seq<i64>, p: Predictor, at: nat, dvd: seq<byte>)
    requires PlacedAt(dvd, at, AddressData(addresses, p))
    ensures Gives(DecodeAddresses(AddressPlan(addresses, p, at), dvd, p), addresses)
  {
    hide Decode, MetaBlocks, DataBytes, Pow2;
    var data := AddressData(addresses, p);
    var after := dvd[at + |data|..];
    MonotonicRoundTrip(addresses, p, BlockSize(), after);
    assert dvd[at..] == dvd[at..at + |data|] + after;
  }

  lemma AddressMetaRead(addresses: seq<i64>, p: Predictor, at: nat, rest: seq<byte>)
    requires at + |AddressData(addresses, p)| < TWO_63
    ensures Yields(ReadAddresses(AddressMeta(addresses, p, at) + rest, |addresses|), AddressPlan(addresses, p, at), rest)
  {
    hide MetaBlocks, DataBytes, ReadMeta, MetaBytes, LeI64, ReadI64, VBytes, Pow2, BlockCount, ReadV, OffsetsWithin;
    var meta, len := MetaBlocks(addresses, p, BlockSize(), 0), |AddressData(addresses, p)|;
    var t1 := MetaBytes(meta) + LeI64(Wrap(len));
    var t2 := VBytes(BLOCK_SHIFT) + t1;
    WrapIsIdentity(at);
    WrapIsIdentity(len);
    Assoc(LeI64(at), t2, rest);
    I64RoundTrip(at, t2 + rest);
    Assoc(VBytes(BLOCK_SHIFT), t1, rest);
    VIntRoundTrip(BLOCK_SHIFT, t1 + rest);
    Assoc(MetaBytes(meta), LeI64(len), rest);
    MetaOffsets(addresses, p, BlockSize(), 0);
    OffsetsWithinMore(meta, len, TWO_63 - 1);
    MetaRoundTrip(meta, LeI64(len) + rest);
    I64RoundTrip(len, rest);
  }

  lemma {:induction false} OffsetsWithinMore(blocks: seq<MetaBlock>, end: nat, end': nat)
    requires OffsetsWithin(blocks, end) && end <= end'
    ensures OffsetsWithin(blocks, end')
  {
    if blocks != [] {
      OffsetsWithinMore(blocks[1..], end, end');
    }
  }
}
