// The DirectMonotonic writer and reader as they run: deltas rewritten in place,
// minimum and or folded, buffers appended block by block.
module MonotonicCode {
  import opened Bits
  import opened Wire
  import opened StatsPass
  import opened Monotonic
  import Direct

  ghost predicate NonDecreasing(values: seq<i64>) {
    forall i :: 1 <= i < |values| ==> values[i - 1] <= values[i]
  }

  // ----- one block ---------------------------------------------------------------------

  lemma MinUnique(values: seq<i64>, m: i64)
    requires |values| > 0 && m in values
    requires forall i :: 0 <= i < |values| ==> m <= values[i]
    ensures m == MinOf(values)
  {
    var least := MinOf(values);
    var i :| 0 <= i < |values| && values[i] == least;
    assert m <= least;
  }

  method LeastOf(deltas: array<i64>) returns (min: i64)
    requires deltas.Length > 0
    ensures min == MinOf(deltas[..])
  {
    min := deltas[0];
    for i := 1 to deltas.Length
      invariant min in deltas[..]
      invariant forall k :: 0 <= k < i ==> min <= deltas[k]
    {
      if deltas[i] < min {
        min := deltas[i];
      }
    }
    MinUnique(deltas[..], min);
  }

  lemma OrAllSnoc(u: seq<nat>, x: nat)
    ensures OrAll(u + [x]) == Or(OrAll(u), x)
  {
    assert (u + [x])[..|u|] == u;
  }

  lemma OrFits(a: u64, b: u64)
    ensures Or(a, b) < TWO_64
  {
    Pow2Values();
    OrBelow(a, b, 64);
  }

  // Subtracts the minimum in place, or-ing the results together.
  method Rebase(deltas: array<i64>, min: i64) returns (maxDelta: i64)
    modifies deltas
    ensures Direct.U64s(deltas[..]) == Residuals(old(deltas[..]), min)
    ensures AsU64(maxDelta) == OrAll(Residuals(old(deltas[..]), min))
  {
    ghost var was := deltas[..];
    ghost var u := Residuals(was, min);
    maxDelta := 0;
    assert u[..0] == [];
    hide Or, Minus;
    for i := 0 to deltas.Length
      invariant forall k :: 0 <= k < i ==> deltas[k] == Minus(was[k], min)
      invariant forall k :: i <= k < deltas.Length ==> deltas[k] == was[k]
      invariant AsU64(maxDelta) == OrAll(u[..i])
    {
      deltas[i] := Minus(deltas[i], min);
      assert u[i] == AsU64(deltas[i]);
      OrFits(AsU64(maxDelta), AsU64(deltas[i]));
      OrAllSnoc(u[..i], u[i]);
      assert u[..i + 1] == u[..i] + [u[i]];
      maxDelta := AsI64(Or(AsU64(maxDelta), AsU64(deltas[i])));
    }
    assert u[..deltas.Length] == u;
  }

  method WriteBlock(block: seq<i64>, p: Predictor, meta: seq<byte>, data: seq<byte>, base: nat)
    returns (meta': seq<byte>, data': seq<byte>)
    requires block != [] && base <= |data|
    ensures meta' == meta + BlockMetaBytes(BlockMeta(block, p, |data| - base))
    ensures data' == data + BlockData(block, p)
  {
    var avgInc := SlopeOf(block, p);
    var deltas := new i64[|block|](i requires 0 <= i < |block| => Minus(block[i], p.at(avgInc, i)));
    assert deltas[..] == DistancesFrom(block, p, avgInc);
    var min := LeastOf(deltas);
    var maxDelta := Rebase(deltas, min);
    assert Direct.U64s(deltas[..]) == BlockResiduals(block, p);
    OrAllCovers(BlockResiduals(block, p));
    hide MinOf, DistancesFrom, Residuals, SlopeOf, OrAll, BlockResiduals, Direct.PackBytes, Fits, LeBytes, LeI64, Direct.U64s, BlockMetaBytes;
    var bits := 0;
    ResidualsFit(block, p);
    data' := data;
    if maxDelta != 0 {
      WrapUnsigned(maxDelta);
      bits := Direct.UnsignedBitsRequired(maxDelta);
      data' := Direct.Pack(deltas[..], bits, data);
    } else {
      NothingPacked();
    }
    meta' := meta + BlockMetaBytes(MetaBlock(min, avgInc, |data| - base, bits));
  }

  lemma WrapUnsigned(x: i64)
    ensures Wrap(AsU64(x)) == x && (AsU64(x) == 0 <==> x == 0)
  {
  }

  lemma NothingPacked()
    ensures Direct.PackBytes([], 0) == []
  {
  }

  // ----- the sequence ---------------------------------------------------------------------

  method IsNonDecreasing(values: seq<i64>) returns (b: bool)
    ensures b == NonDecreasing(values)
  {
    var i := 1;
    while i < |values|
      invariant forall k :: 1 <= k < i && k < |values| ==> values[k - 1] <= values[k]
    {
      if values[i - 1] > values[i] {
        return false;
      }
      i := i + 1;
    }
    return true;
  }

  // What is still to be appended for the values not yet written.
  function MetaLeft(values: seq<i64>, p: Predictor, size: nat, offset: nat): seq<byte>
    requires size > 0
  {
    MetaBytes(MetaBlocks(values, p, size, offset))
  }

  lemma MetaLeftStep(values: seq<i64>, p: Predictor, size: nat, offset: nat)
    requires size > 0 && values != [] && Chunk(values, size) != []
    ensures MetaLeft(values, p, size, offset) ==
            BlockMetaBytes(BlockMeta(Chunk(values, size), p, offset)) +
            MetaLeft(Tail(values, size), p, size, offset + |BlockData(Chunk(values, size), p)|)
  {
    hide MetaBlocks, BlockMetaBytes, BlockMeta, BlockData, Chunk, Tail, MetaBytes, Prepend;
    MetaUnfold(values, p, size, offset);
    MetaBytesCons(BlockMeta(Chunk(values, size), p, offset),
                  MetaBlocks(Tail(values, size), p, size, offset + |BlockData(Chunk(values, size), p)|));
  }

  lemma MetaBytesCons(m: MetaBlock, ms: seq<MetaBlock>)
    ensures MetaBytes(Prepend(m, ms)) == BlockMetaBytes(m) + MetaBytes(ms)
  {
    hide BlockMetaBytes;
    assert Prepend(m, ms)[1..] == ms;
  }

  method Write(values: seq<i64>, p: Predictor, size: nat, meta: seq<byte>, data: seq<byte>)
    returns (r: Result<(seq<byte>, seq<byte>)>)
    requires size > 0
    ensures r.Ok? <==> NonDecreasing(values)
    ensures r.Ok? ==> r.value.0 == meta + MetaBytes(MetaBlocks(values, p, size, 0))
    ensures r.Ok? ==> r.value.1 == data + DataBytes(values, p, size)
    ensures r.Err? ==> r.error == Invalid
  {
    var ok := IsNonDecreasing(values);
    if !ok {
      return Err(Invalid);
    }
    r := WriteChunks(values, p, size, meta, data);
  }

  // The two output buffers, appended to together.
  datatype Buffers = Buffers(meta: seq<byte>, data: seq<byte>)

  // With the chunks of `left` still to come, `now` will have become what writing
  // `values` makes of `was`.
  ghost predicate OnCourse(now: Buffers, left: seq<i64>, p: Predictor, size: nat, offset: nat, was: Buffers, values: seq<i64>)
    requires size > 0
  {
    match now
    case Buffers(m, d) =>
      && m + MetaLeft(left, p, size, offset) == was.meta + MetaLeft(values, p, size, 0)
      && d + DataBytes(left, p, size) == was.data + DataBytes(values, p, size)
  }

  method WriteChunks(values: seq<i64>, p: Predictor, size: nat, meta: seq<byte>, data: seq<byte>)
    returns (r: Result<(seq<byte>, seq<byte>)>)
    requires size > 0
    ensures r.Ok? && r.value.0 == meta + MetaBytes(MetaBlocks(values, p, size, 0))
    ensures r.value.1 == data + DataBytes(values, p, size)
  {
    var was := Buffers(meta, data);
    var now, left := was, values;
    hide MetaLeft, DataBytes, OnCourse, Tail;
    CourseStart(values, p, size, was);
    while left != []
      invariant |data| <= |now.data|
      invariant OnCourse(now, left, p, size, |now.data| - |data|, was, values)
      decreases |left|
    {
      now := WriteChunk(left, p, size, now, |data|, was, values);
      left := Tail(left, size);
    }
    CourseEnd(p, size, |now.data| - |data|, now, was, values);
    return Ok((now.meta, now.data));
  }

  lemma CourseStart(values: seq<i64>, p: Predictor, size: nat, was: Buffers)
    requires size > 0
    ensures OnCourse(was, values, p, size, 0, was, values)
  {
  }

  lemma CourseEnd(p: Predictor, size: nat, offset: nat, now: Buffers, was: Buffers, values: seq<i64>)
    requires size > 0 && OnCourse(now, [], p, size, offset, was, values)
    ensures now.meta == was.meta + MetaBytes(MetaBlocks(values, p, size, 0))
    ensures now.data == was.data + DataBytes(values, p, size)
  {
    MetaLeftIs(values, p, size);
    assert MetaLeft([], p, size, offset) == [] && DataBytes([], p, size) == [];
    hide MetaLeft, DataBytes, MetaBytes, MetaBlocks;
    assert now.meta + [] == now.meta && now.data + [] == now.data;
  }

  method WriteChunk(left: seq<i64>, p: Predictor, size: nat, now: Buffers, base: nat, ghost was: Buffers, ghost values: seq<i64>)
    returns (next: Buffers)
    requires size > 0 && left != [] && base <= |now.data|
    requires OnCourse(now, left, p, size, |now.data| - base, was, values)
    ensures base <= |next.data| && |Tail(left, size)| < |left|
    ensures OnCourse(next, Tail(left, size), p, size, |next.data| - base, was, values)
  {
    hide *;
    ChunkIsNonEmpty(left, size);
    next := WriteBlockTo(Chunk(left, size), p, now, base);
    CourseStep(left, p, size, |now.data| - base, now, next, was, values);
  }

  ghost predicate Appended(next: Buffers, now: Buffers, block: seq<i64>, p: Predictor, offset: nat)
    requires block != []
  {
    match next
    case Buffers(m, d) =>
      m == now.meta + BlockMetaBytes(BlockMeta(block, p, offset)) && d == now.data + BlockData(block, p)
  }

  method WriteBlockTo(block: seq<i64>, p: Predictor, now: Buffers, base: nat) returns (next: Buffers)
    requires block != [] && base <= |now.data|
    ensures Appended(next, now, block, p, |now.data| - base)
  {
    hide BlockMetaBytes, BlockMeta, BlockData;
    var meta, data := WriteBlock(block, p, now.meta, now.data, base);
    next := Buffers(meta, data);
  }

  lemma CourseStep(left: seq<i64>, p: Predictor, size: nat, offset: nat, now: Buffers, next: Buffers, was: Buffers, values: seq<i64>)
    requires size > 0 && left != [] && Chunk(left, size) != []
    requires OnCourse(now, left, p, size, offset, was, values)
    requires Appended(next, now, Chunk(left, size), p, offset)
    ensures |now.data| <= |next.data|
    ensures OnCourse(next, Tail(left, size), p, size, offset + |next.data| - |now.data|, was, values)
  {
    hide MetaLeft, DataBytes, Chunk, Tail, BlockMetaBytes, BlockMeta, BlockData;
    WriteStep(left, p, size, offset, now.meta, now.data);
  }

  lemma WriteStep(left: seq<i64>, p: Predictor, size: nat, offset: nat, meta: seq<byte>, data: seq<byte>)
    requires size > 0 && left != [] && Chunk(left, size) != []
    ensures (meta + BlockMetaBytes(BlockMeta(Chunk(left, size), p, offset))) +
            MetaLeft(Tail(left, size), p, size, offset + |BlockData(Chunk(left, size), p)|)
            == meta + MetaLeft(left, p, size, offset)
    ensures (data + BlockData(Chunk(left, size), p)) + DataBytes(Tail(left, size), p, size)
            == data + DataBytes(left, p, size)
  {
    hide *;
    MetaLeftStep(left, p, size, offset);
    DataUnfold(left, p, size);
    var m, d := BlockMetaBytes(BlockMeta(Chunk(left, size), p, offset)), BlockData(Chunk(left, size), p);
    Assoc(meta, m, MetaLeft(Tail(left, size), p, size, offset + |d|));
    Assoc(data, d, DataBytes(Tail(left, size), p, size));
  }

  lemma MetaLeftIs(values: seq<i64>, p: Predictor, size: nat)
    requires size > 0
    ensures MetaLeft(values, p, size, 0) == MetaBytes(MetaBlocks(values, p, size, 0))
  {
  }

  // ----- reading ---------------------------------------------------------------------------

  method ReadOneMeta(c: Cursor) returns (r: Result<MetaBlock>)
    modifies c
    ensures Did(ReadBlockMeta(old(c.Rest())), r, c.Rest())
  {
    hide ReadI64, LeNum;
    var min :- c.I64();
    var avgInc :- c.Take(4);
    LeNumRange(avgInc);
    var offset :- c.I64();
    var bits :- c.U8();
    if offset < 0 {
      return Err(Corrupt);
    }
    return Ok(MetaBlock(min, LeNum(avgInc), offset, bits));
  }

  lemma ReadMetaNext(blocks: seq<MetaBlock>, rest: seq<byte>, k: nat)
    requires k > 0
    ensures match ReadBlockMeta(rest)
            case Ok(p) => After(blocks, ReadMeta(rest, k)) == After(blocks + [p.0], ReadMeta(p.1, k - 1))
            case Err(e) => After(blocks, ReadMeta(rest, k)) == Err(e)
  {
    hide ReadBlockMeta;
    if ReadBlockMeta(rest).Ok? {
      var (b, rest') := ReadBlockMeta(rest).value;
      if ReadMeta(rest', k - 1).Ok? {
        Assoc(blocks, [b], ReadMeta(rest', k - 1).value.0);
      }
    }
  }

  lemma ReadMetaEnd(blocks: seq<MetaBlock>, rest: seq<byte>)
    ensures After(blocks, ReadMeta(rest, 0)) == Ok((blocks, rest))
  {
    assert blocks + [] == blocks;
  }

  method ReadAllMeta(c: Cursor, numBlocks: nat) returns (r: Result<seq<MetaBlock>>)
    modifies c
    ensures Did(ReadMeta(old(c.Rest()), numBlocks), r, c.Rest())
  {
    hide ReadMeta, ReadBlockMeta, After;
    ghost var goal := ReadMeta(c.Rest(), numBlocks);
    var blocks: seq<MetaBlock> := [];
    var k: nat := numBlocks;
    NothingRead(goal);
    while k > 0
      invariant After(blocks, ReadMeta(c.Rest(), k)) == goal
    {
      ReadMetaNext(blocks, c.Rest(), k);
      var b :- ReadOneMeta(c);
      blocks := blocks + [b];
      k := k - 1;
    }
    ReadMetaEnd(blocks, c.Rest());
    return Ok(blocks);
  }

  method DecodeOne(m: MetaBlock, data: seq<byte>, p: Predictor, count: nat) returns (r: Result<seq<i64>>)
    ensures r == DecodeBlock(m, data, p, count)
  {
    var xs := ZeroNats(count);
    if m.bits != 0 {
      if m.offset > |data| {
        return Err(Corrupt);
      }
      xs :- Direct.ForEachUnpacked(From(data, m.offset), m.bits, count);
    }
    var out: seq<i64> := [];
    hide Plus;
    for i := 0 to |xs|
      invariant out == Reconstruct(m, p, xs)[..i]
    {
      out := out + [Plus(m.min, p.at(m.avgInc, i), xs[i])];
    }
    assert out == Reconstruct(m, p, xs);
    return Ok(out);
  }

  lemma DecodeNext(out: seq<i64>, blocks: seq<MetaBlock>, data: seq<byte>, p: Predictor, remaining: int, size: nat)
    requires blocks != []
    ensures if remaining < 0 then Onto(out, Decode(blocks, data, p, remaining, size)) == Err(Panic)
            else
              match DecodeBlock(blocks[0], data, p, if remaining < size then remaining else size)
              case Ok(v) => Onto(out, Decode(blocks, data, p, remaining, size)) ==
                            Onto(out + v, Decode(blocks[1..], data, p, remaining - size, size))
              case Err(e) => Onto(out, Decode(blocks, data, p, remaining, size)) == Err(e)
  {
    hide DecodeBlock;
    if remaining >= 0 {
      var first := DecodeBlock(blocks[0], data, p, if remaining < size then remaining else size);
      if first.Ok? {
        OntoMore(out, first.value, Decode(blocks[1..], data, p, remaining - size, size));
      }
    }
  }

  method DecodeSequence(blocks: seq<MetaBlock>, data: seq<byte>, p: Predictor, numValues: nat, size: nat)
    returns (r: Result<seq<i64>>)
    ensures r == Decode(blocks, data, p, numValues, size)
  {
    ghost var goal := Decode(blocks, data, p, numValues, size);
    var out: seq<i64> := [];
    var remaining: int := numValues;
    OntoNothing([], goal);
    assert blocks[0..] == blocks;
    hide Decode, DecodeBlock, Onto;
    for bi := 0 to |blocks|
      invariant Onto(out, Decode(blocks[bi..], data, p, remaining, size)) == goal
    {
      DecodeNext(out, blocks[bi..], data, p, remaining, size);
      assert blocks[bi..][1..] == blocks[bi + 1..];
      if remaining < 0 {
        return Err(Panic);
      }
      var v :- DecodeOne(blocks[bi], data, p, if remaining < size then remaining else size);
      out := out + v;
      remaining := remaining - size;
    }
    DecodeNone(out, data, p, remaining, size);
    assert blocks[|blocks|..] == [];
    return Ok(out);
  }

  lemma DecodeNone(out: seq<i64>, data: seq<byte>, p: Predictor, remaining: int, size: nat)
    ensures Onto(out, Decode([], data, p, remaining, size)) == Ok(out)
  {
    assert out + [] == out;
  }

  // ----- addresses ----------------------------------------------------------------------------

  method WriteAddresses(addresses: seq<i64>, p: Predictor, dvdBase: nat, meta: seq<byte>, data: seq<byte>)
    returns (r: Result<(seq<byte>, seq<byte>)>)
    ensures r.Ok? <==> NonDecreasing(addresses)
    ensures r.Ok? ==> r.value.0 == meta + AddressMeta(addresses, p, dvdBase + |data|)
    ensures r.Ok? ==> r.value.1 == data + AddressData(addresses, p)
    ensures r.Err? ==> r.error == Invalid
  {
    var start := dvdBase + |data|;
    hide LeI64, MetaBytes, MetaBlocks, DataBytes, BlockSize, VBytes;
    var meta' := meta + LeI64(Wrap(start));
    meta' := WriteVInt(meta', BLOCK_SHIFT);
    ghost var m := MetaBytes(MetaBlocks(addresses, p, BlockSize(), 0));
    var written := Write(addresses, p, BlockSize(), meta', []);
    if written.Err? {
      return Err(written.error);
    }
    var buffer := written.value.1;
    assert buffer == AddressData(addresses, p);
    var data' := data + buffer;
    meta' := written.value.0 + LeI64(Wrap(dvdBase + |data'| - start));
    Assoc4(meta, LeI64(Wrap(start)), VBytes(BLOCK_SHIFT), m, LeI64(Wrap(|buffer|)));
    return Ok((meta', data'));
  }

  lemma Assoc4(m: seq<byte>, a: seq<byte>, b: seq<byte>, c: seq<byte>, d: seq<byte>)
    ensures m + a + b + c + d == m + (a + (b + (c + d)))
  {
  }

  method ReadAddressesField(c: Cursor, count: nat) returns (r: Result<AddressesPlan>)
    modifies c
    ensures Did(ReadAddresses(old(c.Rest()), count), r, c.Rest())
  {
    hide ReadI64, ReadV, ReadMeta, BlockCount, SizeOf;
    var offset :- c.I64();
    var shift :- c.VGroups(5, 32);
    var meta :- ReadAllMeta(c, BlockCount(count, SizeOf(shift)));
    var len :- c.I64();
    if offset < 0 || len < 0 {
      return Err(Corrupt);
    }
    return Ok(AddressesPlan(offset, len, shift, meta, count));
  }

  method DecodeAddressPlan(a: AddressesPlan, dvd: seq<byte>, p: Predictor) returns (r: Result<seq<i64>>)
    ensures r == DecodeAddresses(a, dvd, p)
  {
    hide Decode, SizeOf;
    if a.offset + a.len > |dvd| {
      return Err(Corrupt);
    }
    r := DecodeSequence(a.meta, dvd[a.offset..], p, a.count, SizeOf(a.blockShift));
  }
}
