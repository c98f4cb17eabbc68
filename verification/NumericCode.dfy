// The NUMERIC writer, planner and decoder as they run: buffers appended to,
// a cursor advanced, arrays filled -- each proved to do what Numeric and
// NumericWrite say.
module NumericCode {
  import opened Bits
  import opened Wire
  import opened BinaryGcd
  import opened StatsPass
  import opened Policy
  import opened Bitmap
  import opened Numeric
  import opened NumericWrite
  import Direct
  import Disi
  import DisiCode

  // ----- writing ----------------------------------------------------------------------

  datatype ValuesIn = Flat(values: seq<i64>) | Chunks(chunks: seq<seq<i64>>) {
    function All(): seq<i64> {
      match this case Flat(v) => v case Chunks(c) => Flatten(c)
    }

    // The chunked statistics pass starts from chunks[0][0].
    predicate Readable() {
      Chunks? && All() != [] ==> chunks[0] != []
    }
  }

  method BinarySearch(t: seq<i64>, v: i64) returns (r: Option<nat>)
    requires Ascending(t)
    ensures r == if v in t then Some(IndexOf(t, v)) else None
  {
    var lo, hi := 0, |t|;
    while lo < hi
      invariant 0 <= lo <= hi <= |t|
      invariant v in t ==> v in t[lo..hi]
    {
      var mid := lo + (hi - lo) / 2;
      if t[mid] == v {
        IndexUnique(t, v, mid);
        return Some(mid);
      } else if t[mid] < v {
        assert forall k :: lo <= k <= mid ==> t[k] <= t[mid];
        lo := mid + 1;
      } else {
        assert forall k :: mid <= k < hi ==> t[mid] <= t[k];
        hi := mid;
      }
    }
    return None;
  }

  lemma IndexUnique(t: seq<i64>, v: i64, i: nat)
    requires Ascending(t) && i < |t| && t[i] == v
    ensures IndexOf(t, v) == i
  {
    var k := IndexOf(t, v);
    assert t[k] == v;
  }

  // The pre-pack transform of one slice.
  method EncodeValues(values: seq<i64>, c: Choice, out: seq<i64>) returns (out': seq<i64>)
    requires c.table.None? ==> c.gcd > 0
    requires c.table.Some? ==> Ascending(c.table.value) && |c.table.value| <= MAX_TABLE
    requires EachRecovers(values, c)
    ensures Direct.U64s(out') == Direct.U64s(out) + Codes(values, c)
  {
    out' := out;
    for i := 0 to |values|
      invariant |out'| == |out| + i
      invariant Direct.U64s(out') == Direct.U64s(out) + Codes(values[..i], c)
    {
      var v := values[i];
      var code: i64;
      CodeInTable(c, v);
      if c.table.Some? {
        var index := BinarySearch(c.table.value, v); // a missing value would be an error
        code := index.value;
      } else {
        code := TruncDiv(Wrap(v - c.min), c.gcd);
      }
      EncodeStep(out, out', values, i, c, code);
      out' := out' + [code];
    }
    assert values[..|values|] == values;
  }

  lemma CodeInTable(c: Choice, v: i64)
    requires Recovers(c, v)
    ensures c.table.Some? ==> v in c.table.value && CodeOf(c, v) < |c.table.value|
  {
    if c.table.Some? {
      assert CodeOf(c, v) < |c.table.value|;
      assert c.table.value[CodeOf(c, v)] == v;
    }
  }

  lemma EncodeStep(out: seq<i64>, out': seq<i64>, values: seq<i64>, i: nat, c: Choice, code: i64)
    requires c.table.None? ==> c.gcd > 0
    requires i < |values| && AsU64(code) == CodeOf(c, values[i])
    requires Direct.U64s(out') == Direct.U64s(out) + Codes(values[..i], c)
    ensures Direct.U64s(out' + [code]) == Direct.U64s(out) + Codes(values[..i + 1], c)
  {
    hide CodeOf;
    assert Direct.U64s(out' + [code]) == Direct.U64s(out') + [AsU64(code)];
    assert Codes(values[..i + 1], c) == Codes(values[..i], c) + [CodeOf(c, values[i])];
  }

  method EncodeAll(vals: ValuesIn, c: Choice) returns (out: seq<i64>)
    requires c.table.None? ==> c.gcd > 0
    requires c.table.Some? ==> Ascending(c.table.value) && |c.table.value| <= MAX_TABLE
    requires EachRecovers(vals.All(), c)
    ensures Direct.U64s(out) == Codes(vals.All(), c)
  {
    match vals
    case Flat(values) =>
      out := EncodeValues(values, c, []);
    case Chunks(chunks) =>
      out := [];
      assert Codes([], c) == [];
      hide EachRecovers, Codes;
      for k := 0 to |chunks|
        invariant Direct.U64s(out) == Codes(Flatten(chunks[..k]), c)
      {
        ChunkRecovers(chunks, k, c);
        out := EncodeValues(chunks[k], c, out);
        CodesAppend(Flatten(chunks[..k]), chunks[k], c);
      }
      assert chunks[..|chunks|] == chunks;
  }

  lemma ChunkRecovers(chunks: seq<seq<i64>>, k: nat, c: Choice)
    requires k < |chunks| && EachRecovers(Flatten(chunks), c)
    ensures EachRecovers(chunks[k], c)
    ensures Flatten(chunks[..k + 1]) == Flatten(chunks[..k]) + chunks[k]
  {
    hide Recovers;
    FlattenSnoc(chunks, k);
    FlattenPart(chunks, k);
    forall i | 0 <= i < |chunks[k]| ensures Recovers(c, chunks[k][i]) {
      assert Recovers(c, Flatten(chunks)[|Flatten(chunks[..k])| + i]);
    }
  }

  lemma CodesAppend(a: seq<i64>, b: seq<i64>, c: Choice)
    requires c.table.None? ==> c.gcd > 0
    ensures Codes(a + b, c) == Codes(a, c) + Codes(b, c)
  {
  }

  // Chunk k is a slice of the concatenation.
  lemma {:induction false} FlattenPart<T>(chunks: seq<seq<T>>, k: nat)
    requires k < |chunks|
    ensures |Flatten(chunks[..k])| + |chunks[k]| <= |Flatten(chunks)|
    ensures Flatten(chunks)[|Flatten(chunks[..k])|..][..|chunks[k]|] == chunks[k]
    ensures forall i :: 0 <= i < |chunks[k]| ==> Flatten(chunks)[|Flatten(chunks[..k])| + i] == chunks[k][i]
  {
    if k > 0 {
      assert chunks[..k][1..] == chunks[1..][..k - 1];
      FlattenPart(chunks[1..], k - 1);
    }
  }

  method WriteDocs(docs: seq<nat>, numValues: nat, maxDoc: nat, dvdBase: nat, meta: seq<byte>, data: seq<byte>)
    returns (meta': seq<byte>, data': seq<byte>)
    requires Ascending(docs) && AllBelow(docs, TWO_31)
    ensures meta' == meta + DocsBytes(DocsOf(docs, numValues, maxDoc, dvdBase + |data|))
    ensures data' == data + DocsData(docs, numValues, maxDoc)
  {
    var present := if docs == [] && numValues == maxDoc then maxDoc else |docs|;
    hide LeI64, LeI16, Disi.Encoded, Disi.JumpCount;
    if present == 0 {
      meta' := meta + DocsBytes(NO_DOCS);
      data' := data;
    } else if present == maxDoc {
      meta' := meta + DocsBytes(ALL_DOCS);
      data' := data;
    } else {
      var offset := dvdBase + |data|;
      var r := DisiCode.WriteBitSet(docs, Disi.DEFAULT_RANK_POWER, data);
      data' := r.value.0;
      var length := |data'| - |data|;
      meta' := meta + DocsBytes(DocsField(Wrap(offset), Wrap(length), r.value.1, 9));
    }
  }

  lemma Assoc4(m: seq<byte>, a: seq<byte>, b: seq<byte>, c: seq<byte>, d: seq<byte>)
    ensures m + a + b + c + d == m + (a + (b + (c + d)))
  {
  }

  method StatsIn(vals: ValuesIn) returns (s: NumericStats)
    requires vals.All() != [] && vals.Readable()
    ensures s == StatsOf(vals.All())
  {
    hide IsStats;
    match vals
    case Flat(values) =>
      s := Stats(values);
      StatsUnique(values, s, StatsOf(values));
    case Chunks(chunks) =>
      s := StatsChunks(chunks);
      StatsUnique(Flatten(chunks), s, StatsOf(Flatten(chunks)));
  }

  method PackValues(vals: ValuesIn, c: Choice, data: seq<byte>) returns (data': seq<byte>)
    requires vals.All() != [] && c == ChoiceOf(vals.All())
    ensures data' == data + ValuesData(vals.All())
  {
    ghost var values := vals.All();
    if c.bpv == 0 {
      return data;
    }
    hide ChoiceOf, EachRecovers, Codes, Direct.PackBytes, Direct.U64s, Fits;
    AllRecover(values);
    ChoiceSupported(values);
    TableAscending(values);
    var encoded := EncodeAll(vals, c);
    data' := Direct.Pack(encoded, c.bpv, data);
    CodesLength(values, c, encoded);
  }

  lemma CodesLength(values: seq<i64>, c: Choice, encoded: seq<i64>)
    requires c.table.None? ==> c.gcd > 0
    requires Direct.U64s(encoded) == Codes(values, c)
    ensures |encoded| == |values|
  {
  }

  lemma TableAscending(values: seq<i64>)
    requires |values| > 0
    ensures var t := ChoiceOf(values).table; t.Some? ==> Ascending(t.value) && |t.value| <= MAX_TABLE
  {
    hide Direct.UnsignedBitsRequired;
    var s := StatsOf(values);
    assert IsTable(Distinct(values), s.table);
  }

  // The body shared by every numeric-shaped field.
  method WriteValues(vals: ValuesIn, docs: seq<nat>, maxDoc: nat, dvdBase: nat, meta: seq<byte>, data: seq<byte>)
    returns (meta': seq<byte>, data': seq<byte>)
    requires Ascending(docs) && AllBelow(docs, TWO_31) && vals.Readable()
    ensures meta' == meta + EntryBytes(EntryOf(vals.All(), docs, maxDoc, dvdBase + |data|))
    ensures data' == data + EntryData(vals.All(), docs, maxDoc)
  {
    ghost var values := vals.All();
    var numValues := Count(vals);
    hide DocsBytes, LeI64, PackingBytes, TableBytes, ValuesData, DocsData, DocsOf, ChoiceOf, StatsOf;
    meta', data' := WriteDocs(docs, numValues, maxDoc, dvdBase, meta, data);
    ghost var m := meta';
    meta' := meta' + LeI64(Wrap(numValues));
    var offset := dvdBase + |data'|;
    var table, packing := None, Packing(0, 0, 0, Wrap(offset), 0, -1);
    ghost var d := data';
    if numValues != 0 {
      var s := StatsIn(vals);
      ChosenIs(values, s);
      var c := Choose(s);
      data' := PackValues(vals, c, data');
      table, packing := c.table, Packing(c.bpv, c.min, c.gcd, Wrap(offset), Wrap(dvdBase + |data'| - offset), -1);
    } else {
      assert ValuesData(values) == [] by { NoValues(values); }
    }
    Assoc(data, DocsData(docs, numValues, maxDoc), ValuesData(values));
    Assoc4(meta, DocsBytes(DocsOf(docs, numValues, maxDoc, dvdBase + |data|)), LeI64(Wrap(numValues)),
           TableBytes(table), PackingBytes(packing));
    meta' := meta' + TableBytes(table) + PackingBytes(packing);
  }

  lemma NoValues(values: seq<i64>)
    requires values == []
    ensures ValuesData(values) == []
  {
  }

  lemma ChosenIs(values: seq<i64>, s: NumericStats)
    requires |values| > 0 && s == StatsOf(values)
    ensures s.min < s.max ==> s.gcd > 0
    ensures Choose(s) == ChoiceOf(values)
  {
    hide IsStats, Direct.UnsignedBitsRequired;
    ChoiceRange(values);
  }

  method Count(vals: ValuesIn) returns (n: nat)
    ensures n == |vals.All()|
  {
    match vals
    case Flat(values) => n := |values|;
    case Chunks(chunks) =>
      n := 0;
      for k := 0 to |chunks|
        invariant n == |Flatten(chunks[..k])|
      {
        FlattenSnoc(chunks, k);
        n := n + |chunks[k]|;
      }
      assert chunks[..|chunks|] == chunks;
  }

  // ----- the field ----------------------------------------------------------------------

  datatype EncodedField = EncodedField(meta: seq<byte>, data: seq<byte>)

  method IsAscending(docs: seq<nat>) returns (b: bool)
    ensures b == Ascending(docs)
  {
    var i := 1;
    while i < |docs|
      invariant 1 <= i && Ascending(if i <= |docs| then docs[..i] else docs)
    {
      if docs[i - 1] >= docs[i] {
        return false;
      }
      assert docs[..i][i - 1] == docs[i - 1];
      i := i + 1;
    }
    assert i <= |docs| ==> docs[..i] == docs;
    return true;
  }

  ghost predicate ValidDocs(docs: seq<nat>, maxDoc: nat) {
    Ascending(docs) && AllBelow(docs, maxDoc)
  }

  method EncodeNumericField(field: i32, docs: seq<nat>, values: seq<i64>, maxDoc: nat, dvdBase: nat)
    returns (r: Result<EncodedField>)
    requires maxDoc <= TWO_31
    ensures r.Ok? <==> |docs| == |values| && ValidDocs(docs, maxDoc)
    ensures r.Ok? ==> r.value.meta == NumericMeta(field, values, docs, maxDoc, dvdBase)
    ensures r.Ok? ==> r.value.data == EntryData(values, docs, maxDoc)
    ensures r.Err? ==> r.error == Invalid
  {
    hide EntryBytes, EntryOf, EntryData, LeI32, NumericMeta;
    if |docs| != |values| {
      return Err(Invalid);
    }
    var ascending := IsAscending(docs);
    if !ascending {
      return Err(Invalid);
    }
    if docs != [] && docs[|docs| - 1] >= maxDoc {
      return Err(Invalid);
    }
    assert AllBelow(docs, maxDoc);
    AtMostMaxDoc(docs, maxDoc);
    var meta := LeI32(field) + [TYPE_NUMERIC];
    var meta', data := WriteValues(Flat(values), docs, maxDoc, dvdBase, meta, []);
    MetaIs(field, values, docs, maxDoc, dvdBase);
    return Ok(EncodedField(meta', data));
  }

  lemma MetaIs(field: i32, values: seq<i64>, docs: seq<nat>, maxDoc: nat, at: nat)
    requires |values| < TWO_63
    ensures NumericMeta(field, values, docs, maxDoc, at) == LeI32(field) + [TYPE_NUMERIC] + EntryBytes(EntryOf(values, docs, maxDoc, at))
  {
    hide EntryBytes, EntryOf, LeI32;
  }

  // The zero-copy lane: batch slices of a dense column, no docs array.
  method EncodeDenseChunks(field: i32, chunks: seq<seq<i64>>, maxDoc: nat, dvdBase: nat)
    returns (r: Result<EncodedField>)
    requires maxDoc <= TWO_31 && Chunks(chunks).Readable()
    ensures r.Ok? <==> |Flatten(chunks)| == maxDoc
    ensures r.Ok? ==> var all := Disi.Range(0, maxDoc);
                      && r.value.meta == NumericMeta(field, Flatten(chunks), all, maxDoc, dvdBase)
                      && r.value.data == EntryData(Flatten(chunks), all, maxDoc)
    ensures r.Err? ==> r.error == Invalid
  {
    hide EntryBytes, EntryOf, EntryData, LeI32, Flatten;
    var n := Count(Chunks(chunks));
    if n != maxDoc {
      return Err(Invalid);
    }
    var meta := LeI32(field) + [TYPE_NUMERIC];
    var meta', data := WriteValues(Chunks(chunks), [], maxDoc, dvdBase, meta, []);
    DenseLane(Flatten(chunks), maxDoc, dvdBase);
    return Ok(EncodedField(meta', data));
  }

  // ----- planning -----------------------------------------------------------------------

  method ReadDocsField(c: Cursor) returns (r: Result<DocsField>)
    modifies c
    ensures Did(ReadDocs(old(c.Rest())), r, c.Rest())
  {
    hide ReadI64, ReadI16;
    var offset :- c.I64();
    var length :- c.I64();
    var jumpCount :- c.I16();
    var rankPower :- c.U8();
    return Ok(DocsField(offset, length, jumpCount, rankPower));
  }

  method ReadTableField(c: Cursor) returns (r: Result<Option<seq<i64>>>)
    modifies c
    ensures Did(ReadTable(old(c.Rest())), r, c.Rest())
  {
    hide ReadI32, ReadLongs;
    var size :- c.I32();
    if size > 0 {
      if size > MAX_TABLE {
        return Err(Corrupt);
      }
      var t :- ReadLongsField(c, size);
      return Ok(Some(t));
    } else if size == -1 || size == MULTI_BLOCK_TABLE_SIZE {
      return Ok(None);
    } else {
      return Err(Corrupt);
    }
  }

  method ReadLongsField(c: Cursor, n: nat) returns (r: Result<seq<i64>>)
    modifies c
    ensures Did(ReadLongs(old(c.Rest()), n), r, c.Rest())
  {
    hide ReadI64, ReadLongs, After;
    ghost var goal := ReadLongs(c.Rest(), n);
    var t := [];
    var k := n;
    NothingRead(goal);
    while k > 0
      invariant After(t, ReadLongs(c.Rest(), k)) == goal
    {
      LongStep(t, c.Rest(), k);
      var v :- c.I64();
      t := t + [v];
      k := k - 1;
    }
    LongsEnd(t, c.Rest());
    return Ok(t);
  }

  lemma LongsEnd(t: seq<i64>, rest: seq<byte>)
    ensures After(t, ReadLongs(rest, 0)) == Ok((t, rest))
  {
    assert t + [] == t;
  }

  lemma LongStep(t: seq<i64>, rest: seq<byte>, k: nat)
    requires k > 0
    ensures match ReadI64(rest)
            case Ok(p) => After(t, ReadLongs(rest, k)) == After(t + [p.0], ReadLongs(p.1, k - 1))
            case Err(e) => After(t, ReadLongs(rest, k)) == Err(e)
  {
    hide ReadI64;
    if ReadI64(rest).Ok? {
      var (v, rest') := ReadI64(rest).value;
      if ReadLongs(rest', k - 1).Ok? {
        Assoc(t, [v], ReadLongs(rest', k - 1).value.0);
      }
    }
  }

  method ReadPackingField(c: Cursor) returns (r: Result<Packing>)
    modifies c
    ensures Did(ReadPacking(old(c.Rest())), r, c.Rest())
  {
    hide ReadI64;
    var bpv :- c.U8();
    var min :- c.I64();
    var gcd :- c.I64();
    var offset :- c.I64();
    var length :- c.I64();
    var jumpTableOffset :- c.I64();
    return Ok(Packing(bpv, min, gcd, offset, length, jumpTableOffset));
  }

  method ReadNumericEntry(c: Cursor) returns (r: Result<NumericEntry>)
    modifies c
    ensures Did(ReadEntry(old(c.Rest())), r, c.Rest())
  {
    hide ReadDocs, ReadI64, ReadTable, ReadPacking;
    var docs :- ReadDocsField(c);
    var numValues :- c.I64();
    var table :- ReadTableField(c);
    var packing :- ReadPackingField(c);
    return Ok(NumericEntry(docs, numValues, table, packing));
  }

  // One block header: the block it announces and where the next one starts.
  function WalkOne(dvd: seq<byte>, pos: nat, gcd: i64, n: nat): Result<(BlockDecode, nat)> {
    var rest := if pos <= |dvd| then dvd[pos..] else [];
    var (bpv, rest1) :- ReadU8(rest);
    var (min, rest2) :- ReadI64(rest1);
    if bpv == 0 then Ok((DeltaPacked(pos + 9, 0, 0, min, n), pos + 9))
    else
      var (size, rest3) :- ReadI32(rest2);
      if size < 0 || |rest3| < size then Err(Corrupt)
      else Ok((GcdPacked(pos + 13, size, bpv, min, gcd, n), pos + 13 + size))
  }

  lemma WalkStep(blocks: seq<BlockDecode>, dvd: seq<byte>, pos: nat, gcd: i64, remaining: nat)
    requires remaining > 0
    ensures var n := if remaining < NUMERIC_BLOCK_SIZE then remaining else NUMERIC_BLOCK_SIZE;
            match WalkOne(dvd, pos, gcd, n)
            case Ok(p) => Onto(blocks, WalkBlocks(dvd, pos, gcd, remaining)) ==
                          Onto(blocks + [p.0], WalkBlocks(dvd, p.1, gcd, remaining - n))
            case Err(e) => Onto(blocks, WalkBlocks(dvd, pos, gcd, remaining)) == Err(e)
  {
    hide ReadI64, ReadI32;
    var n := if remaining < NUMERIC_BLOCK_SIZE then remaining else NUMERIC_BLOCK_SIZE;
    var one := WalkOne(dvd, pos, gcd, n);
    if one.Ok? {
      var next := WalkBlocks(dvd, one.value.1, gcd, remaining - n);
      if next.Ok? {
        Assoc(blocks, [one.value.0], next.value);
      }
    }
  }

  lemma WalkEnds(blocks: seq<BlockDecode>, dvd: seq<byte>, pos: nat, gcd: i64, goal: Result<seq<BlockDecode>>)
    ensures Onto(blocks, WalkBlocks(dvd, pos, gcd, 0)) == Ok(blocks)
    ensures Onto([], goal) == goal
  {
    assert blocks + [] == blocks;
    if goal.Ok? {
      assert [] + goal.value == goal.value;
    }
  }

  // What reading an integer leaves.
  lemma IntLengths()
    ensures forall rest: seq<byte> :: ReadI64(rest).Ok? ==> |ReadI64(rest).value.1| == |rest| - 8
    ensures forall rest: seq<byte> :: ReadI32(rest).Ok? ==> |ReadI32(rest).value.1| == |rest| - 4
  {
  }

  method WalkBlock(d: Cursor, gcd: i64, n: nat) returns (r: Result<BlockDecode>)
    modifies d
    ensures match WalkOne(d.bytes, old(d.pos), gcd, n)
            case Ok(p) => r == Ok(p.0) && d.pos == p.1
            case Err(e) => r == Err(e)
  {
    hide LeNum, ReadI64, ReadI32;
    IntLengths();
    ghost var start := d.pos;
    var bpv :- d.U8();
    var min :- d.I64();
    if bpv == 0 {
      return Ok(DeltaPacked(d.pos, 0, 0, min, n));
    }
    var size :- d.I32();
    if size < 0 {
      return Err(Corrupt);
    }
    var at := d.pos;
    var _ :- d.Skip(size);
    return Ok(GcdPacked(at, size, bpv, min, gcd, n));
  }

  method WalkAll(dvd: seq<byte>, offset: nat, gcd: i64, numValues: nat) returns (r: Result<seq<BlockDecode>>)
    ensures r == WalkBlocks(dvd, offset, gcd, numValues)
  {
    var d := new Cursor(dvd, offset);
    var blocks: seq<BlockDecode> := [];
    var remaining: nat := numValues;
    ghost var goal := WalkBlocks(dvd, offset, gcd, numValues);
    WalkEnds([], dvd, offset, gcd, goal);
    hide WalkBlocks, Onto, WalkOne;
    while remaining > 0
      invariant Onto(blocks, WalkBlocks(dvd, d.pos, gcd, remaining)) == goal
    {
      WalkStep(blocks, dvd, d.pos, gcd, remaining);
      var n := if remaining < NUMERIC_BLOCK_SIZE then remaining else NUMERIC_BLOCK_SIZE;
      var b :- WalkBlock(d, gcd, n);
      blocks := blocks + [b];
      remaining := remaining - n;
    }
    WalkEnds(blocks, dvd, d.pos, gcd, goal);
    return Ok(blocks);
  }

  // ----- decoding -----------------------------------------------------------------------

  // Wrapping at every step is wrapping once.
  lemma WrapMulAdd(base: i64, gcd: i64, x: nat)
    ensures Wrap(base + Wrap(gcd * Wrap(x))) == Wrap(base + gcd * x)
  {
    hide Wrap;
    var k := Turns(x);
    TimesDifference(gcd, x, k);
    WrapShift(gcd * x, -(gcd * k));
    var y := gcd * x;
    var j := Turns(y);
    WrapShift(base + y, -j);
  }

  // How often wrapping goes around.
  lemma Turns(x: int) returns (k: int)
    ensures Wrap(x) == x - k * TWO_64
  {
    k := x / TWO_64 + (if x % TWO_64 < TWO_63 then 0 else 1);
  }

  lemma TimesDifference(g: int, x: int, k: int)
    ensures g * (x - k * TWO_64) == g * x - g * k * TWO_64
  {
  }

  lemma WrapShift(x: int, k: int)
    ensures Wrap(x + k * TWO_64) == Wrap(x)
  {
    assert (x + k * TWO_64) % TWO_64 == x % TWO_64;
  }

  method ApplyEpilogue(xs: seq<nat>, base: i64, gcd: i64) returns (out: seq<i64>)
    ensures out == Epilogue(xs, base, gcd)
  {
    out := [];
    for i := 0 to |xs|
      invariant out == Epilogue(xs[..i], base, gcd)
    {
      WrapMulAdd(base, gcd, xs[i]);
      var v := Wrap(base + Wrap(gcd * Wrap(xs[i])));
      EpilogueSnoc(xs, i, base, gcd);
      out := out + [v];
    }
    assert xs[..|xs|] == xs;
  }

  lemma EpilogueSnoc(xs: seq<nat>, i: nat, base: i64, gcd: i64)
    requires i < |xs|
    ensures Epilogue(xs[..i + 1], base, gcd) == Epilogue(xs[..i], base, gcd) + [Wrap(base + gcd * xs[i])]
  {
    hide Wrap;
  }

  // Looking codes up; one bad code spoils the block, after the loop.
  method GatherTable(xs: seq<nat>, table: seq<i64>) returns (r: Result<seq<i64>>)
    ensures r == Gather(xs, table)
  {
    var out, bad := [], false;
    assert xs[0..] == xs;
    if Gather(xs, table).Ok? {
      assert [] + Gather(xs, table).value == Gather(xs, table).value;
    }
    for i := 0 to |xs|
      invariant bad ==> Gather(xs, table) == Err(Corrupt)
      invariant !bad ==> Onto(out, Gather(xs[i..], table)) == Gather(xs, table)
    {
      assert xs[i..][1..] == xs[i + 1..];
      if xs[i] < |table| {
        GatherStep(out, xs[i..], table);
        out := out + [table[xs[i]]];
      } else {
        bad := true;
      }
    }
    if bad {
      return Err(Corrupt);
    }
    assert out + [] == out;
    return Ok(out);
  }

  lemma GatherStep(out: seq<i64>, xs: seq<nat>, table: seq<i64>)
    requires xs != [] && xs[0] < |table|
    ensures Onto(out, Gather(xs, table)) == Onto(out + [table[xs[0]]], Gather(xs[1..], table))
  {
    if Gather(xs[1..], table).Ok? {
      Assoc(out, [table[xs[0]]], Gather(xs[1..], table).value);
    }
  }

  method DecodeOneBlock(b: BlockDecode, dvd: seq<byte>) returns (r: Result<seq<i64>>)
    ensures r == DecodeBlock(b, dvd)
  {
    hide Epilogue, Gather, Direct.UnpackFused, Repeat;
    if b.DeltaPacked? && b.width == 0 {
      return Ok(Repeat(b.base, b.values));
    }
    var payload :- PayloadAt(dvd, b.offset, b.len);
    var xs :- Direct.ForEachUnpacked(payload, b.width, b.values);
    match b
    case DirectPacked(_, _, _, _) =>
      var out := ApplyEpilogue(xs, 0, 1);
      return Ok(out);
    case DeltaPacked(_, _, _, base, _) =>
      var out := ApplyEpilogue(xs, base, 1);
      return Ok(out);
    case GcdPacked(_, _, _, base, gcd, _) =>
      var out := ApplyEpilogue(xs, base, gcd);
      return Ok(out);
    case TablePacked(_, _, _, table, _) =>
      r := GatherTable(xs, table);
  }

  lemma DecodeStep(out: seq<i64>, blocks: seq<BlockDecode>, dvd: seq<byte>)
    requires blocks != []
    ensures match DecodeBlock(blocks[0], dvd)
            case Ok(v) => Onto(out, DecodeBlocks(blocks, dvd)) == Onto(out + v, DecodeBlocks(blocks[1..], dvd))
            case Err(e) => Onto(out, DecodeBlocks(blocks, dvd)) == Err(e)
  {
    hide DecodeBlock;
    if DecodeBlock(blocks[0], dvd).Ok? && DecodeBlocks(blocks[1..], dvd).Ok? {
      Assoc(out, DecodeBlock(blocks[0], dvd).value, DecodeBlocks(blocks[1..], dvd).value);
    }
  }

  lemma DecodeEnds(out: seq<i64>, dvd: seq<byte>, goal: Result<seq<i64>>)
    ensures Onto(out, DecodeBlocks([], dvd)) == Ok(out)
    ensures Onto([], goal) == goal
  {
    assert out + [] == out;
    if goal.Ok? {
      assert [] + goal.value == goal.value;
    }
  }

  method DecodeAllBlocks(blocks: seq<BlockDecode>, dvd: seq<byte>) returns (r: Result<seq<i64>>)
    ensures r == DecodeBlocks(blocks, dvd)
  {
    var out: seq<i64> := [];
    ghost var goal := DecodeBlocks(blocks, dvd);
    DecodeEnds([], dvd, goal);
    assert blocks[0..] == blocks;
    hide DecodeBlock, DecodeBlocks, Onto;
    for i := 0 to |blocks|
      invariant Onto(out, DecodeBlocks(blocks[i..], dvd)) == goal
    {
      DecodeStep(out, blocks[i..], dvd);
      assert blocks[i..][1..] == blocks[i + 1..];
      var v :- DecodeOneBlock(blocks[i], dvd);
      out := out + v;
    }
    DecodeEnds(out, dvd, goal);
    assert blocks[|blocks|..] == [];
    return Ok(out);
  }

  method DecodeValueStream(plan: DecodePlan, dvd: seq<byte>) returns (r: Result<seq<i64>>)
    ensures r == DecodeValues(plan, dvd)
  {
    hide DecodeBlocks;
    var values :- DecodeAllBlocks(plan.blocks, dvd);
    if |values| != plan.numValues {
      return Err(Corrupt);
    }
    return Ok(values);
  }

  method DecodeBitmap(c: Coverage, dvd: seq<byte>) returns (r: Result<Option<seq<nat>>>)
    ensures r == CoverageBitmap(c, dvd)
  {
    hide Disi.DecodeRegion, Disi.DenseRankBytes;
    match c
    case Dense(_) => return Ok(None);
    case Empty(n) => return Ok(Some(Disi.ZeroWords(Direct.CeilDiv(n, 64))));
    case Sparse(n, d) =>
      var region :- PayloadAt(dvd, d.offset, d.len);
      var bitmap :- DisiCode.Decode(region, d.numValues, n, d.rankPower);
      return Ok(Some(bitmap));
  }

  // The result of scattering, with `values` used from v on.
  ghost predicate ScatterLeft(out: seq<i64>, docs: seq<nat>, values: seq<i64>, v: nat, goal: Result<seq<i64>>) {
    v <= |values| && Scatter(out, docs, values[v..]) == goal
  }

  lemma ScatterStep(out: seq<i64>, docs: seq<nat>, values: seq<i64>, v: nat, goal: Result<seq<i64>>)
    requires docs != [] && ScatterLeft(out, docs, values, v, goal)
    ensures if v == |values| || docs[0] >= |out| then goal == Err(Panic)
            else ScatterLeft(out[docs[0] := values[v]], docs[1..], values, v + 1, goal)
  {
    if v < |values| {
      assert values[v..][1..] == values[v + 1..];
    }
  }

  // Walks the bits of one word, moving one value per bit.
  method ScatterWord(word: nat, base: nat, out: array<i64>, values: seq<i64>, v: nat, ghost rest: seq<nat>,
                     ghost goal: Result<seq<i64>>) returns (r: Result<nat>)
    requires ScatterLeft(out[..], Ones(word, base) + rest, values, v, goal)
    modifies out
    ensures match r case Ok(v') => ScatterLeft(out[..], rest, values, v', goal) case Err(e) => goal == Err(e)
  {
    var bits: nat, v': nat := word, v;
    hide ScatterLeft, Ones, And;
    while bits != 0
      invariant ScatterLeft(out[..], Ones(bits, base) + rest, values, v', goal)
      decreases bits
    {
      LowestBit(bits, base);
      ghost var docs := Ones(bits, base) + rest;
      var doc := base + TrailingZeros(bits);
      assert docs[0] == doc && docs[1..] == Ones(And(bits, bits - 1), base) + rest;
      ScatterStep(out[..], docs, values, v', goal);
      assert v' <= |values| by { LeftBound(out[..], docs, values, v', goal); }
      if v' == |values| || doc >= out.Length {
        return Err(Panic);
      }
      ghost var before := out[..];
      out[doc] := values[v'];
      assert out[..] == before[doc := values[v']];
      v' := v' + 1;
      bits := And(bits, bits - 1);
    }
    NoOnes(base);
    assert [] + rest == rest;
    return Ok(v');
  }

  lemma LeftBound(out: seq<i64>, docs: seq<nat>, values: seq<i64>, v: nat, goal: Result<seq<i64>>)
    requires ScatterLeft(out, docs, values, v, goal)
    ensures v <= |values|
  {
  }

  lemma NoOnes(base: nat)
    ensures Ones(0, base) == [] && OnesOf([], base) == []
  {
  }

  lemma AllZero(s: seq<i64>)
    requires forall i :: 0 <= i < |s| ==> s[i] == 0
    ensures s == Repeat(0, |s|)
  {
  }

  method ScatterValues(bitmap: seq<nat>, numDocs: nat, values: seq<i64>) returns (r: Result<seq<i64>>)
    ensures match r case Ok(s) => Scatter(Repeat(0, numDocs), OnesOf(bitmap, 0), values) == Ok(s)
                    case Err(e) => Scatter(Repeat(0, numDocs), OnesOf(bitmap, 0), values) == Err(e)
  {
    hide Scatter, OnesOf, Repeat;
    var out := new i64[numDocs](_ => 0);
    ghost var goal := Scatter(Repeat(0, numDocs), OnesOf(bitmap, 0), values);
    AllZero(out[..]);
    assert bitmap[0..] == bitmap && values[0..] == values;
    var v := 0;
    for w := 0 to |bitmap|
      invariant ScatterLeft(out[..], OnesOf(bitmap[w..], 64 * w), values, v, goal)
    {
      OnesOfCons(bitmap[w..], 64 * w);
      assert bitmap[w..][1..] == bitmap[w + 1..];
      v :- ScatterWord(bitmap[w], 64 * w, out, values, v, OnesOf(bitmap[w + 1..], 64 * w + 64), goal);
    }
    NoOnes(64 * |bitmap|);
    assert bitmap[|bitmap|..] == [];
    ScatterEnds(out[..], values, v, goal);
    if v != |values| {
      return Err(Corrupt);
    }
    return Ok(out[..]);
  }

  lemma ScatterEnds(out: seq<i64>, values: seq<i64>, v: nat, goal: Result<seq<i64>>)
    requires ScatterLeft(out, [], values, v, goal)
    ensures if v == |values| then goal == Ok(out) else goal == Err(Corrupt)
  {
  }

  method DecodeNumericColumn(plan: DecodePlan, dvd: seq<byte>) returns (r: Result<Column>)
    ensures match r case Ok(c) => DecodeNumeric(plan, dvd) == Ok(c) case Err(e) => DecodeNumeric(plan, dvd) == Err(e)
  {
    hide DecodeValues, CoverageBitmap, Scatter, OnesOf, Repeat;
    var values :- DecodeValueStream(plan, dvd);
    var bitmap :- DecodeBitmap(plan.coverage, dvd);
    match plan.coverage
    case Dense(n) =>
      if |values| != n {
        return Err(Corrupt);
      }
      return Ok(Column(values, None));
    case Empty(n) => return Ok(Column(Repeat(0, n), bitmap));
    case Sparse(n, _) =>
      var words := if bitmap.Some? then bitmap.value else [];
      var scattered :- ScatterValues(words, n, values);
      return Ok(Column(scattered, bitmap));
  }
}
