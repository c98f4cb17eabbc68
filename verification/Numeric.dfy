// NUMERIC doc values: the `.dvm` entry, the `.dvd` payload, the planner that
// turns an entry into a decode plan, and the decoder of a plan.
//
// Main result: NumericRoundTrip -- for every ascending doc list below max_doc
// and any values, what the writer emits plans and decodes to exactly those
// values at those docs and to null elsewhere, whatever encoding the policy chose.
module Numeric {
  import opened Bits
  import opened Wire
  import opened StatsPass
  import opened Bitmap
  import Direct
  import Disi

  // ----- the entry ------------------------------------------------------------------

  // Which docs have a value: -2 none, -1 all, otherwise where the IndexedDISI is.
  datatype DocsField = DocsField(offset: i64, length: i64, jumpCount: i16, rankPower: byte)

  const NO_DOCS := DocsField(-2, 0, -1, 0xFF)
  const ALL_DOCS := DocsField(-1, 0, -1, 0xFF)

  datatype NumericEntry = NumericEntry(docs: DocsField, numValues: i64, table: Option<seq<i64>>, packing: Packing)

  datatype Packing = Packing(bpv: byte, min: i64, gcd: i64, offset: i64, length: i64, jumpTableOffset: i64)

  const MULTI_BLOCK_TABLE_SIZE := -16
  const MULTI_BLOCK_BPV := 0xFF
  const NUMERIC_BLOCK_SIZE: nat := 16384

  function DocsBytes(d: DocsField): seq<byte> {
    LeI64(d.offset) + (LeI64(d.length) + (LeI16(d.jumpCount) + [d.rankPower]))
  }

  function ReadDocs(rest: seq<byte>): Parsed<DocsField> {
    var (offset, rest1) :- ReadI64(rest);
    var (length, rest2) :- ReadI64(rest1);
    var (jumpCount, rest3) :- ReadI16(rest2);
    var (rankPower, rest4) :- ReadU8(rest3);
    Ok((DocsField(offset, length, jumpCount, rankPower), rest4))
  }

  function PackingBytes(p: Packing): seq<byte> {
    [p.bpv] + (LeI64(p.min) + (LeI64(p.gcd) + (LeI64(p.offset) + (LeI64(p.length) + LeI64(p.jumpTableOffset)))))
  }

  function ReadPacking(rest: seq<byte>): Parsed<Packing> {
    var (bpv, rest1) :- ReadU8(rest);
    var (min, rest2) :- ReadI64(rest1);
    var (gcd, rest3) :- ReadI64(rest2);
    var (offset, rest4) :- ReadI64(rest3);
    var (length, rest5) :- ReadI64(rest4);
    var (jumpTableOffset, rest6) :- ReadI64(rest5);
    Ok((Packing(bpv, min, gcd, offset, length, jumpTableOffset), rest6))
  }

  function LongsBytes(t: seq<i64>): seq<byte> {
    if t == [] then [] else LeI64(t[0]) + LongsBytes(t[1..])
  }

  function ReadLongs(rest: seq<byte>, n: nat): Parsed<seq<i64>> {
    if n == 0 then Ok(([], rest))
    else
      var (v, rest1) :- ReadI64(rest);
      var (t, rest2) :- ReadLongs(rest1, n - 1);
      Ok(([v] + t, rest2))
  }

  function TableBytes(table: Option<seq<i64>>): seq<byte>
    requires table.Some? ==> |table.value| < TWO_31
  {
    match table
    case Some(t) => LeI32(|t|) + LongsBytes(t)
    case None => LeI32(-1)
  }

  function ReadTable(rest: seq<byte>): Parsed<Option<seq<i64>>> {
    var (size, rest1) :- ReadI32(rest);
    if size > 0 then
      if size > MAX_TABLE then Err(Corrupt)
      else
        var (t, rest2) :- ReadLongs(rest1, size);
        Ok((Some(t), rest2))
    else if size == -1 || size == MULTI_BLOCK_TABLE_SIZE then Ok((None, rest1))
    else Err(Corrupt)
  }

  predicate WritableTable(table: Option<seq<i64>>) {
    table.Some? ==> 1 <= |table.value| <= MAX_TABLE
  }

  function EntryBytes(e: NumericEntry): seq<byte>
    requires WritableTable(e.table)
  {
    DocsBytes(e.docs) + (LeI64(e.numValues) + (TableBytes(e.table) + PackingBytes(e.packing)))
  }

  function ReadEntry(rest: seq<byte>): Parsed<NumericEntry> {
    var (docs, rest1) :- ReadDocs(rest);
    var (numValues, rest2) :- ReadI64(rest1);
    var (table, rest3) :- ReadTable(rest2);
    var (packing, rest4) :- ReadPacking(rest3);
    Ok((NumericEntry(docs, numValues, table, packing), rest4))
  }

  lemma DocsRoundTrip(d: DocsField, rest: seq<byte>)
    ensures Yields(ReadDocs(DocsBytes(d) + rest), d, rest)
  {
    hide LeI64, LeI16, ReadI64, ReadI16;
    var t1 := LeI16(d.jumpCount) + [d.rankPower];
    var t2 := LeI64(d.length) + t1;
    Assoc(LeI64(d.offset), t2, rest);
    I64RoundTrip(d.offset, t2 + rest);
    Assoc(LeI64(d.length), t1, rest);
    I64RoundTrip(d.length, t1 + rest);
    Assoc(LeI16(d.jumpCount), [d.rankPower], rest);
    I16RoundTrip(d.jumpCount, [d.rankPower] + rest);
    assert ([d.rankPower] + rest)[1..] == rest;
  }

  lemma PackingRoundTrip(p: Packing, rest: seq<byte>)
    ensures Yields(ReadPacking(PackingBytes(p) + rest), p, rest)
  {
    hide LeI64, ReadI64;
    var t1 := LeI64(p.length) + LeI64(p.jumpTableOffset);
    var t2 := LeI64(p.offset) + t1;
    var t3 := LeI64(p.gcd) + t2;
    var t4 := LeI64(p.min) + t3;
    Assoc([p.bpv], t4, rest);
    assert ([p.bpv] + (t4 + rest))[1..] == t4 + rest;
    Assoc(LeI64(p.min), t3, rest);
    I64RoundTrip(p.min, t3 + rest);
    Assoc(LeI64(p.gcd), t2, rest);
    I64RoundTrip(p.gcd, t2 + rest);
    Assoc(LeI64(p.offset), t1, rest);
    I64RoundTrip(p.offset, t1 + rest);
    Assoc(LeI64(p.length), LeI64(p.jumpTableOffset), rest);
    I64RoundTrip(p.length, LeI64(p.jumpTableOffset) + rest);
    I64RoundTrip(p.jumpTableOffset, rest);
  }

  lemma {:induction false} LongsRoundTrip(t: seq<i64>, rest: seq<byte>)
    ensures Yields(ReadLongs(LongsBytes(t) + rest, |t|), t, rest)
  {
    if t == [] {
      assert LongsBytes(t) + rest == rest;
    } else {
      hide LeI64, ReadI64;
      var tail := LongsBytes(t[1..]);
      Assoc(LeI64(t[0]), tail, rest);
      I64RoundTrip(t[0], tail + rest);
      LongsRoundTrip(t[1..], rest);
      assert t == [t[0]] + t[1..];
    }
  }

  lemma TableRoundTrip(table: Option<seq<i64>>, rest: seq<byte>)
    requires WritableTable(table)
    ensures Yields(ReadTable(TableBytes(table) + rest), table, rest)
  {
    hide LeI32, ReadI32, LongsBytes, ReadLongs;
    match table
    case Some(t) =>
      Assoc(LeI32(|t|), LongsBytes(t), rest);
      I32RoundTrip(|t|, LongsBytes(t) + rest);
      LongsRoundTrip(t, rest);
    case None =>
      I32RoundTrip(-1, rest);
  }

  lemma EntryRoundTrip(e: NumericEntry, rest: seq<byte>)
    requires WritableTable(e.table)
    ensures Yields(ReadEntry(EntryBytes(e) + rest), e, rest)
  {
    hide DocsBytes, ReadDocs, LeI64, ReadI64, TableBytes, ReadTable, PackingBytes, ReadPacking;
    var t1 := TableBytes(e.table) + PackingBytes(e.packing);
    var t2 := LeI64(e.numValues) + t1;
    Assoc(DocsBytes(e.docs), t2, rest);
    DocsRoundTrip(e.docs, t2 + rest);
    Assoc(LeI64(e.numValues), t1, rest);
    I64RoundTrip(e.numValues, t1 + rest);
    Assoc(TableBytes(e.table), PackingBytes(e.packing), rest);
    TableRoundTrip(e.table, PackingBytes(e.packing) + rest);
    PackingRoundTrip(e.packing, rest);
  }

  // ----- the plan ---------------------------------------------------------------------

  datatype BlockDecode =
    | DirectPacked(offset: nat, len: nat, width: nat, values: nat)
    | DeltaPacked(offset: nat, len: nat, width: nat, base: i64, values: nat)
    | GcdPacked(offset: nat, len: nat, width: nat, base: i64, gcd: i64, values: nat)
    | TablePacked(offset: nat, len: nat, width: nat, table: seq<i64>, values: nat)

  datatype DisiPlan = DisiPlan(offset: nat, len: nat, jumpCount: i16, rankPower: byte, numValues: nat)

  datatype Coverage = Dense(numDocs: nat) | Sparse(numDocs: nat, disi: DisiPlan) | Empty(numDocs: nat)

  datatype DecodePlan = DecodePlan(blocks: seq<BlockDecode>, coverage: Coverage, numValues: nat)

  function CoverageOf(d: DocsField, numValues: nat, maxDoc: nat): Result<Coverage> {
    if d.offset == -2 then Ok(Empty(maxDoc))
    else if d.offset == -1 then Ok(Dense(maxDoc))
    else if d.offset >= 0 then
      Ok(Sparse(maxDoc, DisiPlan(d.offset, AsU64(d.length), d.jumpCount, d.rankPower, numValues)))
    else Err(Corrupt)
  }

  // Multi-block payloads: walk the block headers in the data file.
  function WalkBlocks(dvd: seq<byte>, pos: nat, gcd: i64, remaining: nat): Result<seq<BlockDecode>>
    decreases remaining
  {
    if remaining == 0 then Ok([])
    else
      var n := if remaining < NUMERIC_BLOCK_SIZE then remaining else NUMERIC_BLOCK_SIZE;
      var rest := if pos <= |dvd| then dvd[pos..] else [];
      var (bpv, rest1) :- ReadU8(rest);
      var (min, rest2) :- ReadI64(rest1);
      if bpv == 0 then
        var blocks :- WalkBlocks(dvd, pos + 9, gcd, remaining - n);
        Ok([DeltaPacked(pos + 9, 0, 0, min, n)] + blocks)
      else
        var (size, rest3) :- ReadI32(rest2);
        if size < 0 || |rest3| < size then Err(Corrupt)
        else
          var blocks :- WalkBlocks(dvd, pos + 13 + size, gcd, remaining - n);
          Ok([GcdPacked(pos + 13, size, bpv, min, gcd, n)] + blocks)
  }

  // The single block an entry describes.
  function SingleBlock(table: Option<seq<i64>>, p: Packing, numValues: nat): BlockDecode {
    var offset, len := AsU64(p.offset), AsU64(p.length);
    if p.bpv == 0 then DeltaPacked(offset, 0, 0, p.min, numValues)
    else if table.Some? then TablePacked(offset, len, p.bpv, table.value, numValues)
    else if p.gcd != 1 then GcdPacked(offset, len, p.bpv, p.min, p.gcd, numValues)
    else if p.min != 0 then DeltaPacked(offset, len, p.bpv, p.min, numValues)
    else DirectPacked(offset, len, p.bpv, numValues)
  }

  function IntoPlan(e: NumericEntry, dvd: seq<byte>, maxDoc: nat): Result<DecodePlan> {
    var numValues := AsU64(e.numValues);
    var coverage :- CoverageOf(e.docs, numValues, maxDoc);
    if numValues == 0 then Ok(DecodePlan([], coverage, 0))
    else if e.packing.bpv == MULTI_BLOCK_BPV then
      var blocks :- WalkBlocks(dvd, AsU64(e.packing.offset), e.packing.gcd, numValues);
      Ok(DecodePlan(blocks, coverage, numValues))
    else Ok(DecodePlan([SingleBlock(e.table, e.packing, numValues)], coverage, numValues))
  }

  // ----- decoding a plan --------------------------------------------------------------

  function PayloadAt(dvd: seq<byte>, offset: nat, len: nat): Result<seq<byte>> {
    if offset + len > |dvd| then Err(Corrupt) else Ok(dvd[offset..offset + len])
  }

  // The fused arithmetic after unpacking.
  function Epilogue(xs: seq<nat>, base: i64, gcd: i64): (v: seq<i64>)
    ensures |v| == |xs|
  {
    seq(|xs|, i requires 0 <= i < |xs| => Wrap(base + gcd * xs[i]))
  }

  function Gather(xs: seq<nat>, table: seq<i64>): Result<seq<i64>> {
    if xs == [] then Ok([])
    else if xs[0] >= |table| then Err(Corrupt)
    else
      var rest :- Gather(xs[1..], table);
      Ok([table[xs[0]]] + rest)
  }

  function Repeat(v: i64, n: nat): (r: seq<i64>)
    ensures |r| == n
  {
    seq(n, i => v)
  }

  function DecodeBlock(b: BlockDecode, dvd: seq<byte>): Result<seq<i64>> {
    if b.DeltaPacked? && b.width == 0 then Ok(Repeat(b.base, b.values))
    else
      var payload :- PayloadAt(dvd, b.offset, b.len);
      var xs :- Direct.UnpackFused(payload, b.width, b.values);
      match b
      case DirectPacked(_, _, _, _) => Ok(Epilogue(xs, 0, 1))
      case DeltaPacked(_, _, _, base, _) => Ok(Epilogue(xs, base, 1))
      case GcdPacked(_, _, _, base, gcd, _) => Ok(Epilogue(xs, base, gcd))
      case TablePacked(_, _, _, table, _) => Gather(xs, table)
  }

  function DecodeBlocks(blocks: seq<BlockDecode>, dvd: seq<byte>): Result<seq<i64>> {
    if blocks == [] then Ok([])
    else
      var first :- DecodeBlock(blocks[0], dvd);
      var rest :- DecodeBlocks(blocks[1..], dvd);
      Ok(first + rest)
  }

  function DecodeValues(plan: DecodePlan, dvd: seq<byte>): Result<seq<i64>> {
    var values :- DecodeBlocks(plan.blocks, dvd);
    if |values| != plan.numValues then Err(Corrupt) else Ok(values)
  }

  // Moves compact values to their doc positions.
  function Scatter(out: seq<i64>, docs: seq<nat>, values: seq<i64>): Result<seq<i64>>
    decreases |docs|
  {
    if docs == [] then if values == [] then Ok(out) else Err(Corrupt)
    else if values == [] || docs[0] >= |out| then Err(Panic)
    else Scatter(out[docs[0] := values[0]], docs[1..], values[1..])
  }

  // An Arrow column: values, and the validity bitmap if any doc is null.
  datatype Column = Column(values: seq<i64>, validity: Option<seq<nat>>)

  function CoverageBitmap(c: Coverage, dvd: seq<byte>): Result<Option<seq<nat>>> {
    match c
    case Dense(_) => Ok(None)
    case Empty(n) => Ok(Some(Disi.ZeroWords(Direct.CeilDiv(n, 64))))
    case Sparse(n, d) =>
      var region :- PayloadAt(dvd, d.offset, d.len);
      var bitmap :- Disi.DecodeRegion(region, d.numValues, n, Disi.DenseRankBytes(d.rankPower));
      Ok(Some(bitmap))
  }

  function DecodeNumeric(plan: DecodePlan, dvd: seq<byte>): Result<Column> {
    var values :- DecodeValues(plan, dvd);
    var n := plan.coverage.numDocs;
    var bitmap :- CoverageBitmap(plan.coverage, dvd);
    match plan.coverage
    case Dense(_) => if |values| != n then Err(Corrupt) else Ok(Column(values, None))
    case Empty(_) => Ok(Column(Repeat(0, n), bitmap))
    case Sparse(_, _) =>
      var scattered :- Scatter(Repeat(0, n), OnesOf(if bitmap.Some? then bitmap.value else [], 0), values);
      Ok(Column(scattered, bitmap))
  }

  // ----- what the column means -----------------------------------------------------------

  function BitSet(words: seq<nat>, d: nat): bool {
    d / 64 < |words| && Shr(words[d / 64], d % 64) % 2 == 1
  }

  // The value of doc d; None for null.
  function Cell(col: Column, d: nat): Option<i64> {
    if d >= |col.values| then None
    else if col.validity.Some? && !BitSet(col.validity.value, d) then None
    else Some(col.values[d])
  }

  ghost predicate IsColumn(r: Result<Column>, docs: seq<nat>, values: seq<i64>, maxDoc: nat) {
    match r
    case Err(_) => false
    case Ok(col) =>
      && |col.values| == maxDoc && |docs| == |values|
      && (forall i :: 0 <= i < |docs| ==> Cell(col, docs[i]) == Some(values[i]))
      && (forall d: nat :: d < maxDoc && d !in docs ==> Cell(col, d) == None)
  }
}
