// The planner as the code runs it: one cursor over the metadata, one loop over its
// entries. It does what the reading functions say, and it always ends: every entry
// takes at least the four bytes of its field number.
module PlanCode {
  import opened Bits
  import opened Wire
  import opened Numeric
  import opened NumericCode
  import opened Monotonic
  import opened MonotonicCode
  import opened TermsDict
  import opened DvFile
  import opened SortedTerms
  import SortedNumeric
  import BinaryValues

  method EntryIntoPlan(e: NumericEntry, dvd: seq<byte>, maxDoc: nat) returns (r: Result<DecodePlan>)
    ensures match r case Ok(p) => IntoPlan(e, dvd, maxDoc) == Ok(p) case Err(x) => IntoPlan(e, dvd, maxDoc) == Err(x)
  {
    hide WalkBlocks, SingleBlock, CoverageOf, AsU64;
    var numValues := AsU64(e.numValues);
    var coverage :- CoverageOf(e.docs, numValues, maxDoc);
    if numValues == 0 {
      return Ok(DecodePlan([], coverage, 0));
    }
    if e.packing.bpv == MULTI_BLOCK_BPV {
      var blocks :- WalkAll(dvd, AsU64(e.packing.offset), e.packing.gcd, numValues);
      return Ok(DecodePlan(blocks, coverage, numValues));
    }
    return Ok(DecodePlan([SingleBlock(e.table, e.packing, numValues)], coverage, numValues));
  }

  // ----- the terms dictionary -------------------------------------------------------------

  method ReadRegionsField(c: Cursor) returns (r: Result<Regions>)
    modifies c
    ensures Did(ReadRegions(old(c.Rest())), r, c.Rest())
    ensures r.Ok? ==> r.value.termsOffset >= 0 && r.value.termsLen >= 0 && r.value.addressesOffset >= 0
    ensures r.Ok? ==> r.value.addressesLen >= 0 && r.value.maxTermLength >= 0
  {
    hide ReadI32, ReadI64;
    var maxTermLength :- c.I32();
    var maxBlockLength :- c.I32();
    var termsOffset :- c.I64();
    var termsLen :- c.I64();
    var addressesOffset :- c.I64();
    var addressesLen :- c.I64();
    if termsOffset < 0 || termsLen < 0 || addressesOffset < 0 || addressesLen < 0 || maxTermLength < 0 {
      return Err(Corrupt);
    }
    return Ok(Regions(maxTermLength, maxBlockLength, termsOffset, termsLen, addressesOffset, addressesLen));
  }

  method ReadHeadField(c: Cursor) returns (r: Result<(nat, nat)>)
    modifies c
    ensures Did(TermsDict.ReadHead(old(c.Rest())), r, c.Rest())
  {
    hide ReadI32, ReadV;
    var numTerms :- c.VGroups(10, 64);
    if numTerms >= TWO_63 {
      return Err(Corrupt);
    }
    var shift :- c.I32();
    return Ok((numTerms, AsU32(shift)));
  }

  lemma SomeMeta(n: nat, size: nat)
    requires size > 0
    ensures BlockCount(n + 1, size) * META_BYTES_PER_BLOCK > 0
  {
  }

  method SkipIndexField(c: Cursor, n: nat) returns (r: Result<()>)
    modifies c
    ensures Did(SkipIndex(old(c.Rest()), n), r, c.Rest())
  {
    hide ReadI32, BlockCount, SizeOf, BlockSize;
    var shift :- c.I32();
    var values := BlockCount(n, SizeOf(AsU32(shift))) + 1;
    SomeMeta(values - 1, BlockSize());
    var _ :- c.Skip(BlockCount(values, BlockSize()) * META_BYTES_PER_BLOCK);
    var _ :- c.Skip(32);
    return Ok(());
  }

  method ReadTermsDictField(c: Cursor) returns (r: Result<TermsPlan>)
    modifies c
    ensures Did(ReadTermsDict(old(c.Rest())), r, c.Rest())
  {
    hide TermsDict.ReadHead, ReadMeta, ReadRegions, SkipIndex, BlockCount, SizeOf;
    var head :- ReadHeadField(c);
    var meta :- ReadAllMeta(c, BlockCount(BlockCount(head.0, BLOCK_TERMS), SizeOf(head.1)));
    var r' :- ReadRegionsField(c);
    var _ :- SkipIndexField(c, head.0);
    return Ok(TermsPlan(head.0, meta, head.1, r'.maxTermLength, AsU32(r'.maxBlockLength),
                        r'.termsOffset, r'.termsLen, r'.addressesOffset, r'.addressesLen));
  }

  // ----- the entries by type -----------------------------------------------------------------

  method ReadBlobHead(c: Cursor) returns (r: Result<BinaryValues.Head>)
    modifies c
    ensures Did(BinaryValues.ReadHead(old(c.Rest())), r, c.Rest())
  {
    hide ReadI32, ReadI64, ReadDocs;
    var offset :- c.I64();
    var len :- c.I64();
    var docs :- ReadDocsField(c);
    var docCount :- c.I32();
    var minLength :- c.I32();
    var maxLength :- c.I32();
    if offset < 0 || len < 0 || docCount < 0 || minLength < 0 || maxLength < minLength {
      return Err(Corrupt);
    }
    return Ok(BinaryValues.Head(offset, len, docs, docCount, minLength, maxLength));
  }

  method ReadBinaryEntry(c: Cursor, maxDoc: nat) returns (r: Result<BinaryValues.BinaryPlan>)
    modifies c
    ensures Did(BinaryValues.Read(old(c.Rest()), maxDoc), r, c.Rest())
  {
    hide BinaryValues.ReadHead, ReadAddresses, CoverageOf;
    var h :- ReadBlobHead(c);
    if h.docCount < 0 || h.offset < 0 || h.len < 0 || h.minLength < 0 || h.maxLength < 0 {
      return Err(Corrupt);
    }
    var addresses: Option<AddressesPlan> := None;
    if h.maxLength > h.minLength {
      var a :- ReadAddressesField(c, h.docCount + 1);
      addresses := Some(a);
    }
    var coverage :- CoverageOf(h.docs, h.docCount, maxDoc);
    return Ok(BinaryValues.BinaryPlan(h.offset, h.len, coverage, h.docCount, h.minLength, h.maxLength, addresses));
  }

  method ReadSortedNumericEntry(c: Cursor, dvd: seq<byte>, maxDoc: nat) returns (r: Result<SortedNumeric.NumericPlan>)
    modifies c
    ensures Did(SortedNumeric.Read(old(c.Rest()), dvd, maxDoc), r, c.Rest())
  {
    hide ReadEntry, ReadI32, ReadAddresses, IntoPlan, SortedNumeric.FixCoverage;
    var e :- ReadNumericEntry(c);
    var docCount :- c.I32();
    if e.numValues > docCount {
      var addresses :- ReadAddressesField(c, CountAfter(docCount));
      var plan :- EntryIntoPlan(e, dvd, maxDoc);
      return Ok(SortedNumeric.Many(SortedNumeric.FixCoverage(plan, AsU64(docCount)), addresses));
    } else {
      var plan :- EntryIntoPlan(e, dvd, maxDoc);
      return Ok(SortedNumeric.Single(plan));
    }
  }

  method ReadSortedEntry(c: Cursor, dvd: seq<byte>, maxDoc: nat) returns (r: Result<SortedPlan>)
    modifies c
    ensures Did(ReadSorted(old(c.Rest()), dvd, maxDoc), r, c.Rest())
  {
    hide ReadEntry, IntoPlan, ReadTermsDict;
    var e :- ReadNumericEntry(c);
    var ords :- EntryIntoPlan(e, dvd, maxDoc);
    var terms :- ReadTermsDictField(c);
    return Ok(SortedPlan(ords, None, terms));
  }

  method ReadSetAddressesField(c: Cursor, multi: bool) returns (r: Result<Option<(nat, AddressesPlan)>>)
    modifies c
    ensures Did(ReadSetAddresses(multi, old(c.Rest())), r, c.Rest())
  {
    hide ReadI32, ReadAddresses;
    if !multi {
      return Ok(None);
    }
    var docCount :- c.I32();
    var addresses :- ReadAddressesField(c, CountAfter(docCount));
    return Ok(Some((AsU64(docCount), addresses)));
  }

  method ReadSetEntry(c: Cursor, dvd: seq<byte>, maxDoc: nat) returns (r: Result<SortedPlan>)
    modifies c
    ensures Did(ReadSet(old(c.Rest()), dvd, maxDoc), r, c.Rest())
  {
    hide ReadU8, ReadEntry, IntoPlan, ReadTermsDict, ReadSetAddresses, SortedNumeric.FixCoverage;
    var multi :- c.U8();
    var e :- ReadNumericEntry(c);
    var a :- ReadSetAddressesField(c, multi != 0);
    var ords :- EntryIntoPlan(e, dvd, maxDoc);
    var terms :- ReadTermsDictField(c);
    match a
    case None => return Ok(SortedPlan(ords, None, terms));
    case Some(x) => return Ok(SortedPlan(SortedNumeric.FixCoverage(ords, x.0), Some(x.1), terms));
  }

  method ReadEntryOf(c: Cursor, typeByte: byte, kind: DvKind, dvd: seq<byte>, maxDoc: nat) returns (r: Result<FieldPlan>)
    modifies c
    ensures Did(ReadBody(typeByte, kind, old(c.Rest()), dvd, maxDoc), r, c.Rest())
  {
    hide ReadEntry, IntoPlan, BinaryValues.Read, ReadSorted, ReadSet, SortedNumeric.Read;
    if typeByte == 0 {
      if kind != NumericKind {
        return Err(Corrupt);
      }
      var e :- ReadNumericEntry(c);
      var plan :- EntryIntoPlan(e, dvd, maxDoc);
      return Ok(NumericFieldPlan(plan));
    } else if typeByte == 1 {
      var plan :- ReadBinaryEntry(c, maxDoc);
      return Ok(BinaryFieldPlan(plan));
    } else if typeByte == 2 {
      var plan :- ReadSortedEntry(c, dvd, maxDoc);
      return Ok(SortedFieldPlan(plan, false));
    } else if typeByte == 3 {
      var plan :- ReadSetEntry(c, dvd, maxDoc);
      return Ok(SortedFieldPlan(plan, true));
    } else if typeByte == 4 {
      var plan :- ReadSortedNumericEntry(c, dvd, maxDoc);
      return Ok(SortedNumericFieldPlan(plan));
    }
    return Err(Corrupt);
  }

  method ReadFieldEntry(c: Cursor, field: DvField, dvd: seq<byte>, maxDoc: nat) returns (r: Result<FieldPlan>)
    modifies c
    ensures Did(ReadField(field, old(c.Rest()), dvd, maxDoc), r, c.Rest())
  {
    hide ReadBody, ReadU8;
    var typeByte :- c.U8();
    if field.hasSkipIndex {
      var _ :- c.Skip(SKIP_INDEX_LENGTH);
    } else {
      assert c.Rest()[0..] == c.Rest();
    }
    r := ReadEntryOf(c, typeByte, field.kind, dvd, maxDoc);
  }

  // ----- reading never goes back ----------------------------------------------------------------

  ghost predicate Shrinks<T(!new)>(r: Parsed<T>, rest: seq<byte>) {
    match r case Ok(p) => |p.1| <= |rest| case Err(_) => true
  }

  lemma PrimitivesShrink(rest: seq<byte>)
    ensures Shrinks(ReadU8(rest), rest) && Shrinks(ReadI16(rest), rest) && Shrinks(ReadI32(rest), rest)
    ensures Shrinks(ReadI64(rest), rest) && Shrinks(ReadU32(rest), rest)
  {
    hide LeNum;
  }

  lemma {:induction false} VShrinks(rest: seq<byte>, shift: nat, value: nat, groups: nat, bits: nat)
    ensures Shrinks(ReadV(rest, shift, value, groups, bits), rest)
    decreases groups
  {
    hide Shl, Low, Or;
    if groups > 0 && |rest| > 0 && rest[0] >= 128 {
      VShrinks(rest[1..], shift + 7, Or(value, Low(Shl(rest[0] % 128, shift), bits)), groups - 1, bits);
    }
  }

  lemma DocsShrink(rest: seq<byte>)
    ensures Shrinks(ReadDocs(rest), rest)
  {
    hide ReadI64, ReadI16, ReadU8;
    forall x: seq<byte> ensures Shrinks(ReadI64(x), x) && Shrinks(ReadI16(x), x) && Shrinks(ReadU8(x), x) {
      PrimitivesShrink(x);
    }
  }

  lemma {:induction false} LongsShrink(rest: seq<byte>, n: nat)
    ensures Shrinks(ReadLongs(rest, n), rest)
    decreases n
  {
    hide ReadI64;
    if n > 0 {
      PrimitivesShrink(rest);
      if ReadI64(rest).Ok? {
        LongsShrink(ReadI64(rest).value.1, n - 1);
      }
    }
  }

  lemma TableShrinks(rest: seq<byte>)
    ensures Shrinks(ReadTable(rest), rest)
  {
    hide ReadI32, ReadLongs;
    PrimitivesShrink(rest);
    if ReadI32(rest).Ok? && ReadI32(rest).value.0 > 0 {
      LongsShrink(ReadI32(rest).value.1, ReadI32(rest).value.0);
    }
  }

  lemma PackingShrinks(rest: seq<byte>)
    ensures Shrinks(ReadPacking(rest), rest)
  {
    hide ReadI64, ReadU8;
    forall x: seq<byte> ensures Shrinks(ReadI64(x), x) && Shrinks(ReadU8(x), x) {
      PrimitivesShrink(x);
    }
  }

  lemma EntryShrinks(rest: seq<byte>)
    ensures Shrinks(ReadEntry(rest), rest)
  {
    hide ReadDocs, ReadI64, ReadTable, ReadPacking;
    forall x: seq<byte>
      ensures Shrinks(ReadDocs(x), x) && Shrinks(ReadI64(x), x) && Shrinks(ReadTable(x), x) && Shrinks(ReadPacking(x), x)
    {
      DocsShrink(x);
      PrimitivesShrink(x);
      TableShrinks(x);
      PackingShrinks(x);
    }
  }

  lemma BlockMetaShrinks(rest: seq<byte>)
    ensures Shrinks(ReadBlockMeta(rest), rest)
  {
    hide ReadI64, ReadU32, ReadU8;
    forall x: seq<byte> ensures Shrinks(ReadI64(x), x) && Shrinks(ReadU32(x), x) && Shrinks(ReadU8(x), x) {
      PrimitivesShrink(x);
    }
  }

  lemma {:induction false} MetaShrinks(rest: seq<byte>, n: nat)
    ensures Shrinks(ReadMeta(rest, n), rest)
    decreases n
  {
    hide ReadBlockMeta;
    if n > 0 {
      BlockMetaShrinks(rest);
      if ReadBlockMeta(rest).Ok? {
        MetaShrinks(ReadBlockMeta(rest).value.1, n - 1);
      }
    }
  }

  lemma AddressesShrink(rest: seq<byte>, count: nat)
    ensures Shrinks(ReadAddresses(rest, count), rest)
  {
    hide ReadI64, ReadV, ReadMeta, BlockCount, SizeOf;
    forall x: seq<byte> ensures Shrinks(ReadI64(x), x) && Shrinks(ReadV(x, 0, 0, 5, 32), x) {
      PrimitivesShrink(x);
      VShrinks(x, 0, 0, 5, 32);
    }
    forall x: seq<byte>, n: nat ensures Shrinks(ReadMeta(x, n), x) {
      MetaShrinks(x, n);
    }
  }

  lemma TermsDictShrinks(rest: seq<byte>)
    ensures Shrinks(ReadTermsDict(rest), rest)
  {
    hide TermsDict.ReadHead, ReadMeta, ReadRegions, SkipIndex, BlockCount, SizeOf;
    forall x: seq<byte> ensures Shrinks(TermsDict.ReadHead(x), x) && Shrinks(ReadRegions(x), x) {
      TermsPartsShrink(x, 0);
    }
    forall x: seq<byte>, n: nat ensures Shrinks(ReadMeta(x, n), x) {
      MetaShrinks(x, n);
    }
    forall x: seq<byte>, n: nat ensures Shrinks(SkipIndex(x, n), x) {
      TermsPartsShrink(x, n);
    }
  }

  lemma TermsPartsShrink(rest: seq<byte>, n: nat)
    ensures Shrinks(TermsDict.ReadHead(rest), rest) && Shrinks(ReadRegions(rest), rest) && Shrinks(SkipIndex(rest, n), rest)
  {
    hide ReadI64, ReadI32, ReadV, BlockCount, SizeOf, BlockSize;
    VShrinks(rest, 0, 0, 10, 64);
    forall x: seq<byte> ensures Shrinks(ReadI64(x), x) && Shrinks(ReadI32(x), x) {
      PrimitivesShrink(x);
    }
  }

  lemma BinaryShrinks(rest: seq<byte>, maxDoc: nat)
    ensures Shrinks(BinaryValues.Read(rest, maxDoc), rest)
  {
    hide ReadI64, ReadI32, ReadDocs, ReadAddresses, CoverageOf;
    forall x: seq<byte> ensures Shrinks(ReadI64(x), x) && Shrinks(ReadI32(x), x) && Shrinks(ReadDocs(x), x) {
      PrimitivesShrink(x);
      DocsShrink(x);
    }
    forall x: seq<byte>, n: nat ensures Shrinks(ReadAddresses(x, n), x) {
      AddressesShrink(x, n);
    }
  }

  lemma OtherBodiesShrink(rest: seq<byte>, dvd: seq<byte>, maxDoc: nat)
    ensures Shrinks(SortedNumeric.Read(rest, dvd, maxDoc), rest) && Shrinks(ReadSorted(rest, dvd, maxDoc), rest)
    ensures Shrinks(ReadSet(rest, dvd, maxDoc), rest)
  {
    hide ReadEntry, ReadI32, ReadU8, ReadAddresses, ReadTermsDict, IntoPlan, SortedNumeric.FixCoverage;
    forall x: seq<byte>
      ensures Shrinks(ReadEntry(x), x) && Shrinks(ReadI32(x), x) && Shrinks(ReadU8(x), x) && Shrinks(ReadTermsDict(x), x)
    {
      EntryShrinks(x);
      PrimitivesShrink(x);
      TermsDictShrinks(x);
    }
    forall x: seq<byte>, n: nat ensures Shrinks(ReadAddresses(x, n), x) {
      AddressesShrink(x, n);
    }
  }

  lemma FieldShrinks(field: DvField, rest: seq<byte>, dvd: seq<byte>, maxDoc: nat)
    ensures Shrinks(ReadField(field, rest, dvd, maxDoc), rest)
  {
    hide ReadEntry, IntoPlan, BinaryValues.Read, ReadSorted, ReadSet, SortedNumeric.Read, ReadU8;
    forall x: seq<byte>
      ensures Shrinks(ReadU8(x), x) && Shrinks(ReadEntry(x), x) && Shrinks(BinaryValues.Read(x, maxDoc), x)
      ensures Shrinks(ReadSorted(x, dvd, maxDoc), x) && Shrinks(ReadSet(x, dvd, maxDoc), x) && Shrinks(SortedNumeric.Read(x, dvd, maxDoc), x)
    {
      PrimitivesShrink(x);
      EntryShrinks(x);
      BinaryShrinks(x, maxDoc);
      OtherBodiesShrink(x, dvd, maxDoc);
    }
  }

  // ----- the loop --------------------------------------------------------------------------------

  lemma PlanNext(plans: seq<(i32, FieldPlan)>, rest: seq<byte>, dvd: seq<byte>, known: map<i32, DvField>, maxDoc: nat, limit: nat)
    ensures var goal := After(plans, PlanEntries(rest, dvd, known, maxDoc, limit));
            match ReadI32(rest)
            case Err(e) => goal == Err(e)
            case Ok(n) =>
              if n.0 == -1 then goal == Ok((plans, n.1))
              else if n.0 !in known || limit == 0 then goal == Err(Corrupt)
              else match ReadField(known[n.0], n.1, dvd, maxDoc)
                   case Err(e) => goal == Err(e)
                   case Ok(p) => goal == After(plans + [(n.0, p.0)], PlanEntries(p.1, dvd, known, maxDoc, limit - 1))
  {
    hide ReadI32, ReadField;
    assert plans + [] == plans;
    if ReadI32(rest).Ok? {
      var n := ReadI32(rest).value;
      if n.0 != -1 && n.0 in known && limit > 0 && ReadField(known[n.0], n.1, dvd, maxDoc).Ok? {
        var p := ReadField(known[n.0], n.1, dvd, maxDoc).value;
        if PlanEntries(p.1, dvd, known, maxDoc, limit - 1).Ok? {
          Assoc(plans, [(n.0, p.0)], PlanEntries(p.1, dvd, known, maxDoc, limit - 1).value.0);
        }
      }
    }
  }

  // A field number is four bytes.
  lemma NumberShrinks(rest: seq<byte>)
    ensures ReadI32(rest).Ok? ==> |ReadI32(rest).value.1| + 4 == |rest|
  {
    hide LeNum;
  }

  method PlanDocValues(dvm: seq<byte>, at: nat, dvd: seq<byte>, known: map<i32, DvField>, maxDoc: nat)
    returns (r: Result<seq<(i32, FieldPlan)>>)
    requires at <= |dvm|
    ensures var spec := PlanEntries(dvm[at..], dvd, known, maxDoc, |dvm| - at);
            match r case Ok(plans) => spec.Ok? && spec.value.0 == plans case Err(e) => spec == Err(e)
  {
    hide ReadI32, ReadField, PlanEntries, After;
    var c := new Cursor(dvm, at);
    ghost var goal, limit: nat := PlanEntries(dvm[at..], dvd, known, maxDoc, |dvm| - at), |dvm| - at;
    var plans: seq<(i32, FieldPlan)> := [];
    NothingRead(goal);
    while true
      invariant After(plans, PlanEntries(c.Rest(), dvd, known, maxDoc, limit)) == goal && |c.Rest()| <= limit
      invariant fresh(c)
      decreases limit
    {
      PlanNext(plans, c.Rest(), dvd, known, maxDoc, limit);
      NumberShrinks(c.Rest());
      var number :- c.I32();
      if number == -1 {
        break;
      }
      if number !in known {
        return Err(Corrupt);
      }
      FieldShrinks(known[number], c.Rest(), dvd, maxDoc);
      var plan :- ReadFieldEntry(c, known[number], dvd, maxDoc);
      plans := plans + [(number, plan)];
      limit := limit - 1;
    }
    return Ok(plans);
  }
}
