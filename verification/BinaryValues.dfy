// BINARY columns: the docs' payloads end to end, with addresses only when their
// lengths differ.
module BinaryValues {
  import opened Bits
  import opened Wire
  import opened StatsPass
  import opened Bitmap
  import opened Numeric
  import opened NumericWrite
  import opened Monotonic
  import opened Columns
  import Disi

  type Blob = seq<byte>

  // i32::MAX, the starting minimum.
  const MAX_I32: nat := 0x7FFF_FFFF

  function MinLength(blobs: seq<Blob>): nat {
    if blobs == [] then MAX_I32
    else if |blobs[|blobs| - 1]| < MinLength(blobs[..|blobs| - 1]) then |blobs[|blobs| - 1]|
    else MinLength(blobs[..|blobs| - 1])
  }

  function MaxLength(blobs: seq<Blob>): nat {
    if blobs == [] then 0
    else if |blobs[|blobs| - 1]| > MaxLength(blobs[..|blobs| - 1]) then |blobs[|blobs| - 1]|
    else MaxLength(blobs[..|blobs| - 1])
  }

  // An empty column has minimum 0.
  function LeastLength(blobs: seq<Blob>): nat { if blobs == [] then 0 else MinLength(blobs) }

  predicate Varies(blobs: seq<Blob>) { MaxLength(blobs) > LeastLength(blobs) }

  // ----- what is written -----------------------------------------------------------------

  function AfterBlobs(blobs: seq<Blob>, at: nat): nat { at + |Flatten(blobs)| }

  function AfterDocs(docs: seq<nat>, blobs: seq<Blob>, maxDoc: nat, at: nat): nat {
    AfterBlobs(blobs, at) + |DocsData(docs, |docs|, maxDoc)|
  }

  function CountsBytes(docs: seq<nat>, blobs: seq<Blob>): seq<byte> {
    LeI32(AsI32(|docs|)) + (LeI32(AsI32(LeastLength(blobs))) + LeI32(AsI32(MaxLength(blobs))))
  }

  function Body(docs: seq<nat>, blobs: seq<Blob>, maxDoc: nat, p: Predictor, at: nat): seq<byte> {
    (LeI64(Wrap(at)) + LeI64(Wrap(|Flatten(blobs)|))) +
    (DocsBytes(DocsOf(docs, |docs|, maxDoc, AfterBlobs(blobs, at))) +
     (CountsBytes(docs, blobs) +
      (if Varies(blobs) then AddressMeta(Ends(blobs, 0), p, AfterDocs(docs, blobs, maxDoc, at)) else [])))
  }

  function AddressPart(blobs: seq<Blob>, p: Predictor): seq<byte> {
    if Varies(blobs) then AddressData(Ends(blobs, 0), p) else []
  }

  function Data(docs: seq<nat>, blobs: seq<Blob>, maxDoc: nat, p: Predictor): seq<byte> {
    Flatten(blobs) + (DocsData(docs, |docs|, maxDoc) + AddressPart(blobs, p))
  }

  // ----- what is planned and decoded -------------------------------------------------------

  datatype BinaryPlan = BinaryPlan(dataOffset: nat, dataLen: nat, coverage: Coverage, docCount: nat, minLength: nat,
                                   maxLength: nat, addresses: Option<AddressesPlan>)

  datatype Head = Head(offset: i64, len: i64, docs: DocsField, docCount: i32, minLength: i32, maxLength: i32)

  function ReadHead(rest: seq<byte>): Parsed<Head> {
    var (offset, rest1) :- ReadI64(rest);
    var (len, rest2) :- ReadI64(rest1);
    var (docs, rest3) :- ReadDocs(rest2);
    var (docCount, rest4) :- ReadI32(rest3);
    var (minLength, rest5) :- ReadI32(rest4);
    var (maxLength, rest6) :- ReadI32(rest5);
    if offset < 0 || len < 0 || docCount < 0 || minLength < 0 || maxLength < minLength then Err(Corrupt)
    else Ok((Head(offset, len, docs, docCount, minLength, maxLength), rest6))
  }

  function ReadBlobAddresses(varies: bool, rest: seq<byte>, count: nat): Parsed<Option<AddressesPlan>> {
    if !varies then Ok((None, rest))
    else
      var (a, rest1) :- ReadAddresses(rest, count);
      Ok((Some(a), rest1))
  }

  function Read(rest: seq<byte>, maxDoc: nat): Parsed<BinaryPlan> {
    var (h, rest1) :- ReadHead(rest);
    if h.docCount < 0 || h.offset < 0 || h.len < 0 || h.minLength < 0 || h.maxLength < 0 then Err(Corrupt)
    else
      var (a, rest2) :- ReadBlobAddresses(h.maxLength > h.minLength, rest1, h.docCount + 1);
      var coverage :- CoverageOf(h.docs, h.docCount, maxDoc);
      Ok((BinaryPlan(h.offset, h.len, coverage, h.docCount, h.minLength, h.maxLength, a), rest2))
  }

  function FixedEnds(n: nat, length: nat): (s: seq<i64>)
    ensures |s| == n + 1
  {
    if n == 0 then [0] else FixedEnds(n - 1, length) + [Wrap(Span(length, n))]
  }

  function Decode(plan: BinaryPlan, dvd: seq<byte>, p: Predictor): Result<ListColumn<byte>> {
    var region :- PayloadAt(dvd, plan.dataOffset, plan.dataLen);
    var bitmap :- CoverageBitmap(plan.coverage, dvd);
    var ends :- match plan.addresses
                case None => Ok(FixedEnds(plan.docCount, plan.minLength))
                case Some(a) => DecodeAddresses(a, dvd, p);
    if |ends| != plan.docCount + 1 then Err(Corrupt)
    else if bitmap.None? && plan.docCount != plan.coverage.numDocs then Err(Corrupt)
    else
      var offsets :- DocOffsets(plan.coverage.numDocs, bitmap, ends, Err(Panic));
      Ok(ListColumn(offsets, region, bitmap))
  }

  // ----- the round trip ---------------------------------------------------------------------

  lemma {:induction false} LengthBounds(blobs: seq<Blob>)
    ensures forall i :: 0 <= i < |blobs| ==> MinLength(blobs) <= |blobs[i]| <= MaxLength(blobs)
    ensures MinLength(blobs) <= MAX_I32
    ensures blobs != [] ==> MinLength(blobs) <= MaxLength(blobs)
  {
    if blobs != [] {
      LengthBounds(blobs[..|blobs| - 1]);
      assert forall i :: 0 <= i < |blobs| - 1 ==> blobs[i] == blobs[..|blobs| - 1][i];
    }
  }

  lemma {:induction false} MaxLengthFits(blobs: seq<Blob>)
    requires FitsI32(blobs)
    ensures MaxLength(blobs) < TWO_31
  {
    if blobs != [] {
      var init := blobs[..|blobs| - 1];
      FlattenSnoc(blobs, |blobs| - 1);
      assert blobs[..|blobs|] == blobs;
      MaxLengthFits(init);
    }
  }

  // Blobs of one length end at its multiples.
  lemma {:induction false} FixedEndsAre(blobs: seq<Blob>, length: nat, n: nat)
    requires n <= |blobs| && forall i :: 0 <= i < |blobs| ==> |blobs[i]| == length
    requires |Flatten(blobs)| < TWO_63
    ensures |Flatten(blobs[..n])| == Span(length, n) <= |Flatten(blobs)|
    ensures FixedEnds(n, length) == Ends(blobs, 0)[..n + 1]
  {
    hide Flatten, Ends, Wrap;
    EndsAre(blobs, 0, n);
    if n > 0 {
      FixedEndsAre(blobs, length, n - 1);
      FlattenSnoc(blobs, n - 1);
      WrapIsIdentity(Span(length, n));
      assert Ends(blobs, 0)[..n + 1] == Ends(blobs, 0)[..n] + [Ends(blobs, 0)[n]];
    } else {
      FlattenNone(blobs);
    }
  }

  lemma FlattenNone(blobs: seq<Blob>)
    ensures |Flatten(blobs[..0])| == 0
  {
  }

  lemma EndsOf(blobs: seq<Blob>)
    requires FitsI32(blobs) && !Varies(blobs)
    ensures FixedEnds(|blobs|, LeastLength(blobs)) == Ends(blobs, 0)
  {
    hide Ends, Flatten;
    LengthBounds(blobs);
    FixedEndsAre(blobs, LeastLength(blobs), |blobs|);
  }

  ghost predicate Valid(docs: seq<nat>, blobs: seq<Blob>, maxDoc: nat) {
    Ascending(docs) && AllBelow(docs, maxDoc) && maxDoc < TWO_31 && |docs| == |blobs| && FitsI32(blobs)
  }

  lemma Numbers(docs: seq<nat>, blobs: seq<Blob>, maxDoc: nat)
    requires Valid(docs, blobs, maxDoc)
    ensures |docs| < TWO_31 && AsI32(|docs|) == |docs|
    ensures AsI32(LeastLength(blobs)) == LeastLength(blobs) && AsI32(MaxLength(blobs)) == MaxLength(blobs)
    ensures LeastLength(blobs) <= MaxLength(blobs)
  {
    AtMostMaxDoc(docs, maxDoc);
    LengthBounds(blobs);
    MaxLengthFits(blobs);
  }

  lemma HeadRead(docs: seq<nat>, blobs: seq<Blob>, maxDoc: nat, at: nat, rest: seq<byte>)
    requires Valid(docs, blobs, maxDoc) && at + |Flatten(blobs)| < TWO_63
    ensures var d := DocsOf(docs, |docs|, maxDoc, AfterBlobs(blobs, at));
            var input := (LeI64(Wrap(at)) + LeI64(Wrap(|Flatten(blobs)|))) + (DocsBytes(d) + (CountsBytes(docs, blobs) + rest));
            match ReadHead(input)
            case Err(_) => false
            case Ok(p) =>
              && p.1 == rest && p.0.offset == at && p.0.len == |Flatten(blobs)| && p.0.docs == d
              && p.0.docCount == |docs| && p.0.minLength == LeastLength(blobs) && p.0.maxLength == MaxLength(blobs)
  {
    hide LeI64, ReadI64, LeI32, ReadI32, DocsBytes, ReadDocs, DocsOf, Flatten, LeastLength, MaxLength, AsI32, Valid, DocsData;
    Numbers(docs, blobs, maxDoc);
    WrapIsIdentity(at);
    WrapIsIdentity(|Flatten(blobs)|);
    var d := DocsOf(docs, |docs|, maxDoc, AfterBlobs(blobs, at));
    var counts := CountsBytes(docs, blobs);
    var body := DocsBytes(d) + (counts + rest);
    Assoc(LeI64(at), LeI64(|Flatten(blobs)|), body);
    I64RoundTrip(at, LeI64(|Flatten(blobs)|) + body);
    I64RoundTrip(|Flatten(blobs)|, body);
    DocsRoundTrip(d, counts + rest);
    var least, most := LeI32(LeastLength(blobs)), LeI32(MaxLength(blobs));
    Assoc(LeI32(|docs|), least + most, rest);
    I32RoundTrip(|docs|, (least + most) + rest);
    Assoc(least, most, rest);
    I32RoundTrip(LeastLength(blobs), most + rest);
    I32RoundTrip(MaxLength(blobs), rest);
  }

  // The plan a BINARY entry reads as.
  ghost predicate IsPlan(plan: BinaryPlan, docs: seq<nat>, blobs: seq<Blob>, maxDoc: nat, p: Predictor, at: nat) {
    match plan
    case BinaryPlan(offset, len, coverage, docCount, minLength, maxLength, addresses) =>
      && offset == at && len == |Flatten(blobs)| && docCount == |docs|
      && minLength == LeastLength(blobs) && maxLength == MaxLength(blobs)
      && CoverageOf(DocsOf(docs, |docs|, maxDoc, AfterBlobs(blobs, at)), |docs|, maxDoc) == Ok(coverage)
      && addresses == if Varies(blobs) then Some(AddressPlan(Ends(blobs, 0), p, AfterDocs(docs, blobs, maxDoc, at))) else None
  }

  lemma Placed(docs: seq<nat>, blobs: seq<Blob>, maxDoc: nat, p: Predictor, at: nat, dvd: seq<byte>)
    requires PlacedAt(dvd, at, Data(docs, blobs, maxDoc, p))
    ensures PlacedAt(dvd, at, Flatten(blobs))
    ensures PlacedAt(dvd, AfterBlobs(blobs, at), DocsData(docs, |docs|, maxDoc))
    ensures PlacedAt(dvd, AfterDocs(docs, blobs, maxDoc, at), AddressPart(blobs, p))
  {
    hide Flatten, DocsData, AddressPart;
    PlacedPart(dvd, at, Flatten(blobs), DocsData(docs, |docs|, maxDoc) + AddressPart(blobs, p));
    PlacedPart(dvd, AfterBlobs(blobs, at), DocsData(docs, |docs|, maxDoc), AddressPart(blobs, p));
  }

  lemma BodyShape(docs: seq<nat>, blobs: seq<Blob>, maxDoc: nat, p: Predictor, at: nat, rest: seq<byte>)
    ensures var a := if Varies(blobs) then AddressMeta(Ends(blobs, 0), p, AfterDocs(docs, blobs, maxDoc, at)) else [];
            Body(docs, blobs, maxDoc, p, at) + rest ==
            (LeI64(Wrap(at)) + LeI64(Wrap(|Flatten(blobs)|))) +
            (DocsBytes(DocsOf(docs, |docs|, maxDoc, AfterBlobs(blobs, at))) + (CountsBytes(docs, blobs) + (a + rest)))
  {
    hide LeI64, DocsBytes, DocsOf, CountsBytes, AddressMeta, Flatten, Varies, Ends, Wrap, AfterBlobs, AfterDocs;
    var a := if Varies(blobs) then AddressMeta(Ends(blobs, 0), p, AfterDocs(docs, blobs, maxDoc, at)) else [];
    var h := LeI64(Wrap(at)) + LeI64(Wrap(|Flatten(blobs)|));
    var d := DocsBytes(DocsOf(docs, |docs|, maxDoc, AfterBlobs(blobs, at)));
    var n := CountsBytes(docs, blobs);
    Assoc(h, d + (n + a), rest);
    Assoc(d, n + a, rest);
    Assoc(n, a, rest);
  }

  lemma AddressRead(docs: seq<nat>, blobs: seq<Blob>, maxDoc: nat, p: Predictor, at: nat, dvd: seq<byte>, rest: seq<byte>)
    requires |docs| == |blobs| && PlacedAt(dvd, AfterDocs(docs, blobs, maxDoc, at), AddressPart(blobs, p))
    ensures var at' := AfterDocs(docs, blobs, maxDoc, at);
            var a := if Varies(blobs) then AddressMeta(Ends(blobs, 0), p, at') else [];
            && Yields(ReadBlobAddresses(Varies(blobs), a + rest, |docs| + 1),
                      if Varies(blobs) then Some(AddressPlan(Ends(blobs, 0), p, at')) else None, rest)
            && (Varies(blobs) ==> Gives(DecodeAddresses(AddressPlan(Ends(blobs, 0), p, at'), dvd, p), Ends(blobs, 0)))
  {
    hide AddressMeta, AddressPlan, AddressData, ReadAddresses, DecodeAddresses, Varies, Ends, AfterDocs;
    if Varies(blobs) {
      AddressesRoundTrip(Ends(blobs, 0), p, AfterDocs(docs, blobs, maxDoc, at), dvd, rest);
    } else {
      assert [] + rest == rest;
    }
  }

  lemma Planned(docs: seq<nat>, blobs: seq<Blob>, maxDoc: nat, p: Predictor, at: nat, dvd: seq<byte>, rest: seq<byte>)
    returns (plan: BinaryPlan)
    requires Valid(docs, blobs, maxDoc) && PlacedAt(dvd, at, Data(docs, blobs, maxDoc, p))
    ensures Yields(Read(Body(docs, blobs, maxDoc, p, at) + rest, maxDoc), plan, rest)
    ensures IsPlan(plan, docs, blobs, maxDoc, p, at)
  {
    hide Body, LeI64, LeI32, DocsBytes, CountsBytes, AddressMeta, ReadHead, ReadBlobAddresses, DocsOf, Flatten, LeastLength, MaxLength,
         Ends, AddressPlan, DocsData, AfterBlobs, AfterDocs, Data, AddressPart, DecodeAddresses, Wrap, CoverageBitmap, Covers;
    var a := if Varies(blobs) then AddressMeta(Ends(blobs, 0), p, AfterDocs(docs, blobs, maxDoc, at)) else [];
    Placed(docs, blobs, maxDoc, p, at, dvd);
    BodyShape(docs, blobs, maxDoc, p, at, rest);
    HeadRead(docs, blobs, maxDoc, at, a + rest);
    AddressRead(docs, blobs, maxDoc, p, at, dvd, rest);
    CoverageRoundTrip(docs, |docs|, maxDoc, AfterBlobs(blobs, at), dvd);
    plan := Read(Body(docs, blobs, maxDoc, p, at) + rest, maxDoc).value.0;
  }

  ghost predicate ReadsBlobs(r: Parsed<BinaryPlan>, docs: seq<nat>, blobs: seq<Blob>, maxDoc: nat, dvd: seq<byte>, p: Predictor,
                             rest: seq<byte>)
  {
    match r
    case Ok(x) => x.1 == rest && IsListColumn(Decode(x.0, dvd, p), docs, blobs, maxDoc)
    case Err(_) => false
  }

  lemma BinaryRoundTrip(docs: seq<nat>, blobs: seq<Blob>, maxDoc: nat, p: Predictor, at: nat, dvd: seq<byte>, rest: seq<byte>)
    requires Valid(docs, blobs, maxDoc) && PlacedAt(dvd, at, Data(docs, blobs, maxDoc, p))
    ensures ReadsBlobs(Read(Body(docs, blobs, maxDoc, p, at) + rest, maxDoc), docs, blobs, maxDoc, dvd, p, rest)
  {
    hide Body, Read, DocsOf, Flatten, LeastLength, MaxLength, Ends, AddressPlan, DocsData, Data, AddressPart, AfterBlobs, AfterDocs,
         DecodeAddresses, Wrap, CoverageBitmap, DocOffsets, CoverageOf, FixedEnds, IsListColumn, Ascending, AllBelow, Varies, AddressMeta,
         ReadBlobAddresses;
    var plan := Planned(docs, blobs, maxDoc, p, at, dvd, rest);
    Placed(docs, blobs, maxDoc, p, at, dvd);
    CoverageRoundTrip(docs, |docs|, maxDoc, AfterBlobs(blobs, at), dvd);
    AddressRead(docs, blobs, maxDoc, p, at, dvd, []);
    if !Varies(blobs) {
      EndsOf(blobs);
    }
    ListColumnRoundTrip(docs, blobs, maxDoc, CoverageBitmap(plan.coverage, dvd).value, Err(Panic));
    AllDocsCount(docs, maxDoc);
  }

  lemma AllDocsCount(docs: seq<nat>, maxDoc: nat)
    ensures docs == Disi.Range(0, maxDoc) ==> |docs| == maxDoc
  {
  }
}
