// SORTED_NUMERIC columns: each doc's values sorted, all docs' values in one
// numeric payload, and -- only when some doc has more than one -- the addresses
// that cut the payload into docs.
module SortedNumeric {
  import opened Bits
  import opened Wire
  import opened StatsPass
  import opened Bitmap
  import opened Numeric
  import opened NumericWrite
  import opened Monotonic
  import opened Columns

  // ----- sorting ----------------------------------------------------------------------

  function InsertLong(x: i64, s: seq<i64>): (r: seq<i64>)
    ensures |r| == |s| + 1
  {
    if s == [] || x <= s[0] then [x] + s else [s[0]] + InsertLong(x, s[1..])
  }

  function SortLongs(v: seq<i64>): (r: seq<i64>)
    ensures |r| == |v|
  {
    if v == [] then [] else InsertLong(v[0], SortLongs(v[1..]))
  }

  ghost predicate Ordered(s: seq<i64>) {
    s == [] || (AtLeast(s[1..], s[0]) && Ordered(s[1..]))
  }

  ghost predicate AtLeast(s: seq<i64>, low: i64) {
    forall i :: 0 <= i < |s| ==> low <= s[i]
  }

  lemma {:induction false} InsertAtLeast(x: i64, s: seq<i64>, low: i64)
    requires AtLeast(s, low) && low <= x
    ensures AtLeast(InsertLong(x, s), low)
  {
    if s != [] && x > s[0] {
      InsertAtLeast(x, s[1..], low);
    }
  }

  lemma {:induction false} InsertOrdered(x: i64, s: seq<i64>)
    requires Ordered(s)
    ensures Ordered(InsertLong(x, s))
  {
    if s == [] {
    } else if x <= s[0] {
      assert ([x] + s)[1..] == s;
    } else {
      InsertOrdered(x, s[1..]);
      InsertAtLeast(x, s[1..], s[0]);
      assert ([s[0]] + InsertLong(x, s[1..]))[1..] == InsertLong(x, s[1..]);
    }
  }

  lemma {:induction false} InsertKeeps(x: i64, s: seq<i64>)
    ensures multiset(InsertLong(x, s)) == multiset(s) + multiset{x}
  {
    if s != [] && x > s[0] {
      InsertKeeps(x, s[1..]);
      assert s == [s[0]] + s[1..];
    }
  }

  // The values of a doc, in order, none lost and none added.
  lemma {:induction false} SortLongsIs(v: seq<i64>)
    ensures Ordered(SortLongs(v)) && multiset(SortLongs(v)) == multiset(v)
  {
    if v != [] {
      SortLongsIs(v[1..]);
      InsertOrdered(v[0], SortLongs(v[1..]));
      InsertKeeps(v[0], SortLongs(v[1..]));
      assert v == [v[0]] + v[1..];
    }
  }

  function SortEach(lists: seq<seq<i64>>): (s: seq<seq<i64>>)
    ensures |s| == |lists|
  {
    seq<seq<i64>>(|lists|, i requires 0 <= i < |lists| => SortLongs(lists[i]))
  }

  // ----- what is written -----------------------------------------------------------------

  function AllValues(lists: seq<seq<i64>>): seq<i64> { Flatten(SortEach(lists)) }

  // Addresses are written only when some doc has more than one value.
  predicate HasMany(docs: seq<nat>, lists: seq<seq<i64>>) { |AllValues(lists)| > |docs| }

  ghost function AfterEntry(values: seq<i64>, docs: seq<nat>, maxDoc: nat, at: nat): nat {
    at + |EntryData(values, docs, maxDoc)|
  }

  ghost function Body(docs: seq<nat>, lists: seq<seq<i64>>, maxDoc: nat, p: Predictor, at: nat): seq<byte>
    requires |docs| < TWO_31
  {
    var all := AllValues(lists);
    EntryBytes(EntryOf(all, docs, maxDoc, at)) +
    (LeI32(|docs|) +
     (if HasMany(docs, lists) then AddressMeta(Ends(SortEach(lists), 0), p, AfterEntry(all, docs, maxDoc, at)) else []))
  }

  ghost function Data(docs: seq<nat>, lists: seq<seq<i64>>, maxDoc: nat, p: Predictor): seq<byte> {
    EntryData(AllValues(lists), docs, maxDoc) +
    (if HasMany(docs, lists) then AddressData(Ends(SortEach(lists), 0), p) else [])
  }

  // ----- what is planned and decoded --------------------------------------------------------

  datatype NumericPlan = Single(plan: DecodePlan) | Many(values: DecodePlan, addresses: AddressesPlan)

  // The bitmap of a multi-valued column counts docs, not values.
  function FixCoverage(plan: DecodePlan, docCount: nat): DecodePlan {
    match plan.coverage
    case Sparse(n, disi) => plan.(coverage := Sparse(n, disi.(numValues := docCount)))
    case _ => plan
  }

  function Read(rest: seq<byte>, dvd: seq<byte>, maxDoc: nat): Parsed<NumericPlan> {
    var (e, rest1) :- ReadEntry(rest);
    var (docCount, rest2) :- ReadI32(rest1);
    if e.numValues > docCount then
      var (addresses, rest3) :- ReadAddresses(rest2, CountAfter(docCount));
      var plan :- IntoPlan(e, dvd, maxDoc);
      Ok((Many(FixCoverage(plan, AsU64(docCount)), addresses), rest3))
    else
      var plan :- IntoPlan(e, dvd, maxDoc);
      Ok((Single(plan), rest2))
  }

  function DecodeMany(values: DecodePlan, addresses: AddressesPlan, dvd: seq<byte>, p: Predictor): Result<ListColumn<i64>> {
    var items :- DecodeValues(values, dvd);
    var ends :- DecodeAddresses(addresses, dvd, p);
    var bitmap :- CoverageBitmap(values.coverage, dvd);
    var offsets :- DocOffsets(values.coverage.numDocs, bitmap, ends, Ok(0));
    Ok(ListColumn(offsets, items, bitmap))
  }

  // ----- the round trip -----------------------------------------------------------------------

  // The numeric part shared by every multi-valued shape: its values come back,
  // and the patched coverage names exactly the docs.
  lemma EntryPart(values: seq<i64>, docs: seq<nat>, maxDoc: nat, at: nat, dvd: seq<byte>)
    requires Ascending(docs) && AllBelow(docs, maxDoc) && maxDoc <= TWO_31 && |values| < TWO_63
    requires docs == [] ==> values == []
    requires PlacedAt(dvd, at, EntryData(values, docs, maxDoc))
    ensures match IntoPlan(EntryOf(values, docs, maxDoc, at), dvd, maxDoc)
            case Err(_) => false
            case Ok(plan) =>
              var fixed := FixCoverage(plan, |docs|);
              && Gives(DecodeValues(plan, dvd), values) && Gives(DecodeValues(fixed, dvd), values)
              && fixed.coverage.numDocs == maxDoc && Covers(CoverageBitmap(fixed.coverage, dvd), docs, maxDoc)
  {
    hide DecodeValues, DocsData, ValuesData, CoverageBitmap, ChoiceOf, Ascending, AllBelow, Covers, IntoPlan, DocsOf;
    var e := EntryOf(values, docs, maxDoc, at);
    EntryValues(values, docs, maxDoc, at, dvd, e);
    PlacedPart(dvd, at, DocsData(docs, |values|, maxDoc), ValuesData(values));
    CoverageRoundTrip(docs, |values|, maxDoc, at, dvd);
    var plan := IntoPlan(e, dvd, maxDoc).value;
    SameValues(plan, |docs|, dvd);
    FixedCoverage(e.docs, |values|, |docs|, maxDoc, plan);
  }

  lemma SameValues(plan: DecodePlan, n: nat, dvd: seq<byte>)
    ensures DecodeValues(FixCoverage(plan, n), dvd) == DecodeValues(plan, dvd)
  {
    hide DecodeBlocks;
  }

  lemma FixedCoverage(d: DocsField, n: nat, n': nat, maxDoc: nat, plan: DecodePlan)
    requires CoverageOf(d, n, maxDoc) == Ok(plan.coverage)
    ensures CoverageOf(d, n', maxDoc) == Ok(FixCoverage(plan, n').coverage)
  {
  }

  ghost predicate Valid(docs: seq<nat>, lists: seq<seq<i64>>, maxDoc: nat) {
    && Ascending(docs) && AllBelow(docs, maxDoc) && maxDoc < TWO_31 && |docs| == |lists|
    && (forall i :: 0 <= i < |lists| ==> lists[i] != [])
    && |AllValues(lists)| < TWO_31
  }

  ghost predicate Decodes(plan: NumericPlan, docs: seq<nat>, lists: seq<seq<i64>>, maxDoc: nat, dvd: seq<byte>, p: Predictor) {
    match plan
    case Many(values, addresses) => IsListColumn(DecodeMany(values, addresses, dvd, p), docs, SortEach(lists), maxDoc)
    case Single(plan) =>
      && (forall i :: 0 <= i < |lists| ==> |lists[i]| == 1)
      && IsColumn(DecodeNumeric(plan, dvd), docs, AllValues(lists), maxDoc)
  }

  lemma {:induction false} OneEach<T>(lists: seq<seq<T>>)
    requires forall i :: 0 <= i < |lists| ==> |lists[i]| >= 1
    ensures |Flatten(lists)| >= |lists|
    ensures |Flatten(lists)| == |lists| ==> forall i :: 0 <= i < |lists| ==> |lists[i]| == 1
  {
    if lists != [] {
      OneEach(lists[1..]);
      assert forall i :: 1 <= i < |lists| ==> lists[i] == lists[1..][i - 1];
    }
  }

  lemma AddressPart(docs: seq<nat>, lists: seq<seq<i64>>, maxDoc: nat, p: Predictor, at: nat, dvd: seq<byte>, rest: seq<byte>)
    requires Valid(docs, lists, maxDoc) && HasMany(docs, lists)
    requires PlacedAt(dvd, at, Data(docs, lists, maxDoc, p))
    ensures var at' := AfterEntry(AllValues(lists), docs, maxDoc, at);
            var ends := Ends(SortEach(lists), 0);
            && Yields(ReadAddresses(AddressMeta(ends, p, at') + rest, |docs| + 1), AddressPlan(ends, p, at'), rest)
            && Gives(DecodeAddresses(AddressPlan(ends, p, at'), dvd, p), ends)
  {
    hide EntryData, AddressData, AddressMeta, AddressPlan, ReadAddresses, DecodeAddresses, AllValues, Flatten;
    var all := AllValues(lists);
    PlacedPart(dvd, at, EntryData(all, docs, maxDoc), AddressData(Ends(SortEach(lists), 0), p));
    AddressesRoundTrip(Ends(SortEach(lists), 0), p, AfterEntry(all, docs, maxDoc, at), dvd, rest);
  }

  lemma EntryPlaced(docs: seq<nat>, lists: seq<seq<i64>>, maxDoc: nat, p: Predictor, at: nat, dvd: seq<byte>)
    requires Valid(docs, lists, maxDoc) && PlacedAt(dvd, at, Data(docs, lists, maxDoc, p))
    ensures PlacedAt(dvd, at, EntryData(AllValues(lists), docs, maxDoc))
    ensures |AllValues(lists)| >= |docs|
    ensures !HasMany(docs, lists) ==> |AllValues(lists)| == |docs| && forall i :: 0 <= i < |lists| ==> |lists[i]| == 1
  {
    hide EntryData, AddressData, Flatten, SortLongs;
    OneEach(SortEach(lists));
    PlacedPart(dvd, at, EntryData(AllValues(lists), docs, maxDoc),
               if HasMany(docs, lists) then AddressData(Ends(SortEach(lists), 0), p) else []);
    if !HasMany(docs, lists) {
      assert forall i :: 0 <= i < |lists| ==> |SortEach(lists)[i]| == |lists[i]|;
    }
  }

  // Each doc's values come back sorted; other docs are null.
  lemma SortedNumericRoundTrip(docs: seq<nat>, lists: seq<seq<i64>>, maxDoc: nat, p: Predictor, at: nat, dvd: seq<byte>,
                               rest: seq<byte>)
    requires Valid(docs, lists, maxDoc) && PlacedAt(dvd, at, Data(docs, lists, maxDoc, p))
    ensures |docs| < TWO_31
    ensures match Read(Body(docs, lists, maxDoc, p, at) + rest, dvd, maxDoc)
            case Ok(r) => r.1 == rest && Decodes(r.0, docs, lists, maxDoc, dvd, p)
            case Err(_) => false
  {
    hide *;
    DocCount(docs, lists, maxDoc);
    EntryPlaced(docs, lists, maxDoc, p, at, dvd);
    if HasMany(docs, lists) {
      ManyRoundTrip(docs, lists, maxDoc, p, at, dvd, rest);
    } else {
      SingleRoundTrip(docs, lists, maxDoc, p, at, dvd, rest);
    }
  }

  lemma DocCount(docs: seq<nat>, lists: seq<seq<i64>>, maxDoc: nat)
    requires Valid(docs, lists, maxDoc)
    ensures |docs| < TWO_31 && |docs| == |lists| && (docs == [] ==> AllValues(lists) == [])
  {
    AtMostMaxDoc(docs, maxDoc);
  }

  lemma BodyRead(docs: seq<nat>, lists: seq<seq<i64>>, maxDoc: nat, p: Predictor, at: nat, rest: seq<byte>)
    requires |docs| < TWO_31 && |AllValues(lists)| < TWO_31
    ensures var all := AllValues(lists);
            var tail := if HasMany(docs, lists) then AddressMeta(Ends(SortEach(lists), 0), p, AfterEntry(all, docs, maxDoc, at)) else [];
            && Yields(ReadEntry(Body(docs, lists, maxDoc, p, at) + rest), EntryOf(all, docs, maxDoc, at),
                      (LeI32(|docs|) + tail) + rest)
            && Yields(ReadI32((LeI32(|docs|) + tail) + rest), |docs|, tail + rest)
            && EntryOf(all, docs, maxDoc, at).numValues == |all|
  {
    hide EntryBytes, ReadEntry, LeI32, ReadI32, AddressMeta, Flatten, ValuesData, DocsData, ChoiceOf, DocsOf, EntryData;
    var all := AllValues(lists);
    var tail := if HasMany(docs, lists) then AddressMeta(Ends(SortEach(lists), 0), p, AfterEntry(all, docs, maxDoc, at)) else [];
    Assoc(EntryBytes(EntryOf(all, docs, maxDoc, at)), LeI32(|docs|) + tail, rest);
    EntryRoundTrip(EntryOf(all, docs, maxDoc, at), (LeI32(|docs|) + tail) + rest);
    Assoc(LeI32(|docs|), tail, rest);
    I32RoundTrip(|docs|, tail + rest);
  }

  lemma ManyRoundTrip(docs: seq<nat>, lists: seq<seq<i64>>, maxDoc: nat, p: Predictor, at: nat, dvd: seq<byte>, rest: seq<byte>)
    requires Valid(docs, lists, maxDoc) && PlacedAt(dvd, at, Data(docs, lists, maxDoc, p)) && HasMany(docs, lists)
    requires |docs| < TWO_31 && PlacedAt(dvd, at, EntryData(AllValues(lists), docs, maxDoc))
    ensures match Read(Body(docs, lists, maxDoc, p, at) + rest, dvd, maxDoc)
            case Ok(r) => r.1 == rest && Decodes(r.0, docs, lists, maxDoc, dvd, p)
            case Err(_) => false
  {
    hide EntryData, Data, Body, ReadEntry, ReadI32, AddressMeta, ReadAddresses, AddressPlan, IntoPlan, DecodeValues, EntryOf,
         CoverageBitmap, Ascending, AllBelow, Ends, Flatten, DecodeAddresses, DocOffsets, SortEach, FixCoverage, LeI32;
    var all, ends := AllValues(lists), Ends(SortEach(lists), 0);
    var at' := AfterEntry(all, docs, maxDoc, at);
    BodyRead(docs, lists, maxDoc, p, at, rest);
    AddressPart(docs, lists, maxDoc, p, at, dvd, rest);
    DocCount(docs, lists, maxDoc);
    EntryPart(all, docs, maxDoc, at, dvd);
    var plan := IntoPlan(EntryOf(all, docs, maxDoc, at), dvd, maxDoc).value;
    var fixed := FixCoverage(plan, |docs|);
    var bitmap := CoverageBitmap(fixed.coverage, dvd).value;
    ListColumnRoundTrip(docs, SortEach(lists), maxDoc, bitmap, Ok(0));
  }

  lemma SingleRoundTrip(docs: seq<nat>, lists: seq<seq<i64>>, maxDoc: nat, p: Predictor, at: nat, dvd: seq<byte>, rest: seq<byte>)
    requires Valid(docs, lists, maxDoc) && !HasMany(docs, lists)
    requires |docs| < TWO_31 && PlacedAt(dvd, at, EntryData(AllValues(lists), docs, maxDoc))
    requires |AllValues(lists)| == |docs| && forall i :: 0 <= i < |lists| ==> |lists[i]| == 1
    ensures match Read(Body(docs, lists, maxDoc, p, at) + rest, dvd, maxDoc)
            case Ok(r) => r.1 == rest && Decodes(r.0, docs, lists, maxDoc, dvd, p)
            case Err(_) => false
  {
    hide EntryData, Body, ReadEntry, ReadI32, IntoPlan, DecodeNumeric, EntryOf, IsColumn, EntryBytes, AllValues, LeI32;
    BodyRead(docs, lists, maxDoc, p, at, rest);
    NumericRoundTrip(AllValues(lists), docs, maxDoc, at, dvd, []);
    assert [] + rest == rest;
  }
}
