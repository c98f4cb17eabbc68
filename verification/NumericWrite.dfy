// What the NUMERIC writer emits, and the round trip through planner and decoder.
module NumericWrite {
  import opened Bits
  import opened Wire
  import opened StatsPass
  import opened Policy
  import opened Bitmap
  import opened Numeric
  import Direct
  import Disi

  // ----- the emitted bytes --------------------------------------------------------------

  // The docs that count as having a value; the dense lane passes no doc list.
  function Present(docs: seq<nat>, numValues: nat, maxDoc: nat): nat {
    if docs == [] && numValues == maxDoc then maxDoc else |docs|
  }

  predicate IsSparse(docs: seq<nat>, numValues: nat, maxDoc: nat) {
    Present(docs, numValues, maxDoc) != 0 && Present(docs, numValues, maxDoc) != maxDoc
  }

  function DocsData(docs: seq<nat>, numValues: nat, maxDoc: nat): seq<byte> {
    if IsSparse(docs, numValues, maxDoc) then Disi.Encoded(docs, Disi.DEFAULT_RANK_POWER) else []
  }

  function DocsOf(docs: seq<nat>, numValues: nat, maxDoc: nat, at: nat): DocsField {
    if Present(docs, numValues, maxDoc) == 0 then NO_DOCS
    else if Present(docs, numValues, maxDoc) == maxDoc then ALL_DOCS
    else DocsField(Wrap(at), Wrap(|DocsData(docs, numValues, maxDoc)|), AsI16(Disi.JumpCount(docs)), 9)
  }

  ghost function ChoiceOf(values: seq<i64>): (c: Choice)
    requires |values| > 0
    ensures c.bpv <= 64 && WritableTable(c.table)
    ensures c.bpv > 0 && c.table.None? ==> c.gcd > 0
  {
    hide IsStats, Direct.UnsignedBitsRequired;
    var s := StatsOf(values);
    ChoiceRange(values);
    Choose(s)
  }

  lemma ChoiceRange(values: seq<i64>)
    requires |values| > 0
    ensures var s := StatsOf(values);
            && (s.min < s.max ==> s.gcd > 0)
            && Choose(s).bpv <= 64 && WritableTable(Choose(s).table)
            && (Choose(s).bpv > 0 && Choose(s).table.None? ==> Choose(s).gcd > 0)
  {
    var s := StatsOf(values);
    if s.min < s.max {
      PositiveGcd(values, s);
      PolicyRecovers(values, s, values[0]);
    }
  }

  function Codes(values: seq<i64>, c: Choice): (x: seq<nat>)
    requires c.table.None? ==> c.gcd > 0
    ensures |x| == |values|
  {
    seq(|values|, i requires 0 <= i < |values| => CodeOf(c, values[i]))
  }

  ghost function ValuesData(values: seq<i64>): seq<byte> {
    if values == [] || ChoiceOf(values).bpv == 0 then []
    else
      var c := ChoiceOf(values);
      ChoiceSupported(values);
      Direct.PackBytes(Codes(values, c), c.bpv)
  }

  lemma ChoiceSupported(values: seq<i64>)
    requires |values| > 0 && ChoiceOf(values).bpv > 0
    ensures StatsOf(values).min < StatsOf(values).max
    ensures Direct.Supported(ChoiceOf(values).bpv)
  {
    hide IsStats, Direct.UnsignedBitsRequired, Direct.Supported;
    PolicyRecovers(values, StatsOf(values), values[0]);
  }

  ghost function EntryOf(values: seq<i64>, docs: seq<nat>, maxDoc: nat, at: nat): (e: NumericEntry)
    ensures WritableTable(e.table)
  {
    var offset := at + |DocsData(docs, |values|, maxDoc)|;
    var field := DocsOf(docs, |values|, maxDoc, at);
    if values == [] then NumericEntry(field, 0, None, Packing(0, 0, 0, Wrap(offset), 0, -1))
    else
      var c := ChoiceOf(values);
      NumericEntry(field, Wrap(|values|), c.table,
                   Packing(c.bpv, c.min, c.gcd, Wrap(offset), Wrap(|ValuesData(values)|), -1))
  }

  ghost function EntryData(values: seq<i64>, docs: seq<nat>, maxDoc: nat): seq<byte> {
    DocsData(docs, |values|, maxDoc) + ValuesData(values)
  }

  // ----- reading the values back ----------------------------------------------------------

  ghost predicate EachRecovers(values: seq<i64>, c: Choice) {
    forall i :: 0 <= i < |values| ==> Recovers(c, values[i])
  }

  lemma {:induction false} GatherCodes(values: seq<i64>, c: Choice)
    requires c.table.Some?
    requires EachRecovers(values, c)
    ensures Gives(Gather(Codes(values, c), c.table.value), values)
  {
    if values != [] {
      var codes := Codes(values, c);
      assert codes[1..] == Codes(values[1..], c);
      assert Recovers(c, values[0]);
      GatherCodes(values[1..], c);
      assert values == [values[0]] + values[1..];
    }
  }

  lemma EpilogueCodes(values: seq<i64>, c: Choice)
    requires c.table.None? && c.gcd > 0
    requires EachRecovers(values, c)
    ensures Epilogue(Codes(values, c), c.min, c.gcd) == values
  {
    hide CodeOf, Pow2, Wrap;
    var codes := Codes(values, c);
    forall i | 0 <= i < |values| ensures Epilogue(codes, c.min, c.gcd)[i] == values[i] {
      assert Recovers(c, values[i]);
      assert ValueOf(c, codes[i]) == Some(values[i]);
    }
  }

  lemma AllRecover(values: seq<i64>)
    requires |values| > 0 && ChoiceOf(values).bpv > 0
    ensures var c := ChoiceOf(values);
            EachRecovers(values, c) && Fits(Codes(values, c), c.bpv)
  {
    hide IsStats, CodeOf, ValueOf, Choose, Pow2;
    ChoiceSupported(values);
    var c := ChoiceOf(values);
    forall i | 0 <= i < |values| ensures Recovers(c, values[i]) && Codes(values, c)[i] < Pow2(c.bpv) {
      PolicyRecovers(values, StatsOf(values), values[i]);
    }
  }

  // What DecodeBlock does with the codes once they are unpacked.
  lemma BlockOfCodes(values: seq<i64>, c: Choice, p: Packing, dvd: seq<byte>)
    requires c.bpv > 0 && p.bpv == c.bpv && p.min == c.min && p.gcd == c.gcd
    requires c.table.None? ==> c.gcd > 0
    requires EachRecovers(values, c)
    requires 0 <= p.offset && 0 <= p.length && p.offset + p.length <= |dvd|
    requires Direct.UnpackFused(dvd[p.offset..p.offset + p.length], c.bpv, |values|) == Ok(Codes(values, c))
    ensures Gives(DecodeBlock(SingleBlock(c.table, p, |values|), dvd), values)
  {
    hide Recovers, Codes, Epilogue, Gather, Direct.UnpackFused;
    if c.table.Some? {
      GatherCodes(values, c);
    } else {
      EpilogueCodes(values, c);
    }
  }

  lemma ConstantValues(values: seq<i64>)
    requires |values| > 0 && ChoiceOf(values).bpv == 0
    ensures Repeat(ChoiceOf(values).min, |values|) == values
  {
    hide IsStats;
    ConstantColumn(values, StatsOf(values));
  }

  // The packed values decode to themselves, wherever they lie in the file.
  lemma ValuesRoundTrip(values: seq<i64>, p: Packing, dvd: seq<byte>, offset: nat)
    requires |values| > 0 && PlacedAt(dvd, offset, ValuesData(values))
    requires var c := ChoiceOf(values);
             p == Packing(c.bpv, c.min, c.gcd, Wrap(offset), Wrap(|ValuesData(values)|), -1)
    ensures Gives(DecodeBlock(SingleBlock(ChoiceOf(values).table, p, |values|), dvd), values)
  {
    hide StatsOf, Direct.Supported, Direct.UnpackFused, Direct.PackBytes, Codes, EachRecovers, Fits, Choose;
    var c := ChoiceOf(values);
    if c.bpv == 0 {
      ConstantValues(values);
    } else {
      CodesUnpack(values);
      WrapIsIdentity(offset);
      WrapIsIdentity(|ValuesData(values)|);
      BlockOfCodes(values, c, p, dvd);
    }
  }

  lemma CodesUnpack(values: seq<i64>)
    requires |values| > 0 && ChoiceOf(values).bpv != 0
    ensures var c := ChoiceOf(values);
            EachRecovers(values, c) && (c.table.None? ==> c.gcd > 0)
            && Direct.UnpackFused(ValuesData(values), c.bpv, |values|) == Ok(Codes(values, c))
  {
    hide StatsOf, Direct.Supported, Direct.UnpackFused, Direct.PackBytes, Codes, EachRecovers, Fits, Choose;
    var c, data := ChoiceOf(values), ValuesData(values);
    AllRecover(values);
    ChoiceSupported(values);
    Direct.UnpackOfPack(Codes(values, c), c.bpv, []);
    assert data + [] == data;
  }

  // Planning and decoding the values of an entry, whatever its docs are.
  lemma EntryValues(values: seq<i64>, docs: seq<nat>, maxDoc: nat, at: nat, dvd: seq<byte>, e: NumericEntry)
    requires PlacedAt(dvd, at, EntryData(values, docs, maxDoc)) && |values| < TWO_63
    requires e == EntryOf(values, docs, maxDoc, at)
    ensures match IntoPlan(e, dvd, maxDoc)
            case Ok(plan) => plan.numValues == |values| && CoverageOf(e.docs, |values|, maxDoc) == Ok(plan.coverage)
                             && Gives(DecodeValues(plan, dvd), values)
            case Err(_) => false
  {
    hide ValuesData, ChoiceOf, DocsData, DecodeBlock;
    CoverageExists(docs, values, maxDoc, at, dvd);
    var offset := at + |DocsData(docs, |values|, maxDoc)|;
    if values != [] {
      var c := ChoiceOf(values);
      PlacedPart(dvd, at, DocsData(docs, |values|, maxDoc), ValuesData(values));
      ValuesRoundTrip(values, e.packing, dvd, offset);
      OneBlockValues(SingleBlock(c.table, e.packing, |values|), dvd, values);
    }
  }

  lemma OneBlockValues(b: BlockDecode, dvd: seq<byte>, values: seq<i64>)
    requires Gives(DecodeBlock(b, dvd), values)
    ensures Gives(DecodeBlocks([b], dvd), values)
  {
    hide DecodeBlock;
    assert [b][1..] == [];
    assert DecodeBlocks([], dvd) == Ok([]);
    assert values + [] == values;
  }

  lemma CoverageExists(docs: seq<nat>, values: seq<i64>, maxDoc: nat, at: nat, dvd: seq<byte>)
    requires PlacedAt(dvd, at, EntryData(values, docs, maxDoc))
    ensures CoverageOf(DocsOf(docs, |values|, maxDoc, at), |values|, maxDoc).Ok?
  {
    hide ValuesData, DocsData, Disi.JumpCount;
    assert at < TWO_63;
    assert Wrap(at) == at;
  }

  // ----- reading the docs back --------------------------------------------------------------

  // The bits of a word at `base` are its ones.
  lemma {:induction false} OnesBits(n: nat, base: nat, k: nat)
    ensures base + k in Ones(n, base) <==> Shr(n, k) % 2 == 1
    decreases k
  {
    if n == 0 {
      ShrZero(k);
    } else {
      var rest := Ones(n / 2, base + 1);
      OnesFrom(n / 2, base + 1);
      if k > 0 {
        OnesBits(n / 2, base + 1, k - 1);
        assert base + 1 + (k - 1) == base + k;
        assert Ones(n, base) == (if n % 2 == 1 then [base] else []) + rest;
      } else {
        assert base !in rest;
      }
    }
  }

  lemma OnesFrom(n: nat, base: nat)
    ensures AllFrom(Ones(n, base), base)
  {
    if n > 0 {
      OnesNonEmpty(n, base);
    }
  }

  lemma BitIsMember(words: seq<nat>, d: nat)
    requires Words(words)
    ensures BitSet(words, d) <==> d in OnesOf(words, 0)
  {
    hide Ones, OnesOf, Words, Shr;
    if d / 64 < |words| {
      var k := d / 64;
      SplitAtWord(words, k);
      OnesBits(words[k], 64 * k, d % 64);
      WordsSplit(words, k);
      OnesOfRange(words[..k], 0);
      OnesOfRange(words[k + 1..], 64 * k + 64);
      assert d !in OnesOf(words[..k], 0) && d !in OnesOf(words[k + 1..], 64 * k + 64);
    } else {
      OnesOfRange(words, 0);
    }
  }

  lemma WordsSplit(words: seq<nat>, k: nat)
    requires Words(words) && k < |words|
    ensures Words(words[..k]) && Words(words[k + 1..])
  {
  }

  // The coverage bitmap says exactly which docs have a value; none means all do.
  ghost predicate Covers(r: Result<Option<seq<nat>>>, docs: seq<nat>, maxDoc: nat) {
    match r
    case Err(_) => false
    case Ok(b) => if b.Some? then Disi.IsBitmap(b.value, docs, maxDoc) else docs == Disi.Range(0, maxDoc)
  }

  lemma AllDocs(docs: seq<nat>, maxDoc: nat)
    requires Ascending(docs) && AllBelow(docs, maxDoc) && |docs| == maxDoc
    ensures docs == Disi.Range(0, maxDoc)
  {
    forall i | 0 <= i < |docs| ensures docs[i] == i {
      Disi.AscendingFromFirst(docs, i);
      Disi.AscendingToLast(docs, i);
    }
  }

  lemma CoverageRoundTrip(docs: seq<nat>, numValues: nat, maxDoc: nat, at: nat, dvd: seq<byte>)
    requires Ascending(docs) && AllBelow(docs, maxDoc) && maxDoc <= TWO_31
    requires docs == [] ==> numValues == 0
    requires PlacedAt(dvd, at, DocsData(docs, numValues, maxDoc))
    ensures match CoverageOf(DocsOf(docs, numValues, maxDoc, at), |docs|, maxDoc)
            case Ok(c) => && c.numDocs == maxDoc && Covers(CoverageBitmap(c, dvd), docs, maxDoc)
                          && (c.Dense? ==> |docs| == maxDoc) && (c.Empty? ==> docs == [])
                          && (c.Sparse? ==> c.disi.numValues == |docs|)
            case Err(_) => false
  {
    hide Disi.Encoded, Disi.DecodeRegion, Disi.IsBitmap, Disi.JumpCount;
    if docs == [] {
      NoBits(maxDoc);
    } else if |docs| == maxDoc {
      AllDocs(docs, maxDoc);
    } else {
      var data := DocsData(docs, numValues, maxDoc);
      assert Wrap(at) == at && Wrap(|data|) == |data|;
      Disi.DisiRoundTrip(docs, maxDoc, Disi.DEFAULT_RANK_POWER, []);
      assert data + [] == data;
    }
  }

  lemma NoBits(maxDoc: nat)
    ensures Disi.IsBitmap(Disi.ZeroWords(Direct.CeilDiv(maxDoc, 64)), [], maxDoc)
  {
    OnesOfZeros(Disi.ZeroWords(Direct.CeilDiv(maxDoc, 64)), 0);
  }

  // ----- the column ---------------------------------------------------------------------------

  ghost predicate Scattered(r: Result<seq<i64>>, out: seq<i64>, docs: seq<nat>, values: seq<i64>) {
    match r
    case Err(_) => false
    case Ok(s) =>
      && |s| == |out| && |docs| == |values|
      && (forall i :: 0 <= i < |docs| ==> docs[i] < |s| && s[docs[i]] == values[i])
      && (forall d: nat :: d < |s| && d !in docs ==> s[d] == out[d])
  }

  lemma {:induction false} ScatterAll(out: seq<i64>, docs: seq<nat>, values: seq<i64>)
    requires Ascending(docs) && AllBelow(docs, |out|) && |docs| == |values|
    ensures Scattered(Scatter(out, docs, values), out, docs, values)
    decreases |docs|
  {
    if docs != [] {
      var out' := out[docs[0] := values[0]];
      ScatterAll(out', docs[1..], values[1..]);
      var s := Scatter(out', docs[1..], values[1..]).value;
      assert docs[0] !in docs[1..];
      forall i | 0 <= i < |docs| ensures s[docs[i]] == values[i] {
        if i > 0 {
          assert docs[i] == docs[1..][i - 1];
        }
      }
    }
  }

  lemma SparseColumn(docs: seq<nat>, values: seq<i64>, maxDoc: nat, bitmap: seq<nat>)
    requires Ascending(docs) && AllBelow(docs, maxDoc) && |docs| == |values|
    requires Disi.IsBitmap(bitmap, docs, maxDoc)
    ensures match Scatter(Repeat(0, maxDoc), OnesOf(bitmap, 0), values)
            case Ok(s) => IsColumn(Ok(Column(s, Some(bitmap))), docs, values, maxDoc)
            case Err(_) => false
  {
    hide OnesOf, BitSet, Scatter, Ascending, AllBelow;
    ScatterAll(Repeat(0, maxDoc), docs, values);
    forall d: nat ensures BitSet(bitmap, d) <==> d in docs {
      BitIsMember(bitmap, d);
    }
  }

  lemma EmptyColumn(maxDoc: nat, bitmap: seq<nat>)
    requires Disi.IsBitmap(bitmap, [], maxDoc)
    ensures IsColumn(Ok(Column(Repeat(0, maxDoc), Some(bitmap))), [], [], maxDoc)
  {
    hide OnesOf, BitSet;
    forall d: nat ensures !BitSet(bitmap, d) {
      BitIsMember(bitmap, d);
    }
  }

  lemma DecodeColumn(docs: seq<nat>, values: seq<i64>, maxDoc: nat, plan: DecodePlan, dvd: seq<byte>)
    requires Ascending(docs) && AllBelow(docs, maxDoc) && |docs| == |values|
    requires Gives(DecodeValues(plan, dvd), values)
    requires plan.coverage.numDocs == maxDoc && Covers(CoverageBitmap(plan.coverage, dvd), docs, maxDoc)
    requires (plan.coverage.Dense? ==> |docs| == maxDoc) && (plan.coverage.Empty? ==> docs == [])
    ensures IsColumn(DecodeNumeric(plan, dvd), docs, values, maxDoc)
  {
    hide DecodeValues, Disi.DecodeRegion, OnesOf, Scatter, Disi.IsBitmap, BitSet, Ascending, AllBelow;
    var bitmap := CoverageBitmap(plan.coverage, dvd).value;
    match plan.coverage
    case Dense(_) =>
    case Empty(_) => EmptyColumn(maxDoc, bitmap.value);
    case Sparse(_, _) => SparseColumn(docs, values, maxDoc, bitmap.value);
  }

  // ----- the field ------------------------------------------------------------------------------

  const TYPE_NUMERIC: byte := 0

  ghost function NumericMeta(field: i32, values: seq<i64>, docs: seq<nat>, maxDoc: nat, at: nat): seq<byte> {
    (LeI32(field) + [TYPE_NUMERIC]) + EntryBytes(EntryOf(values, docs, maxDoc, at))
  }

  // One field, at any place in the file: its entry parses back, plans, and
  // decodes to its values at its docs and null everywhere else.
  lemma NumericRoundTrip(values: seq<i64>, docs: seq<nat>, maxDoc: nat, at: nat, dvd: seq<byte>, rest: seq<byte>)
    requires Ascending(docs) && AllBelow(docs, maxDoc) && maxDoc <= TWO_31 && |docs| == |values|
    requires PlacedAt(dvd, at, EntryData(values, docs, maxDoc))
    ensures Yields(ReadEntry(EntryBytes(EntryOf(values, docs, maxDoc, at)) + rest), EntryOf(values, docs, maxDoc, at), rest)
    ensures match IntoPlan(EntryOf(values, docs, maxDoc, at), dvd, maxDoc)
            case Ok(plan) => IsColumn(DecodeNumeric(plan, dvd), docs, values, maxDoc)
            case Err(_) => false
  {
    var e := EntryOf(values, docs, maxDoc, at);
    EntryRoundTrip(e, rest);
    AtMostMaxDoc(docs, maxDoc);
    hide EntryBytes, ReadEntry, DocsData, ValuesData, CoverageOf, CoverageBitmap, DecodeNumeric, DecodeValues, IntoPlan, DocsOf, ChoiceOf;
    EntryValues(values, docs, maxDoc, at, dvd, e);
    PlacedPart(dvd, at, DocsData(docs, |values|, maxDoc), ValuesData(values));
    CoverageRoundTrip(docs, |values|, maxDoc, at, dvd);
    DecodeColumn(docs, values, maxDoc, IntoPlan(e, dvd, maxDoc).value, dvd);
  }

  lemma AtMostMaxDoc(docs: seq<nat>, maxDoc: nat)
    requires Ascending(docs) && AllBelow(docs, maxDoc)
    ensures |docs| <= maxDoc
  {
    if docs != [] {
      Disi.AscendingFromFirst(docs, |docs| - 1);
    }
  }

  // The dense lane passes no docs and emits the same entry and payload as the
  // field whose docs are all docs.
  lemma DenseLane(values: seq<i64>, maxDoc: nat, at: nat)
    requires |values| == maxDoc
    ensures EntryOf(values, [], maxDoc, at) == EntryOf(values, Disi.Range(0, maxDoc), maxDoc, at)
    ensures EntryData(values, [], maxDoc) == EntryData(values, Disi.Range(0, maxDoc), maxDoc)
  {
    hide ValuesData, ChoiceOf;
  }
}
