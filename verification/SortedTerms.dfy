// SORTED and SORTED_SET columns: per doc one term, or a set of terms, kept as
// ordinals into a sorted dictionary of the column's distinct terms.
module SortedTerms {
  import opened Bits
  import opened Wire
  import opened StatsPass
  import opened Bitmap
  import opened Numeric
  import opened NumericWrite
  import opened Lex
  import opened Monotonic
  import opened TermsDict
  import opened Ordinals
  import opened Columns
  import opened SortedNumeric
  import Disi

  datatype Codec = Codec(lz4: Lz4, line: Predictor)

  // ----- ords of a doc ------------------------------------------------------------------------

  function InsertOrd(x: i64, s: seq<i64>): seq<i64> {
    if s == [] || x < s[0] then [x] + s
    else if x == s[0] then s
    else [s[0]] + InsertOrd(x, s[1..])
  }

  // sort, then dedup
  function SortUniqueOrds(v: seq<i64>): seq<i64> {
    if v == [] then [] else InsertOrd(v[0], SortUniqueOrds(v[1..]))
  }

  lemma {:induction false} InsertOrdMembers(x: i64, s: seq<i64>, y: i64)
    ensures y in InsertOrd(x, s) <==> y == x || y in s
  {
    if s != [] && x > s[0] {
      InsertOrdMembers(x, s[1..], y);
      assert s == [s[0]] + s[1..];
    }
  }

  lemma AscendingTail(s: seq<i64>)
    requires Ascending(s) && s != []
    ensures Ascending(s[1..]) && forall y :: y in s[1..] ==> s[0] < y
  {
  }

  lemma AscendingCons(x: i64, s: seq<i64>)
    requires Ascending(s) && forall y :: y in s ==> x < y
    ensures Ascending([x] + s)
  {
    var all := [x] + s;
    forall i, j | 0 <= i < j < |all| ensures all[i] < all[j] {
      assert all[j] == s[j - 1] && s[j - 1] in s;
      if i > 0 {
        assert all[i] == s[i - 1];
      }
    }
  }

  lemma {:induction false} InsertOrdAscending(x: i64, s: seq<i64>)
    requires Ascending(s)
    ensures Ascending(InsertOrd(x, s))
  {
    if s == [] || x < s[0] {
      if s != [] {
        AscendingTail(s);
      }
      assert forall y :: y in s ==> x < y;
      AscendingCons(x, s);
    } else if x > s[0] {
      AscendingTail(s);
      InsertOrdAscending(x, s[1..]);
      forall y | y in InsertOrd(x, s[1..]) ensures s[0] < y {
        InsertOrdMembers(x, s[1..], y);
      }
      AscendingCons(s[0], InsertOrd(x, s[1..]));
    }
  }

  lemma {:induction false} SortUniqueOrdsIs(v: seq<i64>)
    ensures Ascending(SortUniqueOrds(v))
    ensures forall y :: y in SortUniqueOrds(v) <==> y in v
  {
    if v != [] {
      SortUniqueOrdsIs(v[1..]);
      InsertOrdAscending(v[0], SortUniqueOrds(v[1..]));
      forall y ensures y in SortUniqueOrds(v) <==> y in v {
        InsertOrdMembers(v[0], SortUniqueOrds(v[1..]), y);
      }
    }
  }

  // The terms a list of ords stands for.
  function Looked(ords: seq<i64>, dict: seq<Term>): (t: seq<Term>)
    requires Below(ords, |dict|)
    ensures |t| == |ords|
  {
    seq<Term>(|ords|, i requires 0 <= i < |ords| => dict[ords[i]])
  }

  function DocOrds(terms: seq<Term>, dict: seq<Term>): seq<i64>
    requires |dict| < TWO_63
  {
    SortUniqueOrds(OrdList(terms, dict))
  }

  // A doc's ords stand for its terms, sorted and deduplicated.
  lemma DocOrdsAre(terms: seq<Term>, dict: seq<Term>)
    requires StrictlySorted(dict) && |dict| < TWO_63 && forall x :: x in terms ==> x in dict
    ensures Below(DocOrds(terms, dict), |dict|)
    ensures Looked(DocOrds(terms, dict), dict) == SortUnique(terms)
    ensures terms != [] ==> DocOrds(terms, dict) != []
  {
    hide Less, OrdOf, Insert, InsertOrd, SortUnique, SortUniqueOrds;
    var list, ords := OrdList(terms, dict), DocOrds(terms, dict);
    SortUniqueOrdsIs(list);
    forall i | 0 <= i < |ords| ensures 0 <= ords[i] < |dict| {
      assert ords[i] in list;
    }
    LookedSorted(ords, dict);
    SortUniqueIs(terms);
    forall x ensures x in Looked(ords, dict) <==> x in terms {
      OrdMembers(terms, dict, ords, x);
    }
    SameMembers(Looked(ords, dict), SortUnique(terms));
    if terms != [] {
      assert list[0] in ords;
    }
  }

  lemma LookedSorted(ords: seq<i64>, dict: seq<Term>)
    requires StrictlySorted(dict) && Ascending(ords) && Below(ords, |dict|)
    ensures StrictlySorted(Looked(ords, dict))
  {
    hide Less;
  }

  lemma OrdMembers(terms: seq<Term>, dict: seq<Term>, ords: seq<i64>, x: Term)
    requires StrictlySorted(dict) && |dict| < TWO_63 && forall t :: t in terms ==> t in dict
    requires Below(ords, |dict|) && forall y :: y in ords <==> y in OrdList(terms, dict)
    ensures x in Looked(ords, dict) <==> x in terms
  {
    hide Less, OrdOf;
    var list := OrdList(terms, dict);
    if x in terms {
      var i :| 0 <= i < |terms| && terms[i] == x;
      assert list[i] in ords;
      var j :| 0 <= j < |ords| && ords[j] == list[i];
      assert Looked(ords, dict)[j] == x;
    }
    if x in Looked(ords, dict) {
      var j :| 0 <= j < |ords| && dict[ords[j]] == x;
      assert ords[j] in list;
      var i :| 0 <= i < |list| && list[i] == ords[j];
      assert terms[i] == x;
    }
  }

  // ----- SORTED ---------------------------------------------------------------------------------

  ghost function SortedBody(docs: seq<nat>, terms: seq<Term>, maxDoc: nat, c: Codec, at: nat): seq<byte>
    requires |SortUnique(terms)| < TWO_31
  {
    var dict := SortUnique(terms);
    var ords := OrdList(terms, dict);
    EntryBytes(EntryOf(ords, docs, maxDoc, at)) + TermsMeta(dict, c.lz4, c.line, AfterEntry(ords, docs, maxDoc, at))
  }

  ghost function SortedData(docs: seq<nat>, terms: seq<Term>, maxDoc: nat, c: Codec): seq<byte>
    requires |SortUnique(terms)| < TWO_31
  {
    EntryData(OrdList(terms, SortUnique(terms)), docs, maxDoc) + TermsData(SortUnique(terms), c.lz4, c.line)
  }

  datatype SortedPlan = SortedPlan(ords: DecodePlan, addresses: Option<AddressesPlan>, terms: TermsPlan)

  function ReadSorted(rest: seq<byte>, dvd: seq<byte>, maxDoc: nat): Parsed<SortedPlan> {
    var (e, rest1) :- ReadEntry(rest);
    var ords :- IntoPlan(e, dvd, maxDoc);
    var (terms, rest2) :- ReadTermsDict(rest1);
    Ok((SortedPlan(ords, None, terms), rest2))
  }

  // A dictionary column: an ord for each doc, and the terms with 32-bit offsets.
  datatype DictColumn = DictColumn(keys: Column, dict: Dictionary)

  predicate IsKey(o: i64) { -TWO_31 <= o < TWO_31 }

  function ScatterKeys(out: seq<i64>, docs: seq<nat>, ords: seq<i64>): Result<seq<i64>>
    decreases |docs|
  {
    if docs == [] then Ok(out)
    else if ords == [] || docs[0] >= |out| then Err(Panic)
    else if !IsKey(ords[0]) then Err(Corrupt)
    else ScatterKeys(out[docs[0] := ords[0]], docs[1..], ords[1..])
  }

  function DenseKeys(ords: seq<i64>): Result<seq<i64>> {
    if ords == [] then Ok([])
    else if !IsKey(ords[0]) then Err(Corrupt)
    else
      var rest :- DenseKeys(ords[1..]);
      Ok([ords[0]] + rest)
  }

  function DecodeSorted(plan: SortedPlan, dvd: seq<byte>, c: Codec): Result<DictColumn> {
    var dict :- Materialize(plan.terms, dvd, c.lz4, c.line);
    var bitmap :- CoverageBitmap(plan.ords.coverage, dvd);
    var ords :- DecodeValues(plan.ords, dvd);
    var n := plan.ords.coverage.numDocs;
    match bitmap
    case None =>
      if |ords| != n then Err(Corrupt)
      else
        var keys :- DenseKeys(ords);
        Ok(DictColumn(Column(keys, None), Layout(I32, dict)))
    case Some(words) =>
      var keys :- ScatterKeys(Repeat(0, n), OnesOf(words, 0), ords);
      Ok(DictColumn(Column(keys, bitmap), Layout(I32, dict)))
  }

  // Doc i's term is looked up at its key; other docs are null.
  ghost predicate IsDictColumn(r: Result<DictColumn>, docs: seq<nat>, terms: seq<Term>, maxDoc: nat) {
    match r
    case Err(_) => false
    case Ok(col) =>
      && |docs| == |terms| && |col.keys.values| == maxDoc
      && (forall i :: 0 <= i < |docs| ==> KeyOf(col, docs[i], terms[i]))
      && (forall d: nat :: d < maxDoc && d !in docs ==> Cell(col.keys, d) == None)
  }

  predicate KeyOf(col: DictColumn, d: nat, term: Term) {
    match Cell(col.keys, d)
    case None => false
    case Some(o) => col.dict.TermAt(o) == Some(term)
  }

  // The keys of such a column, whatever became of the offsets.
  ghost predicate HasKeys(keys: Column, dict: seq<Term>, docs: seq<nat>, terms: seq<Term>, maxDoc: nat) {
    && |docs| == |terms| && |keys.values| == maxDoc
    && (forall i :: 0 <= i < |docs| ==> HasKey(keys, dict, docs[i], terms[i]))
    && (forall d: nat :: d < maxDoc && d !in docs ==> Cell(keys, d) == None)
  }

  predicate HasKey(keys: Column, dict: seq<Term>, d: nat, term: Term) {
    match Cell(keys, d)
    case None => false
    case Some(o) => 0 <= o < |dict| && dict[o] == term
  }

  lemma SameOrd(dict: seq<Term>, o: nat, p: nat)
    requires StrictlySorted(dict) && o < |dict| && p < |dict| && dict[o] == dict[p]
    ensures o == p
  {
    hide Less;
    OrdUnique(dict, o);
    OrdUnique(dict, p);
  }

  // With 32-bit offsets the column is right exactly when the dictionary is small enough.
  lemma KeysExact(keys: Column, dict: seq<Term>, docs: seq<nat>, terms: seq<Term>, maxDoc: nat)
    requires StrictlySorted(dict) && HasKeys(keys, dict, docs, terms, maxDoc) && forall x :: x in dict ==> x in terms
    ensures IsDictColumn(Ok(DictColumn(keys, Layout(I32, dict))), docs, terms, maxDoc) <==> OffsetsFit(dict)
  {
    hide Layout, OffsetsFit, StrictlySorted, Cell;
    var col := DictColumn(keys, Layout(I32, dict));
    if OffsetsFit(dict) {
      forall i | 0 <= i < |docs| ensures KeyOf(col, docs[i], terms[i]) {
        assert HasKey(keys, dict, docs[i], terms[i]);
        LayoutHolds(I32, dict, Cell(keys, docs[i]).value);
      }
    } else {
      var o := LayoutOverflows(dict);
      assert dict[o] in terms;
      var i :| 0 <= i < |terms| && terms[i] == dict[o];
      assert HasKey(keys, dict, docs[i], terms[i]);
      SameOrd(dict, o, Cell(keys, docs[i]).value);
      assert !KeyOf(col, docs[i], terms[i]);
    }
  }

  lemma {:induction false} KeysFit(ords: seq<i64>)
    requires Below(ords, TWO_31)
    ensures Gives(DenseKeys(ords), ords)
  {
    if ords != [] {
      KeysFit(ords[1..]);
      assert ords == [ords[0]] + ords[1..];
    }
  }

  lemma {:induction false} ScatterKeysIs(out: seq<i64>, docs: seq<nat>, ords: seq<i64>)
    requires Below(ords, TWO_31) && |docs| == |ords|
    ensures ScatterKeys(out, docs, ords) == Scatter(out, docs, ords)
    decreases |docs|
  {
    if docs != [] && docs[0] < |out| {
      ScatterKeysIs(out[docs[0] := ords[0]], docs[1..], ords[1..]);
    }
  }

  ghost predicate ValidTerms(docs: seq<nat>, count: nat, dict: seq<Term>, maxDoc: nat, c: Codec) {
    && Ascending(docs) && AllBelow(docs, maxDoc) && maxDoc < TWO_31 && |docs| == count
    && Inverts(c.lz4) && Encodable(dict) && |dict| < TWO_31
  }

  lemma KeysColumn(docs: seq<nat>, terms: seq<Term>, maxDoc: nat, keys: Column, dict: seq<Term>)
    requires StrictlySorted(dict) && |dict| < TWO_31 && |docs| == |terms| && forall x :: x in terms ==> x in dict
    requires IsColumn(Ok(keys), docs, OrdList(terms, dict), maxDoc)
    ensures HasKeys(keys, dict, docs, terms, maxDoc)
  {
    hide Less, OrdOf, Cell;
    forall i | 0 <= i < |docs| ensures HasKey(keys, dict, docs[i], terms[i]) {
      assert terms[i] in dict;
      assert Cell(keys, docs[i]) == Some(OrdList(terms, dict)[i]);
    }
  }

  // From coverage, ords and dictionary, each doc's term.
  lemma DictColumnOf(docs: seq<nat>, terms: seq<Term>, maxDoc: nat, bitmap: Option<seq<nat>>, dict: seq<Term>)
    requires Ascending(docs) && AllBelow(docs, maxDoc) && |docs| == |terms|
    requires StrictlySorted(dict) && |dict| < TWO_31 && forall x :: x in terms ==> x in dict
    requires Covers(Ok(bitmap), docs, maxDoc)
    ensures var ords := OrdList(terms, dict);
            match bitmap
            case None => |ords| == maxDoc && Gives(DenseKeys(ords), ords)
                         && HasKeys(Column(ords, None), dict, docs, terms, maxDoc)
            case Some(words) =>
              match ScatterKeys(Repeat(0, maxDoc), OnesOf(words, 0), ords)
              case Ok(keys) => HasKeys(Column(keys, bitmap), dict, docs, terms, maxDoc)
              case Err(_) => false
  {
    hide Less, OrdOf, Scatter, ScatterKeys, DenseKeys, OnesOf, BitSet;
    var ords := OrdList(terms, dict);
    OrdsBelow(terms, dict);
    if bitmap.None? {
      KeysFit(ords);
      DenseColumn(docs, ords, maxDoc);
      KeysColumn(docs, terms, maxDoc, Column(ords, None), dict);
    } else {
      ScatterKeysIs(Repeat(0, maxDoc), docs, ords);
      SparseColumn(docs, ords, maxDoc, bitmap.value);
      KeysColumn(docs, terms, maxDoc, Column(Scatter(Repeat(0, maxDoc), docs, ords).value, bitmap), dict);
    }
  }

  lemma OrdsBelow(terms: seq<Term>, dict: seq<Term>)
    requires |dict| < TWO_31
    ensures Below(OrdList(terms, dict), TWO_31)
  {
    hide OrdOf;
  }

  lemma DenseColumn(docs: seq<nat>, values: seq<i64>, maxDoc: nat)
    requires docs == Disi.Range(0, maxDoc) && |docs| == |values|
    ensures IsColumn(Ok(Column(values, None)), docs, values, maxDoc)
  {
    forall d: nat | d < maxDoc ensures d in docs {
      assert docs[d] == d;
    }
  }

  // The entry parses, leaving `rest`, to a plan that decodes to the column exactly when
  // the dictionary is small enough.
  ghost predicate ReadsDictColumn(r: Parsed<SortedPlan>, docs: seq<nat>, terms: seq<Term>, maxDoc: nat, c: Codec,
                                  dvd: seq<byte>, rest: seq<byte>)
  {
    match r
    case Ok(p) => p.1 == rest && (IsDictColumn(DecodeSorted(p.0, dvd, c), docs, terms, maxDoc) <==> OffsetsFit(SortUnique(terms)))
    case Err(_) => false
  }

  lemma SortedRoundTrip(docs: seq<nat>, terms: seq<Term>, maxDoc: nat, c: Codec, at: nat, dvd: seq<byte>, rest: seq<byte>)
    requires ValidTerms(docs, |terms|, SortUnique(terms), maxDoc, c)
    requires PlacedAt(dvd, at, SortedData(docs, terms, maxDoc, c))
    ensures ReadsDictColumn(ReadSorted(SortedBody(docs, terms, maxDoc, c, at) + rest, dvd, maxDoc), docs, terms, maxDoc, c, dvd, rest)
  {
    hide EntryData, TermsData, EntryBytes, ReadEntry, ReadTermsDict, Materialize, TermsMeta, IntoPlan, DecodeValues, EntryOf,
         CoverageBitmap, Ascending, AllBelow, FixCoverage, DenseKeys, ScatterKeys, OnesOf, StrictlySorted, OrdList, SortUnique,
         Inverts, Encodable, PlanOf, Repeat, IsDictColumn, HasKeys, Layout, OffsetsFit;
    var dict := SortUnique(terms);
    var ords := OrdList(terms, dict);
    var at' := AfterEntry(ords, docs, maxDoc, at);
    SortUniqueIs(terms);
    PlacedPart(dvd, at, EntryData(ords, docs, maxDoc), TermsData(dict, c.lz4, c.line));
    Assoc(EntryBytes(EntryOf(ords, docs, maxDoc, at)), TermsMeta(dict, c.lz4, c.line, at'), rest);
    EntryRoundTrip(EntryOf(ords, docs, maxDoc, at), TermsMeta(dict, c.lz4, c.line, at') + rest);
    TermsRoundTrip(dict, c.lz4, c.line, at', dvd, rest);
    OrdCount(docs, terms, maxDoc, dict);
    EntryPart(ords, docs, maxDoc, at, dvd);
    CoverageKept(ords, docs, maxDoc, at, dvd);
    var plan := IntoPlan(EntryOf(ords, docs, maxDoc, at), dvd, maxDoc).value;
    DictColumnOf(docs, terms, maxDoc, CoverageBitmap(plan.coverage, dvd).value, dict);
    var keys := KeysOf(CoverageBitmap(plan.coverage, dvd).value, ords, maxDoc);
    KeysExact(keys, dict, docs, terms, maxDoc);
  }

  // The keys the decoder makes of the ords.
  function KeysOf(bitmap: Option<seq<nat>>, ords: seq<i64>, maxDoc: nat): Column {
    match bitmap
    case None => Column(ords, None)
    case Some(words) =>
      match ScatterKeys(Repeat(0, maxDoc), OnesOf(words, 0), ords)
      case Ok(keys) => Column(keys, bitmap)
      case Err(_) => Column([], bitmap)
  }

  lemma OrdCount(docs: seq<nat>, terms: seq<Term>, maxDoc: nat, dict: seq<Term>)
    requires Ascending(docs) && AllBelow(docs, maxDoc) && maxDoc < TWO_31 && |docs| == |terms| && |dict| < TWO_63
    ensures |OrdList(terms, dict)| == |docs| < TWO_63 && (docs == [] ==> OrdList(terms, dict) == [])
  {
    AtMostMaxDoc(docs, maxDoc);
  }

  // With one value per doc the coverage needs no patching.
  lemma CoverageKept(values: seq<i64>, docs: seq<nat>, maxDoc: nat, at: nat, dvd: seq<byte>)
    requires |values| == |docs| && |values| < TWO_63
    ensures var r := IntoPlan(EntryOf(values, docs, maxDoc, at), dvd, maxDoc);
            r.Ok? ==> FixCoverage(r.value, |docs|).coverage == r.value.coverage
  {
    hide ChoiceOf, ValuesData, DocsData, DocsOf, WalkBlocks, SingleBlock;
  }

  // ----- SORTED_SET -----------------------------------------------------------------------------

  function DictOf(sets: seq<seq<Term>>): seq<Term> { SortUnique(Flatten(sets)) }

  function SetOrds(sets: seq<seq<Term>>): (o: seq<seq<i64>>)
    requires |DictOf(sets)| < TWO_31
    ensures |o| == |sets|
  {
    seq<seq<i64>>(|sets|, i requires 0 <= i < |sets| => DocOrds(sets[i], DictOf(sets)))
  }

  // Whether any doc has more than one term.
  predicate AnyMany(ords: seq<seq<i64>>) {
    exists i :: 0 <= i < |ords| && |ords[i]| > 1
  }

  ghost function SetBody(docs: seq<nat>, sets: seq<seq<Term>>, maxDoc: nat, c: Codec, at: nat): seq<byte>
    requires |DictOf(sets)| < TWO_31 && |docs| < TWO_31
  {
    var ords := SetOrds(sets);
    var all := Flatten(ords);
    var at' := AfterEntry(all, docs, maxDoc, at);
    [if AnyMany(ords) then 1 else 0] +
    (EntryBytes(EntryOf(all, docs, maxDoc, at)) +
     ((if AnyMany(ords) then LeI32(|docs|) + AddressMeta(Ends(ords, 0), c.line, at') else []) +
      TermsMeta(DictOf(sets), c.lz4, c.line, at' + |SetAddressData(sets, c)|)))
  }

  function SetAddressData(sets: seq<seq<Term>>, c: Codec): seq<byte>
    requires |DictOf(sets)| < TWO_31
  {
    if AnyMany(SetOrds(sets)) then AddressData(Ends(SetOrds(sets), 0), c.line) else []
  }

  ghost function SetData(docs: seq<nat>, sets: seq<seq<Term>>, maxDoc: nat, c: Codec): seq<byte>
    requires |DictOf(sets)| < TWO_31
  {
    EntryData(Flatten(SetOrds(sets)), docs, maxDoc) +
    (SetAddressData(sets, c) + TermsData(DictOf(sets), c.lz4, c.line))
  }

  function ReadSetAddresses(multi: bool, rest: seq<byte>): Parsed<Option<(nat, AddressesPlan)>> {
    if !multi then Ok((None, rest))
    else
      var (docCount, rest1) :- ReadI32(rest);
      var n := AsU64(docCount);
      var (addresses, rest2) :- ReadAddresses(rest1, CountAfter(docCount));
      Ok((Some((n, addresses)), rest2))
  }

  function ReadSet(rest: seq<byte>, dvd: seq<byte>, maxDoc: nat): Parsed<SortedPlan> {
    var (multi, rest1) :- ReadU8(rest);
    var (e, rest2) :- ReadEntry(rest1);
    var (a, rest3) :- ReadSetAddresses(multi != 0, rest2);
    var ords :- IntoPlan(e, dvd, maxDoc);
    var (terms, rest4) :- ReadTermsDict(rest3);
    match a
    case None => Ok((SortedPlan(ords, None, terms), rest4))
    case Some(x) => Ok((SortedPlan(FixCoverage(ords, x.0), Some(x.1), terms), rest4))
  }

  datatype SetColumn = SetColumn(keys: ListColumn<i64>, dict: Dictionary)

  function DecodeSet(plan: SortedPlan, addresses: AddressesPlan, dvd: seq<byte>, c: Codec): Result<SetColumn> {
    var dict :- Materialize(plan.terms, dvd, c.lz4, c.line);
    var bitmap :- CoverageBitmap(plan.ords.coverage, dvd);
    var ords :- DecodeValues(plan.ords, dvd);
    var ends :- DecodeAddresses(addresses, dvd, c.line);
    var offsets :- DocOffsets(plan.ords.coverage.numDocs, bitmap, ends, Ok(0));
    var keys :- DenseKeys(ords);
    Ok(SetColumn(ListColumn(offsets, keys, bitmap), Layout(I32, dict)))
  }

  // Doc i's ords stand for its terms, sorted and without duplicates; other docs
  // are null.
  ghost predicate IsSetColumn(r: Result<SetColumn>, docs: seq<nat>, sets: seq<seq<Term>>, maxDoc: nat) {
    match r
    case Err(_) => false
    case Ok(col) =>
      && |docs| == |sets| && |col.keys.offsets| == maxDoc + 1
      && (forall i :: 0 <= i < |docs| ==> SetOf(col, docs[i], SortUnique(sets[i])))
      && (forall d: nat :: d < maxDoc && d !in docs ==> Slice(col.keys, d) == None)
  }

  ghost predicate SetOf(col: SetColumn, d: nat, terms: seq<Term>) {
    match Slice(col.keys, d)
    case None => false
    case Some(ords) =>
      |ords| == |terms| && forall k :: 0 <= k < |ords| ==> col.dict.TermAt(ords[k]) == Some(terms[k])
  }

  ghost predicate HasLists(keys: ListColumn<i64>, dict: seq<Term>, docs: seq<nat>, sets: seq<seq<Term>>, maxDoc: nat) {
    && |docs| == |sets| && |keys.offsets| == maxDoc + 1
    && (forall i :: 0 <= i < |docs| ==> HasList(keys, dict, docs[i], SortUnique(sets[i])))
    && (forall d: nat :: d < maxDoc && d !in docs ==> Slice(keys, d) == None)
  }

  ghost predicate HasList(keys: ListColumn<i64>, dict: seq<Term>, d: nat, terms: seq<Term>) {
    match Slice(keys, d)
    case None => false
    case Some(ords) => Below(ords, |dict|) && Looked(ords, dict) == terms
  }

  lemma ListsExact(keys: ListColumn<i64>, dict: seq<Term>, docs: seq<nat>, sets: seq<seq<Term>>, maxDoc: nat)
    requires dict == DictOf(sets) && HasLists(keys, dict, docs, sets, maxDoc)
    ensures IsSetColumn(Ok(SetColumn(keys, Layout(I32, dict))), docs, sets, maxDoc) <==> OffsetsFit(dict)
  {
    hide Layout, OffsetsFit, Slice, SortUnique, DictOf;
    var col := SetColumn(keys, Layout(I32, dict));
    if OffsetsFit(dict) {
      forall i | 0 <= i < |docs| ensures SetOf(col, docs[i], SortUnique(sets[i])) {
        assert HasList(keys, dict, docs[i], SortUnique(sets[i]));
        var ords := Slice(keys, docs[i]).value;
        forall k | 0 <= k < |ords| ensures col.dict.TermAt(ords[k]) == Some(Looked(ords, dict)[k]) {
          LayoutHolds(I32, dict, ords[k]);
        }
      }
    } else {
      var o := LayoutOverflows(dict);
      var i := HolderOf(sets, dict[o]);
      assert HasList(keys, dict, docs[i], SortUnique(sets[i]));
      var ords := Slice(keys, docs[i]).value;
      var k :| 0 <= k < |ords| && Looked(ords, dict)[k] == dict[o];
      DictSorted(sets);
      SameOrd(dict, o, ords[k]);
      assert !SetOf(col, docs[i], SortUnique(sets[i]));
    }
  }

  // A term of the dictionary comes from some doc.
  lemma HolderOf(sets: seq<seq<Term>>, x: Term) returns (i: nat)
    requires x in DictOf(sets)
    ensures i < |sets| && x in SortUnique(sets[i])
  {
    hide SortUnique, Flatten;
    SortUniqueIs(Flatten(sets));
    i := FlattenHas(sets, x);
    SortUniqueIs(sets[i]);
  }

  // A single-valued set decodes as one term per doc, a multi-valued one as a list.
  ghost predicate ReadsSetColumn(r: Parsed<SortedPlan>, docs: seq<nat>, sets: seq<seq<Term>>, maxDoc: nat, c: Codec,
                                 dvd: seq<byte>, rest: seq<byte>)
  {
    match r
    case Err(_) => false
    case Ok(p) => p.1 == rest && (DecodesSet(p.0, docs, sets, maxDoc, c, dvd) <==> OffsetsFit(DictOf(sets)))
  }

  ghost predicate DecodesSet(plan: SortedPlan, docs: seq<nat>, sets: seq<seq<Term>>, maxDoc: nat, c: Codec, dvd: seq<byte>) {
    match plan.addresses
    case Some(a) => IsSetColumn(DecodeSet(plan, a, dvd, c), docs, sets, maxDoc)
    case None => IsSingleSets(sets) && IsDictColumn(DecodeSorted(plan, dvd, c), docs, Firsts(sets), maxDoc)
  }

  // Every doc's terms are one and the same.
  ghost predicate IsSingleSets(sets: seq<seq<Term>>) {
    forall i :: 0 <= i < |sets| ==> sets[i] != [] && SortUnique(sets[i]) == [sets[i][0]]
  }

  function Firsts(sets: seq<seq<Term>>): (t: seq<Term>)
    ensures |t| == |sets|
  {
    seq<Term>(|sets|, i requires 0 <= i < |sets| => if sets[i] == [] then [] else sets[i][0])
  }

  ghost predicate ValidSets(docs: seq<nat>, sets: seq<seq<Term>>, maxDoc: nat, c: Codec) {
    && ValidTerms(docs, |sets|, DictOf(sets), maxDoc, c)
    && (forall i :: 0 <= i < |sets| ==> sets[i] != [])
    && FitsI32(SetOrds(sets))
  }

  lemma {:induction false} FlattenMembers<T>(lists: seq<seq<T>>, i: nat)
    requires i < |lists|
    ensures forall x :: x in lists[i] ==> x in Flatten(lists)
  {
    if i > 0 {
      FlattenMembers(lists[1..], i - 1);
    }
  }

  // What each doc's ords are.
  lemma SetOrdsAre(sets: seq<seq<Term>>, i: nat)
    requires |DictOf(sets)| < TWO_31 && i < |sets|
    ensures var o := SetOrds(sets)[i];
            && Below(o, |DictOf(sets)|) && Looked(o, DictOf(sets)) == SortUnique(sets[i])
            && (sets[i] != [] ==> o != [])
  {
    hide SortUnique, DocOrds, Flatten;
    SortUniqueIs(Flatten(sets));
    FlattenMembers(sets, i);
    DocOrdsAre(sets[i], DictOf(sets));
  }

  lemma {:induction false} FlattenBelow(lists: seq<seq<i64>>, n: nat)
    requires forall i :: 0 <= i < |lists| ==> Below(lists[i], n)
    ensures Below(Flatten(lists), n)
  {
    if lists != [] {
      FlattenBelow(lists[1..], n);
    }
  }

  lemma AllOrdsBelow(sets: seq<seq<Term>>)
    requires |DictOf(sets)| < TWO_31
    ensures Below(Flatten(SetOrds(sets)), TWO_31)
  {
    hide Flatten, DictOf, SetOrds;
    forall i | 0 <= i < |SetOrds(sets)| ensures Below(SetOrds(sets)[i], TWO_31) {
      SetOrdsAre(sets, i);
    }
    FlattenBelow(SetOrds(sets), TWO_31);
  }

  lemma SetColumnOf(docs: seq<nat>, sets: seq<seq<Term>>, maxDoc: nat, bitmap: Option<seq<nat>>)
    requires Ascending(docs) && AllBelow(docs, maxDoc) && |docs| == |sets| && |DictOf(sets)| < TWO_31
    requires FitsI32(SetOrds(sets)) && Covers(Ok(bitmap), docs, maxDoc)
    ensures match DocOffsets(maxDoc, bitmap, Ends(SetOrds(sets), 0), Ok(0))
            case Err(_) => false
            case Ok(o) => Gives(DenseKeys(Flatten(SetOrds(sets))), Flatten(SetOrds(sets)))
                          && HasLists(ListColumn(o, Flatten(SetOrds(sets)), bitmap), DictOf(sets), docs, sets, maxDoc)
  {
    hide Flatten, DocOffsets, Ends, SetOrds, Slice, DenseKeys, Covers, SortUnique, Looked;
    AllOrdsBelow(sets);
    KeysFit(Flatten(SetOrds(sets)));
    ListColumnRoundTrip(docs, SetOrds(sets), maxDoc, bitmap, Ok(0));
    SortUniqueIs(Flatten(sets));
    var o := DocOffsets(maxDoc, bitmap, Ends(SetOrds(sets), 0), Ok(0)).value;
    var keys := ListColumn(o, Flatten(SetOrds(sets)), bitmap);
    forall i | 0 <= i < |docs| ensures HasList(keys, DictOf(sets), docs[i], SortUnique(sets[i])) {
      SetOrdsAre(sets, i);
    }
  }

  lemma SetHeadRead(docs: seq<nat>, sets: seq<seq<Term>>, maxDoc: nat, c: Codec, at: nat, rest: seq<byte>)
    requires |DictOf(sets)| < TWO_31 && |docs| < TWO_31
    ensures var ords := SetOrds(sets);
            var all := Flatten(ords);
            var at' := AfterEntry(all, docs, maxDoc, at);
            var a := if AnyMany(ords) then LeI32(|docs|) + AddressMeta(Ends(ords, 0), c.line, at') else [];
            var t := TermsMeta(DictOf(sets), c.lz4, c.line, at' + |SetAddressData(sets, c)|);
            var rest2 := (EntryBytes(EntryOf(all, docs, maxDoc, at)) + (a + t)) + rest;
            && Yields(ReadU8(SetBody(docs, sets, maxDoc, c, at) + rest), if AnyMany(ords) then 1 else 0, rest2)
            && Yields(ReadEntry(rest2), EntryOf(all, docs, maxDoc, at), a + (t + rest))
  {
    hide EntryBytes, ReadEntry, LeI32, AddressMeta, TermsMeta, Flatten, EntryOf, AnyMany, SetAddressData, SetOrds, EntryData, DictOf, Ends;
    var ords := SetOrds(sets);
    var all := Flatten(ords);
    var at' := AfterEntry(all, docs, maxDoc, at);
    var a := if AnyMany(ords) then LeI32(|docs|) + AddressMeta(Ends(ords, 0), c.line, at') else [];
    var t := TermsMeta(DictOf(sets), c.lz4, c.line, at' + |SetAddressData(sets, c)|);
    var flag: byte := if AnyMany(ords) then 1 else 0;
    var e := EntryBytes(EntryOf(all, docs, maxDoc, at));
    Assoc([flag], e + (a + t), rest);
    assert ([flag] + ((e + (a + t)) + rest))[1..] == (e + (a + t)) + rest;
    Assoc(e, a + t, rest);
    Assoc(a, t, rest);
    EntryRoundTrip(EntryOf(all, docs, maxDoc, at), a + (t + rest));
  }

  lemma SetParts(docs: seq<nat>, sets: seq<seq<Term>>, maxDoc: nat, c: Codec, at: nat, dvd: seq<byte>)
    requires ValidSets(docs, sets, maxDoc, c) && PlacedAt(dvd, at, SetData(docs, sets, maxDoc, c))
    ensures |DictOf(sets)| < TWO_31
    ensures |docs| < TWO_31 && |Flatten(SetOrds(sets))| < TWO_31 && (docs == [] ==> Flatten(SetOrds(sets)) == [])
    ensures var at' := AfterEntry(Flatten(SetOrds(sets)), docs, maxDoc, at);
            && PlacedAt(dvd, at, EntryData(Flatten(SetOrds(sets)), docs, maxDoc))
            && PlacedAt(dvd, at', SetAddressData(sets, c))
            && PlacedAt(dvd, at' + |SetAddressData(sets, c)|, TermsData(DictOf(sets), c.lz4, c.line))
  {
    hide EntryData, SetAddressData, TermsData, DictOf, DocOrds, Encodable, Inverts;
    AtMostMaxDoc(docs, maxDoc);
    var a, t := SetAddressData(sets, c), TermsData(DictOf(sets), c.lz4, c.line);
    var e := EntryData(Flatten(SetOrds(sets)), docs, maxDoc);
    PlacedPart(dvd, at, e, a + t);
    PlacedPart(dvd, at + |e|, a, t);
  }

  // The plan a multi-valued set reads as.
  ghost predicate IsSetPlan(plan: SortedPlan, docs: seq<nat>, sets: seq<seq<Term>>, maxDoc: nat, c: Codec, at: nat, dvd: seq<byte>)
    requires |DictOf(sets)| < TWO_31
  {
    var all := Flatten(SetOrds(sets));
    var at' := AfterEntry(all, docs, maxDoc, at);
    match IntoPlan(EntryOf(all, docs, maxDoc, at), dvd, maxDoc)
    case Err(_) => false
    case Ok(p) =>
      plan == SortedPlan(FixCoverage(p, |docs|), Some(AddressPlan(Ends(SetOrds(sets), 0), c.line, at')),
                         PlanOf(DictOf(sets), c.lz4, c.line, at' + |SetAddressData(sets, c)|))
  }

  lemma SetPlanned(docs: seq<nat>, sets: seq<seq<Term>>, maxDoc: nat, c: Codec, at: nat, dvd: seq<byte>, rest: seq<byte>)
    returns (plan: SortedPlan)
    requires ValidSets(docs, sets, maxDoc, c) && PlacedAt(dvd, at, SetData(docs, sets, maxDoc, c))
    requires AnyMany(SetOrds(sets)) && |docs| < TWO_31
    ensures Yields(ReadSet(SetBody(docs, sets, maxDoc, c, at) + rest, dvd, maxDoc), plan, rest)
    ensures IsSetPlan(plan, docs, sets, maxDoc, c, at, dvd)
  {
    hide EntryData, SetData, SetBody, EntryBytes, ReadEntry, ReadTermsDict, TermsMeta, IntoPlan, EntryOf, DecodeValues, CoverageBitmap,
         FixCoverage, Ends, Flatten, AddressMeta, AddressPlan, LeI32, ReadSetAddresses, TermsData, AnyMany, SetOrds, DictOf,
         PlanOf, Ascending, AllBelow, Encodable, Inverts, StrictlySorted, SetAddressData, Covers, Materialize, DecodeAddresses,
         AddressData, Wrap, AsU64, AsI64, LeI64, SortUnique, DocOrds;
    var ords, dict := SetOrds(sets), DictOf(sets);
    var all := Flatten(ords);
    var at' := AfterEntry(all, docs, maxDoc, at);
    var t := TermsMeta(dict, c.lz4, c.line, at' + |SetAddressData(sets, c)|);
    SetHeadRead(docs, sets, maxDoc, c, at, rest);
    SetParts(docs, sets, maxDoc, c, at, dvd);
    AddressesOf(sets, c);
    SetAddressesRead(|docs|, Ends(ords, 0), c.line, at', dvd, t + rest);
    DictSorted(sets);
    TermsRoundTrip(dict, c.lz4, c.line, at' + |SetAddressData(sets, c)|, dvd, rest);
    EntryPart(all, docs, maxDoc, at, dvd);
    plan := ReadSet(SetBody(docs, sets, maxDoc, c, at) + rest, dvd, maxDoc).value.0;
  }

  lemma AddressesOf(sets: seq<seq<Term>>, c: Codec)
    requires |DictOf(sets)| < TWO_31
    ensures AnyMany(SetOrds(sets)) ==> SetAddressData(sets, c) == AddressData(Ends(SetOrds(sets), 0), c.line)
  {
    hide AddressData, SetOrds, DictOf;
  }

  lemma SetMany(docs: seq<nat>, sets: seq<seq<Term>>, maxDoc: nat, c: Codec, at: nat, dvd: seq<byte>, rest: seq<byte>)
    requires ValidSets(docs, sets, maxDoc, c) && PlacedAt(dvd, at, SetData(docs, sets, maxDoc, c))
    requires AnyMany(SetOrds(sets)) && |docs| < TWO_31
    ensures ReadsSetColumn(ReadSet(SetBody(docs, sets, maxDoc, c, at) + rest, dvd, maxDoc), docs, sets, maxDoc, c, dvd, rest)
  {
    hide EntryData, SetData, SetBody, ReadSet, Materialize, IntoPlan, DecodeValues, EntryOf, CoverageBitmap, FixCoverage, DenseKeys,
         Ends, Flatten, DecodeAddresses, AddressPlan, DocOffsets, TermsData, AnyMany, SetOrds, DictOf, IsSetColumn, PlanOf,
         Ascending, AllBelow, Encodable, Inverts, StrictlySorted, SetAddressData, AddressMeta, TermsMeta, ReadAddresses, ReadTermsDict,
         AddressData, Wrap, AsU64, AsI64, SetBody, LeI64, LeI32, SortUnique, DocOrds, Slice, HasLists, Layout, OffsetsFit;
    var plan := SetPlanned(docs, sets, maxDoc, c, at, dvd, rest);
    var all, dict := Flatten(SetOrds(sets)), DictOf(sets);
    var at' := AfterEntry(all, docs, maxDoc, at);
    SetParts(docs, sets, maxDoc, c, at, dvd);
    AddressesOf(sets, c);
    AddressesRoundTrip(Ends(SetOrds(sets), 0), c.line, at', dvd, []);
    DictSorted(sets);
    TermsRoundTrip(dict, c.lz4, c.line, at' + |SetAddressData(sets, c)|, dvd, []);
    EntryPart(all, docs, maxDoc, at, dvd);
    var bitmap := CoverageBitmap(plan.ords.coverage, dvd).value;
    SetColumnOf(docs, sets, maxDoc, bitmap);
    ListsExact(ListColumn(DocOffsets(maxDoc, bitmap, Ends(SetOrds(sets), 0), Ok(0)).value, all, bitmap), dict, docs, sets, maxDoc);
  }

  lemma SetAddressesRead(count: nat, ends: seq<i64>, p: Predictor, at: nat, dvd: seq<byte>, rest: seq<byte>)
    requires count < TWO_31 && |ends| == count + 1 && PlacedAt(dvd, at, AddressData(ends, p))
    ensures Yields(ReadSetAddresses(true, (LeI32(count) + AddressMeta(ends, p, at)) + rest),
                   Some((count, AddressPlan(ends, p, at))), rest)
    ensures Gives(DecodeAddresses(AddressPlan(ends, p, at), dvd, p), ends)
  {
    hide LeI32, ReadI32, AddressMeta, ReadAddresses, AddressPlan, DecodeAddresses, AddressData;
    Assoc(LeI32(count), AddressMeta(ends, p, at), rest);
    I32RoundTrip(count, AddressMeta(ends, p, at) + rest);
    AddressesRoundTrip(ends, p, at, dvd, rest);
  }

  lemma DictSorted(sets: seq<seq<Term>>)
    ensures StrictlySorted(DictOf(sets))
  {
    hide SortUnique, Flatten;
    SortUniqueIs(Flatten(sets));
  }

  // With no doc having more than one ord, the ords are those of the first terms.
  lemma {:induction false} FlattenSingles(lists: seq<seq<i64>>, i: nat)
    requires i < |lists| && forall k :: 0 <= k < |lists| ==> |lists[k]| == 1
    ensures |Flatten(lists)| == |lists| && Flatten(lists)[i] == lists[i][0]
  {
    if |lists| > 1 {
      FlattenSingles(lists[1..], if i > 0 then i - 1 else 0);
    } else {
      assert Flatten(lists[1..]) == [];
    }
  }

  lemma SingleOrds(sets: seq<seq<Term>>)
    requires |DictOf(sets)| < TWO_31 && !AnyMany(SetOrds(sets)) && forall i :: 0 <= i < |sets| ==> sets[i] != []
    ensures Flatten(SetOrds(sets)) == OrdList(Firsts(sets), DictOf(sets))
    ensures IsSingleSets(sets)
    ensures forall x :: x in Firsts(sets) <==> x in DictOf(sets)
  {
    hide Flatten, DictOf, OrdOf, SortUnique, SetOrds;
    var ords, dict := SetOrds(sets), DictOf(sets);
    DictSorted(sets);
    forall i | 0 <= i < |sets|
      ensures |ords[i]| == 1 && SortUnique(sets[i]) == [sets[i][0]]
      ensures sets[i][0] in dict && ords[i][0] == OrdOf(dict, sets[i][0])
    {
      SingleOrd(sets, i);
    }
    forall x | x in dict ensures x in Firsts(sets) {
      var i := HolderOf(sets, x);
      assert Firsts(sets)[i] == x;
    }
    if sets == [] {
      assert Flatten(ords) == [] by { FlattenNothing(ords); }
    } else {
      FlattenSingles(ords, 0);
      forall i | 0 <= i < |sets| ensures Flatten(ords)[i] == OrdList(Firsts(sets), dict)[i] {
        FlattenSingles(ords, i);
      }
    }
  }

  lemma FlattenNothing(lists: seq<seq<i64>>)
    requires lists == []
    ensures Flatten(lists) == []
  {
  }

  lemma SingleOrd(sets: seq<seq<Term>>, i: nat)
    requires |DictOf(sets)| < TWO_31 && !AnyMany(SetOrds(sets)) && i < |sets| && sets[i] != []
    ensures var o := SetOrds(sets)[i];
            && |o| == 1 && SortUnique(sets[i]) == [sets[i][0]]
            && sets[i][0] in DictOf(sets) && o[0] == OrdOf(DictOf(sets), sets[i][0])
  {
    hide Flatten, DictOf, OrdOf, SortUnique, SetOrds, Less;
    var o, dict := SetOrds(sets)[i], DictOf(sets);
    SetOrdsAre(sets, i);
    DictSorted(sets);
    assert |o| == 1;
    SortUniqueIs(sets[i]);
    assert sets[i][0] in SortUnique(sets[i]);
    assert Looked(o, dict)[0] == dict[o[0]];
    OrdUnique(dict, o[0]);
  }

  lemma SetSingle(docs: seq<nat>, sets: seq<seq<Term>>, maxDoc: nat, c: Codec, at: nat, dvd: seq<byte>, rest: seq<byte>)
    requires ValidSets(docs, sets, maxDoc, c) && PlacedAt(dvd, at, SetData(docs, sets, maxDoc, c))
    requires !AnyMany(SetOrds(sets)) && |docs| < TWO_31
    ensures ReadsSetColumn(ReadSet(SetBody(docs, sets, maxDoc, c, at) + rest, dvd, maxDoc), docs, sets, maxDoc, c, dvd, rest)
  {
    hide EntryData, SetData, SetBody, EntryBytes, ReadEntry, ReadTermsDict, Materialize, TermsMeta, IntoPlan, DecodeValues, EntryOf,
         CoverageBitmap, FixCoverage, DenseKeys, ScatterKeys, Ends, Flatten, AddressMeta, LeI32, TermsData, AnyMany, SetOrds, DictOf,
         IsDictColumn, PlanOf, Ascending, AllBelow, Encodable, Inverts, StrictlySorted, SortUnique, OnesOf, OrdList, Firsts, IsSingleSets, Repeat,
         HasKeys, Layout, OffsetsFit;
    var ords, dict := SetOrds(sets), DictOf(sets);
    var all := Flatten(ords);
    var at' := AfterEntry(all, docs, maxDoc, at);
    var t := TermsMeta(dict, c.lz4, c.line, at' + |SetAddressData(sets, c)|);
    SetHeadRead(docs, sets, maxDoc, c, at, rest);
    SetParts(docs, sets, maxDoc, c, at, dvd);
    assert [] + (t + rest) == t + rest;
    DictSorted(sets);
    TermsRoundTrip(dict, c.lz4, c.line, at' + |SetAddressData(sets, c)|, dvd, rest);
    SingleOrds(sets);
    EntryPart(all, docs, maxDoc, at, dvd);
    CoverageKept(all, docs, maxDoc, at, dvd);
    var plan := IntoPlan(EntryOf(all, docs, maxDoc, at), dvd, maxDoc).value;
    DictColumnOf(docs, Firsts(sets), maxDoc, CoverageBitmap(plan.coverage, dvd).value, dict);
    KeysExact(KeysOf(CoverageBitmap(plan.coverage, dvd).value, all, maxDoc), dict, docs, Firsts(sets), maxDoc);
  }

  // Each doc's terms come back sorted and without duplicates.
  lemma SetRoundTrip(docs: seq<nat>, sets: seq<seq<Term>>, maxDoc: nat, c: Codec, at: nat, dvd: seq<byte>, rest: seq<byte>)
    requires ValidSets(docs, sets, maxDoc, c) && PlacedAt(dvd, at, SetData(docs, sets, maxDoc, c))
    ensures |docs| < TWO_31
    ensures ReadsSetColumn(ReadSet(SetBody(docs, sets, maxDoc, c, at) + rest, dvd, maxDoc), docs, sets, maxDoc, c, dvd, rest)
  {
    hide *;
    SetParts(docs, sets, maxDoc, c, at, dvd);
    if AnyMany(SetOrds(sets)) {
      SetMany(docs, sets, maxDoc, c, at, dvd, rest);
    } else {
      SetSingle(docs, sets, maxDoc, c, at, dvd, rest);
    }
  }

  // ----- ord plans can be remapped -----------------------------------------------------------------

  // The ords of a field, planned, can be rewritten by any remap of its dictionary,
  // and then decode to the remapped ords.
  ghost predicate Remaps(r: Result<DecodePlan>, ords: seq<i64>, remap: seq<i32>, dvd: seq<byte>) {
    match r
    case Err(_) => false
    case Ok(plan) =>
      && Gives(DecodeValues(plan, dvd), ords) && Below(ords, |remap|)
      && ApplyRemap(plan, remap).Ok?
      && Gives(DecodeValues(ApplyRemap(plan, remap).value, dvd), Mapped(ords, remap))
  }

  lemma NoOrdsRemap(docs: seq<nat>, maxDoc: nat, at: nat, dvd: seq<byte>, remap: seq<i32>)
    requires PlacedAt(dvd, at, EntryData([], docs, maxDoc))
    ensures Remaps(IntoPlan(EntryOf([], docs, maxDoc, at), dvd, maxDoc), [], remap, dvd)
  {
    hide ValuesData, DocsData, DocsOf, WalkBlocks, ChoiceOf;
    EntryValues([], docs, maxDoc, at, dvd, EntryOf([], docs, maxDoc, at));
    assert Mapped([], remap) == [];
  }

  lemma SortedOrdsRemap(docs: seq<nat>, terms: seq<Term>, maxDoc: nat, at: nat, dvd: seq<byte>, remap: seq<i32>)
    requires |SortUnique(terms)| < TWO_31 && |terms| < TWO_63 && |remap| == |SortUnique(terms)|
    requires PlacedAt(dvd, at, EntryData(OrdList(terms, SortUnique(terms)), docs, maxDoc))
    ensures Remaps(IntoPlan(EntryOf(OrdList(terms, SortUnique(terms)), docs, maxDoc, at), dvd, maxDoc),
                   OrdList(terms, SortUnique(terms)), remap, dvd)
  {
    hide EntryData, EntryOf, IntoPlan, DecodeValues, ApplyRemap, Mapped, SortUnique, OrdOf, Less;
    var dict := SortUnique(terms);
    var ords := OrdList(terms, dict);
    SortUniqueIs(terms);
    OrdsCover(terms, dict);
    if ords == [] {
      NoOrdsRemap(docs, maxDoc, at, dvd, remap);
    } else {
      OrdPlanRemaps(ords, |dict|, docs, maxDoc, at, dvd, remap);
    }
  }

  lemma {:induction false} FlattenHas<T>(lists: seq<seq<T>>, x: T) returns (i: nat)
    requires x in Flatten(lists)
    ensures i < |lists| && x in lists[i]
  {
    if x in lists[0] {
      i := 0;
    } else {
      i := FlattenHas(lists[1..], x);
      i := i + 1;
    }
  }

  lemma SetOrdsCover(sets: seq<seq<Term>>)
    requires |DictOf(sets)| < TWO_31
    ensures CoversRange(Flatten(SetOrds(sets)), |DictOf(sets)|)
  {
    hide Flatten, SortUnique, DocOrds, SetOrds, Less;
    var dict, all := DictOf(sets), Flatten(SetOrds(sets));
    SetOrdsBelow(sets);
    SortUniqueIs(Flatten(sets));
    forall k: nat | k < |dict| ensures Among(all, k) {
      SetHasOrd(sets, k);
    }
  }

  lemma SetOrdsBelow(sets: seq<seq<Term>>)
    requires |DictOf(sets)| < TWO_31
    ensures Below(Flatten(SetOrds(sets)), |DictOf(sets)|)
  {
    hide Flatten, DictOf, SetOrds;
    forall i | 0 <= i < |SetOrds(sets)| ensures Below(SetOrds(sets)[i], |DictOf(sets)|) {
      SetOrdsAre(sets, i);
    }
    FlattenBelow(SetOrds(sets), |DictOf(sets)|);
  }

  lemma SetHasOrd(sets: seq<seq<Term>>, k: nat)
    requires |DictOf(sets)| < TWO_31 && k < |DictOf(sets)|
    ensures Among(Flatten(SetOrds(sets)), k)
  {
    hide Flatten, SortUnique, SetOrds, Less;
    var dict := DictOf(sets);
    SortUniqueIs(Flatten(sets));
    assert dict[k] in Flatten(sets);
    var i := FlattenHas(sets, dict[k]);
    SetOrdsAre(sets, i);
    SortUniqueIs(sets[i]);
    var o := SetOrds(sets)[i];
    assert dict[k] in Looked(o, dict);
    var j :| 0 <= j < |o| && Looked(o, dict)[j] == dict[k];
    OrdUnique(dict, k);
    OrdUnique(dict, o[j]);
    FlattenMembers(SetOrds(sets), i);
    assert o[j] in Flatten(SetOrds(sets));
  }

  lemma SetOrdsRemap(docs: seq<nat>, sets: seq<seq<Term>>, maxDoc: nat, at: nat, dvd: seq<byte>, remap: seq<i32>)
    requires |DictOf(sets)| < TWO_31 && |Flatten(SetOrds(sets))| < TWO_63 && |remap| == |DictOf(sets)|
    requires PlacedAt(dvd, at, EntryData(Flatten(SetOrds(sets)), docs, maxDoc))
    ensures Remaps(IntoPlan(EntryOf(Flatten(SetOrds(sets)), docs, maxDoc, at), dvd, maxDoc),
                   Flatten(SetOrds(sets)), remap, dvd)
  {
    hide EntryData, EntryOf, IntoPlan, DecodeValues, ApplyRemap, Mapped, DictOf, SetOrds, Flatten;
    var ords := Flatten(SetOrds(sets));
    SetOrdsCover(sets);
    if ords == [] {
      NoOrdsRemap(docs, maxDoc, at, dvd, remap);
    } else {
      OrdPlanRemaps(ords, |DictOf(sets)|, docs, maxDoc, at, dvd, remap);
    }
  }
}
