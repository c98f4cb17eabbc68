// What is pushed is what is read: a segment of a write session is encoded field by
// field, and the plans a reader makes of the file show the batches' columns, row by row.
module SegmentRead {
  import opened Bits
  import opened Wire
  import opened Bitmap
  import opened StatsPass
  import opened Lex
  import opened Numeric
  import opened Columns
  import opened TermsDict
  import opened ColBuffers
  import opened DvFile
  import opened WriteSession
  import NumericWrite
  import SortedTerms
  import SortedNumeric
  import BinaryValues

  type Codec = SortedTerms.Codec

  // ----- the fields of a segment's file --------------------------------------------------

  // Vector columns go to files of their own; the others keep their position as number.
  function FileFields(stored: seq<Stored>, n: nat): seq<Field>
    requires n <= |stored| <= TWO_31
  {
    if n == 0 then []
    else FileFields(stored, n - 1) + match stored[n - 1] case Doc(input) => [Field(n - 1, input)] case Flat(_, _) => []
  }

  // The sizes the encoders have room for.
  ghost predicate SizesFit(f: FieldInput, c: Codec) {
    match f
    case NumericField(_, _) => true
    case BinaryField(_, blobs) => FitsI32(blobs)
    case SortedField(_, terms) => Encodable(SortUnique(terms)) && |SortUnique(terms)| < TWO_31
    case SortedSetField(_, sets) =>
      Encodable(SortedTerms.DictOf(sets)) && |SortedTerms.DictOf(sets)| < TWO_31 && FitsI32(SortedTerms.SetOrds(sets))
    case SortedNumericField(_, lists) => |SortedNumeric.AllValues(lists)| < TWO_31
  }

  // Every list a session stores has something in it.
  lemma {:induction false} ListsFilled<T>(x: seq<Option<seq<T>>>)
    requires x == NonEmpty(x)
    ensures forall i :: 0 <= i < |Values(x)| ==> Values(x)[i] != []
    decreases |x|
  {
    if x != [] {
      var most := x[..|x| - 1];
      assert forall i :: 0 <= i < |most| ==> NonEmpty(x)[i] == x[i];
      assert most == NonEmpty(most);
      ListsFilled(most);
      assert x[|x| - 1] == NonEmpty(x)[|x| - 1];
    }
  }

  lemma PresentFits<T>(x: seq<Option<T>>)
    ensures Ascending(Present(x, 0)) && AllBelow(Present(x, 0), |x|) && |Present(x, 0)| == |Values(x)| <= |x|
  {
    PresentAscends(x, 0);
    PresentIs(x, 0);
    NumericWrite.AtMostMaxDoc(Present(x, 0), |x|);
  }

  // What a session stores is what the encoders take.
  lemma StoredValid(f: FieldInput, col: ColBuffers.Column, c: Codec)
    requires StoredAs(Doc(f), col) && col == Normal(col) && Rows(col) < TWO_31 && SizesFit(f, c) && Inverts(c.lz4)
    ensures ValidInput(f, Rows(col), c) && Storable(f)
  {
    hide Present, Values, Ascending, AllBelow, Encodable, FitsI32, SortUnique, NonEmpty, Inverts;
    match col
    case Ints(x) => PresentFits(x);
    case Texts(x) => PresentFits(x);
    case Blobs(x) => PresentFits(x);
    case IntLists(x) => PresentFits(x); ListsFilled(x);
    case TextLists(x) => PresentFits(x); ListsFilled(x);
    case Vectors(_) =>
  }

  // ----- what a reader sees ----------------------------------------------------------------

  predicate ShowsInts(r: Result<Numeric.Column>, x: seq<Option<i64>>) {
    match r
    case Err(_) => false
    case Ok(col) => |col.values| == |x| && forall d :: 0 <= d < |x| ==> Cell(col, d) == x[d]
  }

  predicate ShowsLists<T(==)>(r: Result<ListColumn<T>>, x: seq<Option<seq<T>>>) {
    match r
    case Err(_) => false
    case Ok(col) => |col.offsets| == |x| + 1 && forall d :: 0 <= d < |x| ==> Slice(col, d) == x[d]
  }

  ghost predicate ShowsTexts(r: Result<SortedTerms.DictColumn>, x: seq<Option<Term>>) {
    match r
    case Err(_) => false
    case Ok(col) => |col.keys.values| == |x| && forall d :: 0 <= d < |x| ==> TextAt(col, d, x[d])
  }

  predicate TextAt(col: SortedTerms.DictColumn, d: nat, t: Option<Term>) {
    match t
    case None => Cell(col.keys, d) == None
    case Some(term) => SortedTerms.KeyOf(col, d, term)
  }

  ghost predicate ShowsSets(r: Result<SortedTerms.SetColumn>, x: seq<Option<seq<Term>>>) {
    match r
    case Err(_) => false
    case Ok(col) => |col.keys.offsets| == |x| + 1 && forall d :: 0 <= d < |x| ==> SetAt(col, d, x[d])
  }

  ghost predicate SetAt(col: SortedTerms.SetColumn, d: nat, t: Option<seq<Term>>) {
    match t
    case None => Slice(col.keys, d) == None
    case Some(terms) => SortedTerms.SetOf(col, d, SortUnique(terms))
  }

  function OneOf<T>(x: seq<Option<seq<T>>>): (r: seq<Option<T>>)
    ensures |r| == |x|
  {
    seq<Option<T>>(|x|, d requires 0 <= d < |x| => FirstOf(x[d]))
  }

  function FirstOf<T>(x: Option<seq<T>>): Option<T> {
    match x case None => None case Some(l) => if |l| == 0 then None else Some(l[0])
  }

  function SortedRows(x: seq<Option<seq<i64>>>): (r: seq<Option<seq<i64>>>)
    ensures |r| == |x|
  {
    seq<Option<seq<i64>>>(|x|, d requires 0 <= d < |x| => SortedRow(x[d]))
  }

  function SortedRow(x: Option<seq<i64>>): Option<seq<i64>> {
    match x case None => None case Some(l) => Some(SortedNumeric.SortLongs(l))
  }

  // One number in every row that has any, or one term, however often.
  predicate SingleRows(x: seq<Option<seq<i64>>>) {
    forall d :: 0 <= d < |x| && x[d].Some? ==> |x[d].value| == 1
  }

  predicate SingleTextRows(x: seq<Option<seq<Term>>>) {
    forall d :: 0 <= d < |x| && x[d].Some? ==> x[d].value != [] && SortUnique(x[d].value) == [x[d].value[0]]
  }

  // The plan shows the column: numbers, strings and blobs as they are, lists of numbers
  // sorted, lists of terms sorted and without duplicates; null where there was none.
  ghost predicate Shows(plan: FieldPlan, col: ColBuffers.Column, dvd: seq<byte>, c: Codec) {
    match col
    case Ints(x) => plan.NumericFieldPlan? && ShowsInts(DecodeNumeric(plan.plan, dvd), x)
    case Blobs(x) => plan.BinaryFieldPlan? && ShowsLists(BinaryValues.Decode(plan.binary, dvd, c.line), x)
    case Texts(x) => plan.SortedFieldPlan? && !plan.isSet && ShowsTexts(SortedTerms.DecodeSorted(plan.sorted, dvd, c), x)
    case IntLists(x) =>
      plan.SortedNumericFieldPlan? &&
      (match plan.numbers
       case Many(v, a) => ShowsLists(SortedNumeric.DecodeMany(v, a, dvd, c.line), SortedRows(x))
       case Single(v) => SingleRows(x) && ShowsInts(DecodeNumeric(v, dvd), OneOf(x)))
    case TextLists(x) =>
      plan.SortedFieldPlan? && plan.isSet &&
      if plan.sorted.addresses.Some? then
        ShowsSets(SortedTerms.DecodeSet(plan.sorted, plan.sorted.addresses.value, dvd, c), x)
      else SingleTextRows(x) && ShowsTexts(SortedTerms.DecodeSorted(plan.sorted, dvd, c), OneOf(x))
    case Vectors(_) => false
  }

  // A row that is listed is listed at some place, with its value.
  lemma ListedAt<T>(docs: seq<nat>, values: seq<T>, x: seq<Option<T>>, d: nat) returns (i: nat)
    requires Lists(docs, values, x, 0) && d < |x| && x[d].Some?
    ensures i < |docs| == |values| && docs[i] == d && x[d] == Some(values[i])
  {
    assert 0 + d in docs;
    i :| 0 <= i < |docs| && docs[i] == d;
  }

  lemma NotListed<T>(docs: seq<nat>, values: seq<T>, x: seq<Option<T>>, d: nat)
    requires Lists(docs, values, x, 0) && d < |x| && x[d].None?
    ensures d !in docs
  {
    assert forall i :: 0 <= i < |docs| ==> docs[i] != d;
  }

  lemma IntsShown(r: Result<Numeric.Column>, docs: seq<nat>, values: seq<i64>, x: seq<Option<i64>>)
    requires IsColumn(r, docs, values, |x|) && Lists(docs, values, x, 0)
    ensures ShowsInts(r, x)
  {
    hide Cell, Lists;
    forall d: nat | d < |x| ensures Cell(r.value, d) == x[d] {
      if x[d].Some? {
        var i := ListedAt(docs, values, x, d);
      } else {
        NotListed(docs, values, x, d);
      }
    }
  }

  lemma ListsShown<T>(r: Result<ListColumn<T>>, docs: seq<nat>, lists: seq<seq<T>>, x: seq<Option<seq<T>>>)
    requires IsListColumn(r, docs, lists, |x|) && Lists(docs, lists, x, 0)
    ensures ShowsLists(r, x)
  {
    hide Slice, Lists;
    forall d: nat | d < |x| ensures Slice(r.value, d) == x[d] {
      if x[d].Some? {
        var i := ListedAt(docs, lists, x, d);
      } else {
        NotListed(docs, lists, x, d);
      }
    }
  }

  lemma TextsShown(r: Result<SortedTerms.DictColumn>, docs: seq<nat>, terms: seq<Term>, x: seq<Option<Term>>)
    requires Lists(docs, terms, x, 0)
    ensures SortedTerms.IsDictColumn(r, docs, terms, |x|) <==> ShowsTexts(r, x)
  {
    hide Cell, SortedTerms.KeyOf;
    if SortedTerms.IsDictColumn(r, docs, terms, |x|) {
      forall d: nat | d < |x| ensures TextAt(r.value, d, x[d]) {
        if x[d].Some? {
          var i := ListedAt(docs, terms, x, d);
        } else {
          NotListed(docs, terms, x, d);
        }
      }
    }
    if ShowsTexts(r, x) {
      forall i | 0 <= i < |docs| ensures SortedTerms.KeyOf(r.value, docs[i], terms[i]) {
        assert TextAt(r.value, docs[i], x[docs[i]]);
      }
      forall d: nat | d < |x| && d !in docs ensures Cell(r.value.keys, d) == None {
        assert TextAt(r.value, d, x[d]);
      }
    }
  }

  lemma SetsShown(r: Result<SortedTerms.SetColumn>, docs: seq<nat>, sets: seq<seq<Term>>, x: seq<Option<seq<Term>>>)
    requires Lists(docs, sets, x, 0)
    ensures SortedTerms.IsSetColumn(r, docs, sets, |x|) <==> ShowsSets(r, x)
  {
    hide Slice, SortedTerms.SetOf, SortUnique;
    if SortedTerms.IsSetColumn(r, docs, sets, |x|) {
      forall d: nat | d < |x| ensures SetAt(r.value, d, x[d]) {
        if x[d].Some? {
          var i := ListedAt(docs, sets, x, d);
        } else {
          NotListed(docs, sets, x, d);
        }
      }
    }
    if ShowsSets(r, x) {
      forall i | 0 <= i < |docs| ensures SortedTerms.SetOf(r.value, docs[i], SortUnique(sets[i])) {
        assert SetAt(r.value, docs[i], x[docs[i]]);
      }
      forall d: nat | d < |x| && d !in docs ensures Slice(r.value.keys, d) == None {
        assert SetAt(r.value, d, x[d]);
      }
    }
  }

  lemma SinglesListed(docs: seq<nat>, sets: seq<seq<Term>>, x: seq<Option<seq<Term>>>)
    requires Lists(docs, sets, x, 0)
    ensures SortedTerms.IsSingleSets(sets) <==> SingleTextRows(x)
  {
    hide SortUnique;
    if SortedTerms.IsSingleSets(sets) {
      forall d: nat | d < |x| && x[d].Some? ensures x[d].value != [] && SortUnique(x[d].value) == [x[d].value[0]] {
        var i := ListedAt(docs, sets, x, d);
      }
    }
    if SingleTextRows(x) {
      forall i | 0 <= i < |sets| ensures sets[i] != [] && SortUnique(sets[i]) == [sets[i][0]] {
        assert x[docs[i]] == Some(sets[i]);
      }
    }
  }

  lemma OnesListed(docs: seq<nat>, lists: seq<seq<i64>>, x: seq<Option<seq<i64>>>)
    requires Lists(docs, lists, x, 0) && forall i :: 0 <= i < |lists| ==> |lists[i]| == 1
    ensures SingleRows(x)
  {
    forall d: nat | d < |x| && x[d].Some? ensures |x[d].value| == 1 {
      var i := ListedAt(docs, lists, x, d);
    }
  }

  // Sorting each list, or taking its first element, row by row or list by list.
  lemma SortedListed(docs: seq<nat>, lists: seq<seq<i64>>, x: seq<Option<seq<i64>>>)
    requires Lists(docs, lists, x, 0)
    ensures Lists(docs, SortedNumeric.SortEach(lists), SortedRows(x), 0)
  {
  }

  lemma FirstListed<T>(docs: seq<nat>, lists: seq<seq<T>>, firsts: seq<T>, x: seq<Option<seq<T>>>)
    requires Lists(docs, lists, x, 0) && |firsts| == |lists|
    requires forall i :: 0 <= i < |lists| ==> |lists[i]| > 0 && firsts[i] == lists[i][0]
    ensures Lists(docs, firsts, OneOf(x), 0)
  {
    forall d: nat | d < |x| && OneOf(x)[d].Some? ensures 0 + d in docs {
      assert x[d].Some?;
    }
  }

  lemma SinglesFirst(lists: seq<seq<i64>>)
    requires forall i :: 0 <= i < |lists| ==> |lists[i]| == 1
    ensures |SortedNumeric.AllValues(lists)| == |lists|
    ensures forall i :: 0 <= i < |lists| ==> SortedNumeric.AllValues(lists)[i] == lists[i][0]
  {
    hide Flatten;
    var s := SortedNumeric.SortEach(lists);
    forall i: nat | i < |lists| ensures s[i] == lists[i] {
      assert lists[i][1..] == [];
    }
    forall i: nat | i < |lists| ensures |Flatten(s)| == |lists| && Flatten(s)[i] == lists[i][0] {
      SortedTerms.FlattenSingles(s, i);
    }
    if lists == [] {
      assert s == [];
      FlattenNone<i64>();
    } else {
      assert s[0] == lists[0];
    }
  }

  lemma IntListsShown(plan: SortedNumeric.NumericPlan, docs: seq<nat>, lists: seq<seq<i64>>, x: seq<Option<seq<i64>>>,
                      dvd: seq<byte>, c: Codec)
    requires SortedNumeric.Decodes(plan, docs, lists, |x|, dvd, c.line) && Lists(docs, lists, x, 0)
    ensures Shows(SortedNumericFieldPlan(plan), IntLists(x), dvd, c)
  {
    hide Lists, IsListColumn, IsColumn, ShowsInts, ShowsLists, DecodeNumeric, SortedNumeric.DecodeMany, SortedNumeric.AllValues,
         SortedNumeric.SortEach, SortedRows, OneOf;
    match plan
    case Many(v, a) =>
      SortedListed(docs, lists, x);
      ListsShown(SortedNumeric.DecodeMany(v, a, dvd, c.line), docs, SortedNumeric.SortEach(lists), SortedRows(x));
    case Single(v) =>
      SinglesFirst(lists);
      OnesListed(docs, lists, x);
      FirstListed(docs, lists, SortedNumeric.AllValues(lists), x);
      IntsShown(DecodeNumeric(v, dvd), docs, SortedNumeric.AllValues(lists), OneOf(x));
  }

  lemma TextListsShown(plan: FieldPlan, docs: seq<nat>, sets: seq<seq<Term>>, x: seq<Option<seq<Term>>>, dvd: seq<byte>, c: Codec)
    requires Lists(docs, sets, x, 0)
    ensures Decodes(plan, SortedSetField(docs, sets), |x|, dvd, c) <==> Shows(plan, TextLists(x), dvd, c)
  {
    hide Lists, SortedTerms.IsSetColumn, SortedTerms.IsDictColumn, ShowsSets, ShowsTexts, SortedTerms.DecodeSet,
         SortedTerms.DecodeSorted, SortUnique, OneOf, SingleTextRows;
    if plan.SortedFieldPlan? && plan.isSet {
      if plan.sorted.addresses.Some? {
        SetsShown(SortedTerms.DecodeSet(plan.sorted, plan.sorted.addresses.value, dvd, c), docs, sets, x);
      } else {
        SinglesListed(docs, sets, x);
        if SingleTextRows(x) {
          FirstListed(docs, sets, SortedTerms.Firsts(sets), x);
          TextsShown(SortedTerms.DecodeSorted(plan.sorted, dvd, c), docs, SortedTerms.Firsts(sets), OneOf(x));
        }
      }
    }
  }

  // A plan that decodes to a stored field shows the column it was stored from, and for
  // columns of terms the other way round.
  lemma ColumnShown(plan: FieldPlan, f: FieldInput, col: ColBuffers.Column, dvd: seq<byte>, c: Codec)
    requires StoredAs(Doc(f), col)
    requires Decodes(plan, f, Rows(col), dvd, c) <==> FieldFits(f)
    ensures Shows(plan, col, dvd, c) <==> FieldFits(f)
  {
    hide Present, Values, Lists, IsColumn, IsListColumn, SortedTerms.IsDictColumn, SortedTerms.DecodesSet, SortedNumeric.Decodes,
         ShowsInts, ShowsLists, ShowsTexts, ShowsSets, DecodeNumeric, BinaryValues.Decode, SortedTerms.DecodeSorted,
         SortedTerms.DecodeSet, SortedNumeric.DecodeMany, SortedRows, OneOf, SingleTextRows, SingleRows, OffsetsFit, SortUnique;
    match col
    case Ints(x) => PresentIs(x, 0); IntsShown(DecodeNumeric(plan.plan, dvd), Present(x, 0), Values(x), x);
    case Blobs(x) => PresentIs(x, 0); ListsShown(BinaryValues.Decode(plan.binary, dvd, c.line), Present(x, 0), Values(x), x);
    case Texts(x) =>
      PresentIs(x, 0);
      if plan.SortedFieldPlan? {
        TextsShown(SortedTerms.DecodeSorted(plan.sorted, dvd, c), Present(x, 0), Values(x), x);
      }
    case IntLists(x) => PresentIs(x, 0); IntListsShown(plan.numbers, Present(x, 0), Values(x), x, dvd, c);
    case TextLists(x) => PresentIs(x, 0); TextListsShown(plan, Present(x, 0), Values(x), x, dvd, c);
    case Vectors(_) =>
  }

  // ----- a whole segment -----------------------------------------------------------------------

  // Where field i is among the fields of the file.
  function Place(stored: seq<Stored>, i: nat): nat
    requires i <= |stored| <= TWO_31
  {
    |FileFields(stored, i)|
  }

  lemma {:induction false} PlaceOf(stored: seq<Stored>, n: nat, i: nat)
    requires i < n <= |stored| <= TWO_31 && stored[i].Doc?
    ensures Place(stored, i) < |FileFields(stored, n)|
    ensures FileFields(stored, n)[Place(stored, i)] == Field(i, stored[i].input)
    decreases n
  {
    if i < n - 1 {
      PlaceOf(stored, n - 1, i);
    }
  }

  // Every field of the file is one of the stored ones.
  lemma {:induction false} FromStored(stored: seq<Stored>, n: nat, p: nat) returns (i: nat)
    requires n <= |stored| <= TWO_31 && p < |FileFields(stored, n)|
    ensures i < n && stored[i].Doc? && FileFields(stored, n)[p] == Field(i, stored[i].input)
    decreases n
  {
    if p < |FileFields(stored, n - 1)| {
      i := FromStored(stored, n - 1, p);
    } else {
      i := n - 1;
    }
  }

  ghost predicate Roomy(seg: Segment, c: Codec) {
    && seg.maxDoc < TWO_31 && |seg.fields| <= TWO_31
    && forall i :: 0 <= i < |seg.fields| && seg.fields[i].Doc? ==> SizesFit(seg.fields[i].input, c)
  }

  lemma {:induction false} MergedNormal(spec: FieldSpec, batches: seq<Batch>)
    requires AllAccept(spec, batches)
    ensures Normal(Merged(spec, batches)) == Merged(spec, batches)
    decreases |batches|
  {
    if batches != [] {
      var most, last := batches[..|batches| - 1], batches[|batches| - 1];
      MergedNormal(spec, most);
      MergedRows(spec, most);
      NormalKind(spec, last);
      NormalJoined(Merged(spec, most), ColumnOf(spec, last), spec.coercion);
    }
  }

  lemma NormalJoined(a: ColBuffers.Column, b: ColBuffers.Column, k: Coercion)
    requires OfKind(a, k) && OfKind(b, k) && Normal(a) == a && Normal(b) == b
    ensures Normal(Joined(a, b)) == Joined(a, b)
  {
    match a
    case IntLists(x) => FilledJoined(x, b.intLists);
    case TextLists(x) => FilledJoined(x, b.textLists);
    case _ =>
  }

  lemma FilledJoined<T>(a: seq<Option<seq<T>>>, b: seq<Option<seq<T>>>)
    requires NonEmpty(a) == a && NonEmpty(b) == b
    ensures NonEmpty(a + b) == a + b
  {
    forall i | 0 <= i < |a + b| ensures NonEmpty(a + b)[i] == (a + b)[i] {
      assert i < |a| ==> NonEmpty(a)[i] == a[i];
      assert i >= |a| ==> NonEmpty(b)[i - |a|] == b[i - |a|];
    }
  }

  ghost predicate FieldsValid(fields: seq<Field>, maxDoc: nat, c: Codec) {
    forall p :: 0 <= p < |fields| ==>
      ValidInput(fields[p].input, maxDoc, c) && Storable(fields[p].input) && fields[p].number >= 0
  }

  lemma SegmentValid(seg: Segment, batches: seq<Batch>, fields: seq<FieldSpec>, c: Codec)
    requires SegmentOf(seg, batches, fields) && Roomy(seg, c) && Inverts(c.lz4)
    ensures FieldsValid(FileFields(seg.fields, |seg.fields|), seg.maxDoc, c)
  {
    hide ValidInput, Storable, SizesFit, FileFields, Merged, StoredAs, Inverts, AllAccept;
    var file := FileFields(seg.fields, |seg.fields|);
    forall p | 0 <= p < |file|
      ensures ValidInput(file[p].input, seg.maxDoc, c) && Storable(file[p].input) && file[p].number >= 0
    {
      var i := FromStored(seg.fields, |seg.fields|, p);
      MergedNormal(fields[i], batches);
      MergedRows(fields[i], batches);
      StoredValid(file[p].input, Merged(fields[i], batches), c);
    }
  }

  // All doc-values fields of a segment in one file: planned and decoded, a field shows
  // the column its batches brought exactly when its distinct terms fit 32-bit offsets.
  lemma SegmentReadsBack(seg: Segment, batches: seq<Batch>, fields: seq<FieldSpec>, c: Codec, known: map<i32, DvField>,
                         dvdHeader: seq<byte>, dvmFooter: seq<byte>, dvdFooter: seq<byte>, i: nat)
    requires SegmentOf(seg, batches, fields) && Roomy(seg, c) && Inverts(c.lz4) && i < |fields| && seg.fields[i].Doc?
    requires var file := FileFields(seg.fields, |seg.fields|);
             && AllListed(known, file) && AllStorable(file)
             && |dvdHeader + (FileData(file, seg.maxDoc, c) + dvdFooter)| < TWO_63
    ensures var file := FileFields(seg.fields, |seg.fields|);
            var dvd := dvdHeader + (FileData(file, seg.maxDoc, c) + dvdFooter);
            var dvm := FileMeta(file, seg.maxDoc, c, |dvdHeader|) + (LeI32(-1) + dvmFooter);
            Finds(PlanEntries(dvm, dvd, known, seg.maxDoc, |dvm|), Place(seg.fields, i), i) &&
            (ShowsField(PlanEntries(dvm, dvd, known, seg.maxDoc, |dvm|), Place(seg.fields, i), Merged(fields[i], batches), dvd, c)
             <==> FieldFits(seg.fields[i].input))
  {
    hide FieldFits, FileFields, FileData, FileMeta, PlanEntries, LeI32, Shows, Decodes, StoredAs, Merged, ValidInput, Storable, Inverts, SizesFit,
         AllAccept, Rows;
    var file := FileFields(seg.fields, |seg.fields|);
    SegmentValid(seg, batches, fields, c);
    FileRoundTrip(file, known, seg.maxDoc, c, dvdHeader, dvmFooter, dvdFooter);
    PlaceOf(seg.fields, |seg.fields|, i);
    MergedRows(fields[i], batches);
    var dvd := dvdHeader + (FileData(file, seg.maxDoc, c) + dvdFooter);
    var dvm := FileMeta(file, seg.maxDoc, c, |dvdHeader|) + (LeI32(-1) + dvmFooter);
    var plans := PlanEntries(dvm, dvd, known, seg.maxDoc, |dvm|).value.0;
    ColumnShown(plans[Place(seg.fields, i)].1, seg.fields[i].input, Merged(fields[i], batches), dvd, c);
  }

  // The plan at place p is that of the field with this number.
  predicate Finds(r: Parsed<seq<(i32, FieldPlan)>>, p: nat, number: nat) {
    match r
    case Err(_) => false
    case Ok(x) => p < |x.0| && x.0[p].0 == number
  }

  ghost predicate ShowsField(r: Parsed<seq<(i32, FieldPlan)>>, p: nat, col: ColBuffers.Column, dvd: seq<byte>, c: Codec) {
    match r
    case Err(_) => false
    case Ok(x) => p < |x.0| && Shows(x.0[p].1, col, dvd, c)
  }
}
