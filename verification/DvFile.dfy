// Whole doc-values files: fields of all five types appended one after the other
// to a metadata stream and a data file, and the planner that walks the metadata.
//
// Main result: FileRoundTrip -- the planner stops exactly at the sentinel, and
// every field still decodes to its own input from the finished data file, except
// exactly those whose terms have 2^31 bytes or more.
module DvFile {
  import opened Bits
  import opened Wire
  import opened Bitmap
  import opened Numeric
  import opened NumericWrite
  import opened Lex
  import opened SortedTerms
  import SortedNumeric
  import BinaryValues
  import Columns

  datatype FieldInput =
    | NumericField(docs: seq<nat>, values: seq<i64>)
    | BinaryField(docs: seq<nat>, blobs: seq<seq<byte>>)
    | SortedField(docs: seq<nat>, terms: seq<Term>)
    | SortedSetField(docs: seq<nat>, sets: seq<seq<Term>>)
    | SortedNumericField(docs: seq<nat>, lists: seq<seq<i64>>)

  datatype Field = Field(number: i32, input: FieldInput)

  function TypeByte(f: FieldInput): byte {
    match f
    case NumericField(_, _) => 0
    case BinaryField(_, _) => 1
    case SortedField(_, _) => 2
    case SortedSetField(_, _) => 3
    case SortedNumericField(_, _) => 4
  }

  // What each encoder takes: ascending docs below max_doc, one entry per doc, no
  // doc with an empty list, sizes within the format's 32-bit fields.
  ghost predicate ValidInput(f: FieldInput, maxDoc: nat, c: Codec) {
    match f
    case NumericField(docs, values) => Ascending(docs) && AllBelow(docs, maxDoc) && |docs| == |values|
    case BinaryField(docs, blobs) => BinaryValues.Valid(docs, blobs, maxDoc)
    case SortedField(docs, terms) => ValidTerms(docs, |terms|, SortUnique(terms), maxDoc, c)
    case SortedSetField(docs, sets) => ValidSets(docs, sets, maxDoc, c)
    case SortedNumericField(docs, lists) => SortedNumeric.Valid(docs, lists, maxDoc)
  }

  // Few enough docs and terms for the counts the encoders store.
  predicate Storable(f: FieldInput) {
    match f
    case NumericField(_, _) => true
    case BinaryField(_, _) => true
    case SortedField(_, terms) => |SortUnique(terms)| < TWO_31
    case SortedSetField(docs, sets) => |DictOf(sets)| < TWO_31 && |docs| < TWO_31
    case SortedNumericField(docs, _) => |docs| < TWO_31
  }

  ghost function Body(f: FieldInput, maxDoc: nat, c: Codec, at: nat): seq<byte>
    requires Storable(f)
  {
    match f
    case NumericField(docs, values) => EntryBytes(EntryOf(values, docs, maxDoc, at))
    case BinaryField(docs, blobs) => BinaryValues.Body(docs, blobs, maxDoc, c.line, at)
    case SortedField(docs, terms) => SortedBody(docs, terms, maxDoc, c, at)
    case SortedSetField(docs, sets) => SetBody(docs, sets, maxDoc, c, at)
    case SortedNumericField(docs, lists) => SortedNumeric.Body(docs, lists, maxDoc, c.line, at)
  }

  ghost function Data(f: FieldInput, maxDoc: nat, c: Codec): seq<byte>
    requires Storable(f)
  {
    match f
    case NumericField(docs, values) => EntryData(values, docs, maxDoc)
    case BinaryField(docs, blobs) => BinaryValues.Data(docs, blobs, maxDoc, c.line)
    case SortedField(docs, terms) => SortedData(docs, terms, maxDoc, c)
    case SortedSetField(docs, sets) => SetData(docs, sets, maxDoc, c)
    case SortedNumericField(docs, lists) => SortedNumeric.Data(docs, lists, maxDoc, c.line)
  }

  ghost function FieldMeta(f: Field, maxDoc: nat, c: Codec, at: nat): seq<byte>
    requires Storable(f.input)
  {
    (LeI32(f.number) + [TypeByte(f.input)]) + Body(f.input, maxDoc, c, at)
  }

  ghost predicate AllStorable(fields: seq<Field>) {
    forall i :: 0 <= i < |fields| ==> Storable(fields[i].input)
  }

  // The metadata of the fields; their data starts at `at` of the data file.
  ghost function FileMeta(fields: seq<Field>, maxDoc: nat, c: Codec, at: nat): seq<byte>
    requires AllStorable(fields)
    decreases |fields|
  {
    if fields == [] then []
    else FieldMeta(fields[0], maxDoc, c, at) + FileMeta(fields[1..], maxDoc, c, at + |Data(fields[0].input, maxDoc, c)|)
  }

  ghost function FileData(fields: seq<Field>, maxDoc: nat, c: Codec): seq<byte>
    requires AllStorable(fields)
    decreases |fields|
  {
    if fields == [] then [] else Data(fields[0].input, maxDoc, c) + FileData(fields[1..], maxDoc, c)
  }

  // ----- planning -----------------------------------------------------------------------

  datatype DvKind = NumericKind | BinaryKind | SortedKind | SortedNumericKind | SortedSetKind

  // What the field inventory records of a field.
  datatype DvField = DvField(kind: DvKind, hasSkipIndex: bool)

  datatype FieldPlan =
    | NumericFieldPlan(plan: DecodePlan)
    | BinaryFieldPlan(binary: BinaryValues.BinaryPlan)
    | SortedFieldPlan(sorted: SortedPlan, isSet: bool)
    | SortedNumericFieldPlan(numbers: SortedNumeric.NumericPlan)

  function ReadNumeric(rest: seq<byte>, dvd: seq<byte>, maxDoc: nat): Parsed<DecodePlan> {
    var (e, rest1) :- ReadEntry(rest);
    var plan :- IntoPlan(e, dvd, maxDoc);
    Ok((plan, rest1))
  }

  function ReadBody(typeByte: byte, kind: DvKind, rest: seq<byte>, dvd: seq<byte>, maxDoc: nat): Parsed<FieldPlan> {
    if typeByte == 0 then
      if kind != NumericKind then Err(Corrupt)
      else
        var (plan, rest1) :- ReadNumeric(rest, dvd, maxDoc);
        Ok((NumericFieldPlan(plan), rest1))
    else if typeByte == 1 then
      var (plan, rest1) :- BinaryValues.Read(rest, maxDoc);
      Ok((BinaryFieldPlan(plan), rest1))
    else if typeByte == 2 then
      var (plan, rest1) :- ReadSorted(rest, dvd, maxDoc);
      Ok((SortedFieldPlan(plan, false), rest1))
    else if typeByte == 3 then
      var (plan, rest1) :- ReadSet(rest, dvd, maxDoc);
      Ok((SortedFieldPlan(plan, true), rest1))
    else if typeByte == 4 then
      var (plan, rest1) :- SortedNumeric.Read(rest, dvd, maxDoc);
      Ok((SortedNumericFieldPlan(plan), rest1))
    else Err(Corrupt)
  }

  const SKIP_INDEX_LENGTH: nat := 40

  // One entry after its field number.
  function ReadField(field: DvField, rest: seq<byte>, dvd: seq<byte>, maxDoc: nat): Parsed<FieldPlan> {
    var (typeByte, rest1) :- ReadU8(rest);
    var (_, rest2) :- TakeBytes(rest1, if field.hasSkipIndex then SKIP_INDEX_LENGTH else 0);
    ReadBody(typeByte, field.kind, rest2, dvd, maxDoc)
  }

  // Entries up to the sentinel; each entry takes at least the four bytes of its
  // number, so `limit` entries are enough for `limit` bytes.
  function PlanEntries(rest: seq<byte>, dvd: seq<byte>, known: map<i32, DvField>, maxDoc: nat, limit: nat):
    Parsed<seq<(i32, FieldPlan)>>
    decreases limit
  {
    var (number, rest1) :- ReadI32(rest);
    if number == -1 then Ok(([], rest1))
    else if number !in known || limit == 0 then Err(Corrupt)
    else
      var (plan, rest2) :- ReadField(known[number], rest1, dvd, maxDoc);
      var (plans, rest3) :- PlanEntries(rest2, dvd, known, maxDoc, limit - 1);
      Ok(([(number, plan)] + plans, rest3))
  }

  // ----- what a plan means ----------------------------------------------------------------

  // The plan decodes to the field's input.
  ghost predicate Decodes(plan: FieldPlan, f: FieldInput, maxDoc: nat, dvd: seq<byte>, c: Codec) {
    match f
    case NumericField(docs, values) =>
      plan.NumericFieldPlan? && IsColumn(DecodeNumeric(plan.plan, dvd), docs, values, maxDoc)
    case BinaryField(docs, blobs) =>
      plan.BinaryFieldPlan? && Columns.IsListColumn(BinaryValues.Decode(plan.binary, dvd, c.line), docs, blobs, maxDoc)
    case SortedField(docs, terms) =>
      plan.SortedFieldPlan? && !plan.isSet && IsDictColumn(DecodeSorted(plan.sorted, dvd, c), docs, terms, maxDoc)
    case SortedSetField(docs, sets) =>
      plan.SortedFieldPlan? && plan.isSet && DecodesSet(plan.sorted, docs, sets, maxDoc, c, dvd)
    case SortedNumericField(docs, lists) =>
      plan.SortedNumericFieldPlan? && SortedNumeric.Decodes(plan.numbers, docs, lists, maxDoc, dvd, c.line)
  }

  // A dictionary's offsets are 32-bit: its terms must have fewer than 2^31 bytes.
  predicate FieldFits(f: FieldInput) {
    match f
    case NumericField(_, _) => true
    case BinaryField(_, _) => true
    case SortedField(_, terms) => OffsetsFit(SortUnique(terms))
    case SortedSetField(_, sets) => OffsetsFit(DictOf(sets))
    case SortedNumericField(_, _) => true
  }

  // Reading an entry leaves `rest` and gives a plan that decodes to the field exactly
  // when its terms fit.
  ghost predicate PlansTo(r: Parsed<FieldPlan>, f: FieldInput, maxDoc: nat, dvd: seq<byte>, c: Codec, rest: seq<byte>) {
    match r
    case Ok(p) => p.1 == rest && (Decodes(p.0, f, maxDoc, dvd, c) <==> FieldFits(f))
    case Err(_) => false
  }

  function KindOf(f: FieldInput): DvKind {
    match f
    case NumericField(_, _) => NumericKind
    case BinaryField(_, _) => BinaryKind
    case SortedField(_, _) => SortedKind
    case SortedSetField(_, _) => SortedSetKind
    case SortedNumericField(_, _) => SortedNumericKind
  }

  lemma NumericPlans(docs: seq<nat>, values: seq<i64>, maxDoc: nat, c: Codec, at: nat, dvd: seq<byte>, rest: seq<byte>)
    requires Ascending(docs) && AllBelow(docs, maxDoc) && maxDoc <= TWO_31 && |docs| == |values|
    requires PlacedAt(dvd, at, EntryData(values, docs, maxDoc))
    ensures PlansTo(ReadBody(0, NumericKind, EntryBytes(EntryOf(values, docs, maxDoc, at)) + rest, dvd, maxDoc),
                    NumericField(docs, values), maxDoc, dvd, c, rest)
  {
    hide EntryBytes, ReadEntry, EntryOf, EntryData, IntoPlan, DecodeNumeric, IsColumn, ReadSorted, ReadSet, SortedNumeric.Read, BinaryValues.Read;
    NumericRoundTrip(values, docs, maxDoc, at, dvd, rest);
  }

  lemma BinaryPlans(docs: seq<nat>, blobs: seq<seq<byte>>, maxDoc: nat, c: Codec, at: nat, dvd: seq<byte>, rest: seq<byte>)
    requires BinaryValues.Valid(docs, blobs, maxDoc) && PlacedAt(dvd, at, BinaryValues.Data(docs, blobs, maxDoc, c.line))
    ensures PlansTo(ReadBody(1, BinaryKind, BinaryValues.Body(docs, blobs, maxDoc, c.line, at) + rest, dvd, maxDoc),
                    BinaryField(docs, blobs), maxDoc, dvd, c, rest)
  {
    hide BinaryValues.Body, BinaryValues.Read, BinaryValues.Decode, BinaryValues.Data, Columns.IsListColumn, ReadNumeric, ReadSorted, ReadSet, SortedNumeric.Read;
    BinaryValues.BinaryRoundTrip(docs, blobs, maxDoc, c.line, at, dvd, rest);
  }

  lemma SortedPlans(docs: seq<nat>, terms: seq<Term>, maxDoc: nat, c: Codec, at: nat, dvd: seq<byte>, rest: seq<byte>)
    requires ValidTerms(docs, |terms|, SortUnique(terms), maxDoc, c) && PlacedAt(dvd, at, SortedData(docs, terms, maxDoc, c))
    ensures PlansTo(ReadBody(2, SortedKind, SortedBody(docs, terms, maxDoc, c, at) + rest, dvd, maxDoc),
                    SortedField(docs, terms), maxDoc, dvd, c, rest)
  {
    hide SortedBody, SortedData, ReadSorted, DecodeSorted, IsDictColumn, ReadNumeric, ReadSet, SortedNumeric.Read, BinaryValues.Read, SortUnique;
    SortedRoundTrip(docs, terms, maxDoc, c, at, dvd, rest);
  }

  lemma SetPlans(docs: seq<nat>, sets: seq<seq<Term>>, maxDoc: nat, c: Codec, at: nat, dvd: seq<byte>, rest: seq<byte>)
    requires ValidSets(docs, sets, maxDoc, c) && PlacedAt(dvd, at, SetData(docs, sets, maxDoc, c)) && |docs| < TWO_31
    ensures PlansTo(ReadBody(3, SortedSetKind, SetBody(docs, sets, maxDoc, c, at) + rest, dvd, maxDoc),
                    SortedSetField(docs, sets), maxDoc, dvd, c, rest)
  {
    hide SetBody, SetData, ReadSet, DecodeSorted, DecodeSet, IsDictColumn, IsSetColumn, ReadNumeric, ReadSorted, SortedNumeric.Read, BinaryValues.Read, IsSingleSets;
    SetRoundTrip(docs, sets, maxDoc, c, at, dvd, rest);
  }

  lemma SortedNumericPlans(docs: seq<nat>, lists: seq<seq<i64>>, maxDoc: nat, c: Codec, at: nat, dvd: seq<byte>, rest: seq<byte>)
    requires SortedNumeric.Valid(docs, lists, maxDoc) && |docs| < TWO_31
    requires PlacedAt(dvd, at, SortedNumeric.Data(docs, lists, maxDoc, c.line))
    ensures PlansTo(ReadBody(4, SortedNumericKind, SortedNumeric.Body(docs, lists, maxDoc, c.line, at) + rest, dvd, maxDoc),
                    SortedNumericField(docs, lists), maxDoc, dvd, c, rest)
  {
    hide SortedNumeric.Body, SortedNumeric.Data, SortedNumeric.Read, SortedNumeric.Decodes, ReadNumeric, ReadSorted, ReadSet, BinaryValues.Read;
    SortedNumeric.SortedNumericRoundTrip(docs, lists, maxDoc, c.line, at, dvd, rest);
  }

  lemma BodyPlans(f: FieldInput, maxDoc: nat, c: Codec, at: nat, dvd: seq<byte>, rest: seq<byte>)
    requires ValidInput(f, maxDoc, c) && Storable(f) && maxDoc < TWO_31 && PlacedAt(dvd, at, Data(f, maxDoc, c))
    ensures PlansTo(ReadBody(TypeByte(f), KindOf(f), Body(f, maxDoc, c, at) + rest, dvd, maxDoc), f, maxDoc, dvd, c, rest)
  {
    hide ReadBody, Decodes, EntryData, EntryOf, EntryBytes, BinaryValues.Body, BinaryValues.Data, SortedBody, SortedData, SetBody, SetData,
         SortedNumeric.Body, SortedNumeric.Data, ValidTerms, ValidSets, BinaryValues.Valid, SortedNumeric.Valid, SortUnique, DictOf;
    match f
    case NumericField(docs, values) => NumericPlans(docs, values, maxDoc, c, at, dvd, rest);
    case BinaryField(docs, blobs) => BinaryPlans(docs, blobs, maxDoc, c, at, dvd, rest);
    case SortedField(docs, terms) => SortedPlans(docs, terms, maxDoc, c, at, dvd, rest);
    case SortedSetField(docs, sets) => SetPlans(docs, sets, maxDoc, c, at, dvd, rest);
    case SortedNumericField(docs, lists) => SortedNumericPlans(docs, lists, maxDoc, c, at, dvd, rest);
  }

  // ----- the whole file ---------------------------------------------------------------------

  ghost predicate Listed(known: map<i32, DvField>, f: Field) {
    f.number in known && known[f.number] == DvField(KindOf(f.input), false)
  }

  ghost predicate AllListed(known: map<i32, DvField>, fields: seq<Field>) {
    forall i :: 0 <= i < |fields| ==> Listed(known, fields[i])
  }

  ghost predicate ValidFields(fields: seq<Field>, known: map<i32, DvField>, maxDoc: nat, c: Codec) {
    forall i :: 0 <= i < |fields| ==>
      ValidInput(fields[i].input, maxDoc, c) && Storable(fields[i].input) && fields[i].number >= 0 && Listed(known, fields[i])
  }

  // The plans of the fields, in order, each decoding exactly when its terms fit.
  ghost predicate AllDecode(plans: seq<(i32, FieldPlan)>, fields: seq<Field>, maxDoc: nat, dvd: seq<byte>, c: Codec) {
    |plans| == |fields| &&
    forall i :: 0 <= i < |fields| ==>
      plans[i].0 == fields[i].number && (Decodes(plans[i].1, fields[i].input, maxDoc, dvd, c) <==> FieldFits(fields[i].input))
  }

  ghost predicate PlansFile(r: Parsed<seq<(i32, FieldPlan)>>, fields: seq<Field>, maxDoc: nat, dvd: seq<byte>, c: Codec,
                            rest: seq<byte>)
  {
    match r
    case Ok(p) => p.1 == rest && AllDecode(p.0, fields, maxDoc, dvd, c)
    case Err(_) => false
  }

  lemma FieldRead(f: Field, known: map<i32, DvField>, maxDoc: nat, c: Codec, at: nat, dvd: seq<byte>, rest: seq<byte>)
    requires ValidInput(f.input, maxDoc, c) && Storable(f.input) && maxDoc < TWO_31 && Listed(known, f)
    requires PlacedAt(dvd, at, Data(f.input, maxDoc, c))
    ensures var body := [TypeByte(f.input)] + (Body(f.input, maxDoc, c, at) + rest);
            && Yields(ReadI32(FieldMeta(f, maxDoc, c, at) + rest), f.number, body)
            && PlansTo(ReadField(known[f.number], body, dvd, maxDoc), f.input, maxDoc, dvd, c, rest)
  {
    hide ReadBody, Decodes, Body, Data, LeI32, ReadI32, ValidInput, TypeByte;
    var body := Body(f.input, maxDoc, c, at);
    Assoc(LeI32(f.number) + [TypeByte(f.input)], body, rest);
    Assoc(LeI32(f.number), [TypeByte(f.input)], body + rest);
    I32RoundTrip(f.number, [TypeByte(f.input)] + (body + rest));
    assert ([TypeByte(f.input)] + (body + rest))[1..] == body + rest;
    assert (body + rest)[0..] == body + rest;
    BodyPlans(f.input, maxDoc, c, at, dvd, rest);
  }

  lemma EntryStep(f: Field, fields: seq<Field>, known: map<i32, DvField>, maxDoc: nat, c: Codec, dvd: seq<byte>, input: seq<byte>,
                  body: seq<byte>, rest: seq<byte>, end: seq<byte>, limit: nat)
    requires f.number >= 0 && Listed(known, f)
    requires Yields(ReadI32(input), f.number, body)
    requires PlansTo(ReadField(known[f.number], body, dvd, maxDoc), f.input, maxDoc, dvd, c, rest)
    requires PlansFile(PlanEntries(rest, dvd, known, maxDoc, limit), fields, maxDoc, dvd, c, end)
    ensures PlansFile(PlanEntries(input, dvd, known, maxDoc, limit + 1), [f] + fields, maxDoc, dvd, c, end)
  {
    hide ReadI32, ReadField, Decodes;
  }

  lemma SentinelRead(dvd: seq<byte>, known: map<i32, DvField>, maxDoc: nat, c: Codec, footer: seq<byte>, limit: nat)
    ensures PlansFile(PlanEntries(LeI32(-1) + footer, dvd, known, maxDoc, limit), [], maxDoc, dvd, c, footer)
  {
    hide LeI32, ReadI32, ReadField;
    I32RoundTrip(-1, footer);
  }

  lemma {:induction false} FilePlans(fields: seq<Field>, known: map<i32, DvField>, maxDoc: nat, c: Codec, at: nat, dvd: seq<byte>,
                                     footer: seq<byte>, limit: nat)
    requires ValidFields(fields, known, maxDoc, c) && AllStorable(fields) && maxDoc < TWO_31 && limit >= |fields|
    requires PlacedAt(dvd, at, FileData(fields, maxDoc, c))
    ensures PlansFile(PlanEntries(FileMeta(fields, maxDoc, c, at) + (LeI32(-1) + footer), dvd, known, maxDoc, limit),
                      fields, maxDoc, dvd, c, footer)
    decreases |fields|
  {
    hide FieldMeta, Data, FileMeta, FileData, LeI32, PlanEntries, ValidInput, Storable, Listed, PlansFile, ValidFields, AllStorable, PlacedAt;
    if fields == [] {
      FileEnds(known, maxDoc, c, at, dvd, footer, limit);
    } else {
      FieldsTail(fields, known, maxDoc, c);
      var d := Data(fields[0].input, maxDoc, c);
      FieldPlaced(fields, maxDoc, c, at, dvd);
      FilePlans(fields[1..], known, maxDoc, c, at + |d|, dvd, footer, limit - 1);
      FileStep(fields, known, maxDoc, c, at, dvd, footer, limit);
    }
  }

  lemma FileEnds(known: map<i32, DvField>, maxDoc: nat, c: Codec, at: nat, dvd: seq<byte>, footer: seq<byte>, limit: nat)
    ensures PlansFile(PlanEntries(FileMeta([], maxDoc, c, at) + (LeI32(-1) + footer), dvd, known, maxDoc, limit),
                      [], maxDoc, dvd, c, footer)
  {
    hide LeI32, PlanEntries, PlansFile;
    SentinelRead(dvd, known, maxDoc, c, footer, limit);
    assert [] + (LeI32(-1) + footer) == LeI32(-1) + footer;
  }

  lemma FieldPlaced(fields: seq<Field>, maxDoc: nat, c: Codec, at: nat, dvd: seq<byte>)
    requires fields != [] && AllStorable(fields) && AllStorable(fields[1..]) && Storable(fields[0].input)
    requires PlacedAt(dvd, at, FileData(fields, maxDoc, c))
    ensures var d := Data(fields[0].input, maxDoc, c);
            PlacedAt(dvd, at, d) && PlacedAt(dvd, at + |d|, FileData(fields[1..], maxDoc, c))
  {
    hide Data, AllStorable, PlacedAt, Storable;
    PlacedPart(dvd, at, Data(fields[0].input, maxDoc, c), FileData(fields[1..], maxDoc, c));
  }

  // One field in front of a file that plans.
  lemma FileStep(fields: seq<Field>, known: map<i32, DvField>, maxDoc: nat, c: Codec, at: nat, dvd: seq<byte>, footer: seq<byte>,
                 limit: nat)
    requires fields != [] && limit > 0 && maxDoc < TWO_31 && AllStorable(fields) && AllStorable(fields[1..])
    requires var f := fields[0]; ValidInput(f.input, maxDoc, c) && Storable(f.input) && f.number >= 0 && Listed(known, f)
    requires PlacedAt(dvd, at, Data(fields[0].input, maxDoc, c))
    requires PlansFile(PlanEntries(FileMeta(fields[1..], maxDoc, c, at + |Data(fields[0].input, maxDoc, c)|) + (LeI32(-1) + footer),
                                   dvd, known, maxDoc, limit - 1), fields[1..], maxDoc, dvd, c, footer)
    ensures PlansFile(PlanEntries(FileMeta(fields, maxDoc, c, at) + (LeI32(-1) + footer), dvd, known, maxDoc, limit),
                      fields, maxDoc, dvd, c, footer)
  {
    hide FieldMeta, Data, Body, LeI32, ReadField, PlanEntries, ValidInput, Storable, Listed, PlansFile, TypeByte, AllStorable, PlacedAt;
    var f, tail, end := fields[0], fields[1..], LeI32(-1) + footer;
    var later := FileMeta(tail, maxDoc, c, at + |Data(f.input, maxDoc, c)|);
    Assoc(FieldMeta(f, maxDoc, c, at), later, end);
    FieldRead(f, known, maxDoc, c, at, dvd, later + end);
    EntryStep(f, tail, known, maxDoc, c, dvd, FieldMeta(f, maxDoc, c, at) + (later + end),
              [TypeByte(f.input)] + (Body(f.input, maxDoc, c, at) + (later + end)), later + end, footer, limit - 1);
    assert fields == [f] + tail;
  }

  lemma FieldsTail(fields: seq<Field>, known: map<i32, DvField>, maxDoc: nat, c: Codec)
    requires fields != [] && ValidFields(fields, known, maxDoc, c) && AllStorable(fields)
    ensures ValidFields(fields[1..], known, maxDoc, c) && AllStorable(fields[1..])
    ensures var f := fields[0]; ValidInput(f.input, maxDoc, c) && Storable(f.input) && f.number >= 0 && Listed(known, f)
  {
    hide ValidInput, Storable, Listed;
  }

  lemma PlacedMiddle(a: seq<byte>, b: seq<byte>, c: seq<byte>)
    requires |a + (b + c)| < TWO_63
    ensures PlacedAt(a + (b + c), |a|, b)
  {
    assert (a + (b + c))[|a|..|a| + |b|] == b;
  }

  // The planner on a finished file: starting after the header it consumes the
  // entries and the sentinel, leaving the footer, and every plan decodes to its
  // field's input, whatever was appended later, exactly when its terms fit.
  lemma FileRoundTrip(fields: seq<Field>, known: map<i32, DvField>, maxDoc: nat, c: Codec,
                      dvdHeader: seq<byte>, dvmFooter: seq<byte>, dvdFooter: seq<byte>)
    requires ValidFields(fields, known, maxDoc, c) && maxDoc < TWO_31 && AllStorable(fields)
    requires |dvdHeader + (FileData(fields, maxDoc, c) + dvdFooter)| < TWO_63
    ensures var dvd := dvdHeader + (FileData(fields, maxDoc, c) + dvdFooter);
            var dvm := FileMeta(fields, maxDoc, c, |dvdHeader|) + (LeI32(-1) + dvmFooter);
            PlansFile(PlanEntries(dvm, dvd, known, maxDoc, |dvm|), fields, maxDoc, dvd, c, dvmFooter)
  {
    hide FileData, FileMeta, LeI32, PlanEntries, ValidFields, AllStorable, PlansFile, PlacedAt;
    var dvd := dvdHeader + (FileData(fields, maxDoc, c) + dvdFooter);
    PlacedMiddle(dvdHeader, FileData(fields, maxDoc, c), dvdFooter);
    MetaLength(fields, maxDoc, c, |dvdHeader|);
    FilePlans(fields, known, maxDoc, c, |dvdHeader|, dvd, dvmFooter, |FileMeta(fields, maxDoc, c, |dvdHeader|) + (LeI32(-1) + dvmFooter)|);
  }

  lemma {:induction false} MetaLength(fields: seq<Field>, maxDoc: nat, c: Codec, at: nat)
    requires AllStorable(fields)
    ensures |FileMeta(fields, maxDoc, c, at)| >= |fields|
    decreases |fields|
  {
    hide Body, Data, TypeByte;
    if fields != [] {
      MetaLength(fields[1..], maxDoc, c, at + |Data(fields[0].input, maxDoc, c)|);
    }
  }
}
