// The field encoders as they run, and the builder that appends fields to a
// metadata stream and a data file.
module DvBuilder {
  import opened Bits
  import opened Wire
  import opened StatsPass
  import opened Bitmap
  import opened Numeric
  import opened NumericWrite
  import opened NumericCode
  import opened Lex
  import opened Monotonic
  import opened MonotonicCode
  import opened TermsDict
  import opened TermsCode
  import opened Ordinals
  import opened Columns
  import opened SortedTerms
  import opened DvFile
  import SortedNumeric
  import BinaryValues
  import Disi

  // ----- cumulative offsets ---------------------------------------------------------------

  lemma {:induction false} EndsSnoc<T>(lists: seq<seq<T>>, list: seq<T>, from: nat)
    ensures Ends(lists + [list], from) == Ends(lists, from) + [Wrap(from + |Flatten(lists)| + |list|)]
  {
    var all := lists + [list];
    if lists == [] {
      assert all[1..] == [];
      assert Ends<T>([], from + |list|) == [Wrap(from + |list|)];
    } else {
      assert all[1..] == lists[1..] + [list];
      EndsSnoc(lists[1..], list, from + |lists[0]|);
    }
  }

  // The running total of the list lengths: where each list starts, and the end.
  method CumulativeEnds<T>(lists: seq<seq<T>>) returns (addr: seq<i64>)
    ensures addr == Ends(lists, 0)
  {
    var cumulative: nat := 0;
    addr := [];
    assert lists[..0] == [];
    assert Ends<T>([], 0) == [Wrap(0)];
    hide Ends, Flatten, Wrap;
    FlattenEmpty<T>();
    for i := 0 to |lists|
      invariant cumulative == |Flatten(lists[..i])|
      invariant addr + [Wrap(cumulative)] == Ends(lists[..i], 0)
    {
      assert lists[..i + 1] == lists[..i] + [lists[i]];
      EndsSnoc(lists[..i], lists[i], 0);
      FlattenSnoc(lists, i);
      addr := addr + [Wrap(cumulative)];
      cumulative := cumulative + |lists[i]|;
    }
    assert lists[..|lists|] == lists;
    addr := addr + [Wrap(cumulative)];
  }

  lemma FlattenEmpty<T>()
    ensures Flatten<T>([]) == []
  {
  }

  method Concatenated<T>(lists: seq<seq<T>>) returns (all: seq<T>)
    ensures all == Flatten(lists)
  {
    all := [];
    FlattenEmpty<T>();
    assert lists[..0] == [];
    for i := 0 to |lists|
      invariant all == Flatten(lists[..i])
    {
      FlattenSnoc(lists, i);
      all := all + lists[i];
    }
    assert lists[..|lists|] == lists;
  }

  // Ends climb, so the address writer accepts them.
  lemma EndsClimb<T>(lists: seq<seq<T>>)
    requires |Flatten(lists)| < TWO_63
    ensures NonDecreasing(Ends(lists, 0))
  {
    var ends := Ends(lists, 0);
    forall i | 1 <= i < |ends| ensures ends[i - 1] <= ends[i] {
      EndsAre(lists, 0, i - 1);
      EndsAre(lists, 0, i);
      FlattenSlice(lists, i - 1);
    }
  }

  // ----- SORTED_NUMERIC ---------------------------------------------------------------------

  method EncodeSortedNumeric(number: i32, docs: seq<nat>, lists: seq<seq<i64>>, maxDoc: nat, dvdBase: nat, p: Predictor)
    returns (r: Result<EncodedField>)
    requires ValidDocs(docs, TWO_31) && |docs| < TWO_31 && |SortedNumeric.AllValues(lists)| < TWO_63
    ensures r.Ok? <==> |docs| == |lists|
    ensures r.Ok? ==> r.value.meta == (LeI32(number) + [4]) + SortedNumeric.Body(docs, lists, maxDoc, p, dvdBase)
    ensures r.Ok? ==> r.value.data == SortedNumeric.Data(docs, lists, maxDoc, p)
    ensures r.Err? ==> r.error == Invalid
  {
    hide EntryBytes, EntryOf, EntryData, LeI32, AddressMeta, AddressData, Flatten, Ends, SortedNumeric.SortEach, NonDecreasing;
    if |docs| != |lists| {
      return Err(Invalid);
    }
    var sorted := SortedNumeric.SortEach(lists);
    var all := Concatenated(sorted);
    var n := |docs|;
    var meta := LeI32(number) + [4];
    ghost var head := meta;
    var data;
    meta, data := WriteValues(Flat(all), docs, maxDoc, dvdBase, meta, []);
    ghost var e := EntryBytes(EntryOf(all, docs, maxDoc, dvdBase));
    assert data == EntryData(all, docs, maxDoc);
    meta := meta + LeI32(n);
    if |all| > n {
      var ends := CumulativeEnds(sorted);
      EndsClimb(sorted);
      var written := WriteAddresses(ends, p, dvdBase, meta, data);
      meta, data := written.value.0, written.value.1;
    }
    ghost var a := if |all| > n then AddressMeta(Ends(sorted, 0), p, dvdBase + |EntryData(all, docs, maxDoc)|) else [];
    Joined(head, e, LeI32(n), a);
    return Ok(EncodedField(meta, data));
  }

  lemma Joined(head: seq<byte>, e: seq<byte>, n: seq<byte>, a: seq<byte>)
    ensures head + e + n + a == head + (e + (n + a)) && head + e + n == head + e + n + []
  {
  }

  // ----- SORTED -----------------------------------------------------------------------------

  method OrdsOf(terms: seq<Term>, dict: seq<Term>) returns (ords: seq<i64>)
    requires |dict| < TWO_63
    ensures ords == OrdList(terms, dict)
  {
    ords := [];
    hide OrdOf;
    for i := 0 to |terms|
      invariant ords == OrdList(terms, dict)[..i]
    {
      ords := ords + [OrdOf(dict, terms[i])]; // binary search of a sorted list that has the term
    }
    assert OrdList(terms, dict)[..|terms|] == OrdList(terms, dict);
  }

  method EncodeSorted(number: i32, docs: seq<nat>, terms: seq<Term>, maxDoc: nat, dvdBase: nat, c: Codec)
    returns (r: Result<EncodedField>)
    requires ValidDocs(docs, TWO_31) && |SortUnique(terms)| < TWO_31 && Encodable(SortUnique(terms))
    requires dvdBase + |SortedData(docs, terms, maxDoc, c)| < TWO_63
    ensures r.Ok? <==> |docs| == |terms|
    ensures r.Ok? ==> r.value.meta == (LeI32(number) + [2]) + SortedBody(docs, terms, maxDoc, c, dvdBase)
    ensures r.Ok? ==> r.value.data == SortedData(docs, terms, maxDoc, c)
    ensures r.Err? ==> r.error == Invalid
  {
    hide EntryBytes, EntryOf, EntryData, LeI32, TermsMeta, TermsData, SortUnique, Encodable, Codable, OrdList, StrictlySorted;
    if |docs| != |terms| {
      return Err(Invalid);
    }
    var dict := SortUnique(terms); // sort, then dedup
    SortUniqueIs(terms);
    SortedIsCodable(dict);
    var ords := OrdsOf(terms, dict);
    var meta := LeI32(number) + [2];
    ghost var head := meta;
    var data;
    meta, data := WriteValues(Flat(ords), docs, maxDoc, dvdBase, meta, []);
    ghost var e := EntryBytes(EntryOf(ords, docs, maxDoc, dvdBase));
    assert data == EntryData(ords, docs, maxDoc);
    r := AddTerms(dict, c, dvdBase, meta, data);
    Assoc(head, e, TermsMeta(dict, c.lz4, c.line, dvdBase + |data|));
  }

  method AddTerms(dict: seq<Term>, c: Codec, dvdBase: nat, meta: seq<byte>, data: seq<byte>) returns (r: Result<EncodedField>)
    requires Encodable(dict) && Codable(dict, |dict|) && dvdBase + |data| + |TermsData(dict, c.lz4, c.line)| < TWO_63
    ensures r.Ok?
    ensures r.value.meta == meta + TermsMeta(dict, c.lz4, c.line, dvdBase + |data|)
    ensures r.value.data == data + TermsData(dict, c.lz4, c.line)
  {
    hide TermsMeta, TermsData, Encodable, Codable;
    var written := AddTermsDict(dict, c.lz4, c.line, dvdBase, meta, data);
    r := Ok(EncodedField(written.value.0, written.value.1));
  }

  // ----- SORTED_SET --------------------------------------------------------------------------

  method OrdsPerDoc(sets: seq<seq<Term>>, dict: seq<Term>) returns (ords: seq<seq<i64>>, multi: bool)
    requires dict == DictOf(sets) && |dict| < TWO_31
    ensures ords == SetOrds(sets) && multi == AnyMany(SetOrds(sets))
  {
    hide DictOf, DocOrds;
    ords, multi := [], false;
    ghost var all := SetOrds(sets);
    for i := 0 to |sets|
      invariant ords == all[..i]
      invariant multi <==> exists k :: 0 <= k < i && |all[k]| > 1
    {
      var list := OrdsOf(sets[i], dict);
      DocOrdsIs(sets[i], dict);
      var own := SortUniqueOrds(list); // sort, then dedup
      assert own == all[i];
      ords := ords + [own];
      multi := multi || |own| > 1;
    }
    assert all[..|sets|] == all;
  }

  lemma DocOrdsIs(terms: seq<Term>, dict: seq<Term>)
    requires |dict| < TWO_63
    ensures DocOrds(terms, dict) == SortUniqueOrds(OrdList(terms, dict))
  {
  }

  method EncodeSortedSet(number: i32, docs: seq<nat>, sets: seq<seq<Term>>, maxDoc: nat, dvdBase: nat, c: Codec)
    returns (r: Result<EncodedField>)
    requires ValidDocs(docs, TWO_31) && |docs| < TWO_31 && |DictOf(sets)| < TWO_31 && Encodable(DictOf(sets))
    requires |Flatten(SetOrds(sets))| < TWO_63 && dvdBase + |SetData(docs, sets, maxDoc, c)| < TWO_63
    ensures r.Ok? <==> |docs| == |sets|
    ensures r.Ok? ==> r.value.meta == (LeI32(number) + [3]) + SetBody(docs, sets, maxDoc, c, dvdBase)
    ensures r.Ok? ==> r.value.data == SetData(docs, sets, maxDoc, c)
    ensures r.Err? ==> r.error == Invalid
  {
    hide EntryBytes, EntryOf, EntryData, LeI32, TermsMeta, TermsData, Flatten, Encodable, Codable, AddressMeta, AddressData, SetOrds,
         Ends, AnyMany, NonDecreasing, StrictlySorted, SortUnique;
    if |docs| != |sets| {
      return Err(Invalid);
    }
    var dict := SortUnique(Flatten(sets)); // sort, then dedup
    DictSorted(sets);
    SortedIsCodable(dict);
    var ords, multi := OrdsPerDoc(sets, dict);
    var meta := LeI32(number) + [3] + [if multi then 1 else 0];
    ghost var head := meta;
    var all := Concatenated(ords);
    var data;
    meta, data := WriteValues(Flat(all), docs, maxDoc, dvdBase, meta, []);
    ghost var e := EntryBytes(EntryOf(all, docs, maxDoc, dvdBase));
    ghost var d := EntryData(all, docs, maxDoc);
    assert data == d;
    if multi {
      var ends := CumulativeEnds(ords);
      EndsClimb(ords);
      var written := WriteAddresses(ends, c.line, dvdBase, meta + LeI32(|docs|), data);
      meta, data := written.value.0, written.value.1;
    }
    assert data == d + SetAddressData(sets, c);
    ghost var a := if multi then LeI32(|docs|) + AddressMeta(Ends(ords, 0), c.line, dvdBase + |d|) else [];
    Assoc(d, SetAddressData(sets, c), TermsData(dict, c.lz4, c.line));
    assert meta == head + e + a by { Assoc(head + e, LeI32(|docs|), AddressMeta(Ends(ords, 0), c.line, dvdBase + |d|)); }
    ghost var t := TermsMeta(dict, c.lz4, c.line, dvdBase + |data|);
    JoinedSet(LeI32(number) + [3], [if multi then 1 else 0], e, a, t);
    r := AddTerms(dict, c, dvdBase, meta, data);
  }

  lemma JoinedSet(head: seq<byte>, flag: seq<byte>, e: seq<byte>, a: seq<byte>, t: seq<byte>)
    ensures head + flag + e + a + t == head + (flag + (e + (a + t)))
  {
  }

  // ----- BINARY -------------------------------------------------------------------------------

  method BlobLengths(blobs: seq<seq<byte>>) returns (data: seq<byte>, least: nat, most: nat)
    ensures data == Flatten(blobs)
    ensures least == BinaryValues.MinLength(blobs) && most == BinaryValues.MaxLength(blobs)
  {
    data, least, most := [], BinaryValues.MAX_I32, 0;
    FlattenEmpty<byte>();
    assert blobs[..0] == [];
    hide Flatten;
    for i := 0 to |blobs|
      invariant data == Flatten(blobs[..i])
      invariant least == BinaryValues.MinLength(blobs[..i]) && most == BinaryValues.MaxLength(blobs[..i])
    {
      FlattenSnoc(blobs, i);
      assert blobs[..i + 1][..i] == blobs[..i];
      least := if |blobs[i]| < least then |blobs[i]| else least;
      most := if |blobs[i]| > most then |blobs[i]| else most;
      data := data + blobs[i];
    }
    assert blobs[..|blobs|] == blobs;
  }

  method EncodeBinary(number: i32, docs: seq<nat>, blobs: seq<seq<byte>>, maxDoc: nat, dvdBase: nat, p: Predictor)
    returns (r: Result<EncodedField>)
    requires ValidDocs(docs, TWO_31) && |Flatten(blobs)| < TWO_63
    ensures r.Ok? <==> |docs| == |blobs|
    ensures r.Ok? ==> r.value.meta == (LeI32(number) + [1]) + BinaryValues.Body(docs, blobs, maxDoc, p, dvdBase)
    ensures r.Ok? ==> r.value.data == BinaryValues.Data(docs, blobs, maxDoc, p)
    ensures r.Err? ==> r.error == Invalid
  {
    hide LeI32, LeI64, Wrap, DocsBytes, DocsOf, DocsData, AddressMeta, AddressData, Flatten, Ends, NonDecreasing,
         AsI32, BinaryValues.MinLength, BinaryValues.MaxLength;
    if |docs| != |blobs| {
      return Err(Invalid);
    }
    var data, least, most := BlobLengths(blobs);
    if |docs| == 0 {
      least := 0;
    }
    assert least == BinaryValues.LeastLength(blobs);
    ghost var flat := data;
    var head := LeI32(number) + [1];
    var region := LeI64(Wrap(dvdBase)) + LeI64(Wrap(|data|));
    var meta;
    meta, data := WriteDocs(docs, |docs|, maxDoc, dvdBase, head + region, data);
    ghost var d := DocsBytes(DocsOf(docs, |docs|, maxDoc, dvdBase + |flat|));
    ghost var dd := DocsData(docs, |docs|, maxDoc);
    var counts := LeI32(AsI32(|docs|)) + (LeI32(AsI32(least)) + LeI32(AsI32(most)));
    meta := meta + counts;
    if most > least {
      var ends := CumulativeEnds(blobs);
      EndsClimb(blobs);
      var written := WriteAddresses(ends, p, dvdBase, meta, data);
      meta, data := written.value.0, written.value.1;
    }
    ghost var a := if most > least then AddressMeta(Ends(blobs, 0), p, dvdBase + |flat| + |dd|) else [];
    JoinedSet(head, region, d, counts, a);
    assert head + region + d + counts == head + region + d + counts + [];
    ghost var ad := if most > least then AddressData(Ends(blobs, 0), p) else [];
    Assoc(flat, dd, ad);
    assert flat + dd + [] == flat + dd;
    return Ok(EncodedField(meta, data));
  }

  // ----- the file builder ---------------------------------------------------------------------

  lemma StorableParts(a: seq<Field>, b: seq<Field>)
    requires AllStorable(a + b)
    ensures AllStorable(a) && AllStorable(b)
  {
    hide Storable;
    var all := a + b;
    assert forall i :: 0 <= i < |a| ==> all[i] == a[i];
    assert forall i :: 0 <= i < |b| ==> all[|a| + i] == b[i];
  }

  // Appending a field appends its entry and its payload.
  lemma {:induction false} FileSnoc(fields: seq<Field>, f: Field, maxDoc: nat, c: Codec, at: nat)
    requires AllStorable(fields) && Storable(f.input) && AllStorable(fields + [f])
    ensures FileMeta(fields + [f], maxDoc, c, at) ==
            FileMeta(fields, maxDoc, c, at) + FieldMeta(f, maxDoc, c, at + |FileData(fields, maxDoc, c)|)
    ensures FileData(fields + [f], maxDoc, c) == FileData(fields, maxDoc, c) + DvFile.Data(f.input, maxDoc, c)
    decreases |fields|
  {
    hide FieldMeta, DvFile.Data, Storable, Body;
    var all := fields + [f];
    if fields == [] {
      assert all[1..] == [];
      OneField(f, maxDoc, c, at);
    } else {
      var at' := at + |DvFile.Data(fields[0].input, maxDoc, c)|;
      assert all[1..] == fields[1..] + [f];
      StorableParts([fields[0]], fields[1..] + [f]);
      FileSnoc(fields[1..], f, maxDoc, c, at');
      Assoc(FieldMeta(fields[0], maxDoc, c, at), FileMeta(fields[1..], maxDoc, c, at'),
            FieldMeta(f, maxDoc, c, at' + |FileData(fields[1..], maxDoc, c)|));
      Assoc(DvFile.Data(fields[0].input, maxDoc, c), FileData(fields[1..], maxDoc, c), DvFile.Data(f.input, maxDoc, c));
    }
  }

  lemma OneField(f: Field, maxDoc: nat, c: Codec, at: nat)
    requires Storable(f.input)
    ensures AllStorable([f])
    ensures FileMeta([f], maxDoc, c, at) == FieldMeta(f, maxDoc, c, at)
    ensures FileData([f], maxDoc, c) == DvFile.Data(f.input, maxDoc, c)
  {
    hide FieldMeta, DvFile.Data;
    assert [f][1..] == [];
    assert FieldMeta(f, maxDoc, c, at) + [] == FieldMeta(f, maxDoc, c, at);
    assert DvFile.Data(f.input, maxDoc, c) + [] == DvFile.Data(f.input, maxDoc, c);
  }

  // One .dvm and one .dvd, field by field. Headers and footers are opaque.
  class DocValuesFileBuilder {
    var dvm: seq<byte>
    var dvd: seq<byte>
    ghost var fields: seq<Field>
    ghost const dvmHeader: seq<byte>
    ghost const dvdHeader: seq<byte>
    const maxDoc: nat
    const codec: Codec

    ghost predicate Valid()
      reads this
    {
      && maxDoc < TWO_31 && Inverts(codec.lz4)
      && AllStorable(fields)
      && (forall i :: 0 <= i < |fields| ==> fields[i].number >= 0 && ValidInput(fields[i].input, maxDoc, codec))
      && dvm == dvmHeader + FileMeta(fields, maxDoc, codec, |dvdHeader|)
      && dvd == dvdHeader + FileData(fields, maxDoc, codec)
    }

    constructor (dvmHeader: seq<byte>, dvdHeader: seq<byte>, maxDoc: nat, codec: Codec)
      requires maxDoc < TWO_31 && Inverts(codec.lz4)
      ensures Valid() && fields == [] && this.maxDoc == maxDoc && this.codec == codec
      ensures this.dvmHeader == dvmHeader && this.dvdHeader == dvdHeader
    {
      dvm, dvd := dvmHeader, dvdHeader;
      fields := [];
      this.dvmHeader, this.dvdHeader, this.maxDoc, this.codec := dvmHeader, dvdHeader, maxDoc, codec;
    }

    // Room for one more field below the format's 63-bit offsets.
    ghost predicate Fits(f: FieldInput)
      reads this
      requires Storable(f)
    {
      |dvd| + |DvFile.Data(f, maxDoc, codec)| < TWO_63
    }

    // The last step of every `add`: both encoded parts are appended.
    method Append(f: Field, e: EncodedField)
      requires Valid() && f.number >= 0 && Storable(f.input) && ValidInput(f.input, maxDoc, codec)
      requires e.meta == FieldMeta(f, maxDoc, codec, |dvd|) && e.data == DvFile.Data(f.input, maxDoc, codec)
      modifies this
      ensures Valid() && fields == old(fields) + [f]
    {
      hide FieldMeta, DvFile.Data, FileMeta, FileData, Storable, ValidInput, Inverts;
      FileSnoc(fields, f, maxDoc, codec, |dvdHeader|);
      Assoc(dvmHeader, FileMeta(fields, maxDoc, codec, |dvdHeader|), e.meta);
      Assoc(dvdHeader, FileData(fields, maxDoc, codec), e.data);
      dvm := dvm + e.meta;
      dvd := dvd + e.data;
      fields := fields + [f];
    }

    method AddNumeric(number: i32, docs: seq<nat>, values: seq<i64>) returns (r: Result<()>)
      requires Valid() && number >= 0
      modifies this
      ensures Valid()
      ensures r.Ok? <==> |docs| == |values| && ValidDocs(docs, maxDoc)
      ensures fields == if r.Ok? then old(fields) + [Field(number, NumericField(docs, values))] else old(fields)
    {
      hide EntryBytes, EntryOf, EntryData, FileMeta, FileData, Ascending, AllBelow, LeI32, AllStorable;
      var e :- EncodeNumericField(number, docs, values, maxDoc, |dvd|);
      Append(Field(number, NumericField(docs, values)), e);
      return Ok(());
    }

    method AddNumericDenseChunks(number: i32, chunks: seq<seq<i64>>) returns (r: Result<()>)
      requires Valid() && number >= 0 && Chunks(chunks).Readable()
      modifies this
      ensures Valid()
      ensures r.Ok? <==> |Flatten(chunks)| == maxDoc
      ensures fields == if r.Ok? then old(fields) + [Field(number, NumericField(Disi.Range(0, maxDoc), Flatten(chunks)))] else old(fields)
    {
      hide EntryBytes, EntryOf, EntryData, FileMeta, FileData, LeI32, Flatten, AllStorable;
      var e :- EncodeDenseChunks(number, chunks, maxDoc, |dvd|);
      Append(Field(number, NumericField(Disi.Range(0, maxDoc), Flatten(chunks))), e);
      return Ok(());
    }

    method AddSorted(number: i32, docs: seq<nat>, terms: seq<Term>) returns (r: Result<()>)
      requires Valid() && number >= 0
      requires |docs| == |terms| ==> ValidTerms(docs, |terms|, SortUnique(terms), maxDoc, codec) && Fits(SortedField(docs, terms))
      modifies this
      ensures Valid()
      ensures r.Ok? <==> |docs| == |terms|
      ensures fields == if r.Ok? then old(fields) + [Field(number, SortedField(docs, terms))] else old(fields)
    {
      hide SortedBody, SortedData, FileMeta, FileData, LeI32, SortUnique, Encodable, AllStorable;
      if |docs| != |terms| {
        return Err(Invalid);
      }
      var e := EncodeSorted(number, docs, terms, maxDoc, |dvd|, codec);
      Append(Field(number, SortedField(docs, terms)), e.value);
      return Ok(());
    }

    method AddSortedSet(number: i32, docs: seq<nat>, sets: seq<seq<Term>>) returns (r: Result<()>)
      requires Valid() && number >= 0
      requires |docs| == |sets| ==> |DictOf(sets)| < TWO_31 && |docs| < TWO_31 && ValidSets(docs, sets, maxDoc, codec)
                                    && Fits(SortedSetField(docs, sets))
      modifies this
      ensures Valid()
      ensures r.Ok? <==> |docs| == |sets|
      ensures fields == if r.Ok? then old(fields) + [Field(number, SortedSetField(docs, sets))] else old(fields)
    {
      hide SetBody, SetData, FileMeta, FileData, LeI32, DictOf, Encodable, SetOrds, Flatten, AllStorable;
      if |docs| != |sets| {
        return Err(Invalid);
      }
      var e := EncodeSortedSet(number, docs, sets, maxDoc, |dvd|, codec);
      Append(Field(number, SortedSetField(docs, sets)), e.value);
      return Ok(());
    }

    method AddSortedNumeric(number: i32, docs: seq<nat>, lists: seq<seq<i64>>) returns (r: Result<()>)
      requires Valid() && number >= 0
      requires |docs| == |lists| ==> SortedNumeric.Valid(docs, lists, maxDoc) && |docs| < TWO_31
      modifies this
      ensures Valid()
      ensures r.Ok? <==> |docs| == |lists|
      ensures fields == if r.Ok? then old(fields) + [Field(number, SortedNumericField(docs, lists))] else old(fields)
    {
      hide SortedNumeric.Body, SortedNumeric.Data, FileMeta, FileData, LeI32, SortedNumeric.AllValues, AllStorable;
      if |docs| != |lists| {
        return Err(Invalid);
      }
      var e := EncodeSortedNumeric(number, docs, lists, maxDoc, |dvd|, codec.line);
      Append(Field(number, SortedNumericField(docs, lists)), e.value);
      return Ok(());
    }

    method AddBinary(number: i32, docs: seq<nat>, blobs: seq<seq<byte>>) returns (r: Result<()>)
      requires Valid() && number >= 0
      requires |docs| == |blobs| ==> BinaryValues.Valid(docs, blobs, maxDoc)
      modifies this
      ensures Valid()
      ensures r.Ok? <==> |docs| == |blobs|
      ensures fields == if r.Ok? then old(fields) + [Field(number, BinaryField(docs, blobs))] else old(fields)
    {
      hide BinaryValues.Body, BinaryValues.Data, FileMeta, FileData, LeI32, Flatten, AllStorable;
      if |docs| != |blobs| {
        return Err(Invalid);
      }
      var e := EncodeBinary(number, docs, blobs, maxDoc, |dvd|, codec.line);
      Append(Field(number, BinaryField(docs, blobs)), e.value);
      return Ok(());
    }

    // The sentinel and the footers. From the finished files the planner, given an
    // inventory that lists the fields, plans every field back to its input.
    method Finish(dvmFooter: seq<byte>, dvdFooter: seq<byte>) returns (meta: seq<byte>, data: seq<byte>)
      requires Valid() && |dvd| + |dvdFooter| < TWO_63
      ensures |dvmHeader| <= |meta|
      ensures forall known: map<i32, DvField> :: AllListed(known, fields) ==>
                PlansFile(PlanEntries(meta[|dvmHeader|..], data, known, maxDoc, |meta| - |dvmHeader|),
                          fields, maxDoc, data, codec, dvmFooter)
    {
      hide FileMeta, FileData, LeI32, PlansFile, PlanEntries, Storable, ValidInput, Listed;
      meta := dvm + LeI32(-1) + dvmFooter;
      data := dvd + dvdFooter;
      ghost var m := FileMeta(fields, maxDoc, codec, |dvdHeader|) + (LeI32(-1) + dvmFooter);
      Assoc(dvmHeader, FileMeta(fields, maxDoc, codec, |dvdHeader|), LeI32(-1));
      Assoc(dvmHeader, FileMeta(fields, maxDoc, codec, |dvdHeader|) + LeI32(-1), dvmFooter);
      Assoc(FileMeta(fields, maxDoc, codec, |dvdHeader|), LeI32(-1), dvmFooter);
      assert meta == dvmHeader + m && meta[|dvmHeader|..] == m;
      Assoc(dvdHeader, FileData(fields, maxDoc, codec), dvdFooter);
      forall known: map<i32, DvField> | AllListed(known, fields)
        ensures PlansFile(PlanEntries(m, data, known, maxDoc, |m|), fields, maxDoc, data, codec, dvmFooter)
      {
        FileRoundTrip(fields, known, maxDoc, codec, dvdHeader, dvmFooter, dvdFooter);
      }
    }
  }
}
